/**
 * The start-up of the plugin in main.go: the options read from the
 * environment overwrite the command-line flags (with local and remote
 * swapped in server mode), and the mode then decides which pair of adapters
 * is started around one shared link.
 */
module Plugin {
  import opened Common
  import opened Options
  import opened Links

  const Colon: byte := 58

  /** The option keys `parseOpts` looks up, besides the four endpoint keys. */
  const TlsKey: Bytes := Ascii("tls")
  const HostKey: Bytes := Ascii("host")
  const PathKey: Bytes := Ascii("path")
  const LogLevelKey: Bytes := Ascii("loglevel")
  const ServerKey: Bytes := Ascii("server")
  const FastOpenKey: Bytes := Ascii("fastOpen")

  /** The flags `parseOpts` sets from the first five keys, before it looks at any endpoint. */
  datatype Settings = Settings(tlsEnabled: bool, host: Bytes, path: Bytes, logLevel: Bytes, serverMode: bool)

  /** The four endpoint flags. */
  datatype Endpoints = Endpoints(localAddr: Bytes, localPort: Bytes, remoteAddr: Bytes, remotePort: Bytes)

  /** The values of the flag variables, and the `remoteHostPort` built from them. */
  datatype Config = Config(settings: Settings, endpoints: Endpoints, fastOpen: bool, version: bool, remoteHostPort: Bytes)

  /** The defaults the flags are declared with. */
  function Defaults(): Config
  {
    Config(Settings(true, Ascii("cloudfront.com"), Ascii("/api"), [], false),
           Endpoints(Ascii("127.0.0.1"), Ascii("1984"), Ascii("127.0.0.1"), Ascii("1080")),
           false, false, [])
  }

  /** Is there a value for `key`? */
  predicate Present(t: Table, key: Bytes)
  {
    Lookup(t, key).1
  }

  /** The first value of `key` when there is one, and `current` otherwise. */
  function Override(t: Table, key: Bytes, current: Bytes): Bytes
  {
    if Present(t, key) then Lookup(t, key).0 else current
  }

  /** The `host:port` text of an address and a port. */
  function HostPort(addr: Bytes, port: Bytes): Bytes
  {
    addr + [Colon] + port
  }

  /** A flag key present in the options turns its flag on; a text key replaces its flag with its first value. */
  function RemapSettings(s: Settings, t: Table): Settings
  {
    Settings(s.tlsEnabled || Present(t, TlsKey), Override(t, HostKey, s.host), Override(t, PathKey, s.path),
             Override(t, LogLevelKey, s.logLevel), s.serverMode || Present(t, ServerKey))
  }

  /** In server mode a `local` key goes to the remote flag and a `remote` key to the local flag. */
  function Routed(e: Endpoints, t: Table, server: bool): Endpoints
  {
    Endpoints(Override(t, if server then RemoteAddrKey else LocalAddrKey, e.localAddr),
              Override(t, if server then RemotePortKey else LocalPortKey, e.localPort),
              Override(t, if server then LocalAddrKey else RemoteAddrKey, e.remoteAddr),
              Override(t, if server then LocalPortKey else RemotePortKey, e.remotePort))
  }

  /**
   * Each flag after `parseOpts`: the settings first, then the endpoints routed
   * by the server mode those settings ended with, then `fastOpen`; `version`
   * is left alone and `remoteHostPort` is rebuilt from the remote endpoint.
   */
  function Remap(c: Config, t: Table): Config
  {
    var s := RemapSettings(c.settings, t);
    var e := Routed(c.endpoints, t, s.serverMode);
    Config(s, e, c.fastOpen || Present(t, FastOpenKey), c.version, HostPort(e.remoteAddr, e.remotePort))
  }

  /** The flags `tls`, `server` and `fastOpen` can be turned on by a key, never off. */
  lemma RemapOnlyTurnsOn(c: Config, t: Table)
    ensures Remap(c, t).settings.tlsEnabled <==> c.settings.tlsEnabled || Present(t, TlsKey)
    ensures Remap(c, t).settings.serverMode <==> c.settings.serverMode || Present(t, ServerKey)
    ensures Remap(c, t).fastOpen <==> c.fastOpen || Present(t, FastOpenKey)
  {
  }

  /** With no options every flag keeps its value; only `remoteHostPort` is rebuilt. */
  lemma RemapNoOptions(c: Config)
    ensures Remap(c, map[]) == c.(remoteHostPort := HostPort(c.endpoints.remoteAddr, c.endpoints.remotePort))
  {
  }

  /** `remoteHostPort` is always the remote address and port joined by a colon. */
  lemma RemapRemoteHostPort(c: Config, t: Table)
    ensures var r := Remap(c, t); r.remoteHostPort == r.endpoints.remoteAddr + [Colon] + r.endpoints.remotePort
    ensures Remap(c, t).version == c.version
  {
  }

  /** In client mode the endpoint keys go to the flags of the same name. */
  lemma RemapClient(c: Config, t: Table)
    requires !c.settings.serverMode && !Present(t, ServerKey)
    ensures Remap(c, t).endpoints.localAddr == Override(t, LocalAddrKey, c.endpoints.localAddr)
    ensures Remap(c, t).endpoints.localPort == Override(t, LocalPortKey, c.endpoints.localPort)
    ensures Remap(c, t).endpoints.remoteAddr == Override(t, RemoteAddrKey, c.endpoints.remoteAddr)
    ensures Remap(c, t).endpoints.remotePort == Override(t, RemotePortKey, c.endpoints.remotePort)
  {
  }

  /**
   * In server mode, including server mode turned on by the same options, the
   * local keys go to the remote flags and the remote keys to the local flags.
   */
  lemma RemapServer(c: Config, t: Table)
    requires c.settings.serverMode || Present(t, ServerKey)
    ensures Remap(c, t).endpoints.remoteAddr == Override(t, LocalAddrKey, c.endpoints.remoteAddr)
    ensures Remap(c, t).endpoints.remotePort == Override(t, LocalPortKey, c.endpoints.remotePort)
    ensures Remap(c, t).endpoints.localAddr == Override(t, RemoteAddrKey, c.endpoints.localAddr)
    ensures Remap(c, t).endpoints.localPort == Override(t, RemotePortKey, c.endpoints.localPort)
  {
  }

  /** Only the first value of each key matters. */
  lemma RemapFirstValues(c: Config, t: Table, u: Table)
    requires forall k :: Lookup(t, k) == Lookup(u, k)
    ensures Remap(c, t) == Remap(c, u)
  {
    assert Lookup(t, ServerKey) == Lookup(u, ServerKey);
    assert Lookup(t, LocalAddrKey) == Lookup(u, LocalAddrKey);
    assert Lookup(t, LocalPortKey) == Lookup(u, LocalPortKey);
    assert Lookup(t, RemoteAddrKey) == Lookup(u, RemoteAddrKey);
    assert Lookup(t, RemotePortKey) == Lookup(u, RemotePortKey);
    assert Lookup(t, PathKey) == Lookup(u, PathKey);
    assert Lookup(t, HostKey) == Lookup(u, HostKey);
    assert Lookup(t, TlsKey) == Lookup(u, TlsKey);
    assert Lookup(t, LogLevelKey) == Lookup(u, LogLevelKey);
    assert Lookup(t, FastOpenKey) == Lookup(u, FastOpenKey);
  }

  /** Applying the same options a second time changes nothing more. */
  lemma RemapIdempotent(c: Config, t: Table)
    ensures Remap(Remap(c, t), t) == Remap(c, t)
  {
  }

  /** The first five `if`s of `parseOpts`, in their order, on the values the flags hold. */
  method ReadSettings(opts: Args, s: Settings) returns (r: Settings)
    ensures r == RemapSettings(s, opts.entries)
  {
    var tlsEnabled, host, path, logLevel, serverMode := s.tlsEnabled, s.host, s.path, s.logLevel, s.serverMode;
    var g := Get(opts, TlsKey);
    if g.1 {
      tlsEnabled := true;
    }
    g := Get(opts, HostKey);
    if g.1 {
      host := g.0;
    }
    g := Get(opts, PathKey);
    if g.1 {
      path := g.0;
    }
    g := Get(opts, LogLevelKey);
    if g.1 {
      logLevel := g.0;
    }
    g := Get(opts, ServerKey);
    if g.1 {
      serverMode := true;
    }
    r := Settings(tlsEnabled, host, path, logLevel, serverMode);
  }

  /** The four endpoint `if`s of `parseOpts`, each choosing its flag by the server mode. */
  method ReadEndpoints(opts: Args, serverMode: bool, e: Endpoints) returns (r: Endpoints)
    ensures r == Routed(e, opts.entries, serverMode)
  {
    var localAddr, localPort, remoteAddr, remotePort := e.localAddr, e.localPort, e.remoteAddr, e.remotePort;
    var g := Get(opts, LocalAddrKey);
    if g.1 {
      if serverMode {
        remoteAddr := g.0;
      } else {
        localAddr := g.0;
      }
    }
    g := Get(opts, LocalPortKey);
    if g.1 {
      if serverMode {
        remotePort := g.0;
      } else {
        localPort := g.0;
      }
    }
    g := Get(opts, RemoteAddrKey);
    if g.1 {
      if serverMode {
        localAddr := g.0;
      } else {
        remoteAddr := g.0;
      }
    }
    g := Get(opts, RemotePortKey);
    if g.1 {
      if serverMode {
        localPort := g.0;
      } else {
        remotePort := g.0;
      }
    }
    r := Endpoints(localAddr, localPort, remoteAddr, remotePort);
  }

  /**
   * The global flag variables of main.go, which `parseOpts` overwrites in
   * place, grouped as `parseOpts` reads them.
   */
  class Flags {
    var settings: Settings
    var endpoints: Endpoints
    var fastOpen: bool
    var version: bool
    var remoteHostPort: Bytes

    function Values(): Config
      reads this
    {
      Config(settings, endpoints, fastOpen, version, remoteHostPort)
    }

    /** The flags as declared, before the command line is parsed. */
    constructor ()
      ensures Values() == Defaults()
    {
      settings := Settings(true, Ascii("cloudfront.com"), Ascii("/api"), [], false);
      endpoints := Endpoints(Ascii("127.0.0.1"), Ascii("1984"), Ascii("127.0.0.1"), Ascii("1080"));
      fastOpen, version, remoteHostPort := false, false, [];
    }

    /**
     * `parseOpts`: reads the options from the environment and, unless that
     * fails, overwrites the flags one key at a time and builds
     * `remoteHostPort`. On failure no flag changes.
     */
    method ParseOpts(env: Env) returns (err: Option<Error>)
      modifies this
      ensures EnvOptions(env).Err? ==> err == Some(EnvOptions(env).error) && Values() == old(Values())
      ensures EnvOptions(env).Ok? ==> err == None && Values() == Remap(old(Values()), EnvOptions(env).value)
    {
      var opts, e := ParseEnv(env);
      if e.Some? {
        return e;
      }
      Apply(opts);
      err := None;
    }

    /** The body of `parseOpts` once the options are read, in the order of main.go. */
    method Apply(opts: Args)
      modifies this
      ensures Values() == Remap(old(Values()), opts.entries)
    {
      settings := ReadSettings(opts, settings);
      endpoints := ReadEndpoints(opts, settings.serverMode, endpoints);
      var g := Get(opts, FastOpenKey);
      if g.1 {
        fastOpen := true;
      }
      remoteHostPort := HostPort(endpoints.remoteAddr, endpoints.remotePort);
    }
  }

  /** The address an adapter listens on or dials: the text given to `net.ResolveTCPAddr`. */
  datatype Endpoint = Endpoint(addr: Bytes, port: Bytes)

  /** The four adapters, each holding the link it forwards through. */
  datatype Adapter =
    | HttpServer(localAddr: Endpoint, path: Bytes, link: Link)
    | FreeClient(remoteAddr: Endpoint, link: Link)
    | FreeServer(localAddr: Endpoint, link: Link)
    | HttpClient(remoteHostPort: Bytes, path: Bytes, link: Link)

  /** Does the adapter accept connections (rather than make them)? */
  predicate Listens(a: Adapter)
  {
    a.HttpServer? || a.FreeServer?
  }

  /** Does the adapter speak HTTP (rather than forward raw TCP)? */
  predicate SpeaksHttp(a: Adapter)
  {
    a.HttpServer? || a.HttpClient?
  }

  /**
   * The pair `main` starts: a listener on the local endpoint and a client
   * towards the remote side, sharing one link; HTTP faces the network on
   * the listening side in server mode and on the dialling side in client mode.
   */
  function Wiring(c: Config, link: Link): (pair: (Adapter, Adapter))
    ensures pair.0.link == link && pair.1.link == link
    ensures Listens(pair.0) && !Listens(pair.1)
    ensures pair.0.localAddr == Endpoint(c.endpoints.localAddr, c.endpoints.localPort)
    ensures SpeaksHttp(pair.0) <==> c.settings.serverMode
    ensures SpeaksHttp(pair.1) <==> !c.settings.serverMode
    ensures pair.1.FreeClient? ==> pair.1.remoteAddr == Endpoint(c.endpoints.remoteAddr, c.endpoints.remotePort)
    ensures pair.1.HttpClient? ==> pair.1.remoteHostPort == c.remoteHostPort && pair.1.path == c.settings.path
  {
    var e := c.endpoints;
    var local := Endpoint(e.localAddr, e.localPort);
    if c.settings.serverMode then
      (HttpServer(local, c.settings.path, link), FreeClient(Endpoint(e.remoteAddr, e.remotePort), link))
    else
      (FreeServer(local, link), HttpClient(c.remoteHostPort, c.settings.path, link))
  }

  /** How `main` ends or what it leaves running. */
  datatype Launch = Fatal(error: Error) | ShowedVersion | Running(listener: Adapter, dialer: Adapter)

  /**
   * `main` after the command line is parsed: a fatal error when the options
   * cannot be read, the version when asked for, and otherwise a fresh link
   * with the pair of adapters of the mode around it.
   */
  method Start(flags: Flags, env: Env) returns (l: Launch)
    modifies flags
    ensures EnvOptions(env).Err? ==> l == Fatal(EnvOptions(env).error)
    ensures EnvOptions(env).Ok? ==> flags.Values() == Remap(old(flags.Values()), EnvOptions(env).value)
    ensures EnvOptions(env).Ok? && flags.version ==> l == ShowedVersion
    ensures EnvOptions(env).Ok? && !flags.version ==>
              l.Running? && fresh(l.listener.link) && l.listener.link.stream == [] && !l.listener.link.closed &&
              (l.listener, l.dialer) == Wiring(flags.Values(), l.listener.link)
  {
    var err := flags.ParseOpts(env);
    if err.Some? {
      return Fatal(err.value);
    }
    if flags.version {
      return ShowedVersion;
    }
    var link := new Link();
    var pair := Wiring(flags.Values(), link);
    l := Running(pair.0, pair.1);
  }
}
