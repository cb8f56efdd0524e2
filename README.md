# http-plugin: options, link framing and start-up

A model of the core of a SIP003 plugin for shadowsocks that carries the
proxied TCP stream over HTTP. Three parts of the program are modelled:

- **Options** (`options.dfy`; args.go). This part covers:
  - the `Args` multimap from a key to its list of values, with `Get` and `Add`;
  - the escape-aware scanner `indexUnescaped`;
  - the `SS_PLUGIN_OPTIONS` grammar `k=v;flag;...` read by `parsePluginOptions`, and its inverse `backslashEscape`;
  - `parseEnv`, which reads the four `SS_REMOTE_HOST`, `SS_REMOTE_PORT`, `SS_LOCAL_HOST` and `SS_LOCAL_PORT` variables and overlays the plugin options on them.
- **Links** (`uvarint.dfy`, `links.dfy`; link.go). This part covers:
  - the internal link between the two adapters;
  - its framing: one message is the unsigned LEB128 varint of the payload length (Go's `binary.PutUvarint` and `binary.ReadUvarint`), then the payload;
  - `makeLink`, `Write`, `Read` and the no-op `SetError`.
- **Plugin** (`plugin.dfy`; main.go). This part covers:
  - `parseOpts`, which overwrites the command-line flags with the options from the environment and swaps local and remote in server mode;
  - the start-up in `main`, which picks the pair of adapters for the mode around one shared link.

`common.dfy` holds the shared vocabulary: Go's byte strings, the
Option/Result wrappers for Go's `(value, error)` returns, and the `io`
errors.

The environment is an input map (`Options.Env`). The pipe under a `Link`
is a byte sequence that the writer appends to and the reader consumes
from the front. The flag variables are the fields of the class
`Plugin.Flags`. They are grouped the way `parseOpts` works through them:
- the five keys read first (`Settings`);
- the four endpoints (`Endpoints`);
- `fastOpen`, `version` and `remoteHostPort`.

`Plugin.ReadSettings` and `Plugin.ReadEndpoints` run the `if`s of
`parseOpts` in the order of main.go on local copies. `Plugin.Flags.Apply`
then writes each group back. The endpoint step reads the server mode that
the settings step ended with, as Go reads `*serverMode` after it may have
been set.

One method exists only in the model. `Links.Link.CloseWriter` models the
`Close` of Go's `io.PipeWriter`, which the program never calls. It is there
so that the closed-pipe error of `Write` is reachable.

## Model

| member | source | states |
|---|---|---|
| Options.Args.constructor | args.go:103 | `make(Args)` is an empty map |
| Options.Args.Add | args.go:30-32 | the key's list gains the value at its end; every other key keeps its list |
| Options.Appended | args.go:30-32 | after an add, the keys are the old keys plus the added key; the added key's list is the old list (empty when the key was absent) plus the value; other keys are unchanged |
| Options.AppendedFresh | args.go:31 | adding to an absent key gives it the single value |
| Options.Lookup | args.go:22-26 | it reports a value exactly when the key is present with a non-empty list, and that value is the first of the list; otherwise the value is "" |
| Options.Get | args.go:18-27 | a nil map has no value for any key; otherwise `Get` is the first-value lookup |
| Options.LookupAppended | args.go:14-32 | once a key has a value, more adds never change what `Get` returns for it; an add for another key changes nothing for it |
| Options.Collect | args.go:128-141 | the map the loop's `Add`s build from the parsed pairs, in order; `CollectValues` proves what each key then holds |
| Options.CollectValues | args.go:96-101 | adding parsed pairs in order keeps, for each key, all of its values in order of appearance; the keys are exactly those that occur |
| Options.ScanFrom | args.go:37-56 | a successful scan stops between the start and the end and unescapes to no more bytes than it passed over |
| Options.IndexUnescaped | args.go:37-56 | the loop returns the stop index and the unescaped text of the scan; on a final lone backslash it returns the error with index 0 and "" |
| Options.ScanCharacterized | args.go:40-54 | the scan stops at the FIRST terminator preceded by an even run of backslashes; it reaches the end only after an even trailing run; it fails exactly when no terminator is unescaped and the trailing run is odd |
| Options.UnescapeFails | args.go:46-50 | `indexUnescaped` fails if and only if no terminator is unescaped and `s` ends in an odd run of backslashes |
| Options.Escaped | args.go:149-158 | the bytes `backslashEscape` writes: each byte, preceded by a backslash when it is a backslash or in the set; `BackslashEscape` is proved equal to it and `UnescapeEscaped` proves `indexUnescaped` inverts it |
| Options.EscapedLength | args.go:149-158 | the escaped string is at least as long as the input and at most twice as long |
| Options.BackslashEscape | args.go:149-158 | the loop writes a backslash before each backslash and each byte of the set, and copies every byte |
| Options.EscapedPlain | args.go:152-155 | a string with no backslash and no byte of the set is returned unchanged |
| Options.EscapedSemicolon | args.go:149-158 | escaping `v;x` for `;` gives `v\;x` |
| Options.UnescapeEscaped | args.go:37-56 | `indexUnescaped` of `backslashEscape(u, term)` gives back `u` and stops at the end |
| Options.NextOption | args.go:108-143 | one pass of the loop that does not fail reads a non-empty key and moves the cursor forward, to at most one past the end |
| Options.ParseFrom | args.go:102-146 | every option parsed has a non-empty key |
| Options.ReadOption | args.go:109-143 | the loop body returns the key, the value ("1" for a key without `=`) and the cursor after the separator, or the error of the pass |
| Options.ParsePluginOptions | args.go:102-146 | the map returned holds the options parsed before the end or the first error, added in order; the error is the one that stopped the parse |
| Options.ParseEncodedFrom | args.go:96-101 | options with non-empty keys, escaped and joined by `;`, parse back from any cursor to the same options in the same order with no error |
| Options.ParseEncoded | args.go:96-101 | the same round trip from the start of the string |
| Options.ParseEncodedOption | args.go:115-143 | one escaped option followed by `;` or the end is read as that key and value, and the cursor lands after the separator |
| Options.EncodePlainOption | args.go:98-100 | an option needing no escapes is written as key, `=`, value |
| Options.EmptyKeyRejected | args.go:121-124 | an option that starts with `=` or `;` fails with the empty-key error, quoting the empty string `s[begin:i]` |
| Options.ExampleTwoOptions | args.go:102-146 | `a=1;b=2` parses to `a`→[`1`] and `b`→[`2`] |
| Options.ExampleFlagAndEscape | args.go:127-131 | `flag;k=v\;x` gives `flag` the value `1` and `k` the value `v;x` |
| Options.ExampleFinalEscape | args.go:46-50 | `a=1\` fails, and the message quotes the value text `1\` that was handed to the scanner |
| Options.ExampleEmptyKeys | args.go:121-124 | `=x`, `;` and `;;` fail with the empty-key error |
| Options.ExampleRepeatedKey | args.go:101 | in `secret=nou;cache=/tmp/cache;secret=yes`, `secret` holds [`nou`, `yes`] and `Get` returns `nou` |
| Options.Getenv | args.go:61-64 | an unset variable reads as "" |
| Options.EndpointKeysDistinct | args.go:78-81 | the four endpoint keys are pairwise distinct |
| Options.GateAsWritten | args.go:65-76 | the gate as written accepts exactly what the four-variable gate does, plus an empty `SS_LOCAL_PORT` |
| Options.LocalPortUnchecked | args.go:74-76 | an environment without `SS_LOCAL_PORT` passes the gate as written but not the four-variable gate |
| Options.EndpointTableValues | args.go:78-81 | the four adds give each endpoint key exactly its own variable's value |
| Options.EnvOverride | args.go:65-91 | once the gate has decided and the plugin options parse: a failed gate gives no options; otherwise a key the plugin options mention holds exactly their values for it, so the endpoint value is replaced, not extended, and any other key keeps its endpoint value |
| Options.EnvWithoutPluginOptions | args.go:65-93 | without plugin options the result is empty when the gate as written fails, and otherwise the four endpoint values, one each, an empty `SS_LOCAL_PORT` included |
| Options.EmptyLocalPortAccepted | args.go:74-81 | when the gate as written passes with `SS_LOCAL_PORT` empty, the options hold "" as the local port, where the four-variable gate gives no options |
| Options.EnvOptions | args.go:59-94 | what `parseEnv` returns with its gate as written (`EndpointsGivenAsWritten`, which repeats the local-host test); `EnvOverride`, `EnvWithoutPluginOptions` and `EmptyLocalPortAccepted` prove its contents, and `ParseEnv` is proved equal to it |
| Options.LocalPortGiven | args.go:65-81 | with the four-variable gate (`EnvOptionsIntended`), a missing variable gives no options; a non-empty result has a non-empty local port unless the plugin options replace it |
| Options.ParseEnv | args.go:59-94 | the method, with its fourth test repeating the local-host test as written, returns a fresh map holding `EnvOptions` of the environment, or nil with the plugin options' parse error |
| Options.Overlay | args.go:89-91 | each key of the plugin options replaces its entry, with its whole list; no other entry changes |
| Uvarint.Encode | link.go:35 | the bytes `binary.PutUvarint` writes for a length; `EncodeShape`, `EncodeLength` and `DecodeEncode` prove its layout, its size and that `Decode` inverts it |
| Uvarint.Decode | link.go:21 | a successful read consumes at least one byte and no more than there are |
| Uvarint.EncodeShape | link.go:35 | byte `i` of the encoding holds the `i`-th group of seven bits; its high bit is set exactly when it is not the last byte |
| Uvarint.EncodeLength | link.go:34-35 | the encoding fits in `k` bytes exactly when the number is below 128 to the `k` |
| Uvarint.SingleByte | link.go:35 | a length below 128 is one byte, the length itself, and only such lengths are |
| Uvarint.MaxLength | link.go:34-35 | a 64-bit length takes between 1 and `MaxVarintLen64` (10) bytes, so the buffer of line 34 is enough |
| Uvarint.DecodeEncode | link.go:21 | reading an encoding, whatever follows it, gives back the number and consumes exactly the encoding |
| Uvarint.DecodeFails | link.go:21-24 | the read fails exactly when every byte announces a successor, and fails with `EOF` exactly when there is no byte |
| Links.Frame | link.go:33-42 | what one `Write` puts into the pipe: the varint of the payload length, then the payload; `FrameRoundTrip` proves `Read` takes it back |
| Links.ReadFrame | link.go:20-31 | a read that succeeds consumes at least one byte |
| Links.FrameRoundTrip | link.go:20-42 | reading what one `Write` wrote gives back the payload and leaves what follows untouched |
| Links.FramesInOrder | link.go:20-42 | frames written one after the other are read back in the same order, none lost or repeated |
| Links.TruncatedFrame | link.go:20-31 | a stream cut inside a frame fails: `EOF` when cut before the frame or right after the length, `UnexpectedEOF` inside the length or the payload |
| Links.TruncatedLength | link.go:21-24 | a proper prefix of an encoded length is read as `EOF` if empty and as `UnexpectedEOF` otherwise |
| Links.Link.constructor | link.go:14-18 | `makeLink` gives an empty, open pipe |
| Links.Link.Write | link.go:33-42 | an open link gains exactly the frame of the buffer; a closed one fails with `ErrClosedPipe` before the length, and nothing is written |
| Links.Link.Read | link.go:20-31 | the stream loses exactly the frame read; the payload is returned, or the error with no payload |
| Links.Link.SetError | link.go:44-46 | the link is unchanged |
| Plugin.Remap | main.go:41-94 | the flags after `parseOpts`: the settings keys first, then the endpoint keys routed by the resulting server mode, then `fastOpen`, then `remoteHostPort`; the `Remap` lemmas below state its properties and `Flags.Apply` is proved equal to it |
| Plugin.RemapOnlyTurnsOn | main.go:41-88 | `tls`, `server` and `fastOpen` are on afterwards exactly when they were on before or their key is present; a key never turns them off |
| Plugin.RemapNoOptions | main.go:38-94 | with no options every flag keeps its value, and only `remoteHostPort` is rebuilt |
| Plugin.RemapRemoteHostPort | main.go:94 | `remoteHostPort` is the final remote address, a colon and the final remote port; `version` is never touched |
| Plugin.RemapClient | main.go:57-84 | in client mode each endpoint key sets the flag of the same name |
| Plugin.RemapServer | main.go:54-84 | in server mode, including server mode turned on by the same options, the `local` keys set the remote flags and the `remote` keys the local flags |
| Plugin.RemapFirstValues | main.go:41-88 | only the first value of each key matters |
| Plugin.RemapIdempotent | main.go:41-94 | applying the same options twice gives the same flags as applying them once |
| Plugin.ReadSettings | main.go:42-56 | the first five `if`s give the settings of `Remap` |
| Plugin.ReadEndpoints | main.go:57-84 | the four endpoint `if`s give the endpoints of `Remap` for the server mode they read |
| Plugin.Flags.constructor | main.go:21-31 | the flags start at their declared defaults |
| Plugin.Flags.Apply | main.go:41-94 | the flags become `Remap` of their old values and the options |
| Plugin.Flags.ParseOpts | main.go:38-102 | if `parseEnv` fails, its error is returned and no flag changes; otherwise there is no error and the flags are remapped by its options |
| Plugin.Wiring | main.go:125-151 | both adapters share the link; the first listens on the local endpoint and the second dials out; HTTP faces the network on the listening side in server mode and on the dialling side in client mode; the HTTP client gets `remoteHostPort` and the path |
| Plugin.Start | main.go:110-151 | a parse error is fatal; otherwise the flags are remapped; `-version` stops there; else a fresh empty link is wired as the mode demands |

## Left out

- shadowsocks.go, http.go and log.go are not part of this model. That is the adapters' own work: listening, dialling, HTTP requests and responses, TLS and logging. An adapter is a record of the values `main` gives it.
- Goroutines and blocking are not modelled. `Links.Link.Read` requires that the frame it reads is complete or that the writer is closed. A reader of Go's `io.Pipe` would instead wait for the writer.
- Links.Link: the program uses one pipe for both adapters, in both directions. The model keeps one stream and does not model which adapter reads which message.
- Links.Link.Read: the extra bytes that `bufio.NewReader` may read ahead, and that the following `io.ReadFull` then misses, are not modelled. The varint is taken to consume exactly its bytes.
- Uvarint.Decode: does not model the 64-bit overflow error of `binary.ReadUvarint`. Lengths are unbounded naturals, because every length `Write` produces is below 2^64 (see `Uvarint.MaxLength`).
- Links.Link.Read: the panic of `make([]byte, l)` for a length too large to allocate is not modelled.
- Plugin.Flags.ParseOpts: `net.ResolveTCPAddr` and its `log.Fatal` are not modelled. Resolution is assumed to succeed, and each endpoint is kept as the address and port text it is given.
- Command-line parsing (`flag.Parse`) is not modelled. The flags start at their defaults, and a caller may set them before `ParseOpts`.
- `printVersion`, `logInit`, the log lines, the `go` statements and the wait for a signal are not modelled.

## Findings

| source | as written | input that shows it | evidently intended | confidence | as-written member | corrected member |
|---|---|---|---|---|---|---|
| args.go:74 | the fourth test of `parseEnv` repeats the `SS_LOCAL_HOST` test, so `SS_LOCAL_PORT` is never checked | `SS_REMOTE_HOST=h`, `SS_REMOTE_PORT=1`, `SS_LOCAL_HOST=l`, `SS_LOCAL_PORT` unset: the endpoints are accepted with an empty local port | return without options unless all four variables are non-empty | not executed | Options.EmptyLocalPortAccepted | Options.LocalPortGiven |

`Options.EndpointsGivenAsWritten` is the gate as written, and
`Options.LocalPortUnchecked` exhibits an environment that it accepts and the
four-variable gate `Options.EndpointsGiven` rejects. The model of
`parseEnv` follows the code as written: `Options.EnvOptions` and
`Options.ParseEnv`, and through them `Plugin.Flags.ParseOpts` and
`Plugin.Start`, use the gate as written. `Options.EnvOptionsIntended` is
`parseEnv` with the four-variable gate; both are `Options.AfterGate` with a
different gate.
