/**
 * The SIP003 option handling of args.go: the `Args` multimap, the
 * backslash-escape-aware scanner, the `SS_PLUGIN_OPTIONS` grammar
 * `k=v;k;...`, its inverse escaping, and the gate that reads the four
 * `SS_*` endpoint variables from the environment.
 */
module Options {
  import opened Common

  const Backslash: byte := 92
  const Equals: byte := 61
  const Semicolon: byte := 59

  /** The bytes that end a key, and those that end a value, in an option string. */
  const KeyTerms: Bytes := [Equals, Semicolon]
  const ValueTerms: Bytes := [Semicolon]

  /** The value recorded for an option written without `=`: the string "1". */
  const FlagValue: Bytes := [49]

  /** The two errors of the option grammar; each carries the string its message quotes. */
  datatype Error =
    | NothingFollowingFinalEscape(input: Bytes)
    | EmptyKey(option: Bytes)

  /** The contents of an `Args` map: each key's list of values. */
  type Table = map<Bytes, seq<Bytes>>

  // ---------------------------------------------------------------------------
  // Args: a map from a key to a list of values
  // ---------------------------------------------------------------------------

  /** Go's `Args` is a map, so it is a reference: a nil map is `null`. */
  class Args {
    var entries: Table

    /** `make(Args)`: an empty map. */
    constructor ()
      ensures entries == map[]
    {
      entries := map[];
    }

    /** Append `value` to the list of values of `key`. */
    method Add(key: Bytes, value: Bytes)
      modifies this
      ensures entries == Appended(old(entries), key, value)
    {
      entries := entries[key := ValuesOf(entries, key) + [value]];
    }
  }

  /** The list stored under `key`; a missing key reads as the empty list, as in Go. */
  function ValuesOf(m: Table, key: Bytes): seq<Bytes>
  {
    if key in m then m[key] else []
  }

  /** The table after one `Add`. */
  function Appended(m: Table, key: Bytes, value: Bytes): (r: Table)
    ensures r.Keys == m.Keys + {key}
    ensures ValuesOf(r, key) == ValuesOf(m, key) + [value]
    ensures forall k :: k in m && k != key ==> r[k] == m[k]
  {
    m[key := ValuesOf(m, key) + [value]]
  }

  /** Adding a key that is not yet present gives it a single value. */
  lemma AppendedFresh(m: Table, key: Bytes, value: Bytes)
    requires key !in m
    ensures Appended(m, key, value) == m[key := [value]]
  {
    assert ValuesOf(m, key) + [value] == [value];
  }

  /** The first value of `key`, and whether there is one. */
  function Lookup(m: Table, key: Bytes): (r: (Bytes, bool))
    ensures r.1 <==> key in m && |m[key]| > 0
    ensures r.1 ==> r.0 == m[key][0]
    ensures !r.1 ==> r.0 == []
  {
    if key !in m || |m[key]| == 0 then ([], false) else (m[key][0], true)
  }

  /** `Args.Get`: a nil map has no values for any key. */
  function Get(args: Args?, key: Bytes): (r: (Bytes, bool))
    reads args
    ensures args == null ==> r == ([], false)
    ensures args != null ==> r == Lookup(args.entries, key)
  {
    if args == null then ([], false) else Lookup(args.entries, key)
  }

  /** Once a key has a value, adding more never changes what `Get` returns for it. */
  lemma LookupAppended(m: Table, key: Bytes, value: Bytes, other: Bytes)
    ensures Lookup(Appended(m, key, value), key) ==
            (if Lookup(m, key).1 then Lookup(m, key) else (value, true))
    ensures other != key ==> Lookup(Appended(m, key, value), other) == Lookup(m, other)
  {
  }

  /** The table built by adding the pairs of `ps` in order to an empty map. */
  function Collect(ps: seq<(Bytes, Bytes)>): Table
  {
    if ps == [] then map[]
    else Appended(Collect(ps[..|ps| - 1]), ps[|ps| - 1].0, ps[|ps| - 1].1)
  }

  /** The values paired with `key` in `ps`, in order of appearance. */
  function Select(ps: seq<(Bytes, Bytes)>, key: Bytes): seq<Bytes>
  {
    if ps == [] then []
    else Select(ps[..|ps| - 1], key) + (if ps[|ps| - 1].0 == key then [ps[|ps| - 1].1] else [])
  }

  /** A repeated key accumulates all its values, in order; the keys are exactly those that occur. */
  lemma {:induction false} CollectValues(ps: seq<(Bytes, Bytes)>, key: Bytes)
    ensures ValuesOf(Collect(ps), key) == Select(ps, key)
    ensures key in Collect(ps) <==> exists k :: 0 <= k < |ps| && ps[k].0 == key
  {
    if ps != [] {
      var init := ps[..|ps| - 1];
      CollectValues(init, key);
      if key in Collect(ps) && ps[|ps| - 1].0 != key {
        var k :| 0 <= k < |init| && init[k].0 == key;
        assert ps[k] == init[k];
      }
      if exists k :: 0 <= k < |ps| && ps[k].0 == key {
        var k :| 0 <= k < |ps| && ps[k].0 == key;
        if k < |init| {
          assert init[k] == ps[k];
        }
      }
    }
  }

  // ---------------------------------------------------------------------------
  // indexUnescaped
  // ---------------------------------------------------------------------------

  /** The index where a scan stopped and the unescaped text read before it. */
  datatype Scanned = Scanned(index: nat, text: Bytes)

  /**
   * The scan of `s` from index `i`: it stops at the first byte in `term`
   * or at the end; a backslash makes the next byte literal, and an error
   * is raised when the backslash is the last byte.
   */
  function ScanFrom(s: Bytes, term: Bytes, i: nat): (r: Result<Scanned, Error>)
    requires i <= |s|
    ensures r.Ok? ==> i <= r.value.index <= |s| && |r.value.text| <= r.value.index - i
    decreases |s| - i
  {
    if i == |s| || s[i] in term then Ok(Scanned(i, []))
    else if s[i] == Backslash then
      if i + 1 == |s| then Err(NothingFollowingFinalEscape(s))
      else Prepend([s[i + 1]], ScanFrom(s, term, i + 2))
    else Prepend([s[i]], ScanFrom(s, term, i + 1))
  }

  /** Put `u` in front of the text of a successful scan. */
  function Prepend(u: Bytes, r: Result<Scanned, Error>): (r': Result<Scanned, Error>)
  {
    match r
    case Ok(sc) => Ok(Scanned(sc.index, u + sc.text))
    case Err(e) => Err(e)
  }

  /** What `indexUnescaped(s, term)` computes. */
  function Unescape(s: Bytes, term: Bytes): Result<Scanned, Error>
  {
    ScanFrom(s, term, 0)
  }

  /** `indexUnescaped`: Go returns `(0, "", err)` on error. */
  method IndexUnescaped(s: Bytes, term: Bytes) returns (i: nat, unesc: Bytes, err: Option<Error>)
    ensures Unescape(s, term).Ok? ==> err == None && Unescape(s, term) == Ok(Scanned(i, unesc))
    ensures Unescape(s, term).Err? ==> err == Some(Unescape(s, term).error) && i == 0 && unesc == []
  {
    i, unesc := 0, [];
    PrependTwice([], [], ScanFrom(s, term, 0));
    while i < |s|
      invariant 0 <= i <= |s|
      invariant Unescape(s, term) == Prepend(unesc, ScanFrom(s, term, i))
    {
      var b := s[i];
      if b in term {
        break;
      }
      if b == Backslash {
        i := i + 1;
        if i >= |s| {
          return 0, [], Some(NothingFollowingFinalEscape(s));
        }
        b := s[i];
      }
      PrependTwice(unesc, [b], ScanFrom(s, term, i + 1));
      unesc := unesc + [b];
      i := i + 1;
    }
    assert ScanFrom(s, term, i) == Ok(Scanned(i, []));
    assert unesc + [] == unesc;
    err := None;
  }

  lemma PrependTwice(u: Bytes, v: Bytes, r: Result<Scanned, Error>)
    ensures Prepend(u, Prepend(v, r)) == Prepend(u + v, r)
    ensures Prepend([], r) == r
  {
    if r.Ok? {
      assert u + (v + r.value.text) == (u + v) + r.value.text;
      assert [] + r.value.text == r.value.text;
    }
  }

  /** The length of the run of backslashes at the end of `s`. */
  function TrailingBackslashes(s: Bytes): nat
  {
    if |s| == 0 || s[|s| - 1] != Backslash then 0 else 1 + TrailingBackslashes(s[..|s| - 1])
  }

  predicate AllBackslashes(s: Bytes)
  {
    forall k :: 0 <= k < |s| ==> s[k] == Backslash
  }

  lemma {:induction false} TrailingConcat(a: Bytes, b: Bytes)
    ensures TrailingBackslashes(a + b) ==
            if AllBackslashes(b) then |b| + TrailingBackslashes(a) else TrailingBackslashes(b)
  {
    if b == [] {
      assert a + b == a;
    } else if b[|b| - 1] == Backslash {
      var b' := b[..|b| - 1];
      assert (a + b)[..|a + b| - 1] == a + b';
      TrailingConcat(a, b');
      if !AllBackslashes(b') {
        var k :| 0 <= k < |b'| && b'[k] != Backslash;
        assert b[k] != Backslash;
      }
      if !AllBackslashes(b) {
        var k :| 0 <= k < |b| && b[k] != Backslash;
        assert b'[k] != Backslash;
      }
    }
  }

  /**
   * Position `k` holds a terminator that `s[i..]` leaves unescaped: an even
   * number of backslashes (counted from `i`) stands right before it.
   */
  predicate UnescapedTerminator(s: Bytes, term: Bytes, i: nat, k: nat)
    requires i <= k < |s|
  {
    s[k] in term && TrailingBackslashes(s[i..k]) % 2 == 0
  }

  /** After a prefix that ends in an even run of backslashes, parities are those of the rest. */
  lemma ParityAfterEven(a: Bytes, b: Bytes)
    requires TrailingBackslashes(a) % 2 == 0
    ensures TrailingBackslashes(a + b) % 2 == TrailingBackslashes(b) % 2
  {
    TrailingConcat(a, b);
    TrailingConcat([], b);
    assert [] + b == b;
  }

  /** An escape pair `\x` ends in an even run of backslashes. */
  lemma EscapePairEven(p: Bytes)
    requires |p| == 2 && p[0] == Backslash
    ensures TrailingBackslashes(p) % 2 == 0
  {
    assert p[..1] == [Backslash];
    assert [Backslash][..0] == [];
    if p[1] == Backslash {
      assert TrailingBackslashes(p) == 1 + TrailingBackslashes(p[..1]);
      assert TrailingBackslashes(p[..1]) == 1 + TrailingBackslashes(p[..1][..0]);
    }
  }

  /** A scan that resumes `w` bytes later, after an even run, sees positions of the same parity. */
  lemma Shift(s: Bytes, term: Bytes, i: nat, w: nat)
    requires i + w <= |s| && TrailingBackslashes(s[i..i + w]) % 2 == 0
    ensures forall k :: i + w <= k < |s| ==>
              (UnescapedTerminator(s, term, i, k) <==> UnescapedTerminator(s, term, i + w, k))
    ensures TrailingBackslashes(s[i..]) % 2 == TrailingBackslashes(s[i + w..]) % 2
  {
    forall k | i + w <= k < |s|
      ensures TrailingBackslashes(s[i..k]) % 2 == TrailingBackslashes(s[i + w..k]) % 2
    {
      assert s[i..k] == s[i..i + w] + s[i + w..k];
      ParityAfterEven(s[i..i + w], s[i + w..k]);
    }
    assert s[i..] == s[i..i + w] + s[i + w..];
    ParityAfterEven(s[i..i + w], s[i + w..]);
  }

  /** No position of `s[i..n]` holds an unescaped terminator. */
  predicate Clear(s: Bytes, term: Bytes, i: nat, n: nat)
    requires i <= n <= |s|
  {
    forall k :: i <= k < n ==> !UnescapedTerminator(s, term, i, k)
  }

  /** What the scan from `i` promises about where it stopped. */
  predicate ScanMeaning(s: Bytes, term: Bytes, i: nat, r: Result<Scanned, Error>)
    requires i <= |s|
  {
    match r
    case Ok(sc) =>
      && i <= sc.index <= |s|
      && Clear(s, term, i, sc.index)
      && (sc.index < |s| ==> UnescapedTerminator(s, term, i, sc.index))
      && (sc.index == |s| ==> TrailingBackslashes(s[i..]) % 2 == 0)
    case Err(_) =>
      && Clear(s, term, i, |s|)
      && TrailingBackslashes(s[i..]) % 2 == 1
  }

  /**
   * The scan from `i` stops at the FIRST unescaped terminator, reaches the end
   * only after an even run of trailing backslashes, and fails exactly when no
   * terminator is unescaped and the trailing run is odd (so the last backslash
   * escapes nothing).
   */
  lemma {:induction false} ScanCharacterized(s: Bytes, term: Bytes, i: nat)
    requires i <= |s|
    requires Backslash !in term
    ensures ScanMeaning(s, term, i, ScanFrom(s, term, i))
    decreases |s| - i, 1
  {
    if i == |s| {
    } else if s[i] in term {
      assert s[i..i] == [];
    } else if s[i] == Backslash && i + 1 == |s| {
      assert s[i..] == [Backslash];
      assert s[i..][..0] == [];
      assert !UnescapedTerminator(s, term, i, i);
    } else if s[i] == Backslash {
      ScanAfterEscape(s, term, i);
    } else {
      ScanAfterPlain(s, term, i);
    }
  }

  lemma {:induction false} ScanAfterPlain(s: Bytes, term: Bytes, i: nat)
    requires i < |s| && s[i] !in term && s[i] != Backslash
    requires Backslash !in term
    ensures ScanMeaning(s, term, i, ScanFrom(s, term, i))
    decreases |s| - i, 0
  {
    var r := ScanFrom(s, term, i + 1);
    assert ScanFrom(s, term, i) == Prepend([s[i]], r);
    ScanCharacterized(s, term, i + 1);
    assert TrailingBackslashes(s[i..i + 1]) == 0;
    Shift(s, term, i, 1);
    var n := if r.Ok? then r.value.index else |s|;
    forall k | i <= k < n
      ensures !UnescapedTerminator(s, term, i, k)
    {
      if k > i {
        assert !UnescapedTerminator(s, term, i + 1, k);
      }
    }
  }

  lemma {:induction false} ScanAfterEscape(s: Bytes, term: Bytes, i: nat)
    requires i + 1 < |s| && s[i] == Backslash
    requires Backslash !in term
    ensures ScanMeaning(s, term, i, ScanFrom(s, term, i))
    decreases |s| - i, 0
  {
    var r := ScanFrom(s, term, i + 2);
    assert ScanFrom(s, term, i) == Prepend([s[i + 1]], r);
    ScanCharacterized(s, term, i + 2);
    EscapePairEven(s[i..i + 2]);
    Shift(s, term, i, 2);
    assert !UnescapedTerminator(s, term, i, i + 1) by {
      assert s[i..i + 1] == [Backslash];
      assert s[i..i + 1][..0] == [];
      assert TrailingBackslashes(s[i..i + 1]) == 1 + TrailingBackslashes(s[i..i + 1][..0]);
    }
    var n := if r.Ok? then r.value.index else |s|;
    forall k | i <= k < n
      ensures !UnescapedTerminator(s, term, i, k)
    {
      if k > i + 1 {
        assert !UnescapedTerminator(s, term, i + 2, k);
      }
    }
  }

  /** `indexUnescaped` errors exactly when no terminator is unescaped and an odd backslash run ends `s`. */
  lemma UnescapeFails(s: Bytes, term: Bytes)
    requires Backslash !in term
    ensures Unescape(s, term).Err? <==> Clear(s, term, 0, |s|) && TrailingBackslashes(s) % 2 == 1
  {
    ScanCharacterized(s, term, 0);
    assert s[0..] == s;
  }

  // ---------------------------------------------------------------------------
  // backslashEscape
  // ---------------------------------------------------------------------------

  /** One byte as `backslashEscape` writes it. */
  function EscapeByte(b: byte, specials: Bytes): Bytes
  {
    if b == Backslash || b in specials then [Backslash, b] else [b]
  }

  /** `s` with a backslash before every backslash and every byte of `specials`. */
  function Escaped(s: Bytes, specials: Bytes): (r: Bytes)
  {
    if s == [] then [] else EscapeByte(s[0], specials) + Escaped(s[1..], specials)
  }

  /** Escaping at most doubles the length. */
  lemma {:induction false} EscapedLength(s: Bytes, specials: Bytes)
    ensures |s| <= |Escaped(s, specials)| <= 2 * |s|
  {
    if s != [] {
      EscapedLength(s[1..], specials);
    }
  }

  lemma {:induction false} EscapedConcat(a: Bytes, b: Bytes, specials: Bytes)
    ensures Escaped(a + b, specials) == Escaped(a, specials) + Escaped(b, specials)
  {
    if a == [] {
      assert a + b == b;
    } else {
      assert (a + b)[1..] == a[1..] + b;
      EscapedConcat(a[1..], b, specials);
    }
  }

  /** `backslashEscape`. */
  method BackslashEscape(s: Bytes, specials: Bytes) returns (r: Bytes)
    ensures r == Escaped(s, specials)
  {
    r := [];
    for i := 0 to |s|
      invariant r == Escaped(s[..i], specials)
    {
      var b := s[i];
      EscapedConcat(s[..i], [b], specials);
      assert s[..i + 1] == s[..i] + [b];
      if b == Backslash || b in specials {
        r := r + [Backslash];
      }
      r := r + [b];
    }
    assert s[..|s|] == s;
  }

  /** Escaping never touches a string free of backslashes and of bytes of `specials`. */
  lemma {:induction false} EscapedPlain(s: Bytes, specials: Bytes)
    requires forall k :: 0 <= k < |s| ==> s[k] != Backslash && s[k] !in specials
    ensures Escaped(s, specials) == s
  {
    if s != [] {
      EscapedPlain(s[1..], specials);
    }
  }

  /** One escaped byte at `i` is scanned back as that byte. */
  lemma {:induction false} ScanEscapedByte(s: Bytes, term: Bytes, i: nat, b: byte, rest: Bytes)
    requires Backslash !in term
    requires i <= |s| && s[i..] == EscapeByte(b, term) + rest
    ensures i + |EscapeByte(b, term)| <= |s|
    ensures ScanFrom(s, term, i) == Prepend([b], ScanFrom(s, term, i + |EscapeByte(b, term)|))
  {
    assert s[i] == s[i..][0];
    if b == Backslash || b in term {
      assert s[i + 1] == s[i..][1];
    }
  }

  /** A scan of a suffix, measured in the whole string `s`. */
  function Shifted(r: Result<Scanned, Error>, d: nat, s: Bytes): Result<Scanned, Error>
  {
    match r
    case Ok(sc) => Ok(Scanned(sc.index + d, sc.text))
    case Err(_) => Err(NothingFollowingFinalEscape(s))
  }

  /** Scanning `s` from `i + k` is scanning its suffix `s[i..]` from `k`, with every index moved by `i`. */
  lemma {:induction false} ScanShift(s: Bytes, term: Bytes, i: nat, k: nat)
    requires i + k <= |s|
    ensures ScanFrom(s, term, i + k) == Shifted(ScanFrom(s[i..], term, k), i, s)
    decreases |s| - i - k, 1
  {
    var t := s[i..];
    if i + k < |s| {
      assert t[k] == s[i + k];
      if s[i + k] !in term {
        if s[i + k] == Backslash {
          if i + k + 1 < |s| {
            ScanShiftEscape(s, term, i, k);
          }
        } else {
          ScanShiftPlain(s, term, i, k);
        }
      }
    }
  }

  lemma {:induction false} ScanShiftEscape(s: Bytes, term: Bytes, i: nat, k: nat)
    requires i + k + 1 < |s| && s[i + k] !in term && s[i + k] == Backslash
    ensures ScanFrom(s, term, i + k) == Shifted(ScanFrom(s[i..], term, k), i, s)
    decreases |s| - i - k, 0
  {
    var t := s[i..];
    assert t[k] == s[i + k] && t[k + 1] == s[i + k + 1];
    ScanShift(s, term, i, k + 2);
  }

  lemma {:induction false} ScanShiftPlain(s: Bytes, term: Bytes, i: nat, k: nat)
    requires i + k < |s| && s[i + k] !in term && s[i + k] != Backslash
    ensures ScanFrom(s, term, i + k) == Shifted(ScanFrom(s[i..], term, k), i, s)
    decreases |s| - i - k, 0
  {
    var t := s[i..];
    assert t[k] == s[i + k];
    ScanShift(s, term, i, k + 1);
  }

  /**
   * Round trip: the escaped form of `u`, followed by the end of the string or
   * by a terminator, is scanned back to `u`, stopping right after it.
   */
  lemma {:induction false} ScanEscaped(u: Bytes, term: Bytes, rest: Bytes)
    requires Backslash !in term
    requires rest == [] || rest[0] in term
    ensures ScanFrom(Escaped(u, term) + rest, term, 0) == Ok(Scanned(|Escaped(u, term)|, u))
    decreases |u|
  {
    if u == [] {
      assert Escaped(u, term) + rest == rest;
    } else {
      var x := Escaped(u[1..], term) + rest;
      EscapedFirst(u, term, rest);
      ScanEscaped(u[1..], term, rest);
      ScanEscapedCons(Escaped(u, term) + rest, term, u[0], x, |Escaped(u[1..], term)|, u[1..]);
    }
  }

  /** The escaped form of a non-empty `u` starts with its first byte escaped. */
  lemma EscapedFirst(u: Bytes, term: Bytes, rest: Bytes)
    requires u != []
    ensures Escaped(u, term) + rest == EscapeByte(u[0], term) + (Escaped(u[1..], term) + rest)
    ensures |Escaped(u, term)| == |EscapeByte(u[0], term)| + |Escaped(u[1..], term)|
    ensures [u[0]] + u[1..] == u
  {
    var h, e := EscapeByte(u[0], term), Escaped(u[1..], term);
    assert Escaped(u, term) == h + e;
    assert (h + e) + rest == h + (e + rest);
    assert [u[0]] + u[1..] == u;
  }

  /** One escaped byte in front of a string that scans to `(n, v)` scans to `v` with the byte in front. */
  lemma ScanEscapedCons(t: Bytes, term: Bytes, b: byte, x: Bytes, n: nat, v: Bytes)
    requires Backslash !in term
    requires t == EscapeByte(b, term) + x
    requires ScanFrom(x, term, 0) == Ok(Scanned(n, v))
    ensures ScanFrom(t, term, 0) == Ok(Scanned(|EscapeByte(b, term)| + n, [b] + v))
  {
    var h := EscapeByte(b, term);
    assert t[0..] == h + x;
    ScanEscapedByte(t, term, 0, b, x);
    SliceSplit(t, 0, h, x);
    ScanShift(t, term, |h|, 0);
  }

  /** Regrouping a concatenation that stands at `i` in `s`. */
  lemma SliceAssoc(s: Bytes, i: nat, a: Bytes, b: Bytes, c: Bytes)
    requires i <= |s| && s[i..] == (a + b) + c
    ensures i + |a| <= |s|
    ensures s[i..] == a + (b + c)
    ensures s[i + |a|..] == b + c
  {
    assert (a + b) + c == a + (b + c);
    SliceSplit(s, i, a, b + c);
  }

  /** What follows a prefix `a` that stands at `i` in `s`. */
  lemma SliceSplit(s: Bytes, i: nat, a: Bytes, c: Bytes)
    requires i <= |s| && s[i..] == a + c
    ensures i + |a| <= |s| && s[i + |a|..] == c
  {
    assert s[i + |a|..] == s[i..][|a|..];
  }

  /** `indexUnescaped(backslashEscape(u, term), term)` gives the full length, `u`, and no error. */
  lemma UnescapeEscaped(u: Bytes, term: Bytes)
    requires Backslash !in term
    ensures Unescape(Escaped(u, term), term) == Ok(Scanned(|Escaped(u, term)|, u))
  {
    assert Escaped(u, term) + [] == Escaped(u, term);
    ScanEscaped(u, term, []);
  }

  // ---------------------------------------------------------------------------
  // parsePluginOptions
  // ---------------------------------------------------------------------------

  /** The options read so far, in order, and the error that stopped the parse, if any. */
  datatype Parsed = Parsed(options: seq<(Bytes, Bytes)>, error: Option<Error>)

  function Cons(p: (Bytes, Bytes), r: Parsed): Parsed
  {
    Parsed([p] + r.options, r.error)
  }

  /** What one pass of the parsing loop does: read an option and move past its separator, or fail. */
  datatype Step = Next(key: Bytes, value: Bytes, next: nat) | Stop(error: Error)

  /**
   * One pass from cursor `i`: a key ends at an unescaped `=` or `;`; a key
   * without `=` gets the value "1"; a value ends at an unescaped `;`; the
   * cursor then skips one separator byte.
   */
  function NextOption(s: Bytes, i: nat): (r: Step)
    requires i < |s|
    ensures r.Next? ==> i < r.next <= |s| + 1 && r.key != []
  {
    match Unescape(s[i..], KeyTerms)
    case Err(e) => Stop(e)
    case Ok(key) =>
      if |key.text| == 0 then
        // the message quotes s[begin:i], and i has not moved past begin yet
        Stop(EmptyKey(s[i..i]))
      else
        var j := i + key.index;
        if j >= |s| || s[j] != Equals then
          Next(key.text, FlagValue, j + 1)
        else
          match Unescape(s[j + 1..], ValueTerms)
          case Err(e) => Stop(e)
          case Ok(value) => Next(key.text, value.text, j + 1 + value.index + 1)
  }

  /** The option string `s` parsed from cursor `i` to its end or to the first error. */
  function ParseFrom(s: Bytes, i: nat): (r: Parsed)
    requires i <= |s| + 1
    ensures forall k :: 0 <= k < |r.options| ==> r.options[k].0 != []
    decreases |s| + 1 - i
  {
    if i >= |s| then Parsed([], None)
    else
      match NextOption(s, i)
      case Stop(e) => Parsed([], Some(e))
      case Next(key, value, next) => Cons((key, value), ParseFrom(s, next))
  }

  /**
   * One pass of the loop of `parsePluginOptions` from cursor `i`: the next
   * option and the cursor after its separator, or the error that ends the parse.
   */
  method ReadOption(s: Bytes, i: nat) returns (key: Bytes, value: Bytes, next: nat, err: Option<Error>)
    requires i < |s|
    ensures err.Some? ==> NextOption(s, i) == Stop(err.value)
    ensures err.None? ==> NextOption(s, i) == Next(key, value, next)
  {
    var offset, e;
    // Read the key.
    offset, key, e := IndexUnescaped(s[i..], KeyTerms);
    if e.Some? {
      return key, [], i, e;
    }
    if |key| == 0 {
      // Go quotes s[begin:i] here, before i has moved past begin
      return key, [], i, Some(EmptyKey(s[i..i]));
    }
    var j := i + offset;
    if j >= |s| || s[j] != Equals {
      return key, FlagValue, j + 1, None;
    }
    // Skip the equals sign and read the value.
    offset, value, e := IndexUnescaped(s[j + 1..], ValueTerms);
    if e.Some? {
      return key, value, i, e;
    }
    return key, value, j + 1 + offset + 1, None;
  }

  /**
   * `parsePluginOptions`. The options read before an error are still in the
   * returned map, as in Go, where the named result `opts` is returned as it is.
   */
  method ParsePluginOptions(s: Bytes) returns (opts: Args, err: Option<Error>)
    ensures fresh(opts)
    ensures opts.entries == Collect(ParseFrom(s, 0).options)
    ensures err == ParseFrom(s, 0).error
  {
    opts := new Args();
    if |s| == 0 {
      return opts, None;
    }
    var i := 0;
    ghost var done: seq<(Bytes, Bytes)> := [];
    assert [] + ParseFrom(s, 0).options == ParseFrom(s, 0).options;
    while i < |s|
      invariant i <= |s| + 1
      invariant opts.entries == Collect(done)
      invariant ParseFrom(s, 0) == Parsed(done + ParseFrom(s, i).options, ParseFrom(s, i).error)
      decreases |s| + 1 - i
    {
      var key, value, next, e := ReadOption(s, i);
      if e.Some? {
        assert done + [] == done;
        return opts, e;
      }
      opts.Add(key, value);
      AppendDone(done, (key, value), ParseFrom(s, next));
      done := done + [(key, value)];
      i := next;
    }
    assert done + [] == done;
    return opts, None;
  }

  lemma AppendDone(done: seq<(Bytes, Bytes)>, p: (Bytes, Bytes), r: Parsed)
    ensures done + Cons(p, r).options == (done + [p]) + r.options
    ensures Collect(done + [p]) == Appended(Collect(done), p.0, p.1)
  {
    assert (done + [p])[..|done|] == done;
  }

  /** An option as an encoder would write it: escaped key, `=`, escaped value. */
  function EncodeOption(p: (Bytes, Bytes)): Bytes
  {
    Escaped(p.0, KeyTerms) + [Equals] + Escaped(p.1, ValueTerms)
  }

  /** Options joined by `;`. */
  function EncodeOptions(ps: seq<(Bytes, Bytes)>): Bytes
  {
    if ps == [] then []
    else if |ps| == 1 then EncodeOption(ps[0])
    else EncodeOption(ps[0]) + [Semicolon] + EncodeOptions(ps[1..])
  }

  /** One encoded option at `i`, followed by `rest`, is read as that option. */
  lemma {:induction false} ParseEncodedOption(s: Bytes, i: nat, p: (Bytes, Bytes), rest: Bytes)
    requires p.0 != []
    requires i <= |s| && s[i..] == EncodeOption(p) + rest
    requires rest == [] || rest[0] == Semicolon
    ensures i < |s| && NextOption(s, i) == Next(p.0, p.1, i + |EncodeOption(p)| + 1)
  {
    var ek := Escaped(p.0, KeyTerms);
    var ev := Escaped(p.1, ValueTerms);
    EncodedParts(s, i, ek, ev, rest);
    UnescapeEscapedBefore(s[i..], KeyTerms, p.0, [Equals] + ev + rest);
    UnescapeEscapedBefore(s[i + |ek| + 1..], ValueTerms, p.1, rest);
    NextValue(s, i, Scanned(|ek|, p.0), Scanned(|ev|, p.1));
  }

  /** A key followed by `=` takes the unescaped text up to the next unescaped `;` as its value. */
  lemma NextValue(s: Bytes, i: nat, key: Scanned, value: Scanned)
    requires i < |s| && Unescape(s[i..], KeyTerms) == Ok(key) && key.text != []
    requires i + key.index < |s| && s[i + key.index] == Equals
    requires Unescape(s[i + key.index + 1..], ValueTerms) == Ok(value)
    ensures NextOption(s, i) == Next(key.text, value.text, i + key.index + 1 + value.index + 1)
  {
  }

  /** The pieces of an encoded option that stands at `i` in `s`. */
  lemma EncodedParts(s: Bytes, i: nat, ek: Bytes, ev: Bytes, rest: Bytes)
    requires i <= |s| && s[i..] == ek + [Equals] + ev + rest
    ensures i + |ek| < |s| && s[i + |ek|] == Equals
    ensures s[i..] == ek + ([Equals] + ev + rest)
    ensures s[i + |ek| + 1..] == ev + rest
  {
    assert ek + [Equals] + ev + rest == ek + ([Equals] + ev + rest);
    assert s[i + |ek|] == s[i..][|ek|];
    assert s[i + |ek| + 1..] == s[i..][|ek| + 1..];
  }

  /** `indexUnescaped` reads an escaped string back when a terminator or the end follows it. */
  lemma UnescapeEscapedBefore(s: Bytes, term: Bytes, u: Bytes, rest: Bytes)
    requires Backslash !in term
    requires s == Escaped(u, term) + rest
    requires rest == [] || rest[0] in term
    ensures Unescape(s, term) == Ok(Scanned(|Escaped(u, term)|, u))
  {
    ScanEscaped(u, term, rest);
  }

  /**
   * Round trip for the whole grammar: options with non-empty keys, written
   * with `backslashEscape`, parse back to the same options in the same order.
   */
  lemma {:induction false} ParseEncodedFrom(s: Bytes, i: nat, ps: seq<(Bytes, Bytes)>)
    requires i <= |s| && s[i..] == EncodeOptions(ps)
    requires forall k :: 0 <= k < |ps| ==> ps[k].0 != []
    ensures ParseFrom(s, i) == Parsed(ps, None)
    decreases |ps|, 1
  {
    if ps == [] {
    } else if |ps| == 1 {
      ParseEncodedLast(s, i, ps[0]);
      assert [ps[0]] == ps;
    } else {
      ParseEncodedCons(s, i, ps);
    }
  }

  lemma ParseEncodedLast(s: Bytes, i: nat, p: (Bytes, Bytes))
    requires p.0 != []
    requires i <= |s| && s[i..] == EncodeOption(p)
    ensures ParseFrom(s, i) == Parsed([p], None)
  {
    assert s[i..] == EncodeOption(p) + [];
    ParseEncodedOption(s, i, p, []);
  }

  lemma {:induction false} ParseEncodedCons(s: Bytes, i: nat, ps: seq<(Bytes, Bytes)>)
    requires |ps| > 1 && i <= |s| && s[i..] == EncodeOptions(ps)
    requires forall k :: 0 <= k < |ps| ==> ps[k].0 != []
    ensures ParseFrom(s, i) == Parsed(ps, None)
    decreases |ps|, 0
  {
    var n := EncodedConsParts(s, i, ps);
    ParseEncodedFrom(s, n, ps[1..]);
    ParseCons(s, i, n, ps);
  }

  /** The first option of several, encoded at `i`, is read, and the cursor lands on the rest. */
  lemma EncodedConsParts(s: Bytes, i: nat, ps: seq<(Bytes, Bytes)>) returns (n: nat)
    requires |ps| > 1 && i <= |s| && s[i..] == EncodeOptions(ps)
    requires ps[0].0 != []
    ensures i < |s| && n <= |s| && NextOption(s, i) == Next(ps[0].0, ps[0].1, n)
    ensures s[n..] == EncodeOptions(ps[1..])
  {
    var head := EncodeOption(ps[0]);
    var tail := EncodeOptions(ps[1..]);
    SliceAssoc(s, i, head, [Semicolon], tail);
    ParseEncodedOption(s, i, ps[0], [Semicolon] + tail);
    SliceSplit(s, i + |head|, [Semicolon], tail);
    n := i + |head| + 1;
  }

  lemma ParseCons(s: Bytes, i: nat, n: nat, ps: seq<(Bytes, Bytes)>)
    requires |ps| > 0 && i < |s| && NextOption(s, i) == Next(ps[0].0, ps[0].1, n)
    requires ParseFrom(s, n) == Parsed(ps[1..], None)
    ensures ParseFrom(s, i) == Parsed(ps, None)
  {
    assert [ps[0]] + ps[1..] == ps;
  }

  lemma ParseEncoded(ps: seq<(Bytes, Bytes)>)
    requires forall k :: 0 <= k < |ps| ==> ps[k].0 != []
    ensures ParseFrom(EncodeOptions(ps), 0) == Parsed(ps, None)
  {
    ParseEncodedFrom(EncodeOptions(ps), 0, ps);
  }

  /** A key directly followed by `=` or `;` (or a leading `;`) is an empty key. */
  lemma EmptyKeyRejected(s: Bytes, i: nat)
    requires i < |s| && (s[i] == Equals || s[i] == Semicolon)
    ensures ParseFrom(s, i) == Parsed([], Some(EmptyKey([])))
  {
    assert s[i..][0] == s[i] && s[i] in KeyTerms;
    assert Unescape(s[i..], KeyTerms) == Ok(Scanned(0, []));
    assert s[i..i] == [];
  }

  // ---------------------------------------------------------------------------
  // Worked examples of the option grammar
  // ---------------------------------------------------------------------------

  /** `a=1;b=2` holds `a` with the value `1` and `b` with the value `2`. */
  lemma ExampleTwoOptions()
    ensures ParseFrom(Ascii("a=1;b=2"), 0) == Parsed([(Ascii("a"), Ascii("1")), (Ascii("b"), Ascii("2"))], None)
    ensures Collect(ParseFrom(Ascii("a=1;b=2"), 0).options) == map[Ascii("a") := [Ascii("1")], Ascii("b") := [Ascii("2")]]
  {
    var ps: seq<(Bytes, Bytes)> := [([97], [49]), ([98], [50])];
    assert Ascii("a=1;b=2") == [97, 61, 49, 59, 98, 61, 50];
    assert Ascii("a") == [97] && Ascii("1") == [49] && Ascii("b") == [98] && Ascii("2") == [50];
    TwoOptionsEncoded(ps);
    ParseEncoded(ps);
    TwoOptionsCollected(ps);
  }

  lemma TwoOptionsEncoded(ps: seq<(Bytes, Bytes)>)
    requires ps == [([97], [49]), ([98], [50])]
    ensures EncodeOptions(ps) == [97, 61, 49, 59, 98, 61, 50]
  {
    EncodePlainOption([97], [49]);
    EncodePlainOption([98], [50]);
    assert EncodeOptions(ps[1..]) == EncodeOption(ps[1]);
  }

  lemma TwoOptionsCollected(ps: seq<(Bytes, Bytes)>)
    requires ps == [([97], [49]), ([98], [50])]
    ensures Collect(ps) == map[[97] := [[49]], [98] := [[50]]]
  {
    var p1 := ps[..1];
    assert p1[..0] == [];
    assert Collect(p1) == Appended(map[], [97], [49]);
    AppendedFresh(map[], [97], [49]);
    assert Collect(ps) == Appended(Collect(p1), [98], [50]);
    AppendedFresh(map[[97] := [[49]]], [98], [50]);
  }

  /** An option whose key and value need no escaping is encoded as key, `=`, value. */
  lemma EncodePlainOption(k: Bytes, v: Bytes)
    requires forall i :: 0 <= i < |k| ==> k[i] != Backslash && k[i] !in KeyTerms
    requires forall i :: 0 <= i < |v| ==> v[i] != Backslash && v[i] !in ValueTerms
    ensures EncodeOption((k, v)) == k + [Equals] + v
  {
    EscapedPlain(k, KeyTerms);
    EscapedPlain(v, ValueTerms);
  }

  /** `flag;k=v\;x` holds `flag` with the value `1` and `k` with the value `v;x`. */
  lemma ExampleFlagAndEscape()
    ensures ParseFrom(Ascii("flag;k=v\\;x"), 0) == Parsed([(Ascii("flag"), FlagValue), (Ascii("k"), Ascii("v;x"))], None)
  {
    var s: Bytes := [102, 108, 97, 103, 59, 107, 61, 118, 92, 59, 120];
    assert Ascii("flag;k=v\\;x") == s;
    assert Ascii("flag") == [102, 108, 97, 103] && Ascii("k") == [107] && Ascii("v;x") == [118, 59, 120];
    ExampleFlag(s);
    ExampleEscapedValue(s);
  }

  lemma ExampleFlag(s: Bytes)
    requires s == [102, 108, 97, 103, 59, 107, 61, 118, 92, 59, 120]
    ensures NextOption(s, 0) == Next([102, 108, 97, 103], FlagValue, 5)
  {
    EscapedPlain([102, 108, 97, 103], KeyTerms);
    assert s[0..] == Escaped([102, 108, 97, 103], KeyTerms) + s[4..];
    UnescapeEscapedBefore(s[0..], KeyTerms, [102, 108, 97, 103], s[4..]);
  }

  lemma ExampleEscapedValue(s: Bytes)
    requires s == [102, 108, 97, 103, 59, 107, 61, 118, 92, 59, 120]
    ensures ParseFrom(s, 5) == Parsed([([107], [118, 59, 120])], None)
  {
    var p: (Bytes, Bytes) := ([107], [118, 59, 120]);
    EscapedPlain([107], KeyTerms);
    EscapedSemicolon();
    assert s[5..] == EncodeOption(p) + [];
    ParseEncodedOption(s, 5, p, []);
  }

  /** `backslashEscape("v;x", ";")` is `v\;x`. */
  lemma EscapedSemicolon()
    ensures Escaped([118, 59, 120], ValueTerms) == [118, 92, 59, 120]
  {
    assert Escaped([120], ValueTerms) == [120];
    assert [59, 120][1..] == [120];
    assert Escaped([59, 120], ValueTerms) == [92, 59, 120];
    assert [118, 59, 120][1..] == [59, 120];
  }

  /** A value that ends in a lone escape: the value scan fails and quotes the value text. */
  lemma ExampleFinalEscape()
    ensures ParseFrom(Ascii("a=1\\"), 0) == Parsed([], Some(NothingFollowingFinalEscape(Ascii("1\\"))))
  {
    var s: Bytes := [97, 61, 49, 92];
    assert Ascii("a=1\\") == s && Ascii("1\\") == [49, 92];
    EscapedPlain([97], KeyTerms);
    UnescapeEscapedBefore(s[0..], KeyTerms, [97], s[1..]);
    assert s[2..] == [49, 92];
    FinalEscapeValue();
  }

  lemma FinalEscapeValue()
    ensures Unescape([49, 92], ValueTerms) == Err(NothingFollowingFinalEscape([49, 92]))
  {
    assert ScanFrom([49, 92], ValueTerms, 1) == Err(NothingFollowingFinalEscape([49, 92]));
  }

  /** `=x`, `;` and `;;` start with an empty key. */
  lemma ExampleEmptyKeys()
    ensures ParseFrom(Ascii("=x"), 0) == Parsed([], Some(EmptyKey([])))
    ensures ParseFrom(Ascii(";"), 0) == Parsed([], Some(EmptyKey([])))
    ensures ParseFrom(Ascii(";;"), 0) == Parsed([], Some(EmptyKey([])))
  {
    EmptyKeyRejected(Ascii("=x"), 0);
    EmptyKeyRejected(Ascii(";"), 0);
    EmptyKeyRejected(Ascii(";;"), 0);
  }

  /** The example of the source: a repeated key keeps both values, and `Get` sees the first. */
  lemma ExampleRepeatedKey()
    ensures var ps := ParseFrom(Ascii("secret=nou;cache=/tmp/cache;secret=yes"), 0).options;
            ValuesOf(Collect(ps), Ascii("secret")) == [Ascii("nou"), Ascii("yes")] &&
            Lookup(Collect(ps), Ascii("secret")) == (Ascii("nou"), true)
  {
    var ps := SecretOptions();
    SecretText(ps);
    SecretEncoded(ps);
    ParseEncoded(ps);
    SecretSelected(ps);
    CollectValues(ps, ps[0].0);
  }

  function SecretOptions(): seq<(Bytes, Bytes)>
  {
    [([115, 101, 99, 114, 101, 116], [110, 111, 117]),
     ([99, 97, 99, 104, 101], [47, 116, 109, 112, 47, 99, 97, 99, 104, 101]),
     ([115, 101, 99, 114, 101, 116], [121, 101, 115])]
  }

  lemma SecretText(ps: seq<(Bytes, Bytes)>)
    requires ps == SecretOptions()
    ensures Ascii("secret") == ps[0].0 && Ascii("nou") == ps[0].1 && Ascii("yes") == ps[2].1
    ensures Ascii("secret=nou;cache=/tmp/cache;secret=yes") ==
            (ps[0].0 + [Equals] + ps[0].1 + [Semicolon]) + (ps[1].0 + [Equals] + ps[1].1 + [Semicolon]) +
            (ps[2].0 + [Equals] + ps[2].1)
  {
    SecretSplit();
    AsciiConcat("secret=nou;" + "cache=/tmp/cache;", "secret=yes");
    AsciiConcat("secret=nou;", "cache=/tmp/cache;");
    SecretParts(ps);
  }

  lemma SecretSplit()
    ensures "secret=nou;cache=/tmp/cache;secret=yes" == "secret=nou;" + "cache=/tmp/cache;" + "secret=yes"
  {
  }

  lemma SecretParts(ps: seq<(Bytes, Bytes)>)
    requires ps == SecretOptions()
    ensures Ascii("secret=nou;") == ps[0].0 + [Equals] + ps[0].1 + [Semicolon]
    ensures Ascii("cache=/tmp/cache;") == ps[1].0 + [Equals] + ps[1].1 + [Semicolon]
    ensures Ascii("secret=yes") == ps[2].0 + [Equals] + ps[2].1
  {
    SecretFirst();
    SecretSecond();
    SecretThird();
  }

  lemma SecretFirst()
    ensures Ascii("secret=nou;") == [115, 101, 99, 114, 101, 116, 61, 110, 111, 117, 59]
  {
  }

  lemma SecretSecond()
    ensures Ascii("cache=/tmp/cache;") == [99, 97, 99, 104, 101, 61, 47, 116, 109, 112, 47, 99, 97, 99, 104, 101, 59]
  {
  }

  lemma SecretThird()
    ensures Ascii("secret=yes") == [115, 101, 99, 114, 101, 116, 61, 121, 101, 115]
  {
  }

  /** Converting a concatenation converts each part. */
  lemma AsciiConcat(a: string, b: string)
    ensures Ascii(a + b) == Ascii(a) + Ascii(b)
  {
    assert forall i :: 0 <= i < |b| ==> (a + b)[|a| + i] == b[i];
  }

  lemma SecretEncoded(ps: seq<(Bytes, Bytes)>)
    requires ps == SecretOptions()
    ensures EncodeOptions(ps) ==
            (ps[0].0 + [Equals] + ps[0].1 + [Semicolon]) + (ps[1].0 + [Equals] + ps[1].1 + [Semicolon]) +
            (ps[2].0 + [Equals] + ps[2].1)
  {
    var e0, e1, e2 := ps[0].0 + [Equals] + ps[0].1, ps[1].0 + [Equals] + ps[1].1, ps[2].0 + [Equals] + ps[2].1;
    EncodePlainOption(ps[0].0, ps[0].1);
    EncodePlainOption(ps[1].0, ps[1].1);
    EncodePlainOption(ps[2].0, ps[2].1);
    assert ps[1..][1..] == ps[2..];
    assert EncodeOptions(ps[2..]) == e2;
    assert EncodeOptions(ps[1..]) == e1 + [Semicolon] + e2;
    assert EncodeOptions(ps) == e0 + [Semicolon] + (e1 + [Semicolon] + e2);
    assert e0 + [Semicolon] + (e1 + [Semicolon] + e2) == (e0 + [Semicolon]) + (e1 + [Semicolon]) + e2;
  }

  lemma SecretSelected(ps: seq<(Bytes, Bytes)>)
    requires ps == SecretOptions()
    ensures Select(ps, ps[0].0) == [ps[0].1, ps[2].1]
  {
    var key := ps[0].0;
    var p1, p2 := ps[..1], ps[..2];
    assert p1[..0] == [] && p2[..1] == p1;
    assert Select(p1, key) == [ps[0].1];
    assert |ps[1].0| != |key|;
    assert Select(p2, key) == [ps[0].1];
    assert Select(ps, key) == Select(p2, key) + [ps[2].1];
  }

  // ---------------------------------------------------------------------------
  // parseEnv
  // ---------------------------------------------------------------------------

  /** The process environment, from variable name to value. */
  type Env = map<Bytes, Bytes>

  /** `os.Getenv`: an unset variable reads as the empty string. */
  function Getenv(env: Env, name: Bytes): (r: Bytes)
    ensures name !in env ==> r == []
    ensures name in env ==> r == env[name]
  {
    if name in env then env[name] else []
  }

  const RemoteHostVar: Bytes := Ascii("SS_REMOTE_HOST")
  const RemotePortVar: Bytes := Ascii("SS_REMOTE_PORT")
  const LocalHostVar: Bytes := Ascii("SS_LOCAL_HOST")
  const LocalPortVar: Bytes := Ascii("SS_LOCAL_PORT")
  const PluginOptionsVar: Bytes := Ascii("SS_PLUGIN_OPTIONS")

  /** The option keys under which the four endpoint variables are recorded. */
  const RemoteAddrKey: Bytes := Ascii("remoteAddr")
  const RemotePortKey: Bytes := Ascii("remotePort")
  const LocalAddrKey: Bytes := Ascii("localAddr")
  const LocalPortKey: Bytes := Ascii("localPort")

  /** The four endpoint keys are pairwise distinct. */
  lemma EndpointKeysDistinct()
    ensures RemoteAddrKey != RemotePortKey && RemoteAddrKey != LocalAddrKey && RemoteAddrKey != LocalPortKey
    ensures RemotePortKey != LocalAddrKey && RemotePortKey != LocalPortKey
    ensures LocalAddrKey != LocalPortKey
  {
    assert RemoteAddrKey[6] != RemotePortKey[6];
    assert LocalAddrKey[5] != LocalPortKey[5];
  }

  /** The gate of `parseEnv` as written: the third test is repeated, so `SS_LOCAL_PORT` is never looked at. */
  predicate EndpointsGivenAsWritten(env: Env)
  {
    |Getenv(env, RemoteHostVar)| != 0 && |Getenv(env, RemotePortVar)| != 0 &&
    |Getenv(env, LocalHostVar)| != 0 && |Getenv(env, LocalHostVar)| != 0
  }

  /** The gate of `parseEnv` as intended: all four endpoint variables are set and non-empty. */
  predicate EndpointsGiven(env: Env)
  {
    |Getenv(env, RemoteHostVar)| != 0 && |Getenv(env, RemotePortVar)| != 0 &&
    |Getenv(env, LocalHostVar)| != 0 && |Getenv(env, LocalPortVar)| != 0
  }

  /** The written gate accepts exactly what the intended one does, plus an empty `SS_LOCAL_PORT`. */
  lemma GateAsWritten(env: Env)
    ensures EndpointsGivenAsWritten(env) <==>
            EndpointsGiven(env) ||
            (|Getenv(env, RemoteHostVar)| != 0 && |Getenv(env, RemotePortVar)| != 0 &&
             |Getenv(env, LocalHostVar)| != 0 && Getenv(env, LocalPortVar) == [])
  {
  }

  /** An environment without `SS_LOCAL_PORT` passes the written gate but not the intended one. */
  lemma LocalPortUnchecked()
    ensures var env := map[RemoteHostVar := Ascii("h"), RemotePortVar := Ascii("1"), LocalHostVar := Ascii("l")];
            EndpointsGivenAsWritten(env) && !EndpointsGiven(env)
  {
    var env := map[RemoteHostVar := Ascii("h"), RemotePortVar := Ascii("1"), LocalHostVar := Ascii("l")];
    assert LocalPortVar != RemoteHostVar && LocalPortVar != RemotePortVar && LocalPortVar != LocalHostVar by {
      assert |LocalPortVar| != |RemoteHostVar|;
      assert LocalPortVar[6] != RemotePortVar[6];
      assert LocalPortVar[9] != LocalHostVar[9];
    }
    assert LocalPortVar !in env;
  }

  /** The four endpoint options, added in the order `parseEnv` adds them. */
  function EndpointTable(env: Env): Table
  {
    var t1 := Appended(map[], RemoteAddrKey, Getenv(env, RemoteHostVar));
    var t2 := Appended(t1, RemotePortKey, Getenv(env, RemotePortVar));
    var t3 := Appended(t2, LocalAddrKey, Getenv(env, LocalHostVar));
    Appended(t3, LocalPortKey, Getenv(env, LocalPortVar))
  }

  /** Each endpoint key holds exactly its one variable's value. */
  lemma EndpointTableValues(env: Env)
    ensures EndpointTable(env) ==
            map[RemoteAddrKey := [Getenv(env, RemoteHostVar)], RemotePortKey := [Getenv(env, RemotePortVar)],
                LocalAddrKey := [Getenv(env, LocalHostVar)], LocalPortKey := [Getenv(env, LocalPortVar)]]
  {
    EndpointKeysDistinct();
    var t0: Table := map[];
    AppendedFresh(t0, RemoteAddrKey, Getenv(env, RemoteHostVar));
    var t1 := t0[RemoteAddrKey := [Getenv(env, RemoteHostVar)]];
    AppendedFresh(t1, RemotePortKey, Getenv(env, RemotePortVar));
    var t2 := t1[RemotePortKey := [Getenv(env, RemotePortVar)]];
    AppendedFresh(t2, LocalAddrKey, Getenv(env, LocalHostVar));
    var t3 := t2[LocalAddrKey := [Getenv(env, LocalHostVar)]];
    AppendedFresh(t3, LocalPortKey, Getenv(env, LocalPortVar));
  }

  /**
   * What `parseEnv` returns once its gate has decided: no options when the
   * gate fails; otherwise the endpoint options, each replaced with the whole
   * list of values the plugin options give that key; or the parse error.
   */
  function AfterGate(env: Env, pass: bool): Result<Table, Error>
  {
    if !pass then Ok(map[])
    else
      var s := Getenv(env, PluginOptionsVar);
      if |s| == 0 then Ok(EndpointTable(env))
      else
        var parsed := ParseFrom(s, 0);
        if parsed.error.Some? then Err(parsed.error.value)
        else Ok(EndpointTable(env) + Collect(parsed.options))
  }

  /** What `parseEnv` returns, with its gate as written. */
  function EnvOptions(env: Env): Result<Table, Error>
  {
    AfterGate(env, EndpointsGivenAsWritten(env))
  }

  /** What `parseEnv` would return with the four-variable gate. */
  function EnvOptionsIntended(env: Env): Result<Table, Error>
  {
    AfterGate(env, EndpointsGiven(env))
  }

  /** The options that `SS_PLUGIN_OPTIONS` holds, in order (none when it is unset or empty). */
  function PluginOptions(env: Env): seq<(Bytes, Bytes)>
  {
    var s := Getenv(env, PluginOptionsVar);
    if |s| == 0 then [] else ParseFrom(s, 0).options
  }

  /**
   * Once the gate passes and the plugin options parse, a key that the plugin
   * options mention holds exactly the values they give it, in order (the
   * endpoint value is replaced, not extended); any other key keeps its
   * endpoint values.
   */
  lemma {:induction false} EnvOverride(env: Env, key: Bytes, pass: bool)
    requires AfterGate(env, pass).Ok?
    ensures !pass ==> AfterGate(env, pass).value == map[]
    ensures pass && (exists k :: 0 <= k < |PluginOptions(env)| && PluginOptions(env)[k].0 == key) ==>
            ValuesOf(AfterGate(env, pass).value, key) == Select(PluginOptions(env), key)
    ensures pass && (forall k :: 0 <= k < |PluginOptions(env)| ==> PluginOptions(env)[k].0 != key) ==>
            ValuesOf(AfterGate(env, pass).value, key) == ValuesOf(EndpointTable(env), key)
  {
    CollectValues(PluginOptions(env), key);
  }

  /**
   * Without plugin options, the result is empty when the gate as written
   * fails and otherwise holds the four endpoint values, one each, and nothing
   * else, an empty `SS_LOCAL_PORT` included.
   */
  lemma EnvWithoutPluginOptions(env: Env)
    requires |Getenv(env, PluginOptionsVar)| == 0
    ensures !EndpointsGivenAsWritten(env) ==> EnvOptions(env) == Ok(map[])
    ensures EndpointsGivenAsWritten(env) ==>
              EnvOptions(env) ==
              Ok(map[RemoteAddrKey := [Getenv(env, RemoteHostVar)], RemotePortKey := [Getenv(env, RemotePortVar)],
                     LocalAddrKey := [Getenv(env, LocalHostVar)], LocalPortKey := [Getenv(env, LocalPortVar)]])
  {
    EndpointTableValues(env);
  }

  /**
   * The gate as written lets an empty `SS_LOCAL_PORT` through: the options
   * then hold the empty string as the local port, where the four-variable
   * gate would give no options at all.
   */
  lemma EmptyLocalPortAccepted(env: Env)
    requires EndpointsGivenAsWritten(env) && Getenv(env, LocalPortVar) == []
    requires |Getenv(env, PluginOptionsVar)| == 0
    ensures Lookup(EnvOptions(env).value, LocalPortKey) == ([], true)
    ensures EnvOptionsIntended(env) == Ok(map[])
  {
    EnvWithoutPluginOptions(env);
  }

  /**
   * What the gate is for: options come only from an environment that sets
   * every endpoint variable, so unless the plugin options replace it, the
   * local port of a non-empty result is a non-empty string.
   */
  lemma LocalPortGiven(env: Env)
    ensures !EndpointsGiven(env) ==> EnvOptionsIntended(env) == Ok(map[])
    ensures EnvOptionsIntended(env).Ok? && EnvOptionsIntended(env).value != map[] &&
            (forall k :: 0 <= k < |PluginOptions(env)| ==> PluginOptions(env)[k].0 != LocalPortKey) ==>
            Lookup(EnvOptionsIntended(env).value, LocalPortKey) == (Getenv(env, LocalPortVar), true) &&
            Getenv(env, LocalPortVar) != []
  {
    if EndpointsGiven(env) && EnvOptionsIntended(env).Ok? {
      EnvOverride(env, LocalPortKey, true);
      EndpointTableValues(env);
    }
  }

  /** `parseEnv`, with its gate as written. A nil result map is `null`. */
  method ParseEnv(env: Env) returns (opts: Args?, err: Option<Error>)
    ensures EnvOptions(env).Ok? ==> err == None && opts != null && fresh(opts) && opts.entries == EnvOptions(env).value
    ensures EnvOptions(env).Err? ==> err == Some(EnvOptions(env).error) && opts == null
  {
    var o := new Args();
    opts, err := o, None;
    var remoteHost := Getenv(env, RemoteHostVar);
    var remotePort := Getenv(env, RemotePortVar);
    var localHost := Getenv(env, LocalHostVar);
    var localPort := Getenv(env, LocalPortVar);
    if |remoteHost| == 0 {
      return;
    }
    if |remotePort| == 0 {
      return;
    }
    if |localHost| == 0 {
      return;
    }
    // the fourth test repeats the third, as in Go
    if |localHost| == 0 {
      return;
    }
    o.Add(RemoteAddrKey, remoteHost);
    o.Add(RemotePortKey, remotePort);
    o.Add(LocalAddrKey, localHost);
    o.Add(LocalPortKey, localPort);
    assert o.entries == EndpointTable(env);
    var pluginOptions := Getenv(env, PluginOptionsVar);
    if |pluginOptions| > 0 {
      var other, e := ParsePluginOptions(pluginOptions);
      if e.Some? {
        return null, e;
      }
      Overlay(o, other);
    }
  }

  /** The loop of `parseEnv` that copies each key of `other`, with its whole list of values, into `opts`. */
  method Overlay(opts: Args, other: Args)
    requires opts != other
    modifies opts
    ensures opts.entries == old(opts.entries) + other.entries
  {
    ghost var base := opts.entries;
    var keys := other.entries.Keys;
    while keys != {}
      invariant keys <= other.entries.Keys
      invariant opts.entries == base + (other.entries - keys)
      decreases keys
    {
      var k :| k in keys;
      opts.entries := opts.entries[k := other.entries[k]];
      keys := keys - {k};
    }
    assert other.entries - {} == other.entries;
  }
}
