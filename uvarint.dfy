/**
 * The length prefix of a link frame: the unsigned base-128 varint that Go's
 * `binary.PutUvarint` writes and `binary.ReadUvarint` reads (unsigned LEB128,
 * DWARF standard section 7.6 "Variable Length Data"). Each byte carries seven
 * bits of the number, least-significant group first; the high bit is set on
 * every byte except the last.
 */
module Uvarint {
  import opened Common

  /** The longest encoding of a 64-bit number (`binary.MaxVarintLen64`). */
  const MaxVarintLen64: nat := 10

  /** 2 to the 64th: every Go `uint64` is below it. */
  const Uint64Limit: nat := 0x1_0000_0000_0000_0000

  function Pow128(k: nat): (r: nat)
    ensures r >= 1
  {
    if k == 0 then 1 else 128 * Pow128(k - 1)
  }

  /** Does byte `b` announce that another byte follows? */
  predicate Continues(b: byte)
  {
    b >= 128
  }

  /** What `binary.PutUvarint` writes for `n`. */
  function Encode(n: nat): (r: Bytes)
    decreases n
  {
    if n < 128 then [n as byte] else [(n % 128 + 128) as byte] + Encode(n / 128)
  }

  /**
   * What `binary.ReadUvarint` reads from the front of `s`: the number and how
   * many bytes it took, `EOF` when `s` is empty and `UnexpectedEOF` when `s`
   * ends in the middle of a number.
   */
  function Decode(s: Bytes): (r: Result<(nat, nat), IoError>)
    ensures r.Ok? ==> 1 <= r.value.1 <= |s|
  {
    if s == [] then Err(EOF)
    else if !Continues(s[0]) then Ok((s[0] as nat, 1))
    else match Decode(s[1..])
      case Ok((v, n)) => Ok((s[0] as nat - 128 + 128 * v, n + 1))
      case Err(_) => Err(UnexpectedEOF)
  }

  /**
   * The shape of an encoding: byte `i` holds the `i`-th group of seven bits of
   * `n`, and its high bit is set exactly when it is not the last byte.
   */
  lemma {:induction false} EncodeShape(n: nat, i: nat)
    requires i < |Encode(n)|
    ensures Continues(Encode(n)[i]) <==> i < |Encode(n)| - 1
    ensures Encode(n)[i] as nat % 128 == n / Pow128(i) % 128
    decreases n
  {
    if n >= 128 && i > 0 {
      EncodeShape(n / 128, i - 1);
      DivDiv(n, Pow128(i - 1));
    }
  }

  lemma DivDiv(n: nat, p: nat)
    requires p >= 1
    ensures n / 128 / p == n / (128 * p)
  {
    var q, r := n / 128, n % 128;
    var q2, r2 := q / p, q % p;
    assert q == p * q2 + r2;
    assert 128 * q == (128 * p) * q2 + 128 * r2;
    DivUnique(n, 128 * p, q2, 128 * r2 + r);
  }

  lemma DivUnique(n: nat, d: nat, a: nat, b: nat)
    requires d >= 1 && 0 <= b < d && n == d * a + b
    ensures n / d == a
  {
    var x, y := n / d, n % d;
    if x > a {
      MulAtLeast(d, x - a);
      assert false;
    } else if x < a {
      MulAtLeast(d, a - x);
      assert false;
    }
  }

  lemma {:induction false} MulAtLeast(d: nat, k: nat)
    requires k >= 1
    ensures d * k >= d
  {
    if k > 1 {
      MulAtLeast(d, k - 1);
      assert d * k == d * (k - 1) + d;
    }
  }

  /** An encoding fits in `k` bytes exactly when `n` is below 128 to the `k`. */
  lemma {:induction false} EncodeLength(n: nat, k: nat)
    requires k >= 1
    ensures |Encode(n)| <= k <==> n < Pow128(k)
    decreases n
  {
    if n < 128 {
      Pow128AtLeast(k);
    } else if k == 1 {
      assert |Encode(n)| == 1 + |Encode(n / 128)|;
    } else {
      EncodeLength(n / 128, k - 1);
      assert n / 128 < Pow128(k - 1) <==> n < Pow128(k);
    }
  }

  lemma {:induction false} Pow128AtLeast(k: nat)
    requires k >= 1
    ensures Pow128(k) >= 128
  {
    if k > 1 {
      Pow128AtLeast(k - 1);
    }
  }

  /** A length below 128 is one byte holding the length itself. */
  lemma SingleByte(n: nat)
    ensures n < 128 <==> |Encode(n)| == 1
    ensures n < 128 ==> Encode(n) == [n as byte]
  {
    EncodeLength(n, 1);
  }

  /** A 64-bit number takes at most `MaxVarintLen64` bytes. */
  lemma MaxLength(n: nat)
    requires n < Uint64Limit
    ensures 1 <= |Encode(n)| <= MaxVarintLen64
  {
    assert Pow128(10) == 0x40_0000_0000_0000_0000;
    EncodeLength(n, 10);
  }

  /** Reading an encoding gives back the number and consumes exactly the encoding. */
  lemma {:induction false} DecodeEncode(n: nat, rest: Bytes)
    ensures Decode(Encode(n) + rest) == Ok((n, |Encode(n)|))
    decreases n
  {
    var s := Encode(n) + rest;
    if n >= 128 {
      assert s[1..] == Encode(n / 128) + rest;
      DecodeEncode(n / 128, rest);
    }
  }

  /**
   * Reading fails exactly when every byte announces a successor, and it
   * fails with `EOF` exactly when there is no byte at all.
   */
  lemma {:induction false} DecodeFails(s: Bytes)
    ensures Decode(s).Err? <==> forall i :: 0 <= i < |s| ==> Continues(s[i])
    ensures Decode(s) == Err(EOF) <==> s == []
  {
    if s != [] && Continues(s[0]) {
      DecodeFails(s[1..]);
      assert forall i :: 1 <= i < |s| ==> s[i] == s[1..][i - 1];
    }
  }
}
