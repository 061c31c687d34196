/**
 Integers of the WebAssembly binary format (section 5.2.2 of the WebAssembly
 Core Specification): little-endian base 128, unsigned and signed, shortest
 form, and the five-byte padded form of a size written before its contents.
 */
module Leb {

  type Byte = b: nat | b < 256

  // ---- encoding ----

  function Unsigned(v: nat): (s: seq<Byte>)
    ensures |s| >= 1
    decreases v
  {
    if v < 128 then [v] else [v % 128 + 128] + Unsigned(v / 128)
  }

  /** The shift that follows a byte: rounding down keeps the sign. */
  predicate Last(v: int) {
    (v / 128 == 0 && v % 128 < 64) || (v / 128 == -1 && v % 128 >= 64)
  }

  function Magnitude(v: int): nat {
    if v < 0 then 0 - v else v
  }

  /** Terminates on the sign, not on the value reaching zero. */
  function Signed(v: int): (s: seq<Byte>)
    ensures |s| >= 1
    decreases Magnitude(v)
  {
    if Last(v) then [v % 128] else [v % 128 + 128] + Signed(v / 128)
  }

  lemma SignedNext(v: int)
    ensures Signed(v) == if Last(v) then [v % 128] else [v % 128 + 128] + Signed(v / 128)
    ensures !Last(v) ==> Magnitude(v / 128) < Magnitude(v)
  {
  }

  lemma UnsignedNext(v: nat)
    ensures Unsigned(v) == if v < 128 then [v] else [v % 128 + 128] + Unsigned(v / 128)
  {
  }

  /** Exactly five bytes, every one but the last continued. */
  function Padded(v: nat): (s: seq<Byte>)
    ensures |s| == 5
  {
    [v % 128 + 128, v / 128 % 128 + 128, v / 16384 % 128 + 128, v / 2097152 % 128 + 128, v / 268435456 % 128]
  }

  // ---- decoding ----

  /** A value and what follows it, or bytes that end in the middle of one. */
  datatype Decoded = Truncated | Decoded(v: int, rest: seq<Byte>)

  function DecodeUnsigned(s: seq<Byte>): Decoded {
    if s == [] then Truncated
    else if s[0] < 128 then Decoded(s[0], s[1..])
    else match DecodeUnsigned(s[1..])
      case Truncated => Truncated
      case Decoded(v, rest) => Decoded(s[0] - 128 + 128 * v, rest)
  }

  /** The last byte's seven bits, its top one the sign. */
  function LastDigit(b: Byte): int {
    if b >= 64 then b - 128 else b
  }

  function DecodeSigned(s: seq<Byte>): Decoded {
    if s == [] then Truncated
    else if s[0] < 128 then Decoded(LastDigit(s[0]), s[1..])
    else match DecodeSigned(s[1..])
      case Truncated => Truncated
      case Decoded(v, rest) => Decoded(s[0] - 128 + 128 * v, rest)
  }

  /** Decoding undoes the unsigned encoding, whatever follows. */
  lemma {:induction false} UnsignedRoundTrip(v: nat, rest: seq<Byte>)
    ensures DecodeUnsigned(Unsigned(v) + rest) == Decoded(v, rest)
    decreases v
  {
    var s := Unsigned(v) + rest;
    if v < 128 {
      assert s[1..] == rest;
    } else {
      UnsignedRoundTrip(v / 128, rest);
      assert s[1..] == Unsigned(v / 128) + rest;
    }
  }

  /** Decoding undoes the signed encoding: 64 comes back as 64 and not as -64. */
  lemma {:induction false} SignedRoundTrip(v: int, rest: seq<Byte>)
    ensures DecodeSigned(Signed(v) + rest) == Decoded(v, rest)
    decreases Magnitude(v)
  {
    var s := Signed(v) + rest;
    if Last(v) {
      assert s[1..] == rest;
    } else {
      SignedRoundTrip(v / 128, rest);
      assert s[1..] == Signed(v / 128) + rest;
    }
  }

  /** No other encoding of the value is shorter. */
  lemma {:induction false} UnsignedShortest(s: seq<Byte>, v: nat)
    requires DecodeUnsigned(s) == Decoded(v, [])
    ensures |Unsigned(v)| <= |s|
    decreases |s|
  {
    if s[0] >= 128 {
      var tail := DecodeUnsigned(s[1..]);
      DecodesNonNegative(s[1..]);
      UnsignedShortest(s[1..], tail.v);
      if v >= 128 { Quotient(v, tail.v, s[0] - 128); }
    }
  }

  lemma {:induction false} DecodesNonNegative(s: seq<Byte>)
    ensures DecodeUnsigned(s).Decoded? ==> DecodeUnsigned(s).v >= 0
  {
    if s != [] && s[0] >= 128 { DecodesNonNegative(s[1..]); }
  }

  lemma Quotient(v: int, q: int, b: int)
    requires 0 <= b < 128 && v == b + 128 * q
    ensures v / 128 == q && v % 128 == b
  {
  }

  lemma {:induction false} SignedShortest(s: seq<Byte>, v: int)
    requires DecodeSigned(s) == Decoded(v, [])
    ensures |Signed(v)| <= |s|
    decreases |s|
  {
    if s[0] >= 128 {
      var tail := DecodeSigned(s[1..]);
      SignedShortest(s[1..], tail.v);
      Quotient(v, tail.v, s[0] - 128);
    } else {
      Quotient(v, if s[0] >= 64 then -1 else 0, s[0]);
    }
  }

  function Power(n: nat): (p: nat)
    ensures p > 0
  {
    if n == 0 then 1 else 128 * Power(n - 1)
  }

  /** n bytes hold exactly the values below 128^n. */
  lemma {:induction false} UnsignedLength(v: nat, n: nat)
    requires n > 0
    ensures |Unsigned(v)| <= n <==> v < Power(n)
    decreases n
  {
    if n > 1 && v >= 128 {
      UnsignedLength(v / 128, n - 1);
      Below(v, Power(n - 1));
    } else if n > 1 {
      assert Power(n) >= 128 by { assert Power(n) == 128 * Power(n - 1); }
    }
  }

  lemma Below(v: nat, p: nat)
    ensures v / 128 < p <==> v < 128 * p
  {
  }

  /** Decoding undoes the padded form, for every size a slot may hold. */
  lemma PaddedRoundTrip(v: nat, rest: seq<Byte>)
    requires v <= 0xFFFF_FFFF
    ensures DecodeUnsigned(Padded(v) + rest) == Decoded(v, rest)
  {
    var v1, v2, v3, v4 := v / 128, v / 16384, v / 2097152, v / 268435456;
    PaddedDigits(v);
    var s := Padded(v) + rest;
    assert s[4..][1..] == rest;
    assert DecodeUnsigned(s[4..]) == Decoded(v4, rest);
    assert s[3..][1..] == s[4..];
    assert DecodeUnsigned(s[3..]) == Decoded(v3, rest);
    assert s[2..][1..] == s[3..];
    assert DecodeUnsigned(s[2..]) == Decoded(v2, rest);
    assert s[1..][1..] == s[2..];
    assert DecodeUnsigned(s[1..]) == Decoded(v1, rest);
  }

  lemma PaddedDigits(v: nat)
    requires v <= 0xFFFF_FFFF
    ensures var v1, v2, v3, v4 := v / 128, v / 16384, v / 2097152, v / 268435456;
      v == v % 128 + 128 * v1 && v1 == v1 % 128 + 128 * v2 && v2 == v2 % 128 + 128 * v3 && v3 == v3 % 128 + 128 * v4 && v4 < 128
  {
  }
}
