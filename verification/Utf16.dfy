/** UTF-16 as sections 2.1 and 2.2 of RFC 2781 define it. */
module Utf16 {
  import opened Wrappers

  /** `utext`, an unsigned short. */
  type Unit = u: int | 0 <= u < 0x1_0000

  /** A Unicode scalar value: a code point that is no surrogate. */
  type Scalar = v: int | 0 <= v < 0x11_0000 && !(0xD800 <= v < 0xE000)

  predicate IsHigh(u: Unit) { 0xD800 <= u < 0xDC00 }

  predicate IsLow(u: Unit) { 0xDC00 <= u < 0xE000 }

  predicate IsSupplementary(v: Scalar) { v >= 0x1_0000 }

  /** Section 2.1 of RFC 2781. */
  function EncodeOne(v: Scalar): (u: seq<Unit>)
    ensures |u| == if IsSupplementary(v) then 2 else 1
  {
    if v < 0x1_0000 then [v]
    else [0xD800 + (v - 0x1_0000) / 0x400, 0xDC00 + (v - 0x1_0000) % 0x400]
  }

  function Encode(x: seq<Scalar>): seq<Unit> {
    if x == [] then [] else EncodeOne(x[0]) + Encode(x[1..])
  }

  /** Section 2.2 of RFC 2781; a unit sequence that violates it has no decoding. */
  function Decode(u: seq<Unit>): Option<seq<Scalar>> {
    if u == [] then Some([])
    else if !IsHigh(u[0]) && !IsLow(u[0]) then Prepend(u[0], Decode(u[1..]))
    else if IsHigh(u[0]) && |u| >= 2 && IsLow(u[1]) then
      var w1: int, w2: int := u[0], u[1];
      Prepend(0x1_0000 + (w1 - 0xD800) * 0x400 + (w2 - 0xDC00), Decode(u[2..]))
    else None
  }

  function Prepend(v: Scalar, rest: Option<seq<Scalar>>): Option<seq<Scalar>> {
    match rest
    case None => None
    case Some(x) => Some([v] + x)
  }

  /** Encoding loses nothing. */
  lemma {:induction false} RoundTrip(x: seq<Scalar>)
    ensures Decode(Encode(x)) == Some(x)
  {
    if x == [] {
    } else {
      RoundTrip(x[1..]);
      var u := Encode(x);
      assert u[|EncodeOne(x[0])|..] == Encode(x[1..]);
      assert [x[0]] + x[1..] == x;
    }
  }

  lemma {:induction false} DecodeInverts(u: seq<Unit>)
    requires Decode(u).Some?
    ensures Encode(Decode(u).value) == u
    decreases |u|
  {
    if u == [] {
    } else {
      var x, n := Decode(u).value, if IsHigh(u[0]) then 2 else 1;
      assert Decode(u[n..]) == Some(x[1..]);
      DecodeInverts(u[n..]);
      assert EncodeOne(x[0]) == u[..n];
    }
  }

  /** A unit sequence has a decoding exactly when it is an encoding, and only that one. */
  lemma DecodesIffEncoding(u: seq<Unit>, x: seq<Scalar>)
    ensures Decode(u) == Some(x) <==> u == Encode(x)
  {
    RoundTrip(x);
    if Decode(u) == Some(x) { DecodeInverts(u); }
  }

  /** Number of code points that take two units. */
  function Supplementaries(x: seq<Scalar>): nat {
    if x == [] then 0 else Supplementaries(x[1..]) + (if IsSupplementary(x[0]) then 1 else 0)
  }

  lemma {:induction false} EncodedLength(x: seq<Scalar>)
    ensures |Encode(x)| == |x| + Supplementaries(x)
  {
    if x == [] {
    } else {
      EncodedLength(x[1..]);
    }
  }
}
