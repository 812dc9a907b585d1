/** What the unit-level functions of `utext_char_traits` mean for the code points of a string. */
module Utf16Traits {
  import opened Utf16
  import opened Bits
  import opened UtextTraits
  import opened Wrappers

  // ----- compare

  /** The comparison of two encoded strings over the shorter unit length. */
  function CompareEncoded(x: seq<Scalar>, y: seq<Scalar>): int {
    var u, v := Encode(x), Encode(y);
    var n := if |u| <= |v| then |u| else |v|;
    CompareUnits(u[..n], v[..n])
  }

  /** Index of the first code point that differs, or the length of the shorter string. */
  function FirstDifference(x: seq<Scalar>, y: seq<Scalar>): (k: nat)
    ensures k <= |x| && k <= |y|
  {
    if x == [] || y == [] || x[0] != y[0] then 0 else 1 + FirstDifference(x[1..], y[1..])
  }

  function Sign(v: int, w: int): int { if v < w then -1 else if v == w then 0 else 1 }

  /** Lexicographic order by code point over the shorter length. */
  function CodePointOrder(x: seq<Scalar>, y: seq<Scalar>): int {
    var k := FirstDifference(x, y);
    if k == |x| || k == |y| then 0 else Sign(x[k], y[k])
  }

  /** One of the two lies in U+E000-U+FFFF, the other at or above U+10000. */
  predicate Straddles(v: Scalar, w: Scalar) {
    (0xE000 <= v < 0x1_0000 && IsSupplementary(w)) || (0xE000 <= w < 0x1_0000 && IsSupplementary(v))
  }

  predicate FirstDifferenceStraddles(x: seq<Scalar>, y: seq<Scalar>) {
    var k := FirstDifference(x, y);
    k < |x| && k < |y| && Straddles(x[k], y[k])
  }

  lemma FirstDifferenceMeaning(x: seq<Scalar>, y: seq<Scalar>)
    ensures var k := FirstDifference(x, y);
            && x[..k] == y[..k]
            && (k < |x| && k < |y| ==> x[k] != y[k])
            && (k == |x| || k == |y| <==> x <= y || y <= x)
  {
    if x == [] || y == [] || x[0] != y[0] {
    } else {
      FirstDifferenceMeaning(x[1..], y[1..]);
      assert x == [x[0]] + x[1..] && y == [y[0]] + y[1..];
      var k := FirstDifference(x[1..], y[1..]);
      assert x[..k + 1] == [x[0]] + x[1..][..k] && y[..k + 1] == [y[0]] + y[1..][..k];
      assert x <= y <==> x[1..] <= y[1..];
      assert y <= x <==> y[1..] <= x[1..];
    }
  }

  /** Encodings of two different code points: their order in units. */
  lemma DifferentHeads(v: Scalar, w: Scalar, a: seq<Unit>, b: seq<Unit>)
    requires v != w && |a| == |b| > 0
    requires a[0] == EncodeOne(v)[0] && b[0] == EncodeOne(w)[0]
    requires IsSupplementary(v) && IsSupplementary(w) ==>
               |a| >= 2 && a[1] == EncodeOne(v)[1] && b[1] == EncodeOne(w)[1]
    ensures CompareUnits(a, b) == if Straddles(v, w) then -Sign(v, w) else Sign(v, w)
  {
    CompareAt(a, b, if a[0] != b[0] then 0 else 1);
  }

  /** The comparison is code-point order, reversed exactly when the first code points that
      differ straddle the surrogate range. */
  lemma {:induction false} CompareIsCodePointOrder(x: seq<Scalar>, y: seq<Scalar>)
    ensures CompareEncoded(x, y) ==
            if FirstDifferenceStraddles(x, y) then -CodePointOrder(x, y) else CodePointOrder(x, y)
  {
    if x == [] || y == [] {
    } else {
      var u, v, p := Encode(x), Encode(y), EncodeOne(x[0]);
      var n := if |u| <= |v| then |u| else |v|;
      if x[0] == y[0] {
        CompareIsCodePointOrder(x[1..], y[1..]);
        var u', v' := Encode(x[1..]), Encode(y[1..]);
        assert u[..n] == p + u'[..n - |p|] && v[..n] == p + v'[..n - |p|];
        CompareStable(p, p, u'[..n - |p|], v'[..n - |p|]);
        CompareZeroIff(p, p);
      } else {
        DifferentHeads(x[0], y[0], u[..n], v[..n]);
      }
    }
  }

  /** So comparing units agrees with code-point order for exactly the pairs without such a
      difference, and finds no difference exactly when one string is a prefix of the other. */
  lemma CompareAgreesIff(x: seq<Scalar>, y: seq<Scalar>)
    ensures CompareEncoded(x, y) == CodePointOrder(x, y) <==> !FirstDifferenceStraddles(x, y)
    ensures CompareEncoded(x, y) == 0 <==> x <= y || y <= x
  {
    CompareIsCodePointOrder(x, y);
    FirstDifferenceMeaning(x, y);
  }

  /** A shortest pair on which the two orders disagree. */
  lemma OrdersDisagree()
    ensures CodePointOrder([0xFFFF], [0x1_0000]) == -1 && CompareEncoded([0xFFFF], [0x1_0000]) == 1
  {
    CompareIsCodePointOrder([0xFFFF], [0x1_0000]);
  }

  // ----- find

  /** Number of units before code point `k`. */
  function OffsetOf(x: seq<Scalar>, k: nat): nat
    requires k <= |x|
  {
    |Encode(x[..k])|
  }

  function FirstScalar(x: seq<Scalar>, c: Scalar): (r: Option<nat>)
    ensures r == None <==> c !in x
    ensures r.Some? ==> r.value < |x| && x[r.value] == c && c !in x[..r.value]
  {
    if x == [] then None
    else if x[0] == c then Some(0)
    else
      match FirstScalar(x[1..], c)
      case None => None
      case Some(k) => assert x[..k + 1] == [x[0]] + x[1..][..k]; Some(k + 1)
  }

  lemma {:induction false} FirstIndexConcat(a: seq<Unit>, b: seq<Unit>, c: Unit)
    ensures FirstIndex(a + b, c) ==
            if c in a then FirstIndex(a, c)
            else match FirstIndex(b, c) case None => None case Some(i) => Some(|a| + i)
  {
    if a == [] {
      assert a + b == b;
    } else {
      FirstIndexConcat(a[1..], b, c);
      assert (a + b)[1..] == a[1..] + b;
    }
  }

  lemma OffsetStep(x: seq<Scalar>, k: nat)
    requires k < |x|
    ensures OffsetOf(x, k + 1) == |EncodeOne(x[0])| + OffsetOf(x[1..], k)
  {
    assert x[..k + 1][1..] == x[1..][..k];
  }

  /** Searching past the units of a code point of another value. */
  lemma SearchPast(v: Scalar, rest: seq<Unit>, c: Scalar)
    requires v != c && !IsSupplementary(c)
    ensures c !in EncodeOne(v)
    ensures FirstIndex(EncodeOne(v) + rest, c) ==
            match FirstIndex(rest, c) case None => None case Some(i) => Some(|EncodeOne(v)| + i)
  {
    FirstIndexConcat(EncodeOne(v), rest, c);
  }

  /** The offset of the first code point of value `c`, if it lies within the first n units. */
  function FirstOffset(x: seq<Scalar>, n: nat, c: Scalar): Option<nat> {
    match FirstScalar(x, c)
    case None => None
    case Some(k) => if OffsetOf(x, k) < n then Some(OffsetOf(x, k)) else None
  }

  lemma FirstOffsetPast(x: seq<Scalar>, n: nat, c: Scalar)
    requires x != [] && x[0] != c
    ensures var l := |EncodeOne(x[0])|;
            FirstOffset(x, n, c) ==
            if n <= l then None
            else match FirstOffset(x[1..], n - l, c) case None => None case Some(i) => Some(l + i)
  {
    var rest := FirstScalar(x[1..], c);
    if rest.Some? { OffsetStep(x, rest.value); }
  }

  /** The first n units of a string, by its first code point. */
  lemma EncodePrefix(x: seq<Scalar>, n: nat)
    requires x != [] && n <= |Encode(x)|
    ensures var p := EncodeOne(x[0]);
            Encode(x)[..n] == if n <= |p| then p[..n] else p + Encode(x[1..])[..n - |p|]
  {
  }

  lemma FindsInFirst(x: seq<Scalar>, n: nat, c: Scalar)
    requires x != [] && n <= |EncodeOne(x[0])| && !IsSupplementary(c)
    ensures FirstIndex(Encode(x)[..n], c) == FirstOffset(x, n, c)
  {
    EncodePrefix(x, n);
    if x[0] == c {
    } else {
      SearchPast(x[0], [], c);
      FirstOffsetPast(x, n, c);
    }
  }

  lemma FindsBeyondFirst(x: seq<Scalar>, n: nat, c: Scalar)
    requires x != [] && x[0] != c && |EncodeOne(x[0])| < n <= |Encode(x)| && !IsSupplementary(c)
    requires var m := n - |EncodeOne(x[0])|; FirstIndex(Encode(x[1..])[..m], c) == FirstOffset(x[1..], m, c)
    ensures FirstIndex(Encode(x)[..n], c) == FirstOffset(x, n, c)
  {
    EncodePrefix(x, n);
    SearchPast(x[0], Encode(x[1..])[..n - |EncodeOne(x[0])|], c);
    FirstOffsetPast(x, n, c);
  }

  /** Where the search for a unit that is no surrogate ends, among the first n units: at the
      offset of the first code point of that value if this lies within n, else nowhere. It never
      stops inside a surrogate pair, even if n cuts one. */
  lemma {:induction false} FindsCodePoint(x: seq<Scalar>, n: nat, c: Scalar)
    requires n <= |Encode(x)| && !IsSupplementary(c)
    ensures FirstIndex(Encode(x)[..n], c) == FirstOffset(x, n, c)
  {
    if x == [] {
    } else if n <= |EncodeOne(x[0])| {
      FindsInFirst(x, n, c);
    } else if x[0] == c {
      assert Encode(x)[..n][0] == c;
    } else {
      FindsCodePoint(x[1..], n - |EncodeOne(x[0])|, c);
      FindsBeyondFirst(x, n, c);
    }
  }

  ghost predicate OnBoundary(x: seq<Scalar>, i: nat) {
    exists k :: 0 <= k <= |x| && OffsetOf(x, k) == i
  }

  /** A position in an encoded string lies inside a surrogate pair exactly when the unit there
      is a low surrogate; so searching for any other unit always ends on a code point. */
  lemma {:induction false} InsidePairIffLow(x: seq<Scalar>, i: nat)
    requires i < |Encode(x)|
    ensures OnBoundary(x, i) <==> !IsLow(Encode(x)[i])
  {
    var p := EncodeOne(x[0]);
    assert OffsetOf(x, 0) == 0;
    if i >= |p| {
      InsidePairIffLow(x[1..], i - |p|);
      if OnBoundary(x, i) {
        var k :| 0 <= k <= |x| && OffsetOf(x, k) == i;
        OffsetStep(x, k - 1);
        assert OffsetOf(x[1..], k - 1) == i - |p|;
      }
      if OnBoundary(x[1..], i - |p|) {
        var k :| 0 <= k <= |x[1..]| && OffsetOf(x[1..], k) == i - |p|;
        OffsetStep(x, k);
        assert OffsetOf(x, k + 1) == i;
      }
    } else if i == 1 {
      forall k | 0 < k <= |x|
        ensures OffsetOf(x, k) != 1
      {
        OffsetStep(x, k - 1);
      }
    }
  }

  // ----- length

  /** The code points before the first U+0000. */
  function BeforeNul(x: seq<Scalar>): seq<Scalar> {
    if x == [] || x[0] == 0 then [] else [x[0]] + BeforeNul(x[1..])
  }

  /** The length of a terminated string: the code points before the first U+0000, those at or
      above U+10000 counted twice. Whatever follows the terminator does not matter. */
  lemma {:induction false} LengthCountsCodePoints(x: seq<Scalar>, u: seq<Unit>)
    requires Encode(x) + [0] <= u
    ensures FirstIndex(u, 0) == Some(|BeforeNul(x)| + Supplementaries(BeforeNul(x)))
  {
    if x != [] && x[0] != 0 {
      var v := PastFirst(x, u);
      LengthCountsCodePoints(x[1..], v);
      SearchPast(x[0], v, 0);
      BeforeNulStep(x);
    } else {
      assert u[0] == 0;
    }
  }

  /** What lies behind the first code point of a terminated string. */
  lemma PastFirst(x: seq<Scalar>, u: seq<Unit>) returns (v: seq<Unit>)
    requires x != [] && Encode(x) + [0] <= u
    ensures u == EncodeOne(x[0]) + v && Encode(x[1..]) + [0] <= v
  {
    v := u[|EncodeOne(x[0])|..];
    assert Encode(x) == EncodeOne(x[0]) + Encode(x[1..]);
    PrefixOff(EncodeOne(x[0]), Encode(x[1..]), [0], u);
  }

  lemma PrefixOff<T>(a: seq<T>, b: seq<T>, c: seq<T>, u: seq<T>)
    requires a + b + c <= u
    ensures u == a + u[|a|..] && b + c <= u[|a|..]
  {
    assert a + b + c == a + (b + c);
  }

  lemma BeforeNulStep(x: seq<Scalar>)
    requires x != [] && x[0] != 0
    ensures var b, b' := BeforeNul(x), BeforeNul(x[1..]);
            |b| + Supplementaries(b) == |EncodeOne(x[0])| + |b'| + Supplementaries(b')
  {
    assert BeforeNul(x)[1..] == BeforeNul(x[1..]);
  }

  lemma {:induction false} BeforeNulIsAll(x: seq<Scalar>)
    ensures BeforeNul(x) == x <==> 0 !in x
    ensures BeforeNul(x) <= x
  {
    if x == [] {
    } else {
      BeforeNulIsAll(x[1..]);
      assert x == [x[0]] + x[1..];
    }
  }

  // ----- Strings in memory, as the methods see them

  /** The units of `u` lie in memory from address `p` on. */
  ghost predicate Holds(m: seq<Byte>, p: nat, u: seq<Unit>) {
    p + |u| * UNIT_SIZE <= |m| && Units(m, p, |u|) == u
  }

  lemma UnitsPrefix(m: seq<Byte>, p: nat, u: seq<Unit>, n: nat)
    requires Holds(m, p, u) && n <= |u|
    ensures p + n * UNIT_SIZE <= |m| && Units(m, p, n) == u[..n]
  {
    assert Units(m, p, |u|)[..n] == Units(m, p, n);
  }

  /** What `Compare` returns for two encoded strings in memory and the shorter unit length. */
  lemma CompareInMemory(m: seq<Byte>, s1: nat, x: seq<Scalar>, s2: nat, y: seq<Scalar>)
    requires Holds(m, s1, Encode(x)) && Holds(m, s2, Encode(y))
    ensures var n := if |Encode(x)| <= |Encode(y)| then |Encode(x)| else |Encode(y)|;
            var k := Common(m, s1, s2, n);
            && k == n
            && CompareUnits(Units(m, s1, k), Units(m, s2, k)) ==
               if FirstDifferenceStraddles(x, y) then -CodePointOrder(x, y) else CodePointOrder(x, y)
  {
    var n := if |Encode(x)| <= |Encode(y)| then |Encode(x)| else |Encode(y)|;
    UnitsPrefix(m, s1, Encode(x), n);
    UnitsPrefix(m, s2, Encode(y), n);
    CompareIsCodePointOrder(x, y);
  }

  /** What `Find` returns, as an index, for a unit that is no surrogate. */
  lemma FindInMemory(m: seq<Byte>, s: nat, x: seq<Scalar>, n: nat, c: Scalar)
    requires Holds(m, s, Encode(x)) && n <= |Encode(x)| && !IsSupplementary(c)
    ensures Readable(m, s, n) == n && FirstIndex(Units(m, s, n), c) == FirstOffset(x, n, c)
  {
    UnitsPrefix(m, s, Encode(x), n);
    FindsCodePoint(x, n, c);
  }

  /** What `Length` returns for an encoded string with a terminator, whatever lies behind it. */
  lemma LengthInMemory(m: seq<Byte>, s: nat, x: seq<Scalar>)
    requires Holds(m, s, Encode(x) + [0])
    ensures FirstIndex(Units(m, s, Readable(m, s, |m|)), 0) ==
            Some(|BeforeNul(x)| + Supplementaries(BeforeNul(x)))
  {
    var all, n := Units(m, s, Readable(m, s, |m|)), |Encode(x)| + 1;
    assert all[..n] == Units(m, s, n);
    LengthCountsCodePoints(x, all);
  }
}
