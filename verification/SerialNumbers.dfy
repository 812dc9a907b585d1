/** The 32-bit wrapping sequence numbers of the FED builder: the four comparison
    macros and what they mean for the unbounded counters behind the numbers. */
module SerialNumbers {
  const MODULUS: int := 0x1_0000_0000
  const HALF: int := 0x8000_0000

  /** `uint32_t`, hence `myrfb_seq`. */
  type uint32 = x: int | 0 <= x < MODULUS

  /** Conversion to `uint32_t`. */
  function Wrap(x: int): uint32 { x % MODULUS }

  /** The cast `(int32_t)` of an unsigned word, two's complement. */
  function ToInt32(u: uint32): int {
    if u < HALF then u else u - MODULUS
  }

  /** The signed reading of the wrapped difference, shared by the four macros. */
  function SeqDiff(a: uint32, b: uint32): int { ToInt32(Wrap(a - b)) }

  predicate SeqLt(a: uint32, b: uint32) { SeqDiff(a, b) < 0 }

  predicate SeqLe(a: uint32, b: uint32) { SeqDiff(a, b) <= 0 }

  predicate SeqGt(a: uint32, b: uint32) { SeqDiff(a, b) > 0 }

  predicate SeqGe(a: uint32, b: uint32) { SeqDiff(a, b) >= 0 }

  /** The two numbers are half the circle apart. */
  predicate Antipodal(a: uint32, b: uint32) { a - b == HALF || b - a == HALF }

  /** "Less than" of section 3.2 of RFC 1982 with SERIAL_BITS = 32. */
  predicate Rfc1982Lt(i1: uint32, i2: uint32) {
    (i1 < i2 && i2 - i1 < HALF) || (i1 > i2 && i1 - i2 > HALF)
  }

  // ----- Wrapping

  /** Wrapping forgets only whole turns. */
  lemma WrapTurns(x: int, k: int)
    ensures Wrap(x + k * MODULUS) == Wrap(x)
  {
  }

  /** A difference of wrapped counters wraps to the wrapped difference. */
  lemma WrapSub(a: int, b: int)
    ensures Wrap(Wrap(a) - Wrap(b)) == Wrap(a - b)
  {
  }

  /** Likewise for a sum with an unwrapped increment. */
  lemma WrapAdd(a: int, n: int)
    ensures Wrap(Wrap(a) + n) == Wrap(a + n)
  {
  }

  /** Within one turn of zero the wrapped value and its signed reading are explicit. */
  lemma WrapNear(d: int)
    requires -MODULUS < d < MODULUS
    ensures Wrap(d) == if d < 0 then d + MODULUS else d
    ensures ToInt32(Wrap(d)) ==
            if d < -HALF then d + MODULUS else if d < HALF then d else d - MODULUS
  {
  }

  // ----- Refinement of the unbounded counters

  /** For counters less than one turn apart, each macro gives the order of the counters
      exactly when their difference lies in [-2^31, 2^31). So the macros are right for every
      pair less than 2^31 apart, and at every distance beyond that each of them is wrong. */
  lemma MacrosRefineCounters(a: int, b: int)
    requires -MODULUS < a - b < MODULUS
    ensures (SeqLt(Wrap(a), Wrap(b)) <==> a < b) <==> -HALF <= a - b < HALF
    ensures (SeqLe(Wrap(a), Wrap(b)) <==> a <= b) <==> -HALF <= a - b < HALF
    ensures (SeqGt(Wrap(a), Wrap(b)) <==> a > b) <==> -HALF <= a - b < HALF
    ensures (SeqGe(Wrap(a), Wrap(b)) <==> a >= b) <==> -HALF <= a - b < HALF
  {
  }

  // ----- Exact limits, for all operands

  /** How the macros relate to each other under negation and exchange of operands. */
  lemma MacroAlgebra(a: uint32, b: uint32)
    ensures SeqGe(a, b) <==> !SeqLt(a, b)
    ensures SeqGt(a, b) <==> !SeqLe(a, b)
    ensures SeqLe(a, b) && SeqGe(a, b) <==> a == b
    ensures SeqLt(b, a) <==> SeqGt(a, b) || Antipodal(a, b)
    ensures SeqLe(b, a) <==> SeqGe(a, b) || Antipodal(a, b)
    ensures SeqLt(a, b) && SeqLt(b, a) <==> Antipodal(a, b)
    ensures !SeqGt(a, b) && !SeqGt(b, a) <==> a == b || Antipodal(a, b)
  {
  }

  /** The macro is the RFC's order, plus the one case which the RFC leaves undefined. */
  lemma SeqLtIsRfc1982(a: uint32, b: uint32)
    ensures SeqLt(a, b) <==> Rfc1982Lt(a, b) || Antipodal(a, b)
    ensures !(Rfc1982Lt(a, b) && Antipodal(a, b))
  {
  }

  // ----- Order inside an arc

  ghost predicate StrictTotalOrderOn(s: set<uint32>) {
    && (forall x :: x in s ==> !SeqLt(x, x))
    && (forall x, y :: x in s && y in s ==> SeqLt(x, y) || x == y || SeqLt(y, x))
    && (forall x, y, z :: x in s && y in s && z in s && SeqLt(x, y) && SeqLt(y, z) ==> SeqLt(x, z))
  }

  /** Distance walked forward from `base` to reach `x`. */
  function Offset(base: uint32, x: uint32): uint32 { Wrap(x - base) }

  predicate InArc(x: uint32, base: uint32, length: nat) { Offset(base, x) < length }

  /** Inside an arc no longer than half the circle, the macro orders numbers by their
      distance from the start of the arc, wherever the arc crosses zero. */
  lemma SeqLtIsOffsetOrder(base: uint32, length: nat, x: uint32, y: uint32)
    requires length <= HALF && InArc(x, base, length) && InArc(y, base, length)
    ensures SeqLt(x, y) <==> Offset(base, x) < Offset(base, y)
    ensures Offset(base, x) == Offset(base, y) ==> x == y
  {
  }

  ghost predicate AllInArc(s: set<uint32>, base: uint32, length: nat) {
    forall x :: x in s ==> InArc(x, base, length)
  }

  lemma ArcIsOrdered(s: set<uint32>, base: uint32, length: nat)
    requires length <= HALF && AllInArc(s, base, length)
    ensures StrictTotalOrderOn(s)
  {
    forall x, y | x in s && y in s
      ensures SeqLt(x, y) <==> Offset(base, x) < Offset(base, y)
      ensures Offset(base, x) == Offset(base, y) ==> x == y
    {
      SeqLtIsOffsetOrder(base, length, x, y);
    }
  }

  ghost predicate IsLeast(s: set<uint32>, least: uint32) {
    least in s && forall x :: x in s ==> x == least || SeqLt(least, x)
  }

  lemma {:induction false} Least(s: set<uint32>) returns (least: uint32)
    requires s != {} && StrictTotalOrderOn(s)
    ensures IsLeast(s, least)
    decreases |s|
  {
    var x :| x in s;
    var rest := s - {x};
    if rest == {} {
      assert s == {x};
      least := x;
    } else {
      var y := Least(rest);
      least := if SeqLt(x, y) then x else y;
    }
  }

  /** Numbers after `base` in the order, and not opposite to it, lie on the half circle from it. */
  lemma AfterInArc(base: uint32, x: uint32)
    requires x == base || (SeqLt(base, x) && !SeqLt(x, base))
    ensures InArc(x, base, HALF)
  {
    WrapNear(x - base);
    WrapNear(base - x);
  }

  /** The sets of numbers on which the macro is a strict total order are exactly those that lie
      in some arc of half the circle. */
  lemma OrderedIffInArc(s: set<uint32>)
    ensures StrictTotalOrderOn(s) <==> exists base :: AllInArc(s, base, HALF)
  {
    if StrictTotalOrderOn(s) && s != {} {
      var least := Least(s);
      forall x | x in s
        ensures InArc(x, least, HALF)
      {
        AfterInArc(least, x);
      }
      assert AllInArc(s, least, HALF);
    } else if s == {} {
      assert AllInArc(s, 0, HALF);
    }
    if base :| AllInArc(s, base, HALF) {
      ArcIsOrdered(s, base, HALF);
    }
  }

  /** `length` consecutive sequence numbers from `base` on. */
  ghost function Window(base: uint32, length: nat): set<uint32> {
    set x: uint32 | InArc(x, base, length)
  }

  /** A window of consecutive numbers is totally ordered exactly up to half the circle. */
  lemma WindowOrderedIff(base: uint32, length: nat)
    ensures StrictTotalOrderOn(Window(base, length)) <==> length <= HALF
  {
    if length <= HALF {
      ArcIsOrdered(Window(base, length), base, length);
    } else {
      var far := Wrap(base + HALF);
      WrapSub(base + HALF, base);
      WrapNear(HALF);
      WrapNear(base - base);
      assert base == Wrap(base);
      assert Offset(base, base) == 0 && Offset(base, far) == HALF;
      assert base in Window(base, length) && far in Window(base, length);
      WrapSub(base, base + HALF);
      WrapNear(-HALF);
      assert SeqLt(base, far) && SeqLt(far, base);
    }
  }

  /** On the whole circle the macro is no order at all: every number starts a cycle of three. */
  lemma EveryNumberIsOnACycle(a: uint32) returns (b: uint32, c: uint32)
    ensures SeqLt(a, b) && SeqLt(b, c) && SeqLt(c, a)
  {
    var third := 0x5555_5555;
    b, c := Wrap(a + third), Wrap(a + 2 * third);
    MacrosRefineCounters(a, a + third);
    MacrosRefineCounters(a + third, a + 2 * third);
    MacrosRefineCounters(a + 2 * third, a + MODULUS);
    WrapTurns(a, 1);
  }

  // ----- Membership in a window of outstanding numbers

  /** The number lies at or after `lo` and before `hi`. */
  predicate InWindow(s: uint32, lo: uint32, hi: uint32) {
    SeqGe(s, lo) && SeqLt(s, hi)
  }

  /** The window test accepts a counter exactly when it is one of the `length` numbers
      from `lo` on, up to whole turns. */
  lemma InWindowIsExact(k: int, lo: int, length: nat)
    requires length <= HALF
    ensures InWindow(Wrap(k), Wrap(lo), Wrap(lo + length)) <==> (k - lo) % MODULUS < length
  {
    var x := Wrap(k - lo);
    WrapSub(k, lo);
    WrapSub(k, lo + length);
    WrapAdd(k - lo, 0 - length);
    assert k - lo - length == k - (lo + length);
    WrapNear(x - length);
  }

  /** Writing the lower test with exchanged operands, `SEQ_LE(lo, s)`, is not the same:
      it also lets through the number opposite to an empty window, and only that one. */
  lemma ExchangedWindowTest(s: uint32, lo: uint32, length: nat)
    requires length <= HALF
    ensures SeqLe(lo, s) && SeqLt(s, Wrap(lo + length)) <==>
            InWindow(s, lo, Wrap(lo + length)) || (length == 0 && Antipodal(lo, s))
  {
    MacroAlgebra(s, lo);
    if Antipodal(lo, s) {
      assert Wrap(s) == s;
      WrapSub(s, lo + length);
      WrapNear(s - lo);
      WrapAdd(s - lo, 0 - length);
      assert s - lo - length == s - (lo + length);
      WrapNear(HALF - length);
    }
  }
}
