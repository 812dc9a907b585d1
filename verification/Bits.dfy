/** Bitwise operations of unsigned words, defined digit by digit on the naturals, and the
    div/mod facts that give masks and shifts their arithmetic meaning. */
module Bits {

  type Byte = b: int | 0 <= b < 0x100

  function Pow2(k: nat): (p: nat)
    ensures p > 0
  {
    if k == 0 then 1 else 2 * Pow2(k - 1)
  }

  /** C's `x & y`. */
  function BitAnd(x: nat, y: nat): (z: nat)
    ensures z <= x && z <= y
  {
    if x == 0 || y == 0 then 0
    else 2 * BitAnd(x / 2, y / 2) + (if x % 2 == 1 && y % 2 == 1 then 1 else 0)
  }

  /** C's `x | y`. */
  function BitOr(x: nat, y: nat): (z: nat)
    ensures z <= x + y
    decreases x + y
  {
    if x == 0 then y
    else if y == 0 then x
    else 2 * BitOr(x / 2, y / 2) + (if x % 2 == 1 || y % 2 == 1 then 1 else 0)
  }

  /** C's `x >> k`. */
  function ShiftRight(x: nat, k: nat): nat {
    if k == 0 then x else ShiftRight(x / 2, k - 1)
  }

  /** The number formed by the k lowest binary digits. */
  function LowDigits(x: nat, k: nat): nat {
    if k == 0 then 0 else 2 * LowDigits(x / 2, k - 1) + x % 2
  }

  // ----- Masks and flags

  /** Masking with k ones keeps the k lowest digits. */
  lemma {:induction false} MaskIsLow(x: nat, k: nat)
    ensures BitAnd(x, Pow2(k) - 1) == LowDigits(x, k)
  {
    if k == 0 {
    } else {
      MaskIsLow(x / 2, k - 1);
      LowOfZero(k);
      if x > 0 && k > 1 {
        assert (Pow2(k) - 1) / 2 == Pow2(k - 1) - 1 && (Pow2(k) - 1) % 2 == 1;
      }
    }
  }

  lemma {:induction false} LowOfZero(k: nat)
    ensures LowDigits(0, k) == 0
  {
    if k == 0 {
    } else {
      LowOfZero(k - 1);
    }
  }

  /** Masking with 2^k tests digit k. */
  lemma {:induction false} FlagIsDigit(x: nat, k: nat)
    ensures BitAnd(x, Pow2(k)) == if ShiftRight(x, k) % 2 == 1 then Pow2(k) else 0
  {
    if k > 0 {
      FlagIsDigit(x / 2, k - 1);
      assert Pow2(k) / 2 == Pow2(k - 1) && Pow2(k) % 2 == 0;
    } else if x > 0 {
      assert BitAnd(x / 2, 0) == 0;
    }
  }

  /** `|` with a flag above all digits of the other operand is addition. */
  lemma {:induction false} OrFlag(k: nat, low: nat)
    requires low < Pow2(k)
    ensures BitOr(Pow2(k), low) == Pow2(k) + low
  {
    if k == 0 || low == 0 {
    } else {
      OrFlag(k - 1, low / 2);
      assert Pow2(k) / 2 == Pow2(k - 1) && Pow2(k) % 2 == 0;
    }
  }

  /** The k lowest digits are the remainder modulo 2^k. */
  lemma {:induction false} LowIsMod(x: nat, k: nat)
    ensures LowDigits(x, k) == x % Pow2(k)
  {
    if k == 0 {
    } else {
      LowIsMod(x / 2, k - 1);
      HalfDivMod(x, Pow2(k - 1));
    }
  }

  /** Shifting right by k divides by 2^k. */
  lemma {:induction false} ShiftIsDiv(x: nat, k: nat)
    ensures ShiftRight(x, k) == x / Pow2(k)
  {
    if k == 0 {
    } else {
      ShiftIsDiv(x / 2, k - 1);
      HalfDivMod(x, Pow2(k - 1));
    }
  }

  /** Dividing by 2h is dividing the half by h; the last digit completes the remainder. */
  lemma {:induction false} HalfDivMod(x: nat, h: nat)
    requires h > 0
    ensures x / (2 * h) == (x / 2) / h
    ensures x % (2 * h) == 2 * ((x / 2) % h) + x % 2
  {
    var q, r := (x / 2) / h, (x / 2) % h;
    assert x / 2 == q * h + r;
    assert q * (2 * h) == 2 * (q * h);
    DivModUnique(x, 2 * h, q, 2 * r + x % 2);
  }

  /** The powers that occur as masks and flags in the headers. */
  lemma Pow2Values()
    ensures Pow2(8) == 0x100 && Pow2(10) == 0x400 && Pow2(16) == 0x1_0000 && Pow2(24) == 0x100_0000
    ensures Pow2(28) == 0x1000_0000 && Pow2(29) == 0x2000_0000 && Pow2(30) == 0x4000_0000 && Pow2(31) == 0x8000_0000
  {
    assert Pow2(4) == 16;
    assert Pow2(8) == 0x100;
    assert Pow2(10) == 0x400;
    PowSum(8, 8);
    PowSum(8, 16);
    PowSum(4, 24);
  }

  lemma {:induction false} PowSum(a: nat, b: nat)
    ensures Pow2(a + b) == Pow2(a) * Pow2(b)
  {
    if a == 0 {
    } else {
      PowSum(a - 1, b);
      assert 2 * (Pow2(a - 1) * Pow2(b)) == Pow2(a) * Pow2(b);
    }
  }

  // ----- Division

  /** Multiples of different whole numbers lie at least one step apart. */
  lemma MulGap(j: int, k: int, m: int)
    requires j < k && m > 0
    ensures k * m >= j * m + m
  {
    assert (k - j - 1) * m >= 0;
    assert k * m == j * m + m + (k - j - 1) * m;
  }

  /** A quotient and a remainder in range are the only ones. */
  lemma {:induction false} DivModUnique(x: int, m: int, q: int, r: int)
    requires m > 0 && 0 <= r < m && x == q * m + r
    ensures x / m == q && x % m == r
  {
    var q', r' := x / m, x % m;
    assert q' * m + r' == q * m + r;
    if q < q' {
      MulGap(q, q', m);
    }
    if q' < q {
      MulGap(q', q, m);
    }
  }

  /** Adding whole turns does not change a remainder. */
  lemma {:induction false} ModAddTurns(x: int, m: int, k: int)
    requires m > 0
    ensures (x + k * m) % m == x % m
  {
    DivModUnique(x + k * m, m, x / m + k, x % m);
  }

  /** Reducing first by a multiple of `n` does not change the remainder modulo `n`. */
  lemma {:induction false} ModOfMod(x: int, m: int, n: int)
    requires m > 0 && n > 0 && m % n == 0
    ensures (x % m) % n == x % n
  {
    var t := m / n;
    assert m == t * n;
    assert x == (x / m) * m + x % m;
    assert (x / m) * m == ((x / m) * t) * n;
    ModAddTurns(x % m, n, (x / m) * t);
  }

  /** Two numbers with the same remainder modulo n are at least n apart. */
  lemma SameRemainder(j: int, k: int, n: int)
    requires n > 0 && j < k && j % n == k % n
    ensures j + n <= k
  {
    var p, q := j / n, k / n;
    assert j == p * n + j % n && k == q * n + k % n;
    if p < q { MulGap(p, q, n); }
    if q < p { MulGap(q, p, n); }
  }

  /** The first number from `first` on with remainder `r`. */
  lemma FirstWithRemainder(first: nat, n: nat, r: nat) returns (e: nat)
    requires r < n
    ensures first <= e < first + n && e % n == r
  {
    var q, lead := first / n, first % n;
    assert first == q * n + lead;
    if r < lead {
      e := (q + 1) * n + r;
      assert (q + 1) * n == q * n + n;
      DivModUnique(e, n, q + 1, r);
    } else {
      e := q * n + r;
      DivModUnique(e, n, q, r);
    }
  }

  /** In any n consecutive naturals, each remainder modulo n occurs once. */
  lemma OncePerLap(first: nat, n: nat, r: nat) returns (e: nat)
    requires r < n
    ensures first <= e < first + n && e % n == r
    ensures forall f :: first <= f < first + n && f % n == r ==> f == e
  {
    e := FirstWithRemainder(first, n, r);
    forall f | first <= f < first + n && f % n == r
      ensures f == e
    {
      if f < e { SameRemainder(f, e, n); }
      if e < f { SameRemainder(e, f, n); }
    }
  }
}
