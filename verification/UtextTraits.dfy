/** `utext_char_traits`: its functions over one flat memory of bytes. A pointer is a byte
    address; units lie in memory low byte first. */
module UtextTraits {
  import opened Bits
  import opened Utf16
  import opened Wrappers

  const UNIT_SIZE: nat := 2

  // ----- Memory as units

  function UnitAt(m: seq<Byte>, p: nat): Unit
    requires p + UNIT_SIZE <= |m|
  {
    var low: int, high: int := m[p], m[p + 1];
    low + 0x100 * high
  }

  /** The `n` units from address `p` on. */
  function Units(m: seq<Byte>, p: nat, n: nat): (u: seq<Unit>)
    requires p + n * UNIT_SIZE <= |m|
    ensures |u| == n
  {
    seq(n, i requires 0 <= i < n => UnitAt(m, p + i * UNIT_SIZE))
  }

  /** Units lie next to each other and share no byte: equal units are equal memory, from the first
      byte of the first unit to the last byte of the last one. */
  lemma UnitsTileMemory(m: seq<Byte>, m': seq<Byte>, p: nat, n: nat)
    requires |m| == |m'| && p + n * UNIT_SIZE <= |m|
    ensures Units(m, p, n) == Units(m', p, n) <==> m[p..p + n * UNIT_SIZE] == m'[p..p + n * UNIT_SIZE]
  {
    if Units(m, p, n) == Units(m', p, n) {
      forall k | p <= k < p + n * UNIT_SIZE
        ensures m[k] == m'[k]
      {
        var i := (k - p) / UNIT_SIZE;
        assert Units(m, p, n)[i] == Units(m', p, n)[i];
      }
    } else {
      var i :| 0 <= i < n && Units(m, p, n)[i] != Units(m', p, n)[i];
      var k := i * UNIT_SIZE;
      var r, r' := m[p..p + n * UNIT_SIZE], m'[p..p + n * UNIT_SIZE];
      assert r[k] != r'[k] || r[k + 1] != r'[k + 1];
    }
  }

  /** How many of the `n` units from address `p` on lie in memory. */
  function Readable(m: seq<Byte>, p: nat, n: nat): (k: nat)
    requires p <= |m|
    ensures k <= n && p + k * UNIT_SIZE <= |m| && (k == n || |m| < p + (k + 1) * UNIT_SIZE)
  {
    if p + n * UNIT_SIZE <= |m| then n else (|m| - p) / UNIT_SIZE
  }

  predicate Eq(c1: Unit, c2: Unit) { c1 == c2 }

  predicate Lt(c1: Unit, c2: Unit) { c1 < c2 }

  // ----- compare

  /** Three-way comparison at the first unit that differs. */
  function CompareUnits(a: seq<Unit>, b: seq<Unit>): int
    requires |a| == |b|
  {
    if a == [] then 0
    else if !Eq(a[0], b[0]) then if Lt(a[0], b[0]) then -1 else 1
    else CompareUnits(a[1..], b[1..])
  }

  /** Reads no unit beyond the first difference, so only the units up to it must be in memory. */
  method Compare(mem: array<Byte>, s1: nat, s2: nat, n: nat) returns (r: int)
    requires s1 <= mem.Length && s2 <= mem.Length
    requires var k := Common(mem[..], s1, s2, n); k == n || Units(mem[..], s1, k) != Units(mem[..], s2, k)
    ensures var k := Common(mem[..], s1, s2, n); r == CompareUnits(Units(mem[..], s1, k), Units(mem[..], s2, k))
  {
    ghost var k := Common(mem[..], s1, s2, n);
    ghost var a, b := Units(mem[..], s1, k), Units(mem[..], s2, k);
    var i := 0;
    while i < n
      invariant 0 <= i <= k <= n
      invariant forall j :: 0 <= j < i ==> a[j] == b[j]
    {
      assert i < k;
      var c1, c2 := Load(mem, s1 + i * UNIT_SIZE), Load(mem, s2 + i * UNIT_SIZE);
      if !Eq(c1, c2) {
        CompareAt(a, b, i);
        return if Lt(c1, c2) then -1 else 1;
      }
      i := i + 1;
    }
    CompareZeroIff(a, b);
    return 0;
  }

  /** Units that lie in memory behind both addresses. */
  ghost function Common(m: seq<Byte>, s1: nat, s2: nat, n: nat): (k: nat)
    requires s1 <= |m| && s2 <= |m|
    ensures k <= n && s1 + k * UNIT_SIZE <= |m| && s2 + k * UNIT_SIZE <= |m|
    ensures k == n || |m| < s1 + (k + 1) * UNIT_SIZE || |m| < s2 + (k + 1) * UNIT_SIZE
  {
    var k1, k2 := Readable(m, s1, n), Readable(m, s2, n);
    if k1 < k2 then k1 else k2
  }

  /** `*p`. */
  function Load(mem: array<Byte>, p: nat): Unit
    requires p + UNIT_SIZE <= mem.Length
    reads mem
  {
    UnitAt(mem[..], p)
  }

  /** `eq` and `lt` of two chars are the comparison of the strings they make. */
  lemma CompareOne(c1: Unit, c2: Unit)
    ensures Eq(c1, c2) <==> CompareUnits([c1], [c2]) == 0
    ensures Lt(c1, c2) <==> CompareUnits([c1], [c2]) < 0
    ensures Lt(c2, c1) <==> CompareUnits([c1], [c2]) > 0
  {
    assert CompareUnits([c1][1..], [c2][1..]) == 0;
  }

  /** The comparison is decided at index `i` when that is the first difference. */
  lemma {:induction false} CompareAt(a: seq<Unit>, b: seq<Unit>, i: nat)
    requires |a| == |b| && i < |a| && a[i] != b[i] && forall j :: 0 <= j < i ==> a[j] == b[j]
    ensures CompareUnits(a, b) == if Lt(a[i], b[i]) then -1 else 1
  {
    if i == 0 {
    } else {
      CompareAt(a[1..], b[1..], i - 1);
    }
  }

  lemma {:induction false} CompareZeroIff(a: seq<Unit>, b: seq<Unit>)
    requires |a| == |b|
    ensures CompareUnits(a, b) == 0 <==> a == b
    ensures CompareUnits(a, b) in {-1, 0, 1}
  {
    if a == [] {
    } else {
      CompareZeroIff(a[1..], b[1..]);
      assert a == [a[0]] + a[1..] && b == [b[0]] + b[1..];
    }
  }

  /** For every length, comparison is a three-way total order on strings of that length. */
  lemma {:induction false} CompareIsTotalOrder(a: seq<Unit>, b: seq<Unit>, c: seq<Unit>)
    requires |a| == |b| == |c|
    ensures CompareUnits(b, a) == -CompareUnits(a, b)
    ensures CompareUnits(a, b) <= 0 && CompareUnits(b, c) <= 0 ==> CompareUnits(a, c) <= 0
    ensures CompareUnits(a, b) < 0 && CompareUnits(b, c) <= 0 ==> CompareUnits(a, c) < 0
    ensures CompareUnits(a, b) <= 0 && CompareUnits(b, c) < 0 ==> CompareUnits(a, c) < 0
  {
    if a == [] {
    } else {
      CompareIsTotalOrder(a[1..], b[1..], c[1..]);
    }
  }

  /** A decided comparison stays as it is when both strings go on, however they do. */
  lemma {:induction false} CompareStable(a: seq<Unit>, b: seq<Unit>, a': seq<Unit>, b': seq<Unit>)
    requires |a| == |b| && |a'| == |b'|
    ensures CompareUnits(a + a', b + b') ==
            if CompareUnits(a, b) != 0 then CompareUnits(a, b) else CompareUnits(a', b')
  {
    if a == [] {
      assert a + a' == a' && b + b' == b';
    } else {
      CompareStable(a[1..], b[1..], a', b');
      assert (a + a')[1..] == a[1..] + a' && (b + b')[1..] == b[1..] + b';
    }
  }

  // ----- length and find

  /** Index of the first occurrence of `c`. */
  function FirstIndex(u: seq<Unit>, c: Unit): (r: Option<nat>)
    ensures r == None <==> c !in u
    ensures r.Some? ==> r.value < |u| && u[r.value] == c && forall j :: 0 <= j < r.value ==> u[j] != c
  {
    if u == [] then None
    else if Eq(u[0], c) then Some(0)
    else
      match FirstIndex(u[1..], c)
      case None => None
      case Some(i) => Some(i + 1)
  }

  lemma FirstIndexUnique(u: seq<Unit>, c: Unit, i: nat)
    requires i < |u| && u[i] == c && forall j :: 0 <= j < i ==> u[j] != c
    ensures FirstIndex(u, c) == Some(i)
  {
    assert c in u;
    assert u[FirstIndex(u, c).value] == c;
  }

  /** A search that finds its unit finds it among any more or fewer units that include it. */
  lemma FoundAtAnyLength(u: seq<Unit>, c: Unit, i: nat, n: nat)
    requires FirstIndex(u, c) == Some(i) && i < n <= |u|
    ensures FirstIndex(u[..n], c) == Some(i)
  {
    FirstIndexUnique(u[..n], c, i);
  }

  /** So the length is what `find` reports for 0, in whatever number of units one looks for it. */
  lemma LengthIsFirstZero(m: seq<Byte>, s: nat, r: nat)
    requires s <= |m| && Some(r) == FirstIndex(Units(m, s, Readable(m, s, |m|)), 0)
    ensures forall n :: n > r ==> FirstIndex(Units(m, s, Readable(m, s, n)), 0) == Some(r)
  {
    var u := Units(m, s, Readable(m, s, |m|));
    forall n | n > r
      ensures FirstIndex(Units(m, s, Readable(m, s, n)), 0) == Some(r)
    {
      var k := Readable(m, s, n);
      assert Units(m, s, k) == u[..k];
      FoundAtAnyLength(u, 0, r, k);
    }
  }

  /** Reads no unit beyond the first zero, so only the units up to it must be in memory. */
  method Length(mem: array<Byte>, s: nat) returns (r: nat)
    requires s <= mem.Length
    requires 0 in Units(mem[..], s, Readable(mem[..], s, mem.Length))
    ensures Some(r) == FirstIndex(Units(mem[..], s, Readable(mem[..], s, mem.Length)), 0)
    ensures forall n :: n > r ==> FirstIndex(Units(mem[..], s, Readable(mem[..], s, n)), 0) == Some(r)
  {
    ghost var u := Units(mem[..], s, Readable(mem[..], s, mem.Length));
    ghost var end := FirstIndex(u, 0).value;
    var i, p := 0, s;
    var c := Load(mem, p);
    p := p + UNIT_SIZE;
    while !Eq(c, 0)
      invariant 0 <= i <= end && p == s + (i + 1) * UNIT_SIZE
      invariant c == u[i]
      decreases end - i
    {
      assert i < end;
      i := i + 1;
      c := Load(mem, p);
      p := p + UNIT_SIZE;
    }
    LengthIsFirstZero(mem[..], s, i);
    return i;
  }

  /** The address of the first hit among the `n` units, or no address. Reads no unit beyond
      the hit, so only the units up to it must be in memory. */
  method Find(mem: array<Byte>, s: nat, n: nat, c: Unit) returns (r: Option<nat>)
    requires s <= mem.Length
    requires var k := Readable(mem[..], s, n); k == n || c in Units(mem[..], s, k)
    ensures match FirstIndex(Units(mem[..], s, Readable(mem[..], s, n)), c)
            case None => r == None
            case Some(i) => r == Some(s + i * UNIT_SIZE)
  {
    ghost var k := Readable(mem[..], s, n);
    ghost var u := Units(mem[..], s, k);
    var p, left := s, n;
    while left > 0
      invariant 0 <= left <= n && n - left <= k
      invariant p == s + (n - left) * UNIT_SIZE
      invariant forall j :: 0 <= j < n - left ==> u[j] != c
    {
      ghost var i := n - left;
      assert i < k;
      var d := Load(mem, p);
      if Eq(d, c) {
        assert u[i] == c;
        FirstIndexUnique(u, c, i);
        return Some(p);
      }
      p, left := p + UNIT_SIZE, left - 1;
    }
    return None;
  }

  // ----- assign, move and copy

  /** `after` differs from `before` at most in the `len` bytes from `p` on. */
  ghost predicate OnlyChanged(before: seq<Byte>, after: seq<Byte>, p: nat, len: nat) {
    |after| == |before| && forall i :: 0 <= i < |before| && !(p <= i < p + len) ==> after[i] == before[i]
  }

  /** Assigns one char; the referenced right-hand side is passed as its value. */
  method AssignChar(mem: array<Byte>, p: nat, c: Unit)
    requires p + UNIT_SIZE <= mem.Length
    modifies mem
    ensures UnitAt(mem[..], p) == c
    ensures OnlyChanged(old(mem[..]), mem[..], p, UNIT_SIZE)
  {
    mem[p], mem[p + 1] := c % 0x100, c / 0x100;
  }

  /** The filling assign: all `n` units become `c`, and nothing else changes. */
  method Assign(mem: array<Byte>, s: nat, n: nat, c: Unit) returns (r: nat)
    requires s + n * UNIT_SIZE <= mem.Length
    modifies mem
    ensures r == s
    ensures Units(mem[..], s, n) == seq(n, _ => c)
    ensures OnlyChanged(old(mem[..]), mem[..], s, n * UNIT_SIZE)
  {
    var i := 0;
    while i < n
      invariant 0 <= i <= n
      invariant forall j :: 0 <= j < i ==> Units(mem[..], s, n)[j] == c
      invariant OnlyChanged(old(mem[..]), mem[..], s, i * UNIT_SIZE)
    {
      ghost var before := mem[..];
      AssignChar(mem, s + i * UNIT_SIZE, c);
      forall j | 0 <= j <= i
        ensures Units(mem[..], s, n)[j] == c
      {
        if j < i {
          assert Units(before, s, n)[j] == c;
          assert UnitAt(mem[..], s + j * UNIT_SIZE) == UnitAt(before, s + j * UNIT_SIZE);
        }
      }
      i := i + 1;
    }
    return s;
  }

  /** The simultaneous assignment of `len` bytes from `src` on to those from `dst` on. */
  function Moved(m: seq<Byte>, dst: nat, src: nat, len: nat): (m': seq<Byte>)
    requires dst + len <= |m| && src + len <= |m|
    ensures |m'| == |m|
  {
    m[..dst] + m[src..src + len] + m[dst + len..]
  }

  /** First byte first: no byte is overwritten before it is read. */
  method CopyForward(mem: array<Byte>, dst: nat, src: nat, len: nat)
    requires dst + len <= mem.Length && src + len <= mem.Length
    requires dst <= src || src + len <= dst
    modifies mem
    ensures mem[..] == Moved(old(mem[..]), dst, src, len)
  {
    for i := 0 to len
      invariant forall k :: 0 <= k < mem.Length && !(dst <= k < dst + i) ==> mem[k] == old(mem[k])
      invariant mem[dst..dst + i] == old(mem[src..src + i])
    {
      assert mem[src + i] == old(mem[src + i]);
      mem[dst + i] := mem[src + i];
    }
  }

  /** Last byte first. */
  method CopyBackward(mem: array<Byte>, dst: nat, src: nat, len: nat)
    requires src <= dst && dst + len <= mem.Length
    modifies mem
    ensures mem[..] == Moved(old(mem[..]), dst, src, len)
  {
    for i := len downto 0
      invariant forall k :: 0 <= k < mem.Length && !(dst + i <= k < dst + len) ==> mem[k] == old(mem[k])
      invariant mem[dst + i..dst + len] == old(mem[src + i..src + len])
    {
      assert mem[src + i] == old(mem[src + i]);
      mem[dst + i] := mem[src + i];
    }
  }

  /** C's `memmove`: the direction is chosen so that overlapping ranges do no harm. */
  method MemMove(mem: array<Byte>, dst: nat, src: nat, len: nat)
    requires dst + len <= mem.Length && src + len <= mem.Length
    modifies mem
    ensures mem[..] == Moved(old(mem[..]), dst, src, len)
  {
    if dst <= src {
      CopyForward(mem, dst, src, len);
    } else {
      CopyBackward(mem, dst, src, len);
    }
  }

  /** C's `memcpy`, which demands disjoint ranges. */
  method MemCpy(mem: array<Byte>, dst: nat, src: nat, len: nat)
    requires dst + len <= mem.Length && src + len <= mem.Length
    requires dst + len <= src || src + len <= dst
    modifies mem
    ensures mem[..] == Moved(old(mem[..]), dst, src, len)
  {
    CopyForward(mem, dst, src, len);
  }

  /** Moving n * sizeof(char_type) bytes moves n units, whatever the overlap and alignment: the
      destination gets the units the source had, no other byte changes, and comparing the result
      with the old source finds no difference. */
  lemma MovedUnits(m: seq<Byte>, dst: nat, src: nat, n: nat)
    requires dst + n * UNIT_SIZE <= |m| && src + n * UNIT_SIZE <= |m|
    ensures var m' := Moved(m, dst, src, n * UNIT_SIZE);
            && Units(m', dst, n) == Units(m, src, n)
            && OnlyChanged(m, m', dst, n * UNIT_SIZE)
            && CompareUnits(Units(m', dst, n), Units(m, src, n)) == 0
  {
    var m' := Moved(m, dst, src, n * UNIT_SIZE);
    forall i | 0 <= i < n
      ensures UnitAt(m', dst + i * UNIT_SIZE) == UnitAt(m, src + i * UNIT_SIZE)
    {
    }
    CompareZeroIff(Units(m', dst, n), Units(m, src, n));
  }

  /** Seen as an array of `total` units from `base` on, memory undergoes the simultaneous
      assignment of `n` units from index `j` to index `i`, for every overlap. */
  lemma MoveIsUnitAssignment(m: seq<Byte>, base: nat, total: nat, i: nat, j: nat, n: nat)
    requires base + total * UNIT_SIZE <= |m| && i + n <= total && j + n <= total
    ensures var u := Units(m, base, total);
            Units(Moved(m, base + i * UNIT_SIZE, base + j * UNIT_SIZE, n * UNIT_SIZE), base, total) ==
            u[..i] + u[j..j + n] + u[i + n..]
  {
    var m' := Moved(m, base + i * UNIT_SIZE, base + j * UNIT_SIZE, n * UNIT_SIZE);
    var u, u' := Units(m, base, total), Units(m', base, total);
    forall k | 0 <= k < total
      ensures u'[k] == UnitAt(m, base + (if i <= k < i + n then k - i + j else k) * UNIT_SIZE)
    {
      MovedIndex(m, base, i, j, n, k);
    }
    SliceMoved(u, u', i, j, n);
  }

  lemma SliceMoved(u: seq<Unit>, u': seq<Unit>, i: nat, j: nat, n: nat)
    requires |u'| == |u| && i + n <= |u| && j + n <= |u|
    requires forall k :: i <= k < i + n ==> u'[k] == u[k - i + j]
    requires forall k :: 0 <= k < |u| && !(i <= k < i + n) ==> u'[k] == u[k]
    ensures u' == u[..i] + u[j..j + n] + u[i + n..]
  {
  }

  lemma MovedIndex(m: seq<Byte>, base: nat, i: nat, j: nat, n: nat, k: nat)
    requires base + (i + n) * UNIT_SIZE <= |m| && base + (j + n) * UNIT_SIZE <= |m| && base + (k + 1) * UNIT_SIZE <= |m|
    ensures UnitAt(Moved(m, base + i * UNIT_SIZE, base + j * UNIT_SIZE, n * UNIT_SIZE), base + k * UNIT_SIZE) ==
            UnitAt(m, base + (if i <= k < i + n then k - i + j else k) * UNIT_SIZE)
  {
    MovedUnit(m, base + i * UNIT_SIZE, base + j * UNIT_SIZE, n, base + k * UNIT_SIZE);
  }

  /** One unit after a move, at an address in step with the destination. */
  lemma MovedUnit(m: seq<Byte>, dst: nat, src: nat, n: nat, p: nat)
    requires dst + n * UNIT_SIZE <= |m| && src + n * UNIT_SIZE <= |m| && p + UNIT_SIZE <= |m|
    requires (p - dst) % UNIT_SIZE == 0
    ensures UnitAt(Moved(m, dst, src, n * UNIT_SIZE), p) ==
            if dst <= p < dst + n * UNIT_SIZE then UnitAt(m, p - dst + src) else UnitAt(m, p)
  {
    MovedByte(m, dst, src, n * UNIT_SIZE, p);
    MovedByte(m, dst, src, n * UNIT_SIZE, p + 1);
  }

  lemma MovedByte(m: seq<Byte>, dst: nat, src: nat, len: nat, p: nat)
    requires dst + len <= |m| && src + len <= |m| && p < |m|
    ensures Moved(m, dst, src, len)[p] == if dst <= p < dst + len then m[p - dst + src] else m[p]
  {
  }

  method Move(mem: array<Byte>, s1: nat, s2: nat, n: nat) returns (r: nat)
    requires s1 + n * UNIT_SIZE <= mem.Length && s2 + n * UNIT_SIZE <= mem.Length
    modifies mem
    ensures r == s1
    ensures mem[..] == Moved(old(mem[..]), s1, s2, n * UNIT_SIZE)
    ensures Units(mem[..], s1, n) == old(Units(mem[..], s2, n))
    ensures OnlyChanged(old(mem[..]), mem[..], s1, n * UNIT_SIZE)
  {
    MovedUnits(mem[..], s1, s2, n);
    MemMove(mem, s1, s2, n * UNIT_SIZE);
    return s1;
  }

  /** On disjoint ranges the same assignment as `Move`; the source stays, so that comparing the
      two ranges afterwards finds no difference. */
  method Copy(mem: array<Byte>, s1: nat, s2: nat, n: nat) returns (r: nat)
    requires s1 + n * UNIT_SIZE <= mem.Length && s2 + n * UNIT_SIZE <= mem.Length
    requires s1 + n * UNIT_SIZE <= s2 || s2 + n * UNIT_SIZE <= s1
    modifies mem
    ensures r == s1
    ensures mem[..] == Moved(old(mem[..]), s1, s2, n * UNIT_SIZE)
    ensures CompareUnits(Units(mem[..], s1, n), Units(mem[..], s2, n)) == 0
    ensures OnlyChanged(old(mem[..]), mem[..], s1, n * UNIT_SIZE)
  {
    ghost var before := mem[..];
    MovedUnits(before, s1, s2, n);
    MemCpy(mem, s1, s2, n * UNIT_SIZE);
    UnitsUnchanged(before, mem[..], s1, n * UNIT_SIZE, s2, n);
    assert Units(mem[..], s1, n) == Units(mem[..], s2, n);
    CompareZeroIff(Units(mem[..], s1, n), Units(mem[..], s2, n));
    return s1;
  }

  /** Units that a write does not touch keep their values. */
  lemma UnitsUnchanged(before: seq<Byte>, after: seq<Byte>, p: nat, len: nat, s: nat, n: nat)
    requires OnlyChanged(before, after, p, len) && s + n * UNIT_SIZE <= |before|
    requires s + n * UNIT_SIZE <= p || p + len <= s
    ensures Units(after, s, n) == Units(before, s, n)
  {
    forall i | 0 <= i < n
      ensures UnitAt(after, s + i * UNIT_SIZE) == UnitAt(before, s + i * UNIT_SIZE)
    {
      var k := s + i * UNIT_SIZE;
      assert after[k] == before[k] && after[k + 1] == before[k + 1];
    }
  }
}
