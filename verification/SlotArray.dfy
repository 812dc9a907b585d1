/** Arrays indexed by a wrapping sequence number: the header demands that the window be
    compatible with the map array of the flows and the number of receive buffers. */
module SlotArray {
  import opened Bits
  import opened SerialNumbers

  /** Any two of `window` consecutive counters use different entries of an array of `entries`
      slots that is indexed by the wrapped counter. */
  ghost predicate Compatible(entries: nat, window: nat)
    requires entries > 0
  {
    forall a: nat, b: nat :: a < b < a + window ==> Wrap(a) % entries != Wrap(b) % entries
  }

  /** The largest window that an array of `entries` slots can serve. */
  function LargestWindow(entries: nat): nat
    requires entries > 0
  {
    if MODULUS % entries == 0 then entries else MODULUS % entries
  }

  /** The exact compatibility condition. For a size that divides 2^32 the array may be as
      small as the window; any other size breaks at the wrap, where only the remainder of
      2^32 is left between two uses of a slot. */
  lemma CompatibleIff(entries: nat, window: nat)
    requires entries > 0
    ensures Compatible(entries, window) <==> window <= LargestWindow(entries)
  {
    if window <= LargestWindow(entries) {
      forall a: nat, b: nat | a < b < a + window
        ensures Wrap(a) % entries != Wrap(b) % entries
      {
        CloseCountersUseOwnSlots(entries, a, b);
      }
    } else {
      var a, b := Clash(entries);
    }
  }

  /** Two counters as far apart as the largest window that use the same slot. */
  lemma Clash(entries: nat) returns (a: nat, b: nat)
    requires entries > 0
    ensures b == a + LargestWindow(entries) && a < b && Wrap(a) % entries == Wrap(b) % entries
  {
    var d := LargestWindow(entries);
    a, b := MODULUS - d, MODULUS;
    if d == entries {
      DivModUnique(a, entries, MODULUS / entries - 1, 0);
    } else {
      DivModUnique(a, entries, MODULUS / entries, 0);
    }
    DivModUnique(0, entries, 0, 0);
  }

  lemma CloseCountersUseOwnSlots(entries: nat, a: nat, b: nat)
    requires entries > 0 && a < b < a + LargestWindow(entries)
    ensures Wrap(a) % entries != Wrap(b) % entries
  {
    var x, y := Wrap(a), Wrap(b);
    var laps := b / MODULUS - a / MODULUS;
    assert LargestWindow(entries) <= entries by {
      assert MODULUS % entries < entries;
    }
    if MODULUS % entries == 0 {
      ModOfMod(a, MODULUS, entries);
      ModOfMod(b, MODULUS, entries);
      if a % entries == b % entries { SameRemainder(a, b, entries); }
    } else {
      assert LargestWindow(entries) <= MODULUS;
      assert b - a == y - x + laps * MODULUS;
      assert laps == 0 || laps == 1;
      if x % entries == y % entries {
        if laps == 0 {
          SameRemainder(x, y, entries);
        } else {
          // b - a is the remainder of 2^32 up to whole laps of the array, and too small for that
          var q := MODULUS / entries + y / entries - x / entries;
          assert b - a == MODULUS % entries + q * entries;
          if q < 0 { MulGap(q, 0, entries); }
          if q > 0 { MulGap(0, q, entries); }
          assert false;
        }
      }
    }
  }
}
