/** Event numbers, which wrap at 24 bits: their order by the sequence-number macros after
    the shift to the top of the word, and the choice of a destination from them. */
module EventNumbers {
  import opened Bits
  import opened SerialNumbers

  const EVTNO_MASK: nat := 0xFF_FFFF
  const FRL_EVTNO_SHIFT: nat := 32 - 24
  const EVTNO_DEST_MASK: nat := 0x3FF
  const NMB_DEST_TABLE_ENTRIES: nat := 1024
  const EVTNO_MODULUS: int := 0x100_0000

  /** The event number carried for the event of unbounded count `e`. */
  function EventNumber(e: nat): uint32 { BitAnd(e, EVTNO_MASK) }

  /** `evtno << MYRFB_FRL_EVTNO_SHIFT` in 32 bits. */
  function ShiftUp(evtno: uint32): uint32 { Wrap(evtno * Pow2(FRL_EVTNO_SHIFT)) }

  lemma EventNumberIsMod(e: nat)
    ensures EventNumber(e) == e % EVTNO_MODULUS
  {
    Pow2Values();
    MaskIsLow(e, 24);
    LowIsMod(e, 24);
  }

  /** The shift drops exactly the turns that the 24-bit number dropped. */
  lemma ShiftedEventNumber(e: nat)
    ensures ShiftUp(EventNumber(e)) == Wrap(e * 256)
  {
    EventNumberIsMod(e);
    Pow2Values();
    var turns := e / EVTNO_MODULUS;
    assert e * 256 == EventNumber(e) * 256 + turns * MODULUS;
    WrapTurns(EventNumber(e) * 256, turns);
  }

  /** For events less than one turn of the 24-bit number apart, comparing the shifted
      numbers gives the order of the events exactly when they are at most 2^23 apart
      (2^23 itself only when the first one is the earlier). */
  lemma ShiftedOrderRefinesCounters(a: nat, b: nat)
    requires -EVTNO_MODULUS < a - b < EVTNO_MODULUS
    ensures var x, y := ShiftUp(EventNumber(a)), ShiftUp(EventNumber(b));
            var sound := -0x80_0000 <= a - b < 0x80_0000;
            && ((SeqLt(x, y) <==> a < b) <==> sound)
            && ((SeqLe(x, y) <==> a <= b) <==> sound)
            && ((SeqGt(x, y) <==> a > b) <==> sound)
            && ((SeqGe(x, y) <==> a >= b) <==> sound)
  {
    ShiftedEventNumber(a);
    ShiftedEventNumber(b);
    MacrosRefineCounters(a * 256, b * 256);
  }

  // ----- Destination assignment

  /** Index into the destination table: event number masked to 10 bits. */
  function DestIndex(evtno: uint32): nat { BitAnd(evtno, EVTNO_DEST_MASK) }

  /** `myrfb_dest_table_t`: one output unit number per entry. */
  type DestTable = t: seq<int> | |t| == NMB_DEST_TABLE_ENTRIES
    witness seq(NMB_DEST_TABLE_ENTRIES, _ => 0)

  /** The output unit which event `e` of a run goes to. */
  function Destination(table: DestTable, e: nat): int {
    DestIndexInTable(e);
    table[DestIndex(EventNumber(e))]
  }

  lemma DestIndexInTable(e: nat)
    ensures DestIndex(EventNumber(e)) == e % NMB_DEST_TABLE_ENTRIES
  {
    EventNumberIsMod(e);
    Pow2Values();
    MaskIsLow(EventNumber(e), 10);
    LowIsMod(EventNumber(e), 10);
    ModOfMod(e, EVTNO_MODULUS, NMB_DEST_TABLE_ENTRIES);
  }

  /** The assignment is the one of the unwrapped counter modulo 1024, so it has period 1024
      over a whole unbounded run, with no break where the event number wraps. */
  lemma DestinationOfRun(table: DestTable, e: nat, laps: nat)
    ensures Destination(table, e) == table[e % NMB_DEST_TABLE_ENTRIES]
    ensures Destination(table, e + laps * NMB_DEST_TABLE_ENTRIES) == Destination(table, e)
  {
    DestIndexInTable(e);
    DestIndexInTable(e + laps * NMB_DEST_TABLE_ENTRIES);
    ModAddTurns(e, NMB_DEST_TABLE_ENTRIES, laps);
  }

  /** Of any 1024 consecutive events, each table entry decides exactly one. */
  lemma EveryEntryDecidesOneEvent(first: nat, entry: nat) returns (e: nat)
    requires entry < NMB_DEST_TABLE_ENTRIES
    ensures first <= e < first + NMB_DEST_TABLE_ENTRIES && DestIndex(EventNumber(e)) == entry
    ensures forall f :: first <= f < first + NMB_DEST_TABLE_ENTRIES && DestIndex(EventNumber(f)) == entry ==> f == e
  {
    e := OncePerLap(first, NMB_DEST_TABLE_ENTRIES, entry);
    forall f: nat
      ensures DestIndex(EventNumber(f)) == f % NMB_DEST_TABLE_ENTRIES
    {
      DestIndexInTable(f);
    }
  }

  /** Reducing the 24-bit number modulo a table size agrees with the unwrapped counter for
      every event exactly when the size divides 2^24; so a table that is no power of two
      would change its assignment at the wrap. */
  lemma UnbrokenIffSizeDivides(entries: nat)
    requires entries > 0
    ensures (forall e: nat :: EventNumber(e) % entries == e % entries) <==> EVTNO_MODULUS % entries == 0
  {
    EventNumberIsMod(EVTNO_MODULUS);
    if EVTNO_MODULUS % entries == 0 {
      forall e: nat
        ensures EventNumber(e) % entries == e % entries
      {
        EventNumberIsMod(e);
        ModOfMod(e, EVTNO_MODULUS, entries);
      }
    } else {
      DivModUnique(0, entries, 0, 0);
      assert EventNumber(EVTNO_MODULUS) % entries == 0;
    }
  }
}
