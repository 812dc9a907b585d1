/** The words of the FRL header in front of each block. */
module FrlHeader {
  import opened Bits
  import opened SerialNumbers
  import opened Wrappers

  const FRL_EVTNO_MASK: nat := 0x0FFF_FFFF
  const FRL_EVTNO_LINKENABLED: nat := 0x8000_0000
  const FRL_SEGSIZE_LAST_SEGM: nat := 0x8000_0000
  const FRL_SEGSIZE_BAD_CRC_SLINK: nat := 0x4000_0000
  const FRL_SEGSIZE_FLUSH: nat := 0x2000_0000
  const FRL_SEGSIZE_BAD_CRC_FED: nat := 0x1000_0000
  const FRL_SEGSIZE_SIZE_MASK: nat := 0x0FFF_FFFF

  /** `frlh_t` without its status word. */
  datatype Header = Header(source: uint32, evtno: uint32, segno: uint32, evtno1: uint32, segsize: uint32)

  datatype Block = Block(header: Header, payload: seq<Byte>)

  /** A block with its header fields read. */
  datatype Segment = Segment(
    evtno: Option<uint32>, segno: uint32, size: nat, payload: seq<Byte>,
    last: bool, badSlink: bool, badFed: bool, flush: bool)

  predicate HasFlag(word: uint32, flag: nat) { BitAnd(word, flag) != 0 }

  /** The event number of a block without its special bits: that of the enabled link, and of
      either one if both are enabled and agree. Output headers have it in `evtno`, unmarked. */
  function GlobalEvtno(h: Header): Option<uint32> {
    var n0, n1 := BitAnd(h.evtno, FRL_EVTNO_MASK), BitAnd(h.evtno1, FRL_EVTNO_MASK);
    var on0, on1 := HasFlag(h.evtno, FRL_EVTNO_LINKENABLED), HasFlag(h.evtno1, FRL_EVTNO_LINKENABLED);
    if on0 && on1 && n0 != n1 then None
    else if on1 then Some(n1)
    else Some(n0)
  }

  function Read(b: Block): Segment {
    var w := b.header.segsize;
    Segment(GlobalEvtno(b.header), b.header.segno, BitAnd(w, FRL_SEGSIZE_SIZE_MASK), b.payload,
            HasFlag(w, FRL_SEGSIZE_LAST_SEGM), HasFlag(w, FRL_SEGSIZE_BAD_CRC_SLINK),
            HasFlag(w, FRL_SEGSIZE_BAD_CRC_FED), HasFlag(w, FRL_SEGSIZE_FLUSH))
  }

  function Flag(on: bool, flag: nat): nat { if on then flag else 0 }

  /** The segsize word with its flags. */
  function SegsizeWord(last: bool, badSlink: bool, badFed: bool, size: nat): uint32
    requires size <= FRL_SEGSIZE_SIZE_MASK
  {
    BitOr(Flag(last, FRL_SEGSIZE_LAST_SEGM),
      BitOr(Flag(badSlink, FRL_SEGSIZE_BAD_CRC_SLINK),
        BitOr(Flag(badFed, FRL_SEGSIZE_BAD_CRC_FED), size)))
  }

  /** The block for a segment on output: source, link bits and second event number cleared. */
  function Write(s: Segment): Block
    requires s.evtno.Some? && s.size <= FRL_SEGSIZE_SIZE_MASK
  {
    Block(Header(0, s.evtno.value, s.segno, 0, SegsizeWord(s.last, s.badSlink, s.badFed, s.size)), s.payload)
  }

  lemma SegsizeWordIsSum(last: bool, badSlink: bool, badFed: bool, size: nat)
    requires size <= FRL_SEGSIZE_SIZE_MASK
    ensures SegsizeWord(last, badSlink, badFed, size) ==
            Flag(last, 0x8000_0000) + Flag(badSlink, 0x4000_0000) + Flag(badFed, 0x1000_0000) + size
  {
    Pow2Values();
    OrFlag(28, size);
    OrFlag(30, Flag(badFed, 0x1000_0000) + size);
    OrFlag(31, Flag(badSlink, 0x4000_0000) + Flag(badFed, 0x1000_0000) + size);
  }

  lemma SizeIsMod(w: uint32)
    ensures BitAnd(w, FRL_SEGSIZE_SIZE_MASK) == w % 0x1000_0000
  {
    Pow2Values();
    MaskIsLow(w, 28);
    LowIsMod(w, 28);
  }

  /** The flag masks as binary digits. */
  lemma FlagDigits(w: uint32)
    ensures HasFlag(w, FRL_SEGSIZE_LAST_SEGM) <==> (w / 0x8000_0000) % 2 == 1
    ensures HasFlag(w, FRL_SEGSIZE_BAD_CRC_SLINK) <==> (w / 0x4000_0000) % 2 == 1
    ensures HasFlag(w, FRL_SEGSIZE_FLUSH) <==> (w / 0x2000_0000) % 2 == 1
    ensures HasFlag(w, FRL_SEGSIZE_BAD_CRC_FED) <==> (w / 0x1000_0000) % 2 == 1
  {
    Pow2Values();
    DigitOfFlag(w, 31, FRL_SEGSIZE_LAST_SEGM);
    DigitOfFlag(w, 30, FRL_SEGSIZE_BAD_CRC_SLINK);
    DigitOfFlag(w, 29, FRL_SEGSIZE_FLUSH);
    DigitOfFlag(w, 28, FRL_SEGSIZE_BAD_CRC_FED);
  }

  lemma DigitOfFlag(w: uint32, k: nat, flag: nat)
    requires flag == Pow2(k)
    ensures HasFlag(w, flag) <==> (w / flag) % 2 == 1
  {
    FlagIsDigit(w, k);
    ShiftIsDiv(w, k);
  }

  lemma WordDigits(last: bool, badSlink: bool, badFed: bool, size: nat, w: uint32)
    requires size < 0x1000_0000
    requires w == Flag(last, 0x8000_0000) + Flag(badSlink, 0x4000_0000) + Flag(badFed, 0x1000_0000) + size
    ensures (w / 0x8000_0000) % 2 == Flag(last, 1)
    ensures (w / 0x4000_0000) % 2 == Flag(badSlink, 1)
    ensures (w / 0x2000_0000) % 2 == 0
    ensures (w / 0x1000_0000) % 2 == Flag(badFed, 1)
    ensures w % 0x1000_0000 == size
  {
  }

  /** Every field of a segsize word is read back through its mask. */
  lemma SegsizeFields(last: bool, badSlink: bool, badFed: bool, size: nat)
    requires size <= FRL_SEGSIZE_SIZE_MASK
    ensures var w := SegsizeWord(last, badSlink, badFed, size);
            && (HasFlag(w, FRL_SEGSIZE_LAST_SEGM) <==> last)
            && (HasFlag(w, FRL_SEGSIZE_BAD_CRC_SLINK) <==> badSlink)
            && (HasFlag(w, FRL_SEGSIZE_BAD_CRC_FED) <==> badFed)
            && !HasFlag(w, FRL_SEGSIZE_FLUSH)
            && BitAnd(w, FRL_SEGSIZE_SIZE_MASK) == size
            && (w == 0 <==> !last && !badSlink && !badFed && size == 0)
  {
    var w := SegsizeWord(last, badSlink, badFed, size);
    SegsizeWordIsSum(last, badSlink, badFed, size);
    WordDigits(last, badSlink, badFed, size, w);
    FlagDigits(w);
    SizeIsMod(w);
  }

  /** The older header's mask, `FRL_SEGSIZE_MASK` of `frl_header.h`, has only 24 bits: a receiver
      that uses it reads the same size exactly for sizes of at most 24 bits. */
  const FRL_SEGSIZE_MASK: nat := 0x00FF_FFFF

  lemma OlderMaskAgreesIff(last: bool, badSlink: bool, badFed: bool, size: nat)
    requires size <= FRL_SEGSIZE_SIZE_MASK
    ensures var w := SegsizeWord(last, badSlink, badFed, size);
            BitAnd(w, FRL_SEGSIZE_MASK) == BitAnd(w, FRL_SEGSIZE_SIZE_MASK) <==> size <= FRL_SEGSIZE_MASK
  {
    var w := SegsizeWord(last, badSlink, badFed, size);
    SegsizeFields(last, badSlink, badFed, size);
    MasksAgreeIff(w);
  }

  lemma MasksAgreeIff(w: uint32)
    ensures BitAnd(w, FRL_SEGSIZE_MASK) == BitAnd(w, FRL_SEGSIZE_SIZE_MASK) <==>
            BitAnd(w, FRL_SEGSIZE_SIZE_MASK) <= FRL_SEGSIZE_MASK
  {
    OlderOfSize(w);
  }

  lemma OlderOfSize(w: uint32)
    ensures BitAnd(w, FRL_SEGSIZE_MASK) == BitAnd(w, FRL_SEGSIZE_SIZE_MASK) % 0x100_0000
  {
    SizeIsMod(w);
    OlderSizeIsMod(w);
    ModOfMod(w, 0x1000_0000, 0x100_0000);
  }

  lemma OlderSizeIsMod(w: uint32)
    ensures BitAnd(w, FRL_SEGSIZE_MASK) == w % 0x100_0000
  {
    Pow2Values();
    MaskIsLow(w, 24);
    LowIsMod(w, 24);
  }

  /** The link bit of an event-number word is its top digit. */
  lemma LinkBit(w: uint32)
    ensures HasFlag(w, FRL_EVTNO_LINKENABLED) <==> w / 0x8000_0000 == 1
  {
    Pow2Values();
    DigitOfFlag(w, 31, FRL_EVTNO_LINKENABLED);
  }

  /** What is read from the event-number words of any header: no number exactly if both links are
      enabled and disagree; otherwise that of link 1 where it is enabled, else that of link 0,
      whose word is also where output headers have it. */
  lemma EvtnoOfHeader(b: Block)
    ensures var on0, n0 := b.header.evtno / 0x8000_0000 == 1, b.header.evtno % 0x1000_0000;
            var on1, n1 := b.header.evtno1 / 0x8000_0000 == 1, b.header.evtno1 % 0x1000_0000;
            && (Read(b).evtno == None <==> on0 && on1 && n0 != n1)
            && (Read(b).evtno.Some? && on0 ==> Read(b).evtno.value == n0)
            && (Read(b).evtno.Some? && on1 ==> Read(b).evtno.value == n1)
            && (!on0 && !on1 ==> Read(b).evtno == Some(n0))
  {
    SizeIsMod(b.header.evtno);
    SizeIsMod(b.header.evtno1);
    LinkBit(b.header.evtno);
    LinkBit(b.header.evtno1);
  }

  /** What is read from the other words of any header. */
  lemma FieldsOfHeader(b: Block)
    ensures var w, s := b.header.segsize, Read(b);
            && s.segno == b.header.segno && s.payload == b.payload && s.size == w % 0x1000_0000
            && (s.last <==> (w / 0x8000_0000) % 2 == 1)
            && (s.badSlink <==> (w / 0x4000_0000) % 2 == 1)
            && (s.flush <==> (w / 0x2000_0000) % 2 == 1)
            && (s.badFed <==> (w / 0x1000_0000) % 2 == 1)
  {
    SizeIsMod(b.header.segsize);
    FlagDigits(b.header.segsize);
  }

  /** Reading back an output block gives the segment, whatever 28-bit number the event has. */
  lemma ReadWrite(s: Segment)
    requires s.evtno.Some? && s.evtno.value <= FRL_EVTNO_MASK && s.size <= FRL_SEGSIZE_SIZE_MASK && !s.flush
    ensures Read(Write(s)) == s
  {
    SegsizeFields(s.last, s.badSlink, s.badFed, s.size);
    EvtnoUnmarked(s.evtno.value);
    EvtnoUnmarked(0);
  }

  lemma EvtnoUnmarked(n: uint32)
    requires n <= FRL_EVTNO_MASK
    ensures BitAnd(n, FRL_EVTNO_MASK) == n && !HasFlag(n, FRL_EVTNO_LINKENABLED)
  {
    SizeIsMod(n);
    FlagDigits(n);
  }

  /** A number read from any header fits the mask. */
  lemma GlobalEvtnoFits(h: Header)
    ensures GlobalEvtno(h).Some? ==> GlobalEvtno(h).value <= FRL_EVTNO_MASK
  {
  }
}
