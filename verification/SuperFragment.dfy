/** Super-fragments: the payloads of several FEDs under one event number, sent as one segmented
    event and taken apart again from the S-LINK trailers, last one first. A reference
    implementation written from the documentation of the receiver's consistency check. */
module SuperFragment {
  import opened Bits
  import opened SerialNumbers
  import opened Wrappers
  import opened FrlHeader
  import opened FrlStream
  import opened FrlReblock

  // ----- S-LINK words

  /** 64 bits: `fedh_t` (sourceid, eventid), `fedt_t` (conscheck, eventsize), or data. */
  datatype Word = Word(first: uint32, second: uint32)

  const FED_SLINK_START_MARKER: nat := 0x5
  const FED_SLINK_END_MARKER: nat := 0xA
  const FED_HCTRLID_SHIFT: nat := 28
  const FED_HCTRLID_WIDTH: nat := 0xF
  const FED_TCTRLID_SHIFT: nat := 28
  const FED_TCTRLID_WIDTH: nat := 0xF
  const FED_EVSZ_WIDTH: nat := 0xFF_FFFF

  predicate IsHeader(w: Word) {
    BitAnd(ShiftRight(w.second, FED_HCTRLID_SHIFT), FED_HCTRLID_WIDTH) == FED_SLINK_START_MARKER
  }

  predicate IsTrailer(w: Word) {
    BitAnd(ShiftRight(w.second, FED_TCTRLID_SHIFT), FED_TCTRLID_WIDTH) == FED_SLINK_END_MARKER
  }

  /** Length of the fragment in words, header and trailer included. */
  function TrailerLength(w: Word): nat { BitAnd(w.second, FED_EVSZ_WIDTH) }

  /** A FED's fragment: a header, data, and a trailer with the length of it all. */
  predicate IsFragment(f: seq<Word>) {
    f != [] && IsHeader(f[0]) && IsTrailer(f[|f| - 1]) && TrailerLength(f[|f| - 1]) == |f|
  }

  datatype Fault = NoTrailer | NoHeader | LengthMismatch

  /** Takes the words apart from the end: trailer, its length, header, and so on until the start. */
  function SplitBack(ws: seq<Word>): Result<seq<seq<Word>>, Fault> {
    if ws == [] then Ok([])
    else
      var trailer := ws[|ws| - 1];
      var n := TrailerLength(trailer);
      if !IsTrailer(trailer) then Err(NoTrailer)
      else if !(0 < n <= |ws|) then Err(LengthMismatch)
      else if !IsHeader(ws[|ws| - n]) then Err(NoHeader)
      else
        match SplitBack(ws[..|ws| - n])
        case Err(fault) => Err(fault)
        case Ok(fs) => Ok(fs + [ws[|ws| - n..]])
  }

  lemma TopFour(x: uint32)
    ensures BitAnd(ShiftRight(x, 28), 0xF) == x / 0x1000_0000
  {
    assert ShiftRight(x, 28) == x / 0x1000_0000 by {
      Pow2Values();
      ShiftIsDiv(x, 28);
    }
    LowFour(x / 0x1000_0000);
  }

  lemma LowFour(x: nat)
    ensures BitAnd(x, 0xF) == x % 0x10
  {
    assert Pow2(4) == 0x10;
    MaskIsLow(x, 4);
    LowIsMod(x, 4);
  }

  lemma LowThreeBytes(x: uint32)
    ensures BitAnd(x, 0xFF_FFFF) == x % 0x100_0000
  {
    Pow2Values();
    MaskIsLow(x, 24);
    LowIsMod(x, 24);
  }

  /** Marker and length of any word, as parts of its second 32 bits. */
  lemma MarkersOfWord(w: Word)
    ensures IsHeader(w) <==> w.second / 0x1000_0000 == 5
    ensures IsTrailer(w) <==> w.second / 0x1000_0000 == 10
    ensures TrailerLength(w) == w.second % 0x100_0000
  {
    TopFour(w.second);
    LowThreeBytes(w.second);
  }

  predicate AllFragments(fs: seq<seq<Word>>) { forall i :: 0 <= i < |fs| ==> IsFragment(fs[i]) }

  lemma {:induction false} SplitBackSound(ws: seq<Word>)
    ensures SplitBack(ws).Ok? ==> AllFragments(SplitBack(ws).value) && Flatten(SplitBack(ws).value) == ws
    decreases |ws|
  {
    if ws == [] || SplitBack(ws).Err? {
    } else {
      var rest, f := LastFragment(ws);
      SplitBackSound(rest);
      AppendFragment(SplitBack(rest).value, f);
    }
  }

  /** The words end in a fragment, as far as trailer, length and header show. */
  predicate EndsInFragment(ws: seq<Word>) {
    && ws != [] && IsTrailer(ws[|ws| - 1])
    && 0 < TrailerLength(ws[|ws| - 1]) <= |ws| && IsHeader(ws[|ws| - TrailerLength(ws[|ws| - 1])])
  }

  /** Then the walk goes on before this fragment. */
  lemma LastFragment(ws: seq<Word>) returns (rest: seq<Word>, f: seq<Word>)
    requires EndsInFragment(ws)
    ensures ws == rest + f && |rest| < |ws| && IsFragment(f)
    ensures match SplitBack(rest)
            case Err(fault) => SplitBack(ws) == Err(fault)
            case Ok(fs) => SplitBack(ws) == Ok(fs + [f])
  {
    var n := TrailerLength(ws[|ws| - 1]);
    rest, f := ws[..|ws| - n], ws[|ws| - n..];
  }

  lemma AppendFragment(fs: seq<seq<Word>>, f: seq<Word>)
    requires AllFragments(fs) && IsFragment(f)
    ensures AllFragments(fs + [f]) && Flatten(fs + [f]) == Flatten(fs) + f
  {
    assert (fs + [f])[..|fs|] == fs;
  }

  /** One more fragment at the end is split off first. */
  lemma SplitBackAppend(ws: seq<Word>, fs: seq<seq<Word>>, f: seq<Word>)
    requires SplitBack(ws) == Ok(fs) && IsFragment(f)
    ensures SplitBack(ws + f) == Ok(fs + [f])
  {
    var all := ws + f;
    assert all[|all| - 1] == f[|f| - 1];
    assert all[|all| - |f|] == f[0];
    assert all[..|all| - |f|] == ws && all[|all| - |f|..] == f;
  }

  lemma {:induction false} SplitBackComplete(fs: seq<seq<Word>>)
    requires AllFragments(fs)
    ensures SplitBack(Flatten(fs)) == Ok(fs)
    decreases |fs|
  {
    if fs == [] {
    } else {
      var n := |fs| - 1;
      SplitBackComplete(fs[..n]);
      SplitBackAppend(Flatten(fs[..n]), fs[..n], fs[n]);
      assert fs[..n] + [fs[n]] == fs;
    }
  }

  /** Walking back over the trailers finds a division exactly when the words are a sequence of
      fragments, and then finds that sequence; so no other one exists. */
  lemma SplitBackIff(ws: seq<Word>, fs: seq<seq<Word>>)
    ensures SplitBack(ws) == Ok(fs) <==> AllFragments(fs) && Flatten(fs) == ws
  {
    SplitBackSound(ws);
    if AllFragments(fs) { SplitBackComplete(fs); }
  }

  /** Why the walk stops before the words `ws`. */
  ghost predicate StopsAt(ws: seq<Word>, fault: Fault) {
    ws != [] &&
    var trailer := ws[|ws| - 1];
    var n := TrailerLength(trailer);
    match fault
    case NoTrailer => !IsTrailer(trailer)
    case LengthMismatch => IsTrailer(trailer) && !(0 < n <= |ws|)
    case NoHeader => IsTrailer(trailer) && 0 < n <= |ws| && !IsHeader(ws[|ws| - n])
  }

  /** After some fragments, seen from the end, the walk stops. */
  ghost predicate StopsAfter(ws: seq<Word>, rest: seq<Word>, fs: seq<seq<Word>>, fault: Fault) {
    ws == rest + Flatten(fs) && AllFragments(fs) && StopsAt(rest, fault)
  }

  lemma {:induction false} FaultFound(ws: seq<Word>) returns (rest: seq<Word>, fs: seq<seq<Word>>)
    requires SplitBack(ws).Err?
    ensures StopsAfter(ws, rest, fs, SplitBack(ws).error)
    decreases |ws|
  {
    if EndsInFragment(ws) {
      var before, f := LastFragment(ws);
      var fs';
      rest, fs' := FaultFound(before);
      fs := fs' + [f];
      AppendFragment(fs', f);
    } else {
      rest, fs := ws, [];
    }
  }

  lemma {:induction false} FaultReported(rest: seq<Word>, fs: seq<seq<Word>>, fault: Fault)
    requires AllFragments(fs) && StopsAt(rest, fault)
    ensures SplitBack(rest + Flatten(fs)) == Err(fault)
    decreases |fs|
  {
    if fs == [] {
      StopsHere(rest, fault);
      assert rest + Flatten(fs) == rest;
    } else {
      var n := |fs| - 1;
      FaultReported(rest, fs[..n], fault);
      FaultBefore(rest + Flatten(fs[..n]), fs[n]);
      ConcatAssoc(rest, Flatten(fs[..n]), fs[n]);
    }
  }

  lemma StopsHere(ws: seq<Word>, fault: Fault)
    requires StopsAt(ws, fault)
    ensures SplitBack(ws) == Err(fault)
  {
  }

  lemma FaultBefore(ws: seq<Word>, f: seq<Word>)
    requires SplitBack(ws).Err? && IsFragment(f)
    ensures SplitBack(ws + f) == SplitBack(ws)
  {
    var all := ws + f;
    assert all[|all| - 1] == f[|f| - 1];
    assert all[|all| - |f|] == f[0];
    assert all[..|all| - |f|] == ws;
  }

  /** Otherwise it reports the first inconsistency seen from the end. */
  lemma SplitBackErrIff(ws: seq<Word>, fault: Fault)
    ensures SplitBack(ws) == Err(fault) <==> exists rest, fs :: StopsAfter(ws, rest, fs, fault)
  {
    if SplitBack(ws) == Err(fault) {
      var rest, fs := FaultFound(ws);
    }
    if rest, fs :| StopsAfter(ws, rest, fs, fault) {
      FaultReported(rest, fs, fault);
    }
  }

  // ----- Words as bytes

  function Bytes32(w: uint32): seq<Byte> {
    var q1 := w / 0x100;
    var q2 := q1 / 0x100;
    [w % 0x100, q1 % 0x100, q2 % 0x100, q2 / 0x100]
  }

  function Word32(b: seq<Byte>): uint32
    requires |b| == 4
  {
    var b0: int, b1: int, b2: int, b3: int := b[0], b[1], b[2], b[3];
    b0 + 0x100 * b1 + 0x1_0000 * b2 + 0x100_0000 * b3
  }

  function ToBytes(ws: seq<Word>): (b: seq<Byte>)
    ensures |b| == 8 * |ws|
  {
    if ws == [] then []
    else ToBytes(ws[..|ws| - 1]) + Bytes32(ws[|ws| - 1].first) + Bytes32(ws[|ws| - 1].second)
  }

  function ToWords(b: seq<Byte>): (ws: seq<Word>)
    requires |b| % 8 == 0
  {
    if b == [] then []
    else ToWords(b[..|b| - 8]) + [Word(Word32(b[|b| - 8..|b| - 4]), Word32(b[|b| - 4..]))]
  }

  lemma Word32OfBytes(w: uint32)
    ensures Word32(Bytes32(w)) == w
  {
  }

  lemma {:induction false} WordsOfBytes(ws: seq<Word>)
    ensures ToWords(ToBytes(ws)) == ws
  {
    if ws == [] {
    } else {
      var pre, w := ws[..|ws| - 1], ws[|ws| - 1];
      WordsOfBytes(pre);
      assert pre + [w] == ws;
      LastWord(pre, w);
    }
  }

  lemma LastWord(ws: seq<Word>, w: Word)
    ensures ToWords(ToBytes(ws + [w])) == ToWords(ToBytes(ws)) + [w]
  {
    assert (ws + [w])[..|ws|] == ws;
    WordOfBytes(ToBytes(ws), w);
  }

  lemma WordOfBytes(b: seq<Byte>, w: Word)
    requires |b| % 8 == 0
    ensures ToWords(b + Bytes32(w.first) + Bytes32(w.second)) == ToWords(b) + [w]
  {
    var all := b + Bytes32(w.first) + Bytes32(w.second);
    Word32OfBytes(w.first);
    Word32OfBytes(w.second);
    assert all[..|all| - 8] == b;
    assert all[|all| - 8..|all| - 4] == Bytes32(w.first) && all[|all| - 4..] == Bytes32(w.second);
  }

  lemma BytesOfWord32(b: seq<Byte>)
    requires |b| == 4
    ensures Bytes32(Word32(b)) == b
  {
    var b0: int, b1: int, b2: int, b3: int := b[0], b[1], b[2], b[3];
    var w := Word32(b);
    assert w / 0x100 == b1 + 0x100 * b2 + 0x1_0000 * b3;
    assert w / 0x100 / 0x100 == b2 + 0x100 * b3;
  }

  lemma {:induction false} BytesOfWords(b: seq<Byte>)
    requires |b| % 8 == 0
    ensures ToBytes(ToWords(b)) == b
  {
    if b == [] {
    } else {
      var n := |b| - 8;
      BytesOfWords(b[..n]);
      BytesOfWord32(b[n..n + 4]);
      BytesOfWord32(b[n + 4..]);
      var ws := ToWords(b);
      assert ws[..|ws| - 1] == ToWords(b[..n]);
      assert b == b[..n] + b[n..n + 4] + b[n + 4..];
    }
  }

  lemma {:induction false} BytesConcat(a: seq<Word>, b: seq<Word>)
    ensures ToBytes(a + b) == ToBytes(a) + ToBytes(b)
    decreases |b|
  {
    if b == [] {
      assert a + b == a;
    } else {
      BytesConcat(a, b[..|b| - 1]);
      ConcatUnsnoc(a, b);
    }
  }

  // ----- Building and checking

  function Joined(e: Event, p: Event): Event {
    Event(e.evtno, e.payload + p.payload, e.badSlink || p.badSlink, e.badFed || p.badFed)
  }

  /** The super-fragment of fragments that arrived under one event number: payloads in order,
      bad-CRC marks or'ed. */
  function Merge(evtno: uint32, parts: seq<Event>): Result<Event, Error> {
    if parts == [] then Ok(Event(evtno, [], false, false))
    else
      var p := parts[|parts| - 1];
      match Merge(evtno, parts[..|parts| - 1])
      case Err(error) => Err(error)
      case Ok(e) =>
        if p.evtno != evtno then Err(BadSequenceEvtno)
        else Ok(Joined(e, p))
  }

  /** Fragments are merged exactly if all arrived under that event number, and refused for it
      otherwise; the super-fragment holds their payloads in order and a mark iff one of them does. */
  lemma {:induction false} MergeOkIff(evtno: uint32, parts: seq<Event>)
    ensures Merge(evtno, parts).Ok? <==> forall i :: 0 <= i < |parts| ==> parts[i].evtno == evtno
    ensures match Merge(evtno, parts)
            case Err(error) => error == BadSequenceEvtno
            case Ok(e) => e.evtno == evtno && e.payload == Payloads(parts) && (e.badSlink, e.badFed) == Marks(parts)
  {
    if parts != [] {
      MergeOkIff(evtno, parts[..|parts| - 1]);
    }
  }

  /** What the receiver's check makes of one collected event. */
  function Check(e: Event): Result<seq<seq<Word>>, Fault> {
    if |e.payload| % 8 != 0 then Err(LengthMismatch) else SplitBack(ToWords(e.payload))
  }

  /** The FEDs' fragments, each delivered as an event of its own. */
  ghost predicate Delivers(parts: seq<Event>, evtno: uint32, fs: seq<seq<Word>>) {
    |parts| == |fs| && forall i :: 0 <= i < |fs| ==> parts[i].evtno == evtno && parts[i].payload == ToBytes(fs[i])
  }

  lemma {:induction false} MergeDelivers(evtno: uint32, parts: seq<Event>, fs: seq<seq<Word>>)
    requires Delivers(parts, evtno, fs)
    ensures Merge(evtno, parts).Ok?
    ensures var e := Merge(evtno, parts).value;
            && e.evtno == evtno && e.payload == ToBytes(Flatten(fs))
            && (e.badSlink <==> exists i :: 0 <= i < |parts| && parts[i].badSlink)
            && (e.badFed <==> exists i :: 0 <= i < |parts| && parts[i].badFed)
    decreases |parts|
  {
    if parts == [] {
    } else {
      var n := |parts| - 1;
      MergeDelivers(evtno, parts[..n], fs[..n]);
      BytesConcat(Flatten(fs[..n]), fs[n]);
      assert Merge(evtno, parts) == Ok(Joined(Merge(evtno, parts[..n]).value, parts[n]));
    }
  }

  /** The check passes with given fragments exactly if the payload is these fragments in a row. */
  lemma CheckIff(e: Event, fs: seq<seq<Word>>)
    ensures Check(e) == Ok(fs) <==> AllFragments(fs) && e.payload == ToBytes(Flatten(fs))
  {
    WholeWords(Flatten(fs));
    if |e.payload| % 8 == 0 {
      assert Check(e) == SplitBack(ToWords(e.payload));
      SplitBackIff(ToWords(e.payload), fs);
      SameBytes(e.payload, Flatten(fs));
    }
  }

  lemma WholeWords(ws: seq<Word>)
    ensures |ToBytes(ws)| % 8 == 0
  {
  }

  /** Otherwise the bytes are no whole words, or the fault is the first one seen from their end. */
  lemma CheckErrIff(e: Event, fault: Fault)
    ensures Check(e) == Err(fault) <==>
            if |e.payload| % 8 != 0 then fault == LengthMismatch
            else exists ws, rest, fs :: e.payload == ToBytes(ws) && StopsAfter(ws, rest, fs, fault)
  {
    if |e.payload| % 8 == 0 {
      var ws := ToWords(e.payload);
      BytesOfWords(e.payload);
      SplitBackErrIff(ws, fault);
      if ws', rest, fs :| e.payload == ToBytes(ws') && StopsAfter(ws', rest, fs, fault) {
        WordsOfBytes(ws');
      }
    }
  }

  lemma SameBytes(b: seq<Byte>, ws: seq<Word>)
    requires |b| % 8 == 0
    ensures ToWords(b) == ws <==> b == ToBytes(ws)
  {
    BytesOfWords(b);
    WordsOfBytes(ws);
  }

  /** Whatever the block size: the receiver collects one event from the blocks of the
      super-fragment, its check finds exactly the fragments of the FEDs, and its bad-CRC marks
      are set iff one of the FEDs' were. */
  lemma SuperFragmentSurvives(evtno: uint32, parts: seq<Event>, fs: seq<seq<Word>>, size: nat)
    requires LegalSize(size) && evtno <= FRL_EVTNO_MASK
    requires Delivers(parts, evtno, fs) && AllFragments(fs)
    ensures Merge(evtno, parts).Ok?
    ensures var e := Merge(evtno, parts).value;
            var ss := Flatten(CutAll([e], size));
            && Writable(ss)
            && Collect(ReadAll(WriteAll(ss)), size) == Ok(Collector([e], None, 0))
            && Check(e) == Ok(fs)
            && (e.badSlink <==> exists i :: 0 <= i < |parts| && parts[i].badSlink)
            && (e.badFed <==> exists i :: 0 <= i < |parts| && parts[i].badFed)
  {
    MergeDelivers(evtno, parts, fs);
    var e := Merge(evtno, parts).value;
    WrittenEvents([e], size);
    CheckOfWords(e, Flatten(fs));
    SplitBackComplete(fs);
  }

  /** The check works on the words that were sent. */
  lemma CheckOfWords(e: Event, ws: seq<Word>)
    requires e.payload == ToBytes(ws)
    ensures Check(e) == SplitBack(ws)
  {
    assert |e.payload| == 8 * |ws|;
    assert ToWords(e.payload) == ws by { WordsOfBytes(ws); }
  }
}
