/** Re-blocking: events collected from blocks of one size are cut into blocks of another. A
    reference implementation written from the comments on the header items. */
module FrlReblock {
  import opened Bits
  import opened SerialNumbers
  import opened Wrappers
  import opened FrlHeader
  import opened FrlStream

  // ----- Cutting an event

  function FullSegment(evtno: uint32, i: nat, payload: seq<Byte>): Segment {
    Segment(Some(evtno), Wrap(i), |payload|, payload, false, false, false, false)
  }

  /** Segments of at most `size` bytes for the rest of an event, from segment number `i` on. The
      bad-CRC marks go onto the last segment, where the receiving side counts them. */
  function Cut(e: Event, rest: seq<Byte>, i: nat, size: nat): (c: seq<Segment>)
    requires size > 0
    ensures c != []
    decreases |rest|
  {
    if |rest| <= size then [Segment(Some(e.evtno), Wrap(i), |rest|, rest, true, e.badSlink, e.badFed, false)]
    else [FullSegment(e.evtno, i, rest[..size])] + Cut(e, rest[size..], i + 1, size)
  }

  function CutEvent(e: Event, size: nat): seq<Segment>
    requires size > 0
  {
    Cut(e, e.payload, 0, size)
  }

  /** Every segment but the last is full, and only an event without payload has an empty one. */
  ghost predicate CutShape(c: seq<Segment>, e: Event, i: nat, size: nat) {
    forall j :: 0 <= j < |c| ==>
      && c[j].evtno == Some(e.evtno) && c[j].segno == Wrap(i + j) && !c[j].flush
      && c[j].size == |c[j].payload| <= size
      && (c[j].last <==> j == |c| - 1)
      && (c[j].badSlink <==> e.badSlink && j == |c| - 1)
      && (c[j].badFed <==> e.badFed && j == |c| - 1)
      && (j < |c| - 1 ==> |c[j].payload| == size)
  }

  lemma ConcatUnsnoc<T>(a: seq<T>, b: seq<T>)
    requires b != []
    ensures var c := a + b; c[..|c| - 1] == a + b[..|b| - 1] && c[|c| - 1] == b[|b| - 1]
  {
  }

  lemma ConcatAssoc<T>(a: seq<T>, b: seq<T>, c: seq<T>)
    ensures a + (b + c) == a + b + c
  {
  }

  lemma {:induction false} PayloadConcat(a: seq<Segment>, b: seq<Segment>)
    ensures Payload(a + b) == Payload(a) + Payload(b)
    decreases |b|
  {
    if b == [] {
      assert a + b == a;
    } else {
      PayloadConcat(a, b[..|b| - 1]);
      ConcatUnsnoc(a, b);
    }
  }

  lemma PayloadOne(s: Segment)
    ensures Payload([s]) == s.payload
  {
    assert [s][..0] == [];
  }

  lemma PayloadCons(s: Segment, ss: seq<Segment>)
    ensures Payload([s] + ss) == s.payload + Payload(ss)
  {
    PayloadOne(s);
    PayloadConcat([s], ss);
  }

  lemma {:induction false} CutHasShape(e: Event, rest: seq<Byte>, i: nat, size: nat)
    requires size > 0
    ensures CutShape(Cut(e, rest, i, size), e, i, size)
    decreases |rest|
  {
    if |rest| <= size {
    } else {
      var c, tail := Cut(e, rest, i, size), Cut(e, rest[size..], i + 1, size);
      CutHasShape(e, rest[size..], i + 1, size);
      assert forall j :: 1 <= j < |c| ==> c[j] == tail[j - 1];
    }
  }

  lemma {:induction false} CutPayload(e: Event, rest: seq<Byte>, i: nat, size: nat)
    requires size > 0
    ensures Payload(Cut(e, rest, i, size)) == rest
    decreases |rest|
  {
    if |rest| <= size {
      PayloadOne(Segment(Some(e.evtno), Wrap(i), |rest|, rest, true, e.badSlink, e.badFed, false));
    } else {
      CutPayload(e, rest[size..], i + 1, size);
      CutPayloadStep(e, rest, i, size);
    }
  }

  lemma CutPayloadStep(e: Event, rest: seq<Byte>, i: nat, size: nat)
    requires 0 < size < |rest|
    ensures Payload(Cut(e, rest, i, size)) == rest[..size] + Payload(Cut(e, rest[size..], i + 1, size))
  {
    PayloadCons(FullSegment(e.evtno, i, rest[..size]), Cut(e, rest[size..], i + 1, size));
  }

  /** All segments before the last are needed: together they do not hold the payload. */
  lemma {:induction false} CutCount(e: Event, rest: seq<Byte>, i: nat, size: nat)
    requires size > 0
    ensures |Cut(e, rest, i, size)| == 1 || (|Cut(e, rest, i, size)| - 1) * size < |rest|
    decreases |rest|
  {
    if |rest| <= size {
    } else {
      var tail := Cut(e, rest[size..], i + 1, size);
      CutCount(e, rest[size..], i + 1, size);
      assert |tail| * size == (|tail| - 1) * size + size;
    }
  }

  /** Cutting meets the contract: the segments are those of the event. */
  lemma CutIsSegments(e: Event, size: nat)
    requires size > 0
    ensures Segments(CutEvent(e, size), e, size)
  {
    CutHasShape(e, e.payload, 0, size);
    CutPayload(e, e.payload, 0, size);
    var c := CutEvent(e, size);
    assert e.badSlink ==> c[|c| - 1].badSlink;
    assert e.badFed ==> c[|c| - 1].badFed;
  }

  lemma {:induction false} PayloadBound(bs: seq<Segment>, size: nat)
    requires forall i :: 0 <= i < |bs| ==> |bs[i].payload| <= size
    ensures |Payload(bs)| <= |bs| * size
  {
    if bs == [] {
    } else {
      PayloadBound(bs[..|bs| - 1], size);
      assert |bs| * size == (|bs| - 1) * size + size;
    }
  }

  /** No segmentation of the event into blocks of this size has fewer segments. */
  lemma CutIsShortest(e: Event, size: nat, bs: seq<Segment>)
    requires size > 0 && Segments(bs, e, size)
    ensures |CutEvent(e, size)| <= |bs|
  {
    CutCount(e, e.payload, 0, size);
    PayloadBound(bs, size);
    var n := |CutEvent(e, size)|;
    if n - 1 > |bs| { MulGap(|bs|, n - 1, size); }
  }

  // ----- Re-blocking a stream

  function ReadAll(bs: seq<Block>): (ss: seq<Segment>)
    ensures |ss| == |bs|
  {
    seq(|bs|, i requires 0 <= i < |bs| => Read(bs[i]))
  }

  predicate Writable(ss: seq<Segment>) {
    forall i :: 0 <= i < |ss| ==> ss[i].evtno.Some? && ss[i].size <= FRL_SEGSIZE_SIZE_MASK
  }

  function WriteAll(ss: seq<Segment>): (bs: seq<Block>)
    requires Writable(ss)
    ensures |bs| == |ss|
  {
    seq(|ss|, i requires 0 <= i < |ss| => Write(ss[i]))
  }

  function CutAll(events: seq<Event>, size: nat): seq<seq<Segment>>
    requires size > 0
  {
    seq(|events|, i requires 0 <= i < |events| => CutEvent(events[i], size))
  }

  /** The segment size that a header can express. */
  predicate LegalSize(size: nat) { 0 < size <= FRL_SEGSIZE_SIZE_MASK }

  lemma {:induction false} FlattenAll<T>(parts: seq<seq<T>>, p: T -> bool)
    requires forall i, j :: 0 <= i < |parts| && 0 <= j < |parts[i]| ==> p(parts[i][j])
    ensures forall k :: 0 <= k < |Flatten(parts)| ==> p(Flatten(parts)[k])
  {
    if parts == [] {
    } else {
      FlattenAll(parts[..|parts| - 1], p);
    }
  }

  lemma CutAllParts(events: seq<Event>, size: nat)
    requires LegalSize(size)
    ensures PartsOf(CutAll(events, size), events, size)
    ensures Writable(Flatten(CutAll(events, size)))
  {
    var parts := CutAll(events, size);
    forall i | 0 <= i < |events|
      ensures Segments(parts[i], events[i], size)
    {
      CutIsSegments(events[i], size);
    }
    FlattenAll(parts, (s: Segment) => s.evtno.Some? && s.size <= FRL_SEGSIZE_SIZE_MASK);
  }

  /** Re-blocks whole events; a size no header can express is refused, as is a stream that
      breaks off inside an event. */
  function Reblock(bs: seq<Block>, limit: nat, size: nat): Result<seq<Block>, Error> {
    if !LegalSize(size) then Err(IllBlocksize)
    else
      match Collect(ReadAll(bs), limit)
      case Err(error) => Err(error)
      case Ok(s) =>
        if s.open.Some? then Err(Incomplete)
        else
          CutAllParts(s.done, size);
          Ok(WriteAll(Flatten(CutAll(s.done, size))))
  }

  /** Event numbers collected from headers fit the header's mask. */
  lemma {:induction false} CollectedEvtnos(bs: seq<Block>, limit: nat)
    ensures match Collect(ReadAll(bs), limit)
            case Err(_) => true
            case Ok(s) =>
              && (forall e :: e in s.done ==> e.evtno <= FRL_EVTNO_MASK)
              && (s.open.Some? ==> s.open.value.evtno <= FRL_EVTNO_MASK)
  {
    if bs == [] {
    } else {
      var n := |bs| - 1;
      CollectedEvtnos(bs[..n], limit);
      assert ReadAll(bs)[..n] == ReadAll(bs[..n]);
      GlobalEvtnoFits(bs[n].header);
    }
  }

  lemma ReadWriteAll(ss: seq<Segment>)
    requires Writable(ss)
    requires forall i :: 0 <= i < |ss| ==> !ss[i].flush && ss[i].evtno.value <= FRL_EVTNO_MASK
    ensures ReadAll(WriteAll(ss)) == ss
  {
    forall i | 0 <= i < |ss|
      ensures ReadAll(WriteAll(ss))[i] == ss[i]
    {
      ReadWrite(ss[i]);
    }
  }

  /** Reading the blocks written for events gives their segments. */
  lemma WrittenEvents(events: seq<Event>, size: nat)
    requires LegalSize(size) && forall e :: e in events ==> e.evtno <= FRL_EVTNO_MASK
    ensures var ss := Flatten(CutAll(events, size));
            Writable(ss) && ReadAll(WriteAll(ss)) == ss && Collect(ss, size) == Ok(Collector(events, None, 0))
  {
    var parts := CutAll(events, size);
    CutAllParts(events, size);
    CollectParts(parts, events, size);
    forall i, j | 0 <= i < |parts| && 0 <= j < |parts[i]|
      ensures !parts[i][j].flush && parts[i][j].evtno.Some? && parts[i][j].evtno.value <= FRL_EVTNO_MASK
    {
      assert events[i] in events;
      CutHasShape(events[i], events[i].payload, 0, size);
    }
    FlattenAll(parts, (s: Segment) => !s.flush && s.evtno.Some? && s.evtno.value <= FRL_EVTNO_MASK);
    ReadWriteAll(Flatten(parts));
  }

  /** Re-blocking keeps every event: a receiver of the output collects the same events, with the
      same numbers, payloads and bad-CRC marks, as a receiver of the input; and the output is,
      event by event, a segmentation into blocks of the new size. */
  lemma ReblockKeepsEvents(bs: seq<Block>, limit: nat, size: nat)
    requires Reblock(bs, limit, size).Ok?
    ensures var out, events := Reblock(bs, limit, size).value, Collect(ReadAll(bs), limit).value.done;
            && Collect(ReadAll(out), size) == Collect(ReadAll(bs), limit)
            && ReadAll(out) == Flatten(CutAll(events, size))
            && PartsOf(CutAll(events, size), events, size)
  {
    CollectedEvtnos(bs, limit);
    CutAllParts(Collect(ReadAll(bs), limit).value.done, size);
    var s := Collect(ReadAll(bs), limit).value;
    assert s.open == None && s.segno == 0 by { IdleAtZero(ReadAll(bs), limit); }
    WrittenEvents(s.done, size);
  }

  /** With no event open, segment 0 is expected. */
  lemma {:induction false} IdleAtZero(ss: seq<Segment>, limit: nat)
    ensures match Collect(ss, limit)
            case Err(_) => true
            case Ok(s) => s.open.None? ==> s.segno == 0
  {
    if ss == [] {
    } else {
      IdleAtZero(ss[..|ss| - 1], limit);
    }
  }

  /** It succeeds for exactly the legal sizes and the streams that consist, flushed blocks left
      aside, of the segments of whole events. */
  lemma ReblockOkIff(bs: seq<Block>, limit: nat, size: nat)
    ensures Reblock(bs, limit, size).Ok? <==>
            && 0 < size < 0x1000_0000
            && exists parts, events :: PartsOf(parts, events, limit) && Flatten(parts) == DropFlushed(ReadAll(bs))
  {
    var ss, kept := ReadAll(bs), DropFlushed(ReadAll(bs));
    FlushedBlocksIgnored(ss, limit);
    NoneFlushed(ss);
    if LegalSize(size) && Reblock(bs, limit, size).Ok? {
      var parts, tail := CollectSound(kept, Collect(ss, limit).value, limit);
      assert tail == [] && kept == Flatten(parts);
      assert PartsOf(parts, Collect(ss, limit).value.done, limit);
    }
    if exists parts, events :: PartsOf(parts, events, limit) && Flatten(parts) == kept {
      var parts, events :| PartsOf(parts, events, limit) && Flatten(parts) == kept;
      CollectParts(parts, events, limit);
    }
  }

  /** A legal size is refused for nothing but the stream: with the error of collecting it, or as
      incomplete exactly if an event is left open. */
  lemma ReblockErrors(bs: seq<Block>, limit: nat, size: nat)
    ensures Reblock(bs, limit, size) == Err(IllBlocksize) <==> !(0 < size < 0x1000_0000)
    ensures 0 < size < 0x1000_0000 ==>
              match Collect(ReadAll(bs), limit)
              case Err(error) => Reblock(bs, limit, size) == Err(error)
              case Ok(s) => s.open.Some? <==> Reblock(bs, limit, size) == Err(Incomplete)
  {
    if Collect(ReadAll(bs), limit).Err? {
      var n, s := RefusedFor(ReadAll(bs), limit);
    }
  }

  function Payloads(events: seq<Event>): seq<Byte> {
    if events == [] then [] else Payloads(events[..|events| - 1]) + events[|events| - 1].payload
  }

  /** Together the segments of some events carry their payloads, in order. */
  lemma {:induction false} PartsPayload(parts: seq<seq<Segment>>, events: seq<Event>, limit: nat)
    requires PartsOf(parts, events, limit)
    ensures Payload(Flatten(parts)) == Payloads(events)
    decreases |events|
  {
    if events == [] {
    } else {
      var n := |events| - 1;
      PartsPayload(parts[..n], events[..n], limit);
      PayloadConcat(Flatten(parts[..n]), parts[n]);
      assert Segments(parts[n], events[n], limit);
    }
  }

  /** The bad-CRC marks of all events together. */
  function Marks(events: seq<Event>): (bool, bool) {
    if events == [] then (false, false)
    else
      var before, e := Marks(events[..|events| - 1]), events[|events| - 1];
      (before.0 || e.badSlink, before.1 || e.badFed)
  }

  /** Some segment has a bad-CRC mark iff some event does. */
  lemma {:induction false} PartsMarks(parts: seq<seq<Segment>>, events: seq<Event>, limit: nat)
    requires PartsOf(parts, events, limit)
    ensures (AnySlink(Flatten(parts)), AnyFed(Flatten(parts))) == Marks(events)
    decreases |events|
  {
    if events == [] {
      assert Flatten(parts) == [];
    } else {
      var n := |events| - 1;
      PartsMarks(parts[..n], events[..n], limit);
      AnyConcat(Flatten(parts[..n]), parts[n]);
      assert Segments(parts[n], events[n], limit);
    }
  }

  /** Over a whole stream, flushed blocks left aside: the concatenated payload stays, and each
      bad-CRC bit is set somewhere in the output iff it was set somewhere in the input. */
  lemma ReblockConserves(bs: seq<Block>, limit: nat, size: nat)
    requires Reblock(bs, limit, size).Ok?
    ensures var before, after := DropFlushed(ReadAll(bs)), ReadAll(Reblock(bs, limit, size).value);
            && Payload(after) == Payload(before)
            && (AnySlink(after) <==> AnySlink(before))
            && (AnyFed(after) <==> AnyFed(before))
  {
    var kept := DropFlushed(ReadAll(bs));
    var s := Collect(ReadAll(bs), limit).value;
    FlushedBlocksIgnored(ReadAll(bs), limit);
    NoneFlushed(ReadAll(bs));
    var parts, tail := CollectSound(kept, s, limit);
    assert kept == Flatten(parts);
    ReblockKeepsEvents(bs, limit, size);
    var out := CutAll(s.done, size);
    PartsPayload(parts, s.done, limit);
    PartsPayload(out, s.done, size);
    PartsMarks(parts, s.done, limit);
    PartsMarks(out, s.done, size);
  }

  predicate Outgoing(s: Segment, size: nat) {
    && s.evtno.Some? && s.evtno.value <= FRL_EVTNO_MASK
    && |s.payload| == s.size <= size && (s.last || s.size > 0)
  }

  predicate CleanBlock(b: Block, size: nat) {
    && b.header.source == 0 && b.header.evtno1 == 0 && b.header.evtno <= FRL_EVTNO_MASK
    && |b.payload| <= size && b.header.segsize != 0
  }

  lemma OutgoingIsClean(s: Segment, size: nat)
    requires Outgoing(s, size) && LegalSize(size)
    ensures CleanBlock(Write(s), size)
  {
    SegsizeFields(s.last, s.badSlink, s.badFed, s.size);
  }

  lemma CutIsOutgoing(e: Event, size: nat, j: nat)
    requires LegalSize(size) && e.evtno <= FRL_EVTNO_MASK && j < |CutEvent(e, size)|
    ensures Outgoing(CutEvent(e, size)[j], size)
  {
    CutHasShape(e, e.payload, 0, size);
  }

  /** What the comments fix for each output header: source, link bits and the second event number
      are cleared, the payload fits the new size, and the segsize word is not zero, so that the
      end of each transfer can be seen. */
  lemma OutputHeaders(bs: seq<Block>, limit: nat, size: nat)
    requires Reblock(bs, limit, size).Ok?
    ensures var out := Reblock(bs, limit, size).value; forall i :: 0 <= i < |out| ==> CleanBlock(out[i], size)
  {
    CollectedEvtnos(bs, limit);
    var events := Collect(ReadAll(bs), limit).value.done;
    var parts := CutAll(events, size);
    CutAllParts(events, size);
    forall i, j | 0 <= i < |parts| && 0 <= j < |parts[i]|
      ensures Outgoing(parts[i][j], size)
    {
      assert events[i] in events;
      CutIsOutgoing(events[i], size, j);
    }
    FlattenAll(parts, (s: Segment) => Outgoing(s, size));
    var ss := Flatten(parts);
    forall i | 0 <= i < |ss|
      ensures CleanBlock(Write(ss[i]), size)
    {
      OutgoingIsClean(ss[i], size);
    }
  }

  /** The output depends on the events alone, not on how the input was blocked; so re-blocking
      twice is re-blocking once to the second size. */
  lemma ReblockTwice(bs: seq<Block>, limit: nat, size1: nat, size2: nat)
    requires Reblock(bs, limit, size1).Ok?
    ensures Reblock(Reblock(bs, limit, size1).value, size1, size2) == Reblock(bs, limit, size2)
  {
    ReblockKeepsEvents(bs, limit, size1);
  }
}
