/** Collecting the segments of events, as the receiving side documents it. The comments of the
    header file and of the receiver's classes give the contract; the code is a reference
    implementation written from them. */
module FrlStream {
  import opened Bits
  import opened SerialNumbers
  import opened Wrappers
  import opened FrlHeader

  // ----- Events

  datatype Event = Event(evtno: uint32, payload: seq<Byte>, badSlink: bool, badFed: bool)

  function Payload(bs: seq<Segment>): seq<Byte> {
    if bs == [] then [] else Payload(bs[..|bs| - 1]) + bs[|bs| - 1].payload
  }

  /** The blocks carry one event number, their place in the segment count and a size that is
      that of their payload and within the limit. */
  ghost predicate InSequence(bs: seq<Segment>, evtno: uint32, limit: nat) {
    forall i :: 0 <= i < |bs| ==>
      && bs[i].evtno == Some(evtno)
      && bs[i].segno == Wrap(i)
      && bs[i].size == |bs[i].payload| <= limit
      && !bs[i].flush
  }

  predicate AnySlink(ss: seq<Segment>) { exists i :: 0 <= i < |ss| && ss[i].badSlink }

  predicate AnyFed(ss: seq<Segment>) { exists i :: 0 <= i < |ss| && ss[i].badFed }

  lemma AnyConcat(a: seq<Segment>, b: seq<Segment>)
    ensures AnySlink(a + b) <==> AnySlink(a) || AnySlink(b)
    ensures AnyFed(a + b) <==> AnyFed(a) || AnyFed(b)
  {
    var c := a + b;
    assert forall i :: 0 <= i < |a| ==> c[i] == a[i];
    assert forall i :: 0 <= i < |b| ==> c[|a| + i] == b[i];
  }

  lemma AnySnoc(a: seq<Segment>, b: Segment)
    ensures AnySlink(a + [b]) <==> AnySlink(a) || b.badSlink
    ensures AnyFed(a + [b]) <==> AnyFed(a) || b.badFed
  {
    AnyConcat(a, [b]);
    assert [b][0] == b;
  }

  /** Event `e` so far, or all of it: its bad-CRC marks are set iff some segment has them. */
  ghost predicate Carries(bs: seq<Segment>, e: Event, limit: nat) {
    && bs != []
    && InSequence(bs, e.evtno, limit)
    && e.payload == Payload(bs)
    && (e.badSlink <==> AnySlink(bs))
    && (e.badFed <==> AnyFed(bs))
  }

  ghost predicate Segments(bs: seq<Segment>, e: Event, limit: nat) {
    Carries(bs, e, limit) && forall i :: 0 <= i < |bs| ==> (bs[i].last <==> i == |bs| - 1)
  }

  ghost predicate OpenSegments(bs: seq<Segment>, e: Event, limit: nat) {
    Carries(bs, e, limit) && forall i :: 0 <= i < |bs| ==> !bs[i].last
  }

  function Flatten<T>(parts: seq<seq<T>>): seq<T> {
    if parts == [] then [] else Flatten(parts[..|parts| - 1]) + parts[|parts| - 1]
  }

  /** Part i holds the segments of event i. */
  ghost predicate PartsOf(parts: seq<seq<Segment>>, events: seq<Event>, limit: nat) {
    |parts| == |events| && forall i :: 0 <= i < |parts| ==> Segments(parts[i], events[i], limit)
  }

  // ----- Collecting segments

  datatype Error = BadSequenceSegno | BadSequenceEvtno | SegsizeTooBig | BadLength | Incomplete | IllBlocksize

  /** The receiver: events finished, the event being built up, the segment number expected. */
  datatype Collector = Collector(done: seq<Event>, open: Option<Event>, segno: uint32)

  /** The open event, or an empty one of number `n`, with one more block: payloads are joined,
      bad-CRC marks are or'ed. */
  function Extended(open: Option<Event>, b: Segment, n: uint32): Event {
    var e := if open.Some? then open.value else Event(n, [], false, false);
    Event(n, e.payload + b.payload, e.badSlink || b.badSlink, e.badFed || b.badFed)
  }

  /** Takes one block. A flushed free block carries no event data whatever its other bits say. */
  function Feed(s: Collector, b: Segment, limit: nat): Result<Collector, Error> {
    if b.flush then Ok(s)
    else if b.size != |b.payload| then Err(BadLength)
    else if b.size > limit then Err(SegsizeTooBig)
    else if b.segno != s.segno then Err(BadSequenceSegno)
    else if b.evtno == None then Err(BadSequenceEvtno)
    else
      var n := b.evtno.value;
      if s.open.Some? && s.open.value.evtno != n then Err(BadSequenceEvtno)
      else
        var e := Extended(s.open, b, n);
        if b.last then Ok(Collector(s.done + [e], None, 0))
        else Ok(Collector(s.done, Some(e), Wrap(s.segno + 1)))
  }

  function Collect(bs: seq<Segment>, limit: nat): Result<Collector, Error> {
    if bs == [] then Ok(Collector([], None, 0))
    else
      match Collect(bs[..|bs| - 1], limit)
      case Err(error) => Err(error)
      case Ok(s) => Feed(s, bs[|bs| - 1], limit)
  }

  // ----- Refused streams

  /** The ways in which a block can be at fault after the blocks that led to state `s`. */
  ghost predicate AtFault(s: Collector, b: Segment, limit: nat, error: Error) {
    match error
    case BadLength => b.size != |b.payload|
    case SegsizeTooBig => b.size > limit
    case BadSequenceSegno => b.segno != s.segno
    case BadSequenceEvtno => b.evtno == None || (s.open.Some? && b.evtno != Some(s.open.value.evtno))
    case Incomplete => false
    case IllBlocksize => false
  }

  /** A block is refused exactly if it is at fault, and for a fault which it has. */
  lemma FeedErrors(s: Collector, b: Segment, limit: nat)
    requires !b.flush
    ensures Feed(s, b, limit).Err? <==> exists error :: AtFault(s, b, limit, error)
    ensures Feed(s, b, limit).Err? ==> AtFault(s, b, limit, Feed(s, b, limit).error)
  {
    if Feed(s, b, limit).Err? {
      assert AtFault(s, b, limit, Feed(s, b, limit).error);
    }
  }

  /** The block for which a stream is refused: the first one at fault. */
  lemma {:induction false} RefusedFor(bs: seq<Segment>, limit: nat) returns (n: nat, s: Collector)
    requires Collect(bs, limit).Err?
    ensures n < |bs| && Collect(bs[..n], limit) == Ok(s)
    ensures !bs[n].flush && AtFault(s, bs[n], limit, Collect(bs, limit).error)
  {
    var m := |bs| - 1;
    if Collect(bs[..m], limit).Err? {
      n, s := RefusedFor(bs[..m], limit);
      assert bs[..m][..n] == bs[..n];
    } else {
      n, s := m, Collect(bs[..m], limit).value;
      FeedErrors(s, bs[m], limit);
    }
  }

  function DropFlushed(bs: seq<Segment>): seq<Segment> {
    if bs == [] then []
    else DropFlushed(bs[..|bs| - 1]) + (if bs[|bs| - 1].flush then [] else [bs[|bs| - 1]])
  }

  /** Flushed blocks may stand anywhere, even between the segments of an event and even with
      the bit of a last segment: they change nothing. */
  lemma {:induction false} FlushedBlocksIgnored(bs: seq<Segment>, limit: nat)
    ensures Collect(bs, limit) == Collect(DropFlushed(bs), limit)
  {
    if bs == [] {
    } else {
      var pre, b := bs[..|bs| - 1], bs[|bs| - 1];
      FlushedBlocksIgnored(pre, limit);
      if b.flush {
        assert DropFlushed(bs) == DropFlushed(pre);
      } else {
        assert DropFlushed(bs)[..|DropFlushed(bs)| - 1] == DropFlushed(pre);
      }
    }
  }

  lemma {:induction false} NoneFlushed(ss: seq<Segment>)
    ensures forall i :: 0 <= i < |DropFlushed(ss)| ==> !DropFlushed(ss)[i].flush
  {
    if ss == [] {
    } else {
      NoneFlushed(ss[..|ss| - 1]);
    }
  }

  /** What a collector has open after the blocks `bs` of one event. */
  ghost predicate CarriesOpen(bs: seq<Segment>, open: Option<Event>, limit: nat) {
    match open
    case None => bs == []
    case Some(e) => OpenSegments(bs, e, limit)
  }

  /** The blocks are those of the finished events, event by event, and then those of the open one. */
  ghost predicate InState(bs: seq<Segment>, s: Collector, limit: nat) {
    exists parts, tail :: SplitAs(bs, parts, tail, s, limit)
  }

  ghost predicate SplitAs(bs: seq<Segment>, parts: seq<seq<Segment>>, tail: seq<Segment>, s: Collector, limit: nat) {
    && bs == Flatten(parts) + tail
    && PartsOf(parts, s.done, limit)
    && CarriesOpen(tail, s.open, limit)
    && s.segno == Wrap(|tail|)
  }

  /** Block `b` continues the blocks of the open event. */
  ghost predicate Continues(bs: seq<Segment>, open: Option<Event>, b: Segment, n: uint32, limit: nat) {
    && b.evtno == Some(n)
    && (open.Some? ==> open.value.evtno == n)
    && b.segno == Wrap(|bs|)
    && b.size == |b.payload| <= limit
    && !b.flush
  }

  lemma CarriesSnoc(bs: seq<Segment>, open: Option<Event>, b: Segment, n: uint32, limit: nat)
    requires CarriesOpen(bs, open, limit) && Continues(bs, open, b, n, limit)
    ensures if b.last then Segments(bs + [b], Extended(open, b, n), limit)
            else OpenSegments(bs + [b], Extended(open, b, n), limit)
  {
    var all := bs + [b];
    assert all[..|all| - 1] == bs && all[|bs|] == b;
    AnySnoc(bs, b);
  }

  /** Conversely, the blocks of an event without the latest one leave it open. */
  lemma CarriesUnsnoc(bs: seq<Segment>, b: Segment, e: Event, limit: nat) returns (open: Option<Event>)
    requires Carries(bs + [b], e, limit) && forall i :: 0 <= i < |bs| ==> !bs[i].last
    ensures CarriesOpen(bs, open, limit) && Continues(bs, open, b, e.evtno, limit) && e == Extended(open, b, e.evtno)
  {
    var all := bs + [b];
    assert all[..|all| - 1] == bs && all[|bs|] == b;
    assert forall i :: 0 <= i < |bs| ==> all[i] == bs[i];
    AnySnoc(bs, b);
    assert e.payload == Payload(bs) + b.payload;
    open := if bs == [] then None else Some(Event(e.evtno, Payload(bs), AnySlink(bs), AnyFed(bs)));
  }

  lemma PartsSnoc(parts: seq<seq<Segment>>, events: seq<Event>, part: seq<Segment>, e: Event, limit: nat)
    requires PartsOf(parts, events, limit) && Segments(part, e, limit)
    ensures PartsOf(parts + [part], events + [e], limit)
    ensures Flatten(parts + [part]) == Flatten(parts) + part
  {
    assert (parts + [part])[..|parts|] == parts;
  }

  /** What taking a block means for the open event. */
  lemma FeedMeaning(s0: Collector, b: Segment, s: Collector, tail: seq<Segment>, limit: nat) returns (e: Event)
    requires !b.flush && Feed(s0, b, limit) == Ok(s)
    requires CarriesOpen(tail, s0.open, limit) && s0.segno == Wrap(|tail|)
    ensures if b.last then s == Collector(s0.done + [e], None, 0) && Segments(tail + [b], e, limit)
            else s == Collector(s0.done, Some(e), Wrap(|tail + [b]|)) && OpenSegments(tail + [b], e, limit)
  {
    e := Extended(s0.open, b, b.evtno.value);
    CarriesSnoc(tail, s0.open, b, b.evtno.value, limit);
    WrapAdd(|tail|, 1);
  }

  /** One block keeps the collector in agreement with the blocks taken. */
  lemma FeedSound(bs: seq<Segment>, parts: seq<seq<Segment>>, tail: seq<Segment>, s0: Collector, b: Segment,
                  s: Collector, limit: nat)
    returns (parts': seq<seq<Segment>>, tail': seq<Segment>)
    requires SplitAs(bs, parts, tail, s0, limit) && !b.flush && Feed(s0, b, limit) == Ok(s)
    ensures SplitAs(bs + [b], parts', tail', s, limit)
  {
    var e := FeedMeaning(s0, b, s, tail, limit);
    if b.last {
      PartsSnoc(parts, s0.done, tail + [b], e, limit);
      parts', tail' := parts + [tail + [b]], [];
    } else {
      parts', tail' := parts, tail + [b];
    }
  }

  lemma {:induction false} CollectSound(bs: seq<Segment>, s: Collector, limit: nat)
    returns (parts: seq<seq<Segment>>, tail: seq<Segment>)
    requires forall i :: 0 <= i < |bs| ==> !bs[i].flush
    requires Collect(bs, limit) == Ok(s)
    ensures SplitAs(bs, parts, tail, s, limit)
    decreases |bs|
  {
    if bs == [] {
      parts, tail := [], [];
    } else {
      var pre, b := bs[..|bs| - 1], bs[|bs| - 1];
      assert pre + [b] == bs;
      var s0 := CollectUnsnoc(bs, s, limit);
      var parts0, tail0 := CollectSound(pre, s0, limit);
      parts, tail := FeedSound(pre, parts0, tail0, s0, b, s, limit);
    }
  }

  lemma CollectUnsnoc(bs: seq<Segment>, s: Collector, limit: nat) returns (s0: Collector)
    requires bs != [] && Collect(bs, limit) == Ok(s)
    ensures Collect(bs[..|bs| - 1], limit) == Ok(s0) && Feed(s0, bs[|bs| - 1], limit) == Ok(s)
  {
    s0 := Collect(bs[..|bs| - 1], limit).value;
  }

  /** A block that continues the open event is taken. */
  lemma CollectContinues(bs: seq<Segment>, pre: seq<Segment>, s: Collector, b: Segment, n: uint32, limit: nat)
    requires Collect(bs, limit) == Ok(s) && s.segno == Wrap(|pre|) && Continues(pre, s.open, b, n, limit)
    ensures var e := Extended(s.open, b, n);
            Collect(bs + [b], limit) ==
            Ok(if b.last then Collector(s.done + [e], None, 0) else Collector(s.done, Some(e), Wrap(|pre + [b]|)))
  {
    assert (bs + [b])[..|bs|] == bs;
    WrapAdd(|pre|, 1);
  }

  /** Any blocks of an event end in one that continues those before it. */
  lemma EventEnds(part: seq<Segment>, e: Event, limit: nat)
    returns (pre: seq<Segment>, b: Segment, before: Option<Event>)
    requires Carries(part, e, limit) && forall i :: 0 <= i < |part| - 1 ==> !part[i].last
    ensures part == pre + [b] && b == part[|part| - 1]
    ensures CarriesOpen(pre, before, limit) && Continues(pre, before, b, e.evtno, limit)
    ensures e == Extended(before, b, e.evtno)
  {
    pre, b := part[..|part| - 1], part[|part| - 1];
    assert pre + [b] == part;
    before := CarriesUnsnoc(pre, b, e, limit);
  }

  /** The blocks of an event, but for the last one, leave it open. */
  lemma {:induction false} CollectOpen(head: seq<Segment>, tail: seq<Segment>, done: seq<Event>, open: Option<Event>,
                                       limit: nat)
    requires Collect(head, limit) == Ok(Collector(done, None, 0)) && CarriesOpen(tail, open, limit)
    ensures Collect(head + tail, limit) == Ok(Collector(done, open, Wrap(|tail|)))
    decreases |tail|
  {
    if tail == [] {
      assert head + tail == head;
    } else {
      var pre, b, before := EventEnds(tail, open.value, limit);
      assert !b.last;
      CollectOpen(head, pre, done, before, limit);
      CollectContinues(head + pre, pre, Collector(done, before, Wrap(|pre|)), b, open.value.evtno, limit);
      assert head + pre + [b] == head + tail;
    }
  }

  /** The blocks of an event complete it. */
  lemma CollectEvent(head: seq<Segment>, part: seq<Segment>, done: seq<Event>, e: Event, limit: nat)
    requires Collect(head, limit) == Ok(Collector(done, None, 0)) && Segments(part, e, limit)
    ensures Collect(head + part, limit) == Ok(Collector(done + [e], None, 0))
  {
    var pre, b, before := EventEnds(part, e, limit);
    assert b.last;
    CollectOpen(head, pre, done, before, limit);
    CollectContinues(head + pre, pre, Collector(done, before, Wrap(|pre|)), b, e.evtno, limit);
    assert head + pre + [b] == head + part;
  }

  /** The last part and its event, taken off. */
  lemma PartsUnsnoc(parts: seq<seq<Segment>>, events: seq<Event>, n: nat, limit: nat)
    requires PartsOf(parts, events, limit) && n + 1 == |events|
    ensures PartsOf(parts[..n], events[..n], limit) && Segments(parts[n], events[n], limit)
    ensures Flatten(parts) == Flatten(parts[..n]) + parts[n]
    ensures events[..n] + [events[n]] == events
  {
  }

  /** The parts of several events are collected into those events. */
  lemma {:induction false} CollectParts(parts: seq<seq<Segment>>, events: seq<Event>, limit: nat)
    requires PartsOf(parts, events, limit)
    ensures Collect(Flatten(parts), limit) == Ok(Collector(events, None, 0))
    decreases |events|
  {
    if events == [] {
      assert parts == [];
    } else {
      var n := |events| - 1;
      PartsUnsnoc(parts, events, n, limit);
      CollectParts(parts[..n], events[..n], limit);
      CollectEvent(Flatten(parts[..n]), parts[n], events[..n], events[n], limit);
    }
  }

  /** Collecting any stream ends in a state exactly when the blocks, flushed ones left aside, are
      the segments of its finished events, one after the other, and then those of its open one:
      it accepts no other stream, refuses no such stream, and yields no other events. */
  lemma CollectIff(bs: seq<Segment>, s: Collector, limit: nat)
    ensures Collect(bs, limit) == Ok(s) <==> InState(DropFlushed(bs), s, limit)
  {
    var kept := DropFlushed(bs);
    FlushedBlocksIgnored(bs, limit);
    NoneFlushed(bs);
    if Collect(kept, limit) == Ok(s) {
      var parts, tail := CollectSound(kept, s, limit);
    }
    if InState(kept, s, limit) {
      var parts, tail :| SplitAs(kept, parts, tail, s, limit);
      CollectParts(parts, s.done, limit);
      CollectOpen(Flatten(parts), tail, s.done, s.open, limit);
    }
  }
}
