/** What the segment numbers detect: exactly which single blocks, lost or come once more at any
    place, escape a receiver that counts segments and compares event numbers inside an event only. */
module FrlFaults {
  import opened SerialNumbers
  import opened Wrappers
  import opened FrlHeader
  import opened FrlStream

  /** After any accepted blocks, one at fault is refused for a fault it has, hence for its only
      fault if it has no other, and no block that follows changes this. */
  lemma RefusedForItsFault(bs: seq<Segment>, s: Collector, b: Segment, fault: Error, more: seq<Segment>, limit: nat)
    requires Collect(bs, limit) == Ok(s) && !b.flush && AtFault(s, b, limit, fault)
    ensures var r := Collect(bs + [b] + more, limit);
            && r.Err? && AtFault(s, b, limit, r.error)
            && ((forall error :: AtFault(s, b, limit, error) ==> error == fault) ==> r == Err(fault))
  {
    FeedErrors(s, b, limit);
    RefusedStays(bs, s, b, more, limit);
  }

  /** Once a block is refused, nothing after it is looked at. */
  lemma {:induction false} ErrorsStay(bs: seq<Segment>, more: seq<Segment>, limit: nat)
    requires Collect(bs, limit).Err?
    ensures Collect(bs + more, limit) == Collect(bs, limit)
    decreases |more|
  {
    if more == [] {
      assert bs + more == bs;
    } else {
      var n := |more| - 1;
      ErrorsStay(bs, more[..n], limit);
      assert (bs + more)[..|bs + more| - 1] == bs + more[..n];
    }
  }

  /** The first j blocks of an event, the last one not among them, leave it open. */
  lemma FirstBlocks(part: seq<Segment>, e: Event, j: nat, limit: nat) returns (open: Option<Event>)
    requires Segments(part, e, limit) && j < |part|
    ensures CarriesOpen(part[..j], open, limit) && (open.None? <==> j == 0)
    ensures open.Some? ==> open.value.evtno == e.evtno
  {
    var bs := part[..j];
    if j == 0 {
      open := None;
    } else {
      open := Some(Event(e.evtno, Payload(bs), AnySlink(bs), AnyFed(bs)));
    }
  }

  /** The state after whole events and j blocks of the next one. */
  lemma Reached(parts: seq<seq<Segment>>, events: seq<Event>, part: seq<Segment>, e: Event, j: nat, limit: nat)
    returns (open: Option<Event>)
    requires PartsOf(parts, events, limit) && Segments(part, e, limit) && j < |part|
    ensures Collect(Flatten(parts) + part[..j], limit) == Ok(Collector(events, open, Wrap(j)))
    ensures open.None? <==> j == 0
    ensures open.Some? ==> open.value.evtno == e.evtno
  {
    open := FirstBlocks(part, e, j, limit);
    CollectParts(parts, events, limit);
    CollectOpen(Flatten(parts), part[..j], events, open, limit);
  }

  /** A sound block that comes out of its turn is refused for its segment number. */
  lemma OutOfTurn(bs: seq<Segment>, b: Segment, more: seq<Segment>, limit: nat)
    requires Collect(bs, limit).Ok? && Collect(bs, limit).value.segno != b.segno
    requires b.size == |b.payload| <= limit && !b.flush
    ensures Collect(bs + [b] + more, limit) == Err(BadSequenceSegno)
  {
    RefusedStays(bs, Collect(bs, limit).value, b, more, limit);
  }

  /** What is known of block j of an event. */
  lemma BlockOf(part: seq<Segment>, e: Event, j: nat, limit: nat)
    requires Segments(part, e, limit) && j < |part|
    ensures var b := part[j];
            && b.evtno == Some(e.evtno) && b.segno == Wrap(j)
            && b.size == |b.payload| <= limit && !b.flush && (b.last <==> j == |part| - 1)
  {
  }

  /** Where segment j is expected, a block of another segment number is refused. */
  lemma Misplaced(parts: seq<seq<Segment>>, events: seq<Event>, part: seq<Segment>, e: Event, j: nat,
                  other: seq<Segment>, f: Event, k: nat, more: seq<Segment>, limit: nat)
    requires PartsOf(parts, events, limit) && Segments(part, e, limit) && j < |part|
    requires Segments(other, f, limit) && k < |other| && Wrap(k) != Wrap(j)
    ensures Collect(Flatten(parts) + part[..j] + [other[k]] + more, limit) == Err(BadSequenceSegno)
  {
    var open := Reached(parts, events, part, e, j, limit);
    BlockOf(other, f, k, limit);
    OutOfTurn(Flatten(parts) + part[..j], other[k], more, limit);
  }

  lemma NextSegnoDiffers(j: nat)
    ensures Wrap(j + 1) != Wrap(j)
  {
    WrapAdd(j, 1);
  }

  lemma Regroup<T>(head: seq<T>, part: seq<T>, i: nat, other: seq<T>, j: nat, rest: seq<T>)
    requires i <= |part| && j < |other|
    ensures head + part[..i] + other[j..] + rest == head + part[..i] + [other[j]] + (other[j + 1..] + rest)
  {
    assert other[j..] == [other[j]] + other[j + 1..];
  }

  /** An event of which block j is lost is refused, whatever follows, unless j was the last. */
  lemma LostInsideEvent(parts: seq<seq<Segment>>, events: seq<Event>, part: seq<Segment>, e: Event, j: nat,
                        rest: seq<Segment>, limit: nat)
    requires PartsOf(parts, events, limit) && Segments(part, e, limit) && j + 1 < |part|
    ensures Collect(Flatten(parts) + part[..j] + part[j + 1..] + rest, limit) == Err(BadSequenceSegno)
  {
    NextSegnoDiffers(j);
    Misplaced(parts, events, part, e, j, part, e, j + 1, part[j + 2..] + rest, limit);
    Regroup(Flatten(parts), part, j, part, j + 1, rest);
  }

  /** A block of another event that has the expected segment number is refused for its event
      number, once the event has begun. */
  lemma OtherEvent(parts: seq<seq<Segment>>, events: seq<Event>, part: seq<Segment>, e: Event, j: nat,
                   other: seq<Segment>, f: Event, k: nat, more: seq<Segment>, limit: nat)
    requires PartsOf(parts, events, limit) && Segments(part, e, limit) && 0 < j < |part|
    requires Segments(other, f, limit) && k < |other| && Wrap(k) == Wrap(j) && f.evtno != e.evtno
    ensures Collect(Flatten(parts) + part[..j] + [other[k]] + more, limit) == Err(BadSequenceEvtno)
  {
    var open := Reached(parts, events, part, e, j, limit);
    BlockOf(other, f, k, limit);
    RefusedStays(Flatten(parts) + part[..j], Collector(events, open, Wrap(j)), other[k], more, limit);
  }

  /** The answer to a refused block is the answer to the whole stream. */
  lemma RefusedStays(bs: seq<Segment>, s: Collector, b: Segment, more: seq<Segment>, limit: nat)
    requires Collect(bs, limit) == Ok(s) && Feed(s, b, limit).Err?
    ensures Collect(bs + [b] + more, limit) == Err(Feed(s, b, limit).error)
  {
    assert (bs + [b])[..|bs|] == bs;
    ErrorsStay(bs + [b], more, limit);
  }

  /** The blocks of an event without the last one, whose number was 0, followed by those of an
      event of the same number, look like the blocks of a single event. */
  lemma JoinedEvents(part: seq<Segment>, e: Event, next: seq<Segment>, f: Event, limit: nat) returns (g: Event)
    requires Segments(part, e, limit) && Segments(next, f, limit)
    requires Wrap(|part| - 1) == 0 && e.evtno == f.evtno
    ensures Segments(part[..|part| - 1] + next, g, limit)
  {
    var kept := part[..|part| - 1];
    var all := kept + next;
    g := Event(e.evtno, Payload(all), AnySlink(all), AnyFed(all));
    forall i | 0 <= i < |all|
      ensures all[i].evtno == Some(g.evtno) && all[i].segno == Wrap(i) && all[i].size == |all[i].payload| <= limit
      ensures !all[i].flush && (all[i].last <==> i == |all| - 1)
    {
      if i < |kept| {
        BlockOf(part, e, i, limit);
      } else {
        var k := i - |kept|;
        BlockOf(next, f, k, limit);
        WrapAdd(|kept|, k);
      }
    }
  }

  /** The stream in which the last block of an event is lost and another event follows. */
  lemma LostLast(parts: seq<seq<Segment>>, events: seq<Event>, part: seq<Segment>, e: Event,
                 next: seq<Segment>, f: Event, limit: nat)
    requires PartsOf(parts, events, limit) && Segments(part, e, limit) && Segments(next, f, limit)
    ensures var j := |part| - 1;
            var r := Collect(Flatten(parts) + part[..j] + next, limit);
            if Wrap(j) != 0 then r == Err(BadSequenceSegno)
            else if 0 < j && e.evtno != f.evtno then r == Err(BadSequenceEvtno)
            else r.Ok?
  {
    var j := |part| - 1;
    if Wrap(j) != 0 || (0 < j && e.evtno != f.evtno) {
      LostLastRefused(parts, events, part, e, next, f, limit);
    } else if j == 0 {
      LostSingleBlock(parts, events, part, next, f, limit);
    } else {
      var g := LostLastJoins(parts, events, part, e, next, f, limit);
    }
  }

  lemma LostLastRefused(parts: seq<seq<Segment>>, events: seq<Event>, part: seq<Segment>, e: Event,
                        next: seq<Segment>, f: Event, limit: nat)
    requires PartsOf(parts, events, limit) && Segments(part, e, limit) && Segments(next, f, limit)
    requires var j := |part| - 1; Wrap(j) != 0 || (0 < j && e.evtno != f.evtno)
    ensures var j := |part| - 1;
            Collect(Flatten(parts) + part[..j] + next, limit) ==
            Err(if Wrap(j) != 0 then BadSequenceSegno else BadSequenceEvtno)
  {
    var j := |part| - 1;
    assert Flatten(parts) + part[..j] + next == Flatten(parts) + part[..j] + [next[0]] + next[1..] by {
      Regroup(Flatten(parts), part, j, next, 0, []);
      NothingMore(Flatten(parts) + part[..j], next);
    }
    if Wrap(j) != 0 {
      Misplaced(parts, events, part, e, j, next, f, 0, next[1..], limit);
    } else {
      OtherEvent(parts, events, part, e, j, next, f, 0, next[1..], limit);
    }
  }

  lemma NothingMore<T>(head: seq<T>, next: seq<T>)
    requires next != []
    ensures head + next[0..] + [] == head + next && next[1..] + [] == next[1..]
  {
  }

  /** Without its only block an event leaves no trace. */
  lemma LostSingleBlock(parts: seq<seq<Segment>>, events: seq<Event>, part: seq<Segment>,
                        next: seq<Segment>, f: Event, limit: nat)
    requires PartsOf(parts, events, limit) && |part| == 1 && Segments(next, f, limit)
    ensures Collect(Flatten(parts) + part[..0] + next, limit) == Ok(Collector(events + [f], None, 0))
  {
    CollectParts(parts, events, limit);
    CollectEvent(Flatten(parts), next, events, f, limit);
    assert Flatten(parts) + part[..0] == Flatten(parts);
  }

  /** Without a last block of number 0, an event is joined with the next one of the same number. */
  lemma LostLastJoins(parts: seq<seq<Segment>>, events: seq<Event>, part: seq<Segment>, e: Event,
                      next: seq<Segment>, f: Event, limit: nat) returns (g: Event)
    requires PartsOf(parts, events, limit) && Segments(part, e, limit) && Segments(next, f, limit)
    requires Wrap(|part| - 1) == 0 && e.evtno == f.evtno
    ensures Collect(Flatten(parts) + part[..|part| - 1] + next, limit) == Ok(Collector(events + [g], None, 0))
  {
    var head, kept := Flatten(parts), part[..|part| - 1];
    g := JoinedEvents(part, e, next, f, limit);
    CollectParts(parts, events, limit);
    JoinedCollected(head, kept, next, events, g, limit);
  }

  lemma JoinedCollected(head: seq<Segment>, kept: seq<Segment>, next: seq<Segment>, events: seq<Event>, g: Event,
                        limit: nat)
    requires Collect(head, limit) == Ok(Collector(events, None, 0)) && Segments(kept + next, g, limit)
    ensures Collect(head + kept + next, limit) == Ok(Collector(events + [g], None, 0))
  {
    CollectEvent(head, kept + next, events, g, limit);
    assert head + (kept + next) == head + kept + next;
  }

  /** Which losses go unnoticed: block j of an event is lost without an error, up to the end of the
      next event, exactly if it was the last one, its segment number was 0, and no other block of
      its event remains to which the next event would not fit. */
  lemma LossUnnoticedIff(parts: seq<seq<Segment>>, events: seq<Event>, part: seq<Segment>, e: Event, j: nat,
                         next: seq<Segment>, f: Event, limit: nat)
    requires PartsOf(parts, events, limit) && Segments(part, e, limit) && j < |part| && Segments(next, f, limit)
    ensures Collect(Flatten(parts) + part[..j] + part[j + 1..] + next, limit).Ok? <==>
            j == |part| - 1 && Wrap(j) == 0 && (j == 0 || e.evtno == f.evtno)
  {
    if j + 1 < |part| {
      LostInsideEvent(parts, events, part, e, j, next, limit);
    } else {
      assert Flatten(parts) + part[..j] + part[j + 1..] + next == Flatten(parts) + part[..j] + next;
      LostLast(parts, events, part, e, next, f, limit);
    }
  }

  /** At the end of a stream, losing the last block leaves an event open, unless it was the only
      block of its event. */
  lemma LostAtEndOfStream(parts: seq<seq<Segment>>, events: seq<Event>, part: seq<Segment>, e: Event, limit: nat)
    requires PartsOf(parts, events, limit) && Segments(part, e, limit)
    ensures var r := Collect(Flatten(parts) + part[..|part| - 1], limit);
            r.Ok? && r.value.done == events && (r.value.open.None? <==> |part| == 1)
  {
    var j := |part| - 1;
    var open := Reached(parts, events, part, e, j, limit);
  }

  // ----- Blocks that come once more

  /** A block that would be taken in its turn. */
  predicate SoundBlock(b: Segment, n: uint32, limit: nat) {
    b.evtno == Some(n) && b.size == |b.payload| <= limit && !b.flush
  }

  /** Block `b` belongs where block i of an event is expected. */
  predicate Fits(b: Segment, n: uint32, e: Event, i: nat) {
    b.segno == Wrap(i) && (i == 0 || n == e.evtno)
  }

  /** The stream with one more block before block i of its last event. */
  function WithExtra(parts: seq<seq<Segment>>, part: seq<Segment>, i: nat, b: Segment): seq<Segment>
    requires i <= |part|
  {
    Flatten(parts) + part[..i] + [b] + part[i..]
  }

  /** An extra block that does not fit is refused, whatever follows. */
  lemma ExtraRefused(parts: seq<seq<Segment>>, events: seq<Event>, part: seq<Segment>, e: Event, i: nat,
                     b: Segment, n: uint32, rest: seq<Segment>, limit: nat)
    requires PartsOf(parts, events, limit) && Segments(part, e, limit) && i < |part|
    requires SoundBlock(b, n, limit) && !Fits(b, n, e, i)
    ensures Collect(WithExtra(parts, part, i, b) + rest, limit) ==
            Err(if b.segno != Wrap(i) then BadSequenceSegno else BadSequenceEvtno)
  {
    var open := Reached(parts, events, part, e, i, limit);
    var before := Flatten(parts) + part[..i];
    RefusedStays(before, Collector(events, open, Wrap(i)), b, part[i..] + rest, limit);
    assert before + [b] + (part[i..] + rest) == WithExtra(parts, part, i, b) + rest;
  }

  /** A sound block with the expected segment number is taken into the open event. */
  lemma Taken(bs: seq<Segment>, s: Collector, i: nat, b: Segment, n: uint32, limit: nat)
    requires Collect(bs, limit) == Ok(s) && s.segno == Wrap(i) == b.segno && SoundBlock(b, n, limit)
    requires s.open.Some? ==> s.open.value.evtno == n
    ensures var e := Extended(s.open, b, n);
            Collect(bs + [b], limit) ==
            Ok(if b.last then Collector(s.done + [e], None, 0) else Collector(s.done, Some(e), Wrap(i + 1)))
  {
    assert (bs + [b])[..|bs|] == bs;
    WrapAdd(i, 1);
  }

  /** The state after an extra block that fits. */
  lemma ExtraTaken(parts: seq<seq<Segment>>, events: seq<Event>, part: seq<Segment>, e: Event, i: nat,
                   b: Segment, n: uint32, limit: nat) returns (f: Event)
    requires PartsOf(parts, events, limit) && Segments(part, e, limit) && i < |part|
    requires SoundBlock(b, n, limit) && Fits(b, n, e, i)
    ensures Collect(Flatten(parts) + part[..i] + [b], limit) ==
            Ok(if b.last then Collector(events + [f], None, 0) else Collector(events, Some(f), Wrap(i + 1)))
  {
    var open := Reached(parts, events, part, e, i, limit);
    f := Extended(open, b, n);
    Taken(Flatten(parts) + part[..i], Collector(events, open, Wrap(i)), i, b, n, limit);
  }

  /** When it fits, the event goes on with the wrong segment number, unless the extra block ended
      an event and number 0 comes next. */
  lemma ExtraBreaksOff(parts: seq<seq<Segment>>, events: seq<Event>, part: seq<Segment>, e: Event, i: nat,
                       b: Segment, n: uint32, rest: seq<Segment>, limit: nat)
    requires PartsOf(parts, events, limit) && Segments(part, e, limit) && i < |part|
    requires SoundBlock(b, n, limit) && Fits(b, n, e, i) && (!b.last || Wrap(i) != 0)
    ensures Collect(WithExtra(parts, part, i, b) + rest, limit) == Err(BadSequenceSegno)
  {
    var f := ExtraTaken(parts, events, part, e, i, b, n, limit);
    var before := Flatten(parts) + part[..i] + [b];
    NextSegnoDiffers(i);
    BlockOf(part, e, i, limit);
    OutOfTurn(before, part[i], part[i + 1..] + rest, limit);
    assert before + [part[i]] + (part[i + 1..] + rest) == WithExtra(parts, part, i, b) + rest;
  }

  /** The blocks of an event from one with number 0 on are those of an event. */
  lemma EventFrom(part: seq<Segment>, e: Event, i: nat, limit: nat) returns (f: Event)
    requires Segments(part, e, limit) && i < |part| && Wrap(i) == 0
    ensures Segments(part[i..], f, limit)
  {
    var bs := part[i..];
    f := Event(e.evtno, Payload(bs), AnySlink(bs), AnyFed(bs));
    forall k | 0 <= k < |bs|
      ensures bs[k].segno == Wrap(k)
    {
      BlockOf(part, e, i + k, limit);
      WrapAdd(i, k);
    }
  }

  /** Otherwise the extra block ends one event, and the blocks after it make another. */
  lemma ExtraAccepted(parts: seq<seq<Segment>>, events: seq<Event>, part: seq<Segment>, e: Event, i: nat,
                      b: Segment, n: uint32, limit: nat) returns (f: Event, g: Event)
    requires PartsOf(parts, events, limit) && Segments(part, e, limit) && i < |part|
    requires SoundBlock(b, n, limit) && Fits(b, n, e, i) && b.last && Wrap(i) == 0
    ensures Collect(WithExtra(parts, part, i, b), limit) == Ok(Collector(events + [f] + [g], None, 0))
  {
    f := ExtraTaken(parts, events, part, e, i, b, n, limit);
    g := EventFrom(part, e, i, limit);
    CollectEvent(Flatten(parts) + part[..i] + [b], part[i..], events + [f], g, limit);
  }

  /** Which extra blocks go unnoticed: one sound block of any origin, before block i of any event,
      is collected without an error up to the end of that event exactly if it is the last one of
      its own event, its number and that of block i are 0, and the event has either not begun or
      has the same number. */
  lemma ExtraUnnoticedIff(parts: seq<seq<Segment>>, events: seq<Event>, part: seq<Segment>, e: Event, i: nat,
                          b: Segment, n: uint32, limit: nat)
    requires PartsOf(parts, events, limit) && Segments(part, e, limit) && i < |part| && SoundBlock(b, n, limit)
    ensures Collect(WithExtra(parts, part, i, b), limit).Ok? <==>
            b.last && b.segno == 0 && Wrap(i) == 0 && (i == 0 || n == e.evtno)
  {
    var all := WithExtra(parts, part, i, b);
    assert all + [] == all;
    if !Fits(b, n, e, i) {
      ExtraRefused(parts, events, part, e, i, b, n, [], limit);
    } else if !b.last || Wrap(i) != 0 {
      ExtraBreaksOff(parts, events, part, e, i, b, n, [], limit);
    } else {
      var f, g := ExtraAccepted(parts, events, part, e, i, b, n, limit);
    }
  }

  /** Which repetitions go unnoticed: block j of any event that came before, once more before
      block i of a later event, is collected without an error up to the end of that event exactly
      if it was the last one of its event, its number and that of block i are 0, and the later
      event has either not begun or has the same number. */
  lemma RepetitionUnnoticedIff(parts: seq<seq<Segment>>, events: seq<Event>, p: nat, j: nat,
                               part: seq<Segment>, e: Event, i: nat, limit: nat)
    requires PartsOf(parts, events, limit) && p < |parts| && j < |parts[p]|
    requires Segments(part, e, limit) && i < |part|
    ensures Collect(WithExtra(parts, part, i, parts[p][j]), limit).Ok? <==>
            && j == |parts[p]| - 1 && Wrap(j) == 0
            && Wrap(i) == 0 && (i == 0 || events[p].evtno == e.evtno)
  {
    BlockOf(parts[p], events[p], j, limit);
    ExtraUnnoticedIff(parts, events, part, e, i, parts[p][j], events[p].evtno, limit);
  }

  /** A block that comes again before its own event is over is refused, wherever it comes and
      whatever follows. */
  lemma RepeatedInsideEvent(parts: seq<seq<Segment>>, events: seq<Event>, part: seq<Segment>, e: Event, j: nat,
                            i: nat, rest: seq<Segment>, limit: nat)
    requires PartsOf(parts, events, limit) && Segments(part, e, limit) && j < i < |part|
    ensures Collect(WithExtra(parts, part, i, part[j]) + rest, limit) == Err(BadSequenceSegno)
  {
    BlockOf(part, e, j, limit);
    if Wrap(j) != Wrap(i) {
      ExtraRefused(parts, events, part, e, i, part[j], e.evtno, rest, limit);
    } else {
      ExtraBreaksOff(parts, events, part, e, i, part[j], e.evtno, rest, limit);
    }
  }

  /** A block that comes again after the last event: one of another number than 0 is refused, the
      last one of an event makes an event of its own, any other one leaves an event open. */
  lemma RepeatedAtEndOfStream(parts: seq<seq<Segment>>, events: seq<Event>, p: nat, j: nat, limit: nat)
    requires PartsOf(parts, events, limit) && p < |parts| && j < |parts[p]|
    ensures var b, r := parts[p][j], Collect(Flatten(parts) + [parts[p][j]], limit);
            var again := Event(events[p].evtno, b.payload, b.badSlink, b.badFed);
            if Wrap(j) != 0 then r == Err(BadSequenceSegno)
            else if j == |parts[p]| - 1 then r == Ok(Collector(events + [again], None, 0))
            else r == Ok(Collector(events, Some(again), 1))
  {
    CollectParts(parts, events, limit);
    BlockOf(parts[p], events[p], j, limit);
    BetweenEvents(Flatten(parts), events, parts[p][j], events[p].evtno, limit);
  }

  /** Between events, a sound block is taken exactly if its segment number is 0. */
  lemma BetweenEvents(bs: seq<Segment>, events: seq<Event>, b: Segment, n: uint32, limit: nat)
    requires Collect(bs, limit) == Ok(Collector(events, None, 0)) && SoundBlock(b, n, limit)
    ensures var e := Event(n, b.payload, b.badSlink, b.badFed);
            Collect(bs + [b], limit) ==
            if b.segno != 0 then Err(BadSequenceSegno)
            else Ok(if b.last then Collector(events + [e], None, 0) else Collector(events, Some(e), 1))
  {
    if b.segno == 0 {
      Taken(bs, Collector(events, None, 0), 0, b, n, limit);
      assert [] + b.payload == b.payload;
    } else {
      assert (bs + [b])[..|bs|] == bs;
    }
  }

  /** The simplest inputs that fail: the stream without an event of a single block, and the stream
      with that block twice, are collected without an error. */
  lemma SingleBlockEvents(parts: seq<seq<Segment>>, events: seq<Event>, part: seq<Segment>, e: Event, limit: nat)
    requires PartsOf(parts, events, limit) && Segments(part, e, limit) && |part| == 1
    ensures Collect(Flatten(parts) + part[..0], limit) == Ok(Collector(events, None, 0))
    ensures Collect(Flatten(parts) + part + part, limit) == Ok(Collector(events + [e] + [e], None, 0))
  {
    CollectParts(parts, events, limit);
    assert Flatten(parts) + part[..0] == Flatten(parts);
    CollectEvent(Flatten(parts), part, events, e, limit);
    CollectEvent(Flatten(parts) + part, part, events + [e], e, limit);
  }
}
