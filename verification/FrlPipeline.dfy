/** Re-blocking as blocks come in: full output segments leave at once, and only what does not
    fill one is held back. The result is that of re-blocking the whole stream. */
module FrlPipeline {
  import opened Bits
  import opened SerialNumbers
  import opened Wrappers
  import opened FrlHeader
  import opened FrlStream
  import opened FrlReblock

  /** The segments of an unfinished event that can leave: all full ones, except that a last full
      one stays until it is known whether more follows, for it may be the last segment. */
  function FullOnes(evtno: uint32, p: seq<Byte>, i: nat, size: nat): seq<Segment>
    requires size > 0
    decreases |p|
  {
    if |p| <= size then [] else [FullSegment(evtno, i, p[..size])] + FullOnes(evtno, p[size..], i + 1, size)
  }

  function HeldBack(p: seq<Byte>, size: nat): (q: seq<Byte>)
    requires size > 0
    ensures |q| <= size
    decreases |p|
  {
    if |p| <= size then p else HeldBack(p[size..], size)
  }

  /** A collector that keeps no finished events and only the held-back payload of the open one,
      and the number of segments already sent for it. */
  datatype Pipeline = Pipeline(collector: Collector, sent: nat)

  datatype Passed = Passed(pipe: Pipeline, out: seq<Segment>)

  function Pass(pipe: Pipeline, b: Segment, limit: nat, size: nat): Result<Passed, Error>
    requires size > 0
  {
    match Feed(pipe.collector, b, limit)
    case Err(error) => Err(error)
    case Ok(s) =>
      if s.done != [] then
        var e := s.done[|s.done| - 1];
        Ok(Passed(Pipeline(Collector([], None, 0), 0), Cut(e, e.payload, pipe.sent, size)))
      else if s.open.Some? then
        var e := s.open.value;
        var out := FullOnes(e.evtno, e.payload, pipe.sent, size);
        Ok(Passed(Pipeline(s.(open := Some(e.(payload := HeldBack(e.payload, size)))), pipe.sent + |out|), out))
      else Ok(Passed(pipe, []))
  }

  function PassAll(bs: seq<Segment>, limit: nat, size: nat): Result<Passed, Error>
    requires size > 0
  {
    if bs == [] then Ok(Passed(Pipeline(Collector([], None, 0), 0), []))
    else
      match PassAll(bs[..|bs| - 1], limit, size)
      case Err(error) => Err(error)
      case Ok(before) =>
        match Pass(before.pipe, bs[|bs| - 1], limit, size)
        case Err(error) => Err(error)
        case Ok(after) => Ok(Passed(after.pipe, before.out + after.out))
  }

  // ----- Refinement of the whole-stream form

  lemma {:induction false} CutSplits(e: Event, p: seq<Byte>, q: seq<Byte>, i: nat, size: nat)
    requires size > 0
    ensures var full := FullOnes(e.evtno, p, i, size);
            Cut(e, p + q, i, size) == full + Cut(e, HeldBack(p, size) + q, i + |full|, size)
    decreases |p|
  {
    if |p| <= size {
    } else {
      assert (p + q)[..size] == p[..size] && (p + q)[size..] == p[size..] + q;
      CutSplits(e, p[size..], q, i + 1, size);
    }
  }

  /** The payload recorded in the event plays no part in cutting the rest of it. */
  lemma {:induction false} CutIgnoresPayload(e: Event, payload: seq<Byte>, rest: seq<Byte>, i: nat, size: nat)
    requires size > 0
    ensures Cut(e.(payload := payload), rest, i, size) == Cut(e, rest, i, size)
    decreases |rest|
  {
    if |rest| <= size {
    } else {
      CutIgnoresPayload(e, payload, rest[size..], i + 1, size);
    }
  }

  lemma {:induction false} FullOnesSplits(evtno: uint32, p: seq<Byte>, q: seq<Byte>, i: nat, size: nat)
    requires size > 0
    ensures var full := FullOnes(evtno, p, i, size);
            FullOnes(evtno, p + q, i, size) == full + FullOnes(evtno, HeldBack(p, size) + q, i + |full|, size)
    decreases |p|
  {
    if |p| <= size {
    } else {
      var p' := p[size..];
      assert (p + q)[..size] == p[..size] && (p + q)[size..] == p' + q;
      FullOnesSplits(evtno, p', q, i + 1, size);
    }
  }

  lemma {:induction false} HeldBackSplits(p: seq<Byte>, q: seq<Byte>, size: nat)
    requires size > 0
    ensures HeldBack(p + q, size) == HeldBack(HeldBack(p, size) + q, size)
    decreases |p|
  {
    if |p| <= size {
    } else {
      assert (p + q)[size..] == p[size..] + q;
      HeldBackSplits(p[size..], q, size);
    }
  }

  /** What has left for the open event. */
  function SentOf(open: Option<Event>, size: nat): seq<Segment>
    requires size > 0
  {
    match open
    case None => []
    case Some(e) => FullOnes(e.evtno, e.payload, 0, size)
  }

  /** The pipeline after collecting to state `s`. */
  function PipelineOf(s: Collector, size: nat): Pipeline
    requires size > 0
  {
    match s.open
    case None => Pipeline(Collector([], None, s.segno), 0)
    case Some(e) =>
      Pipeline(Collector([], Some(e.(payload := HeldBack(e.payload, size))), s.segno), |SentOf(s.open, size)|)
  }

  function PassedOf(s: Collector, size: nat): Passed
    requires size > 0
  {
    Passed(PipelineOf(s, size), Flatten(CutAll(s.done, size)) + SentOf(s.open, size))
  }

  /** At every point of every stream the pipeline refuses exactly what collecting refuses, with
      the same error; otherwise it has sent the segments of all finished events and the full ones
      of the open event, and holds back at most one block. */
  lemma {:induction false} PipelineRefines(bs: seq<Segment>, limit: nat, size: nat)
    requires size > 0
    ensures match Collect(bs, limit)
            case Err(error) => PassAll(bs, limit, size) == Err(error)
            case Ok(s) => PassAll(bs, limit, size) == Ok(PassedOf(s, size))
    ensures match PassAll(bs, limit, size)
            case Err(_) => true
            case Ok(p) => p.pipe.collector.open.Some? ==> |p.pipe.collector.open.value.payload| <= size
  {
    if bs != [] {
      var pre, b := bs[..|bs| - 1], bs[|bs| - 1];
      PipelineRefines(pre, limit, size);
      if Collect(pre, limit).Ok? {
        var s := Collect(pre, limit).value;
        IdleAtZero(pre, limit);
        PassRefines(s, b, limit, size);
      }
    } else {
      assert PassedOf(Collector([], None, 0), size).out == [];
    }
  }

  /** The last block of an event: its remaining segments leave. */
  lemma LastLeaves(done: seq<Event>, e: Event, p: seq<Byte>, q: seq<Byte>, size: nat)
    requires size > 0 && e.payload == p + q
    ensures var full, held := FullOnes(e.evtno, p, 0, size), HeldBack(p, size) + q;
            Flatten(CutAll(done + [e], size)) ==
            Flatten(CutAll(done, size)) + full + Cut(e.(payload := held), held, |full|, size)
  {
    var full, held := FullOnes(e.evtno, p, 0, size), HeldBack(p, size) + q;
    assert CutEvent(e, size) == full + Cut(e.(payload := held), held, |full|, size) by {
      CutSplits(e, p, q, 0, size);
      CutIgnoresPayload(e, held, held, |full|, size);
    }
    CutAllSnoc(done, e, size);
  }

  lemma CutAllSnoc(done: seq<Event>, e: Event, size: nat)
    requires size > 0
    ensures Flatten(CutAll(done + [e], size)) == Flatten(CutAll(done, size)) + CutEvent(e, size)
  {
    var parts := CutAll(done + [e], size);
    assert parts[..|done|] == CutAll(done, size) && parts[|done|] == CutEvent(e, size);
  }

  /** Feeding the pipeline's collector is feeding the full one, with the payload sent left out. */
  lemma FeedTrimmed(s: Collector, b: Segment, limit: nat, size: nat)
    requires size > 0 && !b.flush && (s.open.None? ==> s.segno == 0)
    ensures var f, f' := Feed(s, b, limit), Feed(PipelineOf(s, size).collector, b, limit);
            match f
            case Err(error) => f' == Err(error)
            case Ok(t) =>
              var n, p := b.evtno.value, PayloadOf(s);
              var e := Extended(s.open, b, n);
              var held := HeldBack(p, size) + b.payload;
              && e.payload == p + b.payload && e.evtno == n
              && t == (if b.last then Collector(s.done + [e], None, 0)
                       else Collector(s.done, Some(e), Wrap(s.segno + 1)))
              && f' == Ok(if b.last then Collector([e.(payload := held)], None, 0)
                          else Collector([], Some(e.(payload := held)), Wrap(s.segno + 1)))
  {
    if Feed(s, b, limit).Ok? {
      var e := Extended(s.open, b, b.evtno.value);
      var e' := e.(payload := HeldBack(PayloadOf(s), size) + b.payload);
      assert Extended(PipelineOf(s, size).collector.open, b, b.evtno.value) == e';
      assert [] + [e'] == [e'];
    }
  }

  function PayloadOf(s: Collector): seq<Byte> { if s.open.Some? then s.open.value.payload else [] }

  ghost predicate Refines(s: Collector, s': Collector, r: Result<Passed, Error>, size: nat)
    requires size > 0
  {
    && r.Ok? && r.value.pipe == PipelineOf(s', size)
    && PassedOf(s', size).out == PassedOf(s, size).out + r.value.out
  }

  lemma PassLast(s: Collector, b: Segment, limit: nat, size: nat)
    requires size > 0 && !b.flush && (s.open.None? ==> s.segno == 0)
    requires Feed(s, b, limit).Ok? && b.last
    ensures Refines(s, Feed(s, b, limit).value, Pass(PipelineOf(s, size), b, limit, size), size)
  {
    FeedTrimmed(s, b, limit, size);
    var n, p := b.evtno.value, PayloadOf(s);
    assert SentOf(s.open, size) == FullOnes(n, p, 0, size);
    LastLeaves(s.done, Extended(s.open, b, n), p, b.payload, size);
  }

  lemma PassMore(s: Collector, b: Segment, limit: nat, size: nat)
    requires size > 0 && !b.flush && (s.open.None? ==> s.segno == 0)
    requires Feed(s, b, limit).Ok? && !b.last
    ensures Refines(s, Feed(s, b, limit).value, Pass(PipelineOf(s, size), b, limit, size), size)
  {
    FeedTrimmed(s, b, limit, size);
    MoreLeaves(s, Extended(s.open, b, b.evtno.value), b.payload, size);
  }

  /** A block inside an event: the segments that become full leave. */
  lemma MoreLeaves(s: Collector, e: Event, q: seq<Byte>, size: nat)
    requires size > 0 && e.payload == PayloadOf(s) + q && (s.open.Some? ==> s.open.value.evtno == e.evtno)
    ensures var held, sent := HeldBack(PayloadOf(s), size) + q, SentOf(s.open, size);
            var out := FullOnes(e.evtno, held, |sent|, size);
            && SentOf(Some(e), size) == sent + out
            && HeldBack(e.payload, size) == HeldBack(held, size)
            && Flatten(CutAll(s.done, size)) + SentOf(Some(e), size) == Flatten(CutAll(s.done, size)) + sent + out
  {
    var p, sent := PayloadOf(s), SentOf(s.open, size);
    assert sent == FullOnes(e.evtno, p, 0, size);
    assert HeldBack(e.payload, size) == HeldBack(HeldBack(p, size) + q, size) by { HeldBackSplits(p, q, size); }
    FullOnesSplits(e.evtno, p, q, 0, size);
    ConcatAssoc(Flatten(CutAll(s.done, size)), sent, FullOnes(e.evtno, HeldBack(p, size) + q, |sent|, size));
  }

  lemma PassRefines(s: Collector, b: Segment, limit: nat, size: nat)
    requires size > 0 && (s.open.None? ==> s.segno == 0)
    ensures match Feed(s, b, limit)
            case Err(error) => Pass(PipelineOf(s, size), b, limit, size) == Err(error)
            case Ok(s') => Refines(s, s', Pass(PipelineOf(s, size), b, limit, size), size)
  {
    if !b.flush {
      if Feed(s, b, limit).Err? {
        FeedTrimmed(s, b, limit, size);
      } else if b.last {
        PassLast(s, b, limit, size);
      } else {
        PassMore(s, b, limit, size);
      }
    }
  }

  /** On a stream of whole events the pipeline sends exactly the re-blocked stream. */
  lemma PipelineIsReblock(bs: seq<Block>, limit: nat, size: nat)
    requires LegalSize(size)
    ensures Reblock(bs, limit, size).Ok? <==>
            PassAll(ReadAll(bs), limit, size).Ok? && PassAll(ReadAll(bs), limit, size).value.pipe.collector.open.None?
    ensures Reblock(bs, limit, size).Ok? ==>
            var out := PassAll(ReadAll(bs), limit, size).value.out;
            Writable(out) && Reblock(bs, limit, size).value == WriteAll(out)
  {
    PipelineRefines(ReadAll(bs), limit, size);
    if Reblock(bs, limit, size).Ok? {
      CutAllParts(Collect(ReadAll(bs), limit).value.done, size);
    }
  }
}
