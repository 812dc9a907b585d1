/** What a flow is meant to do, step by step: the same flow with counters that never wrap, a set
    of the items that have arrived, and no arrays. In every sound set-up the two nodes with their
    32-bit numbers do exactly this. */
module FlowSpec {
  import opened SerialNumbers
  import opened SlotArray
  import opened Wrappers
  import opened Flow

  /** All numbers are true counters; `received` are those that arrived and wait for delivery. */
  datatype Ideal<D(==)> = Ideal(
    acked: nat, sent: seq<D>, delivered: nat, received: set<nat>, packets: set<Packet<D>>, acks: set<nat>)

  function IdealStart<D>(past: seq<D>): Ideal<D> { Ideal(|past|, past, |past|, {}, {}, {}) }

  function IdealStep<D>(c: Setup, s: Ideal<D>, step: Step<D>): Ideal<D> {
    match step
    case Send(d) =>
      if |s.sent| - s.acked >= c.window then s
      else s.(sent := s.sent + [d], packets := s.packets + {Packet(|s.sent|, d)})
    case Resend(i) =>
      if s.acked + i >= |s.sent| then s
      else s.(packets := s.packets + {Packet(s.acked + i, s.sent[s.acked + i])})
    case PacketArrives(p) =>
      if p !in s.packets || p.number + 1 + c.packetLife < |s.sent| || p.number < s.delivered then s
      else s.(received := s.received + {p.number})
    case Deliver =>
      if s.delivered !in s.received then s
      else s.(delivered := s.delivered + 1, received := s.received - {s.delivered})
    case SendAck =>
      s.(acks := s.acks + {s.delivered})
    case AckArrives(k) =>
      if k !in s.acks || k + c.ackLife < |s.sent| || k <= s.acked then s
      else s.(acked := k)
  }

  function IdealRun<D>(c: Setup, s: Ideal<D>, steps: seq<Step<D>>): Ideal<D>
    decreases |steps|
  {
    if steps == [] then s else IdealRun(c, IdealStep(c, s, steps[0]), steps[1..])
  }

  /** A buffer is in use for counter `k` of the receiver's window. */
  predicate Waiting<D>(c: Setup, w: World<D>, k: nat)
    requires WellSized(c, w)
  {
    |w.delivered| <= k < |w.delivered| + c.window && w.rcv.bufs[Slot(c.bufs, Wrap(k))].Some?
  }

  /** The world seen without arrays and wrapped numbers. */
  function IdealOf<D>(c: Setup, w: World<D>): Ideal<D>
    requires WellSized(c, w)
  {
    var e := |w.delivered|;
    Ideal(w.acked, w.sent, e, (set k: nat | e <= k < e + c.window && Waiting(c, w, k)), w.packets, w.acks)
  }

  /** What waits in a buffer of the window is the item of that counter, which was sent. */
  lemma WaitingHolds<D>(c: Setup, w: World<D>, k: nat)
    requires SoundArrays(c) && Inv(c, w) && Waiting(c, w, k)
    ensures k < |w.sent| && w.rcv.bufs[Slot(c.bufs, Wrap(k))] == Some(w.sent[k])
  {
    var j: nat :| BufferHolds(c, w, Slot(c.bufs, Wrap(k)), j);
    if j != k { SlotsDiffer(c.bufs, c.window, j, k); }
  }

  /** Steps of the sender, and acknowledgements, leave the receiver as it is. */
  lemma SameWaiting<D>(c: Setup, w: World<D>, w': World<D>)
    requires WellSized(c, w) && WellSized(c, w') && w'.rcv == w.rcv && w'.delivered == w.delivered
    ensures IdealOf(c, w').received == IdealOf(c, w).received
  {
    forall k: nat
      ensures Waiting(c, w', k) <==> Waiting(c, w, k)
    {
    }
  }

  lemma SendRefines<D>(c: Setup, w: World<D>, d: D)
    requires Sound(c) && Inv(c, w)
    ensures IdealOf(c, Apply(c, w, Send(d))) == IdealStep(c, IdealOf(c, w), Send(d))
  {
    CanSendIffRoom(c, w);
    SameWaiting(c, w, Apply(c, w, Send(d)));
  }

  lemma ResendRefines<D>(c: Setup, w: World<D>, i: nat)
    requires Sound(c) && Inv(c, w)
    ensures IdealOf(c, Apply(c, w, Resend(i))) == IdealStep(c, IdealOf(c, w), Resend(i))
  {
    if w.acked + i < |w.sent| {
      ResendReaches(c, w, i);
    } else if i < c.window {
      HeldAtOffset(c, w, i);
    }
    SameWaiting(c, w, Apply(c, w, Resend(i)));
  }

  /** Of the buffers of the window, an arrival fills that of its own counter. */
  lemma ArrivalWaits<D>(c: Setup, w: World<D>, p: Packet<D>, k: nat)
    requires SoundArrays(c) && WellSized(c, w) && |w.delivered| <= p.number < |w.delivered| + c.window
    requires |w.delivered| <= k < |w.delivered| + c.window
    ensures var i := Slot(c.bufs, Wrap(p.number));
            var w' := w.(rcv := w.rcv.(bufs := w.rcv.bufs[i := Some(p.data)]));
            Waiting(c, w', k) <==> k == p.number || Waiting(c, w, k)
  {
    if k != p.number { SlotsDiffer(c.bufs, c.window, k, p.number); }
  }

  lemma ArrivalRefines<D>(c: Setup, w: World<D>, p: Packet<D>)
    requires Sound(c) && Inv(c, w)
    ensures IdealOf(c, Apply(c, w, PacketArrives(p))) == IdealStep(c, IdealOf(c, w), PacketArrives(p))
  {
    var w' := Apply(c, w, PacketArrives(p));
    if p in w.packets && PacketAlive(c, w, p.number) {
      ArrivalIsExact(c, p.number, |w.delivered|, |w.sent|);
      if |w.delivered| <= p.number {
        forall k: nat | |w.delivered| <= k < |w.delivered| + c.window
          ensures Waiting(c, w', k) <==> k == p.number || Waiting(c, w, k)
        {
          ArrivalWaits(c, w, p, k);
        }
      }
    }
  }

  /** After a delivery the other buffers wait as before, and none for the counter that is new
      in the window. */
  lemma DeliveryWaits<D>(c: Setup, w: World<D>, k: nat)
    requires Sound(c) && Inv(c, w) && w.rcv.Ready() && |w.delivered| < k
    ensures Waiting(c, Apply(c, w, Deliver), k) <==> Waiting(c, w, k)
  {
    var e, w' := |w.delivered|, Apply(c, w, Deliver);
    DeliverTakesNext(c, w);
    if k < e + c.window {
      SlotsDiffer(c.bufs, c.window, e, k);
    } else if Waiting(c, w', k) {
      DeliverInv(c, w);
      WaitingHolds(c, w', k);
    }
  }

  lemma DeliveryRefines<D>(c: Setup, w: World<D>)
    requires Sound(c) && Inv(c, w)
    ensures IdealOf(c, Apply(c, w, Deliver)) == IdealStep(c, IdealOf(c, w), Deliver)
  {
    var e := |w.delivered|;
    assert w.rcv.Ready() <==> Waiting(c, w, e);
    if w.rcv.Ready() {
      DeliverTakesNext(c, w);
      forall k: nat | e < k
        ensures Waiting(c, Apply(c, w, Deliver), k) <==> Waiting(c, w, k)
      {
        DeliveryWaits(c, w, k);
      }
    }
  }

  lemma AckRefines<D>(c: Setup, w: World<D>, k: nat)
    requires Sound(c) && Inv(c, w)
    ensures IdealOf(c, Apply(c, w, AckArrives(k))) == IdealStep(c, IdealOf(c, w), AckArrives(k))
  {
    SameWaiting(c, w, Apply(c, w, AckArrives(k)));
  }

  /** Every step of the nodes is the step of the ideal flow, with the same condition and effect. */
  lemma StepRefines<D>(c: Setup, w: World<D>, step: Step<D>)
    requires Sound(c) && Inv(c, w)
    ensures IdealOf(c, Apply(c, w, step)) == IdealStep(c, IdealOf(c, w), step)
  {
    match step
    case Send(d) => SendRefines(c, w, d);
    case Resend(i) => ResendRefines(c, w, i);
    case PacketArrives(p) => ArrivalRefines(c, w, p);
    case Deliver => DeliveryRefines(c, w);
    case SendAck => SameWaiting(c, w, Apply(c, w, SendAck));
    case AckArrives(k) => AckRefines(c, w, k);
  }

  lemma {:induction false} RunRefines<D>(c: Setup, w: World<D>, steps: seq<Step<D>>)
    requires Sound(c) && Inv(c, w)
    ensures IdealOf(c, Run(c, w, steps)) == IdealRun(c, IdealOf(c, w), steps)
    decreases |steps|
  {
    if steps == [] {
    } else {
      StepRefines(c, w, steps[0]);
      StepInv(c, w, steps[0]);
      RunRefines(c, Apply(c, w, steps[0]), steps[1..]);
    }
  }

  /** The nodes are where the ideal flow is: their numbers are its counters, wrapped; they can send
      and deliver exactly when it can; and their arrays hold its items. */
  ghost predicate Realizes<D>(c: Setup, w: World<D>, s: Ideal<D>)
    requires WellSized(c, w)
  {
    && w.sent == s.sent && s.delivered <= |s.sent| && w.delivered == s.sent[..s.delivered]
    && w.packets == s.packets && w.acks == s.acks
    && w.snd.lo == Wrap(s.acked) && w.snd.hi == Wrap(|s.sent|) && w.rcv.expected == Wrap(s.delivered)
    && (w.snd.CanSend(c.window) <==> |s.sent| - s.acked < c.window)
    && (w.rcv.Ready() <==> s.delivered in s.received)
    && (forall k: nat :: s.acked <= k < |s.sent| ==> w.snd.Held(Wrap(k)) == Some(s.sent[k]))
    && (forall k :: k in s.received ==> k < |s.sent| && w.rcv.bufs[Slot(c.bufs, Wrap(k))] == Some(s.sent[k]))
  }

  lemma InvRealizes<D>(c: Setup, w: World<D>)
    requires Sound(c) && Inv(c, w)
    ensures Realizes(c, w, IdealOf(c, w))
  {
    var s := IdealOf(c, w);
    CanSendIffRoom(c, w);
    InvIsSafe(c, w);
    forall k: nat | s.acked <= k < |s.sent|
      ensures w.snd.Held(Wrap(k)) == Some(s.sent[k])
    {
      assert Outstanding(w, k);
    }
    forall k | k in s.received
      ensures k < |s.sent| && w.rcv.bufs[Slot(c.bufs, Wrap(k))] == Some(s.sent[k])
    {
      WaitingHolds(c, w, k);
    }
    assert w.rcv.Ready() <==> Waiting(c, w, s.delivered);
  }

  /** After every run of a sound set-up, from every start, the two nodes are where the ideal flow is
      after the same run: wrapping loses nothing. */
  lemma FlowIsIdeal<D>(c: Setup, past: seq<D>, steps: seq<Step<D>>)
    requires Sound(c)
    ensures Realizes(c, Run(c, Initial(c, past), steps), IdealRun(c, IdealStart(past), steps))
  {
    var w0 := Initial(c, past);
    InitialInv(c, past);
    RunInv(c, w0, steps);
    RunRefines(c, w0, steps);
    InvRealizes(c, Run(c, w0, steps));
    assert IdealOf(c, w0) == IdealStart(past);
  }

  // ----- What this says of single steps

  /** A live acknowledgement of any part of the window slides it there, and makes that much room. */
  lemma AckSlides<D>(c: Setup, w: World<D>, k: nat)
    requires Sound(c) && Inv(c, w) && k in w.acks && AckAlive(c, w, k)
    ensures var w', a := Apply(c, w, AckArrives(k)), if w.acked < k then k else w.acked;
            && w'.acked == a && w'.snd.lo == Wrap(a) && w'.snd.hi == w.snd.hi
            && (w'.snd.CanSend(c.window) <==> |w.sent| - a < c.window)
  {
    AckInv(c, w, k);
    CanSendIffRoom(c, Apply(c, w, AckArrives(k)));
  }

  /** Any live packet of the window is kept until its turn comes. */
  lemma PacketKept<D>(c: Setup, w: World<D>, p: Packet<D>)
    requires Sound(c) && Inv(c, w) && p in w.packets && PacketAlive(c, w, p.number) && |w.delivered| <= p.number
    ensures Apply(c, w, PacketArrives(p)).rcv.bufs[Slot(c.bufs, Wrap(p.number))] == Some(p.data)
  {
    ArrivalIsExact(c, p.number, |w.delivered|, |w.sent|);
  }
}
