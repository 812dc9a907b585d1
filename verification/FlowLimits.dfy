/** When a flow works: the exact windows, array sizes and lives of messages for which every run
    is safe and can always go on, with the failing runs for all others. */
module FlowLimits {
  import opened SerialNumbers
  import opened SlotArray
  import opened Wrappers
  import opened Flow

  // ----- Rounds between quiet states

  /** Everything is delivered and acknowledged. */
  ghost predicate Quiet<D>(c: Setup, w: World<D>) {
    && WellSized(c, w)
    && w.delivered == w.sent && w.acked == |w.sent|
    && w.snd.lo == Wrap(|w.sent|) && w.snd.hi == Wrap(|w.sent|) && w.rcv.expected == Wrap(|w.sent|)
  }

  /** The buffer whose counter comes last in the window of a quiet state. */
  function LastBuffer<D>(c: Setup, w: World<D>): nat
    requires c.window > 0
  {
    Slot(c.bufs, Wrap(|w.sent| + c.window - 1))
  }

  /** `w'` comes after `w`: more was sent, and the network has forgotten nothing. */
  ghost predicate Later<D>(w: World<D>, w': World<D>) {
    w.sent <= w'.sent && w.packets <= w'.packets && w.acks <= w'.acks
  }

  /** An item is sent, arrives and can be delivered, whatever else the buffers hold. */
  lemma Transfer<D>(c: Setup, w: World<D>, d: D) returns (steps: seq<Step<D>>)
    requires UsableWindow(c) && Quiet(c, w)
    ensures var n, w' := |w.sent|, Run(c, w, steps);
            && w'.sent == w.sent + [d] && w'.delivered == w'.sent && w'.acked == n
            && w'.snd.lo == Wrap(n) && w'.snd.hi == Wrap(n + 1)
            && w'.rcv == Receiver(Wrap(n + 1), w.rcv.bufs[Slot(c.bufs, Wrap(n)) := None])
            && w'.packets == w.packets + {Packet(n, d)} && w'.acks == w.acks
  {
    var n := |w.sent|;
    var p := Packet(n, d);
    steps := [Send(d), PacketArrives(p), Deliver];
    RunThree(c, w, steps[0], steps[1], steps[2]);
    RoomInWindow(c.window, n, n);
    WrapAdd(n, c.window);
    WrapAdd(n, 1);
    NearWindow(c.window, n, n, n + c.window);
  }

  /** One item from quiet to quiet; its packet stays on the network. */
  lemma Round<D>(c: Setup, w: World<D>, d: D) returns (steps: seq<Step<D>>)
    requires UsableWindow(c) && Quiet(c, w)
    ensures var n, w' := |w.sent|, Run(c, w, steps);
            && Quiet(c, w') && Later(w, w') && w'.sent == w.sent + [d] && Packet(n, d) in w'.packets
            && w'.rcv.bufs == w.rcv.bufs[Slot(c.bufs, Wrap(n)) := None]
  {
    var n := |w.sent|;
    var there := Transfer(c, w, d);
    var back := [SendAck, AckArrives(n + 1)];
    RunTwo(c, Run(c, w, there), SendAck, AckArrives(n + 1));
    AckIsExact(c.window, n + 1, n, n + 1);
    RunConcat(c, w, there, back);
    steps := there + back;
  }

  /** Any number of rounds; fewer than the window leave its last buffer alone. */
  lemma {:induction false} Rounds<D>(c: Setup, w: World<D>, count: nat, d: D) returns (steps: seq<Step<D>>)
    requires UsableWindow(c) && SoundArrays(c) && Quiet(c, w)
    ensures var w' := Run(c, w, steps);
            && Quiet(c, w') && Later(w, w') && |w'.sent| == |w.sent| + count
            && (count < c.window ==> w'.rcv.bufs[LastBuffer(c, w)] == w.rcv.bufs[LastBuffer(c, w)])
    decreases count
  {
    if count == 0 {
      steps := [];
    } else {
      var before := Rounds(c, w, count - 1, d);
      var w1 := Run(c, w, before);
      var last := Round(c, w1, d);
      RunConcat(c, w, before, last);
      steps := before + last;
      if count < c.window {
        SlotsDiffer(c.bufs, c.window, |w1.sent|, |w.sent| + c.window - 1);
      }
    }
  }

  // ----- A packet that lives too long

  /** A packet one send older than the longest life lands in the last buffer of the window. */
  lemma StaleLands<D>(c: Setup, w: World<D>, p: Packet<D>)
    requires UsableWindow(c) && Quiet(c, w) && p in w.packets && PacketAlive(c, w, p.number)
    requires |w.sent| == p.number + 1 + MODULUS - c.window
    ensures var w' := Apply(c, w, PacketArrives(p));
            Quiet(c, w') && w'.sent == w.sent && w'.rcv.bufs[LastBuffer(c, w)] == Some(p.data)
  {
    var k, e := p.number, |w.sent|;
    WrapAdd(e, c.window);
    InWindowIsExact(k, e, c.window);
    WrapTurns(k - e, 1);
    WrapNear(c.window - 1);
    WrapTurns(k, 1);
  }

  /** With such a packet already in the buffer that comes next, it is delivered as the next item. */
  lemma WrongDelivery<D>(c: Setup, w: World<D>, x: D, y: D)
    requires UsableWindow(c) && Quiet(c, w) && w.rcv.bufs[Slot(c.bufs, Wrap(|w.sent|))] == Some(x)
    ensures var w' := Run(c, w, [Send(y), Deliver]);
            w'.delivered == w.sent + [x] && w'.sent == w.sent + [y]
  {
    RunTwo(c, w, Send(y), Deliver);
    RoomInWindow(c.window, |w.sent|, |w.sent|);
  }

  /** From a quiet state with a stale packet in the last buffer of the window, the rounds of a
      window but for one make its buffer the next one. */
  lemma StaleDelivered<D>(c: Setup, w: World<D>, x: D, y: D) returns (steps: seq<Step<D>>)
    requires UsableWindow(c) && SoundArrays(c) && Quiet(c, w) && w.rcv.bufs[LastBuffer(c, w)] == Some(x)
    ensures var w' := Run(c, w, steps);
            w'.sent != [] && w'.delivered == w'.sent[..|w'.sent| - 1] + [x] && w'.sent[|w'.sent| - 1] == y
  {
    var rounds := Rounds(c, w, c.window - 1, y);
    WrongDelivery(c, Run(c, w, rounds), x, y);
    steps := rounds + [Send(y), Deliver];
    RunConcat(c, w, rounds, [Send(y), Deliver]);
  }

  /** Such a packet can be brought about from every start. */
  lemma StaleOnNetwork<D>(c: Setup, past: seq<D>, x: D, y: D) returns (steps: seq<Step<D>>)
    requires UsableWindow(c) && SoundArrays(c)
    ensures var w := Run(c, Initial(c, past), steps);
            Quiet(c, w) && Packet(|past|, x) in w.packets && |w.sent| == |past| + 1 + MODULUS - c.window
  {
    var w0 := Initial(c, past);
    var one := Round(c, w0, x);
    var many := Rounds(c, Run(c, w0, one), MODULUS - c.window, y);
    RunConcat(c, w0, one, many);
    steps := one + many;
  }

  /** If packets live any longer, then from every start some run delivers what was not sent. */
  lemma PacketsLiveTooLong<D>(c: Setup, past: seq<D>, x: D, y: D) returns (steps: seq<Step<D>>)
    requires UsableWindow(c) && SoundArrays(c) && c.packetLife > MODULUS - c.window - 1 && x != y
    ensures var w := Run(c, Initial(c, past), steps); !(w.delivered <= w.sent)
  {
    var w0, p := Initial(c, past), Packet(|past|, x);
    var first := StaleOnNetwork(c, past, x, y);
    var w1 := Run(c, w0, first);
    StaleLands(c, w1, p);
    RunOne(c, w1, PacketArrives(p));
    var wrong := StaleDelivered(c, Apply(c, w1, PacketArrives(p)), x, y);
    RunConcat(c, w1, [PacketArrives(p)], wrong);
    RunConcat(c, w0, first, [PacketArrives(p)] + wrong);
    steps := first + ([PacketArrives(p)] + wrong);
    var w := Run(c, w0, steps);
    assert w.delivered[|w.sent| - 1] == x && w.sent[|w.sent| - 1] == y;
  }

  // ----- An acknowledgement that lives too long

  lemma StaleAckNumbers(a: nat, n: nat)
    requires n == a + MODULUS - 1
    ensures InWindow(Wrap(Wrap(a) - 1), Wrap(n), Wrap(n + 1))
    ensures !InWindow(Wrap(n), Wrap(a), Wrap(n + 1))
  {
    WrapAdd(a, -1);
    InWindowIsExact(a - 1, n, 1);
    WrapTurns(a - 1 - n, 1);
    WrapTurns(a, 1);
    InWindowIsExact(n, a, 0);
  }

  /** An acknowledgement from exactly one turn ago looks like one for the item just sent. */
  lemma StaleAckTaken<D>(c: Setup, w: World<D>, a: nat, d: D)
    requires UsableWindow(c) && Quiet(c, w) && a in w.acks && |w.sent| == a + MODULUS - 1 && c.ackLife >= MODULUS
    ensures var w', k := Run(c, w, [Send(d), AckArrives(a)]), |w.sent|;
            Outstanding(w', k) && w'.snd.Held(Wrap(k)) == None
  {
    var n := |w.sent|;
    RunTwo(c, w, Send(d), AckArrives(a));
    RoomInWindow(c.window, n, n);
    WrapAdd(n, 1);
    StaleAckNumbers(a, n);
  }

  /** If acknowledgements live any longer, then from every start some run makes the sender give
      up an item that was never acknowledged. */
  lemma AcksLiveTooLong<D>(c: Setup, past: seq<D>, d: D) returns (steps: seq<Step<D>>)
    requires UsableWindow(c) && SoundArrays(c) && c.ackLife > MODULUS - 1
    ensures var w, k := Run(c, Initial(c, past), steps), |past| + MODULUS - 1;
            Outstanding(w, k) && w.snd.Held(Wrap(k)) == None
  {
    var w0 := Initial(c, past);
    RunOne(c, w0, SendAck);
    var w1 := Apply(c, w0, SendAck);
    var many := Rounds(c, w1, MODULUS - 1, d);
    var end := [Send(d), AckArrives(|past|)];
    assert |past| in w1.acks;
    StaleAckTaken(c, Run(c, w1, many), |past|, d);
    RunConcat(c, w1, many, end);
    RunConcat(c, w0, [SendAck], many + end);
    steps := [SendAck] + (many + end);
  }

  // ----- Arrays that are too small

  function Copies<D>(count: nat, d: D): (s: seq<D>)
    ensures |s| == count && forall i :: 0 <= i < count ==> s[i] == d
  {
    seq(count, _ => d)
  }

  /** The sender can always fill the window, up to any number of items. */
  lemma {:induction false} FillWindow<D>(c: Setup, past: seq<D>, count: nat, d: D) returns (steps: seq<Step<D>>)
    requires UsableWindow(c) && count <= c.window
    ensures var w := Run(c, Initial(c, past), steps);
            && w.sent == past + Copies(count, d) && w.delivered == past && w.acked == |past|
            && w.snd.lo == Wrap(|past|) && w.snd.hi == Wrap(|past| + count) && w.rcv == Initial(c, past).rcv
            && (SoundArrays(c) ==> Inv(c, w))
    decreases count
  {
    if count == 0 {
      steps := [];
      InitialInv(c, past);
    } else {
      var before := FillWindow(c, past, count - 1, d);
      SendOneMore(c, Run(c, Initial(c, past), before), d);
      RunConcat(c, Initial(c, past), before, [Send(d)]);
      steps := before + [Send(d)];
      assert past + Copies(count - 1, d) + [d] == past + Copies(count, d);
    }
  }

  lemma SendOneMore<D>(c: Setup, w: World<D>, d: D)
    requires UsableWindow(c) && WellSized(c, w) && w.acked <= |w.sent| < w.acked + c.window
    requires w.snd.lo == Wrap(w.acked) && w.snd.hi == Wrap(|w.sent|)
    ensures var w' := Run(c, w, [Send(d)]);
            && w'.sent == w.sent + [d] && w'.delivered == w.delivered && w'.acked == w.acked
            && w'.snd.lo == w.snd.lo && w'.snd.hi == Wrap(|w.sent| + 1) && w'.rcv == w.rcv
            && (SoundArrays(c) && Inv(c, w) ==> Inv(c, w'))
  {
    RoomInWindow(c.window, w.acked, |w.sent|);
    WrapAdd(|w.sent|, 1);
    RunOne(c, w, Send(d));
    if SoundArrays(c) && Inv(c, w) { SendInv(c, w, d); }
  }

  /** The items `x` of all counters from `a` to below `b` outstanding, an item `y` is sent. */
  lemma SendOver<D>(c: Setup, a: nat, b: nat, x: D, y: D) returns (steps: seq<Step<D>>)
    requires UsableWindow(c) && a < b < a + c.window
    ensures var w := Run(c, Initial(c, Copies(a, x)), steps);
            && w.sent == Copies(b, x) + [y] && w.delivered == Copies(a, x) && w.acked == a
            && w.snd.lo == Wrap(a) && w.snd.hi == Wrap(b + 1)
            && w.snd.slots[Slot(c.slots, Wrap(b))] == Some(y)
            && w.rcv == Receiver(Wrap(a), EmptySlots(c.bufs)) && Packet(b, y) in w.packets
  {
    var w0 := Initial(c, Copies(a, x));
    var fill := FillWindow(c, Copies(a, x), b - a, x);
    var w := Run(c, w0, fill);
    assert Copies(a, x) + Copies(b - a, x) == Copies(b, x);
    RoomInWindow(c.window, a, b);
    WrapAdd(b, 1);
    RunOne(c, w, Send(y));
    RunConcat(c, w0, fill, [Send(y)]);
    steps := fill + [Send(y)];
  }

  /** If the map array cannot serve the window, some run overwrites an outstanding item. */
  lemma SlotsTooFew<D>(c: Setup, x: D, y: D) returns (past: seq<D>, steps: seq<Step<D>>)
    requires UsableWindow(c) && c.window > LargestWindow(c.slots) && x != y
    ensures var w, k := Run(c, Initial(c, past), steps), |past|;
            Outstanding(w, k) && w.snd.Held(Wrap(k)) != Some(w.sent[k])
  {
    var a, b := Clash(c.slots);
    past := Copies(a, x);
    steps := SendOver(c, a, b, x, y);
    NearWindow(c.window, a, a, b + 1);
  }

  /** If the receive buffers cannot serve the window, some run delivers a later item first. */
  lemma BuffersTooFew<D>(c: Setup, x: D, y: D) returns (past: seq<D>, steps: seq<Step<D>>)
    requires UsableWindow(c) && c.window > LargestWindow(c.bufs) && x != y
    ensures var w := Run(c, Initial(c, past), steps); !(w.delivered <= w.sent)
  {
    var a, b := Clash(c.bufs);
    past := Copies(a, x);
    var first := SendOver(c, a, b, x, y);
    var w := Run(c, Initial(c, past), first);
    var arrive := PacketArrives(Packet(b, y));
    WrapAdd(a, c.window);
    NearWindow(c.window, b, a, a + c.window);
    RunTwo(c, w, arrive, Deliver);
    RunConcat(c, Initial(c, past), first, [arrive, Deliver]);
    steps := first + [arrive, Deliver];
    var w' := Run(c, Initial(c, past), steps);
    assert w'.delivered[a] == y && w'.sent[a] == x;
  }

  // ----- A window that cannot be used

  /** With nothing outstanding, the macro test lets an item be sent exactly for these windows. */
  lemma UsableIff(h: uint32, window: uint32)
    ensures SeqLt(h, Wrap(h + window)) <==> 0 < window <= HALF
  {
    assert Wrap(h) == h;
    WrapSub(h, h + window);
    WrapNear(0 - window);
  }

  /** Nothing has been sent since the start. */
  ghost predicate Idle<D>(c: Setup, w: World<D>, past: seq<D>) {
    w == Initial(c, past).(acks := w.acks) && forall k :: k in w.acks ==> k == |past|
  }

  /** Any other window is never used at all. */
  lemma {:induction false} IdleRun<D>(c: Setup, w: World<D>, past: seq<D>, steps: seq<Step<D>>)
    requires !UsableWindow(c) && Idle(c, w, past)
    ensures Idle(c, Run(c, w, steps), past) && !Run(c, w, steps).snd.CanSend(c.window)
    decreases |steps|
  {
    UsableIff(Wrap(|past|), c.window);
    if steps == [] {
    } else {
      IdleStep(c, w, past, steps[0]);
      IdleRun(c, Apply(c, w, steps[0]), past, steps[1..]);
    }
  }

  lemma IdleStep<D>(c: Setup, w: World<D>, past: seq<D>, step: Step<D>)
    requires !UsableWindow(c) && Idle(c, w, past)
    ensures Idle(c, Apply(c, w, step), past)
  {
    var h := Wrap(|past|);
    UsableIff(h, c.window);
    forall s: uint32
      ensures !InWindow(s, h, h)
    {
      MacroAlgebra(s, h);
    }
  }

  lemma IdleIsSafe<D>(c: Setup, w: World<D>, past: seq<D>)
    requires Idle(c, w, past)
    ensures Safe(c, w)
  {
    forall s: uint32
      ensures !InWindow(s, Wrap(|past|), Wrap(|past|))
    {
      MacroAlgebra(s, Wrap(|past|));
    }
  }

  // ----- Packets that do not live long enough

  /** The window is full and its oldest item has not arrived. */
  ghost predicate Stuck<D>(c: Setup, w: World<D>, past: seq<D>) {
    && Inv(c, w)
    && w.delivered == past && w.acked == |past| && |w.sent| == |past| + c.window
    && w.rcv.bufs[Slot(c.bufs, Wrap(|past|))] == None
  }

  /** If packets die before the window can be full, that item can never arrive again. */
  lemma StuckStep<D>(c: Setup, w: World<D>, past: seq<D>, step: Step<D>)
    requires Sound(c) && !LongEnough(c) && Stuck(c, w, past)
    ensures Stuck(c, Apply(c, w, step), past)
  {
    StepInv(c, w, step);
    match step
    case Send(_) => CanSendIffRoom(c, w);
    case Resend(_) =>
    case PacketArrives(p) =>
      if p in w.packets && PacketAlive(c, w, p.number) {
        SlotsDiffer(c.bufs, c.window, p.number, |past|);
      }
    case Deliver =>
    case SendAck =>
    case AckArrives(k) =>
  }

  lemma {:induction false} StuckRun<D>(c: Setup, w: World<D>, past: seq<D>, steps: seq<Step<D>>)
    requires Sound(c) && !LongEnough(c) && Stuck(c, w, past)
    ensures Stuck(c, Run(c, w, steps), past)
    decreases |steps|
  {
    if steps == [] {
    } else {
      StuckStep(c, w, past, steps[0]);
      StuckRun(c, Apply(c, w, steps[0]), past, steps[1..]);
    }
  }

  // ----- The exact conditions

  /** For every usable window, all runs from all starts are safe exactly if the window is
      compatible with both arrays and no message outlives its time. (`x` and `y` are two items
      that can be told apart. A window that is not usable is safe, but nothing is ever sent.) */
  lemma SafeIff<D(!new)>(c: Setup, x: D, y: D)
    requires x != y
    ensures (forall past: seq<D>, steps: seq<Step<D>> :: Safe(c, Run(c, Initial(c, past), steps))) <==>
            UsableWindow(c) ==> SoundArrays(c) && SoundLives(c)
  {
    if !UsableWindow(c) {
      forall past: seq<D>, steps: seq<Step<D>>
        ensures Safe(c, Run(c, Initial(c, past), steps))
      {
        IdleRun(c, Initial(c, past), past, steps);
        IdleIsSafe(c, Run(c, Initial(c, past), steps), past);
      }
    } else if Sound(c) {
      forall past: seq<D>, steps: seq<Step<D>>
        ensures Safe(c, Run(c, Initial(c, past), steps))
      {
        WindowIsSafe(c, past, steps);
      }
    } else {
      var past, steps := UnsafeRun(c, x, y);
    }
  }

  /** For every other set-up, an unsafe run. */
  lemma UnsafeRun<D>(c: Setup, x: D, y: D) returns (past: seq<D>, steps: seq<Step<D>>)
    requires UsableWindow(c) && !Sound(c) && x != y
    ensures !Safe(c, Run(c, Initial(c, past), steps))
  {
    if c.window > LargestWindow(c.slots) {
      past, steps := SlotsTooFew(c, x, y);
    } else if c.window > LargestWindow(c.bufs) {
      past, steps := BuffersTooFew(c, x, y);
    } else {
      past := [];
      if c.packetLife > MODULUS - c.window - 1 {
        steps := PacketsLiveTooLong(c, past, x, y);
      } else {
        steps := AcksLiveTooLong(c, past, x);
      }
    }
  }

  /** A safe state from which everything sent can still be delivered and acknowledged, and then
      more be sent. */
  ghost predicate Works<D(!new)>(c: Setup, w: World<D>)
    requires WellSized(c, w)
  {
    Safe(c, w) && exists steps: seq<Step<D>> :: Completes(c, w, steps)
  }

  ghost predicate Completes<D>(c: Setup, w: World<D>, steps: seq<Step<D>>)
    requires WellSized(c, w)
  {
    var w' := Run(c, w, steps);
    Drained(w, w') && w'.snd.CanSend(c.window)
  }

  /** The flow works, in all runs from all starts, for exactly these set-ups: a window of 1 to
      2^31, compatible with both arrays; acknowledgements that live for at most 2^32 - 1 items;
      and packets that live for at most 2^32 - 1 less the window, and long enough for the oldest
      item of a full window to arrive. */
  lemma FlowWorksIff<D(!new)>(c: Setup, x: D, y: D)
    requires x != y
    ensures (forall past: seq<D>, steps: seq<Step<D>> :: Works(c, Run(c, Initial(c, past), steps))) <==>
            Sound(c) && LongEnough(c)
  {
    if !UsableWindow(c) {
      NeverSends<D>(c);
    } else if !Sound(c) {
      var past, steps := UnsafeRun(c, x, y);
    } else if !LongEnough(c) {
      NeverCompletes(c, x);
    } else {
      forall past: seq<D>, steps: seq<Step<D>>
        ensures Works(c, Run(c, Initial(c, past), steps))
      {
        var w := Run(c, Initial(c, past), steps);
        WindowIsSafe(c, past, steps);
        InitialInv(c, past);
        RunInv(c, Initial(c, past), steps);
        var more := FlowCanAlwaysDrain(c, w);
        assert Completes(c, w, more);
      }
    }
  }

  lemma NeverSends<D(!new)>(c: Setup)
    requires !UsableWindow(c)
    ensures !Works(c, Run<D>(c, Initial(c, []), []))
  {
    var w := Run<D>(c, Initial(c, []), []);
    forall more: seq<Step<D>>
      ensures !Completes(c, w, more)
    {
      IdleRun(c, w, [], more);
    }
  }

  lemma NeverCompletes<D(!new)>(c: Setup, x: D)
    requires Sound(c) && !LongEnough(c)
    ensures exists steps: seq<Step<D>> :: !Works(c, Run(c, Initial(c, []), steps))
  {
    var steps := FillWindow(c, [], c.window, x);
    var w := Run(c, Initial(c, []), steps);
    forall more: seq<Step<D>>
      ensures !Completes(c, w, more)
    {
      StuckRun(c, w, [], more);
    }
    assert !Works(c, w);
  }

  /** The declared window of 8, with 8 slots and 8 buffers, works for all lives of packets from 7
      to 2^32 - 9 items and of acknowledgements up to 2^32 - 1; with 12 slots it never does. */
  lemma DeclaredWindow<D(!new)>(c: Setup, x: D, y: D)
    requires x != y && c.window == SEQ_WINDOW && c.bufs == SEQ_WINDOW
    ensures c.slots == SEQ_WINDOW ==>
              ((forall past: seq<D>, steps: seq<Step<D>> :: Works(c, Run(c, Initial(c, past), steps))) <==>
               7 <= c.packetLife <= 0xFFFF_FFF7 && c.ackLife <= 0xFFFF_FFFF)
    ensures c.slots == 12 ==>
              !(forall past: seq<D>, steps: seq<Step<D>> :: Works(c, Run(c, Initial(c, past), steps)))
  {
    FlowWorksIff(c, x, y);
  }
}
