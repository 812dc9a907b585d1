/** The sliding window of a flow. The header fixes the sequence-number type, the comparison
    macros and a window that must be compatible with the map array of the flows and the number
    of receive buffers; the code that runs a flow is not in the repository. The two nodes below
    are a reference implementation written from those constraints. They hold only 32-bit numbers
    and their arrays; the world around them counts without bound, and its network may lose,
    repeat and reorder whatever was sent. */
module Flow {
  import opened SerialNumbers
  import opened SlotArray
  import opened Wrappers

  // ----- The nodes

  /** Entry of an array which a sequence number uses. */
  function Slot(entries: nat, s: uint32): nat
    requires entries > 0
  {
    s % entries
  }

  /** Sending side: oldest number not acknowledged, next number to use, map array. */
  datatype Sender<D> = Sender(lo: uint32, hi: uint32, slots: seq<Option<D>>)
  {
    predicate CanSend(window: uint32) { SeqLt(hi, Wrap(lo + window)) }

    function Post(d: D): Sender<D>
      requires slots != []
    {
      this.(slots := slots[Slot(|slots|, hi) := Some(d)], hi := Wrap(hi + 1))
    }

    /** What the map array holds under a number, for sending it again. */
    function Held(s: uint32): Option<D>
      requires slots != []
    {
      if InWindow(s, lo, hi) then slots[Slot(|slots|, s)] else None
    }

    /** The peer expects number `s` next; everything before it has arrived. */
    function Acknowledge(s: uint32): Sender<D> {
      if InWindow(Wrap(s - 1), lo, hi) then this.(lo := s) else this
    }
  }

  /** Receiving side: next number to deliver, receive buffers. */
  datatype Receiver<D> = Receiver(expected: uint32, bufs: seq<Option<D>>)
  {
    function Accept(window: uint32, s: uint32, d: D): Receiver<D>
      requires bufs != []
    {
      if InWindow(s, expected, Wrap(expected + window)) then this.(bufs := bufs[Slot(|bufs|, s) := Some(d)])
      else this
    }

    predicate Ready()
      requires bufs != []
    {
      bufs[Slot(|bufs|, expected)].Some?
    }

    function Release(): Receiver<D>
      requires bufs != []
    {
      this.(bufs := bufs[Slot(|bufs|, expected) := None], expected := Wrap(expected + 1))
    }
  }

  // ----- The world

  /** How a flow is set up: the window, the sizes of the map array and of the set of receive
      buffers, and how long the network may keep what it was given. Lives are counted in items
      sent after the item of a packet, and after those which an acknowledgement covers. */
  datatype Config = Config(window: uint32, slots: nat, bufs: nat, packetLife: nat, ackLife: nat)

  type Setup = c: Config | c.slots > 0 && c.bufs > 0 witness Config(8, 8, 8, 7, 0)

  const SEQ_WINDOW: uint32 := 8

  datatype Packet<D> = Packet(number: nat, data: D)

  /** The nodes, the unbounded history of the run, and everything ever put on the network. */
  datatype World<D(==)> = World(
    snd: Sender<D>, rcv: Receiver<D>,
    acked: nat, sent: seq<D>, delivered: seq<D>,
    packets: set<Packet<D>>, acks: set<nat>)

  datatype Step<D> =
    | Send(data: D)
    | Resend(offset: nat)
    | PacketArrives(packet: Packet<D>)
    | Deliver
    | SendAck
    | AckArrives(number: nat)

  function EmptySlots<D>(entries: nat): (slots: seq<Option<D>>) { seq(entries, _ => None) }

  /** Both counters start anywhere on the circle: `past` is the history before the start. */
  function Initial<D>(c: Setup, past: seq<D>): World<D> {
    World(Sender(Wrap(|past|), Wrap(|past|), EmptySlots(c.slots)), Receiver(Wrap(|past|), EmptySlots(c.bufs)),
          |past|, past, past, {}, {})
  }

  predicate PacketAlive<D>(c: Setup, w: World<D>, number: nat) { |w.sent| - (number + 1) <= c.packetLife }

  predicate AckAlive<D>(c: Setup, w: World<D>, number: nat) { |w.sent| - number <= c.ackLife }

  predicate WellSized<D>(c: Setup, w: World<D>) { |w.snd.slots| == c.slots && |w.rcv.bufs| == c.bufs }

  /** One step of a run; a step that cannot happen leaves the world as it is. All decisions of
      the nodes are taken from their own 32-bit state and the wrapped number on the message. */
  function Apply<D>(c: Setup, w: World<D>, step: Step<D>): (w': World<D>)
    requires WellSized(c, w)
    ensures WellSized(c, w')
  {
    match step
    case Send(d) =>
      if !w.snd.CanSend(c.window) then w
      else w.(snd := w.snd.Post(d), sent := w.sent + [d], packets := w.packets + {Packet(|w.sent|, d)})
    case Resend(i) =>
      (match w.snd.Held(Wrap(w.snd.lo + i))
       case None => w
       case Some(d) => if i < c.window then w.(packets := w.packets + {Packet(w.acked + i, d)}) else w)
    case PacketArrives(p) =>
      if p !in w.packets || !PacketAlive(c, w, p.number) then w
      else w.(rcv := w.rcv.Accept(c.window, Wrap(p.number), p.data))
    case Deliver =>
      if !w.rcv.Ready() then w
      else
        var d := w.rcv.bufs[Slot(c.bufs, w.rcv.expected)].value;
        w.(delivered := w.delivered + [d], rcv := w.rcv.Release())
    case SendAck =>
      w.(acks := w.acks + {|w.delivered|})
    case AckArrives(k) =>
      if k !in w.acks || !AckAlive(c, w, k) then w
      else w.(snd := w.snd.Acknowledge(Wrap(k)), acked := if w.acked < k then k else w.acked)
  }

  function Run<D>(c: Setup, w: World<D>, steps: seq<Step<D>>): (w': World<D>)
    requires WellSized(c, w)
    ensures WellSized(c, w')
    decreases |steps|
  {
    if steps == [] then w else Run(c, Apply(c, w, steps[0]), steps[1..])
  }

  lemma RunOne<D>(c: Setup, w: World<D>, s: Step<D>)
    requires WellSized(c, w)
    ensures Run(c, w, [s]) == Apply(c, w, s)
  {
    assert Run(c, Apply(c, w, s), []) == Apply(c, w, s);
  }

  lemma RunTwo<D>(c: Setup, w: World<D>, s1: Step<D>, s2: Step<D>)
    requires WellSized(c, w)
    ensures Run(c, w, [s1, s2]) == Apply(c, Apply(c, w, s1), s2)
  {
    assert [s1, s2][1..] == [s2];
    RunOne(c, Apply(c, w, s1), s2);
  }

  lemma RunThree<D>(c: Setup, w: World<D>, s1: Step<D>, s2: Step<D>, s3: Step<D>)
    requires WellSized(c, w)
    ensures Run(c, w, [s1, s2, s3]) == Apply(c, Apply(c, Apply(c, w, s1), s2), s3)
  {
    assert [s1, s2, s3][1..] == [s2, s3];
    RunTwo(c, Apply(c, w, s1), s2, s3);
  }

  lemma {:induction false} RunConcat<D>(c: Setup, w: World<D>, first: seq<Step<D>>, second: seq<Step<D>>)
    requires WellSized(c, w)
    ensures Run(c, w, first + second) == Run(c, Run(c, w, first), second)
    decreases |first|
  {
    if first == [] {
      assert first + second == second;
    } else {
      assert (first + second)[1..] == first[1..] + second;
      RunConcat(c, Apply(c, w, first[0]), first[1..], second);
    }
  }

  // ----- Sound set-ups

  /** The macro test lets a window of this length be filled and no more. */
  predicate UsableWindow(c: Setup) { 0 < c.window <= HALF }

  /** The window is compatible with both arrays. */
  predicate SoundArrays(c: Setup) {
    c.window <= LargestWindow(c.slots) && c.window <= LargestWindow(c.bufs)
  }

  /** No wrapped number on the network is mistaken for a later one. */
  predicate SoundLives(c: Setup) {
    c.packetLife <= MODULUS - c.window - 1 && c.ackLife <= MODULUS - 1
  }

  predicate Sound(c: Setup) { UsableWindow(c) && SoundArrays(c) && SoundLives(c) }

  // ----- The invariant

  ghost predicate Outstanding<D>(w: World<D>, k: nat) { w.acked <= k < |w.sent| }

  ghost predicate CountersAgree<D>(c: Setup, w: World<D>) {
    && w.acked <= |w.delivered| <= |w.sent| <= w.acked + c.window
    && w.snd.lo == Wrap(w.acked) && w.snd.hi == Wrap(|w.sent|)
    && w.rcv.expected == Wrap(|w.delivered|)
  }

  /** The map array holds, under its wrapped number, each outstanding item of the history. */
  ghost predicate SlotsAgree<D>(c: Setup, w: World<D>)
    requires WellSized(c, w)
  {
    forall k: nat :: Outstanding(w, k) ==> w.snd.slots[Slot(c.slots, Wrap(k))] == Some(w.sent[k])
  }

  /** Buffer `i` holds the item which the sender sent under counter `k` of the window. */
  ghost predicate BufferHolds<D>(c: Setup, w: World<D>, i: nat, k: nat)
    requires WellSized(c, w) && i < c.bufs
  {
    && |w.delivered| <= k < |w.delivered| + c.window && k < |w.sent|
    && Slot(c.bufs, Wrap(k)) == i && w.rcv.bufs[i] == Some(w.sent[k])
  }

  ghost predicate BuffersAgree<D>(c: Setup, w: World<D>)
    requires WellSized(c, w)
  {
    forall i :: 0 <= i < c.bufs && w.rcv.bufs[i].Some? ==> exists k: nat :: BufferHolds(c, w, i, k)
  }

  ghost predicate NetworkAgrees<D>(w: World<D>) {
    && (forall p :: p in w.packets ==> p.number < |w.sent| && p.data == w.sent[p.number])
    && (forall k :: k in w.acks ==> k <= |w.delivered|)
  }

  ghost predicate Inv<D>(c: Setup, w: World<D>) {
    && WellSized(c, w)
    && CountersAgree(c, w)
    && w.delivered == w.sent[..|w.delivered|]
    && SlotsAgree(c, w)
    && BuffersAgree(c, w)
    && NetworkAgrees(w)
  }

  /** Counters less than a compatible window apart use different slots. */
  lemma SlotsDiffer(entries: nat, window: nat, j: nat, k: nat)
    requires entries > 0 && window <= LargestWindow(entries) && j != k && j < k + window && k < j + window
    ensures Slot(entries, Wrap(j)) != Slot(entries, Wrap(k))
  {
    if j < k {
      CloseCountersUseOwnSlots(entries, j, k);
    } else {
      CloseCountersUseOwnSlots(entries, k, j);
    }
  }

  lemma InitialInv<D>(c: Setup, past: seq<D>)
    ensures Inv(c, Initial(c, past))
  {
  }

  /** The sender's test with the macro is the bound on the number outstanding. */
  lemma RoomInWindow(window: uint32, acked: nat, sent: nat)
    requires 0 < window <= HALF && acked <= sent <= acked + window
    ensures SeqLt(Wrap(sent), Wrap(Wrap(acked) + window)) <==> sent - acked < window
  {
    WrapAdd(acked, window);
    MacrosRefineCounters(sent, acked + window);
  }

  lemma CanSendIffRoom<D>(c: Setup, w: World<D>)
    requires UsableWindow(c) && Inv(c, w)
    ensures w.snd.CanSend(c.window) <==> |w.sent| - w.acked < c.window
  {
    RoomInWindow(c.window, w.acked, |w.sent|);
  }

  lemma StepInv<D>(c: Setup, w: World<D>, step: Step<D>)
    requires Sound(c) && Inv(c, w)
    ensures Inv(c, Apply(c, w, step))
  {
    match step
    case Send(d) => SendInv(c, w, d);
    case Resend(i) => ResendInv(c, w, i);
    case PacketArrives(p) => ArrivalInv(c, w, p);
    case Deliver => DeliverInv(c, w);
    case SendAck => BuffersStay(c, w, Apply(c, w, SendAck));
    case AckArrives(k) => AckInv(c, w, k);
  }

  /** Steps of the sender and the network leave the receive buffers in agreement. */
  lemma BuffersStay<D>(c: Setup, w: World<D>, w': World<D>)
    requires WellSized(c, w) && WellSized(c, w') && BuffersAgree(c, w)
    requires w'.rcv == w.rcv && w'.delivered == w.delivered && w.sent <= w'.sent
    ensures BuffersAgree(c, w')
  {
    forall i | 0 <= i < c.bufs && w'.rcv.bufs[i].Some?
      ensures exists k: nat :: BufferHolds(c, w', i, k)
    {
      var k: nat :| BufferHolds(c, w, i, k);
      assert BufferHolds(c, w', i, k);
    }
  }

  lemma SendInv<D>(c: Setup, w: World<D>, d: D)
    requires UsableWindow(c) && SoundArrays(c) && Inv(c, w)
    ensures Inv(c, Apply(c, w, Send(d)))
  {
    CanSendIffRoom(c, w);
    if w.snd.CanSend(c.window) {
      var n, w' := |w.sent|, Apply(c, w, Send(d));
      WrapAdd(n, 1);
      forall k: nat | Outstanding(w', k)
        ensures w'.snd.slots[Slot(c.slots, Wrap(k))] == Some(w'.sent[k])
      {
        if k < n {
          assert Outstanding(w, k);
          SlotsDiffer(c.slots, c.window, k, n);
        }
      }
      BuffersStay(c, w, w');
    }
  }

  lemma ResendInv<D>(c: Setup, w: World<D>, i: nat)
    requires UsableWindow(c) && Inv(c, w)
    ensures Inv(c, Apply(c, w, Resend(i)))
  {
    if i < c.window {
      HeldAtOffset(c, w, i);
    }
    BuffersStay(c, w, Apply(c, w, Resend(i)));
  }

  /** Within a window's length of `lo`, the window test is the comparison of the counters. */
  lemma NearWindow(window: uint32, k: nat, lo: nat, hi: nat)
    requires window <= HALF && lo <= k < lo + window && lo <= hi <= lo + window
    ensures InWindow(Wrap(k), Wrap(lo), Wrap(hi)) <==> k < hi
  {
    InWindowIsExact(k, lo, hi - lo);
    WrapNear(k - lo);
  }

  /** What the sender finds i places after its oldest number. */
  lemma HeldAtOffset<D>(c: Setup, w: World<D>, i: nat)
    requires UsableWindow(c) && Inv(c, w) && i < c.window
    ensures w.snd.Held(Wrap(w.snd.lo + i)) ==
            if w.acked + i < |w.sent| then Some(w.sent[w.acked + i]) else None
  {
    var k := w.acked + i;
    assert Wrap(w.snd.lo + i) == Wrap(k) by { WrapAdd(w.acked, i); }
    NearWindow(c.window, k, w.acked, |w.sent|);
    if k < |w.sent| { assert Outstanding(w, k); }
  }

  /** A packet within its longest life is accepted exactly when its counter is in the window. */
  lemma ArrivalIsExact(c: Setup, number: nat, delivered: nat, sent: nat)
    requires UsableWindow(c) && delivered <= sent <= delivered + c.window
    requires number < sent <= number + MODULUS - c.window
    ensures InWindow(Wrap(number), Wrap(delivered), Wrap(Wrap(delivered) + c.window)) <==> delivered <= number
  {
    WrapAdd(delivered, c.window);
    InWindowIsExact(number, delivered, c.window);
    WrapNear(number - delivered);
  }

  lemma ArrivalInv<D>(c: Setup, w: World<D>, p: Packet<D>)
    requires Sound(c) && Inv(c, w)
    ensures Inv(c, Apply(c, w, PacketArrives(p)))
  {
    if p in w.packets && PacketAlive(c, w, p.number) {
      ArrivalIsExact(c, p.number, |w.delivered|, |w.sent|);
      var w' := Apply(c, w, PacketArrives(p));
      forall i | 0 <= i < c.bufs && w'.rcv.bufs[i].Some?
        ensures exists k: nat :: BufferHolds(c, w', i, k)
      {
        if |w.delivered| <= p.number && i == Slot(c.bufs, Wrap(p.number)) {
          assert BufferHolds(c, w', i, p.number);
        } else {
          var k: nat :| BufferHolds(c, w, i, k);
          assert BufferHolds(c, w', i, k);
        }
      }
    }
  }

  /** What is delivered is the next item of the history. */
  lemma DeliverTakesNext<D>(c: Setup, w: World<D>)
    requires SoundArrays(c) && Inv(c, w) && w.rcv.Ready()
    ensures var e, w' := |w.delivered|, Apply(c, w, Deliver);
            && e < |w.sent| && w'.delivered == w.sent[..e + 1]
            && w'.rcv == Receiver(Wrap(e + 1), w.rcv.bufs[Slot(c.bufs, Wrap(e)) := None])
  {
    var e := |w.delivered|;
    var k: nat :| BufferHolds(c, w, Slot(c.bufs, Wrap(e)), k);
    assert k == e by {
      if k != e { SlotsDiffer(c.bufs, c.window, k, e); }
    }
    WrapAdd(e, 1);
    assert w.sent[..e + 1] == w.sent[..e] + [w.sent[e]];
  }

  lemma DeliverInv<D>(c: Setup, w: World<D>)
    requires SoundArrays(c) && Inv(c, w)
    ensures Inv(c, Apply(c, w, Deliver))
  {
    if w.rcv.Ready() {
      DeliverTakesNext(c, w);
      BuffersReleased(c, w, Apply(c, w, Deliver));
    }
  }

  /** Releasing the buffer of the item delivered leaves the others in agreement. */
  lemma BuffersReleased<D>(c: Setup, w: World<D>, w': World<D>)
    requires WellSized(c, w) && WellSized(c, w') && BuffersAgree(c, w)
    requires w'.sent == w.sent && |w'.delivered| == |w.delivered| + 1
    requires w'.rcv.bufs == w.rcv.bufs[Slot(c.bufs, Wrap(|w.delivered|)) := None]
    ensures BuffersAgree(c, w')
  {
    forall i | 0 <= i < c.bufs && w'.rcv.bufs[i].Some?
      ensures exists k: nat :: BufferHolds(c, w', i, k)
    {
      var k: nat :| BufferHolds(c, w, i, k);
      assert BufferHolds(c, w', i, k);
    }
  }

  /** An acknowledgement within its longest life is taken exactly when it is news. */
  lemma AckIsExact(window: uint32, k: nat, acked: nat, sent: nat)
    requires window <= HALF && acked <= sent <= acked + window && k <= sent <= k + MODULUS - 1
    ensures InWindow(Wrap(Wrap(k) - 1), Wrap(acked), Wrap(sent)) <==> acked < k
  {
    WrapAdd(k, -1);
    InWindowIsExact(k - 1, acked, sent - acked);
    if k <= acked {
      WrapTurns(k - 1 - acked, 1);
    }
  }

  lemma AckInv<D>(c: Setup, w: World<D>, k: nat)
    requires Sound(c) && Inv(c, w)
    ensures Inv(c, Apply(c, w, AckArrives(k)))
  {
    if k in w.acks && AckAlive(c, w, k) {
      AckIsExact(c.window, k, w.acked, |w.sent|);
    }
    BuffersStay(c, w, Apply(c, w, AckArrives(k)));
  }

  lemma {:induction false} RunInv<D>(c: Setup, w: World<D>, steps: seq<Step<D>>)
    requires Sound(c) && Inv(c, w)
    ensures Inv(c, Run(c, w, steps))
    decreases |steps|
  {
    if steps == [] {
    } else {
      StepInv(c, w, steps[0]);
      RunInv(c, Apply(c, w, steps[0]), steps[1..]);
    }
  }

  // ----- Safety and progress

  /** The receiver has delivered a prefix of what was sent, in order and without gaps or repeats;
      no more items than the window are outstanding; and looking a sequence number up in the map
      array gives what an unbounded map keyed by the true counter would give. */
  ghost predicate Safe<D>(c: Setup, w: World<D>)
    requires WellSized(c, w)
  {
    && w.delivered <= w.sent
    && |w.sent| - w.acked <= c.window
    && (forall k: nat :: Outstanding(w, k) ==> w.snd.Held(Wrap(k)) == Some(w.sent[k]))
    && (forall s: uint32 :: w.snd.Held(s).Some? ==> exists k: nat :: Outstanding(w, k) && Wrap(k) == s)
  }

  lemma InvIsSafe<D>(c: Setup, w: World<D>)
    requires UsableWindow(c) && Inv(c, w)
    ensures Safe(c, w)
  {
    forall k: nat | Outstanding(w, k)
      ensures w.snd.Held(Wrap(k)) == Some(w.sent[k])
    {
      HeldAtOffset(c, w, k - w.acked);
      WrapAdd(w.acked, k - w.acked);
    }
    forall s: uint32 | w.snd.Held(s).Some?
      ensures exists k: nat :: Outstanding(w, k) && Wrap(k) == s
    {
      var k := CounterOf(c, w, s);
    }
  }

  /** The counter of a number in the window. */
  lemma CounterInWindow(s: uint32, lo: nat, hi: nat) returns (k: nat)
    requires lo <= hi <= lo + HALF && InWindow(s, Wrap(lo), Wrap(hi))
    ensures lo <= k < hi && Wrap(k) == s
  {
    k := lo + Wrap(s - lo);
    assert Wrap(s) == s;
    InWindowIsExact(s, lo, hi - lo);
    WrapAdd(s - lo, lo);
  }

  /** The counter of a number which the sender still holds. */
  lemma CounterOf<D>(c: Setup, w: World<D>, s: uint32) returns (k: nat)
    requires UsableWindow(c) && Inv(c, w) && w.snd.Held(s).Some?
    ensures Outstanding(w, k) && Wrap(k) == s
  {
    k := CounterInWindow(s, w.acked, |w.sent|);
  }

  /** Every run of a sound set-up is safe, whatever the network loses, repeats or reorders. */
  lemma WindowIsSafe<D>(c: Setup, past: seq<D>, steps: seq<Step<D>>)
    requires Sound(c)
    ensures Safe(c, Run(c, Initial(c, past), steps))
  {
    InitialInv(c, past);
    RunInv(c, Initial(c, past), steps);
    InvIsSafe(c, Run(c, Initial(c, past), steps));
  }

  /** Sending an outstanding item again puts it on the network. */
  lemma ResendReaches<D>(c: Setup, w: World<D>, i: nat)
    requires UsableWindow(c) && Inv(c, w) && w.acked + i < |w.sent|
    ensures Apply(c, w, Resend(i)) == w.(packets := w.packets + {Packet(w.acked + i, w.sent[w.acked + i])})
  {
    HeldAtOffset(c, w, i);
    ResendHeld(c, w, i, w.sent[w.acked + i]);
  }

  lemma ResendHeld<D>(c: Setup, w: World<D>, i: nat, d: D)
    requires WellSized(c, w) && i < c.window && w.snd.Held(Wrap(w.snd.lo + i)) == Some(d)
    ensures Apply(c, w, Resend(i)) == w.(packets := w.packets + {Packet(w.acked + i, d)})
  {
  }

  /** Packets live long enough for the oldest item of a full window to arrive. */
  predicate LongEnough(c: Setup) { c.packetLife >= c.window - 1 }

  /** A copy of the next missing item fills its receive buffer. */
  lemma ArrivalFills<D>(c: Setup, w: World<D>, p: Packet<D>)
    requires Sound(c) && LongEnough(c)
    requires Inv(c, w) && p in w.packets && p.number == |w.delivered|
    ensures var w' := Apply(c, w, PacketArrives(p));
            w'.rcv.Ready() && w'.sent == w.sent && w'.delivered == w.delivered
  {
    ArrivalIsExact(c, p.number, |w.delivered|, |w.sent|);
  }

  /** Then it can be delivered. */
  lemma ArrivalDelivers<D>(c: Setup, w: World<D>, p: Packet<D>)
    requires Sound(c) && LongEnough(c)
    requires Inv(c, w) && p in w.packets && p.number == |w.delivered|
    ensures var w' := Apply(c, Apply(c, w, PacketArrives(p)), Deliver);
            Inv(c, w') && w'.sent == w.sent && w'.delivered == w.sent[..|w.delivered| + 1]
  {
    ArrivalFills(c, w, p);
    ArrivalInv(c, w, p);
    var w1 := Apply(c, w, PacketArrives(p));
    DeliverTakesNext(c, w1);
    DeliverInv(c, w1);
  }

  /** Whatever was lost so far, sending the next missing item again gets it delivered. */
  lemma ResendDelivers<D>(c: Setup, w: World<D>) returns (steps: seq<Step<D>>)
    requires Sound(c) && LongEnough(c)
    requires Inv(c, w) && |w.delivered| < |w.sent|
    ensures var w' := Run(c, w, steps);
            Inv(c, w') && w'.sent == w.sent && w'.delivered == w.sent[..|w.delivered| + 1]
  {
    var i := |w.delivered| - w.acked;
    var p := Packet(|w.delivered|, w.sent[|w.delivered|]);
    ResendReaches(c, w, i);
    ResendInv(c, w, i);
    var w1 := Apply(c, w, Resend(i));
    assert w1 == w.(packets := w.packets + {p});
    ArrivalDelivers(c, w1, p);
    steps := [Resend(i), PacketArrives(p), Deliver];
    RunThree(c, w, steps[0], steps[1], steps[2]);
  }

  /** Everything of `w` has been delivered, and the window is empty. */
  ghost predicate Drained<D>(w: World<D>, w': World<D>) {
    w'.sent == w.sent && w'.delivered == w.sent && w'.acked == |w.sent|
  }

  /** From every reachable state some continuation delivers everything sent and empties the
      window: no loss, repetition or reordering can leave the flow stuck. */
  lemma {:induction false} FlowCanAlwaysDrain<D>(c: Setup, w: World<D>) returns (steps: seq<Step<D>>)
    requires Sound(c) && LongEnough(c) && Inv(c, w)
    ensures Drained(w, Run(c, w, steps)) && Run(c, w, steps).snd.CanSend(c.window)
    decreases |w.sent| - |w.delivered|
  {
    if |w.delivered| < |w.sent| {
      var once := ResendDelivers(c, w);
      var rest := FlowCanAlwaysDrain(c, Run(c, w, once));
      RunConcat(c, w, once, rest);
      steps := once + rest;
    } else {
      var n := |w.sent|;
      steps := [SendAck, AckArrives(n)];
      assert n in Apply(c, w, SendAck).acks;
      RunTwo(c, w, SendAck, AckArrives(n));
      RunInv(c, w, steps);
      CanSendIffRoom(c, Run(c, w, steps));
    }
  }
}
