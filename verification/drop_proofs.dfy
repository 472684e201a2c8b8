/**
  ACKs on the wire denote only numbers that have arrived, and still one can make
  its receiver forget a datagram that never did.
 */
module DropProofs {
  import opened Basics
  import opened Datagrams
  import opened ReceiveWindow
  import opened Acks
  import Ascending
  import opened EngineState
  import opened WalkProofs
  import opened RetransmissionProofs
  import opened SendProofs
  import Splitting
  import AckProofs
  import opened AckLossProofs
  import opened Session
  import opened Delivery
  import opened DeliveryProofs
  import opened LimitProofs

  // ---------- What an ACK on the wire can denote ----------

  /** The numbers of the datagrams that a step brings to a side. */
  function Brings(action: Delivery.Action): set<int> {
    match action
    case Arrive(data) =>
      (match Classify(data)
       case Ok(IncomingDatagram(d)) => {Wrap(d.sequenceNumber) as int}
       case _ => {})
    case _ => {}
  }

  /** The numbers of all datagrams that have arrived at one side in the course of a run. */
  function ArrivedAt(left: bool, steps: seq<Step>): set<int> {
    if steps == [] then {}
    else (if steps[0].atLeft == left then Brings(steps[0].action) else {}) + ArrivedAt(left, steps[1..])
  }

  /** Every ACK a side has sent or is about to send denotes only datagrams that have arrived at it. */
  ghost predicate AcksReceived(p: Endpoint, got: set<int>) {
    && (forall s :: s in p.engine.pendingAcks ==> s in got)
    && Numbers24(p.engine.unacked)
    && (forall s :: s in p.engine.unacked ==> p.engine.unacked[s].bytes in p.emitted)
    && forall b :: b in p.emitted && IsAck(b) ==> Covered(b, got)
  }

  ghost predicate Covered(b: seq<byte>, got: set<int>)
    requires IsAck(b)
  {
    forall s: u24 :: Denotes(Classify(b).value.a.ranges, s) ==> s in got
  }

  lemma SubmitAcks(p: Endpoint, r: Reliability, body: seq<byte>, max: nat, now: nat, got: set<int>)
    requires AcksReceived(p, got) && max <= 0xffff_ffff
    ensures AcksReceived(Act(p, Submit(r, body, max), now), got)
  {
    var result := PrepareSend(p.engine, r, body, max, now).1;
    if result.Ok? {
      SentDecodes(p.engine, r, body, max, now);
      assert !IsAck(result.value);
    }
    hide Covered, Splitting.SplitInto, EncodeDatagram, NextFrame, Classify, SentFrames;
  }

  lemma ArriveAcks(p: Endpoint, data: seq<byte>, now: nat, got: set<int>)
    requires AcksReceived(p, got)
    ensures AcksReceived(Act(p, Arrive(data), now), got + Brings(Arrive(data)))
  {
    var e := p.engine;
    CoveredMore(p, got, Brings(Arrive(data)));
    hide Covered, Classify, OrderIndices;
    if Classify(data).Ok? {
      match Classify(data).value {
        case IncomingAck(a) =>
          AckRemovesWalked(e.unacked, e.rtt, a.ranges, now);
          hide AckRanges;
        case IncomingNack(a) =>
          NackEmitsWalked(e.unacked, a.ranges, now);
          hide NackRanges;
        case IncomingDatagram(d) =>
          hide AcceptFrames, Drain, Record;
      }
    }
  }

  lemma CoveredMore(p: Endpoint, got: set<int>, more: set<int>)
    requires AcksReceived(p, got)
    ensures AcksReceived(p, got + more)
  {
    hide Classify, Denotes;
  }

  lemma TickKeepsAcks(p: Endpoint, now: nat, got: set<int>)
    requires AcksReceived(p, got)
    ensures AcksReceived(Act(p, Delivery.Action.Tick, now), got)
  {
    var drained := EngineState.DrainAcks(p.engine).0;
    var p' := Act(p, Delivery.Action.Tick, now);
    DrainedOnlyAcks(p.engine);
    DrainedOnlyAcks(drained);
    ResentWasEmitted(p, drained, now, got);
    TickParts(p, now);
    NacksAreNoAcks(BuildNack(drained));
    PendingCovered(p.engine, got);
    hide Encoded, ResendDue, BuildNack, Covered, IsAck, Act, EngineState.DrainAcks, Numbers24;
    forall b | b in p'.emitted && IsAck(b)
      ensures Covered(b, got)
    {
      assert b in p.emitted || b in Encoded(EngineState.DrainAcks(p.engine).1);
    }
    hide Denotes;
    assert p'.engine.pendingAcks == {};
    forall s | s in p'.engine.unacked
      ensures p'.engine.unacked[s].bytes in p'.emitted
    {
    }
  }

  lemma ResentWasEmitted(p: Endpoint, e: Engine, now: nat, got: set<int>)
    requires AcksReceived(p, got) && e == p.engine.(pendingAcks := {})
    ensures forall b :: b in ResendDue(e, now).1 ==> b in p.emitted
    ensures var after := ResendDue(e, now).0;
            && after.pendingAcks == {} && Numbers24(after.unacked)
            && forall s :: s in after.unacked ==> after.unacked[s].bytes in p.emitted
  {
    ResendStored(e, now);
    hide ResendDue, Covered, IsAck;
  }

  /** A resend returns stored datagrams and leaves the store's numbers and bytes, and the pending ACKs, alone. */
  lemma ResendStored(e: Engine, now: nat)
    ensures forall b :: b in ResendDue(e, now).1 ==> exists s :: s in e.unacked && e.unacked[s].bytes == b
    ensures var after := ResendDue(e, now).0;
            && after.pendingAcks == e.pendingAcks && after.unacked.Keys == e.unacked.Keys
            && forall s :: s in e.unacked ==> after.unacked[s].bytes == e.unacked[s].bytes
  {
    ResendRefreshes(e, now);
    ResendEmits(e, now);
    hide ResendDue, ResendThreshold;
  }

  lemma DrainedOnlyAcks(e: Engine)
    ensures EngineState.DrainAcks(e).0 == e.(pendingAcks := {})
    ensures BuildNack(e).Some? ==> !BuildNack(e).value.isAck
  {
    hide Coalesce, Missing;
  }

  lemma TickParts(p: Endpoint, now: nat)
    ensures var drained, ack := EngineState.DrainAcks(p.engine).0, EngineState.DrainAcks(p.engine).1;
            var p' := Act(p, Delivery.Action.Tick, now);
            && p'.engine == ResendDue(drained, now).0 && p.emitted <= p'.emitted
            && forall b :: b in p'.emitted ==>
                 b in p.emitted || b in Encoded(ack) || b in Encoded(BuildNack(drained)) || b in ResendDue(drained, now).1
  {
    hide EngineState.DrainAcks, BuildNack, ResendDue, Encoded, IsAlive;
  }

  lemma PendingCovered(e: Engine, got: set<int>)
    requires forall s :: s in e.pendingAcks ==> s in got
    ensures forall b :: b in Encoded(EngineState.DrainAcks(e).1) && IsAck(b) ==> Covered(b, got)
  {
    hide *;
    DrainsPending(e);
    if e.pendingAcks != {} {
      var a := AckProofs.PendingAck(e);
      EncodedClassified(a);
      forall b | b in Encoded(EngineState.DrainAcks(e).1)
        ensures IsAck(b) && Covered(b, got)
      {
        AckCovered(a, b, got);
      }
    }
  }

  lemma AckCovered(a: Acknowledgement, b: seq<byte>, got: set<int>)
    requires Classify(b) == Ok(IncomingAck(a)) && forall s :: s in AckProofs.Numbers(a) ==> s in got
    ensures IsAck(b) && Covered(b, got)
  {
    hide Classify, Denotes;
    forall s: u24 | Denotes(a.ranges, s)
      ensures s in got
    {
      assert s in AckProofs.Numbers(a);
    }
  }

  lemma DrainsPending(e: Engine)
    ensures e.pendingAcks == {} ==> Encoded(EngineState.DrainAcks(e).1) == []
    ensures e.pendingAcks != {} ==> EngineState.DrainAcks(e).1 == Some(AckProofs.PendingAck(e))
  {
    hide Coalesce;
  }

  lemma ActAcks(p: Endpoint, action: Delivery.Action, now: nat, got: set<int>)
    requires AcksReceived(p, got) && (action.Submit? ==> action.max <= 0xffff_ffff)
    ensures AcksReceived(Act(p, action, now), got + Brings(action))
  {
    hide AcksReceived, Act;
    match action {
      case Submit(r, body, max) =>
        SubmitAcks(p, r, body, max, now, got);
        assert got + {} == got;
      case Arrive(data) =>
        ArriveAcks(p, data, now, got);
      case Tick =>
        TickKeepsAcks(p, now, got);
        assert got + {} == got;
    }
  }

  lemma {:induction false} RunAcks(w: World, steps: seq<Step>, w': World, gotLeft: set<int>, gotRight: set<int>)
    requires Leads(w, steps, w') && AcksReceived(w.left, gotLeft) && AcksReceived(w.right, gotRight)
    ensures AcksReceived(w'.left, gotLeft + ArrivedAt(true, steps))
    ensures AcksReceived(w'.right, gotRight + ArrivedAt(false, steps))
    decreases |steps|
  {
    hide AcksReceived, Act, Brings;
    if steps == [] {
      assert gotLeft + {} == gotLeft && gotRight + {} == gotRight;
    } else {
      var step := steps[0];
      var left, right := if step.atLeft then Brings(step.action) else {}, if step.atLeft then {} else Brings(step.action);
      ActAcks(if step.atLeft then w.left else w.right, step.action, step.now, if step.atLeft then gotLeft else gotRight);
      assert gotLeft + {} == gotLeft && gotRight + {} == gotRight;
      RunAcks(Next(w, step), steps[1..], w', gotLeft + left, gotRight + right);
      assert gotLeft + ArrivedAt(true, steps) == (gotLeft + left) + ArrivedAt(true, steps[1..]);
      assert gotRight + ArrivedAt(false, steps) == (gotRight + right) + ArrivedAt(false, steps[1..]);
    }
  }

  lemma NothingAcked(now: nat)
    ensures AcksReceived(Open(now), {})
  {
  }

  // ---------- A run that loses a datagram for good ----------

  /** The right side's answer to a first datagram numbered 1. */
  function SingleAck(): Acknowledgement {
    Acknowledgement(true, [Single(1)])
  }

  /** The second of two sends. */
  lemma SecondSend()
    ensures var one := Next(Start(), SUBMIT);
            && one.left.engine.nextDatagram == 1 && one.left.engine.nextOrder == 1 && one.right == Open(0)
            && one.left.sent.lost == {} && |one.left.sent.ordered| == 1
  {
    SubmitEffect(Start());
    AfterSend(NewEngine(0));
    SubmitEngine(Start());
    hide Act, PrepareSend, NextFrame, Bytes;
  }

  lemma SubmitEngine(w: World)
    ensures Next(w, SUBMIT).left.engine == PrepareSend(w.left.engine, ReliableOrdered, [], 1, 0).0
  {
    hide PrepareSend;
  }

  lemma AfterSend(e: Engine)
    ensures var after := PrepareSend(e, ReliableOrdered, [], 1, 0).0;
            after.nextDatagram == Wrap(e.nextDatagram + 1) && after.nextOrder == Wrap(e.nextOrder + 1)
  {
    EmptySend(e);
    hide Classify, Splitting.SplitInto, OrderIndices, NextFrame, Bytes, EncodeDatagram;
  }

  /** A datagram numbered 1 is the first to arrive: its ACK is pending, and its frame waits for index 0. */
  lemma SecondArrives(w: World, e: Engine)
    requires w.right == Open(0) && e.nextDatagram == 1 && e.nextOrder == 1 && Bytes(e) in w.left.emitted
    ensures var w' := Next(w, Arrival(Bytes(e)));
            && Enabled(w, Arrival(Bytes(e))) && w'.left == w.left && w'.right.released == []
            && w'.right.engine.pendingAcks == {1} && w'.right.engine.lastRecv == 0 && w'.right.engine.unacked == map[]
    ensures Brings(Arrive(Bytes(e))) == {1}
  {
    var f := NextFrame(e, ReliableOrdered, []);
    var queue: map<int, Frame> := map[][1 := f];
    ArrivalEffect(w, e);
    assert Drain(queue, 0) == (queue, 0, []);
    EmptySend(e);
    FirstPending(NewEngine(0), Datagram(1, [f]), 0);
    hide PrepareSend, Classify, Splitting.SplitInto, OrderIndices, NextFrame, OnDatagram, Drain, Bytes;
  }

  lemma FirstPending(e: Engine, d: Datagram, now: nat)
    requires e == NewEngine(now) && d.sequenceNumber == 1
    ensures var (after, _) := OnDatagram(e, d, now);
            after.pendingAcks == {1} && after.lastRecv == now && after.unacked == map[] && after.rtt == e.rtt
  {
    hide AcceptFrames, Advance;
  }

  lemma PendingSingle(e: Engine)
    requires e.pendingAcks == {1}
    ensures AckProofs.PendingAck(e) == SingleAck() && |SingleAck().ranges| == 1
  {
    Ascending.SortedUnique(Ascending24(e.pendingAcks), [1]);
    assert Coalesce([1]) == [Single(1)] by { assert [1][1..] == []; }
    hide AckProofs.Numbers;
  }

  /** The tick's ACK. */
  lemma TickAnswers(w: World, tick: Step)
    requires tick == Step(false, Delivery.Action.Tick, 0)
    requires w.right.engine.pendingAcks != {} && w.right.engine.lastRecv == 0 && w.right.engine.unacked == map[]
    requires |AckProofs.PendingAck(w.right.engine).ranges| <= 0xffff
    ensures var w' := Next(w, tick);
            && Enabled(w, tick) && w'.left == w.left && w'.right.released == w.right.released
            && exists b :: b in w'.right.emitted && Classify(b) == Ok(IncomingAck(AckProofs.PendingAck(w.right.engine)))
  {
    var e := w.right.engine;
    var a := AckProofs.PendingAck(e);
    StillAlive(e, 0);
    TickAcks(e, 0);
    EncodedClassified(a);
    hide Classify, Encoded, Session.Tick, IsAck, AckProofs.PendingAck;
    var b := Encoded(Some(a))[0];
    assert b in Session.Tick(e, 0).1 && b in Next(w, tick).right.emitted;
  }

  lemma AckArrives(w: World, b: seq<byte>)
    requires Numbers24(w.left.engine.unacked) && b in w.right.emitted && Classify(b) == Ok(IncomingAck(SingleAck()))
    ensures var w' := Next(w, Step(true, Arrive(b), 0));
            Enabled(w, Step(true, Arrive(b), 0)) && w'.left.engine.unacked == map[] && w'.left.sent == w.left.sent && w'.right == w.right
    ensures Brings(Arrive(b)) == {}
  {
    SingleAckForgetsAll(w.left.engine, 1, 0);
    hide Classify, OrderIndices, AckRanges;
  }

  /**
    A witness: two datagrams are sent and only the second arrives. Its ACK makes the sender forget
    both, and nothing has been released.
   */
  lemma FirstLostForGood() returns (steps: seq<Step>, w: World)
    ensures Leads(World(Open(0), Open(0)), steps, w)
    ensures |w.left.sent.ordered| == 2 && w.left.sent.lost == {} && w.left.engine.unacked == map[]
    ensures ArrivedAt(false, steps) == {1} && w.right.released == []
  {
    hide *;
    var one := Next(Start(), SUBMIT);
    var two := Next(one, SUBMIT);
    StartIs();
    SecondSend();
    SubmitEffect(Start());
    SubmitEffect(one);
    var arrival := Arrival(Bytes(one.left.engine));
    var three := Next(two, arrival);
    SecondArrives(two, one.left.engine);
    var tick := Step(false, Delivery.Action.Tick, 0);
    var four := Next(three, tick);
    PendingSingle(three.right.engine);
    TickAnswers(three, tick);
    var b :| b in four.right.emitted && Classify(b) == Ok(IncomingAck(SingleAck()));
    var ack := Step(true, Arrive(b), 0);
    var before := [SUBMIT, SUBMIT] + [arrival, tick];
    TwoSteps(Start(), SUBMIT, SUBMIT);
    TwoSteps(two, arrival, tick);
    LeadsAppend(Start(), [SUBMIT, SUBMIT], two, [arrival, tick], four);
    NothingAcked(0);
    RunAcks(Start(), before, four, {}, {});
    ReceivedNumbers(four.left, {} + ArrivedAt(true, before));
    AckArrives(four, b);
    w := Next(four, ack);
    steps := before + [ack];
    OneStep(four, ack);
    LeadsAppend(Start(), before, four, [ack], w);
    ArrivalIs(Bytes(one.left.engine));
    OnlySecond(arrival, tick, ack);
  }

  lemma ArrivalIs(data: seq<byte>)
    ensures Arrival(data) == Step(false, Arrive(data), 0)
  {
  }

  lemma ReceivedNumbers(p: Endpoint, got: set<int>)
    requires AcksReceived(p, got)
    ensures Numbers24(p.engine.unacked)
  {
  }

  lemma OnlySecond(arrival: Step, tick: Step, ack: Step)
    requires !arrival.atLeft && Brings(arrival.action) == {1} && tick.action == Delivery.Action.Tick && ack.atLeft
    ensures ArrivedAt(false, [SUBMIT, SUBMIT] + [arrival, tick] + [ack]) == {1}
  {
    hide Classify;
    var all := [SUBMIT, SUBMIT] + [arrival, tick] + [ack];
    assert ArrivedAt(false, [ack]) == {} by { assert [ack][1..] == []; }
    assert ArrivedAt(false, [tick, ack]) == {} by { assert [tick, ack][1..] == [ack]; }
    assert ArrivedAt(false, [arrival, tick, ack]) == {1} by { assert [arrival, tick, ack][1..] == [tick, ack]; }
    assert ArrivedAt(false, [SUBMIT, arrival, tick, ack]) == {1} by {
      assert [SUBMIT, arrival, tick, ack][1..] == [arrival, tick, ack];
    }
    assert all[1..] == [SUBMIT, arrival, tick, ack];
  }

  lemma StartIs()
    ensures Start() == World(Open(0), Open(0)) && Start().left.sent.ordered == [] && Start().left.sent.lost == {}
    ensures Start().right == Open(0) && Start().left.engine == NewEngine(0)
  {
  }
}
