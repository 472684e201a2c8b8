/**
  Why an ACK of ranges is only said to forget what has arrived for runs of at
  most 2^24 sends: a run with one more, in which a late ACK does otherwise.
 */
module LateAckProofs {
  import opened Basics
  import opened Datagrams
  import opened ReceiveWindow
  import opened Acks
  import Ascending
  import opened EngineState
  import Splitting
  import opened SendProofs
  import opened WalkProofs
  import AckProofs
  import opened Delivery
  import opened DeliveryProofs
  import opened LimitProofs
  import opened DropProofs
  import opened ForgetProofs

  // ---------- Two sends that arrive and are acknowledged ----------

  /** Two sends from the start. */
  lemma BothSent()
    ensures var one := Next(Start(), SUBMIT);
            var two := Next(one, SUBMIT);
            && one.left.engine.nextDatagram == 1 && two.left.engine.nextDatagram == 2 && two.right == Open(0)
            && Bytes(NewEngine(0)) in two.left.emitted && Bytes(one.left.engine) in two.left.emitted
            && Leads(Start(), [SUBMIT, SUBMIT], two)
  {
    hide *;
    var one := Next(Start(), SUBMIT);
    StartIs();
    SecondSend();
    SubmitEffect(Start());
    SubmitEffect(one);
    AfterSend(one.left.engine);
    SubmitEngine(one);
    TwoSteps(Start(), SUBMIT, SUBMIT);
    assert Wrap(1 + 1) == 2 by { WrapSmall(2); }
  }

  lemma WrapSmall(n: u24)
    ensures Wrap(n) == n
  {
  }

  /** What the arrival of a datagram does to the numbers waiting to be acknowledged. */
  lemma ArrivalPends(w: World, e: Engine)
    requires Bytes(e) in w.left.emitted
    ensures var w', after := Next(w, Arrival(Bytes(e))), Arrived(w.right.engine, e.nextDatagram, 0);
            && Enabled(w, Arrival(Bytes(e))) && w'.left == w.left
            && w'.right.engine.pendingAcks == after.pendingAcks && w'.right.engine.window == after.window
            && w'.right.engine.lastRecv == 0 && w'.right.engine.unacked == w.right.engine.unacked
  {
    EmptySend(e);
    hide PrepareSend, Classify, Splitting.SplitInto, OrderIndices, NextFrame, Bytes, AcceptFrames, Drain, Record;
  }

  lemma FirstTwoNumbers(e: Engine)
    requires e == NewEngine(0)
    ensures Arrived(e, 0, 0).window == Window(1, 0, {}, true) && Arrived(e, 0, 0).pendingAcks == {0}
  {
    var moved := Window(1, 0, {0} - {0}, true);
    assert moved.received == {} && Advance(moved) == moved;
    assert {} + {0} == {0};
    assert Advance(Window(0, 0, {0}, true)) == moved;
  }

  lemma NextNumber(e: Engine)
    requires e.window == Window(1, 0, {}, true) && e.pendingAcks == {0}
    ensures Arrived(e, 1, 0).pendingAcks == {0, 1}
  {
    hide Advance;
  }

  /** The right side's answer to the first two datagrams. */
  function RangeAck(): Acknowledgement {
    Acknowledgement(true, [Range(0, 1)])
  }

  lemma PendingRange(e: Engine)
    requires e.pendingAcks == {0, 1}
    ensures AckProofs.PendingAck(e) == RangeAck() && |RangeAck().ranges| == 1
  {
    Ascending.SortedUnique(Ascending24(e.pendingAcks), [0, 1]);
    assert Coalesce([0, 1]) == [Range(0, 1)] by {
      assert [0, 1][1..] == [1] && [1][1..] == [];
    }
    hide AckProofs.Numbers;
  }

  /** A run of two sends that arrive, after which the ACK of both is on the wire. */
  lemma BothAcked() returns (steps: seq<Step>, w: World, data: seq<byte>, got: set<seq<byte>>)
    ensures Leads(Start(), steps, w) && w.left.engine.nextDatagram == 2
    ensures data in w.right.emitted && Classify(data) == Ok(IncomingAck(RangeAck()))
    ensures PacketsAt(steps) == got && Submits(steps) == 2
    ensures forall b :: b in got ==> Ordinary(b)
  {
    hide *;
    var one := Next(Start(), SUBMIT);
    var two := Next(one, SUBMIT);
    BothSent();
    var e, e' := NewEngine(0), one.left.engine;
    var first, second := Arrival(Bytes(e)), Arrival(Bytes(e'));
    var three := Next(two, first);
    var four := Next(three, second);
    OpenIs();
    ArrivalPends(two, e);
    FirstTwoNumbers(e);
    ArrivalPends(three, e');
    NextNumber(three.right.engine);
    var tick := Step(false, Delivery.Action.Tick, 0);
    PendingRange(four.right.engine);
    TickAnswers(four, tick);
    w := Next(four, tick);
    data :| data in w.right.emitted && Classify(data) == Ok(IncomingAck(RangeAck()));
    TwoSteps(two, first, second);
    OneStep(four, tick);
    LeadsAppend(Start(), [SUBMIT, SUBMIT], two, [first, second], four);
    LeadsAppend(Start(), [SUBMIT, SUBMIT] + [first, second], four, [tick], w);
    steps := [SUBMIT, SUBMIT] + [first, second] + [tick];
    got := {Bytes(e), Bytes(e')};
    OrdinarySend(e);
    OrdinarySend(e');
    CountedSteps(Bytes(e), Bytes(e'), tick);
  }

  lemma OpenIs()
    ensures Open(0).engine == NewEngine(0) && NewEngine(0).unacked == map[] && NewEngine(0).nextDatagram == 0
  {
  }

  lemma CountedSteps(b: seq<byte>, c: seq<byte>, tick: Step)
    requires tick == Step(false, Delivery.Action.Tick, 0)
    ensures var steps := [SUBMIT, SUBMIT] + [Arrival(b), Arrival(c)] + [tick];
            PacketsAt(steps) == {b, c} && Submits(steps) == 2
  {
    RunsAppend([SUBMIT], [SUBMIT]);
    RunsAppend([Arrival(b)], [Arrival(c)]);
    RunsAppend([SUBMIT, SUBMIT], [Arrival(b), Arrival(c)]);
    RunsAppend([SUBMIT, SUBMIT] + [Arrival(b), Arrival(c)], [tick]);
    OneCounted(SUBMIT);
    OneCounted(Arrival(b));
    OneCounted(Arrival(c));
    OneCounted(tick);
    assert [SUBMIT] + [SUBMIT] == [SUBMIT, SUBMIT] && [Arrival(b)] + [Arrival(c)] == [Arrival(b), Arrival(c)];
    hide PacketsAt, Submits;
  }

  lemma OneCounted(step: Step)
    ensures PacketsAt([step]) == Brought(step) && Submits([step]) == if IsSend(step) then 1 else 0
  {
    assert [step][1..] == [];
  }

  // ---------- The numbers come round ----------

  /** Sends alone bring nothing to the right side, and each uses one number. */
  lemma {:induction false} ManySends(w: World, n: nat) returns (steps: seq<Step>, w': World)
    ensures Leads(w, steps, w') && w'.right == w.right && w'.left.engine.nextDatagram == Wrap(w.left.engine.nextDatagram + n)
    ensures PacketsAt(steps) == {} && Submits(steps) == n
    decreases n
  {
    if n == 0 {
      steps, w' := [], w;
      WrapSmall(w.left.engine.nextDatagram);
      NoSends(w);
      hide *;
    } else {
      hide *;
      var before, mid;
      before, mid := ManySends(w, n - 1);
      OneMoreSend(mid);
      w' := Next(mid, SUBMIT);
      OneStep(mid, SUBMIT);
      LeadsAppend(w, before, mid, [SUBMIT], w');
      steps := before + [SUBMIT];
      RunsAppend(before, [SUBMIT]);
      SubmitCounts();
      WrapNext(w.left.engine.nextDatagram + n - 1);
    }
  }

  lemma OneMoreSend(w: World)
    ensures var w' := Next(w, SUBMIT);
            Enabled(w, SUBMIT) && w'.right == w.right && w'.left.engine.nextDatagram == Wrap(w.left.engine.nextDatagram + 1)
  {
    SubmitEffect(w);
    SubmitEngine(w);
    AfterSend(w.left.engine);
    hide *;
  }

  lemma SubmitCounts()
    ensures PacketsAt([SUBMIT]) == {} && Submits([SUBMIT]) == 1
  {
    OneCounted(SUBMIT);
  }

  lemma NoSends(w: World)
    ensures Leads(w, [], w) && PacketsAt([]) == {} && Submits([]) == 0
  {
  }

  lemma {:induction false} RunsAppend(first: seq<Step>, second: seq<Step>)
    ensures PacketsAt(first + second) == PacketsAt(first) + PacketsAt(second)
    ensures Submits(first + second) == Submits(first) + Submits(second)
  {
    if first == [] {
      assert first + second == second;
    } else {
      assert (first + second)[1..] == first[1..] + second;
      RunsAppend(first[1..], second);
    }
  }

  // ---------- The send that uses number 0 again ----------

  /** A datagram of one ordered frame. */
  predicate Ordinary(b: seq<byte>) {
    && Classify(b).Ok? && Classify(b).value.IncomingDatagram?
    && |Classify(b).value.d.frames| == 1 && Classify(b).value.d.frames[0].reliability == ReliableOrdered
  }

  lemma OrdinarySend(e: Engine)
    ensures Ordinary(Bytes(e))
  {
    EmptySend(e);
    hide Classify, Bytes, Splitting.SplitInto, OrderIndices, NextFrame;
  }

  const AGAIN: Step := Step(true, Submit(Unreliable, [7], 1), 0)

  lemma SendsAgain(w: World)
    requires w.left.engine.nextDatagram == 0
    ensures var w' := Next(w, AGAIN);
            && Enabled(w, AGAIN) && w'.right == w.right
            && 0 in w'.left.engine.unacked && !Ordinary(w'.left.engine.unacked[0].bytes)
  {
    var e := w.left.engine;
    SendSucceedsExactly(e, Unreliable, [7], 1, 0);
    SentDecodes(e, Unreliable, [7], 1, 0);
    PrepareParts(e, Unreliable, [7], 1, 0);
    SubmitActs(w.left, Unreliable, [7], 1, 0);
    hide Classify, PrepareSend, Act;
  }

  lemma RangeForgetsFirst(e: Engine)
    requires 0 in e.unacked
    ensures 0 in Dropped(e, RangeAck(), 0)
  {
    var ranges := RangeAck().ranges;
    AckRemovesWalked(e.unacked, e.rtt, ranges, 0);
    assert Meant(ranges[0], 0) && Denotes(ranges, 0);
    WalkedCases(ranges, 0);
    DroppedStored(e, RangeAck(), 0);
    hide AckRanges, AnyWalked, OnAck;
  }

  lemma AgainAlone()
    ensures PacketsAt([AGAIN]) == {} && Submits([AGAIN]) == 1
  {
    OneCounted(AGAIN);
  }

  /**
    A witness, with one send more than 2^24: two datagrams arrive and are acknowledged by one range.
    The ACK is delayed until the numbers have come round, and then makes the sender forget a new
    datagram, numbered 0 again, that never arrived.
   */
  lemma LateAckForgetsUnarrived() returns (steps: seq<Step>, w: World, data: seq<byte>)
    ensures Leads(World(Open(0), Open(0)), steps, w) && Submits(steps) == 0x100_0001
    ensures data in w.right.emitted && Classify(data) == Ok(IncomingAck(RangeAck())) && AllRanges(RangeAck())
    ensures var e := w.left.engine;
            0 in Dropped(e, RangeAck(), 0) && 0 in e.unacked && e.unacked[0].bytes !in PacketsAt(steps)
  {
    hide *;
    var first, many, acked, round, got;
    first, acked, data, got := BothAcked();
    many, round := ManySends(acked, 0xff_fffe);
    WrapWhole();
    SendsAgain(round);
    w := Next(round, AGAIN);
    OneStep(round, AGAIN);
    LeadsAppend(Start(), first, acked, many, round);
    LeadsAppend(Start(), first + many, round, [AGAIN], w);
    steps := first + many + [AGAIN];
    RunsAppend(first, many);
    RunsAppend(first + many, [AGAIN]);
    AgainAlone();
    StartIs();
    RangeForgetsFirst(w.left.engine);
    RangeAckIsRange();
    assert PacketsAt(steps) == got;
  }

  lemma WrapWhole()
    ensures Wrap(2 + 0xff_fffe) == 0
  {
  }

  lemma RangeAckIsRange()
    ensures AllRanges(RangeAck())
  {
  }
}
