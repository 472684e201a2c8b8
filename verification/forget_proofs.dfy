/**
  Exactly when a sender forgets datagrams that its peer has not received: for
  every ACK and for whole runs, as long as no number is used twice.
 */
module ForgetProofs {
  import opened Basics
  import opened Datagrams
  import opened DatagramProofs
  import opened ReceiveWindow
  import opened Acks
  import Splitting
  import opened EngineState
  import opened WalkProofs
  import opened SendProofs
  import opened AckLossProofs
  import opened Session
  import opened Delivery
  import opened DropProofs

  // ---------- Datagrams and their numbers ----------

  predicate IsDatagram(b: seq<byte>) {
    Classify(b).Ok? && Classify(b).value.IncomingDatagram?
  }

  function NumberOf(b: seq<byte>): (n: int)
    requires IsDatagram(b)
    ensures 0 <= n < 0x100_0000
  {
    DatagramNormalises(b);
    Classify(b).value.d.sequenceNumber
  }

  ghost function NumbersOf(packets: set<seq<byte>>): set<int> {
    set b | b in packets && IsDatagram(b) :: NumberOf(b)
  }

  /** No two different datagrams with the same number. */
  ghost predicate OneEach(packets: set<seq<byte>>) {
    forall b, c :: b in packets && c in packets && IsDatagram(b) && IsDatagram(c) && NumberOf(b) == NumberOf(c) ==> b == c
  }

  /** The sender has used `used` numbers, each for at most one datagram, and keeps datagrams under their numbers. */
  ghost predicate Sending(p: Endpoint, used: nat) {
    && used <= 0x100_0000 && p.engine.nextDatagram == Wrap(used)
    && OneEach(p.emitted)
    && (forall b :: b in p.emitted && IsDatagram(b) ==> NumberOf(b) < used)
    && forall s :: s in p.engine.unacked ==> Stored(p, s)
  }

  ghost predicate Stored(p: Endpoint, s: int)
    requires s in p.engine.unacked
  {
    var b := p.engine.unacked[s].bytes;
    b in p.emitted && IsDatagram(b) && NumberOf(b) == s
  }

  // ---------- What a step does to the store and to the datagrams on the wire ----------

  /** No new datagram is emitted, and nothing is stored that was not. */
  ghost predicate Quiet(p: Endpoint, p': Endpoint) {
    && p'.engine.nextDatagram == p.engine.nextDatagram && p.emitted <= p'.emitted
    && (forall b :: b in p'.emitted && IsDatagram(b) ==> b in p.emitted)
    && forall s :: s in p'.engine.unacked ==> s in p.engine.unacked && p'.engine.unacked[s].bytes == p.engine.unacked[s].bytes
  }

  ghost predicate StoredEmitted(p: Endpoint) {
    forall s :: s in p.engine.unacked ==> p.engine.unacked[s].bytes in p.emitted
  }

  lemma QuietArrival(p: Endpoint, data: seq<byte>, now: nat)
    requires StoredEmitted(p)
    ensures Quiet(p, Act(p, Arrive(data), now))
    ensures !IsAck(data) ==> Act(p, Arrive(data), now).engine.unacked.Keys == p.engine.unacked.Keys
  {
    var e := p.engine;
    hide Classify, OrderIndices;
    if Classify(data).Ok? {
      match Classify(data).value {
        case IncomingAck(a) =>
          AckRemovesWalked(e.unacked, e.rtt, a.ranges, now);
          hide AckRanges;
        case IncomingNack(a) =>
          NackEmitsWalked(e.unacked, a.ranges, now);
          hide NackRanges;
        case IncomingDatagram(d) =>
          hide AcceptFrames, Drain, Record;
      }
    }
  }

  lemma AcksAreNoDatagrams(a: Option<Acknowledgement>)
    ensures forall b :: b in Encoded(a) ==> !IsDatagram(b)
  {
    if a.Some? {
      EncodedClassified(a.value);
      hide Encoded, Classify;
    } else {
      assert Encoded(a) == [];
    }
  }

  lemma QuietTick(p: Endpoint, now: nat)
    requires StoredEmitted(p)
    ensures Quiet(p, Act(p, Delivery.Action.Tick, now))
    ensures Act(p, Delivery.Action.Tick, now).engine.unacked.Keys == p.engine.unacked.Keys
  {
    var drained := EngineState.DrainAcks(p.engine).0;
    var p' := Act(p, Delivery.Action.Tick, now);
    DrainedOnlyAcks(p.engine);
    ResendStored(drained, now);
    ResendNumbers(drained, now);
    AcksAreNoDatagrams(EngineState.DrainAcks(p.engine).1);
    AcksAreNoDatagrams(BuildNack(drained));
    TickParts(p, now);
    hide Encoded, ResendDue, BuildNack, IsDatagram, Act, EngineState.DrainAcks;
    forall b | b in p'.emitted && IsDatagram(b)
      ensures b in p.emitted
    {
      if b in ResendDue(drained, now).1 {
        var s :| s in drained.unacked && drained.unacked[s].bytes == b;
      }
    }
  }

  lemma ResendNumbers(e: Engine, now: nat)
    ensures ResendDue(e, now).0.nextDatagram == e.nextDatagram
  {
    hide DueBytes, UnackedKeys, RefreshAll;
  }

  lemma QuietKeeps(p: Endpoint, p': Endpoint, used: nat)
    requires Sending(p, used) && Quiet(p, p')
    ensures Sending(p', used)
  {
    hide IsDatagram, Wrap;
    forall s | s in p'.engine.unacked
      ensures Stored(p', s)
    {
      assert Stored(p, s);
    }
  }

  lemma StoredAreEmitted(p: Endpoint, used: nat)
    requires Sending(p, used)
    ensures StoredEmitted(p)
  {
    hide IsDatagram, OneEach;
    assert forall s :: s in p.engine.unacked ==> Stored(p, s);
  }

  /** What a send does to the engine: it uses a number or none, and a successful one stores its datagram under the number. */
  lemma PrepareParts(e: Engine, r: Reliability, body: seq<byte>, max: nat, now: nat)
    ensures var (after, sent) := PrepareSend(e, r, body, max, now);
            && (after.nextDatagram == e.nextDatagram || after.nextDatagram == Wrap(e.nextDatagram + 1))
            && (sent.Err? ==> after.unacked == e.unacked)
            && (sent.Ok? ==> after.nextDatagram == Wrap(e.nextDatagram + 1)
                             && after.unacked == e.unacked[e.nextDatagram := ResendRecord(sent.value, now, 0)])
  {
    hide Splitting.SplitInto, EncodeDatagram, NextFrame, Wrap;
  }

  lemma SentNumber(e: Engine, r: Reliability, body: seq<byte>, max: nat, now: nat)
    requires max <= 0xffff_ffff && PrepareSend(e, r, body, max, now).1.Ok?
    ensures var sent := PrepareSend(e, r, body, max, now).1.value;
            IsDatagram(sent) && NumberOf(sent) == e.nextDatagram
  {
    SentDecodes(e, r, body, max, now);
    hide Classify, PrepareSend, SentFrames;
  }

  lemma SubmitActs(p: Endpoint, r: Reliability, body: seq<byte>, max: nat, now: nat)
    ensures var p', (after, sent) := Act(p, Submit(r, body, max), now), PrepareSend(p.engine, r, body, max, now);
            p'.engine == after && p'.emitted == if sent.Ok? then p.emitted + {sent.value} else p.emitted
  {
    hide PrepareSend, NextFrame;
  }

  /** A send while fewer than 2^24 numbers are used. */
  lemma SubmitKeepsSending(p: Endpoint, r: Reliability, body: seq<byte>, max: nat, now: nat, used: nat) returns (used': nat)
    requires Sending(p, used) && used < 0x100_0000 && max <= 0xffff_ffff
    ensures used <= used' <= used + 1 && Sending(Act(p, Submit(r, body, max), now), used')
    ensures var p' := Act(p, Submit(r, body, max), now);
            forall s :: s in p.engine.unacked ==> s in p'.engine.unacked && p'.engine.unacked[s] == p.engine.unacked[s]
    ensures var p' := Act(p, Submit(r, body, max), now);
            p.emitted <= p'.emitted && forall b :: b in p'.emitted && b !in p.emitted ==> Outstanding(p', b)
  {
    hide Act, PrepareSend, IsDatagram, NumberOf;
    PrepareParts(p.engine, r, body, max, now);
    SubmitActs(p, r, body, max, now);
    var p', sent := Act(p, Submit(r, body, max), now), PrepareSend(p.engine, r, body, max, now).1;
    used' := if p'.engine.nextDatagram == p.engine.nextDatagram then used else used + 1;
    UnusedNumber(p, used);
    if sent.Ok? {
      SentNumber(p.engine, r, body, max, now);
      OneMoreEach(p.emitted, sent.value, used);
      assert p'.engine.unacked[used].bytes == sent.value;
      assert Outstanding(p', sent.value);
    }
    hide OneEach, Outstanding;
    forall s | s in p'.engine.unacked
      ensures Stored(p', s)
    {
      if s in p.engine.unacked { assert Stored(p, s); }
    }
  }

  lemma UnusedNumber(p: Endpoint, used: nat)
    requires Sending(p, used)
    ensures used !in p.engine.unacked
  {
    forall s | s in p.engine.unacked
      ensures s < used
    {
      assert Stored(p, s);
    }
  }

  lemma OneMoreEach(packets: set<seq<byte>>, b: seq<byte>, used: nat)
    requires OneEach(packets) && IsDatagram(b) && NumberOf(b) == used
    requires forall c :: c in packets && IsDatagram(c) ==> NumberOf(c) < used
    ensures OneEach(packets + {b}) && forall c :: c in packets + {b} && IsDatagram(c) ==> NumberOf(c) < used + 1
  {
    hide IsDatagram;
  }

  ghost predicate Outstanding(p: Endpoint, b: seq<byte>) {
    exists s :: s in p.engine.unacked && p.engine.unacked[s].bytes == b
  }

  // ---------- Two endpoints ----------

  /** The packets that a step brings to the right side. */
  function Brought(step: Step): set<seq<byte>> {
    if !step.atLeft && step.action.Arrive? then {step.action.data} else {}
  }

  /** The packets that arrive at the right side in the course of a run. */
  function PacketsAt(steps: seq<Step>): set<seq<byte>> {
    if steps == [] then {} else Brought(steps[0]) + PacketsAt(steps[1..])
  }

  /** How many sends are asked of the left side in the course of a run. */
  function Submits(steps: seq<Step>): nat {
    if steps == [] then 0 else (if IsSend(steps[0]) then 1 else 0) + Submits(steps[1..])
  }

  predicate IsSend(step: Step) {
    step.atLeft && step.action.Submit?
  }

  /** With `got` arrived at the right: the left keeps its numbers apart, and the right acknowledges only what it got. */
  ghost predicate Accounted(w: World, got: set<seq<byte>>, used: nat) {
    && Sending(w.left, used) && got <= w.left.emitted
    && AcksReceived(w.right, NumbersOf(got))
  }

  lemma NumbersBrought(got: set<seq<byte>>, data: seq<byte>)
    ensures NumbersOf(got + {data}) == NumbersOf(got) + Brings(Arrive(data))
  {
    BringsNumber(data);
    hide IsDatagram, Brings;
    forall s
      ensures s in NumbersOf(got + {data}) <==> s in NumbersOf(got) || s in Brings(Arrive(data))
    {
      if s in NumbersOf(got) {
        var b :| b in got && IsDatagram(b) && NumberOf(b) == s;
        assert b in got + {data};
      }
      if s in Brings(Arrive(data)) { assert data in got + {data}; }
    }
  }

  lemma BringsNumber(data: seq<byte>)
    ensures Brings(Arrive(data)) == if IsDatagram(data) then {NumberOf(data)} else {}
  {
    hide Classify;
    if IsDatagram(data) { assert Wrap(NumberOf(data)) == NumberOf(data); }
  }

  lemma RightStep(w: World, step: Step, got: set<seq<byte>>, used: nat)
    requires Accounted(w, got, used) && Enabled(w, step) && !step.atLeft
    ensures Accounted(Next(w, step), got + Brought(step), used) && Next(w, step).left == w.left
  {
    hide Act, Sending, AcksReceived, NumbersOf, Brings;
    ActAcks(w.right, step.action, step.now, NumbersOf(got));
    assert got + {} == got;
    if step.action.Arrive? {
      NumbersBrought(got, step.action.data);
    } else {
      BringsNothing(step.action, NumbersOf(got));
    }
  }

  lemma BringsNothing(action: Delivery.Action, numbers: set<int>)
    requires !action.Arrive?
    ensures numbers + Brings(action) == numbers
  {
  }

  lemma LeftStep(w: World, step: Step, got: set<seq<byte>>, used: nat) returns (used': nat)
    requires Accounted(w, got, used) && Enabled(w, step) && step.atLeft && (IsSend(step) ==> used < 0x100_0000)
    ensures used <= used' <= used + (if IsSend(step) then 1 else 0)
    ensures Accounted(Next(w, step), got + Brought(step), used') && got + Brought(step) == got
  {
    StoredAreEmitted(w.left, used);
    hide Act, Sending, AcksReceived, NumbersOf;
    assert got + {} == got;
    match step.action {
      case Submit(r, body, max) =>
        used' := SubmitKeepsSending(w.left, r, body, max, step.now, used);
      case Arrive(data) =>
        QuietArrival(w.left, data, step.now);
        QuietKeeps(w.left, Next(w, step).left, used);
        used' := used;
      case Tick =>
        QuietTick(w.left, step.now);
        QuietKeeps(w.left, Next(w, step).left, used);
        used' := used;
    }
  }

  lemma AnyStep(w: World, step: Step, got: set<seq<byte>>, used: nat) returns (used': nat)
    requires Accounted(w, got, used) && Enabled(w, step) && (IsSend(step) ==> used < 0x100_0000)
    ensures used <= used' <= used + (if IsSend(step) then 1 else 0)
    ensures Accounted(Next(w, step), got + Brought(step), used')
  {
    hide Act, Accounted, Brought;
    if step.atLeft {
      used' := LeftStep(w, step, got, used);
    } else {
      RightStep(w, step, got, used);
      used' := used;
    }
  }

  lemma {:induction false} RunAccounted(w: World, steps: seq<Step>, w': World, got: set<seq<byte>>, used: nat) returns (used': nat)
    requires Leads(w, steps, w') && Accounted(w, got, used) && used + Submits(steps) <= 0x100_0000
    ensures Accounted(w', got + PacketsAt(steps), used')
    decreases |steps|
  {
    hide Act, Accounted, Brought, Enabled;
    if steps == [] {
      used' := used;
      assert got + {} == got;
    } else {
      var used1 := AnyStep(w, steps[0], got, used);
      used' := RunAccounted(Next(w, steps[0]), steps[1..], w', got + Brought(steps[0]), used1);
      assert got + PacketsAt(steps) == (got + Brought(steps[0])) + PacketsAt(steps[1..]);
    }
  }

  lemma NothingAccounted(now1: nat, now2: nat)
    ensures Accounted(World(Open(now1), Open(now2)), {}, 0)
  {
    assert NumbersOf({}) == {};
  }

  // ---------- What an ACK makes the sender forget ----------

  /** The datagrams that an ACK makes an engine forget. */
  function Dropped(e: Engine, a: Acknowledgement, now: nat): set<int> {
    e.unacked.Keys - OnAck(e, a, now).unacked.Keys
  }

  predicate AllRanges(a: Acknowledgement) {
    forall i :: 0 <= i < |a.ranges| ==> a.ranges[i].Range?
  }

  ghost predicate AllGot(e: Engine, numbers: set<int>, got: set<seq<byte>>)
    requires numbers <= e.unacked.Keys
  {
    forall s :: s in numbers ==> e.unacked[s].bytes in got
  }

  /** What is denoted by an ACK on the wire and outstanding has arrived. */
  lemma DenotedArrived(w: World, got: set<seq<byte>>, used: nat, data: seq<byte>, a: Acknowledgement, s: u24)
    requires Accounted(w, got, used) && data in w.right.emitted && Classify(data) == Ok(IncomingAck(a))
    requires s in w.left.engine.unacked && Denotes(a.ranges, s)
    ensures w.left.engine.unacked[s].bytes in got
  {
    assert Covered(data, NumbersOf(got)) && Stored(w.left, s);
    hide Classify, Denotes, Wrap, IsDatagram;
    assert s in NumbersOf(got);
    var b :| b in got && IsDatagram(b) && NumberOf(b) == s;
    assert b == w.left.engine.unacked[s].bytes;
  }

  lemma StoredNumbers(p: Endpoint, used: nat)
    requires Sending(p, used)
    ensures Numbers24(p.engine.unacked)
  {
    hide OneEach, IsDatagram, Wrap;
    forall s | s in p.engine.unacked
      ensures 0 <= s < 0x100_0000
    {
      assert Stored(p, s);
    }
  }

  lemma DroppedWalked(e: Engine, a: Acknowledgement, now: nat)
    requires Numbers24(e.unacked)
    ensures forall s :: s in Dropped(e, a, now) <==> s in e.unacked && AnyWalked(a.ranges, s)
    ensures AllRanges(a) ==> forall s :: s in Dropped(e, a, now) ==> Denotes(a.ranges, s)
    ensures !AllRanges(a) ==> Dropped(e, a, now) == e.unacked.Keys
  {
    AckRemovesWalked(e.unacked, e.rtt, a.ranges, now);
    forall s | s in e.unacked
      ensures AllRanges(a) && AnyWalked(a.ranges, s) ==> Denotes(a.ranges, s)
      ensures !AllRanges(a) ==> AnyWalked(a.ranges, s)
    {
      WalkedCases(a.ranges, s);
    }
    DroppedStored(e, a, now);
    assert !AllRanges(a) ==> exists i :: 0 <= i < |a.ranges| && a.ranges[i].Single?;
    hide AckRanges, AnyWalked, Denotes, AllRanges, Dropped;
    if !AllRanges(a) {
      assert forall s :: s in e.unacked.Keys <==> s in Dropped(e, a, now);
    }
  }

  lemma DroppedStored(e: Engine, a: Acknowledgement, now: nat)
    ensures Dropped(e, a, now) <= e.unacked.Keys && forall s :: s in Dropped(e, a, now) <==> s in e.unacked && s !in OnAck(e, a, now).unacked
    ensures OnAck(e, a, now).unacked == AckRanges(e.unacked, e.rtt, a.ranges, now).0
  {
    hide AckRanges;
  }

  lemma DropsExactly(w: World, got: set<seq<byte>>, used: nat, data: seq<byte>, a: Acknowledgement, now: nat)
    requires Accounted(w, got, used) && data in w.right.emitted && Classify(data) == Ok(IncomingAck(a))
    ensures Dropped(w.left.engine, a, now) <= w.left.engine.unacked.Keys
    ensures AllGot(w.left.engine, Dropped(w.left.engine, a, now), got) <==>
              AllRanges(a) || AllGot(w.left.engine, w.left.engine.unacked.Keys, got)
  {
    StoredNumbers(w.left, used);
    DroppedWalked(w.left.engine, a, now);
    hide Classify, Dropped, AllRanges, Denotes, AnyWalked;
    if AllRanges(a) {
      forall s | s in Dropped(w.left.engine, a, now)
        ensures w.left.engine.unacked[s].bytes in got
      {
        DenotedArrived(w, got, used, data, a, s);
      }
    }
  }

  /**
    In every run of at most 2^24 sends, whatever was lost, repeated or reordered: an ACK that the right
    side has sent makes the left one forget only datagrams that have arrived, if and only if it has no
    single record, or everything outstanding has arrived anyway.
   */
  lemma DropsOnlyArrivedExactly(now1: nat, now2: nat, steps: seq<Step>, w: World, data: seq<byte>, a: Acknowledgement, now: nat)
    requires Leads(World(Open(now1), Open(now2)), steps, w) && Submits(steps) <= 0x100_0000
    requires data in w.right.emitted && Classify(data) == Ok(IncomingAck(a))
    ensures Dropped(w.left.engine, a, now) <= w.left.engine.unacked.Keys
    ensures AllGot(w.left.engine, Dropped(w.left.engine, a, now), PacketsAt(steps)) <==>
              AllRanges(a) || AllGot(w.left.engine, w.left.engine.unacked.Keys, PacketsAt(steps))
  {
    hide *;
    NothingAccounted(now1, now2);
    var used := RunAccounted(World(Open(now1), Open(now2)), steps, w, {}, 0);
    assert {} + PacketsAt(steps) == PacketsAt(steps);
    DropsExactly(w, PacketsAt(steps), used, data, a, now);
  }

  // ---------- Whole runs ----------

  /** Every datagram the left side has sent has arrived or is outstanding. */
  ghost predicate NoneForgotten(w: World, got: set<seq<byte>>) {
    forall b :: b in w.left.emitted && IsDatagram(b) ==> b in got || Outstanding(w.left, b)
  }

  /** A step is harmless unless it is an ACK with a single record that finds something outstanding that has not arrived. */
  ghost predicate Harmless(w: World, got: set<seq<byte>>, step: Step) {
    step.atLeft && step.action.Arrive? && IsAck(step.action.data) ==>
      AllRanges(Classify(step.action.data).value.a) || AllGot(w.left.engine, w.left.engine.unacked.Keys, got)
  }

  lemma AckStep(w: World, got: set<seq<byte>>, used: nat, step: Step)
    requires Accounted(w, got, used) && Enabled(w, step) && step.atLeft && step.action.Arrive? && IsAck(step.action.data)
    ensures var a := Classify(step.action.data).value.a;
            && Next(w, step).left.engine.unacked == OnAck(w.left.engine, a, step.now).unacked
            && Next(w, step).left.emitted == w.left.emitted
            && (Harmless(w, got, step) ==> AllGot(w.left.engine, Dropped(w.left.engine, a, step.now), got))
            && (!Harmless(w, got, step) ==> OnAck(w.left.engine, a, step.now).unacked == map[])
            && forall s :: s in OnAck(w.left.engine, a, step.now).unacked ==>
                 s in w.left.engine.unacked && OnAck(w.left.engine, a, step.now).unacked[s] == w.left.engine.unacked[s]
  {
    var a := Classify(step.action.data).value.a;
    DropsExactly(w, got, used, step.action.data, a, step.now);
    StoredNumbers(w.left, used);
    AckLeaves(w.left.engine, a, step.now);
    AckEmitsNothing(w.left, step.action.data, a, step.now);
    hide OnAck, Classify, Dropped, Act, Accounted, AllRanges, AllGot;
  }

  /** An ACK leaves stored datagrams as they are, and none if it has a single record. */
  lemma AckLeaves(e: Engine, a: Acknowledgement, now: nat)
    requires Numbers24(e.unacked)
    ensures var left := OnAck(e, a, now).unacked;
            && (forall s :: s in left ==> s in e.unacked && left[s] == e.unacked[s])
            && (!AllRanges(a) ==> left == map[])
  {
    DroppedWalked(e, a, now);
    DroppedStored(e, a, now);
    AckRemovesWalked(e.unacked, e.rtt, a.ranges, now);
    hide OnAck, AckRanges, AnyWalked, Denotes, AllRanges;
  }

  lemma AckEmitsNothing(p: Endpoint, data: seq<byte>, a: Acknowledgement, now: nat)
    requires Classify(data) == Ok(IncomingAck(a))
    ensures Act(p, Arrive(data), now).engine == OnAck(p.engine, a, now) && Act(p, Arrive(data), now).emitted == p.emitted
  {
    hide Classify, AckRanges, OrderIndices;
  }

  /** A harmless step leaves nothing forgotten. */
  lemma HarmlessStep(w: World, got: set<seq<byte>>, used: nat, step: Step)
    requires Accounted(w, got, used) && Enabled(w, step) && (IsSend(step) ==> used < 0x100_0000)
    requires NoneForgotten(w, got) && Harmless(w, got, step)
    ensures NoneForgotten(Next(w, step), got + Brought(step))
  {
    if !step.atLeft {
      hide Act, IsDatagram;
    } else if step.action.Submit? {
      var used' := SubmitKeepsSending(w.left, step.action.r, step.action.body, step.action.max, step.now, used);
      hide Act, IsDatagram, Sending, AcksReceived;
    } else if step.action.Arrive? && IsAck(step.action.data) {
      AckStep(w, got, used, step);
      hide Act, IsDatagram, OnAck, Accounted, Classify, IsAck, Harmless;
    } else {
      StoredAreEmitted(w.left, used);
      if step.action.Arrive? {
        QuietArrival(w.left, step.action.data, step.now);
      } else {
        QuietTick(w.left, step.now);
      }
      hide Act, IsDatagram, Accounted, Classify, IsAck, Harmless;
    }
  }

  /** A harmful one forgets something. */
  lemma HarmfulStep(w: World, got: set<seq<byte>>, used: nat, step: Step)
    requires Accounted(w, got, used) && Enabled(w, step) && !Harmless(w, got, step)
    ensures !NoneForgotten(Next(w, step), got + Brought(step))
  {
    AckStep(w, got, used, step);
    var s :| s in w.left.engine.unacked && w.left.engine.unacked[s].bytes !in got;
    assert Stored(w.left, s);
    var b := w.left.engine.unacked[s].bytes;
    hide Act, IsDatagram, OnAck, Classify, IsAck;
    assert b in Next(w, step).left.emitted && b !in got + Brought(step) && !Outstanding(Next(w, step).left, b);
  }

  /** At every point of the run nothing has been forgotten. */
  ghost predicate NeverForgets(w: World, got: set<seq<byte>>, steps: seq<Step>)
    decreases |steps|
  {
    NoneForgotten(w, got) && (steps != [] ==> NeverForgets(Next(w, steps[0]), got + Brought(steps[0]), steps[1..]))
  }

  ghost predicate AllHarmless(w: World, got: set<seq<byte>>, steps: seq<Step>)
    decreases |steps|
  {
    steps != [] ==>
      Harmless(w, got, steps[0]) && AllHarmless(Next(w, steps[0]), got + Brought(steps[0]), steps[1..])
  }

  lemma {:induction false} ForgetsExactly(w: World, steps: seq<Step>, w': World, got: set<seq<byte>>, used: nat)
    requires Leads(w, steps, w') && Accounted(w, got, used) && used + Submits(steps) <= 0x100_0000 && NoneForgotten(w, got)
    ensures NeverForgets(w, got, steps) <==> AllHarmless(w, got, steps)
    decreases |steps|
  {
    hide Act, Accounted, Brought, Enabled, Harmless, NoneForgotten;
    if steps != [] {
      var step := steps[0];
      if Harmless(w, got, step) {
        HarmlessStep(w, got, used, step);
        var used' := AnyStep(w, step, got, used);
        ForgetsExactly(Next(w, step), steps[1..], w', got + Brought(step), used');
      } else {
        HarmfulStep(w, got, used, step);
      }
    }
  }

  /**
    In every run of at most 2^24 sends: at every point each datagram sent has arrived or is still
    outstanding, if and only if each ACK processed had no single record, or found everything
    outstanding already arrived.
   */
  lemma NeverForgetsExactly(now1: nat, now2: nat, steps: seq<Step>, w: World)
    requires Leads(World(Open(now1), Open(now2)), steps, w) && Submits(steps) <= 0x100_0000
    ensures var start := World(Open(now1), Open(now2));
            NeverForgets(start, {}, steps) <==> AllHarmless(start, {}, steps)
  {
    hide *;
    NothingAccounted(now1, now2);
    NothingSent(now1, now2);
    ForgetsExactly(World(Open(now1), Open(now2)), steps, w, {}, 0);
  }

  lemma NothingSent(now1: nat, now2: nat)
    ensures NoneForgotten(World(Open(now1), Open(now2)), {})
  {
  }
}
