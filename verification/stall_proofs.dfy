/**
  What a failed ordered send does to the stream: its order index is used up, and
  the receiver waits for it for ever.
 */
module StallProofs {
  import opened Ascending
  import opened Basics
  import opened Datagrams
  import opened Splitting
  import opened EngineState
  import opened SendProofs
  import opened Session
  import opened Delivery
  import opened DeliveryProofs

  /** Nothing that was submitted is ever taken back, and a lost index stays lost. */
  lemma {:induction false} HistoryStays(w: World, steps: seq<Step>, w': World)
    requires Leads(w, steps, w')
    ensures Extends(w.left.sent, w'.left.sent)
    decreases |steps|
  {
    if steps == [] {
      assert w == w';
    } else {
      var step := steps[0];
      HistoryStays(Next(w, step), steps[1..], w');
      if step.atLeft { HistoryGrows(w.left, step.action, step.now); }
      hide Act;
    }
  }

  lemma FailedSubmit(w: World, r: Reliability, body: seq<byte>, max: nat, now: nat)
    requires r.IsOrdered() && max <= 0xffff_ffff && PrepareSend(w.left.engine, r, body, max, now).1.Err?
    ensures var submit := Step(true, Submit(r, body, max), now);
            var w' := Next(w, submit);
            && Enabled(w, submit) && |w.left.sent.ordered| in w'.left.sent.lost && w.left.sent.ordered <= w'.left.sent.ordered
  {
    NextFrameFields(w.left.engine, r, body);
    hide PrepareSend, NextFrame;
  }

  /**
    Once an ordered send has failed, no continuation of the run releases anything that was submitted
    after it.
   */
  lemma FailedSendStops(
    now1: nat, now2: nat, before: seq<Step>, w: World, r: Reliability, body: seq<byte>, max: nat, now: nat,
    more: seq<Step>, w': World)
    requires Leads(World(Open(now1), Open(now2)), before, w)
    requires r.IsOrdered() && max <= 0xffff_ffff && PrepareSend(w.left.engine, r, body, max, now).1.Err?
    requires Leads(Next(w, Step(true, Submit(r, body, max), now)), more, w') && Fewer(w')
    ensures w'.right.released <= w.left.sent.ordered
  {
    hide *;
    var start, submit := World(Open(now1), Open(now2)), Step(true, Submit(r, body, max), now);
    FailedSubmit(w, r, body, max, now);
    OneStep(w, submit);
    LeadsAppend(start, before, w, [submit], Next(w, submit));
    LeadsAppend(start, before + [submit], Next(w, submit), more, w');
    EndToEnd(now1, now2, before + [submit] + more, w');
    HistoryStays(Next(w, submit), more, w');
    StopsAt(w.left.sent, Next(w, submit).left.sent, w'.left, w'.right);
  }

  lemma StopsAt(h: History, h': History, from: Endpoint, to: Endpoint)
    requires |h.ordered| in h'.lost && h.ordered <= h'.ordered
    requires Extends(h', from.sent) && Delivered(from, to)
    ensures to.released <= h.ordered
  {
    assert |to.released| <= |h.ordered|;
    assert to.released == from.sent.ordered[..|to.released|] == h.ordered[..|to.released|];
  }

  // ---------- A stream without failed sends goes on ----------

  /** Some packet on the wire carries the ordered frame number `i`. */
  ghost predicate Wired(p: Endpoint, i: int) {
    exists b :: b in p.emitted && i in OrderIndices(b)
  }

  /** Every ordered frame whose send succeeded is on the wire. */
  ghost predicate AllWired(p: Endpoint) {
    forall i :: 0 <= i < |p.sent.ordered| && i !in p.sent.lost ==> Wired(p, i)
  }

  lemma EmittedGrows(p: Endpoint, action: Action, now: nat)
    ensures p.emitted <= Act(p, action, now).emitted
    ensures !action.Submit? ==> Act(p, action, now).sent == p.sent
  {
    hide PrepareSend, HandleIncoming, Session.Tick, OrderIndices, NextFrame;
  }

  lemma SubmitWires(p: Endpoint, r: Reliability, body: seq<byte>, max: nat, now: nat)
    requires p.engine.nextOrder == |p.sent.ordered| && r.IsOrdered() && max <= 0xffff_ffff
    requires PrepareSend(p.engine, r, body, max, now).1.Ok?
    ensures Wired(Act(p, Submit(r, body, max), now), |p.sent.ordered|)
  {
    var e, data := p.engine, PrepareSend(p.engine, r, body, max, now).1.value;
    SentDecodes(e, r, body, max, now);
    NextFrameFields(e, r, body);
    IndicesOfSplit(NextFrame(e, r, body), max, SplitId(e.nextDatagram), SentFrames(e, r, body, max).value);
    hide SplitInto, Classify, PrepareSend;
    assert |p.sent.ordered| in OrderIndices(data);
    hide OrderIndices;
    assert data in Act(p, Submit(r, body, max), now).emitted;
  }

  lemma SubmitHistory(p: Endpoint, r: Reliability, body: seq<byte>, max: nat, now: nat)
    ensures var h := Act(p, Submit(r, body, max), now).sent;
            if !r.IsOrdered() then h.ordered == p.sent.ordered && h.lost == p.sent.lost
            else && |h.ordered| == |p.sent.ordered| + 1
                 && h.lost == if PrepareSend(p.engine, r, body, max, now).1.Ok? then p.sent.lost else p.sent.lost + {|p.sent.ordered|}
  {
    NextFrameFields(p.engine, r, body);
    hide PrepareSend, NextFrame;
  }

  lemma ActWires(p: Endpoint, action: Action, now: nat)
    requires SendSide(p) && AllWired(p) && (action.Submit? ==> action.max <= 0xffff_ffff)
    requires |Act(p, action, now).sent.ordered| < 0x100_0000
    ensures AllWired(Act(p, action, now))
  {
    hide *;
    var p' := Act(p, action, now);
    EmittedGrows(p, action, now);
    if action.Submit? {
      var Submit(r, body, max) := action;
      SubmitHistory(p, r, body, max, now);
      if r.IsOrdered() && PrepareSend(p.engine, r, body, max, now).1.Ok? {
        NextIsCount(p);
        SubmitWires(p, r, body, max, now);
      }
    }
    WiresStay(p, p');
  }

  lemma NextIsCount(p: Endpoint)
    requires SendSide(p) && |p.sent.ordered| < 0x100_0000
    ensures p.engine.nextOrder == |p.sent.ordered|
  {
    hide Genuine;
  }

  lemma WiresStay(p: Endpoint, p': Endpoint)
    requires AllWired(p) && p.emitted <= p'.emitted && p.sent.lost <= p'.sent.lost
    requires forall i :: |p.sent.ordered| <= i < |p'.sent.ordered| && i !in p'.sent.lost ==> Wired(p', i)
    ensures AllWired(p')
  {
    hide OrderIndices;
    forall i | 0 <= i < |p'.sent.ordered| && i !in p'.sent.lost
      ensures Wired(p', i)
    {
      if i < |p.sent.ordered| { assert Wired(p, i); }
    }
  }

  lemma {:induction false} RunWires(w: World, steps: seq<Step>, w': World)
    requires Leads(w, steps, w') && Fewer(w') && Sound(w) && AllWired(w.left)
    ensures Sound(w') && AllWired(w'.left)
    decreases |steps|
  {
    hide *;
    LeadsKeeps(w, steps, w');
    if steps == [] {
      NoStepsOnly(w, w');
    } else {
      var step, next := steps[0], Next(w, steps[0]);
      FirstStep(w, steps, w');
      FewerBefore(next, steps[1..], w');
      OneStep(w, step);
      LeadsKeeps(w, [step], next);
      WorldWires(w, step);
      RunWires(next, steps[1..], w');
    }
  }

  lemma NoSteps(w: World)
    ensures Leads(w, [], w)
  {
  }

  lemma NoStepsOnly(w: World, w': World)
    requires Leads(w, [], w')
    ensures w' == w
  {
  }

  lemma FirstStep(w: World, steps: seq<Step>, w': World)
    requires steps != [] && Leads(w, steps, w')
    ensures Enabled(w, steps[0]) && Leads(Next(w, steps[0]), steps[1..], w')
  {
    hide Act, Possible;
  }

  lemma WorldWires(w: World, step: Step)
    requires Sound(w) && AllWired(w.left) && Enabled(w, step) && Fewer(Next(w, step))
    ensures AllWired(Next(w, step).left)
  {
    hide Act, SendSide, ReceiveSide, AllWired;
    if step.atLeft { ActWires(w.left, step.action, step.now); }
  }

  /** A continuation in which the first `n` ordered frames arrive. */
  lemma {:induction false} BringOrdered(w: World, n: nat) returns (more: seq<Step>, w': World)
    requires AllWired(w.left) && w.left.sent.lost == {} && n <= |w.left.sent.ordered|
    ensures Leads(w, more, w') && w'.left == w.left && w'.right.sent == w.right.sent
    ensures forall i :: 0 <= i < n ==> i in w'.right.arrived
  {
    hide *;
    if n == 0 {
      more, w' := [], w;
      NoSteps(w);
    } else {
      var before, mid := BringOrdered(w, n - 1);
      var step := BringOne(w, mid, n - 1);
      w' := Next(mid, step);
      more := before + [step];
      OneStep(mid, step);
      LeadsAppend(w, before, mid, [step], w');
    }
  }

  lemma BringOne(w: World, mid: World, i: nat) returns (step: Step)
    requires AllWired(w.left) && w.left.sent.lost == {} && i < |w.left.sent.ordered| && mid.left == w.left
    ensures Enabled(mid, step) && Next(mid, step).left == w.left && Next(mid, step).right.sent == mid.right.sent
    ensures mid.right.arrived <= Next(mid, step).right.arrived && i in Next(mid, step).right.arrived
  {
    assert Wired(w.left, i);
    var b :| b in w.left.emitted && i in OrderIndices(b);
    step := Step(false, Arrive(b), 0);
    ArrivedGrows(mid.right, b);
    EmittedGrows(mid.right, Arrive(b), 0);
    hide Act, OrderIndices;
  }

  lemma ArrivedGrows(p: Endpoint, data: seq<byte>)
    ensures Act(p, Arrive(data), 0).arrived == p.arrived + OrderIndices(data)
  {
    hide HandleIncoming, OrderIndices;
  }

  /** Some continuation of a run releases everything that has been submitted so far. */
  ghost predicate CanFinish(w: World) {
    exists more, w' :: Finishes(w, more, w')
  }

  ghost predicate Finishes(w: World, more: seq<Step>, w': World) {
    Leads(w, more, w') && Fewer(w') && w.left.sent.ordered <= w'.right.released
  }

  /**
    At any point of any run in which fewer than 2^24 ordered frames are submitted a side: everything
    submitted so far can still be released if and only if no ordered send has failed.
   */
  lemma GoesOnExactly(now1: nat, now2: nat, steps: seq<Step>, w: World)
    requires Leads(World(Open(now1), Open(now2)), steps, w) && Fewer(w)
    ensures CanFinish(w) <==> w.left.sent.lost == {}
  {
    hide *;
    var start := World(Open(now1), Open(now2));
    if w.left.sent.lost == {} {
      SoundAtFirst(now1, now2);
      NothingWired(now1, now2);
      RunWires(start, steps, w);
      var more, w' := BringOrdered(w, |w.left.sent.ordered|);
      LeadsAppend(start, steps, w, more, w');
      StillFewer(w, w');
      AllArrivedAllReleased(now1, now2, steps + more, w');
      FinishesSo(w, more, w');
    } else {
      forall more, w' | Finishes(w, more, w')
        ensures false
      {
        FinishesMeans(w, more, w');
        LeadsAppend(start, steps, w, more, w');
        EndToEnd(now1, now2, steps + more, w');
        HistoryStays(w, more, w');
        EndToEnd(now1, now2, steps, w);
        LostInside(now1, now2, steps, w);
        NeverPast(w, w');
      }
      CannotFinish(w);
    }
  }

  lemma NothingWired(now1: nat, now2: nat)
    ensures AllWired(World(Open(now1), Open(now2)).left)
  {
  }

  lemma StillFewer(w: World, w': World)
    requires Fewer(w) && w'.left == w.left && w'.right.sent == w.right.sent
    ensures Fewer(w')
  {
  }

  lemma FinishesSo(w: World, more: seq<Step>, w': World)
    requires Leads(w, more, w') && Fewer(w') && w'.right.released == w.left.sent.ordered
    ensures CanFinish(w)
  {
    hide Leads;
    assert Finishes(w, more, w');
  }

  lemma FinishesMeans(w: World, more: seq<Step>, w': World)
    requires Finishes(w, more, w')
    ensures Leads(w, more, w') && Fewer(w') && w.left.sent.ordered <= w'.right.released
  {
  }

  lemma CannotFinish(w: World)
    requires forall more, w' :: !Finishes(w, more, w')
    ensures !CanFinish(w)
  {
  }

  lemma LostInside(now1: nat, now2: nat, steps: seq<Step>, w: World)
    requires Leads(World(Open(now1), Open(now2)), steps, w) && Fewer(w)
    ensures forall i :: i in w.left.sent.lost ==> 0 <= i < |w.left.sent.ordered|
  {
    SoundAtFirst(now1, now2);
    LeadsKeeps(World(Open(now1), Open(now2)), steps, w);
    hide Leads;
  }

  /** A lost index is never passed. */
  lemma NeverPast(w: World, w': World)
    requires Extends(w.left.sent, w'.left.sent) && Delivered(w'.left, w'.right) && w.left.sent.lost != {}
    requires forall i :: i in w.left.sent.lost ==> 0 <= i < |w.left.sent.ordered|
    ensures !(w.left.sent.ordered <= w'.right.released)
  {
    HasElement(w.left.sent.lost);
    var i :| i in w.left.sent.lost;
    assert |w'.right.released| <= i < |w.left.sent.ordered|;
  }

  // ---------- The first payload ----------

  /** What a send needs, as a caller can tell beforehand. */
  predicate Sendable(body: seq<byte>, max: nat) {
    && 0 < max
    && if |body| <= max then |body| <= 8191 else max <= 8191 && PieceCount(|body|, max) <= 0xffff_ffff
  }

  /** Some continuation of a run releases something on the right. */
  ghost predicate CanRelease(w: World) {
    exists more, w' :: Leads(w, more, w') && Fewer(w') && w'.right.released != []
  }

  /** Exactly when a stream's first payload, or anything at all behind it, can be released. */
  lemma FirstReleasedExactly(now1: nat, now2: nat, r: Reliability, body: seq<byte>, max: nat, now: nat)
    requires r.IsOrdered() && max <= 0xffff_ffff
    ensures var after := Next(World(Open(now1), Open(now2)), Step(true, Submit(r, body, max), now));
            && (CanFinish(after) <==> Sendable(body, max)) && (CanRelease(after) <==> Sendable(body, max))
  {
    var start, submit := World(Open(now1), Open(now2)), Step(true, Submit(r, body, max), now);
    var after := Next(start, submit);
    SendSucceedsExactly(NewEngine(now1), r, body, max, now);
    SubmitHistory(Open(now1), r, body, max, now);
    OneStep(start, submit);
    SubmitLeavesRight(start, submit);
    assert Fewer(after) && Leads(start, [], start);
    assert 0 in {} + {0};
    hide Act, Leads, PrepareSend, PieceCount;
    GoesOnExactly(now1, now2, [submit], after);
    if CanFinish(after) {
      var more, w' :| Finishes(after, more, w');
      assert Leads(after, more, w') && w'.right.released != [];
    } else {
      forall more, w' | Leads(after, more, w') && Fewer(w')
        ensures w'.right.released == []
      {
        FailedSendStops(now1, now2, [], start, r, body, max, now, more, w');
      }
    }
  }

  lemma SubmitLeavesRight(w: World, step: Step)
    requires step.atLeft
    ensures Next(w, step).right == w.right
  {
  }

  /**
    An input: on a connection with an MTU of 9000, an ordered payload of 8192 bytes is within the
    budget and cannot be encoded, and nothing sent after it is ever released.
   */
  lemma JumboPayloadStalls(now1: nat, now2: nat, body: seq<byte>, now: nat, more: seq<Step>, w: World)
    requires |body| == 8192
    requires Leads(Next(World(Open(now1), Open(now2)), Step(true, Submit(ReliableOrdered, body, MaxFrameBody(9000)), now)), more, w)
    requires Fewer(w)
    ensures |body| <= MaxFrameBody(9000) && w.right.released == []
  {
    var start := World(Open(now1), Open(now2));
    SendSucceedsExactly(NewEngine(now1), ReliableOrdered, body, MaxFrameBody(9000), now);
    assert Leads(start, [], start);
    hide Leads, Act, PrepareSend;
    FailedSendStops(now1, now2, [], start, ReliableOrdered, body, MaxFrameBody(9000), now, more, w);
  }
}
