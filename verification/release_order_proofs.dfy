/**
  What is delivered in runs of any length. Exactly those runs release ordered
  frames in order in which every frame released is the last to have arrived under
  its index; and frames that are not ordered are handed over as they arrive.
 */
module ReleaseOrderProofs {
  import opened Basics
  import opened Datagrams
  import LayoutProofs
  import opened Splitting
  import opened Reassembly
  import opened ReceiveWindow
  import opened Acks
  import opened EngineState
  import opened SendProofs
  import opened Session
  import opened Delivery
  import opened DeliveryProofs

  // ---------- The frames that arrive ----------

  function Bodies(frames: seq<Frame>): seq<byte> {
    if frames == [] then [] else Bodies(frames[..|frames| - 1]) + frames[|frames| - 1].body
  }

  /** The frame whose pieces a packet carries, if it carries any of the kind. */
  function FrameIn(data: seq<byte>, ordered: bool): seq<Frame> {
    match Classify(data)
    case Ok(IncomingDatagram(d)) =>
      if d.frames != [] && LayoutProofs.HasOrderIndex(d.frames[0].reliability) == ordered
      then [d.frames[0].Template().WithBody(Bodies(d.frames))] else []
    case _ => []
  }

  function OrderedIn(data: seq<byte>): seq<Frame> {
    FrameIn(data, true)
  }

  function FramesBrought(step: Step): seq<Frame> {
    if !step.atLeft && step.action.Arrive? then OrderedIn(step.action.data) else []
  }

  /** The frames that are not ordered, as a step brings them. */
  function HandedBy(step: Step): seq<Frame> {
    if !step.atLeft && step.action.Arrive? then FrameIn(step.action.data, false) else []
  }

  function HandedOver(steps: seq<Step>): seq<Frame> {
    if steps == [] then [] else HandedBy(steps[0]) + HandedOver(steps[1..])
  }

  /** The last of the frames that have arrived under an index, which the wire knows modulo 2^24. */
  function LastUnder(arrivals: seq<Frame>, k: int): Option<Frame> {
    if arrivals == [] then None
    else
      var last := arrivals[|arrivals| - 1];
      if last.orderIndex.Some? && last.orderIndex.value == k then Some(last) else LastUnder(arrivals[..|arrivals| - 1], k)
  }

  lemma {:induction false} BodiesOfPieces(g: Group, frames: seq<Frame>)
    requires g.Splits() && |frames| <= g.Count()
    requires forall i :: 0 <= i < |frames| ==> frames[i] == g.At(i)
    ensures Bodies(frames) == g.frame.body[..PieceStart(|g.frame.body|, g.max, |frames|)]
  {
    if frames != [] {
      hide PieceCount, PieceStart;
      var last, body := |frames| - 1, g.frame.body;
      BodiesOfPieces(g, frames[..last]);
      PieceStartStep(|body|, g.max, last);
      var start, end := PieceStart(|body|, g.max, last), PieceStart(|body|, g.max, |frames|);
      assert body[..start] + body[start..end] == body[..end];
    }
  }

  /** The pieces of a frame give the frame back. */
  lemma PiecesCarryFrame(f: Frame, max: nat, id: u16, frames: seq<Frame>)
    requires f.split.None? && SplitInto(f, max, id) == Ok(frames)
    ensures frames != [] && frames[0].reliability == f.reliability && frames[0].Template().WithBody(Bodies(frames)) == f
  {
    SplitShape(f, max, id);
    if |f.body| > max {
      var g := Group(f, max, id);
      GroupCount(g);
      BodiesOfPieces(g, frames);
      AllPieces(g);
      hide PieceCount, Fragment, SplitInto, PieceStart;
      assert frames[0] == g.At(0) && frames[0].Template() == f.Template();
      assert f.body[..|f.body|] == f.body;
    } else {
      assert frames == [f] && frames[..0] == [] && [] + f.body == f.body;
    }
  }

  lemma CarriedFrame(data: seq<byte>, d: Datagram, f: Frame, max: nat, id: u16)
    requires Classify(data) == Ok(IncomingDatagram(d)) && f.split.None? && SplitInto(f, max, id) == Ok(d.frames)
    ensures OrderedIn(data) == if f.reliability.IsOrdered() then [f] else []
    ensures FrameIn(data, false) == if f.reliability.IsOrdered() then [] else [f]
  {
    PiecesCarryFrame(f, max, id, d.frames);
    hide Classify, SplitInto, Bodies;
  }

  // ---------- What the queue holds ----------

  /** Each queued frame is the last to have arrived under its index. */
  ghost predicate Latest(queue: map<int, Frame>, arrivals: seq<Frame>) {
    forall k :: k in queue ==> LastUnder(arrivals, k) == Some(queue[k])
  }

  ghost predicate Logged(p: Endpoint, arrivals: seq<Frame>) {
    && p.engine.reassemblers == map[] && !p.refused
    && p.engine.nextDelivery == Wrap(|p.released|) && Latest(p.engine.orderQueue, arrivals)
  }

  /** The frames released from the count `next` on are the last under their indices. */
  ghost predicate FromLatest(frames: seq<Frame>, next: nat, arrivals: seq<Frame>) {
    forall m :: 0 <= m < |frames| ==> LastUnder(arrivals, Wrap(next + m)) == Some(frames[m])
  }

  lemma LatestMore(queue: map<int, Frame>, arrivals: seq<Frame>, f: Frame)
    requires Latest(queue, arrivals) && f.orderIndex.Some?
    ensures Latest(queue[f.orderIndex.value := f], arrivals + [f])
  {
    var more := arrivals + [f];
    assert more[..|more| - 1] == arrivals;
  }

  lemma {:induction false} DrainLatest(queue: map<int, Frame>, next: nat, arrivals: seq<Frame>)
    requires Latest(queue, arrivals)
    ensures var (left, due, frames) := Drain(queue, Wrap(next));
            FromLatest(frames, next, arrivals) && due == Wrap(next + |frames|) && Latest(left, arrivals)
    decreases |queue|
  {
    WrapNext(next);
    hide Wrap, LastUnder;
    if Wrap(next) in queue {
      SmallerQueue(queue, Wrap(next));
      var rest := queue - {Wrap(next) as int};
      DrainLatest(rest, next + 1, arrivals);
      var (_, _, frames) := Drain(rest, Wrap(next + 1));
      LatestFirst(queue[Wrap(next)], frames, next, arrivals);
    }
  }

  lemma LatestFirst(f: Frame, frames: seq<Frame>, next: nat, arrivals: seq<Frame>)
    requires LastUnder(arrivals, Wrap(next)) == Some(f) && FromLatest(frames, next + 1, arrivals)
    ensures FromLatest([f] + frames, next, arrivals)
  {
    hide Wrap, LastUnder;
    forall m | 0 <= m < |[f] + frames|
      ensures LastUnder(arrivals, Wrap(next + m)) == Some(([f] + frames)[m])
    {
      if m > 0 { assert LastUnder(arrivals, Wrap(next + 1 + (m - 1))) == Some(frames[m - 1]); }
    }
  }

  // ---------- The steps ----------

  /**
    What a step of the right side does: it hands over `handed`, and releases, of the ordered frames
    that have arrived, the last under each index in turn.
   */
  ghost predicate ReleasesLatest(p: Endpoint, p': Endpoint, arrivals: seq<Frame>, handed: seq<Frame>) {
    && p'.immediate == p.immediate + handed && Logged(p', arrivals) && p.released <= p'.released
    && FromLatest(p'.released[|p.released|..], |p.released|, arrivals)
  }

  lemma DatagramReleases(p: Endpoint, data: seq<byte>, d: Datagram, now: nat, h: History, arrivals: seq<Frame>)
    requires Logged(p, arrivals) && Genuine(data, h) && Classify(data) == Ok(IncomingDatagram(d))
    ensures ReleasesLatest(p, Act(p, Arrive(data), now), arrivals + OrderedIn(data), FrameIn(data, false))
  {
    hide Classify, SplitInto, AcceptFrames, Drain, OrderIndices, Wrap, Latest, OrderedIn, FrameIn, OnDatagram, Act;
    var f, max, id :| SplitInto(f, max, id) == Ok(d.frames) && Submitted(f, h);
    OneDatagram(p, d, f, max, id, now);
    CarriedFrame(data, d, f, max, id);
    ArriveEffects(p, data, d, now);
    var after := arrivals + OrderedIn(data);
    if f.reliability.IsOrdered() {
      LatestMore(p.engine.orderQueue, arrivals, f);
    } else {
      assert after == arrivals;
    }
    var queue := OnDatagram(p.engine, d, now).0.orderQueue;
    DrainLatest(queue, |p.released|, after);
    var (left, due, frames) := Drain(queue, Wrap(|p.released|));
    assert (p.released + frames)[|p.released|..] == frames;
  }

  lemma NoDatagram(p: Endpoint, data: seq<byte>, now: nat)
    requires Classify(data).Ok? && !Classify(data).value.IncomingDatagram?
    ensures OrderedIn(data) == [] == FrameIn(data, false) && SameReceiver(p, Act(p, Arrive(data), now))
  {
    hide Classify, AckRanges, NackRanges, OrderIndices;
  }

  ghost predicate SameReceiver(p: Endpoint, p': Endpoint) {
    && p'.engine.reassemblers == p.engine.reassemblers && p'.engine.orderQueue == p.engine.orderQueue
    && p'.engine.nextDelivery == p.engine.nextDelivery && p'.released == p.released && p'.refused == p.refused
    && p'.immediate == p.immediate
  }

  lemma SubmitLeavesReceiver(p: Endpoint, r: Reliability, body: seq<byte>, max: nat, now: nat)
    ensures SameReceiver(p, Act(p, Submit(r, body, max), now))
  {
    hide SplitInto, EncodeDatagram, NextFrame, Wrap;
  }

  lemma TickLeavesReceiver(p: Endpoint, now: nat)
    ensures SameReceiver(p, Act(p, Delivery.Action.Tick, now))
  {
    ResendLeavesReceiver(EngineState.DrainAcks(p.engine).0, now);
    hide Encoded, ResendDue, BuildNack, Coalesce, IsAlive;
  }

  lemma ResendLeavesReceiver(e: Engine, now: nat)
    ensures var after := ResendDue(e, now).0;
            after.reassemblers == e.reassemblers && after.orderQueue == e.orderQueue && after.nextDelivery == e.nextDelivery
  {
    hide DueBytes, UnackedKeys, RefreshAll;
  }

  lemma SameReleases(p: Endpoint, p': Endpoint, arrivals: seq<Frame>)
    requires Logged(p, arrivals) && SameReceiver(p, p')
    ensures ReleasesLatest(p, p', arrivals, [])
  {
    hide Latest, Wrap;
    assert p'.released[|p.released|..] == [];
  }

  lemma RightReleases(w: World, step: Step, arrivals: seq<Frame>)
    requires SendSide(w.left) && Logged(w.right, arrivals) && Enabled(w, step) && !step.atLeft
    ensures ReleasesLatest(w.right, Next(w, step).right, arrivals + FramesBrought(step), HandedBy(step))
  {
    hide Act, Logged, Latest, Wrap, Classify, ReleasesLatest, SameReceiver, OrderedIn, FrameIn, CarriesSubmitted;
    assert arrivals + [] == arrivals;
    if !step.action.Arrive? {
      if step.action.Submit? {
        SubmitLeavesReceiver(w.right, step.action.r, step.action.body, step.action.max, step.now);
      } else {
        TickLeavesReceiver(w.right, step.now);
      }
      SameReleases(w.right, Next(w, step).right, arrivals);
    } else {
      var data := step.action.data;
      assert Genuine(data, w.left.sent);
      if Classify(data).value.IncomingDatagram? {
        DatagramReleases(w.right, data, Classify(data).value.d, step.now, w.left.sent, arrivals);
      } else {
        NoDatagram(w.right, data, step.now);
        SameReleases(w.right, Next(w, step).right, arrivals);
      }
    }
  }

  lemma ActKeepsSending(p: Endpoint, action: Delivery.Action, now: nat)
    requires SendSide(p) && (action.Submit? ==> action.max <= 0xffff_ffff)
    ensures SendSide(Act(p, action, now))
  {
    hide Act, SendSide;
    match action {
      case Submit(r, body, max) => SubmitKeeps(p, r, body, max, now);
      case Arrive(data) => ArriveKeepsSending(p, data, now);
      case Tick => TickKeepsSending(p, now);
    }
  }

  // ---------- Every run ----------

  /** Everything released so far is a prefix of what was submitted. */
  predicate Prefix(w: World) {
    w.right.released <= w.left.sent.ordered
  }

  /** The last frame to have arrived under the index of the due frame is the due frame. */
  ghost predicate LastIsDue(arrivals: seq<Frame>, h: History, n: nat) {
    n < |h.ordered| && LastUnder(arrivals, Wrap(n)) == Some(h.ordered[n])
  }

  /** Each release of a step finds, as the last arrival under its index, the due frame. */
  ghost predicate ReleasesDue(w: World, arrivals: seq<Frame>, step: Step) {
    forall n :: |w.right.released| <= n < |Next(w, step).right.released| ==>
      LastIsDue(arrivals + FramesBrought(step), w.left.sent, n)
  }

  ghost predicate AllReleasesDue(w: World, arrivals: seq<Frame>, steps: seq<Step>)
    decreases |steps|
  {
    steps != [] ==>
      ReleasesDue(w, arrivals, steps[0]) && AllReleasesDue(Next(w, steps[0]), arrivals + FramesBrought(steps[0]), steps[1..])
  }

  ghost predicate AlwaysPrefix(w: World, steps: seq<Step>)
    decreases |steps|
  {
    Prefix(w) && (steps != [] ==> AlwaysPrefix(Next(w, steps[0]), steps[1..]))
  }

  lemma LeftStep(w: World, step: Step, arrivals: seq<Frame>)
    requires SendSide(w.left) && Prefix(w) && Enabled(w, step) && step.atLeft
    ensures SendSide(Next(w, step).left) && Next(w, step).right == w.right && Prefix(Next(w, step))
    ensures arrivals + FramesBrought(step) == arrivals && ReleasesDue(w, arrivals, step)
  {
    ActKeepsSending(w.left, step.action, step.now);
    HistoryGrows(w.left, step.action, step.now);
    hide Act, SendSide, Wrap, OrderedIn;
  }

  lemma PrefixExactly(w: World, step: Step, arrivals: seq<Frame>)
    requires Prefix(w) && !step.atLeft && ReleasesLatest(w.right, Next(w, step).right, arrivals + FramesBrought(step), HandedBy(step))
    ensures Next(w, step).left == w.left && (Prefix(Next(w, step)) <==> ReleasesDue(w, arrivals, step))
  {
    hide Act, Logged, Wrap, FramesBrought, LastUnder;
    var released, released', ordered := w.right.released, Next(w, step).right.released, w.left.sent.ordered;
    var after := arrivals + FramesBrought(step);
    forall n | |released| <= n < |released'|
      ensures LastUnder(after, Wrap(n)) == Some(released'[n])
    {
      assert released'[n] == released'[|released|..][n - |released|];
      assert LastUnder(after, Wrap(|released| + (n - |released|))) == Some(released'[|released|..][n - |released|]);
    }
    if ReleasesDue(w, arrivals, step) {
      assert |released'| <= |ordered| by {
        if |released'| > |released| { assert LastIsDue(after, w.left.sent, |released'| - 1); }
      }
      forall n | 0 <= n < |released'|
        ensures released'[n] == ordered[n]
      {
        if n < |released| {
          assert released'[n] == released[n];
        } else {
          assert LastIsDue(after, w.left.sent, n);
        }
      }
    }
    if Prefix(Next(w, step)) {
      assert forall n :: |released| <= n < |released'| ==> LastIsDue(after, w.left.sent, n);
    }
  }

  lemma {:induction false} RunReleases(w: World, steps: seq<Step>, w': World, arrivals: seq<Frame>)
    requires Leads(w, steps, w') && SendSide(w.left) && Logged(w.right, arrivals) && Prefix(w)
    ensures AlwaysPrefix(w, steps) <==> AllReleasesDue(w, arrivals, steps)
    decreases |steps|
  {
    hide Act, SendSide, Logged, Prefix, ReleasesDue, FramesBrought, Enabled, FromLatest;
    if steps != [] {
      var step := steps[0];
      if step.atLeft {
        LeftStep(w, step, arrivals);
        RunReleases(Next(w, step), steps[1..], w', arrivals);
      } else {
        RightReleases(w, step, arrivals);
        PrefixExactly(w, step, arrivals);
        if Prefix(Next(w, step)) {
          RunReleases(Next(w, step), steps[1..], w', arrivals + FramesBrought(step));
        }
      }
    }
  }

  /**
    Two fresh endpoints, any number of sends: at every point what the right side has released is a
    prefix of the left side's ordered frames, if and only if at every release the last frame to have
    arrived under that index, modulo 2^24, was the due one.
   */
  lemma InOrderExactly(now1: nat, now2: nat, steps: seq<Step>, w: World)
    requires Leads(World(Open(now1), Open(now2)), steps, w)
    ensures var start := World(Open(now1), Open(now2));
            AlwaysPrefix(start, steps) <==> AllReleasesDue(start, [], steps)
  {
    hide *;
    NothingYet(now1, now2);
    RunReleases(World(Open(now1), Open(now2)), steps, w, []);
  }

  lemma NothingYet(now1: nat, now2: nat)
    ensures var start := World(Open(now1), Open(now2));
            SendSide(start.left) && Logged(start.right, []) && Prefix(start) && start.right.immediate == []
  {
  }

  // ---------- Frames that are not ordered ----------

  lemma OneStepHands(w: World, step: Step, arrivals: seq<Frame>) returns (arrivals': seq<Frame>)
    requires SendSide(w.left) && Logged(w.right, arrivals) && Enabled(w, step)
    ensures SendSide(Next(w, step).left) && Logged(Next(w, step).right, arrivals')
    ensures Next(w, step).right.immediate == w.right.immediate + HandedBy(step)
  {
    hide SendSide, Logged, Act, FrameIn, OrderedIn, FromLatest;
    if step.atLeft {
      ActKeepsSending(w.left, step.action, step.now);
      arrivals' := arrivals;
    } else {
      RightReleases(w, step, arrivals);
      arrivals' := arrivals + FramesBrought(step);
    }
  }

  lemma {:induction false} RunHands(w: World, steps: seq<Step>, w': World, arrivals: seq<Frame>)
    requires Leads(w, steps, w') && SendSide(w.left) && Logged(w.right, arrivals)
    ensures w'.right.immediate == w.right.immediate + HandedOver(steps)
    decreases |steps|
  {
    hide Act, SendSide, Logged, Enabled, HandedBy;
    if steps == [] {
      assert w.right.immediate + [] == w.right.immediate;
    } else {
      var arrivals' := OneStepHands(w, steps[0], arrivals);
      RunHands(Next(w, steps[0]), steps[1..], w', arrivals');
      assert w.right.immediate + (HandedBy(steps[0]) + HandedOver(steps[1..]))
          == (w.right.immediate + HandedBy(steps[0])) + HandedOver(steps[1..]);
    }
  }

  /**
    Two fresh endpoints, any number of sends: the right side has handed over at once exactly the frames
    that are not ordered, whole, in the order in which they arrived and as often.
   */
  lemma HandedOverExactly(now1: nat, now2: nat, steps: seq<Step>, w: World)
    requires Leads(World(Open(now1), Open(now2)), steps, w)
    ensures w.right.immediate == HandedOver(steps)
  {
    hide *;
    NothingYet(now1, now2);
    RunHands(World(Open(now1), Open(now2)), steps, w, []);
    assert [] + HandedOver(steps) == HandedOver(steps);
  }
}
