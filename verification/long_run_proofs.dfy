/**
  In-order delivery beyond 2^24 frames: in runs of any length it holds as long
  as no copy of a frame arrives that was already released, nor any frame a whole
  turn of the circle ahead.
 */
module LongRunProofs {
  import opened Basics
  import opened Datagrams
  import opened Splitting
  import opened ReceiveWindow
  import opened Acks
  import opened EngineState
  import opened Session
  import opened Delivery
  import opened DeliveryProofs
  import opened LimitProofs

  lemma UnwrapsNext(next: int, k: int)
    requires 0 <= k < 0x100_0000 && k != Wrap(next)
    ensures Unwrap(next + 1, k) == Unwrap(next, k)
  {
  }

  /** Every queued frame is one that was submitted and is not released yet. */
  ghost predicate QueuedAhead(queue: map<int, Frame>, next: int, h: History) {
    forall k :: k in queue ==>
      && 0 <= k < 0x100_0000
      && 0 <= Unwrap(next, k) < |h.ordered|
      && queue[k] == h.ordered[Unwrap(next, k)] && Unwrap(next, k) !in h.lost
  }

  ghost predicate Receiving(p: Endpoint, h: History) {
    && !p.refused && p.engine.reassemblers == map[]
    && p.released <= h.ordered && p.engine.nextDelivery == Wrap(|p.released|)
    && QueuedAhead(p.engine.orderQueue, |p.released|, h) && p.engine.nextDelivery !in p.engine.orderQueue
    && (forall i :: i in h.lost ==> |p.released| <= i)
    && forall f :: f in p.immediate ==> f in h.unordered
  }

  /** A frame that is unordered, or due within one turn of the circle. */
  ghost predicate Due(f: Frame, h: History, i: int, next: int) {
    && f.split.None? && f.IndicesMatch()
    && if f.reliability.IsOrdered() then SubmittedAs(f, h, i) && next <= i < next + 0x100_0000 else f in h.unordered
  }

  /** What arrives is an acknowledgement, or carries a frame that is due. */
  ghost predicate Timely(p: Endpoint, data: seq<byte>, h: History) {
    && Classify(data).Ok?
    && (Classify(data).value.IncomingDatagram? ==>
          exists f, max, id, i ::
            SplitInto(f, max, id) == Ok(Classify(data).value.d.frames) && Due(f, h, i, |p.released|))
  }

  // ---------- Draining ----------

  lemma QueuedLater(queue: map<int, Frame>, next: nat, h: History)
    requires QueuedAhead(queue, next, h)
    ensures QueuedAhead(queue - {Wrap(next) as int}, next + 1, h)
    ensures Wrap(next) in queue ==> next < |h.ordered| && queue[Wrap(next)] == h.ordered[next] && next !in h.lost
  {
    var rest := queue - {Wrap(next) as int};
    forall k | k in rest
      ensures Unwrap(next + 1, k) == Unwrap(next, k)
    {
      UnwrapsNext(next, k);
    }
    UnwrapWrap(next, next);
    hide Unwrap, Wrap;
  }

  /** A drain releases the frames from the next one on, as far as they are queued. */
  lemma {:induction false} DrainInOrder(queue: map<int, Frame>, next: nat, h: History) returns (next': nat)
    requires QueuedAhead(queue, next, h) && next <= |h.ordered|
    ensures next <= next' <= |h.ordered|
    ensures var (left, due, frames) := Drain(queue, Wrap(next));
            && frames == h.ordered[next..next'] && due == Wrap(next')
            && QueuedAhead(left, next', h) && due !in left
    ensures forall i :: i in h.lost && next <= i ==> next' <= i
    decreases |queue|
  {
    WrapNext(next);
    hide Wrap, QueuedAhead;
    if Wrap(next) in queue {
      SmallerQueue(queue, Wrap(next));
      QueuedLater(queue, next, h);
      next' := DrainInOrder(queue - {Wrap(next) as int}, next + 1, h);
      assert h.ordered[next..next'] == [h.ordered[next]] + h.ordered[next + 1..next'];
    } else {
      next' := next;
    }
  }

  // ---------- The steps ----------

  lemma QueueDue(p: Endpoint, f: Frame, h: History, i: int)
    requires Receiving(p, h) && Due(f, h, i, |p.released|) && f.reliability.IsOrdered()
    ensures QueuedAhead(p.engine.orderQueue[f.orderIndex.value := f], |p.released|, h)
  {
    UnwrapWrap(|p.released|, i);
    hide Wrap, Unwrap;
  }

  lemma TimelyDatagram(p: Endpoint, data: seq<byte>, now: nat, h: History, d: Datagram)
    requires Receiving(p, h) && Timely(p, data, h) && Classify(data) == Ok(IncomingDatagram(d))
    ensures Receiving(Act(p, Arrive(data), now), h)
  {
    hide Classify, SplitInto, AcceptFrames, Drain, QueuedAhead, OrderIndices, Wrap;
    var f, max, id, i :| SplitInto(f, max, id) == Ok(d.frames) && Due(f, h, i, |p.released|);
    OneDatagram(p, d, f, max, id, now);
    ArriveEffects(p, data, d, now);
    if f.reliability.IsOrdered() { QueueDue(p, f, h, i); }
    var (received, result) := OnDatagram(p.engine, d, now);
    hide OnDatagram, Act;
    var next' := DrainInOrder(received.orderQueue, |p.released|, h);
    assert h.ordered[..|p.released|] + h.ordered[|p.released|..next'] == h.ordered[..next'];
    assert p.released == h.ordered[..|p.released|];
  }

  lemma TimelyArrival(p: Endpoint, data: seq<byte>, now: nat, h: History)
    requires Receiving(p, h) && Timely(p, data, h)
    ensures Receiving(Act(p, Arrive(data), now), h)
  {
    match Classify(data).value {
      case IncomingAck(a) =>
        hide Classify, AckRanges, QueuedAhead, OrderIndices, Wrap;
      case IncomingNack(a) =>
        hide Classify, NackRanges, QueuedAhead, OrderIndices, Wrap;
      case IncomingDatagram(d) =>
        TimelyDatagram(p, data, now, h, d);
    }
  }

  /** Submitting and ticking leave the receive side alone. */
  lemma OthersKeepReceiving(p: Endpoint, action: Action, now: nat, h: History)
    requires Receiving(p, h) && !action.Arrive?
    ensures Receiving(Act(p, action, now), h)
  {
    hide SplitInto, EncodeDatagram, NextFrame, Encoded, DueBytes, UnackedKeys, RefreshAll, BuildNack, Coalesce, QueuedAhead, Wrap;
  }

  lemma ReceivingMore(p: Endpoint, h: History, h': History)
    requires Receiving(p, h) && Extends(h, h')
    ensures Receiving(p, h')
  {
    hide Unwrap, Wrap;
  }

  // ---------- Every run ----------

  /** Every datagram that arrives in the course of the run is timely. */
  ghost predicate TimelyRun(w: World, steps: seq<Step>)
    decreases |steps|
  {
    steps != [] ==>
      && (steps[0].action.Arrive? ==>
            if steps[0].atLeft then Timely(w.left, steps[0].action.data, w.right.sent)
            else Timely(w.right, steps[0].action.data, w.left.sent))
      && TimelyRun(Next(w, steps[0]), steps[1..])
  }

  lemma StepKeepsReceiving(p: Endpoint, other: Endpoint, action: Action, now: nat)
    requires Receiving(p, other.sent) && Receiving(other, p.sent)
    requires action.Arrive? ==> Timely(p, action.data, other.sent)
    ensures Receiving(Act(p, action, now), other.sent) && Receiving(other, Act(p, action, now).sent)
  {
    HistoryGrows(p, action, now);
    ReceivingMore(other, p.sent, Act(p, action, now).sent);
    hide Act, Receiving, Timely;
    if action.Arrive? {
      TimelyArrival(p, action.data, now, other.sent);
    } else {
      OthersKeepReceiving(p, action, now, other.sent);
    }
  }

  lemma {:induction false} RunKeepsReceiving(w: World, steps: seq<Step>, w': World)
    requires Leads(w, steps, w') && TimelyRun(w, steps)
    requires Receiving(w.right, w.left.sent) && Receiving(w.left, w.right.sent)
    ensures Receiving(w'.right, w'.left.sent) && Receiving(w'.left, w'.right.sent)
    decreases |steps|
  {
    hide Act, Receiving, Timely;
    if steps != [] {
      var step := steps[0];
      if step.atLeft {
        StepKeepsReceiving(w.left, w.right, step.action, step.now);
      } else {
        StepKeepsReceiving(w.right, w.left, step.action, step.now);
      }
      RunKeepsReceiving(Next(w, step), steps[1..], w');
    }
  }

  /** What `to` has released is a prefix of what was submitted to `from`, up to a frame that is not queued. */
  ghost predicate InOrder(from: Endpoint, to: Endpoint) {
    && to.released <= from.sent.ordered && Wrap(|to.released|) !in to.engine.orderQueue
    && (forall i :: i in from.sent.lost ==> |to.released| <= i)
    && (forall f :: f in to.immediate ==> f in from.sent.unordered)
    && !to.refused && to.engine.reassemblers == map[]
  }

  /**
    Two fresh endpoints, any number of sends: as long as no ordered frame arrives again after it was
    released, or a whole turn ahead of the next one, each side has released exactly a prefix of the
    other's ordered frames.
   */
  lemma TimelyRunsDeliver(now1: nat, now2: nat, steps: seq<Step>, w: World)
    requires Leads(World(Open(now1), Open(now2)), steps, w) && TimelyRun(World(Open(now1), Open(now2)), steps)
    ensures InOrder(w.left, w.right) && InOrder(w.right, w.left)
  {
    var start := World(Open(now1), Open(now2));
    NothingReceived(now1, now2);
    RunKeepsReceiving(start, steps, w);
    hide Leads, TimelyRun, QueuedAhead;
  }

  lemma NothingReceived(now1: nat, now2: nat)
    ensures Receiving(Open(now1), Open(now2).sent)
  {
  }

  // ---------- Such runs have any length ----------

  /** `n` frames have been sent and all of them released. */
  ghost predicate AllReleased(w: World, n: nat) {
    && SendSide(w.left) && Receiving(w.right, w.left.sent)
    && |w.left.sent.ordered| == n == |w.right.released| && w.right.engine.orderQueue == map[]
  }

  lemma ReleasedMeans(w: World, n: nat)
    requires AllReleased(w, n)
    ensures w.left.engine.nextOrder == Wrap(n) == w.right.engine.nextDelivery && w.right.engine.reassemblers == map[]
    ensures w.right.released == w.left.sent.ordered && w.left.sent.lost == {}
  {
    hide Genuine, Wrap;
    forall i
      ensures i !in w.left.sent.lost
    {
    }
  }

  /** The datagram of a frame just sent is timely. */
  lemma JustSent(w: World, n: nat)
    requires AllReleased(w, n)
    ensures Timely(Next(w, SUBMIT).right, Bytes(w.left.engine), Next(w, SUBMIT).left.sent)
  {
    var e, mid := w.left.engine, Next(w, SUBMIT);
    var f := NextFrame(e, ReliableOrdered, []);
    EmptySend(e);
    SubmitEffect(w);
    ReleasedMeans(w, n);
    hide Act, PrepareSend, NextFrame, Classify, SplitInto, SendSide, Receiving, Bytes, Wrap, OrderIndices;
    assert SubmittedAs(f, mid.left.sent, n);
    assert Due(f, mid.left.sent, n, |mid.right.released|);
  }

  lemma OneMoreReleased(w: World, n: nat)
    requires AllReleased(w, n)
    ensures var mid, arrive := Next(w, SUBMIT), Arrival(Bytes(w.left.engine));
            && Leads(w, [SUBMIT, arrive], Next(mid, arrive)) && TimelyRun(w, [SUBMIT, arrive])
            && AllReleased(Next(mid, arrive), n + 1)
  {
    var e, mid := w.left.engine, Next(w, SUBMIT);
    var f, arrive := NextFrame(e, ReliableOrdered, []), Arrival(Bytes(e));
    ReleasedMeans(w, n);
    SubmitEffect(w);
    ArrivalEffect(mid, e);
    DrainSingle(f, Wrap(n));
    assert w.right.engine.orderQueue[Wrap(n) := f] == map[Wrap(n) := f];
    JustSent(w, n);
    TwoSteps(w, SUBMIT, arrive);
    hide Act, PrepareSend, NextFrame, Drain, SendSide, Receiving, Bytes, Timely, Wrap, Leads;
    SubmitKeeps(w.left, ReliableOrdered, [], 1, 0);
    HistoryGrows(w.left, SUBMIT.action, 0);
    ReceivingMore(w.right, w.left.sent, mid.left.sent);
    TimelyArrival(mid.right, Bytes(e), 0, mid.left.sent);
    assert [SUBMIT, arrive][1..] == [arrive] && [arrive][1..] == [];
    assert TimelyRun(Next(mid, arrive), []) && TimelyRun(mid, [arrive]);
  }

  lemma {:induction false} TimelyAppend(w: World, steps: seq<Step>, w': World, more: seq<Step>)
    requires Leads(w, steps, w') && TimelyRun(w, steps) && TimelyRun(w', more)
    ensures TimelyRun(w, steps + more)
    decreases |steps|
  {
    hide Act, Timely;
    if steps == [] {
      assert [] + more == more;
    } else {
      TimelyAppend(Next(w, steps[0]), steps[1..], w', more);
      assert (steps + more)[1..] == steps[1..] + more;
    }
  }

  /** There are timely runs with any number of ordered sends, in which all of them are released. */
  lemma {:induction false} AnyLength(n: nat) returns (steps: seq<Step>, w: World)
    ensures Leads(World(Open(0), Open(0)), steps, w) && TimelyRun(World(Open(0), Open(0)), steps)
    ensures AllReleased(w, n) && |w.left.sent.ordered| == n && w.right.released == w.left.sent.ordered
  {
    if n == 0 {
      steps, w := [], World(Open(0), Open(0));
      NothingReleased();
    } else {
      var before, mid := AnyLength(n - 1);
      hide *;
      OneMoreReleased(mid, n - 1);
      var arrive := Arrival(Bytes(mid.left.engine));
      w := Next(Next(mid, SUBMIT), arrive);
      steps := before + [SUBMIT, arrive];
      LeadsAppend(World(Open(0), Open(0)), before, mid, [SUBMIT, arrive], w);
      TimelyAppend(World(Open(0), Open(0)), before, mid, [SUBMIT, arrive]);
      ReleasedMeans(w, n);
      ReleasedCount(w, n);
    }
  }

  lemma ReleasedCount(w: World, n: nat)
    requires AllReleased(w, n)
    ensures |w.left.sent.ordered| == n
  {
  }

  lemma NothingReleased()
    ensures var start := World(Open(0), Open(0));
            && AllReleased(start, 0) && Leads(start, [], start) && TimelyRun(start, [])
            && start.left.sent.ordered == start.right.released == []
  {
  }
}
