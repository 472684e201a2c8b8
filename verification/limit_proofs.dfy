/**
  Why in-order delivery is claimed for fewer than 2^24 ordered sends only: a
  whole run with one more, in which a frame is released a second time.
 */
module LimitProofs {
  import opened Basics
  import opened Datagrams
  import opened Splitting
  import opened ReceiveWindow
  import opened EngineState
  import opened SendProofs
  import opened Session
  import opened Delivery
  import opened DeliveryProofs

  /** The left side sends an empty ordered payload. */
  const SUBMIT: Step := Step(true, Submit(ReliableOrdered, [], 1), 0)

  function Bytes(e: Engine): seq<byte> {
    match PrepareSend(e, ReliableOrdered, [], 1, 0).1
    case Ok(bytes) => bytes
    case Err(_) => []
  }

  function Arrival(data: seq<byte>): Step {
    Step(false, Arrive(data), 0)
  }

  function Start(): World {
    World(Open(0), Open(0))
  }

  /**
    The left side has sent `n` ordered frames, and the right side has released all of them and holds
    nothing back. The first frame's datagram is still on the wire.
   */
  ghost predicate InStep(w: World, n: nat) {
    && SendSide(w.left) && SendSide(w.right) && ReceiveSide(w.right, w.left.sent) && ReceiveSide(w.left, w.right.sent)
    && |w.left.sent.ordered| == n == |w.right.released| && w.left.sent.lost == {}
    && w.right.sent.ordered == [] && w.right.engine.orderQueue == map[]
    && if n == 0 then w.left.engine == NewEngine(0)
       else Bytes(NewEngine(0)) in w.left.emitted && w.left.sent.ordered[0] == NextFrame(NewEngine(0), ReliableOrdered, [])
  }

  // ---------- One send and its arrival ----------

  /** What is known of an empty ordered send: it succeeds with one frame, which its datagram carries. */
  lemma EmptySend(e: Engine)
    ensures PrepareSend(e, ReliableOrdered, [], 1, 0).1 == Ok(Bytes(e))
    ensures var f := NextFrame(e, ReliableOrdered, []);
            && f.split.None? && f.IndicesMatch() && f.reliability == ReliableOrdered && f.orderIndex == Some(e.nextOrder)
            && SplitInto(f, 1, SplitId(e.nextDatagram)) == Ok([f])
            && Classify(Bytes(e)) == Ok(IncomingDatagram(Datagram(e.nextDatagram, [f])))
            && OrderIndices(Bytes(e)) == {e.nextOrder as int}
  {
    SendSucceedsExactly(e, ReliableOrdered, [], 1, 0);
    SentDecodes(e, ReliableOrdered, [], 1, 0);
    hide Classify, PrepareSend;
    var f := NextFrame(e, ReliableOrdered, []);
    IndicesOfSplit(f, 1, SplitId(e.nextDatagram), [f]);
  }

  lemma SubmitEffect(w: World)
    ensures var w' := Next(w, SUBMIT);
            && Enabled(w, SUBMIT) && w'.right == w.right
            && w'.left.emitted == w.left.emitted + {Bytes(w.left.engine)}
            && w'.left.sent == w.left.sent.(ordered := w.left.sent.ordered + [NextFrame(w.left.engine, ReliableOrdered, [])])
  {
    EmptySend(w.left.engine);
    hide PrepareSend, Classify, SplitInto, OrderIndices;
  }

  /** The datagram of a frame `f` arrives at a receive side that holds back nothing but `queue`. */
  lemma ArrivalEffect(w: World, e: Engine)
    requires w.right.engine.reassemblers == map[] && Bytes(e) in w.left.emitted
    ensures var w', queue := Next(w, Arrival(Bytes(e))), w.right.engine.orderQueue[e.nextOrder := NextFrame(e, ReliableOrdered, [])];
            var (left, next, frames) := Drain(queue, w.right.engine.nextDelivery);
            && Enabled(w, Arrival(Bytes(e))) && w'.left == w.left && w'.right.sent == w.right.sent
            && w'.right.released == w.right.released + frames && w'.right.engine.orderQueue == left
  {
    EmptySend(e);
    var f, d := NextFrame(e, ReliableOrdered, []), Datagram(e.nextDatagram, [NextFrame(e, ReliableOrdered, [])]);
    OneDatagram(w.right, d, f, 1, SplitId(e.nextDatagram), 0);
    ArriveEffects(w.right, Bytes(e), d, 0);
    SentUnchanged(w.right, Bytes(e));
    hide Act, Drain, OnDatagram, Classify, PrepareSend, SplitInto, OrderIndices;
  }

  lemma SentUnchanged(p: Endpoint, data: seq<byte>)
    ensures Act(p, Arrive(data), 0).sent == p.sent
  {
    hide HandleIncoming, OrderIndices;
  }

  lemma DrainSingle(f: Frame, next: u24)
    ensures Drain(map[next as int := f], next) == (map[], Wrap(next + 1), [f])
  {
    var queue: map<int, Frame> := map[next as int := f];
    var none: map<int, Frame> := queue - {next as int};
    assert none == map[] && [f] + [] == [f];
    assert Drain(none, Wrap(next + 1)) == (none, Wrap(next + 1), []);
  }

  lemma InStepMeans(w: World, n: nat)
    requires InStep(w, n)
    ensures w.left.engine.nextOrder == n && w.right.engine.nextDelivery == n && w.right.engine.reassemblers == map[]
  {
    hide Genuine, Queued;
  }

  lemma Pair(w: World, n: nat)
    requires InStep(w, n) && n + 1 < 0x100_0000
    ensures var arrive, mid := Arrival(Bytes(w.left.engine)), Next(w, SUBMIT);
            Enabled(w, SUBMIT) && Enabled(mid, arrive) && InStep(Next(mid, arrive), n + 1)
  {
    var e, mid := w.left.engine, Next(w, SUBMIT);
    var f := NextFrame(e, ReliableOrdered, []);
    InStepMeans(w, n);
    SubmitEffect(w);
    ArrivalEffect(mid, e);
    DrainSingle(f, n);
    assert w.right.engine.orderQueue[n := f] == map[n := f];
    hide Act, PrepareSend, NextFrame, Drain, SendSide, ReceiveSide, Bytes;
    ActKeeps(w.left, w.right, SUBMIT.action, 0);
    ActKeeps(mid.right, mid.left, Arrive(Bytes(e)), 0);
  }

  /** A run of `n` sends, each of which arrives at once. */
  lemma {:induction false} Pairs(n: nat) returns (steps: seq<Step>, w: World)
    requires n < 0x100_0000
    ensures Leads(Start(), steps, w) && InStep(w, n)
  {
    if n == 0 {
      steps, w := [], Start();
      NothingSent();
    } else {
      var before, mid := Pairs(n - 1);
      hide *;
      Pair(mid, n - 1);
      var arrive := Arrival(Bytes(mid.left.engine));
      w := Next(Next(mid, SUBMIT), arrive);
      TwoSteps(mid, SUBMIT, arrive);
      LeadsAppend(Start(), before, mid, [SUBMIT, arrive], w);
      steps := before + [SUBMIT, arrive];
    }
  }

  lemma NothingSent()
    ensures InStep(Start(), 0) && Leads(Start(), [], Start())
  {
  }

  // ---------- The stale copy ----------

  /** The first datagram arrives once more: its frame is queued under index 0, below the next index. */
  lemma FirstAgain(w: World)
    requires InStep(w, 0xff_ffff)
    ensures var arrive := Arrival(Bytes(NewEngine(0)));
            var w' := Next(w, arrive);
            && Enabled(w, arrive) && w'.left == w.left && w'.right.released == w.right.released
            && w'.right.engine.orderQueue.Keys == {0} && ReceiveSide(w'.right, w'.left.sent)
  {
    InStepMeans(w, 0xff_ffff);
    ArrivalEffect(w, NewEngine(0));
    var queue: map<int, Frame> := w.right.engine.orderQueue[0 := NextFrame(NewEngine(0), ReliableOrdered, [])];
    assert queue.Keys == {0} && Drain(queue, 0xff_ffff) == (queue, 0xff_ffff, []);
    hide Act, PrepareSend, NextFrame, Drain, SendSide, ReceiveSide, Bytes;
    ActKeeps(w.right, w.left, Arrive(Bytes(NewEngine(0))), 0);
  }

  /** The last of 2^24 frames is sent and arrives, with the stale copy queued. */
  lemma LastReturnsFirst(w: World)
    requires w.left.engine.nextOrder == 0xff_ffff && |w.left.sent.ordered| == 0xff_ffff == |w.right.released|
    requires ReceiveSide(w.right, w.left.sent) && w.right.engine.orderQueue.Keys == {0}
    ensures var mid, arrive := Next(w, SUBMIT), Arrival(Bytes(w.left.engine));
            var w' := Next(mid, arrive);
            && Enabled(w, SUBMIT) && Enabled(mid, arrive)
            && |w'.left.sent.ordered| == 0x100_0000
            && w'.right.released == w'.left.sent.ordered + [w'.left.sent.ordered[0]]
  {
    var e, mid := w.left.engine, Next(w, SUBMIT);
    var f := NextFrame(e, ReliableOrdered, []);
    SubmitEffect(w);
    EmptySend(e);
    HistoryGrows(w.left, SUBMIT.action, 0);
    ReceivingGrows(w.right, w.left, mid.left);
    hide Act, PrepareSend, NextFrame, ReceiveSide, Bytes, Classify, SplitInto, OrderIndices;
    StaleFrameReturns(mid.right, Bytes(e), Datagram(e.nextDatagram, [f]), 1, SplitId(e.nextDatagram), 0, mid.left.sent);
  }

  lemma LongerIsNotDelivered(from: Endpoint, to: Endpoint)
    requires |to.released| > |from.sent.ordered|
    ensures !Delivered(from, to)
  {
  }

  /**
    In-order delivery ends exactly at 2^24 ordered sends: there is a run with that many in which all
    frames are released in order, and then the first one again.
   */
  lemma LimitPassed() returns (steps: seq<Step>, w: World)
    ensures Leads(World(Open(0), Open(0)), steps, w) && |w.left.sent.ordered| == 0x100_0000
    ensures w.right.released == w.left.sent.ordered + [w.left.sent.ordered[0]]
    ensures !Delivered(w.left, w.right)
  {
    var before, sent := Pairs(0xff_ffff);
    InStepMeans(sent, 0xff_ffff);
    FirstAgain(sent);
    var again := Arrival(Bytes(NewEngine(0)));
    var stale := Next(sent, again);
    hide Act, Leads, ReceiveSide, SendSide, Delivered, Bytes, Enabled;
    LastReturnsFirst(stale);
    var last := Arrival(Bytes(stale.left.engine));
    w := Next(Next(stale, SUBMIT), last);
    OneStep(sent, again);
    TwoSteps(stale, SUBMIT, last);
    LeadsAppend(Start(), before, sent, [again], stale);
    LeadsAppend(Start(), before + [again], stale, [SUBMIT, last], w);
    steps := before + [again] + [SUBMIT, last];
    LongerIsNotDelivered(w.left, w.right);
  }
}
