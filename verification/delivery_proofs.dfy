/**
  End-to-end delivery: in every run with fewer than 2^24 ordered sends a side,
  each endpoint releases exactly a prefix of what the other submitted.
 */
module DeliveryProofs {
  import opened Ascending
  import opened Basics
  import opened Datagrams
  import opened DatagramProofs
  import opened Splitting
  import opened Reassembly
  import opened ReceiveWindow
  import opened Acks
  import opened EngineState
  import opened WalkProofs
  import opened RetransmissionProofs
  import opened SendProofs
  import opened Session
  import opened Delivery
  import opened GroupProofs

  // ---------- One payload through the receive side ----------

  /** The receive side after the first `n` fragments of `g`: buffering them, or with the frame routed. */
  ghost predicate Buffers(i: Inbox, g: Group, n: nat, queue: map<int, Frame>)
    requires g.Splits()
  {
    i.failed.None? && i.queue == queue && i.delivered == [] && i.reassemblers.Keys <= {g.id as int} && Holds(i.reassemblers, g, Below(n))
  }

  lemma BuffersNext(i: Inbox, g: Group, n: nat, queue: map<int, Frame>)
    requires g.Splits() && n < g.Count() && Buffers(i, g, n, queue)
    ensures var next := AcceptFrame(i, g.At(n));
            if n + 1 == g.Count() then next == Route(Inbox(map[], queue, [], None), g.frame) else Buffers(next, g, n + 1, queue)
  {
    hide PieceCount, Fragment, AcceptFrame, Holding, Route;
    AcceptFragment(i, g, Below(n), n);
    assert Below(n) + {n} == Below(n + 1);
    assert i.reassemblers - {g.id} == map[];
    assert i.(reassemblers := map[]) == Inbox(map[], queue, [], None);
  }

  lemma BuffersNone(g: Group, queue: map<int, Frame>)
    requires g.Splits()
    ensures Buffers(Inbox(map[], queue, [], None), g, 0, queue)
  {
    GroupCount(g);
  }

  lemma {:induction false} AcceptFirst(g: Group, n: nat, queue: map<int, Frame>)
    requires g.Splits() && n < g.Count() && |Fragments(g.frame, g.max, g.id, g.Count())| == g.Count()
    ensures var i := AcceptFrames(Inbox(map[], queue, [], None), Fragments(g.frame, g.max, g.id, g.Count())[..n]);
            Buffers(i, g, n, queue)
  {
    var start, frames := Inbox(map[], queue, [], None), Fragments(g.frame, g.max, g.id, g.Count());
    GroupCount(g);
    if n == 0 {
      BuffersNone(g, queue);
    } else {
      AcceptFirst(g, n - 1, queue);
      BuffersNext(AcceptFrames(start, frames[..n - 1]), g, n - 1, queue);
      AcceptPrefix(start, frames, n);
      hide AcceptFrames, AcceptFrame, Holds, Fragments, PieceCount;
    }
  }

  /**
    The frames of one send, in one datagram, are received as the frame that was sent, and leave no
    reassembly behind.
   */
  lemma AcceptSplit(f: Frame, max: nat, id: u16, queue: map<int, Frame>)
    requires f.split.None? && SplitInto(f, max, id).Ok?
    ensures AcceptFrames(Inbox(map[], queue, [], None), SplitInto(f, max, id).value) == Route(Inbox(map[], queue, [], None), f)
  {
    SplitShape(f, max, id);
    hide AcceptFrame, Fragments, PieceCount, SplitInto, Route;
    if |f.body| <= max {
      AcceptWhole(f, queue);
    } else {
      AcceptGroup(Group(f, max, id), queue);
    }
  }

  lemma AcceptWhole(f: Frame, queue: map<int, Frame>)
    requires f.split.None?
    ensures AcceptFrames(Inbox(map[], queue, [], None), [f]) == Route(Inbox(map[], queue, [], None), f)
  {
    AcceptPrefix(Inbox(map[], queue, [], None), [f], 1);
    assert [f][..1] == [f] && [f][..0] == [];
  }

  lemma AcceptGroup(g: Group, queue: map<int, Frame>)
    requires g.Splits()
    ensures AcceptFrames(Inbox(map[], queue, [], None), Fragments(g.frame, g.max, g.id, g.Count()))
         == Route(Inbox(map[], queue, [], None), g.frame)
  {
    hide *;
    GroupCount(g);
    var start, frames, last := Inbox(map[], queue, [], None), Fragments(g.frame, g.max, g.id, g.Count()), g.Count() - 1;
    AcceptFirst(g, last, queue);
    BuffersSound(AcceptFrames(start, frames[..last]), g, last, queue);
    BuffersNext(AcceptFrames(start, frames[..last]), g, last, queue);
    AcceptPrefix(start, frames, g.Count());
    assert frames[..g.Count()] == frames;
  }

  lemma BuffersSound(i: Inbox, g: Group, n: nat, queue: map<int, Frame>)
    requires g.Splits() && Buffers(i, g, n, queue)
    ensures i.failed.None?
  {
  }

  // ---------- What each side keeps ----------

  /** `frames` are those of one frame that was submitted. */
  ghost predicate CarriesSubmitted(frames: seq<Frame>, h: History) {
    exists f, max, id :: SplitInto(f, max, id) == Ok(frames) && Submitted(f, h)
  }

  ghost predicate Submitted(f: Frame, h: History) {
    && f.split.None? && f.IndicesMatch()
    && if f.reliability.IsOrdered() then exists i :: SubmittedAs(f, h, i) else f in h.unordered
  }

  /** `f` is the ordered frame number `i`, counted without wrapping, and its send succeeded. */
  predicate SubmittedAs(f: Frame, h: History, i: int) {
    0 <= i < |h.ordered| && h.ordered[i] == f && i !in h.lost && f.orderIndex == Some(Wrap(i))
  }

  /** More submissions, which do not change the fate of earlier ones. */
  ghost predicate Extends(h: History, h': History) {
    && h.ordered <= h'.ordered && h.unordered <= h'.unordered && h.lost <= h'.lost
    && forall i :: i in h'.lost ==> i in h.lost || |h.ordered| <= i
  }

  /** A packet on the wire: an acknowledgement, or a datagram carrying one submitted frame. */
  ghost predicate Genuine(data: seq<byte>, h: History) {
    && Classify(data).Ok?
    && (Classify(data).value.IncomingDatagram? ==> CarriesSubmitted(Classify(data).value.d.frames, h))
  }

  ghost predicate SendSide(p: Endpoint) {
    && p.engine.nextOrder == Wrap(|p.sent.ordered|) && (forall i :: i in p.sent.lost ==> 0 <= i < |p.sent.ordered|)
    && (forall b :: b in p.emitted ==> Genuine(b, p.sent))
    && forall s :: s in p.engine.unacked ==> p.engine.unacked[s].bytes in p.emitted
  }

  /** Queued frames are where they were submitted; a stale duplicate may still be queued below the next index. */
  ghost predicate Queued(queue: map<int, Frame>, h: History) {
    forall k :: k in queue ==> 0 <= k < |h.ordered| && queue[k] == h.ordered[k] && k !in h.lost
  }

  ghost predicate ReceiveSide(p: Endpoint, h: History) {
    && !p.refused && p.engine.reassemblers == map[]
    && Queued(p.engine.orderQueue, h)
    && p.engine.nextDelivery == |p.released| && p.released <= h.ordered
    && |p.released| !in p.engine.orderQueue
    && (forall i :: i in p.arrived <==> 0 <= i < |p.released| || i in p.engine.orderQueue)
    && (forall i :: i in h.lost ==> |p.released| <= i)
    && forall f :: f in p.immediate ==> f in h.unordered
  }

  // ---------- Draining ----------

  /** Released: the submitted frames from `next` up to the first index that is not queued; left: the rest. */
  ghost predicate Releases(queue: map<int, Frame>, next: int, h: History, left: map<int, Frame>, next': int, frames: seq<Frame>) {
    && 0 <= next <= next' <= |h.ordered| && frames == h.ordered[next..next']
    && next' !in left && Queued(left, h)
    && (forall k :: k in left <==> k in queue && !(next <= k < next'))
    && forall k :: next <= k < next' ==> k in queue
  }

  lemma {:induction false} DrainReleases(queue: map<int, Frame>, next: u24, h: History)
    requires Queued(queue, h) && next <= |h.ordered| < 0x100_0000
    ensures var (left, next', frames) := Drain(queue, next); Releases(queue, next, h, left, next', frames)
    decreases |queue|
  {
    if next in queue {
      SmallerQueue(queue, next);
      assert Wrap(next + 1) == next + 1;
      DrainReleases(queue - {next}, next + 1, h);
      var (left, next', frames) := Drain(queue - {next}, next + 1);
      ReleasesStep(queue, next, h, left, next', frames);
    }
  }

  lemma ReleasesStep(queue: map<int, Frame>, next: int, h: History, left: map<int, Frame>, next': int, frames: seq<Frame>)
    requires next in queue && Queued(queue, h)
    requires Releases(queue - {next}, next + 1, h, left, next', frames)
    ensures Releases(queue, next, h, left, next', [queue[next]] + frames)
  {
    var rest := queue - {next};
    assert h.ordered[next..next'] == [h.ordered[next]] + h.ordered[next + 1..next'];
    forall k
      ensures k in left <==> k in queue && !(next <= k < next')
      ensures next <= k < next' ==> k in queue
    {
      assert k in rest <==> k in queue && k != next;
    }
  }

  // ---------- The steps ----------

  lemma GenuineGrows(data: seq<byte>, p: Endpoint, p': Endpoint)
    requires Genuine(data, p.sent) && Extends(p.sent, p'.sent)
    ensures Genuine(data, p'.sent)
  {
    hide Classify, SplitInto;
    if Classify(data).value.IncomingDatagram? {
      var frames := Classify(data).value.d.frames;
      var f, max, id :| SplitInto(f, max, id) == Ok(frames) && Submitted(f, p.sent);
      SubmittedGrows(f, p.sent, p'.sent);
    }
  }

  lemma SubmittedGrows(f: Frame, h: History, h': History)
    requires Submitted(f, h) && Extends(h, h')
    ensures Submitted(f, h')
  {
    if f.reliability.IsOrdered() {
      var i :| SubmittedAs(f, h, i);
      assert SubmittedAs(f, h', i);
    }
  }

  lemma SubmitKeeps(p: Endpoint, r: Reliability, body: seq<byte>, max: nat, now: nat)
    requires SendSide(p) && max <= 0xffff_ffff
    ensures SendSide(Act(p, Submit(r, body, max), now))
  {
    var p' := Act(p, Submit(r, body, max), now);
    SubmitEffects(p, r, body, max, now);
    HistoryGrows(p, Submit(r, body, max), now);
    if PrepareSend(p.engine, r, body, max, now).1.Ok? {
      SentGenuine(p, r, body, max, now);
    }
    hide Genuine, Act, PrepareSend, Extends;
    forall b | b in p'.emitted
      ensures Genuine(b, p'.sent)
    {
      if b in p.emitted { GenuineGrows(b, p, p'); }
    }
  }

  lemma SubmitEffects(p: Endpoint, r: Reliability, body: seq<byte>, max: nat, now: nat)
    requires p.engine.nextOrder == Wrap(|p.sent.ordered|)
    requires forall i :: i in p.sent.lost ==> 0 <= i < |p.sent.ordered|
    ensures var p', sent := Act(p, Submit(r, body, max), now), PrepareSend(p.engine, r, body, max, now).1;
            && p'.engine.nextOrder == Wrap(|p'.sent.ordered|)
            && (forall i :: i in p'.sent.lost ==> 0 <= i < |p'.sent.ordered|)
            && p.emitted <= p'.emitted
            && (forall b :: b in p'.emitted ==> b in p.emitted || sent == Ok(b))
            && forall s :: s in p'.engine.unacked ==>
                 || (s in p.engine.unacked && p'.engine.unacked[s].bytes == p.engine.unacked[s].bytes)
                 || p'.engine.unacked[s].bytes in p'.emitted
  {
    NextFrameFields(p.engine, r, body);
    WrapNext(|p.sent.ordered|);
    hide SplitInto, EncodeDatagram, NextFrame, Wrap;
  }

  lemma NowSubmitted(p: Endpoint, r: Reliability, body: seq<byte>, max: nat, now: nat)
    requires p.engine.nextOrder == Wrap(|p.sent.ordered|) && |p.sent.ordered| !in p.sent.lost
    requires PrepareSend(p.engine, r, body, max, now).1.Ok?
    ensures Submitted(NextFrame(p.engine, r, body), Act(p, Submit(r, body, max), now).sent)
  {
    NextFrameFields(p.engine, r, body);
    hide PrepareSend, Wrap;
    var f, h := NextFrame(p.engine, r, body), Act(p, Submit(r, body, max), now).sent;
    if r.IsOrdered() { assert SubmittedAs(f, h, |p.sent.ordered|); }
  }

  lemma SentGenuine(p: Endpoint, r: Reliability, body: seq<byte>, max: nat, now: nat)
    requires p.engine.nextOrder == Wrap(|p.sent.ordered|) && |p.sent.ordered| !in p.sent.lost && max <= 0xffff_ffff
    requires PrepareSend(p.engine, r, body, max, now).1.Ok?
    ensures var p' := Act(p, Submit(r, body, max), now);
            Genuine(PrepareSend(p.engine, r, body, max, now).1.value, p'.sent)
  {
    NowSubmitted(p, r, body, max, now);
    SentDecodes(p.engine, r, body, max, now);
    hide Classify, PrepareSend, SplitInto, Submitted, NextFrame, Act;
    assert SentFrames(p.engine, r, body, max) == SplitInto(NextFrame(p.engine, r, body), max, SplitId(p.engine.nextDatagram));
  }

  lemma AckPacketGenuine(a: Option<Acknowledgement>, p: Endpoint)
    ensures forall b :: b in Encoded(a) ==> Genuine(b, p.sent)
  {
    if a.Some? {
      AckRoundTrip(a.value, []);
      hide Classify, EncodeAck;
      if EncodeAck(a.value).Ok? {
        assert EncodeAck(a.value).value + [] == EncodeAck(a.value).value;
      }
    }
  }

  lemma ArriveKeepsSending(p: Endpoint, data: seq<byte>, now: nat)
    requires SendSide(p)
    ensures SendSide(Act(p, Arrive(data), now))
  {
    var e := p.engine;
    hide Genuine, Classify, OrderIndices;
    if Classify(data).Ok? {
      match Classify(data).value {
        case IncomingAck(a) =>
          AckRemovesWalked(e.unacked, e.rtt, a.ranges, now);
          hide AckRanges;
        case IncomingNack(a) =>
          NackEmitsWalked(e.unacked, a.ranges, now);
          hide NackRanges;
        case IncomingDatagram(d) =>
          hide AcceptFrames, Drain, Record;
      }
    }
  }

  lemma TickKeepsSending(p: Endpoint, now: nat)
    requires SendSide(p)
    ensures SendSide(Act(p, Action.Tick, now))
  {
    var drained, ack := DrainAcks(p.engine).0, DrainAcks(p.engine).1;
    ResendRefreshes(drained, now);
    ResendEmits(drained, now);
    AckPacketGenuine(ack, p);
    AckPacketGenuine(BuildNack(drained), p);
    hide Genuine, Encoded, ResendDue, BuildNack, Coalesce;
  }

  /** Ticking and submitting leave the receive side alone. */
  lemma SubmitKeepsReceiving(p: Endpoint, r: Reliability, body: seq<byte>, max: nat, now: nat, h: History)
    requires ReceiveSide(p, h)
    ensures ReceiveSide(Act(p, Submit(r, body, max), now), h)
  {
    hide SplitInto, EncodeDatagram, NextFrame, Queued;
  }

  lemma TickKeepsReceiving(p: Endpoint, now: nat, h: History)
    requires ReceiveSide(p, h)
    ensures ReceiveSide(Act(p, Action.Tick, now), h)
  {
    hide Encoded, DueBytes, UnackedKeys, RefreshAll, BuildNack, Coalesce, Queued;
  }

  /** What the other side submits later changes nothing. */
  lemma ReceivingGrows(p: Endpoint, other: Endpoint, other': Endpoint)
    requires ReceiveSide(p, other.sent)
    requires Extends(other.sent, other'.sent)
    ensures ReceiveSide(p, other'.sent)
  {
  }

  lemma IndicesOfSplit(f: Frame, max: nat, id: u16, frames: seq<Frame>)
    requires f.split.None? && SplitInto(f, max, id) == Ok(frames)
    ensures (set i | 0 <= i < |frames| && frames[i].orderIndex.Some? :: frames[i].orderIndex.value)
         == if f.orderIndex.Some? then {f.orderIndex.value} else {}
  {
    SplitShape(f, max, id);
    if |f.body| > max {
      var g := Group(f, max, id);
      GroupCount(g);
      hide PieceCount, Fragment, SplitInto;
      assert forall i :: 0 <= i < |frames| ==> frames[i].Template() == f.Template();
      assert frames[0].orderIndex == f.orderIndex;
    } else {
      assert frames == [f] && frames[0] == f;
    }
  }

  /** The frames a receive side hands over, for one datagram that carries the frame `f`. */
  lemma OneDatagram(p: Endpoint, d: Datagram, f: Frame, max: nat, id: u16, now: nat)
    requires p.engine.reassemblers == map[] && f.split.None? && SplitInto(f, max, id) == Ok(d.frames) && f.IndicesMatch()
    ensures var (after, result) := OnDatagram(p.engine, d, now);
            && after.reassemblers == map[] && after.nextDelivery == p.engine.nextDelivery
            && after.orderQueue ==
                 (if f.reliability.IsOrdered() then p.engine.orderQueue[f.orderIndex.value := f] else p.engine.orderQueue)
            && result == Ok(if f.reliability.IsOrdered() then [] else [f])
  {
    AcceptSplit(f, max, id, p.engine.orderQueue);
    hide AcceptFrames, SplitInto, Record;
    assert [] + [f] == [f];
  }

  lemma ArriveKeepsReceiving(p: Endpoint, data: seq<byte>, now: nat, h: History)
    requires ReceiveSide(p, h) && Genuine(data, h) && |h.ordered| < 0x100_0000
    ensures ReceiveSide(Act(p, Arrive(data), now), h)
  {
    match Classify(data).value {
      case IncomingAck(a) =>
        assert p.arrived + OrderIndices(data) == p.arrived;
        hide Classify, AckRanges, Queued;
      case IncomingNack(a) =>
        assert p.arrived + OrderIndices(data) == p.arrived;
        hide Classify, NackRanges, Queued;
      case IncomingDatagram(d) =>
        hide Classify, SplitInto, AcceptFrames, Drain;
        var f, max, id :| SplitInto(f, max, id) == Ok(d.frames) && Submitted(f, h);
        OneDatagram(p, d, f, max, id, now);
        IndicesOfSplit(f, max, id, d.frames);
        DatagramKeepsReceiving(p, data, d, f, now, h);
    }
  }

  lemma DatagramKeepsReceiving(p: Endpoint, data: seq<byte>, d: Datagram, f: Frame, now: nat, h: History)
    requires ReceiveSide(p, h) && |h.ordered| < 0x100_0000
    requires Classify(data) == Ok(IncomingDatagram(d)) && Submitted(f, h)
    requires OrderIndices(data) == if f.orderIndex.Some? then {f.orderIndex.value} else {}
    requires var (received, result) := OnDatagram(p.engine, d, now);
             && received.reassemblers == map[] && received.nextDelivery == p.engine.nextDelivery
             && received.orderQueue ==
                  (if f.reliability.IsOrdered() then p.engine.orderQueue[f.orderIndex.value := f] else p.engine.orderQueue)
             && result == Ok(if f.reliability.IsOrdered() then [] else [f])
    ensures ReceiveSide(Act(p, Arrive(data), now), h)
  {
    var received := OnDatagram(p.engine, d, now).0;
    BeforeDrain(p, data, f, received.orderQueue, h);
    ArriveEffects(p, data, d, now);
    hide *;
    DrainReleases(received.orderQueue, received.nextDelivery, h);
    var (left, next, frames) := Drain(received.orderQueue, received.nextDelivery);
    AfterDrain(received.orderQueue, |p.released|, p.arrived + OrderIndices(data), h, left, next, frames);
    KeptAgain(p, Act(p, Arrive(data), now), f, next, h);
  }

  /** With the frame `f` queued, if it is ordered. */
  lemma BeforeDrain(p: Endpoint, data: seq<byte>, f: Frame, queue: map<int, Frame>, h: History)
    requires ReceiveSide(p, h) && Submitted(f, h) && |h.ordered| < 0x100_0000
    requires OrderIndices(data) == if f.orderIndex.Some? then {f.orderIndex.value} else {}
    requires queue == if f.reliability.IsOrdered() then p.engine.orderQueue[f.orderIndex.value := f] else p.engine.orderQueue
    ensures Queued(queue, h) && p.engine.nextDelivery == |p.released| <= |h.ordered| && p.released == h.ordered[..|p.released|]
    ensures forall i :: i in p.arrived + OrderIndices(data) <==> 0 <= i < |p.released| || i in queue
    ensures (forall i :: i in h.lost ==> |p.released| <= i) && (forall g :: g in p.immediate ==> g in h.unordered)
    ensures !p.refused && (!f.reliability.IsOrdered() ==> f in h.unordered)
  {
    if f.reliability.IsOrdered() {
      QueuedMore(p.engine.orderQueue, f, h);
    }
    hide Queued, OrderIndices, SubmittedAs;
  }

  lemma QueuedMore(queue: map<int, Frame>, f: Frame, h: History)
    requires Queued(queue, h) && |h.ordered| < 0x100_0000
    requires f.orderIndex.Some? && exists i :: SubmittedAs(f, h, i)
    ensures Queued(queue[f.orderIndex.value := f], h)
  {
    var i :| SubmittedAs(f, h, i);
    assert Wrap(i) == i;
  }

  lemma KeptAgain(p: Endpoint, p': Endpoint, f: Frame, next: nat, h: History)
    requires !p'.refused && p'.engine.reassemblers == map[] && Queued(p'.engine.orderQueue, h)
    requires p'.engine.nextDelivery == next <= |h.ordered| && p'.released == h.ordered[..next] && next !in p'.engine.orderQueue
    requires forall i :: i in p'.arrived <==> 0 <= i < next || i in p'.engine.orderQueue
    requires forall i :: i in h.lost ==> next <= i
    requires (forall g :: g in p.immediate ==> g in h.unordered) && (!f.reliability.IsOrdered() ==> f in h.unordered)
    requires p'.immediate == p.immediate + if f.reliability.IsOrdered() then [] else [f]
    ensures ReceiveSide(p', h)
  {
  }

  /** What the receive side keeps about its queue holds again behind a drain. */
  lemma AfterDrain(queue: map<int, Frame>, next: nat, arrived: set<int>, h: History, left: map<int, Frame>, next': int, frames: seq<Frame>)
    requires Queued(queue, h) && Releases(queue, next, h, left, next', frames)
    requires forall i :: i in arrived <==> 0 <= i < next || i in queue
    requires forall i :: i in h.lost ==> next <= i
    ensures next <= next' <= |h.ordered| && h.ordered[..next] + frames == h.ordered[..next'] && next' !in left && Queued(left, h)
    ensures forall i :: i in arrived <==> 0 <= i < next' || i in left
    ensures forall i :: i in h.lost ==> next' <= i
  {
  }

  /** A datagram that is not refused: its frames are handed over, and the queue is drained behind them. */
  lemma ArriveEffects(p: Endpoint, data: seq<byte>, d: Datagram, now: nat)
    requires Classify(data) == Ok(IncomingDatagram(d)) && OnDatagram(p.engine, d, now).1.Ok?
    ensures var (received, result) := OnDatagram(p.engine, d, now);
            var (left, next, frames) := Drain(received.orderQueue, received.nextDelivery);
            var p' := Act(p, Arrive(data), now);
            && p'.released == p.released + frames && p'.immediate == p.immediate + result.value
            && p'.engine.orderQueue == left && p'.engine.nextDelivery == next
            && p'.engine.reassemblers == received.reassemblers
            && p'.arrived == p.arrived + OrderIndices(data) && p'.refused == p.refused
  {
    hide Classify, OnDatagram, Drain, OrderIndices;
  }

  // ---------- Every run ----------

  lemma HistoryGrows(p: Endpoint, action: Action, now: nat)
    ensures Extends(p.sent, Act(p, action, now).sent)
  {
    hide PrepareSend, HandleIncoming, Session.Tick, OrderIndices;
  }

  /** A step of `p` keeps what both sides keep. */
  lemma ActKeeps(p: Endpoint, other: Endpoint, action: Action, now: nat)
    requires SendSide(p) && SendSide(other) && Possible(other, action)
    requires ReceiveSide(p, other.sent) && ReceiveSide(other, p.sent)
    requires |Act(p, action, now).sent.ordered| < 0x100_0000 && |other.sent.ordered| < 0x100_0000
    ensures var p' := Act(p, action, now);
            SendSide(p') && ReceiveSide(p', other.sent) && ReceiveSide(other, p'.sent)
  {
    HistoryGrows(p, action, now);
    hide Act, ReceiveSide;
    match action {
      case Submit(r, body, max) =>
        hide SendSide;
        SubmitKeeps(p, r, body, max, now);
        SubmitKeepsReceiving(p, r, body, max, now, other.sent);
      case Arrive(data) =>
        ArriveKeepsReceiving(p, data, now, other.sent);
        hide SendSide;
        ArriveKeepsSending(p, data, now);
      case Tick =>
        hide SendSide;
        TickKeepsSending(p, now);
        TickKeepsReceiving(p, now, other.sent);
    }
    ReceivingGrows(other, p, Act(p, action, now));
  }

  ghost predicate Sound(w: World) {
    && SendSide(w.left) && SendSide(w.right)
    && ReceiveSide(w.right, w.left.sent)
    && ReceiveSide(w.left, w.right.sent)
  }

  predicate Fewer(w: World) {
    |w.left.sent.ordered| < 0x100_0000 && |w.right.sent.ordered| < 0x100_0000
  }

  lemma {:induction false} FewerBefore(w: World, steps: seq<Step>, w': World)
    requires Leads(w, steps, w') && Fewer(w')
    ensures Fewer(w)
    decreases |steps|
  {
    if steps != [] {
      var step := steps[0];
      FewerBefore(Next(w, step), steps[1..], w');
      hide Act;
      HistoryGrows(if step.atLeft then w.left else w.right, step.action, step.now);
    }
  }

  lemma {:induction false} LeadsKeeps(w: World, steps: seq<Step>, w': World)
    requires Sound(w) && Leads(w, steps, w') && Fewer(w')
    ensures Sound(w')
    decreases |steps|
  {
    if steps != [] {
      var step, next := steps[0], Next(w, steps[0]);
      assert Leads(next, steps[1..], w');
      FewerBefore(next, steps[1..], w');
      hide Leads, Act, SendSide, ReceiveSide;
      if step.atLeft {
        ActKeeps(w.left, w.right, step.action, step.now);
      } else {
        ActKeeps(w.right, w.left, step.action, step.now);
      }
      LeadsKeeps(next, steps[1..], w');
    }
  }

  /**
    Two fresh endpoints over a network that loses, repeats, delays and reorders at will, sending,
    acknowledging and resending in any order: as long as each has been given fewer than 2^24 ordered
    frames, whether or not their sends succeeded, each has released exactly the prefix of the other's
    frames that ends at the least order index not yet arrived; it has handed over at once only
    unordered frames that were sent, and it has refused no datagram.
   */
  lemma EndToEnd(now1: nat, now2: nat, steps: seq<Step>, w: World)
    requires Leads(World(Open(now1), Open(now2)), steps, w) && Fewer(w)
    ensures Delivered(w.left, w.right) && Delivered(w.right, w.left)
  {
    hide *;
    SoundAtFirst(now1, now2);
    LeadsKeeps(World(Open(now1), Open(now2)), steps, w);
    SoundDelivers(w);
  }

  /** When every ordered frame of one side has arrived, in whatever order, the other has released them all. */
  lemma AllArrivedAllReleased(now1: nat, now2: nat, steps: seq<Step>, w: World)
    requires Leads(World(Open(now1), Open(now2)), steps, w) && Fewer(w)
    requires forall i :: 0 <= i < |w.left.sent.ordered| ==> i in w.right.arrived
    ensures w.right.released == w.left.sent.ordered
  {
    EndToEnd(now1, now2, steps, w);
    hide Leads, Fewer;
    assert |w.right.released| == |w.left.sent.ordered|;
  }

  /**
    Such runs exist, and deliver: an ordered payload whose send succeeds, followed by the arrival of
    its datagram, is released at once, whole, however many fragments it was split into.
   */
  lemma OnePayloadArrives(now1: nat, now2: nat, r: Reliability, body: seq<byte>, max: nat, sent: nat, received: nat)
    requires r.IsOrdered() && max <= 0xffff_ffff && PrepareSend(NewEngine(now1), r, body, max, sent).1.Ok?
    ensures var start, data := World(Open(now1), Open(now2)), PrepareSend(NewEngine(now1), r, body, max, sent).1.value;
            var steps := [Step(true, Submit(r, body, max), sent), Step(false, Arrive(data), received)];
            var w := Next(Next(start, steps[0]), steps[1]);
            && Leads(start, steps, w) && Fewer(w)
            && w.right.released == [NextFrame(NewEngine(now1), r, body)] == w.left.sent.ordered
  {
    hide *;
    var start, data := World(Open(now1), Open(now2)), PrepareSend(NewEngine(now1), r, body, max, sent).1.value;
    var submit, arrive := Step(true, Submit(r, body, max), sent), Step(false, Arrive(data), received);
    var w := Next(Next(start, submit), arrive);
    FirstSubmitted(now1, now2, r, body, max, sent);
    FirstArrived(Next(start, submit), now1, r, body, max, sent, received);
    TwoSteps(start, submit, arrive);
    assert [submit, arrive] == [Step(true, Submit(r, body, max), sent), Step(false, Arrive(data), received)];
    AllArrivedAllReleased(now1, now2, [submit, arrive], w);
  }

  lemma FirstSubmitted(now1: nat, now2: nat, r: Reliability, body: seq<byte>, max: nat, sent: nat)
    requires r.IsOrdered() && max <= 0xffff_ffff && PrepareSend(NewEngine(now1), r, body, max, sent).1.Ok?
    ensures var start, submit := World(Open(now1), Open(now2)), Step(true, Submit(r, body, max), sent);
            var w := Next(start, submit);
            && Enabled(start, submit) && w.right.sent.ordered == []
            && PrepareSend(NewEngine(now1), r, body, max, sent).1.value in w.left.emitted
            && w.left.sent.ordered == [NextFrame(NewEngine(now1), r, body)]
  {
    hide SplitInto, EncodeDatagram, NextFrame, PrepareSend;
    assert NextFrame(NewEngine(now1), r, body).reliability == r by { NextFrameFields(NewEngine(now1), r, body); }
  }

  /** The arriving datagram brings order index 0 and nothing else changes what was submitted. */
  lemma FirstArrived(w: World, now1: nat, r: Reliability, body: seq<byte>, max: nat, sent: nat, received: nat)
    requires r.IsOrdered() && max <= 0xffff_ffff && PrepareSend(NewEngine(now1), r, body, max, sent).1.Ok?
    requires PrepareSend(NewEngine(now1), r, body, max, sent).1.value in w.left.emitted
    requires |w.left.sent.ordered| == 1 && w.right.sent.ordered == []
    ensures var arrive := Step(false, Arrive(PrepareSend(NewEngine(now1), r, body, max, sent).1.value), received);
            && Enabled(w, arrive) && Next(w, arrive).left == w.left && Fewer(Next(w, arrive))
            && 0 in Next(w, arrive).right.arrived
  {
    var e, data := NewEngine(now1), PrepareSend(NewEngine(now1), r, body, max, sent).1.value;
    SentDecodes(e, r, body, max, sent);
    NextFrameFields(e, r, body);
    IndicesOfSplit(NextFrame(e, r, body), max, SplitId(e.nextDatagram), SentFrames(e, r, body, max).value);
    hide SplitInto, Classify, PrepareSend, HandleIncoming;
  }

  /** Runs one after another are a run. */
  lemma {:induction false} LeadsAppend(w: World, steps: seq<Step>, w': World, more: seq<Step>, w'': World)
    requires Leads(w, steps, w') && Leads(w', more, w'')
    ensures Leads(w, steps + more, w'')
    decreases |steps|
  {
    hide Act, Possible;
    if steps == [] {
      assert [] + more == more;
    } else {
      LeadsAppend(Next(w, steps[0]), steps[1..], w', more, w'');
      assert (steps + more)[1..] == steps[1..] + more;
    }
  }

  lemma OneStep(w: World, step: Step)
    requires Enabled(w, step)
    ensures Leads(w, [step], Next(w, step))
  {
    hide Act, Possible;
    assert [step][1..] == [] && Leads(Next(w, step), [], Next(w, step));
  }

  lemma TwoSteps(start: World, first: Step, second: Step)
    requires Enabled(start, first) && Enabled(Next(start, first), second)
    ensures Leads(start, [first, second], Next(Next(start, first), second))
  {
    hide Act, Possible;
    assert [first, second][1..] == [second] && [second][1..] == [];
    assert Leads(Next(Next(start, first), second), [], Next(Next(start, first), second));
    assert Leads(Next(start, first), [second], Next(Next(start, first), second));
  }

  lemma SoundAtFirst(now1: nat, now2: nat)
    ensures Sound(World(Open(now1), Open(now2)))
  {
  }

  lemma SoundDelivers(w: World)
    requires Sound(w)
    ensures Delivered(w.left, w.right) && Delivered(w.right, w.left)
  {
    hide SendSide, Queued;
  }

  /**
    The bound is tight. With 2^24 ordered frames submitted and a late copy of the first one queued,
    the arrival of the last one releases it and then the first one again.
   */
  lemma StaleFrameReturns(p: Endpoint, data: seq<byte>, d: Datagram, max: nat, id: u16, now: nat, h: History)
    requires ReceiveSide(p, h) && |h.ordered| == 0x100_0000
    requires |p.released| == 0xff_ffff && p.engine.orderQueue.Keys == {0}
    requires var last := h.ordered[0xff_ffff];
             && Classify(data) == Ok(IncomingDatagram(d)) && SplitInto(last, max, id) == Ok(d.frames)
             && last.split.None? && last.IndicesMatch() && last.reliability.IsOrdered() && last.orderIndex == Some(0xff_ffff)
    ensures Act(p, Arrive(data), now).released == h.ordered + [h.ordered[0]]
  {
    var last := h.ordered[0xff_ffff];
    var received := OnDatagram(p.engine, d, now).0;
    OneDatagram(p, d, last, max, id, now);
    ArriveEffects(p, data, d, now);
    LateCopy(p, h, last);
    TwoReleased(received.orderQueue);
    hide *;
    LastThenFirst(p.released, h.ordered, 0xff_ffff);
  }

  /** The late copy is of the first frame, and it joins the queue's last. */
  lemma LateCopy(p: Endpoint, h: History, last: Frame)
    requires ReceiveSide(p, h) && p.engine.orderQueue.Keys == {0} && |p.released| < |h.ordered|
    ensures p.engine.orderQueue[0] == h.ordered[0] && p.released == h.ordered[..|p.released|]
    ensures p.engine.nextDelivery == |p.released|
    ensures p.engine.orderQueue[0xff_ffff := last].Keys == {0, 0xff_ffff}
  {
    hide Queued;
    QueuedAt(p.engine.orderQueue, h);
  }

  lemma QueuedAt(queue: map<int, Frame>, h: History)
    requires Queued(queue, h) && 0 in queue
    ensures h.ordered != [] && queue[0] == h.ordered[0]
  {
  }

  lemma LastThenFirst(released: seq<Frame>, ordered: seq<Frame>, n: nat)
    requires |ordered| == n + 1 && released == ordered[..n]
    ensures released + [ordered[n], ordered[0]] == ordered + [ordered[0]]
  {
  }

  lemma TwoReleased(queue: map<int, Frame>)
    requires queue.Keys == {0, 0xff_ffff}
    ensures Drain(queue, 0xff_ffff).2 == [queue[0xff_ffff], queue[0]]
  {
    var one := queue - {0xff_ffff as int};
    var none := one - {0 as int};
    assert one.Keys == {0} && none.Keys == {};
    assert Drain(none, 1).2 == [];
    assert Drain(one, 0).2 == [queue[0]] + [];
  }
}
