/**
  Whole runs of an engine: every operation it has, in any order, under a clock
  that does not run backwards. A tick is a drain of the ACKs and a resend.
 */
module LedgerProofs {
  import opened Basics
  import opened Datagrams
  import opened Splitting
  import opened ReceiveWindow
  import opened Acks
  import opened EngineState
  import opened WalkProofs
  import opened RetransmissionProofs
  import opened SendProofs

  datatype Event =
    | Send(r: Reliability, body: seq<byte>, max: nat, now: nat)
    | Ack(a: Acknowledgement, now: nat)
    | Nack(a: Acknowledgement, now: nat)
    | Resend(now: nat)
    | Receive(d: Datagram, now: nat)
    | Release(now: nat)
    | DrainAcks(now: nat)

  /**
    An engine with what a bystander would note down: for each number the bytes and the time of its
    latest send and how often it has been on the wire again without being asked for, the round-trip
    samples, when a datagram last arrived, the time, and what the last event put on the wire.
   */
  datatype Ledger = Ledger(
    engine: Engine,
    latest: map<int, seq<byte>>,
    firstSent: map<int, nat>,
    retries: map<int, nat>,
    samples: seq<nat>,
    heard: nat,
    clock: nat,
    emitted: seq<seq<byte>>)

  function Opened(now: nat): Ledger {
    Ledger(NewEngine(now), map[], map[], map[], [], now, now, [])
  }

  ghost function Apply(l: Ledger, event: Event): Ledger {
    var e := l.engine;
    match event
    case Send(r, body, max, now) =>
      var (after, result) := PrepareSend(e, r, body, max, now);
      if result.Err? then l.(engine := after, clock := now, emitted := [])
      else
        l.(engine := after, clock := now, emitted := [result.value],
           latest := l.latest[e.nextDatagram := result.value], firstSent := l.firstSent[e.nextDatagram := now],
           retries := l.retries[e.nextDatagram := 0])
    case Ack(a, now) =>
      l.(engine := OnAck(e, a, now), clock := now, emitted := [],
         samples := l.samples + AckSamples(e.unacked, a.ranges, now))
    case Nack(a, now) =>
      var (after, out) := OnNack(e, a, now);
      l.(engine := after, clock := now, emitted := out)
    case Resend(now) =>
      var (after, out) := ResendDue(e, now);
      l.(engine := after, clock := now, emitted := out, retries := Retried(l.retries, l.latest, out))
    case Receive(d, now) =>
      l.(engine := OnDatagram(e, d, now).0, clock := now, emitted := [], heard := now)
    case Release(now) =>
      l.(engine := DrainOrdered(e).0, clock := now, emitted := [])
    case DrainAcks(now) =>
      l.(engine := EngineState.DrainAcks(e).0, clock := now, emitted := [])
  }

  /** One more for each datagram whose latest bytes are among what was put on the wire. */
  function Retried(retries: map<int, nat>, latest: map<int, seq<byte>>, out: seq<seq<byte>>): map<int, nat> {
    map s | s in retries :: retries[s] + if s in latest && latest[s] in out then 1 else 0
  }

  predicate Allowed(l: Ledger, event: Event) {
    event.now >= l.clock && (event.Send? ==> event.max <= 0xffff_ffff)
  }

  ghost predicate Reaches(l: Ledger, events: seq<Event>, l': Ledger)
    decreases |events|
  {
    if events == [] then l == l'
    else Allowed(l, events[0]) && Reaches(Apply(l, events[0]), events[1..], l')
  }

  /** `bytes` are a datagram numbered `s`. */
  predicate Numbered(bytes: seq<byte>, s: int) {
    && Classify(bytes).Ok? && Classify(bytes).value.IncomingDatagram?
    && Classify(bytes).value.d.sequenceNumber == s
  }

  /**
    Each outstanding datagram is kept as it was last sent, with the number of its retries, which came
    no faster than once in 80 ms.
   */
  ghost predicate Recorded(l: Ledger, s: int)
    requires s in l.engine.unacked
  {
    var record := l.engine.unacked[s];
    && s in l.latest && record.bytes == l.latest[s] && Numbered(l.latest[s], s)
    && s in l.retries && record.resends == Saturated(l.retries[s])
    && s in l.firstSent && l.firstSent[s] + l.retries[s] * 80_000_000 <= record.sentAt <= l.clock
  }

  function Saturated(n: nat): nat {
    if n > 0xffff_ffff then 0xffff_ffff else n
  }

  /** The estimate is 200 ms, refined by the samples in turn, and the engine knows when it last heard anything. */
  predicate Estimated(l: Ledger) {
    l.engine.rtt == Folded(200_000_000, l.samples) && l.engine.lastRecv == l.heard
  }

  /** The estimate lies between the least and the greatest of 200 ms and the samples taken. */
  predicate InHull(l: Ledger) {
    && (exists low :: low in [200_000_000] + l.samples && low <= l.engine.rtt)
    && (exists high :: high in [200_000_000] + l.samples && l.engine.rtt <= high)
  }

  ghost predicate Kept(l: Ledger) {
    Numbers24(l.engine.unacked) && forall s :: s in l.engine.unacked ==> Recorded(l, s)
  }

  lemma SendKeeps(l: Ledger, event: Event)
    requires Kept(l) && Allowed(l, event) && event.Send?
    ensures Kept(Apply(l, event))
  {
    var Send(r, body, max, now) := event;
    if PrepareSend(l.engine, r, body, max, now).1.Ok? {
      SentDecodes(l.engine, r, body, max, now);
    }
    hide Numbered, SplitInto, EncodeDatagram;
    var l' := Apply(l, event);
    forall s | s in l'.engine.unacked
      ensures Recorded(l', s)
    {
    }
  }

  lemma AckKeeps(l: Ledger, event: Event)
    requires Kept(l) && Allowed(l, event) && event.Ack?
    ensures Kept(Apply(l, event))
    ensures forall s :: s in Apply(l, event).engine.unacked ==> s in l.engine.unacked
  {
    var Ack(a, now) := event;
    AckRemovesWalked(l.engine.unacked, l.engine.rtt, a.ranges, now);
    hide Numbered, AckRanges, AckSamples, AnyWalked;
    var l' := Apply(l, event);
    forall s | s in l'.engine.unacked
      ensures s in l.engine.unacked && Recorded(l', s)
    {
      assert Recorded(l, s);
    }
  }

  lemma NackKeeps(l: Ledger, event: Event)
    requires Kept(l) && Allowed(l, event) && event.Nack?
    ensures Kept(Apply(l, event)) && Apply(l, event).engine.unacked.Keys == l.engine.unacked.Keys
    ensures forall b :: b in Apply(l, event).emitted ==> exists s :: s in l.engine.unacked && l.latest[s] == b
  {
    var Nack(a, now) := event;
    NackEmitsWalked(l.engine.unacked, a.ranges, now);
    hide Numbered, NackRanges, AnyWalked;
    var l' := Apply(l, event);
    forall s | s in l'.engine.unacked
      ensures Recorded(l', s)
    {
      assert Recorded(l, s);
    }
    forall b | b in l'.emitted
      ensures exists s :: s in l.engine.unacked && l.latest[s] == b
    {
      var s :| s in l.engine.unacked && AnyWalked(a.ranges, s) && l.engine.unacked[s].bytes == b;
      assert Recorded(l, s);
    }
  }

  lemma ResendKeeps(l: Ledger, event: Event)
    requires Kept(l) && Allowed(l, event) && event.Resend?
    ensures Kept(Apply(l, event)) && Apply(l, event).engine.unacked.Keys == l.engine.unacked.Keys
    ensures forall b :: b in Apply(l, event).emitted ==> exists s :: s in l.engine.unacked && l.latest[s] == b
  {
    var e, now := l.engine, event.now;
    ResendRefreshes(e, now);
    ResendCounts(e, now);
    ResendEmits(e, now);
    ThresholdExact(e.rtt);
    hide Numbered, ResendDue, ResendThreshold;
    var l' := Apply(l, event);
    forall s | s in l'.engine.unacked
      ensures Recorded(l', s)
    {
      assert Recorded(l, s);
      EmittedIfDue(l, s, now);
    }
    forall b | b in l'.emitted
      ensures exists s :: s in l.engine.unacked && l.latest[s] == b
    {
      var s :| s in e.unacked && e.unacked[s].bytes == b;
      assert Recorded(l, s);
    }
  }

  /** A datagram's bytes are among what a resend returns exactly if it is overdue itself. */
  lemma EmittedIfDue(l: Ledger, s: int, now: nat)
    requires Kept(l) && s in l.engine.unacked
    ensures s in l.latest
    ensures l.latest[s] in ResendDue(l.engine, now).1 <==>
              Elapsed(now, l.engine.unacked[s].sentAt) >= ResendThreshold(l.engine.rtt)
  {
    var e := l.engine;
    assert Recorded(l, s);
    ResendEmits(e, now);
    hide Numbered, ResendDue, ResendThreshold, Elapsed;
    if l.latest[s] in ResendDue(e, now).1 {
      var t :| t in e.unacked && Elapsed(now, e.unacked[t].sentAt) >= ResendThreshold(e.rtt) && e.unacked[t].bytes == l.latest[s];
      assert Recorded(l, t);
      OneNumber(l.latest[s], s, t);
    }
  }

  lemma OneNumber(bytes: seq<byte>, s: int, t: int)
    requires Numbered(bytes, s) && Numbered(bytes, t)
    ensures s == t
  {
  }

  /** Receiving, releasing and draining ACKs touch neither the store nor the estimate. */
  lemma OthersKeep(l: Ledger, event: Event)
    requires Kept(l) && Allowed(l, event) && (event.Receive? || event.Release? || event.DrainAcks?)
    ensures Kept(Apply(l, event)) && Apply(l, event).engine.unacked == l.engine.unacked && Apply(l, event).emitted == []
  {
    hide Numbered, AcceptFrames, Record, Drain, Coalesce;
    var l' := Apply(l, event);
    forall s | s in l'.engine.unacked
      ensures Recorded(l', s)
    {
      assert Recorded(l, s);
    }
  }

  /** A resend counts one more for what was due, short of the greatest count, and none for the rest. */
  lemma ResendCounts(e: Engine, now: nat)
    ensures forall s :: s in e.unacked ==>
              var before, after := e.unacked[s], ResendDue(e, now).0.unacked[s];
              after.resends == if Elapsed(now, before.sentAt) >= ResendThreshold(e.rtt) && before.resends < 0xffff_ffff
                               then before.resends + 1 else before.resends
  {
    hide ResendThreshold, DueBytes, UnackedKeys;
  }

  // ---------- The estimate over a run ----------

  lemma {:induction false} SampleBounds(samples: seq<nat>, low: nat, high: nat) returns (low': nat, high': nat)
    requires low <= high
    ensures low' <= low && high <= high' && Between(low', high', samples)
    ensures (low' == low || low' in samples) && (high' == high || high' in samples)
  {
    low', high' := low, high;
    if samples != [] {
      var front, last := samples[..|samples| - 1], samples[|samples| - 1];
      low', high' := SampleBounds(front, low, high);
      assert forall i :: 0 <= i < |front| ==> samples[i] == front[i];
      if last < low' { low' := last; }
      if last > high' { high' := last; }
    }
  }

  lemma EstimateKeeps(l: Ledger, event: Event)
    requires Estimated(l)
    ensures Estimated(Apply(l, event))
  {
    if event.Ack? {
      AckEstimates(l.engine.unacked, l.engine.rtt, event.a.ranges, event.now);
      FoldedAppend(200_000_000, l.samples, AckSamples(l.engine.unacked, event.a.ranges, event.now));
      hide AckRanges, AckSamples, Folded;
    } else if event.Send? {
      SendLeavesEstimate(l.engine, event.r, event.body, event.max, event.now);
      hide PrepareSend, Folded;
    } else {
      hide NackRanges, DueBytes, UnackedKeys, AcceptFrames, Drain, Coalesce, Folded, Record, RefreshAll, Retried;
    }
  }

  lemma SendLeavesEstimate(e: Engine, r: Reliability, body: seq<byte>, max: nat, now: nat)
    ensures PrepareSend(e, r, body, max, now).0.rtt == e.rtt && PrepareSend(e, r, body, max, now).0.lastRecv == e.lastRecv
  {
    hide SplitInto, EncodeDatagram, NextFrame;
  }

  lemma HullOf(l: Ledger)
    requires Estimated(l)
    ensures InHull(l)
  {
    var low, high := SampleBounds(l.samples, 200_000_000, 200_000_000);
    FoldedBounds(200_000_000, l.samples, low, high);
    hide Folded, Between;
    assert low in [200_000_000] + l.samples && high in [200_000_000] + l.samples;
  }

  // ---------- Every run ----------

  lemma {:induction false} RunKeeps(l: Ledger, events: seq<Event>, l': Ledger)
    requires Kept(l) && Estimated(l) && Reaches(l, events, l')
    ensures Kept(l') && Estimated(l')
    decreases |events|
  {
    if events != [] {
      var event := events[0];
      assert Allowed(l, event) && Reaches(Apply(l, event), events[1..], l');
      hide *;
      match event {
        case Send(_, _, _, _) => SendKeeps(l, event);
        case Ack(_, _) => AckKeeps(l, event);
        case Nack(_, _) => NackKeeps(l, event);
        case Resend(_) => ResendKeeps(l, event);
        case Receive(_, _) => OthersKeep(l, event);
        case Release(_) => OthersKeep(l, event);
        case DrainAcks(_) => OthersKeep(l, event);
      }
      EstimateKeeps(l, event);
      RunKeeps(Apply(l, event), events[1..], l');
    } else {
      assert l == l';
    }
  }

  /**
    Whatever the events: every outstanding datagram is stored exactly as it was last sent, decodes to
    a datagram of its own number, and has its retries counted, which came at most once per 80 ms; the
    estimate is 200 ms refined by one sample after another, and so lies between their extremes.
   */
  lemma RunFromOpening(events: seq<Event>, now: nat, l: Ledger)
    requires Reaches(Opened(now), events, l)
    ensures Kept(l) && Estimated(l) && InHull(l)
  {
    RunKeeps(Opened(now), events, l);
    HullOf(l);
  }

  /**
    Over every run: an engine is alive exactly until ten seconds and twice its estimate have passed
    since a datagram last arrived, or since it was opened if none has.
   */
  lemma AliveExactly(events: seq<Event>, now: nat, l: Ledger, later: nat)
    requires Reaches(Opened(now), events, l)
    ensures IsAlive(l.engine, later) <==> later < l.heard + 10_000_000_000 + 2 * l.engine.rtt
  {
    RunFromOpening(events, now, l);
    hide Kept, InHull, Folded, Reaches;
  }

  // ---------- Convergence over a run ----------

  /** Nothing that was noted about samples is ever taken back. */
  lemma {:induction false} SamplesGrow(l: Ledger, events: seq<Event>, l': Ledger)
    requires Reaches(l, events, l')
    ensures l.samples <= l'.samples
    decreases |events|
  {
    if events != [] {
      SamplesGrow(Apply(l, events[0]), events[1..], l');
      hide AckSamples, PrepareSend, OnNack, ResendDue, OnAck, OnDatagram, DrainOrdered;
    }
  }

  lemma {:induction false} ReachesAppend(l: Ledger, events: seq<Event>, l': Ledger, more: seq<Event>, l'': Ledger)
    requires Reaches(l, events, l') && Reaches(l', more, l'')
    ensures Reaches(l, events + more, l'')
    decreases |events|
  {
    hide Apply;
    if events == [] {
      assert [] + more == more;
    } else {
      ReachesAppend(Apply(l, events[0]), events[1..], l', more, l'');
      assert (events + more)[1..] == events[1..] + more;
    }
  }

  /**
    From any point of any run on: once enough samples have been taken that all equal `sample`, as many
    as nanoseconds lie between it and the estimate, the engine's own estimate has its eighth.
   */
  lemma RunConverges(now: nat, before: seq<Event>, l: Ledger, more: seq<Event>, l': Ledger, sample: nat)
    requires Reaches(Opened(now), before, l) && Reaches(l, more, l')
    requires l.samples <= l'.samples ==> AllEqual(l'.samples[|l.samples|..], sample)
    requires |l'.samples| >= |l.samples| + Gap(l.engine.rtt, sample)
    ensures l'.engine.rtt / 8 == sample / 8
  {
    hide *;
    SamplesGrow(l, more, l');
    ReachesAppend(Opened(now), before, l, more, l');
    RunFromOpening(before, now, l);
    RunFromOpening(before + more, now, l');
    LateSamples(l, l', sample);
  }

  lemma LateSamples(l: Ledger, l': Ledger, sample: nat)
    requires Estimated(l) && Estimated(l') && l.samples <= l'.samples
    requires AllEqual(l'.samples[|l.samples|..], sample) && |l'.samples| >= |l.samples| + Gap(l.engine.rtt, sample)
    ensures l'.engine.rtt / 8 == sample / 8
  {
    var late := l'.samples[|l.samples|..];
    assert l'.samples == l.samples + late;
    FoldedAppend(200_000_000, l.samples, late);
    EqualSamplesConverge(l.engine.rtt, late, sample);
    hide Folded, AllEqual;
  }

  /** An empty datagram is sent, and acknowledged by itself after `sample`. */
  lemma Ping(l: Ledger, sample: nat) returns (events: seq<Event>, l': Ledger)
    ensures Reaches(l, events, l') && l'.samples == l.samples + [sample]
  {
    var send := Send(Unreliable, [], 1, l.clock);
    var mid := Apply(l, send);
    var number := l.engine.nextDatagram;
    var ack := Ack(Acknowledgement(true, [Range(number, number)]), l.clock + sample);
    SendSucceedsExactly(l.engine, Unreliable, [], 1, l.clock);
    Stored(l);
    OneSample(mid.engine.unacked, number, l.clock + sample);
    events, l' := [send, ack], Apply(mid, ack);
    assert events[1..] == [ack] && [ack][1..] == [];
    hide PrepareSend, AckSamples, OnAck;
    assert Reaches(l', [], l') && Reaches(mid, [ack], l');
  }

  lemma Stored(l: Ledger)
    requires PrepareSend(l.engine, Unreliable, [], 1, l.clock).1.Ok?
    ensures var after := PrepareSend(l.engine, Unreliable, [], 1, l.clock).0;
            l.engine.nextDatagram in after.unacked && after.unacked[l.engine.nextDatagram].sentAt == l.clock
  {
    hide SplitInto, EncodeDatagram, NextFrame;
  }

  /** There are such runs: each datagram acknowledged by itself, after the same time. */
  lemma {:induction false} Pings(now: nat, sample: nat, n: nat) returns (events: seq<Event>, l: Ledger)
    ensures Reaches(Opened(now), events, l) && |l.samples| == n && AllEqual(l.samples, sample)
  {
    if n == 0 {
      events, l := [], Opened(now);
    } else {
      var before, mid := Pings(now, sample, n - 1);
      var more;
      more, l := Ping(mid, sample);
      hide Reaches;
      ReachesAppend(Opened(now), before, mid, more, l);
      events := before + more;
    }
  }

  /** And in one of them the estimate arrives at the sample's eighth, whatever the sample. */
  lemma PingsConverge(now: nat, sample: nat) returns (events: seq<Event>, l: Ledger)
    ensures Reaches(Opened(now), events, l) && l.engine.rtt / 8 == sample / 8 && AllEqual(l.samples, sample)
  {
    hide *;
    events, l := Pings(now, sample, Gap(200_000_000, sample));
    Start(now);
    AllFrom(l.samples, sample);
    RunConverges(now, [], Opened(now), events, l, sample);
  }

  lemma AllFrom(samples: seq<nat>, sample: nat)
    requires AllEqual(samples, sample)
    ensures AllEqual(samples[0..], sample)
  {
  }

  lemma Start(now: nat)
    ensures Reaches(Opened(now), [], Opened(now)) && Opened(now).samples == [] && Opened(now).engine.rtt == 200_000_000
  {
  }
}
