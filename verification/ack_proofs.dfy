/**
  Every datagram number that is accepted as new is acknowledged once: either in
  an ACK already drained or among the pending ones.
 */
module AckProofs {
  import opened Basics
  import opened Datagrams
  import opened Ascending
  import opened ReceiveWindow
  import opened WindowProofs
  import opened Acks
  import opened EngineState

  /** Datagram number `n`, counted without wrapping, arrives; or the pending ACKs are drained. */
  datatype Event = Arrive(n: int, d: Datagram, now: nat) | Drain

  /** An engine with the numbers that arrived, those accepted as new, and the ACKs drained so far. */
  datatype AckLog = AckLog(engine: Engine, arrivals: seq<int>, accepted: set<int>, drained: seq<Acknowledgement>)

  function Opened(now: nat): AckLog {
    AckLog(NewEngine(now), [], {}, [])
  }

  ghost function Apply(l: AckLog, event: Event): AckLog {
    match event
    case Arrive(n, d, now) =>
      AckLog(OnDatagram(l.engine, d, now).0, l.arrivals + [n],
             if Record(l.engine.window, Wrap(n)).1 then l.accepted + {n} else l.accepted, l.drained)
    case Drain =>
      var (after, ack) := DrainAcks(l.engine);
      l.(engine := after, drained := if ack.Some? then l.drained + [ack.value] else l.drained)
  }

  predicate Allowed(event: Event) {
    event.Arrive? ==> event.d.sequenceNumber == Wrap(event.n)
  }

  ghost function Run(l: AckLog, events: seq<Event>): AckLog {
    if events == [] then l else Apply(Run(l, events[..|events| - 1]), events[|events| - 1])
  }

  ghost function Numbers(a: Acknowledgement): set<int> {
    set x | 0 <= x < 0x100_0000 && Denotes(a.ranges, x)
  }

  /** How often each number has been acknowledged. */
  ghost function Acknowledged(acks: seq<Acknowledgement>): multiset<int> {
    if acks == [] then multiset{}
    else Acknowledged(acks[..|acks| - 1]) + multiset(Numbers(acks[|acks| - 1]))
  }

  ghost function Residues(numbers: set<int>): set<int> {
    set x | x in numbers :: Wrap(x)
  }

  ghost function Pending(l: AckLog): set<int> {
    l.engine.pendingAcks
  }

  /** The run stays where the window can follow it, and spans less than the whole circle. */
  ghost predicate Followed(arrivals: seq<int>) {
    arrivals != [] ==> StaysInReach(arrivals) && forall i, j :: 0 <= i < |arrivals| && 0 <= j < |arrivals| ==> arrivals[i] - arrivals[j] < 0x100_0000
  }

  ghost predicate Conserved(l: AckLog) {
    && l.engine.window == RecordAll(l.arrivals).0
    && l.accepted == (if l.arrivals == [] then {} else Counted(l.arrivals))
    && Acknowledged(l.drained) + multiset(Pending(l)) == multiset(Residues(l.accepted))
  }

  /** The ACK that a drain of pending numbers returns. */
  ghost function PendingAck(e: Engine): (a: Acknowledgement)
    requires e.pendingAcks != {}
    ensures Numbers(a) == e.pendingAcks && a.isAck
  {
    DrainedNumbers(Ascending24(e.pendingAcks), e.pendingAcks);
    Acknowledgement(true, Coalesce(Ascending24(e.pendingAcks)))
  }

  lemma DrainEffects(l: AckLog)
    ensures var l' := Apply(l, Drain);
            && l'.engine.window == l.engine.window && l'.arrivals == l.arrivals && l'.accepted == l.accepted
            && Pending(l') == {}
            && l'.drained == if Pending(l) == {} then l.drained else l.drained + [PendingAck(l.engine)]
  {
    hide Coalesce;
  }

  lemma OneMoreAck(acks: seq<Acknowledgement>, ack: Acknowledgement)
    ensures Acknowledged(acks + [ack]) == Acknowledged(acks) + multiset(Numbers(ack))
  {
    hide Numbers;
    assert (acks + [ack])[..|acks|] == acks;
  }

  lemma DrainKeeps(l: AckLog)
    requires Conserved(l)
    ensures Conserved(Apply(l, Drain))
  {
    DrainEffects(l);
    hide Apply, Acknowledged, Numbers, RecordAll, Counted, Residues, PendingAck;
    if Pending(l) == {} {
      assert Pending(Apply(l, Drain)) == Pending(l);
    } else {
      OneMoreAck(l.drained, PendingAck(l.engine));
    }
  }

  /** The drained ACK denotes exactly what was pending. */
  lemma DrainedNumbers(numbers: seq<u24>, pending: set<int>)
    requires numbers != [] && IsSorted(numbers) && forall x :: x in numbers <==> x in pending
    ensures Coalesce(numbers) != [] && Numbers(Acknowledgement(true, Coalesce(numbers))) == pending
  {
    CoalesceExact(numbers);
    hide Coalesce, Denotes;
    var ack := Acknowledgement(true, Coalesce(numbers));
    forall x: int
      ensures x in Numbers(ack) <==> x in pending
    {
      if x in pending { assert x in numbers; }
    }
  }

  /** A number not accounted for is not pending, and adding it to both sides keeps the account. */
  lemma OneMore(acknowledged: multiset<int>, pending: set<int>, accepted: set<int>, x: int)
    requires acknowledged + multiset(pending) == multiset(accepted) && x !in accepted
    ensures x !in pending && acknowledged + multiset(pending + {x}) == multiset(accepted + {x})
  {
    assert multiset(accepted)[x] == 0 && multiset(pending)[x] <= multiset(accepted)[x];
    assert multiset(pending + {x}) == multiset(pending) + multiset{x};
    assert multiset(accepted + {x}) == multiset(accepted) + multiset{x};
  }

  /** The engine's part in an arrival. */
  lemma ArriveEffects(l: AckLog, event: Event)
    requires Allowed(event) && event.Arrive?
    ensures var l', (w, isNew) := Apply(l, event), Record(l.engine.window, Wrap(event.n));
            && l'.engine.window == w && l'.arrivals == l.arrivals + [event.n] && l'.drained == l.drained
            && l'.accepted == (if isNew then l.accepted + {event.n} else l.accepted)
            && Pending(l') == if isNew then Pending(l) + {Wrap(event.n)} else Pending(l)
  {
    WrapNext(event.n);
    hide AcceptFrames, Record;
  }

  lemma FirstKeeps(l: AckLog, event: Event)
    requires Conserved(l) && Allowed(event) && event.Arrive? && l.arrivals == []
    ensures Conserved(Apply(l, event))
  {
    FirstJudged(event.n);
    ArriveEffects(l, event);
    hide Apply, Counted, RecordAll, Record, Residues, Acknowledged;
    OneMore(Acknowledged(l.drained), Pending(l), {}, Wrap(event.n));
    assert [] + [event.n] == [event.n] && {} + {event.n} == {event.n};
  }

  lemma FirstJudged(n: int)
    ensures Record(RecordAll([]).0, Wrap(n)) == (RecordAll([n]).0, true)
    ensures Counted([n]) == {n} && Residues({}) == {} && Residues({n}) == {} + {Wrap(n)}
  {
    FirstArrival(n);
    hide Record;
    assert [n][..|[n]| - 1] == [];
  }

  /** In a followed run the number is new to the window exactly when it is accepted, and then its residue is new too. */
  lemma LaterKeeps(l: AckLog, event: Event)
    requires Conserved(l) && Allowed(event) && event.Arrive? && l.arrivals != []
    requires Followed(l.arrivals + [event.n])
    ensures Conserved(Apply(l, event))
  {
    var n, front := event.n, l.arrivals;
    LaterJudged(front, n);
    CountedStep(front, n);
    ResiduesStep(front, n);
    ArriveEffects(l, event);
    hide Apply, Counted, RecordAll, Record, Followed, Residues, Acknowledged;
    if front[0] <= n && n !in front {
      OneMore(Acknowledged(l.drained), Pending(l), Residues(l.accepted), Wrap(n));
    }
  }

  lemma LaterJudged(front: seq<int>, n: int)
    requires front != [] && Followed(front + [n])
    ensures var (w, isNew) := Record(RecordAll(front).0, Wrap(n));
            RecordAll(front + [n]).0 == w && (isNew <==> front[0] <= n && n !in front)
  {
    FrontStays(front, n);
    RunTracks(front);
    RunStep(front, n);
    hide *;
    RecordLast(front, n);
    var answers, isNew := RecordAll(front).1, Record(RecordAll(front).0, Wrap(n)).1;
    assert (answers + [isNew])[|answers|] == (answers + [front[0] <= n && n !in front])[|answers|];
  }

  lemma ResiduesStep(front: seq<int>, n: int)
    requires front != [] && Followed(front + [n])
    ensures front[0] <= n && n !in front ==>
              Wrap(n) !in Residues(Counted(front)) && Residues(Counted(front) + {n}) == Residues(Counted(front)) + {Wrap(n)}
  {
    var all := front + [n];
    forall x | x in Counted(front)
      ensures Wrap(x) == Wrap(n) ==> x == n
    {
      var i :| 0 <= i < |front| && front[i] == x;
      assert all[i] == x && all[|front|] == n;
      WrapDifference(x, n);
    }
  }

  /**
    Over a whole run, with drains at any time: the numbers denoted by all ACKs drained, together with
    the pending ones, are exactly the numbers accepted as new, each once.
   */
  lemma {:induction false} AcknowledgedOnce(now: nat, events: seq<Event>)
    requires (forall event :: event in events ==> Allowed(event)) && Followed(Run(Opened(now), events).arrivals)
    ensures var l := Run(Opened(now), events);
            Acknowledged(l.drained) + multiset(Pending(l)) == multiset(Residues(l.accepted))
    ensures Conserved(Run(Opened(now), events))
  {
    if events == [] {
      assert Residues({}) == {};
    } else {
      var front, last := events[..|events| - 1], events[|events| - 1];
      var l := Run(Opened(now), front);
      FollowedBefore(l, last);
      AcknowledgedOnce(now, front);
      hide Conserved, Followed, Apply;
      match last {
        case Drain => DrainKeeps(l);
        case Arrive(_, _, _) =>
          ArrivalsGrow(l, last);
          if l.arrivals == [] { FirstKeeps(l, last); } else { LaterKeeps(l, last); }
      }
      ConservedMeans(Apply(l, last));
    }
  }

  lemma ConservedMeans(l: AckLog)
    requires Conserved(l)
    ensures Acknowledged(l.drained) + multiset(Pending(l)) == multiset(Residues(l.accepted))
  {
  }

  lemma ArrivalsGrow(l: AckLog, event: Event)
    ensures Apply(l, event).arrivals == if event.Arrive? then l.arrivals + [event.n] else l.arrivals
  {
  }

  lemma FollowedBefore(l: AckLog, event: Event)
    requires Followed(Apply(l, event).arrivals)
    ensures Followed(l.arrivals)
  {
    ArrivalsGrow(l, event);
    hide Apply, StaysInReach;
    if event.Arrive? && l.arrivals != [] {
      FrontStays(l.arrivals, event.n);
      var all := l.arrivals + [event.n];
      assert forall i :: 0 <= i < |l.arrivals| ==> l.arrivals[i] == all[i];
    }
  }

  /** In such a run no two accepted numbers share a residue, so each residue stands for one number. */
  lemma ResiduesDistinct(arrivals: seq<int>, x: int, y: int)
    requires arrivals != [] && Followed(arrivals) && x in Counted(arrivals) && y in Counted(arrivals)
    ensures Wrap(x) == Wrap(y) ==> x == y
  {
    var i :| 0 <= i < |arrivals| && arrivals[i] == x;
    var j :| 0 <= j < |arrivals| && arrivals[j] == y;
    WrapDifference(x, y);
  }
}
