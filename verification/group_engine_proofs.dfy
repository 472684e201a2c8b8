/**
  Fragments of several groups through the engine itself, however they are cut
  into datagrams, and what a repeated datagram does to an incomplete group.
 */
module GroupEngineProofs {
  import opened Basics
  import opened Datagrams
  import opened Splitting
  import opened Reassembly
  import opened ReceiveWindow
  import opened EngineState
  import opened GroupProofs

  // ---------- However the frames are cut into datagrams ----------

  lemma {:induction false} AcceptConcat(i: Inbox, a: seq<Frame>, b: seq<Frame>)
    requires AcceptFrames(i, a).failed.None?
    ensures AcceptFrames(i, a + b) == AcceptFrames(AcceptFrames(i, a), b)
  {
    if b == [] {
      assert a + b == a;
    } else {
      hide AcceptFrame;
      AcceptConcat(i, a, b[..|b| - 1]);
      assert (a + b)[..|a + b| - 1] == a + b[..|b| - 1];
    }
  }

  /** What is handed over does not depend on what was handed over before. */
  lemma {:induction false} AcceptShift(i: Inbox, frames: seq<Frame>, before: seq<Frame>)
    ensures AcceptFrames(i.(delivered := before + i.delivered), frames)
         == var after := AcceptFrames(i, frames); after.(delivered := before + after.delivered)
  {
    if frames != [] {
      AcceptShift(i, frames[..|frames| - 1], before);
      hide AddPart;
      var after := AcceptFrames(i, frames[..|frames| - 1]);
      RouteShift(after, frames[|frames| - 1], before);
    }
  }

  lemma RouteShift(i: Inbox, f: Frame, before: seq<Frame>)
    ensures AcceptFrame(i.(delivered := before + i.delivered), f)
         == var after := AcceptFrame(i, f); after.(delivered := before + after.delivered)
  {
    hide AddPart;
  }

  /** What a call hands over. */
  function Handed(result: Result<seq<Frame>>): seq<Frame> {
    if result.Ok? then result.value else []
  }

  ghost function ReceiveAll(e: Engine, datagrams: seq<Datagram>, now: nat): (Engine, seq<Frame>) {
    if datagrams == [] then (e, [])
    else
      var (before, frames) := ReceiveAll(e, datagrams[..|datagrams| - 1], now);
      var (after, result) := OnDatagram(before, datagrams[|datagrams| - 1], now);
      (after, frames + Handed(result))
  }

  function Flat(datagrams: seq<Datagram>): seq<Frame> {
    if datagrams == [] then [] else Flat(datagrams[..|datagrams| - 1]) + datagrams[|datagrams| - 1].frames
  }

  lemma {:induction false} ReceiveAllFlat(e: Engine, datagrams: seq<Datagram>, now: nat)
    requires AcceptFrames(Inbox(e.reassemblers, e.orderQueue, [], None), Flat(datagrams)).failed.None?
    ensures var (after, frames) := ReceiveAll(e, datagrams, now);
            AcceptFrames(Inbox(e.reassemblers, e.orderQueue, [], None), Flat(datagrams))
            == Inbox(after.reassemblers, after.orderQueue, frames, None)
  {
    if datagrams != [] {
      hide AcceptFrame, Record;
      var n, start := |datagrams| - 1, Inbox(e.reassemblers, e.orderQueue, [], None);
      var front, last := Flat(datagrams[..n]), datagrams[n];
      assert Flat(datagrams)[..|front|] == front;
      if AcceptFrames(start, front).failed.Some? { FailureStays(start, Flat(datagrams), |front|); }
      ReceiveAllFlat(e, datagrams[..n], now);
      AcceptConcat(start, front, last.frames);
      var middle := AcceptFrames(start, front);
      AcceptShift(middle.(delivered := []), last.frames, middle.delivered);
      assert middle.delivered + [] == middle.delivered;
    }
  }

  /** Whether every datagram's call succeeds. */
  ghost predicate AllAccepted(e: Engine, datagrams: seq<Datagram>, now: nat) {
    datagrams != [] ==>
      var n := |datagrams| - 1;
      AllAccepted(e, datagrams[..n], now) && OnDatagram(ReceiveAll(e, datagrams[..n], now).0, datagrams[n], now).1.Ok?
  }

  lemma {:induction false} AcceptedTogether(e: Engine, datagrams: seq<Datagram>, now: nat)
    ensures AllAccepted(e, datagrams, now) <==>
              AcceptFrames(Inbox(e.reassemblers, e.orderQueue, [], None), Flat(datagrams)).failed.None?
  {
    if datagrams != [] {
      hide AcceptFrame, Record;
      var n, start := |datagrams| - 1, Inbox(e.reassemblers, e.orderQueue, [], None);
      var front, last := Flat(datagrams[..n]), datagrams[n];
      AcceptedTogether(e, datagrams[..n], now);
      assert Flat(datagrams)[..|front|] == front;
      if AcceptFrames(start, front).failed.Some? {
        FailureStays(start, Flat(datagrams), |front|);
      } else {
        ReceiveAllFlat(e, datagrams[..n], now);
        AcceptConcat(start, front, last.frames);
        var middle := AcceptFrames(start, front);
        AcceptShift(middle.(delivered := []), last.frames, middle.delivered);
        assert middle.delivered + [] == middle.delivered;
      }
    }
  }

  /**
    Fragments of several groups, cut into datagrams in any way, through the engine itself: every call
    succeeds if and only if no fragment comes again while its group is incomplete. Then all the calls
    together hand over the completed unordered frames and queue the completed ordered ones, and what
    is held of incomplete groups is all that stays buffered.
   */
  lemma EngineReassembles(e: Engine, groups: map<int, Group>, arrivals: seq<(int, int)>, datagrams: seq<Datagram>, now: nat)
    requires Grouped(groups) && InGroups(groups, arrivals) && e.reassemblers == map[]
    requires Flat(datagrams) == FragmentsOf(groups, arrivals)
    ensures AllAccepted(e, datagrams, now) <==> NoRepeats(groups, arrivals)
    ensures NoRepeats(groups, arrivals) ==>
              var (after, frames) := ReceiveAll(e, datagrams, now);
              && Stands(Inbox(after.reassemblers, after.orderQueue, frames, None), groups, arrivals,
                        Inbox(map[], e.orderQueue, [], None))
              && ((forall id :: id in groups ==> Held(groups, arrivals, id) == {}) ==> after.reassemblers == map[])
  {
    hide *;
    GroupsDoNotInterfere(groups, arrivals, Inbox(map[], e.orderQueue, [], None));
    AcceptedTogether(e, datagrams, now);
    if NoRepeats(groups, arrivals) {
      ReceiveAllFlat(e, datagrams, now);
      NothingLeft(ReceiveAll(e, datagrams, now).0.reassemblers, groups, arrivals);
      StandsBuffers(AcceptFrames(Inbox(map[], e.orderQueue, [], None), FragmentsOf(groups, arrivals)), groups, arrivals,
                    Inbox(map[], e.orderQueue, [], None));
    }
  }

  lemma StandsBuffers(i: Inbox, groups: map<int, Group>, arrivals: seq<(int, int)>, start: Inbox)
    requires Grouped(groups) && InGroups(groups, arrivals) && Stands(i, groups, arrivals, start)
    ensures Buffered(i.reassemblers, groups, arrivals)
  {
  }

  lemma NothingLeft(reassemblers: map<int, (Parts, Frame)>, groups: map<int, Group>, arrivals: seq<(int, int)>)
    requires Grouped(groups) && InGroups(groups, arrivals)
    ensures Buffered(reassemblers, groups, arrivals) && (forall id :: id in groups ==> Held(groups, arrivals, id) == {}) ==>
              reassemblers == map[]
  {
    hide Held, PieceCount;
    if Buffered(reassemblers, groups, arrivals) && (forall id :: id in groups ==> Held(groups, arrivals, id) == {}) {
      forall id
        ensures id !in reassemblers
      {
        if id in groups { assert Holds(reassemblers, groups[id], Held(groups, arrivals, id)); }
      }
      assert reassemblers.Keys == {};
    }
  }

  // ---------- One fragment in each datagram ----------

  /** Each datagram carries the fragment that arrives in its turn. */
  ghost predicate Carry(datagrams: seq<Datagram>, groups: map<int, Group>, arrivals: seq<(int, int)>)
    requires InGroups(groups, arrivals)
  {
    && |datagrams| == |arrivals|
    && forall j :: 0 <= j < |datagrams| ==> datagrams[j].frames == [groups[arrivals[j].0].At(arrivals[j].1)]
  }

  /**
    The engine also goes on after a failed call. With a fragment to a datagram and any repetitions, a
    call fails exactly when it repeats a fragment held at the time, and everything stands as it should
    after every call.
   */
  lemma {:induction false} EachInTurn(
    e: Engine, groups: map<int, Group>, arrivals: seq<(int, int)>, datagrams: seq<Datagram>, now: nat)
    requires Grouped(groups) && InGroups(groups, arrivals) && Carry(datagrams, groups, arrivals) && e.reassemblers == map[]
    ensures var (after, frames) := ReceiveAll(e, datagrams, now);
            Stands(Inbox(after.reassemblers, after.orderQueue, frames, None), groups, arrivals, Inbox(map[], e.orderQueue, [], None))
    ensures datagrams != [] ==>
              var n := |datagrams| - 1;
              OnDatagram(ReceiveAll(e, datagrams[..n], now).0, datagrams[n], now).1.Err? <==> Repeats(groups, arrivals)
  {
    var start := Inbox(map[], e.orderQueue, [], None);
    if datagrams == [] {
      hide Stands, Grouped, InGroups;
      StandsAtFirst(groups, start);
    } else {
      var n := |datagrams| - 1;
      var front := arrivals[..n];
      FrontCarried(datagrams, groups, arrivals);
      EachInTurn(e, groups, front, datagrams[..n], now);
      var (before, frames) := ReceiveAll(e, datagrams[..n], now);
      var i, f := Inbox(before.reassemblers, before.orderQueue, frames, None), groups[arrivals[n].0].At(arrivals[n].1);
      hide Stands, Grouped, InGroups, Repeats, AcceptFrame, Carry, FragmentsOf;
      StandsStep(i, groups, arrivals, start);
      OneFragment(before, datagrams[n], f, frames, now);
    }
  }

  lemma FrontCarried(datagrams: seq<Datagram>, groups: map<int, Group>, arrivals: seq<(int, int)>)
    requires arrivals != [] && Grouped(groups) && InGroups(groups, arrivals) && Carry(datagrams, groups, arrivals)
    ensures var n := |arrivals| - 1;
            && datagrams != [] && InGroups(groups, arrivals[..n]) && Carry(datagrams[..n], groups, arrivals[..n])
            && arrivals[n].0 in groups && groups[arrivals[n].0].Splits() && 0 <= arrivals[n].1 < groups[arrivals[n].0].Count()
            && datagrams[n].frames == [groups[arrivals[n].0].At(arrivals[n].1)]
  {
    hide PieceCount, Fragment;
  }

  /** A datagram of one frame, received by an engine that has handed over `frames` before. */
  lemma OneFragment(e: Engine, d: Datagram, f: Frame, frames: seq<Frame>, now: nat)
    requires d.frames == [f]
    ensures var next := AcceptFrame(Inbox(e.reassemblers, e.orderQueue, frames, None), f);
            var (after, result) := OnDatagram(e, d, now);
            && (result.Err? <==> next.failed.Some?)
            && after.reassemblers == next.reassemblers && after.orderQueue == next.queue
            && (next.failed.Some? ==> next.delivered == frames)
            && (result.Ok? ==> next.delivered == frames + result.value)
  {
    var i := Inbox(e.reassemblers, e.orderQueue, [], None);
    AcceptLast(i, [], f);
    assert [] + [f] == [f] && frames + [] == frames;
    RouteShift(i, f, frames);
    FailureDelivers(Inbox(e.reassemblers, e.orderQueue, frames, None), f);
    hide AcceptFrame, Record;
  }

  lemma FailureDelivers(i: Inbox, f: Frame)
    requires i.failed.None?
    ensures AcceptFrame(i, f).failed.Some? ==> AcceptFrame(i, f).delivered == i.delivered
  {
    hide AddPart;
  }

  /**
    A witness: the datagram with the first of two fragments arrives twice, then the one with the
    second. The second call fails, nothing is ever handed over or queued, and the last fragment stays
    buffered. Without the repetition the frame would have been received.
   */
  lemma DuplicateLosesGroup(g: Group, d0: Datagram, d1: Datagram, now: nat)
    requires g.Splits() && g.Count() == 2 && d0.frames == [g.At(0)] && d1.frames == [g.At(1)]
    ensures OnDatagram(OnDatagram(NewEngine(now), d0, now).0, d0, now).1.Err?
    ensures var (after, frames) := ReceiveAll(NewEngine(now), [d0, d0, d1], now);
            frames == [] && after.orderQueue == map[] && Holds(after.reassemblers, g, {1})
    ensures var (after, frames) := ReceiveAll(NewEngine(now), [d0, d1], now);
            after.reassemblers == map[] && Inbox(map[], after.orderQueue, frames, None) == Route(Inbox(map[], map[], [], None), g.frame)
  {
    hide *;
    var e := NewEngine(now);
    NothingYet(g, now);
    FragmentNext(e, g, {}, 0, d0, now);
    var e1 := OnDatagram(e, d0, now).0;
    assert {} + {0} == {0} && {} + {1} == {1};
    FragmentNext(e1, g, {0}, 0, d0, now);
    FragmentNext(e1, g, {0}, 1, d1, now);
    FragmentNext(OnDatagram(e1, d0, now).0, g, {}, 1, d1, now);
    ReceiveInTurn(e, d0, d0, d1, now);
    NoneLeft(OnDatagram(e1, d1, now).0.reassemblers, g);
  }

  lemma NothingYet(g: Group, now: nat)
    requires g.Splits()
    ensures var e := NewEngine(now); e.reassemblers == map[] && e.orderQueue == map[] && Holds(e.reassemblers, g, {})
  {
    GroupCount(g);
  }

  lemma NoneLeft(reassemblers: map<int, (Parts, Frame)>, g: Group)
    requires g.Splits() && reassemblers.Keys <= {g.id as int} && Holds(reassemblers, g, {})
    ensures reassemblers == map[]
  {
    assert reassemblers.Keys == {};
  }

  /** A fragment alone in its datagram, when no other group is about. */
  lemma FragmentNext(e: Engine, g: Group, before: set<int>, k: nat, d: Datagram, now: nat)
    requires g.Splits() && Holds(e.reassemblers, g, before) && e.reassemblers.Keys <= {g.id as int}
    requires k < g.Count() && d.frames == [g.At(k)]
    ensures var (after, result) := OnDatagram(e, d, now);
            var full := |before| + 1 == g.Count();
            && Holds(after.reassemblers, g, if k in before || full then {} else before + {k})
            && after.reassemblers.Keys <= {g.id as int}
            && (result.Err? <==> k in before)
            && if k !in before && full then
                 Inbox(map[], after.orderQueue, Handed(result), None) == Route(Inbox(map[], e.orderQueue, [], None), g.frame)
               else after.orderQueue == e.orderQueue && Handed(result) == []
  {
    hide *;
    var i := Inbox(e.reassemblers, e.orderQueue, [], None);
    OneFragment(e, d, g.At(k), [], now);
    AcceptNext(i, g, before, k);
    OneLeft(i, g, before, k);
    RouteApart(i, PutBack(i.reassemblers, g, {}), g.frame);
    var result := OnDatagram(e, d, now).1;
    OnlyHanded(result);
    RouteApart(i, map[], g.frame);
  }

  lemma OnlyHanded(result: Result<seq<Frame>>)
    ensures Handed(result) == if result.Ok? then result.value else []
    ensures result.Ok? ==> [] + result.value == result.value
  {
  }

  lemma OneLeft(i: Inbox, g: Group, before: set<int>, k: nat)
    requires g.Splits() && Holds(i.reassemblers, g, before) && i.reassemblers.Keys <= {g.id as int} && k < g.Count()
    ensures Holds(PutBack(i.reassemblers, g, {}), g, {}) && PutBack(i.reassemblers, g, {}).Keys <= {g.id as int}
    ensures k !in before && |before| + 1 != g.Count() ==>
              && Holds(PutBack(i.reassemblers, g, before + {k}), g, before + {k})
              && PutBack(i.reassemblers, g, before + {k}).Keys <= {g.id as int}
  {
    hide PieceCount, Holding;
    GroupCount(g);
  }

  lemma ReceiveInTurn(e: Engine, a: Datagram, b: Datagram, c: Datagram, now: nat)
    ensures var (e1, first) := OnDatagram(e, a, now);
            var (e2, second) := OnDatagram(e1, b, now);
            var (e3, third) := OnDatagram(e2, c, now);
            && ReceiveAll(e, [a, b, c], now) == (e3, Handed(first) + Handed(second) + Handed(third))
            && ReceiveAll(e, [a, c], now) == (OnDatagram(e1, c, now).0, Handed(first) + Handed(OnDatagram(e1, c, now).1))
  {
    hide OnDatagram;
    assert [a, b, c][..2] == [a, b] && [a, b][..1] == [a] && [a][..0] == [] && [a, c][..1] == [a];
    assert ReceiveAll(e, [], now) == (e, []);
    assert [] + Handed(OnDatagram(e, a, now).1) == Handed(OnDatagram(e, a, now).1);
    assert ReceiveAll(e, [a], now) == (OnDatagram(e, a, now).0, Handed(OnDatagram(e, a, now).1));
  }
}
