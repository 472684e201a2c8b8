/**
  Fragments arriving at an engine, in any order and with any repetitions: groups
  are told apart by their ids, and a fragment that comes again while its group is
  incomplete destroys the group.
 */
module GroupProofs {
  import opened Ascending
  import opened Basics
  import opened Datagrams
  import opened Splitting
  import opened Reassembly
  import opened EngineState

  /** The receive side holds exactly the fragments `seen` of `g`, which are not all of them. */
  ghost predicate Holds(reassemblers: map<int, (Parts, Frame)>, g: Group, seen: set<int>)
    requires g.Splits()
  {
    && (forall k :: k in seen ==> 0 <= k < g.Count()) && |seen| < g.Count()
    && if seen == {} then g.id !in reassemblers
       else g.id in reassemblers && reassemblers[g.id] == (Holding(g, seen), g.frame.Template())
  }

  /** The next fragment of a group: buffered under its id, or completing the frame that was sent. */
  lemma AcceptFragment(i: Inbox, g: Group, seen: set<int>, k: nat)
    requires g.Splits() && Holds(i.reassemblers, g, seen) && k < g.Count() && k !in seen
    ensures AcceptFrame(i, g.At(k)) ==
              if |seen| + 1 == g.Count() then Route(i.(reassemblers := i.reassemblers - {g.id}), g.frame)
              else i.(reassemblers := i.reassemblers[g.id := (Holding(g, seen + {k}), g.frame.Template())])
  {
    hide PieceCount, Fragment, AddPart, Route;
    var f := g.At(k);
    AddFragment(g, seen, k);
    EmptyHolding(g);
    var entry := if g.id in i.reassemblers then i.reassemblers[g.id] else (NO_PARTS, f.Template());
    assert entry == (Holding(g, seen), g.frame.Template());
    WholeAgain(g);
  }

  lemma EmptyHolding(g: Group)
    requires g.Splits()
    ensures Holding(g, {}) == NO_PARTS
  {
  }

  lemma WholeAgain(g: Group)
    requires g.Splits()
    ensures g.frame.Template().WithBody(g.frame.body) == g.frame
  {
  }

  /**
    A fragment that comes again while its group is incomplete: the call fails, and everything that
    was held of the group is gone.
   */
  lemma AcceptRepeat(i: Inbox, g: Group, seen: set<int>, k: nat)
    requires g.Splits() && Holds(i.reassemblers, g, seen) && k in seen
    ensures AcceptFrame(i, g.At(k)) == i.(reassemblers := i.reassemblers - {g.id}, failed := Some(DuplicateFragment))
  {
    hide PieceCount, Fragment, Route;
    GroupCount(g);
    assert k in Holding(g, seen).fragments;
  }

  // ---------- Any arrivals of several groups' fragments ----------

  /** Groups under their own ids. */
  ghost predicate Grouped(groups: map<int, Group>) {
    forall id :: id in groups ==> groups[id].id == id && groups[id].Splits()
  }

  /** Arrivals of fragments, as pairs of a group's id and a fragment's number. */
  ghost predicate InGroups(groups: map<int, Group>, arrivals: seq<(int, int)>) {
    && (forall j :: 0 <= j < |arrivals| ==> arrivals[j].0 in groups)
    && forall j :: 0 <= j < |arrivals| ==> groups[arrivals[j].0].Splits() && 0 <= arrivals[j].1 < groups[arrivals[j].0].Count()
  }

  function FragmentsOf(groups: map<int, Group>, arrivals: seq<(int, int)>): seq<Frame>
    requires InGroups(groups, arrivals)
  {
    seq(|arrivals|, j requires 0 <= j < |arrivals| => groups[arrivals[j].0].At(arrivals[j].1))
  }

  /**
    The fragments of a group that are held after some arrivals: collected until the group is complete,
    and dropped when one of them comes again before that. Afterwards collecting starts anew.
   */
  ghost function Held(groups: map<int, Group>, arrivals: seq<(int, int)>, id: int): (held: set<int>)
    requires Grouped(groups) && InGroups(groups, arrivals) && id in groups
    ensures (forall k :: k in held ==> 0 <= k < groups[id].Count()) && |held| < groups[id].Count()
  {
    if arrivals == [] then NoneHeld(groups[id])
    else
      var n := |arrivals| - 1;
      var before, k := Held(groups, arrivals[..n], id), arrivals[n].1;
      if arrivals[n].0 != id then before
      else if k in before || |before| + 1 == groups[id].Count() then NoneHeld(groups[id])
      else before + {k}
  }

  ghost function NoneHeld(g: Group): (held: set<int>)
    requires g.Splits()
    ensures held == {} && |held| < g.Count()
  {
    GroupCount(g);
    {}
  }

  /** Whether the last arrival is of a fragment that is held already. */
  ghost predicate Repeats(groups: map<int, Group>, arrivals: seq<(int, int)>)
    requires Grouped(groups) && InGroups(groups, arrivals) && arrivals != []
  {
    var n := |arrivals| - 1;
    arrivals[n].1 in Held(groups, arrivals[..n], arrivals[n].0)
  }

  /** No fragment comes again while its group is incomplete. */
  ghost predicate NoRepeats(groups: map<int, Group>, arrivals: seq<(int, int)>)
    requires Grouped(groups) && InGroups(groups, arrivals)
  {
    arrivals != [] ==> NoRepeats(groups, arrivals[..|arrivals| - 1]) && !Repeats(groups, arrivals)
  }

  /** The groups whose last missing fragment has arrived, in the order in which that happened. */
  ghost function Completed(groups: map<int, Group>, arrivals: seq<(int, int)>): (ids: seq<int>)
    requires Grouped(groups) && InGroups(groups, arrivals)
    ensures forall j :: 0 <= j < |ids| ==> ids[j] in groups
  {
    if arrivals == [] then []
    else
      var n := |arrivals| - 1;
      var front, id := arrivals[..n], arrivals[n].0;
      Completed(groups, front)
      + if !Repeats(groups, arrivals) && |Held(groups, front, id)| + 1 == groups[id].Count() then [id] else []
  }

  /** Routes the frames of the given groups one after another. */
  ghost function RouteGroups(i: Inbox, groups: map<int, Group>, ids: seq<int>): Inbox
    requires forall j :: 0 <= j < |ids| ==> ids[j] in groups
  {
    if ids == [] then i
    else Route(RouteGroups(i, groups, ids[..|ids| - 1]), groups[ids[|ids| - 1]].frame)
  }

  /**
    The receive side after some arrivals: each group's held fragments are buffered under its id and
    nothing else is, and the completed groups have been routed in the order of completion.
   */
  ghost predicate Stands(i: Inbox, groups: map<int, Group>, arrivals: seq<(int, int)>, start: Inbox)
    requires Grouped(groups) && InGroups(groups, arrivals)
  {
    && i.failed.None?
    && Buffered(i.reassemblers, groups, arrivals)
    && i.(reassemblers := map[]) == RouteGroups(start, groups, Completed(groups, arrivals))
  }

  ghost predicate Buffered(reassemblers: map<int, (Parts, Frame)>, groups: map<int, Group>, arrivals: seq<(int, int)>)
    requires Grouped(groups) && InGroups(groups, arrivals)
  {
    && (forall id :: id in reassemblers ==> id in groups)
    && forall id :: id in groups ==> Holds(reassemblers, groups[id], Held(groups, arrivals, id))
  }

  /** Where a group's fragments are after the next one. */
  ghost function PutBack(reassemblers: map<int, (Parts, Frame)>, g: Group, held: set<int>): map<int, (Parts, Frame)>
    requires g.Splits() && forall k :: k in held ==> 0 <= k < g.Count()
  {
    if held == {} then reassemblers - {g.id} else reassemblers[g.id := (Holding(g, held), g.frame.Template())]
  }

  lemma BufferedStep(before: map<int, (Parts, Frame)>, groups: map<int, Group>, arrivals: seq<(int, int)>)
    requires arrivals != [] && Grouped(groups) && InGroups(groups, arrivals) && InGroups(groups, arrivals[..|arrivals| - 1])
    requires Buffered(before, groups, arrivals[..|arrivals| - 1])
    ensures var id := arrivals[|arrivals| - 1].0;
            Buffered(PutBack(before, groups[id], Held(groups, arrivals, id)), groups, arrivals)
  {
    var id := arrivals[|arrivals| - 1].0;
    PutBackKeys(before, groups[id], Held(groups, arrivals, id));
    forall other | other in groups
      ensures Holds(PutBack(before, groups[id], Held(groups, arrivals, id)), groups[other], Held(groups, arrivals, other))
    {
      BufferedAt(before, groups, arrivals, other);
    }
    hide PutBack, Held, Holds, Holding;
  }

  lemma PutBackKeys(reassemblers: map<int, (Parts, Frame)>, g: Group, held: set<int>)
    requires g.Splits() && forall k :: k in held ==> 0 <= k < g.Count()
    ensures forall id :: id in PutBack(reassemblers, g, held) ==> id in reassemblers || id == g.id
  {
    hide Holding, PieceCount;
  }

  lemma BufferedAt(before: map<int, (Parts, Frame)>, groups: map<int, Group>, arrivals: seq<(int, int)>, other: int)
    requires arrivals != [] && Grouped(groups) && InGroups(groups, arrivals) && InGroups(groups, arrivals[..|arrivals| - 1])
    requires Buffered(before, groups, arrivals[..|arrivals| - 1]) && other in groups
    ensures var id := arrivals[|arrivals| - 1].0;
            Holds(PutBack(before, groups[id], Held(groups, arrivals, id)), groups[other], Held(groups, arrivals, other))
  {
    hide PieceCount, Fragment, Holds, Holding, Held, PutBack;
    var front, id := arrivals[..|arrivals| - 1], arrivals[|arrivals| - 1].0;
    if other == id {
      PutBackHolds(before, groups[id], Held(groups, arrivals, id));
    } else {
      HeldElsewhere(groups, arrivals, other);
      PutBackElsewhere(before, groups[id], Held(groups, arrivals, id), groups[other], Held(groups, front, other));
    }
  }

  lemma PutBackHolds(before: map<int, (Parts, Frame)>, g: Group, held: set<int>)
    requires g.Splits() && (forall k :: k in held ==> 0 <= k < g.Count()) && |held| < g.Count()
    ensures Holds(PutBack(before, g, held), g, held)
  {
    hide Holding, PieceCount;
  }

  lemma PutBackElsewhere(before: map<int, (Parts, Frame)>, g: Group, held: set<int>, other: Group, seen: set<int>)
    requires g.Splits() && (forall k :: k in held ==> 0 <= k < g.Count()) && other.Splits() && other.id != g.id
    requires Holds(before, other, seen)
    ensures Holds(PutBack(before, g, held), other, seen)
  {
    hide Holding, PieceCount;
  }

  lemma HeldElsewhere(groups: map<int, Group>, arrivals: seq<(int, int)>, id: int)
    requires arrivals != [] && Grouped(groups) && InGroups(groups, arrivals) && InGroups(groups, arrivals[..|arrivals| - 1])
    requires id in groups && arrivals[|arrivals| - 1].0 != id
    ensures Held(groups, arrivals, id) == Held(groups, arrivals[..|arrivals| - 1], id)
  {
    hide PieceCount;
  }

  /** Routing does not look at the reassemblers. */
  lemma RouteApart(i: Inbox, reassemblers: map<int, (Parts, Frame)>, f: Frame)
    ensures Route(i.(reassemblers := reassemblers), f) == Route(i, f).(reassemblers := reassemblers)
    ensures Route(i.(reassemblers := map[]), f) == Route(i, f).(reassemblers := map[])
    ensures Route(i, f).failed == i.failed
  {
  }

  /** What the next arrival does to the bookkeeping. */
  lemma HeldStep(groups: map<int, Group>, arrivals: seq<(int, int)>)
    requires arrivals != [] && Grouped(groups) && InGroups(groups, arrivals)
    ensures var n := |arrivals| - 1;
            var front, id, k := arrivals[..n], arrivals[n].0, arrivals[n].1;
            && InGroups(groups, front) && id in groups && groups[id].id == id
            && groups[id].Splits() && 0 <= k < groups[id].Count()
            && var g, before := groups[id], Held(groups, front, id);
               var full := |before| + 1 == g.Count();
               && (Repeats(groups, arrivals) <==> k in before)
               && Held(groups, arrivals, id) == (if k in before || full then {} else before + {k})
               && Completed(groups, arrivals) == Completed(groups, front) + (if k !in before && full then [id] else [])
               && FragmentsOf(groups, arrivals) == FragmentsOf(groups, front) + [g.At(k)]
  {
    LastInGroups(groups, arrivals);
    LastHeld(groups, arrivals);
    LastCompleted(groups, arrivals);
    LastFragment(groups, arrivals);
    hide *;
  }

  lemma LastInGroups(groups: map<int, Group>, arrivals: seq<(int, int)>)
    requires arrivals != [] && Grouped(groups) && InGroups(groups, arrivals)
    ensures var n := |arrivals| - 1;
            var id, k := arrivals[n].0, arrivals[n].1;
            && InGroups(groups, arrivals[..n]) && id in groups && groups[id].id == id
            && groups[id].Splits() && 0 <= k < groups[id].Count()
  {
    hide Group.Splits, Group.Count;
  }

  lemma LastHeld(groups: map<int, Group>, arrivals: seq<(int, int)>)
    requires arrivals != [] && Grouped(groups) && InGroups(groups, arrivals) && InGroups(groups, arrivals[..|arrivals| - 1])
    ensures var n := |arrivals| - 1;
            var id, k := arrivals[n].0, arrivals[n].1;
            var before := Held(groups, arrivals[..n], id);
            && (Repeats(groups, arrivals) <==> k in before)
            && Held(groups, arrivals, id) == if k in before || |before| + 1 == groups[id].Count() then {} else before + {k}
  {
    hide Group.Splits, Group.Count, InGroups, Grouped;
  }

  lemma LastCompleted(groups: map<int, Group>, arrivals: seq<(int, int)>)
    requires arrivals != [] && Grouped(groups) && InGroups(groups, arrivals) && InGroups(groups, arrivals[..|arrivals| - 1])
    ensures var n := |arrivals| - 1;
            var id, k := arrivals[n].0, arrivals[n].1;
            var before := Held(groups, arrivals[..n], id);
            Completed(groups, arrivals) == Completed(groups, arrivals[..n])
              + (if k !in before && |before| + 1 == groups[id].Count() then [id] else [])
  {
    hide Group.Splits, Group.Count, InGroups, Grouped, Held;
  }

  lemma LastFragment(groups: map<int, Group>, arrivals: seq<(int, int)>)
    requires arrivals != [] && InGroups(groups, arrivals) && InGroups(groups, arrivals[..|arrivals| - 1])
    ensures var n := |arrivals| - 1;
            FragmentsOf(groups, arrivals) == FragmentsOf(groups, arrivals[..n]) + [groups[arrivals[n].0].At(arrivals[n].1)]
  {
    hide PieceCount, Fragment;
  }

  lemma RouteLast(start: Inbox, groups: map<int, Group>, ids: seq<int>, id: int)
    requires id in groups && forall j :: 0 <= j < |ids| ==> ids[j] in groups
    ensures RouteGroups(start, groups, ids + [id]) == Route(RouteGroups(start, groups, ids), groups[id].frame)
  {
    assert (ids + [id])[..|ids|] == ids;
  }

  /**
    One more arrival: it fails exactly when it repeats a held fragment, and apart from the failure
    everything stands where it should afterwards.
   */
  lemma StandsStep(i: Inbox, groups: map<int, Group>, arrivals: seq<(int, int)>, start: Inbox)
    requires arrivals != [] && Grouped(groups) && InGroups(groups, arrivals) && InGroups(groups, arrivals[..|arrivals| - 1])
    requires Stands(i, groups, arrivals[..|arrivals| - 1], start)
    requires arrivals[|arrivals| - 1].1 >= 0
    ensures var (id, k) := arrivals[|arrivals| - 1];
            var next := AcceptFrame(i, groups[id].At(k));
            && next.failed == (if Repeats(groups, arrivals) then Some(DuplicateFragment) else None)
            && Stands(next.(failed := None), groups, arrivals, start)
  {
    hide *;
    HeldStep(groups, arrivals);
    var n := |arrivals| - 1;
    var front, id, k := arrivals[..n], arrivals[n].0, arrivals[n].1;
    var g, before := groups[id], Held(groups, front, id);
    StandsMeans(i, groups, front, start, id);
    AcceptNext(i, g, before, k);
    BufferedStep(i.reassemblers, groups, arrivals);
    RouteApart(i, PutBack(i.reassemblers, g, {}), g.frame);
    RouteLast(start, groups, Completed(groups, front), id);
    assert Completed(groups, front) + [] == Completed(groups, front);
    StandsIf(AcceptFrame(i, g.At(k)).(failed := None), groups, arrivals, start);
  }

  /** The next fragment of a group, in terms of what is held afterwards. */
  lemma AcceptNext(i: Inbox, g: Group, before: set<int>, k: nat)
    requires g.Splits() && Holds(i.reassemblers, g, before) && k < g.Count()
    ensures AcceptFrame(i, g.At(k)) ==
              if k in before then i.(reassemblers := PutBack(i.reassemblers, g, {}), failed := Some(DuplicateFragment))
              else if |before| + 1 == g.Count() then Route(i.(reassemblers := PutBack(i.reassemblers, g, {})), g.frame)
              else i.(reassemblers := PutBack(i.reassemblers, g, before + {k}))
  {
    hide PieceCount, Fragment, AcceptFrame, Holding, Route;
    if k in before {
      AcceptRepeat(i, g, before, k);
    } else {
      AcceptFragment(i, g, before, k);
      assert k in before + {k};
    }
  }

  lemma StandsMeans(i: Inbox, groups: map<int, Group>, arrivals: seq<(int, int)>, start: Inbox, id: int)
    requires Grouped(groups) && InGroups(groups, arrivals) && Stands(i, groups, arrivals, start) && id in groups
    ensures i.failed.None? && Buffered(i.reassemblers, groups, arrivals)
    ensures Holds(i.reassemblers, groups[id], Held(groups, arrivals, id))
    ensures i.(reassemblers := map[]) == RouteGroups(start, groups, Completed(groups, arrivals))
  {
    hide Holds, Held, Completed, RouteGroups;
  }

  lemma StandsIf(i: Inbox, groups: map<int, Group>, arrivals: seq<(int, int)>, start: Inbox)
    requires Grouped(groups) && InGroups(groups, arrivals) && i.failed.None? && Buffered(i.reassemblers, groups, arrivals)
    requires i.(reassemblers := map[]) == RouteGroups(start, groups, Completed(groups, arrivals))
    ensures Stands(i, groups, arrivals, start)
  {
  }

  /**
    For any groups with distinct ids and any arrivals of their fragments, in any interleaving and with
    any repetitions: they are all accepted if and only if no fragment comes again while its group is
    incomplete. Then each group has been handed over as the frame that was split whenever its last
    missing fragment arrived, in that order, and what is held of each group is buffered by itself.
   */
  lemma {:induction false} GroupsDoNotInterfere(groups: map<int, Group>, arrivals: seq<(int, int)>, start: Inbox)
    requires Grouped(groups) && InGroups(groups, arrivals) && start.reassemblers == map[] && start.failed.None?
    ensures AcceptFrames(start, FragmentsOf(groups, arrivals)).failed.None? <==> NoRepeats(groups, arrivals)
    ensures NoRepeats(groups, arrivals) ==> Stands(AcceptFrames(start, FragmentsOf(groups, arrivals)), groups, arrivals, start)
  {
    hide *;
    if arrivals == [] {
      StandsAtFirst(groups, start);
    } else {
      var n, frames := |arrivals| - 1, FragmentsOf(groups, arrivals);
      HeldStep(groups, arrivals);
      GroupsDoNotInterfere(groups, arrivals[..n], start);
      RepeatsStep(groups, arrivals);
      AcceptLast(start, FragmentsOf(groups, arrivals[..n]), groups[arrivals[n].0].At(arrivals[n].1));
      if NoRepeats(groups, arrivals[..n]) {
        StandsStep(AcceptFrames(start, FragmentsOf(groups, arrivals[..n])), groups, arrivals, start);
      }
    }
  }

  lemma StandsAtFirst(groups: map<int, Group>, start: Inbox)
    requires Grouped(groups) && InGroups(groups, []) && start.reassemblers == map[] && start.failed.None?
    ensures NoRepeats(groups, []) && AcceptFrames(start, FragmentsOf(groups, [])) == start && Stands(start, groups, [], start)
  {
    hide PieceCount, Fragment;
  }

  lemma RepeatsStep(groups: map<int, Group>, arrivals: seq<(int, int)>)
    requires arrivals != [] && Grouped(groups) && InGroups(groups, arrivals) && InGroups(groups, arrivals[..|arrivals| - 1])
    ensures NoRepeats(groups, arrivals) <==> NoRepeats(groups, arrivals[..|arrivals| - 1]) && !Repeats(groups, arrivals)
  {
    hide Repeats;
  }

  lemma AcceptLast(i: Inbox, frames: seq<Frame>, f: Frame)
    ensures var before := AcceptFrames(i, frames);
            AcceptFrames(i, frames + [f]) == if before.failed.Some? then before else AcceptFrame(before, f)
  {
    hide AcceptFrame;
    assert (frames + [f])[..|frames|] == frames;
  }

  // ---------- Arrivals without repetitions ----------

  /** None repeated at all. */
  ghost predicate Fresh(groups: map<int, Group>, arrivals: seq<(int, int)>) {
    InGroups(groups, arrivals) && forall j, k :: 0 <= j < k < |arrivals| ==> arrivals[j] != arrivals[k]
  }

  ghost function Seen(arrivals: seq<(int, int)>, id: int): set<int> {
    set j | 0 <= j < |arrivals| && arrivals[j].0 == id :: arrivals[j].1
  }

  lemma SeenStep(groups: map<int, Group>, arrivals: seq<(int, int)>)
    requires arrivals != [] && Fresh(groups, arrivals)
    ensures var n := |arrivals| - 1;
            var front, id, k := arrivals[..n], arrivals[n].0, arrivals[n].1;
            && Fresh(groups, front) && k !in Seen(front, id)
            && forall other :: Seen(arrivals, other) == if other == id then Seen(front, id) + {k} else Seen(front, other)
  {
    hide PieceCount, Fragment;
    var n := |arrivals| - 1;
    var front, id, k := arrivals[..n], arrivals[n].0, arrivals[n].1;
    forall other, x
      ensures x in Seen(arrivals, other) <==> x in Seen(front, other) || (other == id && x == k)
    {
      if x in Seen(front, other) {
        var j :| 0 <= j < n && front[j].0 == other && front[j].1 == x;
        assert arrivals[j] == front[j];
      }
    }
  }

  /** A group's seen fragments are some of its own. */
  lemma SeenWithin(groups: map<int, Group>, arrivals: seq<(int, int)>, id: int)
    requires InGroups(groups, arrivals) && id in groups && groups[id].Splits()
    ensures forall k :: k in Seen(arrivals, id) ==> 0 <= k < groups[id].Count()
    ensures |Seen(arrivals, id)| <= groups[id].Count()
  {
    SubsetCount(Seen(arrivals, id), Below(groups[id].Count()));
  }

  /**
    Unrepeated fragments are all accepted. Each group is completed at most once, exactly when all its
    fragments have arrived, and until then all that have arrived are held.
   */
  lemma {:induction false} FreshCompletesOnce(groups: map<int, Group>, arrivals: seq<(int, int)>)
    requires Grouped(groups) && Fresh(groups, arrivals)
    ensures NoRepeats(groups, arrivals) && CompletesOnce(groups, arrivals)
  {
    hide *;
    if arrivals == [] {
      NothingSeen(groups);
    } else {
      SeenStep(groups, arrivals);
      FreshCompletesOnce(groups, arrivals[..|arrivals| - 1]);
      FreshStep(groups, arrivals);
      FreshMeans(groups, arrivals);
      FreshMeans(groups, arrivals[..|arrivals| - 1]);
      RepeatsStep(groups, arrivals);
    }
  }

  ghost predicate CompletesOnce(groups: map<int, Group>, arrivals: seq<(int, int)>)
    requires Grouped(groups) && InGroups(groups, arrivals)
  {
    && (forall id :: id in groups ==>
          var all := |Seen(arrivals, id)| == groups[id].Count();
          && Held(groups, arrivals, id) == (if all then {} else Seen(arrivals, id))
          && (id in Completed(groups, arrivals) <==> all))
    && Distinct(Completed(groups, arrivals))
  }

  predicate Distinct(ids: seq<int>) {
    forall j, k :: 0 <= j < k < |ids| ==> ids[j] != ids[k]
  }

  lemma FreshMeans(groups: map<int, Group>, arrivals: seq<(int, int)>)
    requires Fresh(groups, arrivals)
    ensures InGroups(groups, arrivals)
  {
  }

  lemma NothingSeen(groups: map<int, Group>)
    requires Grouped(groups) && Fresh(groups, [])
    ensures NoRepeats(groups, []) && CompletesOnce(groups, [])
  {
    hide PieceCount, Fragment;
    forall id | id in groups
      ensures Seen([], id) == {} && groups[id].Count() >= 2
    {
      GroupCount(groups[id]);
    }
  }

  lemma FreshStep(groups: map<int, Group>, arrivals: seq<(int, int)>)
    requires arrivals != [] && Grouped(groups) && Fresh(groups, arrivals) && Fresh(groups, arrivals[..|arrivals| - 1])
    requires CompletesOnce(groups, arrivals[..|arrivals| - 1])
    ensures CompletesOnce(groups, arrivals) && !Repeats(groups, arrivals)
  {
    var n := |arrivals| - 1;
    var front, id, k := arrivals[..n], arrivals[n].0, arrivals[n].1;
    HeldStep(groups, arrivals);
    SeenStep(groups, arrivals);
    SeenWithin(groups, arrivals, id);
    hide *;
    FreshMeans(groups, arrivals);
    var all := |Seen(arrivals, id)| == groups[id].Count();
    CompletesMeans(groups, front, id);
    forall other | other in groups
      ensures Held(groups, arrivals, other) == (if |Seen(arrivals, other)| == groups[other].Count() then {} else Seen(arrivals, other))
      ensures other in Completed(groups, arrivals) <==> |Seen(arrivals, other)| == groups[other].Count()
    {
      CompletesMeans(groups, front, other);
      InAppended(Completed(groups, front), id, other);
      if other != id { HeldElsewhere(groups, arrivals, other); }
    }
    if all { StillDistinct(Completed(groups, front), id); }
    CompletesIf(groups, arrivals);
  }

  lemma CompletesMeans(groups: map<int, Group>, arrivals: seq<(int, int)>, id: int)
    requires Grouped(groups) && InGroups(groups, arrivals) && CompletesOnce(groups, arrivals) && id in groups
    ensures var all := |Seen(arrivals, id)| == groups[id].Count();
            && Held(groups, arrivals, id) == (if all then {} else Seen(arrivals, id))
            && (id in Completed(groups, arrivals) <==> all)
    ensures Distinct(Completed(groups, arrivals))
  {
    hide Held, Seen, Completed;
  }

  lemma CompletesIf(groups: map<int, Group>, arrivals: seq<(int, int)>)
    requires Grouped(groups) && InGroups(groups, arrivals) && Distinct(Completed(groups, arrivals))
    requires forall id :: id in groups ==>
               var all := |Seen(arrivals, id)| == groups[id].Count();
               && Held(groups, arrivals, id) == (if all then {} else Seen(arrivals, id))
               && (id in Completed(groups, arrivals) <==> all)
    ensures CompletesOnce(groups, arrivals)
  {
    hide Held, Seen, Completed;
  }

  lemma InAppended(ids: seq<int>, id: int, x: int)
    ensures x in ids + [id] <==> x in ids || x == id
    ensures ids + [] == ids
  {
  }

  lemma StillDistinct(ids: seq<int>, id: int)
    requires Distinct(ids) && id !in ids
    ensures Distinct(ids + [id])
  {
  }

  /** A fragment that comes again after its group was complete is accepted, and is buffered as if of a new group. */
  lemma LateFragmentIsHeld(groups: map<int, Group>, arrivals: seq<(int, int)>, id: int, k: int)
    requires Grouped(groups) && Fresh(groups, arrivals) && id in groups && 0 <= k < groups[id].Count()
    requires |Seen(arrivals, id)| == groups[id].Count()
    ensures var all := arrivals + [(id, k)];
            InGroups(groups, all) && NoRepeats(groups, all) && Held(groups, all, id) == {k}
  {
    hide *;
    var all := arrivals + [(id, k)];
    FreshCompletesOnce(groups, arrivals);
    FreshMeans(groups, arrivals);
    OneMoreArrival(groups, arrivals, id, k);
    CompleteHoldsNone(groups, arrivals, id);
    HeldStep(groups, all);
    CountAtLeastTwo(groups, id);
    RepeatsStep(groups, all);
    assert {} + {k} == {k};
  }

  lemma OneMoreArrival(groups: map<int, Group>, arrivals: seq<(int, int)>, id: int, k: int)
    requires Grouped(groups) && InGroups(groups, arrivals) && id in groups && 0 <= k < groups[id].Count()
    ensures InGroups(groups, arrivals + [(id, k)]) && (arrivals + [(id, k)])[..|arrivals|] == arrivals
  {
    hide PieceCount;
  }

  lemma CompleteHoldsNone(groups: map<int, Group>, arrivals: seq<(int, int)>, id: int)
    requires Grouped(groups) && InGroups(groups, arrivals) && CompletesOnce(groups, arrivals)
    requires id in groups && |Seen(arrivals, id)| == groups[id].Count()
    ensures Held(groups, arrivals, id) == {}
  {
    hide Held, Seen, Completed;
  }

  lemma CountAtLeastTwo(groups: map<int, Group>, id: int)
    requires Grouped(groups) && id in groups
    ensures groups[id].Count() >= 2
  {
    GroupCount(groups[id]);
  }
}
