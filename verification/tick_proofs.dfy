/**
  Everything a tick puts on the wire: the pending acknowledgements, what is
  missing, and what is overdue.
 */
module TickProofs {
  import opened Basics
  import opened Datagrams
  import opened Ascending
  import opened ReceiveWindow
  import opened WindowProofs
  import opened Acks
  import opened EngineState
  import opened WalkProofs
  import opened RetransmissionProofs
  import opened AckProofs
  import opened AckLossProofs
  import opened Session

  // ---------- What a window lacks ----------

  /** A window that stands for a run in which exactly `missing` lie between the least missing and the greatest number seen. */
  ghost predicate Lacks(w: Window, missing: set<int>) {
    || (w == NEW_WINDOW && missing == {})
    || exists start, seen, low, high :: Tracks(w, start, seen, low, high) && missing == Unseen(seen, low, high)
  }

  ghost function Unseen(seen: set<int>, low: int, high: int): set<int> {
    set n | low <= n <= high && n !in seen
  }

  /** An acknowledgement of one kind whose records denote exactly the low 24 bits of some numbers. */
  ghost predicate Lists(a: Acknowledgement, numbers: set<int>) {
    forall s: u24 :: Denotes(a.ranges, s) <==> s in Residues(numbers)
  }

  lemma {:induction false} FirstsAreStarts(seen: set<int>, low: int, high: int, runs: seq<(int, int)>)
    requires MaximalGaps(seen, low, high, runs)
    ensures |runs| == |RunStarts(Unseen(seen, low, high))|
  {
    var firsts := seq(|runs|, i requires 0 <= i < |runs| => runs[i].0);
    forall x
      ensures x in firsts <==> x in RunStarts(Unseen(seen, low, high))
    {
      if x in firsts {
        var i :| 0 <= i < |firsts| && firsts[i] == x;
        assert low <= runs[i].0 <= runs[i].1 <= high && (runs[i].0 == low || runs[i].0 - 1 in seen);
        assert x in Unseen(seen, low, high) && !Follows(x, Unseen(seen, low, high));
      }
      if x in RunStarts(Unseen(seen, low, high)) {
        StartsARun(seen, low, high, runs, x);
        var i :| 0 <= i < |runs| && runs[i].0 == x;
        assert firsts[i] == x;
      }
    }
    forall i, j | 0 <= i < j < |firsts|
      ensures firsts[i] != firsts[j]
    {
      assert runs[i].1 + 1 < runs[j].0;
    }
    DistinctCount(firsts);
    hide RunStarts, Unseen, MaximalGaps;
    assert (set x | x in firsts) == RunStarts(Unseen(seen, low, high));
  }

  lemma StartsARun(seen: set<int>, low: int, high: int, runs: seq<(int, int)>, x: int)
    requires MaximalGaps(seen, low, high, runs) && x in RunStarts(Unseen(seen, low, high))
    ensures exists i :: 0 <= i < |runs| && runs[i].0 == x
  {
    assert low <= x <= high && x !in seen;
    var i :| 0 <= i < |runs| && runs[i].0 <= x <= runs[i].1;
    assert x - 1 !in Unseen(seen, low, high);
    assert runs[i].0 == x;
  }

  /** The records of a window's gaps denote exactly the missing numbers, with one for each run. */
  lemma MissingLists(w: Window, missing: set<int>)
    requires Lacks(w, missing)
    ensures |Missing(w)| == |RunStarts(missing)| && (missing == {} <==> Missing(w) == [])
    ensures Lists(Acknowledgement(false, Missing(w)), missing)
  {
    if w == NEW_WINDOW && missing == {} {
      assert Missing(w) == [] && RunStarts({}) == {};
    } else {
      var start, seen, low, high :| Tracks(w, start, seen, low, high) && missing == Unseen(seen, low, high);
      var runs := MissingDenotes(w, start, seen, low, high);
      FirstsAreStarts(seen, low, high, runs);
      Span(w, start, seen, low, high);
      hide Tracks, Missing, RunStarts, MaximalGaps;
      forall s: u24
        ensures Denotes(Missing(w), s) <==> s in Residues(missing)
      {
        GapsDenote(seen, low, high, runs, s);
      }
      NoneUnseen(seen, low, high);
    }
  }

  lemma Span(w: Window, start: int, seen: set<int>, low: int, high: int)
    requires Tracks(w, start, seen, low, high)
    ensures low <= high + 1 && high < low + 0x100_0000 && low !in seen
  {
  }

  lemma NoneUnseen(seen: set<int>, low: int, high: int)
    requires low <= high + 1 && low !in seen
    ensures Unseen(seen, low, high) == {} <==> low == high + 1
  {
    if low <= high { assert low in Unseen(seen, low, high); }
  }

  lemma GapsDenote(seen: set<int>, low: int, high: int, runs: seq<(int, int)>, s: u24)
    requires MaximalGaps(seen, low, high, runs) && high < low + 0x100_0000
    ensures Denotes(Records(runs), s) <==> s in Residues(Unseen(seen, low, high))
  {
    if Denotes(Records(runs), s) { DenotedUnseen(seen, low, high, runs, s); }
    if s in Residues(Unseen(seen, low, high)) { UnseenDenoted(seen, low, high, runs, s); }
  }

  lemma DenotedUnseen(seen: set<int>, low: int, high: int, runs: seq<(int, int)>, s: u24)
    requires MaximalGaps(seen, low, high, runs) && high < low + 0x100_0000 && Denotes(Records(runs), s)
    ensures s in Residues(Unseen(seen, low, high))
  {
    hide Wrap;
    var i :| 0 <= i < |runs| && Meant(Records(runs)[i], s);
    var n := RunMeans(runs[i].0, runs[i].1, s);
    assert n in Unseen(seen, low, high);
  }

  lemma UnseenDenoted(seen: set<int>, low: int, high: int, runs: seq<(int, int)>, s: u24)
    requires MaximalGaps(seen, low, high, runs) && high < low + 0x100_0000 && s in Residues(Unseen(seen, low, high))
    ensures Denotes(Records(runs), s)
  {
    hide Wrap;
    var n :| n in Unseen(seen, low, high) && Wrap(n) == s;
    var i :| 0 <= i < |runs| && runs[i].0 <= n <= runs[i].1;
    RunMeant(runs[i].0, runs[i].1, n);
    assert Meant(Records(runs)[i], s);
  }

  lemma RunMeans(a: int, b: int, s: u24) returns (n: int)
    requires a <= b < a + 0x100_0000 && Meant(RangeOrSingle(Wrap(a), Wrap(b)), s)
    ensures a <= n <= b && Wrap(n) == s
  {
    n := Unwrap(a, s);
    UnwrapResidue(a, s);
    WrapDifference(b, a);
    WrapDifference(n, a);
  }

  lemma RunMeant(a: int, b: int, n: int)
    requires a <= n <= b < a + 0x100_0000
    ensures Meant(RangeOrSingle(Wrap(a), Wrap(b)), Wrap(n))
  {
    WrapDifference(n, a);
    WrapDifference(b, a);
    WrapDifference(n, b);
  }

  // ---------- The three parts of a tick ----------

  /** Exactly one packet if there is anything to list and it can be encoded, and it lists just that. */
  ghost predicate OneListing(packets: seq<seq<byte>>, isAck: bool, numbers: set<int>) {
    && |packets| == (if 0 < |RunStarts(numbers)| <= 0xffff then 1 else 0)
    && (packets != [] ==>
          exists a :: Classify(packets[0]) == Ok(if isAck then IncomingAck(a) else IncomingNack(a)) && a.isAck == isAck && Lists(a, numbers))
  }

  lemma AckPart(e: Engine)
    ensures var (drained, ack) := EngineState.DrainAcks(e);
            drained == e.(pendingAcks := {}) && OneListing(Encoded(ack), true, e.pendingAcks)
  {
    if e.pendingAcks == {} {
      assert RunStarts({}) == {};
    } else {
      var a := PendingAck(e);
      assert EngineState.DrainAcks(e) == (e.(pendingAcks := {}), Some(a));
      PendingRecords(e);
      EncodedClassified(a);
      ListsPending(e, a);
      SomeStart(e.pendingAcks);
      hide Encoded, Classify, Lists, RunStarts, EngineState.DrainAcks;
    }
  }

  lemma SomeStart(numbers: set<int>)
    requires numbers != {}
    ensures |RunStarts(numbers)| > 0
  {
    LeastExists(numbers);
    var m :| IsLeast(m, numbers);
    assert m in RunStarts(numbers);
  }

  lemma ListsPending(e: Engine, a: Acknowledgement)
    requires Numbers(a) == e.pendingAcks
    ensures Lists(a, e.pendingAcks)
  {
    hide Denotes;
    forall s: u24
      ensures Denotes(a.ranges, s) <==> s in Residues(e.pendingAcks)
    {
      assert Denotes(a.ranges, s) <==> s in Numbers(a);
      if s in e.pendingAcks { assert Wrap(s) == s; }
      if s in Residues(e.pendingAcks) {
        var x :| x in e.pendingAcks && Wrap(x) == s;
        assert x == s;
      }
    }
  }

  lemma NackPart(e: Engine, missing: set<int>)
    requires Lacks(e.window, missing)
    ensures OneListing(Encoded(BuildNack(e)), false, missing)
  {
    MissingLists(e.window, missing);
    if missing != {} {
      SomeStart(missing);
      var a := Acknowledgement(false, Missing(e.window));
      assert BuildNack(e) == Some(a);
      EncodedClassified(a);
      hide Encoded, Classify, Lists, RunStarts, Missing, BuildNack;
    } else {
      assert RunStarts({}) == {};
    }
  }

  function Retried(record: ResendRecord, now: nat): ResendRecord {
    ResendRecord(record.bytes, now, if record.resends < 0xffff_ffff then record.resends + 1 else 0xffff_ffff)
  }

  /** The store after a tick: what was resent is marked as sent now, once more. */
  ghost predicate Refreshed(unacked: map<int, ResendRecord>, numbers: seq<int>, now: nat, store: map<int, ResendRecord>) {
    && store.Keys == unacked.Keys
    && forall s :: s in unacked ==> store[s] == if s in numbers then Retried(unacked[s], now) else unacked[s]
  }

  lemma RefreshedBy(e: Engine, numbers: seq<int>, now: nat)
    requires forall s :: s in numbers <==> s in e.unacked && now >= e.unacked[s].sentAt + ResendThreshold(e.rtt)
    ensures ResendDue(e, now).0 == e.(unacked := ResendDue(e, now).0.unacked)
    ensures Refreshed(e.unacked, numbers, now, ResendDue(e, now).0.unacked)
  {
    ThresholdExact(e.rtt);
    hide ResendThreshold, DueBytes, UnackedKeys;
  }

  /**
    Exactly what a tick sends and keeps. If something has arrived within ten seconds and twice the
    estimate: one ACK that lists the pending numbers, one NACK that lists the missing ones, each if
    there are any and they form at most 65535 runs, and then every overdue datagram once, from the
    least number up. Otherwise nothing. In both cases the pending numbers are gone and the overdue
    datagrams are marked as sent.
   */
  lemma TickSendsExactly(e: Engine, now: nat, missing: set<int>)
    returns (acks: seq<seq<byte>>, nacks: seq<seq<byte>>, numbers: seq<int>)
    requires Lacks(e.window, missing)
    ensures IsSorted(numbers) && forall i :: 0 <= i < |numbers| ==> numbers[i] in e.unacked
    ensures forall s :: s in numbers <==> s in e.unacked && now >= e.unacked[s].sentAt + ResendThreshold(e.rtt)
    ensures OneListing(acks, true, e.pendingAcks) && OneListing(nacks, false, missing)
    ensures Tick(e, now).1 ==
              if now < e.lastRecv + 10_000_000_000 + 2 * e.rtt then acks + nacks + BytesAt(e.unacked, numbers) else []
    ensures Tick(e, now).0 == e.(pendingAcks := {}, unacked := Tick(e, now).0.unacked)
    ensures Refreshed(e.unacked, numbers, now, Tick(e, now).0.unacked)
  {
    var drained, ack := EngineState.DrainAcks(e).0, EngineState.DrainAcks(e).1;
    AckPart(e);
    NackPart(drained, missing);
    numbers := ResendInOrder(drained, now);
    RefreshedBy(drained, numbers, now);
    acks, nacks := Encoded(ack), Encoded(BuildNack(drained));
    hide EngineState.DrainAcks, Encoded, BuildNack, ResendDue, OneListing, Refreshed, ResendThreshold, Lacks;
  }
}
