/**
  The circular window refines an unbounded one: it answers as if datagram
  numbers never wrapped, however many times they do.
 */
module WindowProofs {
  import opened Basics
  import opened Datagrams
  import opened ReceiveWindow

  /**
    `w` stands for: numbering began at `start`, the numbers `seen` have arrived, `low` is the least
    one missing and `high` the greatest one seen. The circle's 2^24 positions from `low` on are
    exactly those at which a number can lie, so the last clause determines the stored set.
   */
  ghost predicate Tracks(w: Window, start: int, seen: set<int>, low: int, high: int) {
    && Spans(w, start, seen, low, high)
    && low !in seen
  }

  /** As Tracks, except that `low` may have arrived and not yet been consumed. */
  ghost predicate Spans(w: Window, start: int, seen: set<int>, low: int, high: int) {
    && w.started
    && start in seen && high in seen && start <= low <= high + 1 <= low + 0x80_0001
    && (forall x :: x in seen ==> start <= x <= high)
    && (forall x :: start <= x < low ==> x in seen)
    && w.lowestUnseen == Wrap(low) && w.highestSeen == Wrap(high)
    && (forall r :: r in w.received ==> 0 <= r < 0x100_0000)
    && forall x :: low <= x < low + 0x100_0000 ==> (Wrap(x) in w.received <==> x in seen)
  }

  lemma {:induction false} AdvanceTracks(w: Window, start: int, seen: set<int>, low: int, high: int) returns (low': int)
    requires Spans(w, start, seen, low, high)
    ensures low <= low' && Tracks(Advance(w), start, seen, low', high)
    decreases |w.received|
  {
    if w.lowestUnseen in w.received {
      AdvanceSpans(w, start, seen, low, high);
      hide Spans;
      low' := AdvanceTracks(Consumed(w), start, seen, low + 1, high);
    } else {
      low' := low;
    }
  }

  /** One number off the contiguous prefix. */
  function Consumed(w: Window): Window {
    w.(received := w.received - {w.lowestUnseen}, lowestUnseen := Wrap(w.lowestUnseen + 1))
  }

  lemma AdvanceSpans(w: Window, start: int, seen: set<int>, low: int, high: int)
    requires Spans(w, start, seen, low, high) && w.lowestUnseen in w.received
    ensures Spans(Consumed(w), start, seen, low + 1, high)
  {
    WrapNext(low);
    forall x | low + 1 <= x < low + 1 + 0x100_0000
      ensures Wrap(x) in Consumed(w).received <==> x in seen
    {
      ConsumedAt(w, start, seen, low, high, x);
    }
    hide Wrap;
    assert low in seen;
  }

  lemma ConsumedAt(w: Window, start: int, seen: set<int>, low: int, high: int, x: int)
    requires Spans(w, start, seen, low, high) && low < x <= low + 0x100_0000
    ensures Wrap(x) in w.received - {w.lowestUnseen} <==> x in seen
  {
    if x < low + 0x100_0000 {
      WrapDifference(x, low);
    } else {
      assert Wrap(x) == Wrap(low);
    }
  }

  /** The first arrival starts the window at its own number, whatever that is. */
  lemma FirstArrival(n: int)
    ensures Record(NEW_WINDOW, Wrap(n)).1
    ensures Tracks(Record(NEW_WINDOW, Wrap(n)).0, n, {n}, n + 1, n)
  {
    var w := Window(Wrap(n), Wrap(n), {} + {Wrap(n)}, true);
    forall x | n <= x < n + 0x100_0000
      ensures Wrap(x) in w.received <==> x in {n}
    {
      WrapDifference(x, n);
    }
    var low := AdvanceTracks(w, n, {n}, n, n);
    assert low == n + 1;
  }

  /** Where an arrival can lie for the window to tell where it is. */
  predicate InReach(n: int, low: int, high: int) {
    low - 0x7f_ffff <= n <= low + 0x80_0000 && n - high < 0x80_0000
  }

  /**
    One arrival. The answer is whether the number is new, and the window afterwards stands for the
    numbers seen so far together with this one; numbers before the first arrival change nothing.
   */
  lemma RecordTracks(w: Window, start: int, seen: set<int>, low: int, high: int, n: int) returns (low': int)
    requires Tracks(w, start, seen, low, high) && InReach(n, low, high)
    ensures Record(w, Wrap(n)).1 <==> start <= n && n !in seen
    ensures low <= low'
    ensures Tracks(Record(w, Wrap(n)).0, start, if n < start then seen else seen + {n}, low', if n > high then n else high)
  {
    RecordCases(w, start, seen, low, high, n);
    hide *;
    if n < low {
      low' := low;
      SeenBefore(w, start, seen, low, high, n);
    } else if n in seen {
      low' := low;
      SeenBefore(w, start, seen, low, high, n);
    } else {
      StoredSpans(w, start, seen, low, high, n);
      low' := AdvanceTracks(Stored(w, n, high), start, seen + {n}, low, if n > high then n else high);
    }
  }

  /** The window with a number stored, before its contiguous prefix is consumed. */
  function Stored(w: Window, n: int, high: int): Window {
    Window(w.lowestUnseen, Wrap(if n > high then n else high), w.received + {Wrap(n)}, true)
  }

  lemma RecordCases(w: Window, start: int, seen: set<int>, low: int, high: int, n: int)
    requires Tracks(w, start, seen, low, high) && InReach(n, low, high)
    ensures start <= low
    ensures Record(w, Wrap(n)) ==
              if n < low || n in seen then (w, false) else (Advance(Stored(w, n, high)), true)
  {
    WrapDifference(low, n);
    WrapDifference(n, high);
    hide Wrap, Advance;
  }

  lemma SeenBefore(w: Window, start: int, seen: set<int>, low: int, high: int, n: int)
    requires Tracks(w, start, seen, low, high) && (n < low || n in seen)
    ensures n >= start ==> n in seen && seen + {n} == seen
    ensures n <= high && (n in seen ==> start <= n)
  {
  }

  /** A number put into the window before the contiguous prefix is consumed. */
  lemma StoredSpans(w: Window, start: int, seen: set<int>, low: int, high: int, n: int)
    requires Tracks(w, start, seen, low, high) && low <= n && InReach(n, low, high)
    ensures Spans(Stored(w, n, high), start, seen + {n}, low, if n > high then n else high)
  {
    forall x | low <= x < low + 0x100_0000
      ensures Wrap(x) in w.received + {Wrap(n)} <==> x in seen + {n}
    {
      WrapDifference(x, n);
    }
  }

  /**
    Exactly which arrivals the window places correctly. Each of the 2^24 circular numbers is that of
    one `n` between these bounds; its newness is always judged correctly, but the greatest number
    seen is kept correctly if and only if `n` is less than half the circle past the old greatest.
   */
  lemma HighestSeenExactly(w: Window, start: int, seen: set<int>, low: int, high: int, n: int)
    requires Tracks(w, start, seen, low, high) && low - 0x7f_ffff <= n <= low + 0x80_0000
    ensures Record(w, Wrap(n)).1 <==> start <= n && n !in seen
    ensures Record(w, Wrap(n)).0.highestSeen == Wrap(if n > high then n else high) <==> n - high < 0x80_0000
  {
    WrapDifference(low, n);
    WrapDifference(n, high);
    AdvanceKeepsHighest(w.(received := w.received + {Wrap(n)}));
    AdvanceKeepsHighest(w.(received := w.received + {Wrap(n)}, highestSeen := Wrap(n)));
  }

  lemma {:induction false} AdvanceKeepsHighest(w: Window)
    ensures Advance(w).highestSeen == w.highestSeen
    decreases |w.received|
  {
    if w.lowestUnseen in w.received {
      AdvanceKeepsHighest(w.(received := w.received - {w.lowestUnseen}, lowestUnseen := Wrap(w.lowestUnseen + 1)));
    }
  }

  // ---------- Whole runs ----------

  ghost function LeastUnseen(from: int, seen: set<int>): (low: int)
    ensures from <= low && low !in seen && forall x :: from <= x < low ==> x in seen
    decreases |seen|
  {
    if from in seen then
      var rest := seen - {from};
      var low := LeastUnseen(from + 1, rest);
      assert forall x :: from <= x < low ==> x in seen by {
        forall x | from < x < low
          ensures x in seen
        {
          assert x in rest;
        }
      }
      low
    else from
  }

  ghost function Greatest(numbers: seq<int>): (high: int)
    requires numbers != []
    ensures high in numbers && forall x :: x in numbers ==> x <= high
  {
    var last := numbers[|numbers| - 1];
    if |numbers| == 1 then last
    else
      var front := Greatest(numbers[..|numbers| - 1]);
      assert forall x :: x in numbers ==> x == last || x in numbers[..|numbers| - 1];
      if last > front then last else front
  }

  /** The numbers that count: those from the first arrival's on. */
  ghost function Counted(numbers: seq<int>): set<int>
    requires numbers != []
  {
    set x | x in numbers && numbers[0] <= x
  }

  ghost predicate StaysInReach(numbers: seq<int>)
    requires numbers != []
  {
    forall i :: 0 < i < |numbers| ==>
      InReach(numbers[i], LeastUnseen(numbers[0], Counted(numbers[..i])), Greatest(numbers[..i]))
  }

  function RecordAll(numbers: seq<int>): (Window, seq<bool>) {
    if numbers == [] then (NEW_WINDOW, [])
    else
      var (w, answers) := RecordAll(numbers[..|numbers| - 1]);
      var (w', isNew) := Record(w, Wrap(numbers[|numbers| - 1]));
      (w', answers + [isNew])
  }

  /**
    Over a whole run, across any number of wraps: each answer is whether that number, counted from
    the first arrival's on, arrives for the first time; and the window always stands for the set of
    numbers arrived, with the least one missing and the greatest one seen.
   */
  lemma {:induction false} RunTracks(numbers: seq<int>)
    requires numbers != [] && StaysInReach(numbers)
    ensures var (w, answers) := RecordAll(numbers);
            && Tracks(w, numbers[0], Counted(numbers), LeastUnseen(numbers[0], Counted(numbers)), Greatest(numbers))
            && JudgedRight(numbers, answers)
  {
    hide *;
    var last, front := numbers[|numbers| - 1], numbers[..|numbers| - 1];
    assert numbers == front + [last];
    if front == [] {
      assert numbers == [last];
      OneArrival(last);
    } else {
      assert numbers[0] == front[0];
      FrontStays(front, last);
      RunTracks(front);
      RunStep(front, last);
      JudgedRightStep(front, RecordAll(front).1, last);
    }
  }

  lemma FrontStays(front: seq<int>, last: int)
    requires front != [] && StaysInReach(front + [last])
    ensures StaysInReach(front)
  {
    assert forall i :: 0 < i < |front| ==> front[..i] == (front + [last])[..i];
  }

  lemma OneArrival(n: int)
    ensures Tracks(RecordAll([n]).0, n, Counted([n]), LeastUnseen(n, Counted([n])), Greatest([n]))
    ensures JudgedRight([n], RecordAll([n]).1)
  {
    assert [n][..|[n]| - 1] == [] && Counted([n]) == {n};
    FirstArrival(n);
    assert [] + [true] == [true];
    assert RecordAll([n]) == (Record(NEW_WINDOW, Wrap(n)).0, [true]);
    SameLeast(RecordAll([n]).0, n, {n}, n + 1, n);
  }

  /** Each answer is whether the number, from the first one's on, was new. */
  ghost predicate JudgedRight(numbers: seq<int>, answers: seq<bool>) {
    && |answers| == |numbers|
    && forall i :: 0 <= i < |numbers| ==> (answers[i] <==> numbers[0] <= numbers[i] && numbers[i] !in numbers[..i])
  }

  lemma JudgedRightStep(front: seq<int>, answers: seq<bool>, last: int)
    requires front != [] && JudgedRight(front, answers)
    ensures JudgedRight(front + [last], answers + [front[0] <= last && last !in front])
  {
    var numbers := front + [last];
    assert forall i :: 0 <= i < |front| ==> numbers[..i] == front[..i];
    assert numbers[..|front|] == front;
  }

  lemma RunStep(front: seq<int>, last: int)
    requires front != [] && StaysInReach(front + [last])
    requires Tracks(RecordAll(front).0, front[0], Counted(front), LeastUnseen(front[0], Counted(front)), Greatest(front))
    ensures var numbers := front + [last];
            && RecordAll(numbers).1 == RecordAll(front).1 + [front[0] <= last && last !in front]
            && Tracks(RecordAll(numbers).0, front[0], Counted(numbers),
                      LeastUnseen(front[0], Counted(numbers)), Greatest(numbers))
  {
    hide *;
    var low, high := LeastUnseen(front[0], Counted(front)), Greatest(front);
    LastInReach(front, last);
    RecordLast(front, last);
    CountedStep(front, last);
    GreatestStep(front, last);
    var w := RecordAll(front).0;
    var low' := RecordTracks(w, front[0], Counted(front), low, high, last);
    SameLeast(Record(w, Wrap(last)).0, front[0], Counted(front + [last]), low', Greatest(front + [last]));
  }

  lemma LastInReach(front: seq<int>, last: int)
    requires front != [] && StaysInReach(front + [last])
    ensures InReach(last, LeastUnseen(front[0], Counted(front)), Greatest(front))
  {
    hide InReach, LeastUnseen, Counted, Greatest;
    assert (front + [last])[..|front|] == front;
  }

  lemma RecordLast(front: seq<int>, n: int)
    ensures RecordAll(front + [n])
         == (Record(RecordAll(front).0, Wrap(n)).0, RecordAll(front).1 + [Record(RecordAll(front).0, Wrap(n)).1])
  {
    hide Record;
    assert (front + [n])[..|front|] == front;
  }

  /** A new number counts if it does not lie before the first one. */
  lemma CountedStep(front: seq<int>, n: int)
    requires front != []
    ensures n in Counted(front) <==> front[0] <= n && n in front
    ensures Counted(front + [n]) == if n < front[0] then Counted(front) else Counted(front) + {n}
    ensures n in front ==> Counted(front + [n]) == Counted(front)
  {
  }

  lemma GreatestStep(front: seq<int>, n: int)
    requires front != []
    ensures Greatest(front + [n]) == if n > Greatest(front) then n else Greatest(front)
  {
    assert (front + [n])[..|front|] == front;
  }

  lemma SameLeast(w: Window, start: int, seen: set<int>, low: int, high: int)
    requires Tracks(w, start, seen, low, high)
    ensures low == LeastUnseen(start, seen)
  {
  }

  // ---------- What is missing ----------

  /** `runs` are the maximal runs of `[low, high]` outside `seen`, in forward order, and all of them. */
  ghost predicate MaximalGaps(seen: set<int>, low: int, high: int, runs: seq<(int, int)>) {
    && DisjointGaps(seen, low, high, runs)
    && forall x :: low <= x <= high && x !in seen ==> exists i :: 0 <= i < |runs| && runs[i].0 <= x <= runs[i].1
  }

  ghost predicate DisjointGaps(seen: set<int>, low: int, high: int, runs: seq<(int, int)>) {
    && (forall i :: 0 <= i < |runs| ==>
          && low <= runs[i].0 <= runs[i].1 <= high
          && (forall x :: runs[i].0 <= x <= runs[i].1 ==> x !in seen)
          && (runs[i].0 == low || runs[i].0 - 1 in seen)
          && runs[i].1 + 1 in seen)
    && forall i, j :: 0 <= i < j < |runs| ==> runs[i].1 + 1 < runs[j].0
  }

  function Records(runs: seq<(int, int)>): seq<AckRange> {
    seq(|runs|, i requires 0 <= i < |runs| => RangeOrSingle(Wrap(runs[i].0), Wrap(runs[i].1)))
  }

  ghost function Gaps(seen: set<int>, cur: int, stop: int, open: Option<int>): seq<(int, int)>
    decreases stop - cur
  {
    if cur > stop then
      if open.Some? then [(open.value, stop)] else []
    else if cur !in seen then Gaps(seen, cur + 1, stop, if open.Some? then open else Some(cur))
    else if open.Some? then [(open.value, cur - 1)] + Gaps(seen, cur + 1, stop, None)
    else Gaps(seen, cur + 1, stop, None)
  }

  /** Walking the circle from `cur + shift`, whole turns away, gives the records of the unbounded gaps. */
  lemma {:induction false} MissingFromIsGaps(
    received: set<int>, seen: set<int>, cur: int, stop: int, open: Option<int>, shift: int)
    requires Wrap(shift) == 0
    requires forall x :: cur <= x <= stop ==> (Wrap(x) in received <==> x in seen)
    ensures MissingFrom(received, cur + shift, stop + shift, if open.Some? then Some(open.value + shift) else None)
         == Records(Gaps(seen, cur, stop, open))
    decreases stop - cur
  {
    WrapShift(cur, shift);
    WrapShift(cur - 1, shift);
    WrapShift(stop, shift);
    if open.Some? { WrapShift(open.value, shift); }
    hide Wrap, Records, RangeOrSingle;
    if cur > stop {
      RecordsNone();
      if open.Some? { RecordsFirst((open.value, stop), []); }
    } else if cur !in seen {
      MissingFromIsGaps(received, seen, cur + 1, stop, if open.Some? then open else Some(cur), shift);
    } else {
      MissingFromIsGaps(received, seen, cur + 1, stop, None, shift);
      if open.Some? { RecordsFirst((open.value, cur - 1), Gaps(seen, cur + 1, stop, None)); }
    }
  }

  lemma RecordsNone()
    ensures Records([]) == []
  {
  }

  lemma RecordsFirst(run: (int, int), rest: seq<(int, int)>)
    ensures Records([run] + rest) == [RangeOrSingle(Wrap(run.0), Wrap(run.1))] + Records(rest)
  {
  }

  lemma WrapShift(x: int, shift: int)
    requires Wrap(shift) == 0
    ensures Wrap(x + shift) == Wrap(x)
  {
  }

  lemma {:induction false} GapsAreMaximal(seen: set<int>, cur: int, stop: int, open: Option<int>)
    requires stop in seen && cur <= stop + 1 && (cur == stop + 1 ==> open.None?)
    requires open.Some? ==> open.value < cur && forall x :: open.value <= x < cur ==> x !in seen
    ensures DisjointGaps(seen, if open.Some? then open.value else cur, stop, Gaps(seen, cur, stop, open))
    decreases stop - cur
  {
    if cur <= stop {
      if cur !in seen {
        GapsAreMaximal(seen, cur + 1, stop, if open.Some? then open else Some(cur));
      } else {
        GapsAreMaximal(seen, cur + 1, stop, None);
        if open.Some? {
          hide DisjointGaps;
          FirstGap(seen, open.value, cur - 1, stop, Gaps(seen, cur + 1, stop, None));
        }
      }
    }
  }

  lemma FirstGap(seen: set<int>, a: int, b: int, stop: int, rest: seq<(int, int)>)
    requires a <= b < stop && b + 1 in seen && (forall x :: a <= x <= b ==> x !in seen)
    requires DisjointGaps(seen, b + 2, stop, rest)
    ensures DisjointGaps(seen, a, stop, [(a, b)] + rest)
  {
  }

  lemma {:induction false} GapsCover(seen: set<int>, cur: int, stop: int, open: Option<int>, x: int)
    requires (if open.Some? then open.value else cur) <= x <= stop && x !in seen
    requires open.Some? ==> open.value < cur
    ensures exists i :: 0 <= i < |Gaps(seen, cur, stop, open)|
                     && Gaps(seen, cur, stop, open)[i].0 <= x <= Gaps(seen, cur, stop, open)[i].1
    decreases stop - cur
  {
    var runs := Gaps(seen, cur, stop, open);
    if cur > stop {
      assert runs[0].0 <= x <= runs[0].1;
    } else if cur !in seen {
      GapsCover(seen, cur + 1, stop, if open.Some? then open else Some(cur), x);
    } else if x < cur {
      assert runs[0].0 <= x <= runs[0].1;
    } else {
      var rest := Gaps(seen, cur + 1, stop, None);
      GapsCover(seen, cur + 1, stop, None, x);
      var i :| 0 <= i < |rest| && rest[i].0 <= x <= rest[i].1;
      assert runs[|runs| - |rest| + i] == rest[i];
    }
  }

  /**
    In every window that stands for a run, the missing ranges are, read on the circle, exactly the
    numbers between the least missing and the greatest seen that never arrived: disjoint maximal
    runs in forward order. There are none exactly when the window is contiguous.
   */
  lemma MissingDenotes(w: Window, start: int, seen: set<int>, low: int, high: int) returns (runs: seq<(int, int)>)
    requires Tracks(w, start, seen, low, high)
    ensures MaximalGaps(seen, low, high, runs) && Missing(w) == Records(runs)
    ensures Missing(w) == [] <==> low == high + 1
  {
    hide Tracks, Missing, Gaps, DisjointGaps, MaximalGaps, Records;
    if low == high + 1 {
      runs := [];
      NothingMissing(w, start, seen, low, high);
    } else {
      TracksEnds(w, start, seen, low, high);
      runs := Gaps(seen, low, high, None);
      GapsAreMaximal(seen, low, high, None);
      GapsAreAll(seen, low, high, runs);
      MissingIsGaps(w, start, seen, low, high);
      SomeGap(seen, low, high, runs);
    }
  }

  lemma NothingMissing(w: Window, start: int, seen: set<int>, low: int, high: int)
    requires Tracks(w, start, seen, low, high) && low == high + 1
    ensures MaximalGaps(seen, low, high, []) && Missing(w) == [] == Records([])
  {
    NothingBuffered(w, start, seen, low, high);
    hide Tracks;
  }

  lemma TracksEnds(w: Window, start: int, seen: set<int>, low: int, high: int)
    requires Tracks(w, start, seen, low, high)
    ensures low <= high + 1 && high in seen && low !in seen
  {
  }

  lemma GapsAreAll(seen: set<int>, low: int, high: int, runs: seq<(int, int)>)
    requires runs == Gaps(seen, low, high, None) && DisjointGaps(seen, low, high, runs)
    ensures MaximalGaps(seen, low, high, runs)
  {
    forall x | low <= x <= high && x !in seen
      ensures exists i :: 0 <= i < |runs| && runs[i].0 <= x <= runs[i].1
    {
      GapsCover(seen, low, high, None, x);
    }
    hide Gaps, DisjointGaps;
  }

  lemma SomeGap(seen: set<int>, low: int, high: int, runs: seq<(int, int)>)
    requires MaximalGaps(seen, low, high, runs) && low <= high && low !in seen
    ensures runs != [] && Records(runs) != []
  {
    hide DisjointGaps;
    assert exists i :: 0 <= i < |runs| && runs[i].0 <= low <= runs[i].1;
    assert |Records(runs)| == |runs|;
  }

  lemma MissingIsGaps(w: Window, start: int, seen: set<int>, low: int, high: int)
    requires Tracks(w, start, seen, low, high) && low <= high
    ensures Missing(w) == Records(Gaps(seen, low, high, None))
  {
    hide MissingFrom, Gaps;
    assert Wrap(high) in w.received;
    WrapDifference(high, low);
    MissingFromIsGaps(w.received, seen, low, high, None, w.lowestUnseen - low);
  }

  lemma NothingBuffered(w: Window, start: int, seen: set<int>, low: int, high: int)
    requires Tracks(w, start, seen, low, high) && low == high + 1
    ensures w.received == {}
  {
    forall r
      ensures r !in w.received
    {
      if 0 <= r < 0x100_0000 { NotBuffered(w, start, seen, low, high, r); }
    }
    hide Wrap;
  }

  lemma NotBuffered(w: Window, start: int, seen: set<int>, low: int, high: int, r: u24)
    requires Tracks(w, start, seen, low, high) && low == high + 1
    ensures r !in w.received
  {
    var x := low + Wrap(r - low);
    WrapBack(low, r);
    assert x !in seen;
    hide Wrap;
  }

  lemma WrapBack(low: int, r: u24)
    ensures Wrap(low + Wrap(r - low)) == r
  {
  }

  // ---------- Past the reach ----------

  lemma {:induction false} MissingSkips(received: set<int>, cur: int, n: int, stop: int, open: Option<int>)
    requires cur < n <= stop + 1 && forall x :: cur <= x < n ==> Wrap(x) !in received
    ensures MissingFrom(received, cur, stop, open) == MissingFrom(received, n, stop, if open.Some? then open else Some(cur))
    decreases n - cur
  {
    if cur + 1 < n { MissingSkips(received, cur + 1, n, stop, if open.Some? then open else Some(cur)); }
  }

  /**
    A witness past the reach: after numbers 0 and 2^23 the greatest number seen is still taken to be
    0, and the NACK asks for the rest of the circle, number 0 included.
   */
  lemma HalfwayArrivalMisreports()
    ensures var w := RecordAll([0, 0x80_0000]).0;
            w.highestSeen == 0 && Missing(w) == [Range(1, 0x7f_ffff), Range(0x80_0001, 0)]
  {
    var w := Window(1, 0, {0x80_0000}, true);
    assert RecordAll([0, 0x80_0000]).0 == w by {
      FirstArrival(0);
      NothingBuffered(Record(NEW_WINDOW, Wrap(0)).0, 0, {0}, 1, 0);
      assert [0, 0x80_0000][..1] == [0] && [0][..|[0]| - 1] == [];
      assert RecordAll([0]).0 == Record(NEW_WINDOW, Wrap(0)).0 == Window(1, 0, {}, true);
    }
    hide RecordAll;
    var received, stop := w.received, 0x100_0000;
    MissingSkips(received, 1, 0x80_0000, stop, None);
    MissingSkips(received, 0x80_0001, stop + 1, stop, None);
    assert MissingFrom(received, stop + 1, stop, Some(0x80_0001)) == [Range(0x80_0001, 0)];
    assert MissingFrom(received, 0x80_0000, stop, Some(1)) == [Range(1, 0x7f_ffff)] + MissingFrom(received, 0x80_0001, stop, None);
  }
}
