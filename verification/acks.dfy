/**
  ACK and NACK records: the numbers they are meant to denote, how a list of
  numbers is coalesced into them, and how far the engine's loops walk for them.
 */
module Acks {
  import opened Basics
  import opened Datagrams
  import opened Ascending
  import opened ReceiveWindow

  /** The documented meaning of a record: one number, or the circular interval from start to end. */
  predicate Meant(r: AckRange, x: u24) {
    match r
    case Single(start) => x == start
    case Range(start, end) => ForwardDistance(start, x) <= ForwardDistance(start, end)
  }

  ghost predicate Denotes(ranges: seq<AckRange>, x: u24) {
    exists i :: 0 <= i < |ranges| && Meant(ranges[i], x)
  }

  // ---------- Coalescing ----------

  function Last(r: AckRange): u24 {
    match r
    case Single(start) => start
    case Range(_, end) => end
  }

  function CoalesceFrom(start: u24, prev: u24, rest: seq<u24>): seq<AckRange>
    decreases |rest|
  {
    if rest == [] then [RangeOrSingle(start, prev)]
    else if rest[0] == prev + 1 then CoalesceFrom(start, rest[0], rest[1..])
    else [RangeOrSingle(start, prev)] + CoalesceFrom(rest[0], rest[0], rest[1..])
  }

  function Coalesce(numbers: seq<u24>): seq<AckRange> {
    if numbers == [] then [] else CoalesceFrom(numbers[0], numbers[0], numbers[1..])
  }

  method CoalesceRanges(numbers: seq<u24>) returns (ranges: seq<AckRange>)
    ensures ranges == Coalesce(numbers)
  {
    ranges := [];
    if numbers == [] {
      return;
    }
    var start: u24, prev: u24 := numbers[0], numbers[0];
    for i := 1 to |numbers|
      invariant ranges + CoalesceFrom(start, prev, numbers[i..]) == Coalesce(numbers)
    {
      var cur: u24 := numbers[i];
      assert numbers[i..][1..] == numbers[i + 1..];
      if cur == prev + 1 {
        prev := cur;
      } else {
        var record := RangeOrSingle(start, prev);
        assert forall more: seq<AckRange> :: ranges + ([record] + more) == (ranges + [record]) + more;
        ranges := ranges + [record];
        start, prev := cur, cur;
      }
    }
    ranges := ranges + [RangeOrSingle(start, prev)];
  }

  /** Ascending, disjoint, not even adjacent, and none running over the end of the circle. */
  ghost predicate Separated(ranges: seq<AckRange>) {
    && (forall i :: 0 <= i < |ranges| ==> ranges[i].start <= Last(ranges[i]))
    && forall i, j :: 0 <= i < j < |ranges| ==> Last(ranges[i]) + 1 < ranges[j].start
  }

  ghost predicate Covers(ranges: seq<AckRange>, x: int) {
    exists i :: 0 <= i < |ranges| && ranges[i].start <= x <= Last(ranges[i])
  }

  lemma {:induction false} CoalesceFromSeparates(start: u24, prev: u24, rest: seq<u24>)
    requires start <= prev && IsSorted([prev] + rest)
    ensures var ranges := CoalesceFrom(start, prev, rest);
            Separated(ranges) && ranges != [] && ranges[0].start == start
    decreases |rest|
  {
    if rest != [] {
      var next: u24 := rest[0];
      SortedTail(prev, rest);
      if next == prev + 1 {
        CoalesceFromSeparates(start, next, rest[1..]);
      } else {
        CoalesceFromSeparates(next, next, rest[1..]);
        hide CoalesceFrom, IsSorted;
        SeparatedFront(RangeOrSingle(start, prev), CoalesceFrom(next, next, rest[1..]));
      }
    }
  }

  lemma SortedTail(prev: int, rest: seq<int>)
    requires rest != [] && IsSorted([prev] + rest)
    ensures prev < rest[0] && IsSorted([rest[0]] + rest[1..])
  {
    assert ([prev] + rest)[1..] == [rest[0]] + rest[1..];
    assert ([prev] + rest)[0] == prev && ([prev] + rest)[1] == rest[0];
  }

  lemma SeparatedFront(first: AckRange, more: seq<AckRange>)
    requires Separated(more) && more != []
    requires first.start <= Last(first) && Last(first) + 1 < more[0].start
    ensures Separated([first] + more)
  {
    assert forall i :: 0 <= i < |more| ==> more[0].start <= more[i].start by {
      forall i | 0 < i < |more| ensures more[0].start <= more[i].start { assert Last(more[0]) + 1 < more[i].start; }
    }
  }

  lemma CoversFront(first: AckRange, more: seq<AckRange>, x: int)
    ensures Covers([first] + more, x) <==> first.start <= x <= Last(first) || Covers(more, x)
  {
    var ranges := [first] + more;
    assert ranges[0] == first;
    if Covers(more, x) {
      var i :| 0 <= i < |more| && more[i].start <= x <= Last(more[i]);
      assert ranges[i + 1] == more[i];
    }
  }

  lemma {:induction false} CoalesceFromCovers(start: u24, prev: u24, rest: seq<u24>, x: int)
    requires start <= prev && IsSorted([prev] + rest)
    ensures Covers(CoalesceFrom(start, prev, rest), x) <==> start <= x <= prev || x in rest
    decreases |rest|
  {
    var first := RangeOrSingle(start, prev);
    if rest == [] {
      assert CoalesceFrom(start, prev, rest) == [first] + [];
      CoversFront(first, [], x);
    } else {
      var next: u24 := rest[0];
      SortedTail(prev, rest);
      assert x in rest <==> x == next || x in rest[1..];
      if next == prev + 1 {
        CoalesceFromCovers(start, next, rest[1..], x);
      } else {
        CoalesceFromCovers(next, next, rest[1..], x);
        CoversFront(first, CoalesceFrom(next, next, rest[1..]), x);
      }
    }
  }

  /** Records that do not run over the end mean what lies between their ends. */
  lemma SeparatedMeaning(ranges: seq<AckRange>, x: u24)
    requires Separated(ranges)
    ensures Denotes(ranges, x) <==> Covers(ranges, x)
  {
    forall i | 0 <= i < |ranges|
      ensures Meant(ranges[i], x) <==> ranges[i].start <= x <= Last(ranges[i])
    {
      MeantBetween(ranges[i], x);
    }
  }

  lemma MeantBetween(r: AckRange, x: u24)
    requires r.start <= Last(r)
    ensures Meant(r, x) <==> r.start <= x <= Last(r)
  {
  }

  /** Coalescing an ascending list gives separated records that denote exactly its numbers. */
  lemma CoalesceExact(numbers: seq<u24>)
    requires IsSorted(numbers)
    ensures Separated(Coalesce(numbers))
    ensures forall x: u24 :: Denotes(Coalesce(numbers), x) <==> x in numbers
    ensures Coalesce(numbers) == [] <==> numbers == []
  {
    if numbers != [] {
      assert numbers == [numbers[0]] + numbers[1..];
      CoalesceFromSeparates(numbers[0], numbers[0], numbers[1..]);
      forall x: u24
        ensures Denotes(Coalesce(numbers), x) <==> x in numbers
      {
        CoalesceFromCovers(numbers[0], numbers[0], numbers[1..], x);
        SeparatedMeaning(Coalesce(numbers), x);
        assert x in numbers <==> x == numbers[0] || x in numbers[1..];
      }
    }
  }

  // ---------- How far a record is walked ----------

  /**
    The number of steps the engine's loop takes for a record. It stops when it has handled `end`;
    a record without an end only stops when it is back at its start.
   */
  function WalkLength(r: AckRange): nat {
    match r
    case Single(_) => 0x100_0000
    case Range(start, end) => ForwardDistance(start, end) + 1
  }

  predicate Walked(r: AckRange, x: u24) {
    ForwardDistance(r.start, x) < WalkLength(r)
  }

  /**
    A range record is walked over exactly the numbers it means. A single record, which means one
    number, is walked over the whole circle.
   */
  lemma WalkedOrMeant(r: AckRange, x: u24)
    ensures r.Range? ==> (Walked(r, x) <==> Meant(r, x))
    ensures r.Single? ==> Walked(r, x)
    ensures Meant(r, x) ==> Walked(r, x)
  {
  }
}
