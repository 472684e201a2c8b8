/**
  What an acknowledgement does to the retransmission store: the loops over the
  circle visit exactly the intended numbers for a range record, and every number
  for a single one.
 */
module WalkProofs {
  import opened Basics
  import opened Datagrams
  import opened ReceiveWindow
  import opened Acks
  import opened Ascending
  import opened EngineState

  /** `s` is one of the first `steps` numbers from `start` on. */
  predicate Within(start: u24, steps: nat, s: int) {
    0 <= s < 0x100_0000 && Wrap(s - start) < steps
  }

  lemma WithinStep(start: u24, steps: nat, s: int)
    requires 0 < steps <= 0x100_0000
    ensures Within(start, steps, s) <==> Within(start, steps - 1, s) || s == Wrap(start + steps - 1)
  {
    if 0 <= s < 0x100_0000 { WrapDifference(start + steps - 1, start); }
  }

  lemma WalkLengthBound(r: AckRange)
    ensures 0 < WalkLength(r) <= 0x100_0000
    ensures forall s :: Within(r.start, WalkLength(r), s) <==> 0 <= s < 0x100_0000 && Walked(r, s)
  {
  }

  ghost predicate AnyWalked(ranges: seq<AckRange>, s: int) {
    0 <= s < 0x100_0000 && exists i :: 0 <= i < |ranges| && Walked(ranges[i], s)
  }

  lemma AnyWalkedLast(ranges: seq<AckRange>, s: int)
    requires ranges != []
    ensures var last := ranges[|ranges| - 1];
            AnyWalked(ranges, s) <==> AnyWalked(ranges[..|ranges| - 1], s) || Within(last.start, WalkLength(last), s)
  {
    var front, last := ranges[..|ranges| - 1], ranges[|ranges| - 1];
    WalkLengthBound(last);
    if AnyWalked(front, s) {
      var i :| 0 <= i < |front| && Walked(front[i], s);
      assert ranges[i] == front[i];
    }
    if AnyWalked(ranges, s) {
      var i :| 0 <= i < |ranges| && Walked(ranges[i], s);
      assert i < |front| ==> front[i] == ranges[i];
    }
  }

  // ---------- ACKs ----------

  lemma {:induction false} AckWalkRemoves(unacked: map<int, ResendRecord>, rtt: nat, start: u24, steps: nat, now: nat)
    requires steps <= 0x100_0000
    ensures var left := AckWalk(unacked, rtt, start, steps, now).0;
            forall s :: (s in left <==> s in unacked && !Within(start, steps, s)) && (s in left ==> left[s] == unacked[s])
  {
    if steps != 0 {
      AckWalkRemoves(unacked, rtt, start, steps - 1, now);
      hide Within;
      forall s ensures Within(start, steps, s) <==> Within(start, steps - 1, s) || s == Wrap(start + steps - 1) {
        WithinStep(start, steps, s);
      }
    }
  }

  /** An ACK removes exactly the datagrams its records are walked over, and changes no other. */
  lemma {:induction false} AckRemovesWalked(unacked: map<int, ResendRecord>, rtt: nat, ranges: seq<AckRange>, now: nat)
    ensures var left := AckRanges(unacked, rtt, ranges, now).0;
            forall s :: (s in left <==> s in unacked && !AnyWalked(ranges, s)) && (s in left ==> left[s] == unacked[s])
  {
    if ranges != [] {
      var front, last := ranges[..|ranges| - 1], ranges[|ranges| - 1];
      AckRemovesWalked(unacked, rtt, front, now);
      WalkLengthBound(last);
      var (left, rtt') := AckRanges(unacked, rtt, front, now);
      AckWalkRemoves(left, rtt', last.start, WalkLength(last), now);
      hide Within, AnyWalked, AckWalk, WalkLength;
      forall s
        ensures AnyWalked(ranges, s) <==> AnyWalked(front, s) || Within(last.start, WalkLength(last), s)
      {
        AnyWalkedLast(ranges, s);
      }
    }
  }

  ghost predicate Numbers24(unacked: map<int, ResendRecord>) {
    forall s :: s in unacked ==> 0 <= s < 0x100_0000
  }

  /**
    Processing an ACK removes exactly the datagrams that its records denote if and only if it has no
    single record, or it denotes every outstanding datagram anyway.
   */
  lemma AckRemovesDenoted(e: Engine, a: Acknowledgement, now: nat)
    requires Numbers24(e.unacked)
    ensures (forall s :: s in e.unacked ==> (s in OnAck(e, a, now).unacked <==> !Denotes(a.ranges, s)))
       <==> (forall i :: 0 <= i < |a.ranges| ==> a.ranges[i].Range?) || (forall s :: s in e.unacked ==> Denotes(a.ranges, s))
  {
    AckRemovesWalked(e.unacked, e.rtt, a.ranges, now);
    forall s | s in e.unacked
      ensures Denotes(a.ranges, s) ==> AnyWalked(a.ranges, s)
      ensures (forall i :: 0 <= i < |a.ranges| ==> a.ranges[i].Range?) && AnyWalked(a.ranges, s) ==> Denotes(a.ranges, s)
      ensures (exists i :: 0 <= i < |a.ranges| && a.ranges[i].Single?) ==> AnyWalked(a.ranges, s)
    {
      WalkedCases(a.ranges, s);
    }
  }

  lemma WalkedCases(ranges: seq<AckRange>, s: u24)
    ensures Denotes(ranges, s) ==> AnyWalked(ranges, s)
    ensures (forall i :: 0 <= i < |ranges| ==> ranges[i].Range?) && AnyWalked(ranges, s) ==> Denotes(ranges, s)
    ensures (exists i :: 0 <= i < |ranges| && ranges[i].Single?) ==> AnyWalked(ranges, s)
  {
    forall i | 0 <= i < |ranges|
      ensures ranges[i].Range? ==> (Walked(ranges[i], s) <==> Meant(ranges[i], s))
      ensures ranges[i].Single? ==> Walked(ranges[i], s)
      ensures Meant(ranges[i], s) ==> Walked(ranges[i], s)
    {
      WalkedOrMeant(ranges[i], s);
    }
  }

  /** As written, acknowledging one datagram with a single record forgets every outstanding one. */
  lemma SingleAckForgetsAll(e: Engine, s: u24, now: nat)
    requires Numbers24(e.unacked)
    ensures OnAck(e, Acknowledgement(true, [Single(s)]), now).unacked == map[]
  {
    var ranges := [Single(s)];
    AckRemovesWalked(e.unacked, e.rtt, ranges, now);
    var left := OnAck(e, Acknowledgement(true, ranges), now).unacked;
    assert left == AckRanges(e.unacked, e.rtt, ranges, now).0;
    forall t
      ensures t !in left
    {
      if t in e.unacked {
        WalkedOrMeant(ranges[0], t);
        assert Walked(ranges[0], t);
      }
    }
  }

  // ---------- NACKs ----------

  /** `out` holds the bytes of the datagrams picked by `visited`, and nothing else. */
  ghost predicate BytesOf(unacked: map<int, ResendRecord>, visited: int -> bool, out: seq<seq<byte>>) {
    && (forall s :: s in unacked && visited(s) ==> unacked[s].bytes in out)
    && forall b :: b in out ==> exists s :: s in unacked && visited(s) && unacked[s].bytes == b
  }

  /** As `unacked`, with those picked by `visited` marked as sent at `now`. */
  ghost predicate Restamped(unacked: map<int, ResendRecord>, visited: int -> bool, now: nat, store: map<int, ResendRecord>) {
    && store.Keys == unacked.Keys
    && forall s :: s in unacked ==> store[s] == if visited(s) then unacked[s].(sentAt := now) else unacked[s]
  }

  lemma {:induction false} NackWalkEmits(unacked: map<int, ResendRecord>, start: u24, steps: nat, now: nat)
    requires steps <= 0x100_0000
    ensures var (store, out) := NackWalk(unacked, start, steps, now);
            Restamped(unacked, s => Within(start, steps, s), now, store) && BytesOf(unacked, s => Within(start, steps, s), out)
  {
    if steps != 0 {
      NackWalkEmits(unacked, start, steps - 1, now);
      forall s ensures Within(start, steps, s) <==> Within(start, steps - 1, s) || s == Wrap(start + steps - 1) {
        WithinStep(start, steps, s);
      }
      hide Within;
      var (store, out) := NackWalk(unacked, start, steps, now);
      forall b | b in out
        ensures exists s :: s in unacked && Within(start, steps, s) && unacked[s].bytes == b
      {
        var before := NackWalk(unacked, start, steps - 1, now).1;
        if b in before {
          var s :| s in unacked && Within(start, steps - 1, s) && unacked[s].bytes == b;
          assert Within(start, steps, s);
        } else {
          assert Within(start, steps, Wrap(start + steps - 1));
        }
      }
    }
  }

  /** A NACK emits exactly the bytes of the datagrams its records are walked over, and keeps the store's keys and bytes. */
  lemma {:induction false} NackEmitsWalked(unacked: map<int, ResendRecord>, ranges: seq<AckRange>, now: nat)
    ensures var (store, out) := NackRanges(unacked, ranges, now);
            Restamped(unacked, s => AnyWalked(ranges, s), now, store) && BytesOf(unacked, s => AnyWalked(ranges, s), out)
  {
    if ranges != [] {
      var front, last := ranges[..|ranges| - 1], ranges[|ranges| - 1];
      NackEmitsWalked(unacked, front, now);
      WalkLengthBound(last);
      var (store, before) := NackRanges(unacked, front, now);
      NackWalkEmits(store, last.start, WalkLength(last), now);
      forall s
        ensures AnyWalked(ranges, s) <==> AnyWalked(front, s) || Within(last.start, WalkLength(last), s)
      {
        AnyWalkedLast(ranges, s);
      }
      hide Within, AnyWalked, NackWalk, WalkLength;
      var more := NackWalk(store, last.start, WalkLength(last), now).1;
      var out := NackRanges(unacked, ranges, now).1;
      forall b | b in out
        ensures exists s :: s in unacked && AnyWalked(ranges, s) && unacked[s].bytes == b
      {
        if b in before {
          var s :| s in unacked && AnyWalked(front, s) && unacked[s].bytes == b;
          assert AnyWalked(ranges, s);
        } else {
          var s :| s in store && Within(last.start, WalkLength(last), s) && store[s].bytes == b;
          assert AnyWalked(ranges, s) && unacked[s].bytes == b;
        }
      }
    }
  }

  // ---------- What a NACK emits, in order and number ----------

  /** The outstanding numbers that a walk visits, in the order of the visits. */
  function VisitedBy(unacked: map<int, ResendRecord>, start: u24, steps: nat): (numbers: seq<int>)
    ensures forall i :: 0 <= i < |numbers| ==> numbers[i] in unacked
  {
    if steps == 0 then []
    else
      var s := Wrap(start + steps - 1);
      VisitedBy(unacked, start, steps - 1) + if s in unacked then [s] else []
  }

  /** The same for all records of a list, one after another. */
  function Visited(unacked: map<int, ResendRecord>, ranges: seq<AckRange>): (numbers: seq<int>)
    ensures forall i :: 0 <= i < |numbers| ==> numbers[i] in unacked
  {
    if ranges == [] then []
    else
      var last := ranges[|ranges| - 1];
      Visited(unacked, ranges[..|ranges| - 1]) + VisitedBy(unacked, last.start, WalkLength(last))
  }

  function BytesAt(unacked: map<int, ResendRecord>, numbers: seq<int>): seq<seq<byte>>
    requires forall i :: 0 <= i < |numbers| ==> numbers[i] in unacked
  {
    seq(|numbers|, i requires 0 <= i < |numbers| => unacked[numbers[i]].bytes)
  }

  ghost predicate Ahead(start: u24, numbers: seq<int>) {
    forall i, j :: 0 <= i < j < |numbers| ==> Wrap(numbers[i] - start) < Wrap(numbers[j] - start)
  }

  lemma {:induction false} VisitedWithin(unacked: map<int, ResendRecord>, start: u24, steps: nat, s: int)
    requires steps <= 0x100_0000
    ensures s in VisitedBy(unacked, start, steps) <==> s in unacked && Within(start, steps, s)
  {
    if steps != 0 {
      VisitedWithin(unacked, start, steps - 1, s);
      WithinStep(start, steps, s);
      hide Within, Wrap;
    }
  }

  /** A record's visits are to its outstanding numbers, each once, from its start on round the circle. */
  lemma {:induction false} VisitedInOrder(unacked: map<int, ResendRecord>, start: u24, steps: nat)
    requires steps <= 0x100_0000
    ensures forall s :: s in VisitedBy(unacked, start, steps) <==> s in unacked && Within(start, steps, s)
    ensures Ahead(start, VisitedBy(unacked, start, steps))
  {
    hide Ahead, Wrap, Within;
    forall s
      ensures s in VisitedBy(unacked, start, steps) <==> s in unacked && Within(start, steps, s)
    {
      VisitedWithin(unacked, start, steps, s);
    }
    if steps == 0 {
      AheadNone(start);
    } else {
      VisitedInOrder(unacked, start, steps - 1);
      AheadAppend(start, VisitedBy(unacked, start, steps - 1), steps - 1);
      assert VisitedBy(unacked, start, steps - 1) + [] == VisitedBy(unacked, start, steps - 1);
    }
  }

  lemma AheadNone(start: u24)
    ensures Ahead(start, [])
  {
  }

  lemma AheadAppend(start: u24, numbers: seq<int>, steps: nat)
    requires steps < 0x100_0000 && Ahead(start, numbers) && forall s :: s in numbers ==> Within(start, steps, s)
    ensures Ahead(start, numbers + [Wrap(start + steps) as int])
  {
    var last := Wrap(start + steps) as int;
    WrapDifference(start + steps, start);
    assert Wrap(last - start) == steps;
    forall x | x in numbers
      ensures Wrap(x - start) < steps
    {
      assert Within(start, steps, x);
    }
    hide Wrap, Within;
    var all := numbers + [last];
    forall i, j | 0 <= i < j < |all|
      ensures Wrap(all[i] - start) < Wrap(all[j] - start)
    {
      assert numbers[i] in numbers;
    }
  }

  lemma {:induction false} WalkEmitsVisited(unacked: map<int, ResendRecord>, store: map<int, ResendRecord>, start: u24, steps: nat, now: nat)
    requires store.Keys == unacked.Keys && forall s :: s in unacked ==> store[s].bytes == unacked[s].bytes
    ensures NackWalk(store, start, steps, now).1 == BytesAt(unacked, VisitedBy(unacked, start, steps))
    ensures var after := NackWalk(store, start, steps, now).0;
            after.Keys == unacked.Keys && forall s :: s in unacked ==> after[s].bytes == unacked[s].bytes
  {
    if steps != 0 {
      WalkEmitsVisited(unacked, store, start, steps - 1, now);
      hide Wrap;
    }
  }

  /** A NACK emits the bytes of the datagrams its records visit, in the order of the visits, as often as they are visited. */
  lemma {:induction false} NackEmitsVisited(unacked: map<int, ResendRecord>, ranges: seq<AckRange>, now: nat)
    ensures NackRanges(unacked, ranges, now).1 == BytesAt(unacked, Visited(unacked, ranges))
    ensures var after := NackRanges(unacked, ranges, now).0;
            after.Keys == unacked.Keys && forall s :: s in unacked ==> after[s].bytes == unacked[s].bytes
  {
    if ranges != [] {
      var front, last := ranges[..|ranges| - 1], ranges[|ranges| - 1];
      NackEmitsVisited(unacked, front, now);
      WalkEmitsVisited(unacked, NackRanges(unacked, front, now).0, last.start, WalkLength(last), now);
      hide NackWalk, WalkLength, VisitedBy;
    }
  }

  lemma {:induction false} VisitedMembers(unacked: map<int, ResendRecord>, ranges: seq<AckRange>, s: int)
    requires s in unacked
    ensures s in Visited(unacked, ranges) <==> AnyWalked(ranges, s)
  {
    if ranges != [] {
      var last := ranges[|ranges| - 1];
      VisitedMembers(unacked, ranges[..|ranges| - 1], s);
      WalkLengthBound(last);
      VisitedInOrder(unacked, last.start, WalkLength(last));
      AnyWalkedLast(ranges, s);
      hide WalkLength, Within, AnyWalked, VisitedBy, Ahead;
    }
  }

  /**
    A NACK has exactly the outstanding datagrams sent again that its records denote if and only if it
    has no single record, or it denotes every outstanding datagram anyway.
   */
  lemma NackVisitsDenoted(e: Engine, a: Acknowledgement)
    requires Numbers24(e.unacked)
    ensures (forall s :: s in e.unacked ==> (s in Visited(e.unacked, a.ranges) <==> Denotes(a.ranges, s)))
       <==> (forall i :: 0 <= i < |a.ranges| ==> a.ranges[i].Range?) || (forall s :: s in e.unacked ==> Denotes(a.ranges, s))
  {
    forall s | s in e.unacked
      ensures s in Visited(e.unacked, a.ranges) <==> AnyWalked(a.ranges, s)
      ensures Denotes(a.ranges, s) ==> AnyWalked(a.ranges, s)
      ensures (forall i :: 0 <= i < |a.ranges| ==> a.ranges[i].Range?) && AnyWalked(a.ranges, s) ==> Denotes(a.ranges, s)
      ensures (exists i :: 0 <= i < |a.ranges| && a.ranges[i].Single?) ==> AnyWalked(a.ranges, s)
    {
      VisitedMembers(e.unacked, a.ranges, s);
      WalkedCases(a.ranges, s);
    }
    hide Visited, Denotes, AnyWalked;
  }

  /** As written, each single record of a NACK has every outstanding datagram sent again, once. */
  lemma {:induction false} EachSingleEmitsAll(e: Engine, ranges: seq<AckRange>, now: nat)
    requires Numbers24(e.unacked) && forall i :: 0 <= i < |ranges| ==> ranges[i].Single?
    ensures |OnNack(e, Acknowledgement(false, ranges), now).1| == |ranges| * |e.unacked|
  {
    NackEmitsVisited(e.unacked, ranges, now);
    VisitsPerSingle(e.unacked, ranges);
    hide NackRanges, Visited;
  }

  lemma {:induction false} VisitsPerSingle(unacked: map<int, ResendRecord>, ranges: seq<AckRange>)
    requires Numbers24(unacked) && forall i :: 0 <= i < |ranges| ==> ranges[i].Single?
    ensures |Visited(unacked, ranges)| == |ranges| * |unacked|
  {
    if ranges != [] {
      var front, last := ranges[..|ranges| - 1], ranges[|ranges| - 1];
      hide Numbers24, VisitedBy;
      VisitsPerSingle(unacked, front);
      AllVisited(unacked, last.start);
      MulStep(|ranges|, |unacked|);
      assert |Visited(unacked, ranges)| == |Visited(unacked, front)| + |VisitedBy(unacked, last.start, 0x100_0000)|;
    }
  }

  lemma AllVisited(unacked: map<int, ResendRecord>, start: u24)
    requires Numbers24(unacked)
    ensures |VisitedBy(unacked, start, 0x100_0000)| == |unacked|
  {
    var numbers := VisitedBy(unacked, start, 0x100_0000);
    VisitedInOrder(unacked, start, 0x100_0000);
    AheadDistinct(start, numbers);
    DistinctCount(numbers);
    AllWithin(start);
    hide VisitedBy, Within, Ahead;
    assert forall s :: s in numbers <==> s in unacked;
    assert (set s | s in numbers) == unacked.Keys;
  }

  lemma AllWithin(start: u24)
    ensures forall s :: 0 <= s < 0x100_0000 ==> Within(start, 0x100_0000, s)
  {
  }

  lemma AheadDistinct(start: u24, numbers: seq<int>)
    requires Ahead(start, numbers)
    ensures forall i, j :: 0 <= i < j < |numbers| ==> numbers[i] != numbers[j]
  {
  }
}
