/**
  The sender's side over whole runs: what is kept for retransmission, when it is
  sent again, and how the round-trip estimate moves.
 */
module RetransmissionProofs {
  import opened Basics
  import opened Datagrams
  import opened Ascending
  import opened ReceiveWindow
  import opened Acks
  import opened EngineState
  import opened WalkProofs

  // ---------- The round-trip estimate ----------

  /** Despite the rounding, the new estimate lies between the old one and the sample. */
  lemma RttBetween(estimate: nat, sample: nat)
    ensures estimate <= sample ==> estimate <= UpdateRtt(estimate, sample) <= sample
    ensures sample <= estimate ==> sample <= UpdateRtt(estimate, sample) <= estimate
    ensures UpdateRtt(estimate, sample) == estimate <==> estimate / 8 == sample / 8
  {
  }

  function Repeated(estimate: nat, sample: nat, times: nat): nat
    decreases times
  {
    if times == 0 then estimate else Repeated(UpdateRtt(estimate, sample), sample, times - 1)
  }

  function Gap(a: nat, b: nat): nat {
    if a >= b then a - b else b - a
  }

  /** Each update takes an eighth of the gap to the sample off it, up to the seven nanoseconds lost to rounding. */
  lemma RttStep(estimate: nat, sample: nat)
    ensures 7 * Gap(estimate, sample) - 7 <= 8 * Gap(UpdateRtt(estimate, sample), sample) <= 7 * Gap(estimate, sample) + 7
  {
  }

  function Power(base: nat, n: nat): nat {
    if n == 0 then 1 else base * Power(base, n - 1)
  }

  /** So equal samples shrink the gap geometrically: what exceeds seven nanoseconds falls by 7/8 with each. */
  lemma {:induction false} RttGeometric(estimate: nat, sample: nat, times: nat)
    ensures Power(8, times) * (Gap(Repeated(estimate, sample, times), sample) - 7)
         <= Power(7, times) * (Gap(estimate, sample) - 7)
    decreases times
  {
    if times != 0 {
      var next := UpdateRtt(estimate, sample);
      RttGeometric(next, sample, times - 1);
      RttStep(estimate, sample);
      hide *;
      PowerStep(8, times);
      PowerStep(7, times);
      Scale(Power(8, times - 1), Power(7, times - 1),
            Gap(Repeated(next, sample, times - 1), sample) - 7, Gap(next, sample) - 7, Gap(estimate, sample) - 7);
      RepeatedStep(estimate, sample, times);
    }
  }

  lemma PowerStep(base: nat, n: nat)
    requires n > 0
    ensures Power(base, n) == base * Power(base, n - 1)
  {
  }

  lemma RepeatedStep(estimate: nat, sample: nat, times: nat)
    requires times > 0
    ensures Repeated(estimate, sample, times) == Repeated(UpdateRtt(estimate, sample), sample, times - 1)
  {
  }

  lemma Scale(p: nat, q: nat, last: int, next: int, first: int)
    requires p * last <= q * next && 8 * next <= 7 * first
    ensures (8 * p) * last <= (7 * q) * first
  {
    assert (8 * p) * last == 8 * (p * last);
    assert 8 * (q * next) == q * (8 * next);
    assert q * (7 * first - 8 * next) >= 0;
    assert (7 * q) * first == q * (7 * first);
  }

  /** Equal samples pull the estimate to within eight nanoseconds of them, for good. */
  lemma {:induction false} RttConverges(estimate: nat, sample: nat, times: nat)
    requires times >= Gap(estimate, sample)
    ensures Repeated(estimate, sample, times) / 8 == sample / 8
    decreases times
  {
    RttBetween(estimate, sample);
    if times != 0 {
      if estimate / 8 == sample / 8 {
        assert Gap(estimate, sample) <= 7;
        RttStays(estimate, sample, times);
      } else {
        RttConverges(UpdateRtt(estimate, sample), sample, times - 1);
      }
    }
  }

  lemma {:induction false} RttStays(estimate: nat, sample: nat, times: nat)
    requires estimate / 8 == sample / 8
    ensures Repeated(estimate, sample, times) == estimate
    decreases times
  {
    if times != 0 { RttStays(estimate, sample, times - 1); }
  }

  // ---------- The samples an ACK yields ----------

  /** The estimate after some samples, one after another. */
  function Folded(estimate: nat, samples: seq<nat>): nat {
    if samples == [] then estimate else UpdateRtt(Folded(estimate, samples[..|samples| - 1]), samples[|samples| - 1])
  }

  /** The numbers of a list, each where it stands first. */
  function FirstTimes(numbers: seq<int>): (firsts: seq<int>)
    ensures forall s :: s in firsts <==> s in numbers
  {
    if numbers == [] then []
    else
      var firsts, last := FirstTimes(numbers[..|numbers| - 1]), numbers[|numbers| - 1];
      if last in firsts then firsts else firsts + [last]
  }

  /** How long ago each of some outstanding datagrams was last sent. */
  function Ages(unacked: map<int, ResendRecord>, numbers: seq<int>, now: nat): (ages: seq<nat>)
    requires forall i :: 0 <= i < |numbers| ==> numbers[i] in unacked
    ensures |ages| == |numbers|
  {
    seq(|numbers|, i requires 0 <= i < |numbers| =>
      if now >= unacked[numbers[i]].sentAt then now - unacked[numbers[i]].sentAt else 0)
  }

  /** One sample for each outstanding datagram that the records visit: its age, at its first visit. */
  function AckSamples(unacked: map<int, ResendRecord>, ranges: seq<AckRange>, now: nat): seq<nat> {
    AgesOf(unacked, Visited(unacked, ranges), now)
  }

  /** The store and the estimate once the datagrams `numbers` have been removed. */
  ghost predicate Removed(unacked: map<int, ResendRecord>, rtt: nat, numbers: seq<int>, now: nat, left: map<int, ResendRecord>, estimate: nat) {
    && (forall s :: s in numbers ==> s in unacked)
    && left == unacked - (set s | s in numbers)
    && estimate == Folded(rtt, AgesOf(unacked, numbers, now))
  }

  function AgesOf(unacked: map<int, ResendRecord>, numbers: seq<int>, now: nat): seq<nat>
    requires forall s :: s in numbers ==> s in unacked
  {
    MembersStored(unacked, numbers, FirstTimes(numbers));
    Ages(unacked, FirstTimes(numbers), now)
  }

  lemma MembersStored(unacked: map<int, ResendRecord>, numbers: seq<int>, firsts: seq<int>)
    requires (forall s :: s in numbers ==> s in unacked) && forall s :: s in firsts <==> s in numbers
    ensures forall i :: 0 <= i < |firsts| ==> firsts[i] in unacked
  {
    forall i | 0 <= i < |firsts|
      ensures firsts[i] in unacked
    {
      var s := firsts[i];
      assert s in firsts;
    }
  }

  lemma OneMoreRemoved(unacked: map<int, ResendRecord>, rtt: nat, numbers: seq<int>, now: nat, left: map<int, ResendRecord>, estimate: nat, s: int)
    requires Removed(unacked, rtt, numbers, now, left, estimate) && s in unacked
    ensures if s in left then Removed(unacked, rtt, numbers + [s], now, left - {s}, UpdateRtt(estimate, Elapsed(now, left[s].sentAt)))
            else Removed(unacked, rtt, numbers + [s], now, left, estimate)
  {
    var more := numbers + [s];
    assert more[..|more| - 1] == numbers && more[|more| - 1] == s;
    assert (set x | x in more) == (set x | x in numbers) + {s};
    hide UpdateRtt;
    if s in left {
      var before, after := AgesOf(unacked, numbers, now), AgesOf(unacked, more, now);
      assert FirstTimes(more) == FirstTimes(numbers) + [s];
      assert after == before + [Elapsed(now, left[s].sentAt)];
      assert after[..|after| - 1] == before;
    }
  }

  lemma {:induction false} WalkEstimates(
    unacked: map<int, ResendRecord>, rtt: nat, before: seq<int>, left: map<int, ResendRecord>, estimate: nat,
    start: u24, steps: nat, now: nat)
    requires Removed(unacked, rtt, before, now, left, estimate)
    ensures var (left', estimate') := AckWalk(left, estimate, start, steps, now);
            Removed(unacked, rtt, before + VisitedBy(unacked, start, steps), now, left', estimate')
  {
    if steps == 0 {
      assert before + [] == before;
    } else {
      var s := Wrap(start + steps - 1);
      WalkEstimates(unacked, rtt, before, left, estimate, start, steps - 1, now);
      var visited := before + VisitedBy(unacked, start, steps - 1);
      var (left', estimate') := AckWalk(left, estimate, start, steps - 1, now);
      hide Removed, UpdateRtt, Wrap;
      RemovedStored(unacked, rtt, visited, now, left', estimate');
      if s in unacked {
        OneMoreRemoved(unacked, rtt, visited, now, left', estimate', s);
        assert visited + [s] == before + (VisitedBy(unacked, start, steps - 1) + [s]);
      } else {
        assert VisitedBy(unacked, start, steps - 1) + [] == VisitedBy(unacked, start, steps - 1);
      }
    }
  }

  lemma RemovedStored(unacked: map<int, ResendRecord>, rtt: nat, numbers: seq<int>, now: nat, left: map<int, ResendRecord>, estimate: nat)
    requires Removed(unacked, rtt, numbers, now, left, estimate)
    ensures forall s :: s in left ==> s in unacked
  {
  }

  /**
    An ACK removes the outstanding datagrams that its records visit, and refines the estimate with one
    sample for each, its age, in the order of the visits.
   */
  lemma {:induction false} AckEstimates(unacked: map<int, ResendRecord>, rtt: nat, ranges: seq<AckRange>, now: nat)
    ensures var (left, estimate) := AckRanges(unacked, rtt, ranges, now);
            && left == unacked - (set s | s in Visited(unacked, ranges))
            && estimate == Folded(rtt, AckSamples(unacked, ranges, now))
  {
    RangesRemove(unacked, rtt, ranges, now);
    hide AckRanges, Visited;
  }

  lemma {:induction false} RangesRemove(unacked: map<int, ResendRecord>, rtt: nat, ranges: seq<AckRange>, now: nat)
    ensures var (left, estimate) := AckRanges(unacked, rtt, ranges, now);
            Removed(unacked, rtt, Visited(unacked, ranges), now, left, estimate)
  {
    if ranges == [] {
      assert unacked - {} == unacked && (set s: int | s in []) == {};
    } else {
      var front, last := ranges[..|ranges| - 1], ranges[|ranges| - 1];
      RangesRemove(unacked, rtt, front, now);
      var (left, estimate) := AckRanges(unacked, rtt, front, now);
      hide Removed, WalkLength, AckWalk, VisitedBy;
      WalkEstimates(unacked, rtt, Visited(unacked, front), left, estimate, last.start, WalkLength(last), now);
    }
  }

  predicate AllEqual(samples: seq<nat>, sample: nat) {
    forall i :: 0 <= i < |samples| ==> samples[i] == sample
  }

  lemma {:induction false} FoldedEqual(estimate: nat, samples: seq<nat>, sample: nat)
    requires AllEqual(samples, sample)
    ensures Folded(estimate, samples) == Repeated(estimate, sample, |samples|)
  {
    hide UpdateRtt;
    if samples != [] {
      FoldedEqual(estimate, samples[..|samples| - 1], sample);
      RepeatedLast(estimate, sample, |samples|);
    }
  }

  lemma {:induction false} RepeatedLast(estimate: nat, sample: nat, times: nat)
    requires times > 0
    ensures Repeated(estimate, sample, times) == UpdateRtt(Repeated(estimate, sample, times - 1), sample)
    decreases times
  {
    hide UpdateRtt;
    if times > 1 { RepeatedLast(UpdateRtt(estimate, sample), sample, times - 1); }
  }

  lemma {:induction false} FoldedAppend(estimate: nat, first: seq<nat>, second: seq<nat>)
    ensures Folded(estimate, first + second) == Folded(Folded(estimate, first), second)
    decreases |second|
  {
    hide UpdateRtt;
    if second == [] {
      assert first + second == first;
    } else {
      var all := first + second;
      assert all[..|all| - 1] == first + second[..|second| - 1];
      FoldedAppend(estimate, first, second[..|second| - 1]);
    }
  }

  /** Enough equal samples in a row bring the estimate to their eighth. */
  lemma EqualSamplesConverge(estimate: nat, samples: seq<nat>, sample: nat)
    requires AllEqual(samples, sample) && |samples| >= Gap(estimate, sample)
    ensures Folded(estimate, samples) / 8 == sample / 8
  {
    FoldedEqual(estimate, samples, sample);
    RttConverges(estimate, sample, |samples|);
  }

  /** A range record for one outstanding datagram yields its age as the only sample. */
  lemma OneSample(unacked: map<int, ResendRecord>, s: u24, now: nat)
    requires s in unacked
    ensures AckSamples(unacked, [Range(s, s)], now) == [if now >= unacked[s].sentAt then now - unacked[s].sentAt else 0]
  {
    var ranges := [Range(s, s)];
    assert ranges[..0] == [] && WalkLength(ranges[0]) == 1 && Wrap(s) == s;
    assert VisitedBy(unacked, s, 1) == [s];
    assert Visited(unacked, ranges) == Visited(unacked, []) + [s] == [s];
    assert [s][..0] == [] && FirstTimes([s]) == [s];
  }

  predicate Between(low: nat, high: nat, samples: seq<nat>) {
    forall i :: 0 <= i < |samples| ==> low <= samples[i] <= high
  }

  lemma {:induction false} FoldedBounds(estimate: nat, samples: seq<nat>, low: nat, high: nat)
    requires low <= estimate <= high && Between(low, high, samples)
    ensures low <= Folded(estimate, samples) <= high
  {
    if samples != [] {
      var front, last := samples[..|samples| - 1], samples[|samples| - 1];
      FoldedBounds(estimate, front, low, high);
      assert low <= last <= high;
      RttBetween(Folded(estimate, front), last);
      hide UpdateRtt, Between;
    }
  }

  /** Whatever bounds the samples of an ACK and the estimate before it bounds the estimate after it. */
  lemma AckRttBounds(unacked: map<int, ResendRecord>, rtt: nat, ranges: seq<AckRange>, now: nat, low: nat, high: nat)
    requires low <= rtt <= high && Between(low, high, AckSamples(unacked, ranges, now))
    ensures low <= AckRanges(unacked, rtt, ranges, now).1 <= high
  {
    AckEstimates(unacked, rtt, ranges, now);
    FoldedBounds(rtt, AckSamples(unacked, ranges, now), low, high);
    hide AckRanges, AckSamples, Folded, Between;
  }

  // ---------- Resending ----------

  lemma {:induction false} DueBytesExact(unacked: map<int, ResendRecord>, keys: seq<int>, threshold: nat, now: nat)
    requires forall i :: 0 <= i < |keys| ==> keys[i] in unacked
    ensures forall s :: s in keys && Due(unacked[s], threshold, now) ==> unacked[s].bytes in DueBytes(unacked, keys, threshold, now)
    ensures forall b :: b in DueBytes(unacked, keys, threshold, now) ==>
              exists s :: s in keys && Due(unacked[s], threshold, now) && unacked[s].bytes == b
    ensures DueBytes(unacked, keys, threshold, now) == [] <==> forall s :: s in keys ==> !Due(unacked[s], threshold, now)
  {
    if keys != [] {
      var front, last := keys[..|keys| - 1], keys[|keys| - 1];
      DueBytesExact(unacked, front, threshold, now);
      assert forall s :: s in keys <==> s in front || s == last;
      hide Due;
      forall b | b in DueBytes(unacked, keys, threshold, now)
        ensures exists s :: s in keys && Due(unacked[s], threshold, now) && unacked[s].bytes == b
      {
        if b in DueBytes(unacked, front, threshold, now) {
          var s :| s in front && Due(unacked[s], threshold, now) && unacked[s].bytes == b;
          assert s in keys;
        } else {
          assert last in keys;
        }
      }
    }
  }

  /** The datagrams among `keys` that are due. */
  ghost function DueAmong(unacked: map<int, ResendRecord>, keys: seq<int>, threshold: nat, now: nat): set<int> {
    set s | s in unacked && s in keys && Due(unacked[s], threshold, now)
  }

  lemma {:induction false} DueBytesCount(unacked: map<int, ResendRecord>, keys: seq<int>, threshold: nat, now: nat)
    requires forall i :: 0 <= i < |keys| ==> keys[i] in unacked
    requires IsSorted(keys)
    ensures |DueBytes(unacked, keys, threshold, now)| == |DueAmong(unacked, keys, threshold, now)|
  {
    hide Due, DueAmong;
    if keys == [] {
      NoneAmong(unacked, threshold, now);
    } else {
      DueBytesCount(unacked, keys[..|keys| - 1], threshold, now);
      LastAmong(unacked, keys, threshold, now);
    }
  }

  lemma NoneAmong(unacked: map<int, ResendRecord>, threshold: nat, now: nat)
    ensures DueAmong(unacked, [], threshold, now) == {}
  {
  }

  lemma LastAmong(unacked: map<int, ResendRecord>, keys: seq<int>, threshold: nat, now: nat)
    requires keys != [] && keys[|keys| - 1] in unacked && IsSorted(keys)
    ensures var front, last := keys[..|keys| - 1], keys[|keys| - 1];
            && last !in DueAmong(unacked, front, threshold, now)
            && DueAmong(unacked, keys, threshold, now)
            == DueAmong(unacked, front, threshold, now) + if Due(unacked[last], threshold, now) then {last} else {}
  {
    hide Due;
    assert forall s :: s in keys <==> s in keys[..|keys| - 1] || s == keys[|keys| - 1];
  }

  /** The resend threshold is 80 ms or four times the estimate; an estimate of 2^62 seconds or more is taken as it is. */
  lemma ThresholdExact(rtt: nat)
    ensures ResendThreshold(rtt) ==
              if rtt < 20_000_000 then 80_000_000
              else if rtt < 0x4000_0000_0000_0000 * 1_000_000_000 then 4 * rtt
              else rtt
    ensures ResendThreshold(rtt) >= 80_000_000
  {
  }

  lemma ResendEmits(e: Engine, now: nat)
    ensures BytesOf(e.unacked, s => s in e.unacked && Elapsed(now, e.unacked[s].sentAt) >= ResendThreshold(e.rtt),
                    ResendDue(e, now).1)
  {
    hide ResendThreshold;
    DueBytesExact(e.unacked, UnackedKeys(e), ResendThreshold(e.rtt), now);
  }

  lemma {:induction false} DueInOrder(unacked: map<int, ResendRecord>, keys: seq<int>, threshold: nat, now: nat) returns (numbers: seq<int>)
    requires IsSorted(keys) && forall i :: 0 <= i < |keys| ==> keys[i] in unacked
    ensures IsSorted(numbers) && forall s :: s in numbers <==> s in keys && s in unacked && Due(unacked[s], threshold, now)
    ensures forall i :: 0 <= i < |numbers| ==> numbers[i] in unacked
    ensures DueBytes(unacked, keys, threshold, now) == BytesAt(unacked, numbers)
  {
    hide Due;
    if keys == [] {
      numbers := [];
    } else {
      var front, last := keys[..|keys| - 1], keys[|keys| - 1];
      numbers := DueInOrder(unacked, front, threshold, now);
      assert forall s :: s in keys <==> s in front || s == last;
      if Due(unacked[last], threshold, now) {
        assert keys == front + [last];
        LastGreatest(front, last);
        assert forall s :: s in numbers ==> s in front;
        GreaterLast(numbers, last);
        OneMoreBytes(unacked, numbers, last);
        hide IsSorted, BytesAt;
        numbers := numbers + [last];
      }
    }
  }

  lemma OneMoreBytes(unacked: map<int, ResendRecord>, numbers: seq<int>, last: int)
    requires last in unacked && forall i :: 0 <= i < |numbers| ==> numbers[i] in unacked
    ensures forall i :: 0 <= i <= |numbers| ==> (numbers + [last])[i] in unacked
    ensures BytesAt(unacked, numbers + [last]) == BytesAt(unacked, numbers) + [unacked[last].bytes]
  {
  }

  lemma LastGreatest(front: seq<int>, last: int)
    requires IsSorted(front + [last])
    ensures forall s :: s in front ==> s < last
  {
    forall s | s in front
      ensures s < last
    {
      var i :| 0 <= i < |front| && front[i] == s;
      assert (front + [last])[i] == s && (front + [last])[|front|] == last;
    }
  }

  /** A resend returns the overdue datagrams in ascending order of their numbers, each once. */
  lemma ResendInOrder(e: Engine, now: nat) returns (numbers: seq<int>)
    ensures IsSorted(numbers) && forall i :: 0 <= i < |numbers| ==> numbers[i] in e.unacked
    ensures forall s :: s in numbers <==> s in e.unacked && now >= e.unacked[s].sentAt + ResendThreshold(e.rtt)
    ensures ResendDue(e, now).1 == BytesAt(e.unacked, numbers)
  {
    ThresholdExact(e.rtt);
    hide ResendThreshold;
    numbers := DueInOrder(e.unacked, UnackedKeys(e), ResendThreshold(e.rtt), now);
  }

  /** The outstanding datagrams last sent at least a threshold ago. */
  ghost function Overdue(e: Engine, now: nat): set<int> {
    set s | s in e.unacked && Elapsed(now, e.unacked[s].sentAt) >= ResendThreshold(e.rtt)
  }

  lemma ResendCount(e: Engine, now: nat)
    ensures |ResendDue(e, now).1| == |Overdue(e, now)|
  {
    hide ResendThreshold, DueBytes;
    DueBytesCount(e.unacked, UnackedKeys(e), ResendThreshold(e.rtt), now);
    assert DueAmong(e.unacked, UnackedKeys(e), ResendThreshold(e.rtt), now) == Overdue(e, now);
  }

  lemma ResendRefreshes(e: Engine, now: nat)
    ensures var after := ResendDue(e, now).0;
            && after == e.(unacked := after.unacked)
            && after.unacked.Keys == e.unacked.Keys
            && forall s :: s in e.unacked ==>
                 && after.unacked[s].bytes == e.unacked[s].bytes
                 && after.unacked[s].sentAt ==
                      (if Elapsed(now, e.unacked[s].sentAt) >= ResendThreshold(e.rtt) then now else e.unacked[s].sentAt)
                 && Elapsed(now, after.unacked[s].sentAt) < ResendThreshold(e.rtt)
  {
    ThresholdExact(e.rtt);
    hide ResendThreshold, DueBytes, UnackedKeys;
  }

  lemma NoneDue(e: Engine, now: nat)
    requires forall s :: s in e.unacked ==> Elapsed(now, e.unacked[s].sentAt) < ResendThreshold(e.rtt)
    ensures ResendDue(e, now).1 == []
  {
    hide ResendThreshold;
    DueBytesExact(e.unacked, UnackedKeys(e), ResendThreshold(e.rtt), now);
  }

  /**
    A resend returns exactly the datagrams last sent at least a threshold ago, each once, and leaves
    none such: asking again at the same time returns nothing.
   */
  lemma ResendExact(e: Engine, now: nat)
    ensures var (after, out) := ResendDue(e, now);
            && BytesOf(e.unacked, s => s in e.unacked && Elapsed(now, e.unacked[s].sentAt) >= ResendThreshold(e.rtt), out)
            && |out| == |Overdue(e, now)|
            && after.unacked.Keys == e.unacked.Keys
            && (forall s :: s in e.unacked ==> Elapsed(now, after.unacked[s].sentAt) < ResendThreshold(e.rtt))
            && ResendDue(after, now).1 == []
  {
    hide *;
    ResendEmits(e, now);
    ResendCount(e, now);
    ResendRefreshes(e, now);
    NoneDue(ResendDue(e, now).0, now);
  }

  /**
    What follows from a single record being walked over the whole circle: once one datagram has been
    acknowledged on its own, neither a NACK nor the timer brings back any datagram sent before, even
    those that were lost.
   */
  lemma SingleAckStopsRecovery(e: Engine, s: u24, now: nat, nack: Acknowledgement, later: nat)
    requires Numbers24(e.unacked)
    ensures var after := OnAck(e, Acknowledgement(true, [Single(s)]), now);
            OnNack(after, nack, later).1 == [] && ResendDue(after, later).1 == []
  {
    var after := OnAck(e, Acknowledgement(true, [Single(s)]), now);
    SingleAckForgetsAll(e, s, now);
    NackEmitsWalked(after.unacked, nack.ranges, later);
    hide OnAck, ResendDue, AnyWalked, NackRanges;
    NoneDue(after, later);
    SomePacket(OnNack(after, nack, later).1);
  }

  lemma SomePacket(packets: seq<seq<byte>>)
    ensures packets == [] || exists b :: b in packets
  {
    if packets != [] { assert packets[0] in packets; }
  }
}
