/**
  How losses are made good: what acknowledgements do to a session that receives
  them, and how one round of a NACK, or the sender's timer alone, closes every gap.
 */
module NackProofs {
  import opened Basics
  import opened Datagrams
  import opened DatagramProofs
  import opened ReceiveWindow
  import opened WindowProofs
  import opened Acks
  import opened EngineState
  import opened WalkProofs
  import opened RetransmissionProofs
  import opened LedgerProofs
  import AckProofs
  import opened AckLossProofs
  import opened TickProofs
  import opened Session

  // ---------- Acknowledgements that arrive ----------

  /**
    A NACK that arrives, whatever it lists, is answered with the bytes of the outstanding datagrams that
    its records visit, in the order of the visits and as often; nothing else changes than when these
    were last sent, and nothing is handed over.
   */
  lemma NackAnswered(e: Engine, a: Acknowledgement, now: nat)
    requires !a.isAck && |a.ranges| <= 0xffff
    ensures EncodeAck(a).Ok?
    ensures var (after, result) := HandleIncoming(e, EncodeAck(a).value, now);
            && result == Ok(Handled([], [], BytesAt(e.unacked, Visited(e.unacked, a.ranges))))
            && after == e.(unacked := after.unacked)
            && Restamped(e.unacked, s => AnyWalked(a.ranges, s), now, after.unacked)
  {
    AckRoundTrip(a, []);
    assert EncodeAck(a).value + [] == EncodeAck(a).value;
    NackEmitsVisited(e.unacked, a.ranges, now);
    NackEmitsWalked(e.unacked, a.ranges, now);
    hide EncodeAck, Classify, NackRanges, AnyWalked, Visited;
  }

  /**
    An ACK that arrives removes the outstanding datagrams that its records visit and refines the
    estimate with their ages, in the order of the visits; nothing is sent or handed over.
   */
  lemma AckTaken(e: Engine, a: Acknowledgement, now: nat)
    requires a.isAck && |a.ranges| <= 0xffff
    ensures EncodeAck(a).Ok?
    ensures HandleIncoming(e, EncodeAck(a).value, now) ==
              (e.(unacked := e.unacked - (set s | s in Visited(e.unacked, a.ranges)),
                  rtt := Folded(e.rtt, AckSamples(e.unacked, a.ranges, now))),
               Ok(Handled([], [], [])))
  {
    AckRoundTrip(a, []);
    assert EncodeAck(a).value + [] == EncodeAck(a).value;
    AckEstimates(e.unacked, e.rtt, a.ranges, now);
    hide EncodeAck, Classify, AckRanges, Visited, AckSamples, Folded;
  }

  // ---------- Datagrams that arrive ----------

  /** Numbers close enough together for the window to follow them in any order. */
  predicate Near(base: int, n: int) {
    base <= n < base + 0x7f_ffff
  }

  /** Every outstanding datagram is stored under its own number, and those numbers are near each other. */
  ghost predicate Outstanding(unacked: map<int, ResendRecord>, base: int) {
    forall s :: s in unacked ==> 0 <= s < 0x100_0000 && Numbered(unacked[s].bytes, s) && Near(base, Unwrap(base, s))
  }

  ghost function DeliverAll(e: Engine, packets: seq<seq<byte>>, now: nat): Engine {
    if packets == [] then e
    else HandleIncoming(DeliverAll(e, packets[..|packets| - 1], now), packets[|packets| - 1], now).0
  }

  /** Whatever becomes of its frames, a datagram is recorded in the window. */
  lemma HandleRecords(e: Engine, data: seq<byte>, s: u24, now: nat)
    requires Numbered(data, s)
    ensures HandleIncoming(e, data, now).0.window == Record(e.window, s).0
  {
    hide Classify, AcceptFrames, Drain, Record;
    assert Wrap(s) == s;
  }

  /** An ACK or a NACK, which the window does not look at. */
  predicate IsListing(data: seq<byte>) {
    Classify(data).Ok? && !Classify(data).value.IncomingDatagram?
  }

  lemma ListingNotRecorded(e: Engine, data: seq<byte>, now: nat)
    requires IsListing(data)
    ensures HandleIncoming(e, data, now).0.window == e.window
  {
    hide Classify, AckRanges, NackRanges;
  }

  ghost predicate StoredOrListing(unacked: map<int, ResendRecord>, b: seq<byte>) {
    IsListing(b) || exists s :: s in unacked && unacked[s].bytes == b
  }

  /** Delivering stored datagrams, and acknowledgements among them, in any order and with repetitions, records all their numbers. */
  lemma {:induction false} DeliverTracks(
    e: Engine, unacked: map<int, ResendRecord>, packets: seq<seq<byte>>, now: nat,
    base: int, start: int, seen: set<int>, low: int, high: int) returns (seen': set<int>, low': int, high': int)
    requires Outstanding(unacked, base)
    requires Tracks(e.window, start, seen, low, high) && base <= low && high < base + 0x7f_ffff
    requires forall b :: b in packets ==> StoredOrListing(unacked, b)
    ensures Tracks(DeliverAll(e, packets, now).window, start, seen', low', high')
    ensures base <= low' && high' < base + 0x7f_ffff && seen <= seen' && high <= high'
    ensures forall s :: s in unacked && unacked[s].bytes in packets && Unwrap(base, s) >= start ==> Unwrap(base, s) in seen'
  {
    if packets == [] {
      seen', low', high' := seen, low, high;
    } else {
      var front, last := packets[..|packets| - 1], packets[|packets| - 1];
      assert last in packets && forall b :: b in front ==> b in packets;
      var seen1, low1, high1 := DeliverTracks(e, unacked, front, now, base, start, seen, low, high);
      hide Tracks, Numbered, HandleIncoming, Unwrap, IsListing;
      if IsListing(last) {
        ListingNotRecorded(DeliverAll(e, front, now), last, now);
        seen', low', high' := seen1, low1, high1;
        forall s | s in unacked && unacked[s].bytes in packets && Unwrap(base, s) >= start
          ensures Unwrap(base, s) in seen'
        {
          NotListing(unacked[s].bytes, s);
        }
      } else {
        var k :| k in unacked && unacked[k].bytes == last;
        seen', low', high' := DeliverOne(DeliverAll(e, front, now), last, k, now, base, start, seen1, low1, high1);
        forall s | s in unacked && unacked[s].bytes in packets && Unwrap(base, s) >= start
          ensures Unwrap(base, s) in seen'
        {
          if unacked[s].bytes !in front { OneNumber(unacked[s].bytes, s, k); }
        }
      }
    }
  }

  lemma NotListing(bytes: seq<byte>, s: int)
    requires Numbered(bytes, s)
    ensures !IsListing(bytes)
  {
  }

  lemma DeliverOne(
    e: Engine, packet: seq<byte>, k: u24, now: nat, base: int, start: int, seen: set<int>, low: int, high: int)
    returns (seen': set<int>, low': int, high': int)
    requires Numbered(packet, k) && Near(base, Unwrap(base, k))
    requires Tracks(e.window, start, seen, low, high) && base <= low && high < base + 0x7f_ffff
    ensures Tracks(HandleIncoming(e, packet, now).0.window, start, seen', low', high')
    ensures base <= low' && high' < base + 0x7f_ffff && seen <= seen' && high <= high'
    ensures Unwrap(base, k) >= start ==> Unwrap(base, k) in seen'
  {
    var n := Unwrap(base, k);
    UnwrapResidue(base, k);
    LowBound(e.window, start, seen, low, high);
    HandleRecords(e, packet, k, now);
    hide Tracks, Numbered, Record, HandleIncoming, Unwrap;
    low' := RecordTracks(e.window, start, seen, low, high, n);
    seen', high' := if n < start then seen else seen + {n}, if n > high then n else high;
  }

  lemma LowBound(w: Window, start: int, seen: set<int>, low: int, high: int)
    requires Tracks(w, start, seen, low, high)
    ensures low <= high + 1
  {
  }

  /** Every missing number is walked over by some record of the NACK. */
  lemma MissingIsWalked(w: Window, start: int, seen: set<int>, low: int, high: int, n: int)
    requires Tracks(w, start, seen, low, high) && low <= n <= high && n !in seen
    ensures AnyWalked(Missing(w), Wrap(n))
  {
    var runs := MissingDenotes(w, start, seen, low, high);
    var i :| 0 <= i < |runs| && runs[i].0 <= n <= runs[i].1;
    assert high < low + 0x100_0000 && Records(runs)[i] == RangeOrSingle(Wrap(runs[i].0), Wrap(runs[i].1));
    RunIsWalked(runs[i].0, runs[i].1, n);
    hide *;
    WalkedSomewhere(Missing(w), i, n);
  }

  lemma RunIsWalked(a: int, b: int, n: int)
    requires a <= n <= b < a + 0x100_0000
    ensures Walked(RangeOrSingle(Wrap(a), Wrap(b)), Wrap(n))
  {
    WrapDifference(n, a);
    WrapDifference(b, a);
  }

  lemma WalkedSomewhere(ranges: seq<AckRange>, i: nat, n: int)
    requires i < |ranges| && Walked(ranges[i], Wrap(n))
    ensures AnyWalked(ranges, Wrap(n))
  {
  }

  lemma LeastPastHigh(w: Window, start: int, seen: set<int>, low: int, high: int, bound: int)
    requires Tracks(w, start, seen, low, high) && forall n :: start <= n <= bound ==> n in seen
    ensures low > bound
  {
  }

  /** Delivering stored datagrams that include every missing one leaves no number missing up to the greatest seen before. */
  lemma DeliveryCloses(
    r: Engine, unacked: map<int, ResendRecord>, packets: seq<seq<byte>>, now: nat,
    base: int, start: int, seen: set<int>, low: int, high: int) returns (seen': set<int>, low': int, high': int)
    requires Tracks(r.window, start, seen, low, high) && base <= low && high < base + 0x7f_ffff
    requires Outstanding(unacked, base) && forall b :: b in packets ==> StoredOrListing(unacked, b)
    requires forall n :: n in Unseen(seen, low, high) ==> Wrap(n) in unacked && unacked[Wrap(n)].bytes in packets
    ensures Tracks(DeliverAll(r, packets, now).window, start, seen', low', high')
    ensures seen <= seen' && high <= high' && low' > high
  {
    seen', low', high' := DeliverTracks(r, unacked, packets, now, base, start, seen, low, high);
    hide Outstanding, DeliverAll, StoredOrListing, Numbered, Wrap;
    forall n | start <= n <= high
      ensures n in seen'
    {
      if n >= low && n !in seen {
        assert n in Unseen(seen, low, high);
        UnwrapWrap(base, n);
      }
    }
    LeastPastHigh(DeliverAll(r, packets, now).window, start, seen', low', high', high);
  }

  // ---------- Recovery ----------

  /** What a session sends in answer to a packet. */
  ghost function Answer(e: Engine, data: seq<byte>, now: nat): seq<seq<byte>> {
    match HandleIncoming(e, data, now).1
    case Ok(h) => h.resent
    case Err(_) => []
  }

  predicate IsNack(b: seq<byte>) {
    Classify(b).Ok? && Classify(b).value.IncomingNack?
  }

  /** A tick of a live session with gaps, which fit one NACK, puts exactly one NACK on the wire, of its window's gaps. */
  lemma TickAsks(e: Engine, now: nat, missing: set<int>) returns (nack: seq<byte>)
    requires Lacks(e.window, missing) && missing != {} && |RunStarts(missing)| <= 0xffff
    requires IsAlive(e, now) && StoresDatagrams(e)
    ensures nack in Tick(e, now).1 && Classify(nack) == Ok(IncomingNack(Acknowledgement(false, Missing(e.window))))
    ensures forall b :: b in Tick(e, now).1 && IsNack(b) ==> b == nack
  {
    var drained := EngineState.DrainAcks(e).0;
    AckPart(e);
    MissingLists(e.window, missing);
    SomeStart(missing);
    assert BuildNack(drained) == Some(Acknowledgement(false, Missing(e.window)));
    EncodedClassified(Acknowledgement(false, Missing(e.window)));
    AckPartAlone(e);
    var numbers := ResendInOrder(drained, now);
    RefreshedBy(drained, numbers, now);
    nack := Encoded(BuildNack(drained))[0];
    StoredAreNoNacks(e, numbers);
    hide EngineState.DrainAcks, Encoded, BuildNack, ResendDue, Classify, Lists, RunStarts, Lacks, Refreshed, Missing, BytesAt, OneListing;
  }

  lemma AckPartAlone(e: Engine)
    ensures forall b :: b in Encoded(EngineState.DrainAcks(e).1) ==> !IsNack(b)
  {
    if e.pendingAcks != {} {
      var a := AckProofs.PendingAck(e);
      assert EngineState.DrainAcks(e).1 == Some(a);
      EncodedClassified(a);
      hide Encoded, Classify;
    }
  }

  lemma StoredAreNoNacks(e: Engine, numbers: seq<int>)
    requires StoresDatagrams(e) && forall i :: 0 <= i < |numbers| ==> numbers[i] in e.unacked
    ensures forall b :: b in BytesAt(e.unacked, numbers) ==> !IsNack(b)
  {
    hide Classify;
    forall i | 0 <= i < |numbers|
      ensures !IsNack(e.unacked[numbers[i]].bytes)
    {
      assert Numbered(e.unacked[numbers[i]].bytes, numbers[i]);
    }
  }

  /** Everything missing is outstanding at the sender. */
  ghost predicate AllOutstanding(unacked: map<int, ResendRecord>, missing: set<int>) {
    forall n :: n in missing ==> Wrap(n) in unacked
  }

  /**
    A receiver with gaps ticks, and its NACK crosses the wire. If every missing number is still
    outstanding at the sender, then delivering what the sender answers, in any order and with any
    repetitions, leaves no number missing up to the greatest one seen before.
   */
  lemma NackRoundClosesGaps(
    r: Engine, s: Engine, start: int, seen: set<int>, low: int, high: int, base: int,
    ticked: nat, answered: nat, delivered: nat, nack: seq<byte>, packets: seq<seq<byte>>)
    returns (seen': set<int>, low': int, high': int)
    requires Tracks(r.window, start, seen, low, high) && base <= low && high < base + 0x7f_ffff
    requires Outstanding(s.unacked, base) && AllOutstanding(s.unacked, Unseen(seen, low, high))
    requires Unseen(seen, low, high) != {} && |RunStarts(Unseen(seen, low, high))| <= 0xffff
    requires IsAlive(r, ticked) && StoresDatagrams(r)
    requires nack in Tick(r, ticked).1 && IsNack(nack)
    requires forall b :: b in packets <==> b in Answer(s, nack, answered)
    ensures HandleIncoming(s, nack, answered).1.Ok?
    ensures Tracks(DeliverAll(Tick(r, ticked).0, packets, delivered).window, start, seen', low', high')
    ensures seen <= seen' && high <= high' && low' > high
  {
    hide *;
    var missing, ranges := Unseen(seen, low, high), Missing(r.window);
    LacksUnseen(r.window, start, seen, low, high);
    var asked := TickAsks(r, ticked, missing);
    AnswerEmits(s, nack, ranges, answered);
    TickLeavesWindow(r, ticked);
    forall b | b in packets
      ensures StoredOrListing(s.unacked, b)
    {
      EmittedStored(s.unacked, ranges, Answer(s, nack, answered), b);
    }
    forall n | n in missing
      ensures Wrap(n) in s.unacked && s.unacked[Wrap(n)].bytes in packets
    {
      UnseenIs(seen, low, high, n);
      OutstandingIs(s.unacked, missing, n);
      MissingIsWalked(r.window, start, seen, low, high, n);
      WalkedEmitted(s.unacked, ranges, Answer(s, nack, answered), Wrap(n));
    }
    seen', low', high' := DeliveryCloses(Tick(r, ticked).0, s.unacked, packets, delivered, base, start, seen, low, high);
  }

  lemma UnseenIs(seen: set<int>, low: int, high: int, n: int)
    ensures n in Unseen(seen, low, high) <==> low <= n <= high && n !in seen
  {
  }

  lemma OutstandingIs(unacked: map<int, ResendRecord>, missing: set<int>, n: int)
    requires AllOutstanding(unacked, missing) && n in missing
    ensures Wrap(n) in unacked
  {
  }

  lemma EmittedStored(unacked: map<int, ResendRecord>, ranges: seq<AckRange>, out: seq<seq<byte>>, b: seq<byte>)
    requires Emits(unacked, ranges, out) && b in out
    ensures StoredOrListing(unacked, b)
  {
  }

  lemma WalkedEmitted(unacked: map<int, ResendRecord>, ranges: seq<AckRange>, out: seq<seq<byte>>, s: int)
    requires Emits(unacked, ranges, out) && s in unacked && AnyWalked(ranges, s)
    ensures unacked[s].bytes in out
  {
  }

  lemma LacksUnseen(w: Window, start: int, seen: set<int>, low: int, high: int)
    requires Tracks(w, start, seen, low, high)
    ensures Lacks(w, Unseen(seen, low, high))
  {
    hide Tracks;
  }

  lemma TickLeavesWindow(e: Engine, now: nat)
    ensures Tick(e, now).0.window == e.window
  {
    hide Encoded, BuildNack, Coalesce, DueBytes, UnackedKeys, RefreshAll;
  }

  /** `out` are the bytes of the datagrams that the records are walked over. */
  ghost predicate Emits(unacked: map<int, ResendRecord>, ranges: seq<AckRange>, out: seq<seq<byte>>) {
    BytesOf(unacked, s => AnyWalked(ranges, s), out)
  }

  lemma AnswerEmits(s: Engine, nack: seq<byte>, ranges: seq<AckRange>, now: nat)
    requires Classify(nack) == Ok(IncomingNack(Acknowledgement(false, ranges)))
    ensures HandleIncoming(s, nack, now).1.Ok? && Emits(s.unacked, ranges, Answer(s, nack, now))
  {
    NackEmitsWalked(s.unacked, ranges, now);
    hide Classify, NackRanges, AnyWalked;
  }

  /**
    The sender's timer alone: if everything missing is outstanding and overdue at a live sender, then
    delivering what its next tick puts on the wire, acknowledgements included, in any order and with
    any repetitions, leaves no number missing up to the greatest one seen before.
   */
  lemma TimerClosesGaps(
    r: Engine, s: Engine, start: int, seen: set<int>, low: int, high: int, base: int,
    ticked: nat, delivered: nat, lacked: set<int>, packets: seq<seq<byte>>)
    returns (seen': set<int>, low': int, high': int)
    requires Tracks(r.window, start, seen, low, high) && base <= low && high < base + 0x7f_ffff
    requires Outstanding(s.unacked, base) && AllOutstanding(s.unacked, Unseen(seen, low, high))
    requires forall n :: n in Unseen(seen, low, high) ==> ticked >= s.unacked[Wrap(n)].sentAt + ResendThreshold(s.rtt)
    requires Lacks(s.window, lacked) && ticked < s.lastRecv + 10_000_000_000 + 2 * s.rtt
    requires forall b :: b in packets <==> b in Tick(s, ticked).1
    ensures Tracks(DeliverAll(r, packets, delivered).window, start, seen', low', high')
    ensures seen <= seen' && high <= high' && low' > high
  {
    hide *;
    var acks, nacks, numbers := TickSendsExactly(s, ticked, lacked);
    forall b | b in packets
      ensures StoredOrListing(s.unacked, b)
    {
      PartsDeliverable(s, acks, nacks, numbers, lacked, b);
    }
    forall n | n in Unseen(seen, low, high)
      ensures Wrap(n) in s.unacked && s.unacked[Wrap(n)].bytes in packets
    {
      OutstandingIs(s.unacked, Unseen(seen, low, high), n);
      BytesIn(s.unacked, numbers, Wrap(n));
    }
    seen', low', high' := DeliveryCloses(r, s.unacked, packets, delivered, base, start, seen, low, high);
  }

  lemma BytesIn(unacked: map<int, ResendRecord>, numbers: seq<int>, s: int)
    requires s in numbers && s in unacked && forall i :: 0 <= i < |numbers| ==> numbers[i] in unacked
    ensures unacked[s].bytes in BytesAt(unacked, numbers)
  {
    var i :| 0 <= i < |numbers| && numbers[i] == s;
    assert BytesAt(unacked, numbers)[i] == unacked[s].bytes;
  }

  lemma PartsDeliverable(
    s: Engine, acks: seq<seq<byte>>, nacks: seq<seq<byte>>, numbers: seq<int>, lacked: set<int>, b: seq<byte>)
    requires OneListing(acks, true, s.pendingAcks) && OneListing(nacks, false, lacked)
    requires forall i :: 0 <= i < |numbers| ==> numbers[i] in s.unacked
    requires b in acks + nacks + BytesAt(s.unacked, numbers)
    ensures StoredOrListing(s.unacked, b)
  {
    hide Classify, Lists, RunStarts;
    if b in acks {
      assert b == acks[0];
    } else if b in nacks {
      assert b == nacks[0];
    } else {
      assert b in BytesAt(s.unacked, numbers);
      var i :| 0 <= i < |numbers| && BytesAt(s.unacked, numbers)[i] == b;
      var t := numbers[i];
      assert t in s.unacked && s.unacked[t].bytes == b;
    }
  }
}
