/**
  The tick drains the pending ACKs before it encodes them, and an ACK of more
  than 65535 records cannot be encoded: exactly when the ACKs are lost.
 */
module AckLossProofs {
  import opened Basics
  import opened Datagrams
  import opened DatagramProofs
  import opened Ascending
  import opened ReceiveWindow
  import opened WindowProofs
  import opened Acks
  import opened EngineState
  import opened RetransmissionProofs
  import opened LedgerProofs
  import opened AckProofs
  import opened Session

  // ---------- How many records an ACK needs ----------

  /** Where the runs of consecutive numbers start. */
  ghost function RunStarts(numbers: set<int>): set<int> {
    set x | x in numbers && !Follows(x, numbers)
  }

  predicate Follows(x: int, numbers: set<int>) {
    x - 1 in numbers
  }

  ghost function StartsAmong(prev: int, rest: seq<int>): set<int> {
    set x | x in rest && !FollowsAmong(x, prev, rest)
  }

  predicate FollowsAmong(x: int, prev: int, rest: seq<int>) {
    x - 1 in rest || x - 1 == prev
  }

  lemma StartsStep(prev: int, rest: seq<int>)
    requires rest != [] && IsSorted([prev] + rest)
    ensures rest[0] !in StartsAmong(rest[0], rest[1..])
    ensures StartsAmong(prev, rest) == if rest[0] == prev + 1 then StartsAmong(rest[0], rest[1..])
                                       else StartsAmong(rest[0], rest[1..]) + {rest[0]}
  {
    SortedTail(prev, rest);
    var next, more := rest[0], rest[1..];
    assert rest == [next] + more;
    assert forall x :: x in rest <==> x == next || x in more;
    forall x | x in more
      ensures x > next
    {
      var i :| 0 <= i < |more| && more[i] == x;
      assert ([next] + more)[i + 1] == x && ([next] + more)[0] == next;
    }
  }

  lemma {:induction false} CoalesceFromCount(start: u24, prev: u24, rest: seq<u24>)
    requires IsSorted([prev] + rest)
    ensures |CoalesceFrom(start, prev, rest)| == 1 + |StartsAmong(prev, rest)|
    decreases |rest|
  {
    if rest == [] {
      assert StartsAmong(prev, []) == {};
    } else {
      var next: u24 := rest[0];
      SortedTail(prev, rest);
      StartsStep(prev, rest);
      hide StartsAmong, IsSorted, RangeOrSingle;
      CoalesceFromCount(if next == prev + 1 then start else next, next, rest[1..]);
    }
  }

  /** Coalescing gives one record for each run of consecutive numbers. */
  lemma CoalesceCount(numbers: seq<u24>, members: set<int>)
    requires numbers != [] && IsSorted(numbers) && forall x :: x in numbers <==> x in members
    ensures |Coalesce(numbers)| == |RunStarts(members)|
  {
    var first: u24, rest := numbers[0], numbers[1..];
    assert numbers == [first] + rest;
    CoalesceFromCount(first, first, rest);
    FirstStarts(first, rest, members);
    hide RunStarts, StartsAmong, IsSorted, CoalesceFrom;
  }

  lemma FirstStarts(first: int, rest: seq<int>, members: set<int>)
    requires IsSorted([first] + rest) && forall x :: x in [first] + rest <==> x in members
    ensures RunStarts(members) == StartsAmong(first, rest) + {first} && first !in StartsAmong(first, rest)
  {
    assert forall x :: x in [first] + rest <==> x == first || x in rest;
    forall x | x in rest
      ensures x > first
    {
      var i :| 0 <= i < |rest| && rest[i] == x;
      assert ([first] + rest)[i + 1] == x && ([first] + rest)[0] == first;
    }
    hide IsSorted;
    forall x
      ensures x in RunStarts(members) <==> x in StartsAmong(first, rest) || x == first
    {
    }
  }

  // ---------- What a tick does with the pending ACKs ----------

  /** What an engine keeps for retransmission are datagrams, as LedgerProofs shows of every run. */
  ghost predicate StoresDatagrams(e: Engine) {
    forall s :: s in e.unacked ==> Numbered(e.unacked[s].bytes, s)
  }

  /** Whether some packet is an ACK. */
  ghost predicate SendsAck(out: seq<seq<byte>>) {
    exists b :: b in out && IsAck(b)
  }

  predicate IsAck(b: seq<byte>) {
    Classify(b).Ok? && Classify(b).value.IncomingAck?
  }

  lemma EncodedClassified(a: Acknowledgement)
    ensures |a.ranges| <= 0xffff ==> |Encoded(Some(a))| == 1 && Classify(Encoded(Some(a))[0]) == Ok(if a.isAck then IncomingAck(a) else IncomingNack(a))
    ensures |a.ranges| > 0xffff ==> Encoded(Some(a)) == []
  {
    AckRoundTrip(a, []);
    hide Classify, EncodeAck;
    if EncodeAck(a).Ok? { assert EncodeAck(a).value + [] == EncodeAck(a).value; }
  }

  /** The pending ACK has a record for each run. */
  lemma PendingRecords(e: Engine)
    requires e.pendingAcks != {}
    ensures |PendingAck(e).ranges| == |RunStarts(e.pendingAcks)|
  {
    CoalesceCount(Ascending24(e.pendingAcks), e.pendingAcks);
    hide Coalesce, RunStarts;
  }

  /** What of a tick's output is an ACK. */
  lemma TickAcks(e: Engine, now: nat)
    requires e.pendingAcks != {} && StoresDatagrams(e) && IsAlive(Tick(e, now).0, now)
    ensures Tick(e, now).0.pendingAcks == {}
    ensures forall b :: b in Encoded(Some(PendingAck(e))) ==> b in Tick(e, now).1
    ensures forall b :: b in Tick(e, now).1 && IsAck(b) ==> b in Encoded(Some(PendingAck(e)))
  {
    var drained, nack := EngineState.DrainAcks(e).0, BuildNack(EngineState.DrainAcks(e).0);
    assert EngineState.DrainAcks(e) == (e.(pendingAcks := {}), Some(PendingAck(e)));
    ResendRefreshes(drained, now);
    ResendEmits(drained, now);
    NacksAreNoAcks(nack);
    hide Encoded, ResendDue, BuildNack, Coalesce, Numbers, Classify, RunStarts, IsAlive, PendingAck, Ascending24, EngineState.DrainAcks;
    forall b | b in ResendDue(drained, now).1
      ensures !IsAck(b)
    {
      var s :| s in drained.unacked && drained.unacked[s].bytes == b;
      assert Numbered(e.unacked[s].bytes, s);
    }
  }

  lemma NacksAreNoAcks(a: Option<Acknowledgement>)
    requires a.Some? ==> !a.value.isAck
    ensures forall b :: b in Encoded(a) ==> !IsAck(b)
  {
    if a.Some? {
      EncodedClassified(a.value);
      hide Encoded, Classify;
    } else {
      assert Encoded(a) == [];
    }
  }

  /**
    A tick clears the pending ACKs in any case. It sends an ACK of exactly them if and only if it finds
    the session alive and they form at most 65535 runs of consecutive numbers. Otherwise it sends none.
   */
  lemma TickSendsAcksExactly(e: Engine, now: nat)
    requires e.pendingAcks != {} && StoresDatagrams(e)
    ensures Tick(e, now).0.pendingAcks == {}
    ensures SendsAck(Tick(e, now).1) <==> IsAlive(Tick(e, now).0, now) && |RunStarts(e.pendingAcks)| <= 0xffff
    ensures SendsAck(Tick(e, now).1) ==>
              exists b, a :: b in Tick(e, now).1 && Classify(b) == Ok(IncomingAck(a)) && Numbers(a) == e.pendingAcks
  {
    hide *;
    var a := PendingAck(e);
    DeadTick(e, now);
    if IsAlive(Tick(e, now).0, now) {
      PendingRecords(e);
      TickAcks(e, now);
      EncodedClassified(a);
      ClassifiedAck(Encoded(Some(a)), Tick(e, now).1, a);
    }
  }

  lemma DeadTick(e: Engine, now: nat)
    ensures Tick(e, now).0.pendingAcks == {}
    ensures !IsAlive(Tick(e, now).0, now) ==> Tick(e, now).1 == [] && !SendsAck(Tick(e, now).1)
  {
    hide Encoded, BuildNack, Coalesce, DueBytes, UnackedKeys;
  }

  lemma ClassifiedAck(acks: seq<seq<byte>>, out: seq<seq<byte>>, a: Acknowledgement)
    requires a.isAck
    requires |a.ranges| <= 0xffff ==> |acks| == 1 && Classify(acks[0]) == Ok(IncomingAck(a))
    requires |a.ranges| > 0xffff ==> acks == []
    requires (forall b :: b in acks ==> b in out) && forall b :: b in out && IsAck(b) ==> b in acks
    ensures SendsAck(out) <==> |a.ranges| <= 0xffff
    ensures SendsAck(out) ==> exists b, a' :: b in out && Classify(b) == Ok(IncomingAck(a')) && Numbers(a') == Numbers(a)
  {
    hide Classify, Numbers;
    if |a.ranges| <= 0xffff {
      assert acks[0] in acks && IsAck(acks[0]);
    }
  }

  // ---------- A run that loses its ACKs ----------

  /** Every second number. */
  ghost function Evens(n: nat): (s: set<int>)
    ensures |s| == n && forall x :: x in s <==> 0 <= x < 2 * n && x % 2 == 0
  {
    if n == 0 then {}
    else
      NextEven(n);
      Evens(n - 1) + {2 * n - 2}
  }

  lemma NextEven(n: nat)
    requires n > 0
    ensures forall x :: 0 <= x < 2 * n && x % 2 == 0 <==> (0 <= x < 2 * (n - 1) && x % 2 == 0) || x == 2 * n - 2
  {
  }

  lemma EvensAreRuns(n: nat)
    ensures RunStarts(Evens(n)) == Evens(n)
  {
  }

  function EvenArrivals(n: nat): seq<int> {
    seq(n, i => 2 * i)
  }

  lemma EvensCounted(n: nat)
    requires n > 0
    ensures Counted(EvenArrivals(n)) == Evens(n)
  {
    var numbers := EvenArrivals(n);
    hide Evens;
    forall x
      ensures x in numbers <==> x in Evens(n)
    {
      EvenArrived(n, x);
    }
    assert numbers[0] == 0;
  }

  lemma EvenArrived(n: nat, x: int)
    ensures x in EvenArrivals(n) <==> 0 <= x < 2 * n && x % 2 == 0
  {
    var numbers := EvenArrivals(n);
    if x in numbers {
      var i :| 0 <= i < n && numbers[i] == x;
      assert x == 2 * i;
    }
    if 0 <= x < 2 * n && x % 2 == 0 {
      assert numbers[x / 2] == x;
    }
  }

  lemma EvensFollowed(n: nat)
    requires n <= 0x1_0000
    ensures Followed(EvenArrivals(n))
  {
    var numbers := EvenArrivals(n);
    forall i | 0 < i < n
      ensures InReach(numbers[i], LeastUnseen(numbers[0], Counted(numbers[..i])), Greatest(numbers[..i]))
    {
      assert numbers[..i] == EvenArrivals(i);
      EvensCounted(i);
      var low, high := LeastUnseen(0, Evens(i)), Greatest(EvenArrivals(i));
      assert 0 in Evens(i) && 1 !in Evens(i);
      assert EvenArrivals(i)[i - 1] in EvenArrivals(i);
    }
  }

  function EvenEvents(n: nat, now: nat): seq<AckProofs.Event>
    requires n <= 0x1_0000
  {
    seq(n, i requires 0 <= i < n => Arrive(2 * i, Datagram(2 * i, []), now))
  }

  lemma {:induction false} EvenRun(n: nat, now: nat)
    requires n <= 0x1_0000
    ensures var l := Run(AckProofs.Opened(now), EvenEvents(n, now));
            l.arrivals == EvenArrivals(n) && l.drained == [] && l.engine.unacked == map[] && l.engine.lastRecv == now
            && l.engine.rtt == INITIAL_RTT
  {
    if n != 0 {
      var events := EvenEvents(n, now);
      assert events[..n - 1] == EvenEvents(n - 1, now);
      EvenRun(n - 1, now);
      hide Record, AcceptFrames;
      assert EvenArrivals(n) == EvenArrivals(n - 1) + [2 * (n - 1)];
    }
  }

  lemma AllAllowed(n: nat, now: nat)
    requires n <= 0x1_0000
    ensures forall event :: event in EvenEvents(n, now) ==> AckProofs.Allowed(event)
  {
  }

  lemma PendingEvens(l: AckLog, n: nat)
    requires n > 0 && n <= 0x1_0000 && Conserved(l) && l.arrivals == EvenArrivals(n) && l.drained == []
    ensures l.engine.pendingAcks == Evens(n)
  {
    EvensCounted(n);
    hide RecordAll, Counted, Evens, Residues;
    EvenResidues(n);
    SameMembers(Pending(l), Evens(n));
  }

  lemma EvenResidues(n: nat)
    requires n <= 0x1_0000
    ensures Residues(Evens(n)) == Evens(n)
  {
    hide Evens;
    forall x | x in Evens(n)
      ensures Wrap(x) == x
    {
    }
    hide Wrap;
  }

  lemma SameMembers(a: set<int>, b: set<int>)
    requires multiset{} + multiset(a) == multiset(b)
    ensures a == b
  {
    forall x
      ensures x in a <==> x in b
    {
      assert x in multiset{} + multiset(a) <==> x in multiset(b);
    }
  }

  lemma StillAlive(e: Engine, now: nat)
    requires e.lastRecv == now && e.unacked == map[]
    ensures IsAlive(Tick(e, now).0, now) && StoresDatagrams(e)
  {
    hide Coalesce, DueBytes, UnackedKeys, BuildNack, Encoded;
  }

  /**
    A witness: an engine that has received 65536 datagrams, every second number of 0 to 131070, and
    ticks. It clears the pending ACKs and sends none.
   */
  lemma ScatteredAcksAreLost(now: nat)
    ensures var e := Run(AckProofs.Opened(now), EvenEvents(0x1_0000, now)).engine;
            e.pendingAcks == Evens(0x1_0000) && Tick(e, now).0.pendingAcks == {} && !SendsAck(Tick(e, now).1)
  {
    var events := EvenEvents(0x1_0000, now);
    var l := Run(AckProofs.Opened(now), events);
    EvenRun(0x1_0000, now);
    EvensFollowed(0x1_0000);
    AllAllowed(0x1_0000, now);
    AcknowledgedOnce(now, events);
    PendingEvens(l, 0x1_0000);
    EvensAreRuns(0x1_0000);
    StillAlive(l.engine, now);
    hide *;
    assert l.engine.pendingAcks != {};
    TickSendsAcksExactly(l.engine, now);
  }
}
