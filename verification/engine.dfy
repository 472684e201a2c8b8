/**
  The reliability engine as the program runs it: one object whose methods update
  its fields in place. Each method is proved to have exactly the effect that
  EngineState gives it.
 */
module ReliabilityEngines {
  import opened Basics
  import opened Datagrams
  import opened DatagramCodec
  import opened Ascending
  import opened Splitting
  import opened Reassembly
  import opened ReceiveWindow
  import opened Acks
  import opened EngineState

  class ReliabilityEngine {
    var nextDatagram: u24
    var nextMessage: u24
    var nextOrder: u24
    var nextSequence: u24
    var unacked: map<int, ResendRecord>
    const recvWindow: DatagramWindow
    var pendingAcks: set<u24>
    var orderQueue: map<int, Frame>
    var nextDelivery: u24
    /** Reassemblers are owned by the map, so they are kept as the values they hold. */
    var reassemblers: map<int, (Parts, Frame)>
    var rtt: nat
    var lastRecv: nat

    function State(): Engine
      reads this, recvWindow
    {
      Engine(nextDatagram, nextMessage, nextOrder, nextSequence, unacked, recvWindow.Contents(), pendingAcks,
             orderQueue, nextDelivery, reassemblers, rtt, lastRecv)
    }

    constructor (now: nat)
      ensures fresh(recvWindow) && State() == NewEngine(now)
    {
      nextDatagram, nextMessage, nextOrder, nextSequence := 0, 0, 0, 0;
      unacked := map[];
      recvWindow := new DatagramWindow();
      pendingAcks := {};
      orderQueue, nextDelivery := map[], 0;
      reassemblers := map[];
      rtt, lastRecv := INITIAL_RTT, now;
    }

    /** A frame with the indices its reliability calls for. */
    method TakeFrameIndices(r: Reliability, body: seq<byte>) returns (template: Frame)
      modifies this`nextMessage, this`nextSequence, this`nextOrder
      ensures template == NextFrame(old(State()), r, body) && State() == TakeIndices(old(State()), r)
    {
      template := Frame(r, None, None, None, 0, None, body);
      if r.IsReliable() {
        template := template.WithReliableIndex(nextMessage);
        nextMessage := Wrap(nextMessage + 1);
      }
      if r.IsSequenced() {
        template := template.WithSequenceIndex(nextSequence);
        nextSequence := Wrap(nextSequence + 1);
      }
      if r.IsOrdered() {
        template := template.WithOrder(nextOrder, 0);
        nextOrder := Wrap(nextOrder + 1);
      }
    }

    method Prepare(r: Reliability, body: seq<byte>, max: nat, now: nat) returns (result: Result<seq<byte>>)
      modifies this
      ensures (State(), result) == PrepareSend(old(State()), r, body, max, now)
    {
      hide SplitInto, EncodeDatagram, NextFrame;
      var template := TakeFrameIndices(r, body);
      var fragments :- Split(template, max, SplitId(nextDatagram));
      var seqno := nextDatagram;
      nextDatagram := Wrap(nextDatagram + 1);
      var bytes :- WriteDatagram(Datagram(seqno, fragments));
      unacked := unacked[seqno := ResendRecord(bytes, now, 0)];
      return Ok(bytes);
    }

    method RouteFrame(f: Frame, delivered: seq<Frame>) returns (delivered': seq<Frame>)
      modifies this`orderQueue
      ensures Inbox(reassemblers, orderQueue, delivered', None) == Route(Inbox(reassemblers, old(orderQueue), delivered, None), f)
    {
      if f.reliability.IsOrdered() {
        if f.orderIndex.Some? {
          orderQueue := orderQueue[f.orderIndex.value := f];
          return delivered;
        }
      }
      return delivered + [f];
    }

    method Accept(f: Frame, delivered: seq<Frame>) returns (result: Result<seq<Frame>>)
      modifies this`orderQueue, this`reassemblers
      ensures var i := AcceptFrame(Inbox(old(reassemblers), old(orderQueue), delivered, None), f);
              && reassemblers == i.reassemblers && orderQueue == i.queue
              && result == if i.failed.Some? then Err(i.failed.value) else Ok(i.delivered)
    {
      if f.split.Some? {
        var key := f.split.value.id;
        var parts, template := NO_PARTS, f.Template();
        if key in reassemblers {
          parts, template := reassemblers[key].0, reassemblers[key].1;
        }
        var reassembler := new Reassembler.From(parts);
        reassemblers := reassemblers - {key};
        var assembled :- reassembler.Add(f.split.value, f.body);
        if assembled.Some? {
          var full := template.WithBody(assembled.value);
          var delivered' := RouteFrame(full, delivered);
          return Ok(delivered');
        }
        reassemblers := reassemblers[key := (Parts(reassembler.fragments, reassembler.count), template)];
        assert reassemblers == old(reassemblers)[key := (reassembler.Contents(), template)];
        return Ok(delivered);
      }
      var delivered' := RouteFrame(f, delivered);
      return Ok(delivered');
    }

    method Receive(d: Datagram, now: nat) returns (result: Result<seq<Frame>>)
      modifies this, recvWindow
      ensures (State(), result) == OnDatagram(old(State()), d, now)
    {
      lastRecv := now;
      var seqno := Wrap(d.sequenceNumber);
      var isNew := recvWindow.RecordArrival(seqno);
      if isNew {
        pendingAcks := pendingAcks + {seqno};
      }
      assert State() == Arrived(old(State()), d.sequenceNumber, now);
      hide Arrived, AcceptFrames;
      result := AcceptAll(d.frames);
    }

    method AcceptAll(frames: seq<Frame>) returns (result: Result<seq<Frame>>)
      modifies this`orderQueue, this`reassemblers
      ensures var i := AcceptFrames(Inbox(old(reassemblers), old(orderQueue), [], None), frames);
              && reassemblers == i.reassemblers && orderQueue == i.queue
              && result == if i.failed.Some? then Err(i.failed.value) else Ok(i.delivered)
    {
      ghost var start := Inbox(reassemblers, orderQueue, [], None);
      var delivered := [];
      for i := 0 to |frames|
        invariant AcceptFrames(start, frames[..i]) == Inbox(reassemblers, orderQueue, delivered, None)
      {
        AcceptPrefix(start, frames, i + 1);
        hide AcceptFrame;
        delivered :- Accept(frames[i], delivered);
      }
      assert frames[..|frames|] == frames;
      return Ok(delivered);
    }

    method ReleaseOrdered() returns (out: seq<Frame>)
      modifies this
      ensures (State(), out) == DrainOrdered(old(State()))
    {
      out := [];
      ghost var all := Drain(orderQueue, nextDelivery);
      assert [] + all.2 == all.2;
      hide Drain;
      while nextDelivery in orderQueue
        invariant var (left, next, rest) := Drain(orderQueue, nextDelivery); all == (left, next, out + rest)
        invariant State().(orderQueue := all.0, nextDelivery := all.1) == old(State()).(orderQueue := all.0, nextDelivery := all.1)
        decreases |orderQueue|
      {
        var frame := orderQueue[nextDelivery];
        DrainOne(orderQueue, nextDelivery, out);
        SmallerQueue(orderQueue, nextDelivery);
        orderQueue := orderQueue - {nextDelivery};
        nextDelivery := Wrap(nextDelivery + 1);
        out := out + [frame];
      }
      DrainNone(orderQueue, nextDelivery);
      assert out + [] == out;
    }

    method UpdateEstimate(sample: nat)
      modifies this`rtt
      ensures rtt == UpdateRtt(old(rtt), sample)
    {
      var eighth := sample / 8;
      var sevenEighths := rtt - rtt / 8;
      rtt := sevenEighths + eighth;
    }

    /** Removes what one record is walked over, refining the estimate with each removed datagram's age. */
    method WalkAck(range: AckRange, now: nat)
      modifies this`unacked, this`rtt
      ensures (unacked, rtt) == AckWalk(old(unacked), old(rtt), range.start, WalkLength(range), now)
    {
      ghost var steps := 0;
      var seqno: u24, done := range.start, false;
      while !done
        invariant steps <= WalkLength(range)
        invariant (unacked, rtt) == AckWalk(old(unacked), old(rtt), range.start, steps, now)
        invariant if done then steps == WalkLength(range) else steps < WalkLength(range) && seqno == Wrap(range.start + steps)
        decreases !done, WalkLength(range) - steps
      {
        if seqno in unacked {
          var sample := Elapsed(now, unacked[seqno].sentAt);
          unacked := unacked - {seqno};
          UpdateEstimate(sample);
        }
        WalkEnds(range, steps);
        WrapNext(range.start + steps);
        steps := steps + 1;
        if range.Range? && range.end == seqno {
          done := true;
        } else {
          seqno := Wrap(seqno + 1);
          done := seqno == range.start;
        }
      }
    }

    method HandleAck(a: Acknowledgement, now: nat)
      modifies this
      ensures State() == OnAck(old(State()), a, now)
    {
      for i := 0 to |a.ranges|
        invariant (unacked, rtt) == AckRanges(old(unacked), old(rtt), a.ranges[..i], now)
        invariant State() == old(State()).(unacked := unacked, rtt := rtt)
      {
        assert a.ranges[..i + 1][..i] == a.ranges[..i];
        WalkAck(a.ranges[i], now);
      }
      assert a.ranges[..|a.ranges|] == a.ranges;
    }

    /** Collects the bytes of what one record is walked over, marking each as sent now. */
    method WalkNack(range: AckRange, now: nat) returns (out: seq<seq<byte>>)
      modifies this`unacked
      ensures (unacked, out) == NackWalk(old(unacked), range.start, WalkLength(range), now)
    {
      ghost var steps := 0;
      var seqno: u24, done := range.start, false;
      out := [];
      while !done
        invariant steps <= WalkLength(range)
        invariant (unacked, out) == NackWalk(old(unacked), range.start, steps, now)
        invariant if done then steps == WalkLength(range) else steps < WalkLength(range) && seqno == Wrap(range.start + steps)
        decreases !done, WalkLength(range) - steps
      {
        if seqno in unacked {
          var record := unacked[seqno];
          unacked := unacked[seqno := record.(sentAt := now)];
          out := out + [record.bytes];
        }
        WalkEnds(range, steps);
        WrapNext(range.start + steps);
        steps := steps + 1;
        if range.Range? && range.end == seqno {
          done := true;
        } else {
          seqno := Wrap(seqno + 1);
          done := seqno == range.start;
        }
      }
    }

    method HandleNack(a: Acknowledgement, now: nat) returns (out: seq<seq<byte>>)
      modifies this
      ensures (State(), out) == OnNack(old(State()), a, now)
    {
      out := [];
      for i := 0 to |a.ranges|
        invariant (unacked, out) == NackRanges(old(unacked), a.ranges[..i], now)
        invariant State() == old(State()).(unacked := unacked)
      {
        assert a.ranges[..i + 1][..i] == a.ranges[..i];
        var more := WalkNack(a.ranges[i], now);
        out := out + more;
      }
      assert a.ranges[..|a.ranges|] == a.ranges;
    }

    method TakeAcks() returns (ack: Option<Acknowledgement>)
      modifies this
      ensures (State(), ack) == DrainAcks(old(State()))
    {
      if pendingAcks == {} {
        return None;
      }
      hide Coalesce, Sorted;
      var seqs := InOrder(pendingAcks);
      assert forall i :: 0 <= i < |seqs| ==> seqs[i] in seqs;
      assert seqs == Ascending24(pendingAcks);
      pendingAcks := {};
      var ranges := CoalesceRanges(seqs);
      SomeRecords(seqs);
      if ranges == [] {
        return None;
      }
      return Some(Acknowledgement(true, ranges));
    }

    method MakeNack() returns (nack: Option<Acknowledgement>)
      ensures nack == BuildNack(State())
    {
      var ranges := recvWindow.MissingRanges();
      if ranges == [] {
        return None;
      }
      return Some(Acknowledgement(false, ranges));
    }

    method ResendOne(key: int, threshold: nat, now: nat) returns (due: seq<seq<byte>>)
      requires key in unacked
      modifies this`unacked
      ensures unacked == old(unacked)[key := Refresh(old(unacked[key]), threshold, now)]
      ensures due == if Due(old(unacked[key]), threshold, now) then [old(unacked[key]).bytes] else []
    {
      var record := unacked[key];
      if Elapsed(now, record.sentAt) >= threshold {
        var resends := if record.resends == 0xffff_ffff then 0xffff_ffff else record.resends + 1;
        unacked := unacked[key := record.(sentAt := now, resends := resends)];
        return [record.bytes];
      }
      return [];
    }

    method ResendKeys(keys: seq<int>, threshold: nat, now: nat) returns (out: seq<seq<byte>>)
      requires IsSorted(keys) && forall i :: 0 <= i < |keys| ==> keys[i] in unacked
      modifies this`unacked
      ensures unacked == RefreshKeys(old(unacked), keys, threshold, now)
      ensures out == DueBytes(old(unacked), keys, threshold, now)
    {
      out := [];
      for i := 0 to |keys|
        invariant unacked == RefreshKeys(old(unacked), keys[..i], threshold, now)
        invariant out == DueBytes(old(unacked), keys[..i], threshold, now)
      {
        RefreshedKeys(old(unacked), keys, i, threshold, now);
        var due := ResendOne(keys[i], threshold, now);
        out := out + due;
      }
      assert keys[..|keys|] == keys;
    }

    method Resend(now: nat) returns (out: seq<seq<byte>>)
      modifies this
      ensures (State(), out) == ResendDue(old(State()), now)
    {
      var threshold := if rtt * 4 > MAX_DURATION then rtt else rtt * 4;
      if threshold < MIN_RESEND_INTERVAL {
        threshold := MIN_RESEND_INTERVAL;
      }
      var keys := InOrder(unacked.Keys);
      assert keys == UnackedKeys(State());
      AllRefreshed(unacked, keys, threshold, now);
      hide RefreshKeys, RefreshAll, DueBytes;
      out := ResendKeys(keys, threshold, now);
    }

    method Alive(now: nat) returns (alive: bool)
      ensures alive == IsAlive(State(), now)
    {
      var timeout := INACTIVITY_BASE + rtt * 2;
      return Elapsed(now, lastRecv) < timeout;
    }
  }

  lemma SomeRecords(numbers: seq<u24>)
    requires IsSorted(numbers)
    ensures Coalesce(numbers) == [] <==> numbers == []
  {
    hide Coalesce, Separated, Denotes;
    CoalesceExact(numbers);
  }

  lemma DrainOne(queue: map<int, Frame>, next: u24, out: seq<Frame>)
    requires next in queue
    ensures var (left, next', rest) := Drain(queue - {next}, Wrap(next + 1));
            && Drain(queue, next) == (left, next', [queue[next]] + rest)
            && out + ([queue[next]] + rest) == (out + [queue[next]]) + rest
  {
  }

  lemma DrainNone(queue: map<int, Frame>, next: u24)
    requires next !in queue
    ensures Drain(queue, next) == (queue, next, [])
  {
  }

  /** The loop's two exits together end a walk exactly after its length. */
  lemma WalkEnds(r: AckRange, steps: nat)
    requires steps < WalkLength(r)
    ensures var seqno := Wrap(r.start + steps);
            var stops := (r.Range? && r.end == seqno) || Wrap(r.start + steps + 1) == r.start;
            stops <==> steps + 1 == WalkLength(r)
  {
    WrapOnce(r.start, steps + 1);
    if r.Range? {
      WalkReaches(r.start, r.end, steps);
    }
    hide Wrap;
  }

  lemma WrapOnce(start: u24, steps: nat)
    requires 0 < steps <= 0x100_0000
    ensures Wrap(start + steps) == start <==> steps == 0x100_0000
  {
  }

  lemma WalkReaches(start: u24, end: u24, steps: nat)
    requires steps < 0x100_0000
    ensures Wrap(start + steps) == end <==> steps == Wrap(end - start)
  {
  }

  /** The store after the records of `keys` have been looked at in turn. */
  function RefreshKeys(unacked: map<int, ResendRecord>, keys: seq<int>, threshold: nat, now: nat): map<int, ResendRecord>
    requires forall i :: 0 <= i < |keys| ==> keys[i] in unacked
  {
    if keys == [] then unacked
    else
      var last := keys[|keys| - 1];
      RefreshKeys(unacked, keys[..|keys| - 1], threshold, now)[last := Refresh(unacked[last], threshold, now)]
  }

  lemma {:induction false} RefreshedAt(unacked: map<int, ResendRecord>, keys: seq<int>, threshold: nat, now: nat)
    requires forall i :: 0 <= i < |keys| ==> keys[i] in unacked
    ensures var m := RefreshKeys(unacked, keys, threshold, now);
            && m.Keys == unacked.Keys
            && forall s :: s in unacked ==> m[s] == if s in keys then Refresh(unacked[s], threshold, now) else unacked[s]
  {
    if keys != [] {
      RefreshedAt(unacked, keys[..|keys| - 1], threshold, now);
      assert forall s :: s in keys <==> s in keys[..|keys| - 1] || s == keys[|keys| - 1];
    }
  }

  lemma RefreshedKeys(unacked: map<int, ResendRecord>, keys: seq<int>, i: nat, threshold: nat, now: nat)
    requires i < |keys| && IsSorted(keys) && forall j :: 0 <= j < |keys| ==> keys[j] in unacked
    ensures keys[..i + 1][..i] == keys[..i]
    ensures var m := RefreshKeys(unacked, keys[..i], threshold, now);
            && keys[i] in m && m[keys[i]] == unacked[keys[i]]
            && RefreshKeys(unacked, keys[..i + 1], threshold, now) == m[keys[i] := Refresh(unacked[keys[i]], threshold, now)]
    ensures DueBytes(unacked, keys[..i + 1], threshold, now)
         == DueBytes(unacked, keys[..i], threshold, now)
            + if Due(unacked[keys[i]], threshold, now) then [unacked[keys[i]].bytes] else []
  {
    assert keys[..i + 1][..i] == keys[..i];
    RefreshedAt(unacked, keys[..i], threshold, now);
  }

  lemma AllRefreshed(unacked: map<int, ResendRecord>, keys: seq<int>, threshold: nat, now: nat)
    requires forall i :: 0 <= i < |keys| ==> keys[i] in unacked
    requires forall s :: s in unacked ==> s in keys
    ensures RefreshKeys(unacked, keys, threshold, now) == RefreshAll(unacked, threshold, now)
  {
    hide Refresh;
    RefreshedAt(unacked, keys, threshold, now);
    var m, n := RefreshKeys(unacked, keys, threshold, now), RefreshAll(unacked, threshold, now);
    assert m.Keys == n.Keys;
    assert forall s :: s in unacked ==> m[s] == n[s];
  }
}
