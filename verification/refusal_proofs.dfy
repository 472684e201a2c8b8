/**
  What a session does with packets and fragments that it cannot use: what is kept
  of them, what is lost, and that what was queued is only delayed.
 */
module RefusalProofs {
  import opened Basics
  import opened Datagrams
  import opened Reassembly
  import opened ReceiveWindow
  import opened EngineState
  import opened Session

  // ---------- Packets ----------

  /** A packet that cannot be read changes nothing at all. */
  lemma UnreadableIgnored(e: Engine, data: seq<byte>, now: nat)
    requires Classify(data).Err?
    ensures HandleIncoming(e, data, now) == (e, Err(Classify(data).error))
  {
    hide Classify;
  }

  function Received(e: Engine): Inbox {
    Inbox(e.reassemblers, e.orderQueue, [], None)
  }

  /** The frame numbered `k` is the first of a datagram to fail. */
  ghost predicate FailsAt(e: Engine, d: Datagram, k: nat) {
    && k < |d.frames| && AcceptFrames(Received(e), d.frames[..k]).failed.None?
    && AcceptFrame(AcceptFrames(Received(e), d.frames[..k]), d.frames[k]).failed.Some?
  }

  /** Only fragments fail, and only their group is lost. */
  lemma FailureLosesGroup(i: Inbox, f: Frame)
    requires AcceptFrame(i, f).failed.Some? && i.failed.None?
    ensures f.split.Some?
    ensures AcceptFrame(i, f) == i.(reassemblers := i.reassemblers - {f.split.value.id as int}, failed := AcceptFrame(i, f).failed)
  {
    hide AddPart;
  }

  /**
    A datagram with a failing frame: everything is as if it had ended before that frame, except that
    the frame's group is lost. The frames before it that were to be handed over at once are lost too,
    and nothing is released.
   */
  lemma RefusedDatagram(e: Engine, data: seq<byte>, d: Datagram, k: nat, now: nat)
    requires Classify(data) == Ok(IncomingDatagram(d)) && FailsAt(e, d, k)
    ensures d.frames[k].split.Some? && HandleIncoming(e, data, now).1.Err?
    ensures var (kept, result) := OnDatagram(e, Datagram(d.sequenceNumber, d.frames[..k]), now);
            && result.Ok?
            && HandleIncoming(e, data, now).0 == kept.(reassemblers := kept.reassemblers - {d.frames[k].split.value.id as int})
  {
    hide Classify, AcceptFrame, Arrived;
    var before := AcceptFrames(Received(e), d.frames[..k]);
    FailureLosesGroup(before, d.frames[k]);
    AcceptPrefix(Received(e), d.frames, k + 1);
    assert d.frames[..k + 1][..k] == d.frames[..k];
  }

  /** What a refused datagram has queued is released with the next one that is not refused, as it would have been at once. */
  lemma ReleaseIsDelayed(e: Engine, data: seq<byte>, d: Datagram, k: nat, now: nat, next: seq<byte>, number: u32, later: nat)
    requires Classify(data) == Ok(IncomingDatagram(d)) && FailsAt(e, d, k)
    requires Classify(next) == Ok(IncomingDatagram(Datagram(number, [])))
    ensures var refused := HandleIncoming(e, data, now).0;
            var would := DrainOrdered(OnDatagram(e, Datagram(d.sequenceNumber, d.frames[..k]), now).0);
            && HandleIncoming(refused, next, later).1 == Ok(Handled([], would.1, []))
            && HandleIncoming(refused, next, later).0.orderQueue == would.0.orderQueue
            && HandleIncoming(refused, next, later).0.nextDelivery == would.0.nextDelivery
  {
    RefusedDatagram(e, data, d, k, now);
    var refused := HandleIncoming(e, data, now).0;
    EmptyDatagram(refused, number, later);
    hide Classify, OnDatagram, Drain, FailsAt;
  }

  lemma EmptyDatagram(e: Engine, number: u32, now: nat)
    ensures var (after, result) := OnDatagram(e, Datagram(number, []), now);
            result == Ok([]) && after.orderQueue == e.orderQueue && after.nextDelivery == e.nextDelivery
  {
    hide Record;
  }

  /** A packet is refused exactly if it cannot be read, or is a datagram of which some frame fails. */
  lemma RefusedExactly(e: Engine, data: seq<byte>, now: nat)
    ensures HandleIncoming(e, data, now).1.Err? <==>
              || Classify(data).Err?
              || (Classify(data).value.IncomingDatagram? && exists k :: FailsAt(e, Classify(data).value.d, k))
  {
    hide AcceptFrame, Arrived;
    if Classify(data).Ok? && Classify(data).value.IncomingDatagram? {
      var d := Classify(data).value.d;
      if AcceptFrames(Received(e), d.frames).failed.Some? {
        assert d.frames[..|d.frames|] == d.frames;
        var k := FirstFailure(e, d, |d.frames|);
      }
      if k :| FailsAt(e, d, k) {
        RefusedDatagram(e, data, d, k, now);
      }
    }
    hide Classify, AcceptFrames, FailsAt;
  }

  lemma {:induction false} FirstFailure(e: Engine, d: Datagram, n: nat) returns (k: nat)
    requires 0 < n <= |d.frames| && AcceptFrames(Received(e), d.frames[..n]).failed.Some?
    ensures FailsAt(e, d, k)
    decreases n
  {
    hide AcceptFrame;
    AcceptPrefix(Received(e), d.frames, n);
    assert n == 1 ==> d.frames[..n - 1] == [];
    if n > 1 && AcceptFrames(Received(e), d.frames[..n - 1]).failed.Some? {
      k := FirstFailure(e, d, n - 1);
    } else {
      k := n - 1;
    }
  }

  // ---------- Fragments ----------

  /** Exactly which fragments a reassembler refuses, and why; a refused one changes nothing in it. */
  lemma AddRefusedExactly(p: Parts, split: SplitInfo, body: seq<byte>)
    ensures var (after, result) := AddPart(p, split, body);
            var inRange, known := split.index < split.count, split.index in p.fragments;
            var mismatch := p.fragments != map[] && p.count != split.count;
            && (result == Err(ZeroSplitCount) <==> split.count == 0)
            && (result == Err(SplitIndexOutOfRange) <==> split.count != 0 && !inRange)
            && (result == Err(DuplicateFragment) <==> inRange && known)
            && (result == Err(SplitCountMismatch) <==> inRange && !known && mismatch)
            && (result.Ok? <==> inRange && !known && !mismatch)
            && (result.Err? ==> after == p)
  {
    hide JoinInOrder;
  }

  /** A fragment is known by its place, its count and its body: nothing else of it matters. */
  predicate SameFragment(f: Frame, g: Frame) {
    f.split.Some? && f.split == g.split && f.body == g.body
  }

  /** Every fragment but the first finds its group begun and not completed. */
  ghost predicate OneGroup(i: Inbox, frames: seq<Frame>, id: int) {
    && (forall k :: 0 <= k < |frames| ==> frames[k].split.Some? && frames[k].split.value.id == id)
    && forall k :: 0 < k < |frames| ==> AcceptFrames(i, frames[..k]).failed.None? && id in AcceptFrames(i, frames[..k]).reassemblers
  }

  /**
    The header of a reassembled frame is that of the fragment that came first: the other fragments'
    reliability, indices and channel make no difference.
   */
  lemma {:induction false} LaterHeadersIgnored(i: Inbox, frames: seq<Frame>, others: seq<Frame>, id: int)
    requires OneGroup(i, frames, id) && |frames| == |others|
    requires forall k :: 0 <= k < |frames| ==> SameFragment(frames[k], others[k]) && (k == 0 ==> frames[k] == others[k])
    ensures AcceptFrames(i, frames) == AcceptFrames(i, others)
  {
    hide AcceptFrame;
    if |frames| <= 1 {
      assert frames == others;
    } else {
      var n := |frames| - 1;
      ShorterGroup(i, frames, id, n);
      LaterHeadersIgnored(i, frames[..n], others[..n], id);
      HeaderIgnored(AcceptFrames(i, frames[..n]), frames[n], others[n]);
    }
  }

  lemma ShorterGroup(i: Inbox, frames: seq<Frame>, id: int, n: nat)
    requires OneGroup(i, frames, id) && n <= |frames|
    ensures OneGroup(i, frames[..n], id)
  {
    hide AcceptFrames;
    forall k | 0 < k < n
      ensures frames[..n][..k] == frames[..k]
    {
    }
  }

  lemma HeaderIgnored(i: Inbox, f: Frame, g: Frame)
    requires SameFragment(f, g) && f.split.value.id in i.reassemblers
    ensures AcceptFrame(i, f) == AcceptFrame(i, g)
  {
    hide AddPart;
  }
}
