/**
  Which numbers a send's frames carry, over every run: each kind of index counts
  the sends that call for it, failed ones included, and the datagram's number
  counts those that could be divided into frames.
 */
module IndexProofs {
  import opened Basics
  import opened Datagrams
  import opened Splitting
  import opened Reassembly
  import opened ReceiveWindow
  import opened Acks
  import opened EngineState
  import opened RetransmissionProofs
  import opened SendProofs
  import opened LedgerProofs
  import opened LayoutProofs
  import opened ReleaseOrderProofs

  // ---------- Counting the sends of a run ----------

  function OneIf(b: bool): nat {
    if b then 1 else 0
  }

  /** A payload can be divided into frames: the budget is not zero, and 32 bits can count the pieces. */
  predicate Divides(body: seq<byte>, max: nat) {
    0 < max && (|body| <= max || PieceCount(|body|, max) < 0x1_0000_0000)
  }

  // One for an event that is a send of the kind, none for any other.

  function MessageOne(event: Event): nat {
    OneIf(event.Send? && HasMessageIndex(event.r))
  }

  function SequencedOne(event: Event): nat {
    OneIf(event.Send? && HasSequenceIndex(event.r))
  }

  function OrderedOne(event: Event): nat {
    OneIf(event.Send? && HasOrderIndex(event.r))
  }

  function DividedOne(event: Event): nat {
    OneIf(event.Send? && Divides(event.body, event.max))
  }

  function MessageSends(events: seq<Event>): nat {
    if events == [] then 0 else MessageOne(events[0]) + MessageSends(events[1..])
  }

  function SequencedSends(events: seq<Event>): nat {
    if events == [] then 0 else SequencedOne(events[0]) + SequencedSends(events[1..])
  }

  function OrderedSends(events: seq<Event>): nat {
    if events == [] then 0 else OrderedOne(events[0]) + OrderedSends(events[1..])
  }

  function DividedSends(events: seq<Event>): nat {
    if events == [] then 0 else DividedOne(events[0]) + DividedSends(events[1..])
  }

  lemma SendCounts(e: Engine, r: Reliability, body: seq<byte>, max: nat, now: nat)
    ensures Moves(e, PrepareSend(e, r, body, max, now).0,
                  OneIf(HasMessageIndex(r)), OneIf(HasSequenceIndex(r)), OneIf(HasOrderIndex(r)), OneIf(Divides(body, max)))
  {
    NextFrameFields(e, r, body);
    hide PieceCount, EncodeDatagram, Fragments, NextFrame;
  }

  lemma OthersCount(l: Ledger, event: Event)
    requires !event.Send?
    ensures var e, after := l.engine, Apply(l, event).engine;
            && after.nextMessage == e.nextMessage && after.nextSequence == e.nextSequence
            && after.nextOrder == e.nextOrder && after.nextDatagram == e.nextDatagram
  {
    hide AckRanges, NackRanges, DueBytes, UnackedKeys, RefreshAll, AcceptFrames, Record, EngineState.Drain, Coalesce, AckSamples, Retried;
  }

  /** How far each counter is moved by one event. */
  ghost predicate Moves(e: Engine, after: Engine, message: nat, sequence: nat, order: nat, datagram: nat) {
    && after.nextMessage == Wrap(e.nextMessage + message) && after.nextSequence == Wrap(e.nextSequence + sequence)
    && after.nextOrder == Wrap(e.nextOrder + order) && after.nextDatagram == Wrap(e.nextDatagram + datagram)
  }

  lemma NoMove(e: Engine, after: Engine)
    requires after.nextMessage == e.nextMessage && after.nextSequence == e.nextSequence
    requires after.nextOrder == e.nextOrder && after.nextDatagram == e.nextDatagram
    ensures Moves(e, after, 0, 0, 0, 0)
  {
  }

  lemma ApplySend(l: Ledger, event: Event)
    requires event.Send?
    ensures Apply(l, event).engine == PrepareSend(l.engine, event.r, event.body, event.max, event.now).0
  {
    hide PrepareSend;
  }

  lemma OneEventCounts(l: Ledger, event: Event)
    ensures Moves(l.engine, Apply(l, event).engine, MessageOne(event), SequencedOne(event), OrderedOne(event), DividedOne(event))
  {
    hide Apply, PrepareSend, Divides, Wrap;
    if event.Send? {
      ApplySend(l, event);
      SendCounts(l.engine, event.r, event.body, event.max, event.now);
    } else {
      OthersCount(l, event);
      NoMove(l.engine, Apply(l, event).engine);
    }
  }

  lemma MovesOn(e: Engine, mid: Engine, after: Engine, m: nat, s: nat, o: nat, d: nat, m': nat, s': nat, o': nat, d': nat)
    requires Moves(e, mid, m, s, o, d) && Moves(mid, after, m', s', o', d')
    ensures Moves(e, after, m + m', s + s', o + o', d + d')
  {
    WrapMore(e.nextMessage, m, m');
    WrapMore(e.nextSequence, s, s');
    WrapMore(e.nextOrder, o, o');
    WrapMore(e.nextDatagram, d, d');
    hide Wrap;
  }

  lemma WrapMore(x: int, y: int, z: int)
    ensures Wrap(Wrap(x + y) + z) == Wrap(x + (y + z))
  {
    var turns := (x + y) / 0x100_0000;
    assert x + y == turns * 0x100_0000 + Wrap(x + y);
  }

  lemma {:induction false} RunCounts(l: Ledger, events: seq<Event>, l': Ledger)
    requires Reaches(l, events, l')
    ensures Moves(l.engine, l'.engine, MessageSends(events), SequencedSends(events), OrderedSends(events), DividedSends(events))
    decreases |events|
  {
    hide Apply, Moves, HasMessageIndex, HasSequenceIndex, HasOrderIndex, Divides;
    if events == [] {
      NoMove(l.engine, l'.engine);
    } else {
      var event, rest := events[0], events[1..];
      OneEventCounts(l, event);
      RunCounts(Apply(l, event), rest, l');
      MovesOn(l.engine, Apply(l, event).engine, l'.engine,
        MessageOne(event), SequencedOne(event), OrderedOne(event), DividedOne(event),
        MessageSends(rest), SequencedSends(rest), OrderedSends(rest), DividedSends(rest));
    }
  }

  // ---------- What one send carries ----------

  /** The number of an index that is called for. */
  function IndexNumber(called: bool, number: nat): Option<u32> {
    if called then Some(number % 0x100_0000) else None
  }

  /** The frames of one send: all with the same indices, and the payload in pieces as large as the budget allows. */
  ghost predicate OneSend(
    frames: seq<Frame>, r: Reliability, body: seq<byte>, max: nat, message: nat, sequence: nat, order: nat, id: nat)
  {
    && frames != [] && Bodies(frames) == body
    && forall i :: 0 <= i < |frames| ==>
         && frames[i].reliability == r && frames[i].orderChannel == 0
         && frames[i].reliableIndex == IndexNumber(HasMessageIndex(r), message)
         && frames[i].sequenceIndex == IndexNumber(HasSequenceIndex(r), sequence)
         && frames[i].orderIndex == IndexNumber(HasOrderIndex(r), order)
         && |frames[i].body| <= max && (i < |frames| - 1 ==> |frames[i].body| == max)
         && if |body| <= max then |frames| == 1 && frames[i].split == None
            else |frames| < 0x1_0000_0000 && frames[i].split == Some(SplitInfo(|frames|, id % 0x1_0000, i))
  }

  lemma PieceIsFull(length: nat, max: nat, i: nat)
    requires max > 0 && i < PieceCount(length, max)
    ensures PieceStart(length, max, i + 1) - PieceStart(length, max, i) <= max
    ensures i + 1 < PieceCount(length, max) ==> PieceStart(length, max, i + 1) - PieceStart(length, max, i) == max
  {
    var count := PieceCount(length, max);
    assert (i + 1) * max == i * max + max;
    MulMonotone(i, count - 1, max);
    MulMonotone(i + 1, count - 1, max);
  }

  lemma SplitFrames(f: Frame, max: nat, id: u16, frames: seq<Frame>)
    requires f.split.None? && SplitInto(f, max, id) == Ok(frames)
    ensures frames != [] && Bodies(frames) == f.body
    ensures forall i :: 0 <= i < |frames| ==>
              && frames[i].Template() == f.Template()
              && |frames[i].body| <= max && (i < |frames| - 1 ==> |frames[i].body| == max)
              && if |f.body| <= max then |frames| == 1 && frames[i].split == None
                 else |frames| < 0x1_0000_0000 && frames[i].split == Some(SplitInfo(|frames|, id, i))
  {
    PiecesCarryFrame(f, max, id, frames);
    SplitShape(f, max, id);
    if |f.body| > max {
      var g := Group(f, max, id);
      GroupCount(g);
      hide PieceCount, SplitInto, PieceStart, Bodies;
      forall i | 0 <= i < |frames|
        ensures frames[i] == g.At(i) && |frames[i].body| <= max && (i < |frames| - 1 ==> |frames[i].body| == max)
      {
        PieceIsFull(|f.body|, max, i);
        PieceStartStep(|f.body|, max, i);
      }
    } else {
      hide Bodies;
    }
  }

  lemma NextFrameNumbers(e: Engine, r: Reliability, body: seq<byte>, message: nat, sequence: nat, order: nat)
    requires e.nextMessage == Wrap(message) && e.nextSequence == Wrap(sequence) && e.nextOrder == Wrap(order)
    ensures var f := NextFrame(e, r, body);
            && f.reliability == r && f.orderChannel == 0 && f.split.None? && f.body == body
            && f.reliableIndex == IndexNumber(HasMessageIndex(r), message)
            && f.sequenceIndex == IndexNumber(HasSequenceIndex(r), sequence)
            && f.orderIndex == IndexNumber(HasOrderIndex(r), order)
  {
  }

  lemma SplitIdIs(number: nat)
    ensures SplitId(Wrap(number)) == (number + 1) % 0x1_0000
  {
    var turns := number / 0x100_0000;
    assert number == turns * 0x100_0000 + Wrap(number);
    assert Wrap(number) % 0x1_0000 == number % 0x1_0000;
  }

  lemma SentOneSend(
    e: Engine, r: Reliability, body: seq<byte>, max: nat, now: nat, message: nat, sequence: nat, order: nat, number: nat)
    returns (frames: seq<Frame>)
    requires e.nextMessage == Wrap(message) && e.nextSequence == Wrap(sequence) && e.nextOrder == Wrap(order)
    requires e.nextDatagram == Wrap(number)
    requires max <= 0xffff_ffff && PrepareSend(e, r, body, max, now).1.Ok?
    ensures OneSend(frames, r, body, max, message, sequence, order, number + 1)
    ensures Classify(PrepareSend(e, r, body, max, now).1.value) == Ok(IncomingDatagram(Datagram(Wrap(number), frames)))
  {
    SentDecodes(e, r, body, max, now);
    frames := SentFrames(e, r, body, max).value;
    NextFrameNumbers(e, r, body, message, sequence, order);
    SplitIdIs(number);
    SplitFrames(NextFrame(e, r, body), max, SplitId(e.nextDatagram), frames);
    hide Classify, PrepareSend, SplitInto, NextFrame, Bodies, IndexNumber, Wrap, SplitId;
    forall i | 0 <= i < |frames|
      ensures frames[i].Template() == NextFrame(e, r, body).Template()
    {
    }
  }

  /**
    Over every run of an engine, failed sends included: a successful send's bytes are classified as a
    datagram whose number counts the earlier sends that could be divided into frames; all its frames
    carry, of each kind of index that its reliability calls for, the number of earlier sends that
    called for one, all modulo 2^24; the pieces carry their count, their place, and as their group's
    id the datagram's number and one more, modulo 2^16; and joined they are the payload.
   */
  lemma SendCarries(now: nat, before: seq<Event>, l: Ledger, r: Reliability, body: seq<byte>, max: nat, later: nat)
    returns (frames: seq<Frame>)
    requires Reaches(Opened(now), before, l) && max <= 0xffff_ffff && PrepareSend(l.engine, r, body, max, later).1.Ok?
    ensures Classify(PrepareSend(l.engine, r, body, max, later).1.value)
         == Ok(IncomingDatagram(Datagram(DividedSends(before) % 0x100_0000, frames)))
    ensures OneSend(frames, r, body, max, MessageSends(before), SequencedSends(before), OrderedSends(before), DividedSends(before) + 1)
  {
    hide *;
    RunCounts(Opened(now), before, l);
    FreshCounts(now, l.engine, MessageSends(before), SequencedSends(before), OrderedSends(before), DividedSends(before));
    frames := SentOneSend(l.engine, r, body, max, later, MessageSends(before), SequencedSends(before), OrderedSends(before), DividedSends(before));
    WrapIs(DividedSends(before));
  }

  lemma WrapIs(x: nat)
    ensures Wrap(x) == x % 0x100_0000
  {
  }

  lemma FreshCounts(now: nat, after: Engine, m: nat, s: nat, o: nat, d: nat)
    requires Moves(Opened(now).engine, after, m, s, o, d)
    ensures after.nextMessage == Wrap(m) && after.nextSequence == Wrap(s) && after.nextOrder == Wrap(o) && after.nextDatagram == Wrap(d)
  {
    hide Wrap;
  }

  // ---------- Refused sends ----------

  lemma {:induction false} FramesError(frames: seq<Frame>)
    requires forall f :: f in frames ==> EncodeFrame(f).Ok? || EncodeFrame(f) == Err(BodyTooLarge)
    ensures EncodeFrames(frames).Err? ==> EncodeFrames(frames) == Err(BodyTooLarge)
  {
    hide EncodeFrame;
    if frames != [] { FramesError(frames[1..]); }
  }

  lemma PieceRefused(f: Frame, e: Engine, r: Reliability, body: seq<byte>)
    requires f.Template() == NextFrame(e, r, body).Template()
    ensures EncodeFrame(f).Ok? || EncodeFrame(f) == Err(BodyTooLarge)
  {
    NextFrameFields(e, r, body);
    FrameRefusedExactly(f);
    hide EncodeFrame;
  }

  /** Exactly when a send is refused, and with which error. */
  lemma SendRefusedExactly(e: Engine, r: Reliability, body: seq<byte>, max: nat, now: nat)
    requires max <= 0xffff_ffff
    ensures var result := PrepareSend(e, r, body, max, now).1;
            && (result == Err(ZeroBudget) <==> max == 0)
            && (result == Err(TooManyFragments) <==> max > 0 && !Divides(body, max))
            && (result == Err(BodyTooLarge) <==> Divides(body, max) && (if |body| <= max then |body| else max) > 8191)
            && (result.Ok? <==> Divides(body, max) && (if |body| <= max then |body| else max) <= 8191)
  {
    SendSucceedsExactly(e, r, body, max, now);
    var f, id := NextFrame(e, r, body), SplitId(e.nextDatagram);
    NextFrameFields(e, r, body);
    if max > 0 && SplitInto(f, max, id).Ok? {
      var frames := SplitInto(f, max, id).value;
      SplitFrames(f, max, id, frames);
      forall g | g in frames
        ensures EncodeFrame(g).Ok? || EncodeFrame(g) == Err(BodyTooLarge)
      {
        PieceRefused(g, e, r, body);
      }
      FramesError(frames);
    }
    hide EncodeFrames, EncodeFrame, Fragments, NextFrame, PieceCount, SplitId;
  }
}
