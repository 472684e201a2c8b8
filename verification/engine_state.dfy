/**
  The reliability engine's state and what each of its operations does to it.
  Times are natural numbers of nanoseconds. Every operation is a function from
  the old state to the new one and the result; the class in engine.dfy performs
  them step by step.
 */
module EngineState {
  import opened Basics
  import opened Datagrams
  import opened Ascending
  import opened Splitting
  import opened Reassembly
  import opened ReceiveWindow
  import opened Acks

  const INITIAL_RTT: nat := 200_000_000
  const MIN_RESEND_INTERVAL: nat := 80_000_000
  const INACTIVITY_BASE: nat := 10_000_000_000

  /** The longest representable duration: 2^64 - 1 seconds and 999999999 nanoseconds. */
  const MAX_DURATION: nat := 0x1_0000_0000_0000_0000 * 1_000_000_000 - 1

  datatype ResendRecord = ResendRecord(bytes: seq<byte>, sentAt: nat, resends: u32)

  datatype Engine = Engine(
    nextDatagram: u24,
    nextMessage: u24,
    nextOrder: u24,
    nextSequence: u24,
    unacked: map<int, ResendRecord>,
    window: Window,
    pendingAcks: set<u24>,
    orderQueue: map<int, Frame>,
    nextDelivery: u24,
    reassemblers: map<int, (Parts, Frame)>,
    rtt: nat,
    lastRecv: nat)

  function NewEngine(now: nat): Engine {
    Engine(0, 0, 0, 0, map[], NEW_WINDOW, {}, map[], 0, map[], INITIAL_RTT, now)
  }

  function Elapsed(now: nat, since: nat): nat {
    if now >= since then now - since else 0
  }

  // ---------- Sending ----------

  /** The frame for `body`, with the next index of each kind that the reliability carries. */
  function NextFrame(e: Engine, r: Reliability, body: seq<byte>): Frame {
    Frame(r,
          if r.IsReliable() then Some(e.nextMessage) else None,
          if r.IsSequenced() then Some(e.nextSequence) else None,
          if r.IsOrdered() then Some(e.nextOrder) else None,
          0, None, body)
  }

  function TakeIndices(e: Engine, r: Reliability): Engine {
    e.(nextMessage := if r.IsReliable() then Wrap(e.nextMessage + 1) else e.nextMessage,
       nextSequence := if r.IsSequenced() then Wrap(e.nextSequence + 1) else e.nextSequence,
       nextOrder := if r.IsOrdered() then Wrap(e.nextOrder + 1) else e.nextOrder)
  }

  function SplitId(nextDatagram: u24): u16 {
    (nextDatagram % 0x1_0000 + 1) % 0x1_0000
  }

  /** A send that fails has already used up its indices, and past the split its datagram number. */
  function PrepareSend(e: Engine, r: Reliability, body: seq<byte>, max: nat, now: nat): (Engine, Result<seq<byte>>) {
    var indexed := TakeIndices(e, r);
    match SplitInto(NextFrame(e, r, body), max, SplitId(e.nextDatagram))
    case Err(error) => (indexed, Err(error))
    case Ok(fragments) =>
      var numbered := indexed.(nextDatagram := Wrap(e.nextDatagram + 1));
      match EncodeDatagram(Datagram(e.nextDatagram, fragments))
      case Err(error) => (numbered, Err(error))
      case Ok(bytes) =>
        (numbered.(unacked := e.unacked[e.nextDatagram := ResendRecord(bytes, now, 0)]), Ok(bytes))
  }

  // ---------- Receiving ----------

  /** The receive side while a datagram's frames are processed. */
  datatype Inbox = Inbox(
    reassemblers: map<int, (Parts, Frame)>,
    queue: map<int, Frame>,
    delivered: seq<Frame>,
    failed: Option<Error>)

  function Route(i: Inbox, f: Frame): Inbox {
    if f.reliability.IsOrdered() && f.orderIndex.Some? then i.(queue := i.queue[f.orderIndex.value := f])
    else i.(delivered := i.delivered + [f])
  }

  ghost function AcceptFrame(i: Inbox, f: Frame): Inbox {
    if f.split.None? then Route(i, f)
    else
      var id := f.split.value.id;
      var (parts, template) := if id in i.reassemblers then i.reassemblers[id] else (NO_PARTS, f.Template());
      var taken := i.(reassemblers := i.reassemblers - {id});
      var (parts', added) := AddPart(parts, f.split.value, f.body);
      match added
      case Err(error) => taken.(failed := Some(error))
      case Ok(Some(body)) => Route(taken, template.WithBody(body))
      case Ok(None) => i.(reassemblers := i.reassemblers[id := (parts', template)])
  }

  ghost function AcceptFrames(i: Inbox, frames: seq<Frame>): Inbox {
    if frames == [] then i
    else
      var before := AcceptFrames(i, frames[..|frames| - 1]);
      if before.failed.Some? then before else AcceptFrame(before, frames[|frames| - 1])
  }

  lemma AcceptPrefix(i: Inbox, frames: seq<Frame>, n: nat)
    requires 0 < n <= |frames|
    ensures var before := AcceptFrames(i, frames[..n - 1]);
            AcceptFrames(i, frames[..n]) == if before.failed.Some? then before else AcceptFrame(before, frames[n - 1])
    ensures AcceptFrames(i, frames[..n]).failed.Some? ==> AcceptFrames(i, frames) == AcceptFrames(i, frames[..n])
  {
    assert frames[..n][..n - 1] == frames[..n - 1];
    if AcceptFrames(i, frames[..n]).failed.Some? { FailureStays(i, frames, n); }
  }

  lemma {:induction false} FailureStays(i: Inbox, frames: seq<Frame>, n: nat)
    requires n <= |frames| && AcceptFrames(i, frames[..n]).failed.Some?
    ensures AcceptFrames(i, frames) == AcceptFrames(i, frames[..n])
    decreases |frames|
  {
    if n < |frames| {
      var front := frames[..|frames| - 1];
      assert front[..n] == frames[..n];
      FailureStays(i, front, n);
    } else {
      assert frames[..n] == frames;
    }
  }

  function Arrived(e: Engine, number: u32, now: nat): Engine {
    var seqno := Wrap(number);
    var (window, isNew) := Record(e.window, seqno);
    e.(lastRecv := now, window := window, pendingAcks := if isNew then e.pendingAcks + {seqno} else e.pendingAcks)
  }

  ghost function OnDatagram(e: Engine, d: Datagram, now: nat): (Engine, Result<seq<Frame>>) {
    var inbox := AcceptFrames(Inbox(e.reassemblers, e.orderQueue, [], None), d.frames);
    var after := Arrived(e, d.sequenceNumber, now).(reassemblers := inbox.reassemblers, orderQueue := inbox.queue);
    (after, if inbox.failed.Some? then Err(inbox.failed.value) else Ok(inbox.delivered))
  }

  /** Releases the run of queued frames that starts at `next`. */
  function Drain(queue: map<int, Frame>, next: u24): (map<int, Frame>, u24, seq<Frame>)
    decreases |queue|
  {
    if next in queue then
      SmallerQueue(queue, next);
      var (left, next', frames) := Drain(queue - {next}, Wrap(next + 1));
      (left, next', [queue[next]] + frames)
    else (queue, next, [])
  }

  lemma SmallerQueue(queue: map<int, Frame>, key: int)
    requires key in queue
    ensures |queue - {key}| < |queue|
  {
    assert (queue - {key}).Keys == queue.Keys - {key};
    assert |(queue - {key}).Keys| == |queue.Keys| - 1;
  }

  function DrainOrdered(e: Engine): (Engine, seq<Frame>) {
    var (left, next, frames) := Drain(e.orderQueue, e.nextDelivery);
    (e.(orderQueue := left, nextDelivery := next), frames)
  }

  // ---------- Acknowledgements received ----------

  /** An eighth of the sample replaces an eighth of the old estimate, each rounded down. */
  function UpdateRtt(estimate: nat, sample: nat): nat {
    estimate - estimate / 8 + sample / 8
  }

  /** The store after the first `steps` steps of a walk from `start`, with the estimate refined on the way. */
  function AckWalk(unacked: map<int, ResendRecord>, rtt: nat, start: u24, steps: nat, now: nat): (map<int, ResendRecord>, nat) {
    if steps == 0 then (unacked, rtt)
    else
      var (left, rtt') := AckWalk(unacked, rtt, start, steps - 1, now);
      var s := Wrap(start + steps - 1);
      if s in left then (left - {s}, UpdateRtt(rtt', Elapsed(now, left[s].sentAt))) else (left, rtt')
  }

  function AckRanges(unacked: map<int, ResendRecord>, rtt: nat, ranges: seq<AckRange>, now: nat): (map<int, ResendRecord>, nat) {
    if ranges == [] then (unacked, rtt)
    else
      var (left, rtt') := AckRanges(unacked, rtt, ranges[..|ranges| - 1], now);
      var last := ranges[|ranges| - 1];
      AckWalk(left, rtt', last.start, WalkLength(last), now)
  }

  function OnAck(e: Engine, a: Acknowledgement, now: nat): Engine {
    var (unacked, rtt) := AckRanges(e.unacked, e.rtt, a.ranges, now);
    e.(unacked := unacked, rtt := rtt)
  }

  function NackWalk(unacked: map<int, ResendRecord>, start: u24, steps: nat, now: nat): (map<int, ResendRecord>, seq<seq<byte>>) {
    if steps == 0 then (unacked, [])
    else
      var (store, out) := NackWalk(unacked, start, steps - 1, now);
      var s := Wrap(start + steps - 1);
      if s in store then (store[s := store[s].(sentAt := now)], out + [store[s].bytes]) else (store, out)
  }

  function NackRanges(unacked: map<int, ResendRecord>, ranges: seq<AckRange>, now: nat): (map<int, ResendRecord>, seq<seq<byte>>) {
    if ranges == [] then (unacked, [])
    else
      var (store, out) := NackRanges(unacked, ranges[..|ranges| - 1], now);
      var last := ranges[|ranges| - 1];
      var (store', more) := NackWalk(store, last.start, WalkLength(last), now);
      (store', out + more)
  }

  function OnNack(e: Engine, a: Acknowledgement, now: nat): (Engine, seq<seq<byte>>) {
    var (unacked, out) := NackRanges(e.unacked, a.ranges, now);
    (e.(unacked := unacked), out)
  }

  // ---------- Acknowledgements and resends to send ----------

  ghost function Ascending24(s: set<u24>): (q: seq<u24>)
    ensures q == Sorted(s)
  {
    var q := Sorted(s);
    assert forall i :: 0 <= i < |q| ==> q[i] in q;
    q
  }

  ghost function DrainAcks(e: Engine): (Engine, Option<Acknowledgement>) {
    if e.pendingAcks == {} then (e, None)
    else (e.(pendingAcks := {}), Some(Acknowledgement(true, Coalesce(Ascending24(e.pendingAcks)))))
  }

  function BuildNack(e: Engine): Option<Acknowledgement> {
    var ranges := Missing(e.window);
    if ranges == [] then None else Some(Acknowledgement(false, ranges))
  }

  /** Four times the estimate, unless that is too long to represent, and never less than the floor. */
  function ResendThreshold(rtt: nat): nat {
    var wanted := if rtt * 4 > MAX_DURATION then rtt else rtt * 4;
    if wanted < MIN_RESEND_INTERVAL then MIN_RESEND_INTERVAL else wanted
  }

  predicate Due(record: ResendRecord, threshold: nat, now: nat) {
    Elapsed(now, record.sentAt) >= threshold
  }

  function Refresh(record: ResendRecord, threshold: nat, now: nat): ResendRecord {
    if Due(record, threshold, now) then
      record.(sentAt := now, resends := if record.resends == 0xffff_ffff then 0xffff_ffff else record.resends + 1)
    else record
  }

  function RefreshAll(unacked: map<int, ResendRecord>, threshold: nat, now: nat): map<int, ResendRecord> {
    map s | s in unacked :: Refresh(unacked[s], threshold, now)
  }

  function DueBytes(unacked: map<int, ResendRecord>, keys: seq<int>, threshold: nat, now: nat): seq<seq<byte>>
    requires forall i :: 0 <= i < |keys| ==> keys[i] in unacked
  {
    if keys == [] then []
    else
      var record := unacked[keys[|keys| - 1]];
      DueBytes(unacked, keys[..|keys| - 1], threshold, now) + if Due(record, threshold, now) then [record.bytes] else []
  }

  ghost function UnackedKeys(e: Engine): (keys: seq<int>)
    ensures forall i :: 0 <= i < |keys| ==> keys[i] in e.unacked
    ensures forall s :: s in e.unacked ==> s in keys
    ensures IsSorted(keys)
  {
    var keys := Sorted(e.unacked.Keys);
    assert forall i :: 0 <= i < |keys| ==> keys[i] in keys;
    keys
  }

  ghost function ResendDue(e: Engine, now: nat): (Engine, seq<seq<byte>>) {
    var threshold := ResendThreshold(e.rtt);
    (e.(unacked := RefreshAll(e.unacked, threshold, now)),
     DueBytes(e.unacked, UnackedKeys(e), threshold, now))
  }

  predicate IsAlive(e: Engine, now: nat) {
    Elapsed(now, e.lastRecv) < INACTIVITY_BASE + e.rtt * 2
  }
}
