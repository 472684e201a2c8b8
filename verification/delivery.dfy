/**
  Two endpoints joined by a network that may lose, repeat, delay and reorder
  whatever either has ever sent, and what each then delivers.
 */
module Delivery {
  import opened Basics
  import opened Datagrams
  import opened EngineState
  import opened Session

  /**
    What was submitted to an endpoint: the ordered frames in order, those among them whose sends
    failed, and the frames that are not ordered.
   */
  datatype History = History(ordered: seq<Frame>, lost: set<int>, unordered: set<Frame>)

  /**
    An endpoint's engine with what was submitted to it, every packet it has put on the wire, the
    order indices that have reached it, what it has released in order and handed over at once, and
    whether it has refused a datagram.
   */
  datatype Endpoint = Endpoint(
    engine: Engine,
    sent: History,
    emitted: set<seq<byte>>,
    arrived: set<int>,
    released: seq<Frame>,
    immediate: seq<Frame>,
    refused: bool)

  /** A tick that finds the session dead sends nothing; runs may go on ticking, which the program would not. */
  datatype Action =
    | Submit(r: Reliability, body: seq<byte>, max: nat)
    | Arrive(data: seq<byte>)
    | Tick

  function Open(now: nat): Endpoint {
    Endpoint(NewEngine(now), History([], {}, {}), {}, {}, [], [], false)
  }

  /** The order indices of the frames in a packet. */
  function OrderIndices(data: seq<byte>): set<int> {
    match Classify(data)
    case Ok(IncomingDatagram(d)) =>
      set i | 0 <= i < |d.frames| && d.frames[i].orderIndex.Some? :: d.frames[i].orderIndex.value
    case _ => {}
  }

  function Append(h: History, f: Frame, succeeded: bool): History {
    if !f.reliability.IsOrdered() then h.(unordered := h.unordered + {f})
    else h.(ordered := h.ordered + [f], lost := if succeeded then h.lost else h.lost + {|h.ordered|})
  }

  ghost function Act(p: Endpoint, action: Action, now: nat): Endpoint {
    match action
    case Submit(r, body, max) =>
      var f := NextFrame(p.engine, r, body);
      var (after, result) := PrepareSend(p.engine, r, body, max, now);
      p.(engine := after,
         sent := Append(p.sent, f, result.Ok?),
         emitted := if result.Ok? then p.emitted + {result.value} else p.emitted)
    case Arrive(data) =>
      var (after, result) := HandleIncoming(p.engine, data, now);
      var known := p.(engine := after, arrived := p.arrived + OrderIndices(data));
      if result.Err? then known.(refused := true)
      else
        known.(released := p.released + result.value.ordered,
               immediate := p.immediate + result.value.immediate,
               emitted := p.emitted + (set b | b in result.value.resent))
    case Tick =>
      var (after, out) := Session.Tick(p.engine, now);
      p.(engine := after, emitted := p.emitted + (set b | b in out))
  }

  /** Anything the other side has ever sent can arrive, at any time and any number of times. */
  predicate Possible(other: Endpoint, action: Action) {
    match action
    case Submit(_, _, max) => max <= 0xffff_ffff
    case Arrive(data) => data in other.emitted
    case Tick => true
  }

  datatype World = World(left: Endpoint, right: Endpoint)

  datatype Step = Step(atLeft: bool, action: Action, now: nat)

  ghost function Next(w: World, step: Step): World {
    if step.atLeft then w.(left := Act(w.left, step.action, step.now)) else w.(right := Act(w.right, step.action, step.now))
  }

  predicate Enabled(w: World, step: Step) {
    Possible(if step.atLeft then w.right else w.left, step.action)
  }

  ghost predicate Leads(w: World, steps: seq<Step>, w': World)
    decreases |steps|
  {
    if steps == [] then w == w'
    else Enabled(w, steps[0]) && Leads(Next(w, steps[0]), steps[1..], w')
  }

  /**
    What `to` has delivered of what was submitted to `from`: in order, a prefix, which ends exactly
    at the least order index that has not arrived, and so never passes a frame whose send failed; at
    once, only unordered frames that were submitted. Nothing was refused and nothing is half
    reassembled.
   */
  ghost predicate Delivered(from: Endpoint, to: Endpoint) {
    && to.released <= from.sent.ordered
    && (forall i :: 0 <= i < |to.released| ==> i in to.arrived)
    && |to.released| !in to.arrived
    && (forall i :: i in from.sent.lost ==> |to.released| <= i)
    && (forall f :: f in to.immediate ==> f in from.sent.unordered)
    && !to.refused && to.engine.reassemblers == map[]
  }
}
