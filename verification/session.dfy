/**
  The order in which a connection calls its engine: for a send, for an incoming
  packet, and on every tick. The socket and the timers are left to the caller.
 */
module Session {
  import opened Basics
  import opened Datagrams
  import opened DatagramCodec
  import opened EngineState
  import opened ReliabilityEngines

  const FRAME_HEADER_MAX_OVERHEAD: nat := 20

  function MaxFrameBody(mtu: u16): nat {
    var reserved := 1 + 3 + FRAME_HEADER_MAX_OVERHEAD;
    if mtu >= reserved then mtu - reserved else 0
  }

  /** What an incoming packet gives rise to: frames for the application, and bytes to send again. */
  datatype Handled = Handled(immediate: seq<Frame>, ordered: seq<Frame>, resent: seq<seq<byte>>)

  /** A datagram whose frames fail is abandoned before the ordered queue is drained. */
  ghost function HandleIncoming(e: Engine, data: seq<byte>, now: nat): (Engine, Result<Handled>) {
    match Classify(data)
    case Err(error) => (e, Err(error))
    case Ok(IncomingAck(a)) => (OnAck(e, a, now), Ok(Handled([], [], [])))
    case Ok(IncomingNack(a)) =>
      var (after, resent) := OnNack(e, a, now);
      (after, Ok(Handled([], [], resent)))
    case Ok(IncomingDatagram(d)) =>
      var (received, immediate) := OnDatagram(e, d, now);
      if immediate.Err? then (received, Err(immediate.error))
      else
        var (after, ordered) := DrainOrdered(received);
        (after, Ok(Handled(immediate.value, ordered, [])))
  }

  function Encoded(a: Option<Acknowledgement>): seq<seq<byte>> {
    if a.None? then []
    else
      match EncodeAck(a.value)
      case Ok(bytes) => [bytes]
      case Err(_) => []
  }

  /** One tick: pending ACKs, a NACK for the gaps, and overdue datagrams; a dead session sends nothing. */
  ghost function Tick(e: Engine, now: nat): (Engine, seq<seq<byte>>) {
    var (drained, ack) := DrainAcks(e);
    var nack := BuildNack(drained);
    var (after, resent) := ResendDue(drained, now);
    (after, if IsAlive(after, now) then Encoded(ack) + Encoded(nack) + resent else [])
  }

  class Connection {
    const engine: ReliabilityEngine
    const mtu: u16
    /** Whether the tick loop is still running. It ends for good when a tick finds the session dead. */
    var ticking: bool

    constructor (mtu: u16, now: nat)
      ensures fresh(engine) && fresh(engine.recvWindow) && this.mtu == mtu && engine.State() == NewEngine(now)
      ensures ticking
    {
      engine := new ReliabilityEngine(now);
      this.mtu := mtu;
      ticking := true;
    }

    method Send(r: Reliability, body: seq<byte>, now: nat) returns (result: Result<seq<byte>>)
      modifies engine
      ensures (engine.State(), result) == PrepareSend(old(engine.State()), r, body, MaxFrameBody(mtu), now)
    {
      result := engine.Prepare(r, body, MaxFrameBody(mtu), now);
    }

    method Handle(data: seq<byte>, now: nat) returns (result: Result<Handled>)
      modifies engine, engine.recvWindow
      ensures (engine.State(), result) == HandleIncoming(old(engine.State()), data, now)
    {
      hide Classify, OnAck, OnNack, OnDatagram, DrainOrdered;
      var incoming :- ClassifyPacket(data);
      match incoming {
        case IncomingAck(a) =>
          engine.HandleAck(a, now);
          return Ok(Handled([], [], []));
        case IncomingNack(a) =>
          var resent := engine.HandleNack(a, now);
          return Ok(Handled([], [], resent));
        case IncomingDatagram(d) =>
          var immediate :- engine.Receive(d, now);
          var ordered := engine.ReleaseOrdered();
          return Ok(Handled(immediate, ordered, []));
      }
    }

    method OnTick(now: nat) returns (out: seq<seq<byte>>)
      modifies this`ticking, engine
      ensures if old(ticking) then
                (engine.State(), out) == Tick(old(engine.State()), now) && ticking == IsAlive(engine.State(), now)
              else
                engine.State() == old(engine.State()) && out == [] && !ticking
    {
      hide DrainAcks, BuildNack, ResendDue, EncodeAck, IsAlive;
      out := [];
      if !ticking {
        return;
      }
      var ack := engine.TakeAcks();
      if ack.Some? {
        var bytes := WriteAck(ack.value);
        if bytes.Ok? { out := out + [bytes.value]; }
      }
      assert out == Encoded(ack);
      var nack := engine.MakeNack();
      if nack.Some? {
        var bytes := WriteAck(nack.value);
        if bytes.Ok? { out := out + [bytes.value]; }
      }
      assert out == Encoded(ack) + Encoded(nack);
      var resent := engine.Resend(now);
      out := out + resent;
      ticking := engine.Alive(now);
      if !ticking {
        return [];
      }
    }
  }
}
