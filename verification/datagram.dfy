/**
  The connected-layer wire format: frames, datagrams and ACK/NACK packets, as
  byte sequences. Bit masks on the flag bytes are written as the division and
  remainder that they compute on values below 256.
 */
module Datagrams {
  import opened Basics

  const FLAG_DATAGRAM: byte := 0x80
  const FLAG_ACK: byte := 0xc0
  const FLAG_NACK: byte := 0xa0

  /** The two top bits are set. */
  predicate HasAckBits(flag: byte) {
    flag >= 0xc0
  }

  predicate HasNackBit(flag: byte) {
    flag / 0x20 % 2 == 1
  }

  predicate HasDatagramBit(flag: byte) {
    flag >= 0x80
  }

  // ---------- Frames ----------

  datatype Reliability = Unreliable | UnreliableSequenced | Reliable | ReliableOrdered | ReliableSequenced
  {
    function AsRaw(): byte {
      match this
      case Unreliable => 0
      case UnreliableSequenced => 1
      case Reliable => 2
      case ReliableOrdered => 3
      case ReliableSequenced => 4
    }

    predicate IsReliable() {
      Reliable? || ReliableOrdered? || ReliableSequenced?
    }

    predicate IsSequenced() {
      UnreliableSequenced? || ReliableSequenced?
    }

    predicate IsOrdered() {
      UnreliableSequenced? || ReliableOrdered? || ReliableSequenced?
    }

    /** Bytes of index fields on the wire. */
    function IndexBytes(): nat {
      (if IsReliable() then 3 else 0) + (if IsSequenced() then 3 else 0) + (if IsOrdered() then 4 else 0)
    }
  }

  function FromRaw(raw: byte): Result<Reliability> {
    match raw
    case 0 => Ok(Unreliable)
    case 1 => Ok(UnreliableSequenced)
    case 2 => Ok(Reliable)
    case 3 => Ok(ReliableOrdered)
    case 4 => Ok(ReliableSequenced)
    case _ => Err(UnsupportedReliability)
  }

  datatype SplitInfo = SplitInfo(count: u32, id: u16, index: u32)

  datatype Frame = Frame(
    reliability: Reliability,
    reliableIndex: Option<u32>,
    sequenceIndex: Option<u32>,
    orderIndex: Option<u32>,
    orderChannel: byte,
    split: Option<SplitInfo>,
    body: seq<byte>)
  {
    function WithReliableIndex(index: u32): Frame {
      this.(reliableIndex := Some(index))
    }

    function WithSequenceIndex(index: u32): Frame {
      this.(sequenceIndex := Some(index))
    }

    function WithOrder(index: u32, channel: byte): Frame {
      this.(orderIndex := Some(index), orderChannel := channel)
    }

    function Template(): Frame {
      this.(split := None, body := [])
    }

    function WithBody(body: seq<byte>): Frame {
      this.(split := None, body := body)
    }

    /** The index fields are present exactly where the reliability calls for them. */
    predicate IndicesMatch() {
      && reliability.IsReliable() == reliableIndex.Some?
      && reliability.IsSequenced() == sequenceIndex.Some?
      && reliability.IsOrdered() == orderIndex.Some?
    }

    predicate IndicesFit() {
      Fits(reliableIndex) && Fits(sequenceIndex) && Fits(orderIndex)
    }

    /** What a frame must satisfy to survive the wire unchanged. */
    predicate WellFormed() {
      && IndicesMatch()
      && IndicesFit()
      && |body| <= 8191
      && (!reliability.IsOrdered() ==> orderChannel == 0)
    }

    function Size(): nat {
      3 + reliability.IndexBytes() + (if split.Some? then 10 else 0) + |body|
    }
  }

  predicate Fits(index: Option<u32>) {
    index.Some? ==> index.value <= 0xff_ffff
  }

  function OptU24(index: Option<u32>): seq<byte> {
    if index.Some? then U24Le(index.value) else []
  }

  function OrderField(index: Option<u32>, channel: byte): seq<byte> {
    if index.Some? then U24Le(index.value) + [channel] else []
  }

  function SplitField(split: Option<SplitInfo>): seq<byte> {
    if split.Some? then U32Be(split.value.count) + U16Be(split.value.id) + U32Be(split.value.index) else []
  }

  function FrameFlags(f: Frame): byte {
    f.reliability.AsRaw() * 32 + (if f.split.Some? then 16 else 0)
  }

  /** The length field's value: the source computes it in 32 bits, so a longer body's length is reduced first. */
  function BodyBits(f: Frame): nat {
    |f.body| % 0x1_0000_0000 * 8
  }

  function EncodeFrame(f: Frame): Result<seq<byte>> {
    if !f.IndicesMatch() then Err(IndexMismatch)
    else if !f.IndicesFit() then Err(IndexTooLarge)
    else if BodyBits(f) > 0xffff then Err(BodyTooLarge)
    else Ok(FrameBytes(f, []))
  }

  /** The frame's encoding followed by `tail`. */
  function FrameBytes(f: Frame, tail: seq<byte>): seq<byte>
    requires BodyBits(f) <= 0xffff
  {
    [FrameFlags(f)] + (U16Be(BodyBits(f)) + FrameFields(f, tail))
  }

  /** Everything after the flags and the length. */
  function FrameFields(f: Frame, tail: seq<byte>): seq<byte> {
    OptU24(f.reliableIndex) + (OptU24(f.sequenceIndex)
      + (OrderField(f.orderIndex, f.orderChannel) + (SplitField(f.split) + (f.body + tail))))
  }

  function TakeOptU24(present: bool, s: seq<byte>): Result<(Option<u32>, seq<byte>)> {
    if present then
      var (v, s) :- TakeU24Le(s);
      Ok((Some(v), s))
    else Ok((None, s))
  }

  function TakeOrder(present: bool, s: seq<byte>): Result<((Option<u32>, byte), seq<byte>)> {
    if present then
      var (v, s) :- TakeU24Le(s);
      var (channel, s) :- TakeU8(s);
      Ok(((Some(v), channel), s))
    else Ok(((None, 0), s))
  }

  function TakeSplit(present: bool, s: seq<byte>): Result<(Option<SplitInfo>, seq<byte>)> {
    if present then
      var (count, s) :- TakeU32Be(s);
      var (id, s) :- TakeU16Be(s);
      var (index, s) :- TakeU32Be(s);
      Ok((Some(SplitInfo(count, id, index)), s))
    else Ok((None, s))
  }

  function TakeFields(reliability: Reliability, isSplit: bool, bodyLength: nat, s: seq<byte>): (r: Result<(Frame, seq<byte>)>)
    ensures r.Ok? ==> |r.value.1| + |r.value.0.body| <= |s|
  {
    var (reliableIndex, s) :- TakeOptU24(reliability.IsReliable(), s);
    var (sequenceIndex, s) :- TakeOptU24(reliability.IsSequenced(), s);
    var (order, s) :- TakeOrder(reliability.IsOrdered(), s);
    var (split, s) :- TakeSplit(isSplit, s);
    var (body, s) :- TakeBytes(s, bodyLength);
    Ok((Frame(reliability, reliableIndex, sequenceIndex, order.0, order.1, split, body), s))
  }

  datatype Header = Header(reliability: Reliability, isSplit: bool, bodyLength: nat)

  function TakeHeader(s: seq<byte>): (r: Result<(Header, seq<byte>)>)
    ensures r.Ok? ==> |r.value.1| + 3 == |s|
  {
    var (flags, s) :- TakeU8(s);
    var reliability :- FromRaw(flags / 32);
    var (bits, s) :- TakeU16Be(s);
    if bits % 8 != 0 then Err(LengthNotWholeBytes)
    else Ok((Header(reliability, flags / 16 % 2 == 1, bits / 8), s))
  }

  /** Reads the frame at the front of `s`; every frame takes at least three bytes. */
  function TakeFrame(s: seq<byte>): (r: Result<(Frame, seq<byte>)>)
    ensures r.Ok? ==> |r.value.1| + 3 + |r.value.0.body| <= |s|
  {
    var (h, s) :- TakeHeader(s);
    TakeFields(h.reliability, h.isSplit, h.bodyLength, s)
  }

  // ---------- Datagrams ----------

  datatype Datagram = Datagram(sequenceNumber: u32, frames: seq<Frame>) {
    predicate WellFormed() {
      sequenceNumber <= 0xff_ffff && forall f :: f in frames ==> f.WellFormed()
    }
  }

  function EncodeFrames(frames: seq<Frame>): Result<seq<byte>> {
    if frames == [] then Ok([])
    else
      var first :- EncodeFrame(frames[0]);
      var rest :- EncodeFrames(frames[1..]);
      Ok(first + rest)
  }

  function EncodeDatagram(d: Datagram): Result<seq<byte>> {
    var body :- EncodeFrames(d.frames);
    Ok([FLAG_DATAGRAM] + U24Le(d.sequenceNumber) + body)
  }

  function DecodeFrames(s: seq<byte>): Result<seq<Frame>>
    decreases |s|
  {
    if s == [] then Ok([])
    else
      var (first, rest) :- TakeFrame(s);
      var more :- DecodeFrames(rest);
      Ok([first] + more)
  }

  function DecodeDatagram(data: seq<byte>): Result<Option<Datagram>> {
    if data == [] then Ok(None)
    else if HasAckBits(data[0]) || HasNackBit(data[0]) then Ok(None)
    else if !HasDatagramBit(data[0]) then Ok(None)
    else
      var (sequenceNumber, s) :- TakeU24Le(data[1..]);
      var frames :- DecodeFrames(s);
      Ok(Some(Datagram(sequenceNumber, frames)))
  }

  // ---------- Acknowledgements ----------

  /** A record. Every one the program builds or reads holds 24-bit numbers. */
  datatype AckRange = Single(start: u24) | Range(start: u24, end: u24)

  datatype Acknowledgement = Acknowledgement(isAck: bool, ranges: seq<AckRange>)

  function RecordBytes(r: AckRange): seq<byte> {
    match r
    case Single(start) => [1] + U24Le(start)
    case Range(start, end) => [0] + (U24Le(start) + U24Le(end))
  }

  function RecordsBytes(ranges: seq<AckRange>): seq<byte> {
    if ranges == [] then [] else RecordBytes(ranges[0]) + RecordsBytes(ranges[1..])
  }

  function EncodeAck(a: Acknowledgement): Result<seq<byte>> {
    if |a.ranges| > 0xffff then Err(TooManyRecords)
    else Ok([if a.isAck then FLAG_ACK else FLAG_NACK] + U16Be(|a.ranges|) + RecordsBytes(a.ranges))
  }

  function TakeRecord(s: seq<byte>): Result<(AckRange, seq<byte>)> {
    var (marker, s) :- TakeU8(s);
    var (start, s) :- TakeU24Le(s);
    if marker == 1 then Ok((Single(start), s))
    else
      var (end, s) :- TakeU24Le(s);
      Ok((Range(start, end), s))
  }

  function TakeRecords(s: seq<byte>, count: nat): Result<seq<AckRange>> {
    if count == 0 then Ok([])
    else
      var (first, rest) :- TakeRecord(s);
      var more :- TakeRecords(rest, count - 1);
      Ok([first] + more)
  }

  function DecodeAck(data: seq<byte>): Result<Option<Acknowledgement>> {
    if data == [] then Ok(None)
    else if !HasAckBits(data[0]) && !(HasDatagramBit(data[0]) && HasNackBit(data[0])) then Ok(None)
    else
      var (count, s) :- TakeU16Be(data[1..]);
      var ranges :- TakeRecords(s, count);
      Ok(Some(Acknowledgement(HasAckBits(data[0]), ranges)))
  }

  // ---------- Dispatch on the flag byte ----------

  datatype Incoming = IncomingDatagram(d: Datagram) | IncomingAck(a: Acknowledgement) | IncomingNack(a: Acknowledgement)

  function Classify(data: seq<byte>): Result<Incoming> {
    if data == [] then Err(EmptyPacket)
    else if HasAckBits(data[0]) then
      var a :- DecodeAck(data);
      if a.Some? then Ok(IncomingAck(a.value)) else Err(UnknownFlag)
    else if HasNackBit(data[0]) && HasDatagramBit(data[0]) then
      var a :- DecodeAck(data);
      if a.Some? then Ok(IncomingNack(a.value)) else Err(UnknownFlag)
    else if HasDatagramBit(data[0]) then
      var d :- DecodeDatagram(data);
      if d.Some? then Ok(IncomingDatagram(d.value)) else Err(UnknownFlag)
    else Err(UnknownFlag)
  }
}
