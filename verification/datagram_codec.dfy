/**
  The encoders, which push fields into a growing buffer, and the decoders, which
  advance a cursor, each proved to compute the wire format of Datagrams.
 */
module DatagramCodec {
  import opened Basics
  import opened PacketCursor
  import opened Datagrams

  method WriteFrame(f: Frame) returns (r: Result<seq<byte>>)
    ensures r == EncodeFrame(f)
  {
    if f.reliability.IsReliable() != f.reliableIndex.Some? {
      return Err(IndexMismatch);
    }
    if f.reliability.IsSequenced() != f.sequenceIndex.Some? {
      return Err(IndexMismatch);
    }
    if f.reliability.IsOrdered() != f.orderIndex.Some? {
      return Err(IndexMismatch);
    }
    var indices := [f.reliableIndex, f.sequenceIndex, f.orderIndex];
    for i := 0 to 3
      invariant forall j :: 0 <= j < i ==> Fits(indices[j])
    {
      if indices[i].Some? && indices[i].value > 0xff_ffff {
        assert !Fits(indices[i]);
        return Err(IndexTooLarge);
      }
    }
    assert Fits(indices[0]) && Fits(indices[1]) && Fits(indices[2]);
    var bodyBits := |f.body| % 0x1_0000_0000 * 8;
    if bodyBits > 0xffff {
      return Err(BodyTooLarge);
    }
    var buf := [FrameFlags(f)];
    buf := buf + U16Be(bodyBits);
    hide FrameFlags, U16Be, OptU24, OrderField, SplitField, Frame.IndicesMatch, Frame.IndicesFit;
    buf := PushIndices(buf, f);
    buf := PushSplit(buf, f.split);
    buf := buf + f.body;
    PushedFields([FrameFlags(f)], U16Be(bodyBits), OptU24(f.reliableIndex), OptU24(f.sequenceIndex),
      OrderField(f.orderIndex, f.orderChannel), SplitField(f.split), f.body);
    return Ok(buf);
  }

  method PushIndices(buf: seq<byte>, f: Frame) returns (pushed: seq<byte>)
    ensures pushed == buf + OptU24(f.reliableIndex) + OptU24(f.sequenceIndex) + OrderField(f.orderIndex, f.orderChannel)
  {
    hide U24Le;
    pushed := buf;
    if f.reliableIndex.Some? {
      pushed := pushed + U24Le(f.reliableIndex.value);
    }
    if f.sequenceIndex.Some? {
      pushed := pushed + U24Le(f.sequenceIndex.value);
    }
    if f.orderIndex.Some? {
      pushed := pushed + U24Le(f.orderIndex.value);
      pushed := pushed + [f.orderChannel];
    }
  }

  method PushSplit(buf: seq<byte>, split: Option<SplitInfo>) returns (pushed: seq<byte>)
    ensures pushed == buf + SplitField(split)
  {
    hide U32Be, U16Be;
    pushed := buf;
    if split.Some? {
      pushed := pushed + U32Be(split.value.count);
      pushed := pushed + U16Be(split.value.id);
      pushed := pushed + U32Be(split.value.index);
    }
  }

  lemma PushedFields(a: seq<byte>, b: seq<byte>, c: seq<byte>, d: seq<byte>, e: seq<byte>, f: seq<byte>, g: seq<byte>)
    ensures a + b + c + d + e + f + g == a + (b + (c + (d + (e + (f + (g + []))))))
  {
  }

  /** `Ok(None)` exactly when the cursor is at the end of the packet. */
  method ReadFrame(p: PacketBuf) returns (r: Result<Option<Frame>>)
    requires p.Valid()
    modifies p
    ensures p.Valid()
    ensures old(p.Rest()) == [] ==> r == Ok(None) && p.Rest() == []
    ensures old(p.Rest()) != [] ==>
              match TakeFrame(old(p.Rest()))
              case Ok((f, rest)) => r == Ok(Some(f)) && p.Rest() == rest
              case Err(e) => r == Err(e)
  {
    if p.Remaining() == 0 {
      return Ok(None);
    }
    var first := p.ReadU8();
    var flags := first.value;
    var reliability :- FromRaw(flags / 32);
    var isSplit := flags / 16 % 2 == 1;
    var bits :- p.ReadU16();
    if bits % 8 != 0 {
      return Err(LengthNotWholeBytes);
    }
    var f :- ReadFields(p, reliability, isSplit, bits / 8);
    return Ok(Some(f));
  }

  method ReadFields(p: PacketBuf, reliability: Reliability, isSplit: bool, bodyLength: nat) returns (r: Result<Frame>)
    requires p.Valid()
    modifies p
    ensures p.Valid()
    ensures match TakeFields(reliability, isSplit, bodyLength, old(p.Rest()))
            case Ok((f, rest)) => r == Ok(f) && p.Rest() == rest
            case Err(e) => r == Err(e)
  {
    hide TakeOptU24, TakeOrder, TakeSplit, TakeBytes;
    var reliableIndex :- ReadIndex(p, reliability.IsReliable());
    var sequenceIndex :- ReadIndex(p, reliability.IsSequenced());
    var order :- ReadOrder(p, reliability.IsOrdered());
    var split :- ReadSplit(p, isSplit);
    var body :- p.ReadBytes(bodyLength);
    return Ok(Frame(reliability, reliableIndex, sequenceIndex, order.0, order.1, split, body));
  }

  method ReadIndex(p: PacketBuf, present: bool) returns (r: Result<Option<u32>>)
    requires p.Valid()
    modifies p
    ensures p.Valid()
    ensures match TakeOptU24(present, old(p.Rest()))
            case Ok((index, rest)) => r == Ok(index) && p.Rest() == rest
            case Err(e) => r == Err(e)
  {
    if !present {
      return Ok(None);
    }
    var v :- p.ReadU24Le();
    return Ok(Some(v));
  }

  method ReadOrder(p: PacketBuf, present: bool) returns (r: Result<(Option<u32>, byte)>)
    requires p.Valid()
    modifies p
    ensures p.Valid()
    ensures match TakeOrder(present, old(p.Rest()))
            case Ok((order, rest)) => r == Ok(order) && p.Rest() == rest
            case Err(e) => r == Err(e)
  {
    if !present {
      return Ok((None, 0));
    }
    var v :- p.ReadU24Le();
    var channel :- p.ReadU8();
    return Ok((Some(v), channel));
  }

  method ReadSplit(p: PacketBuf, present: bool) returns (r: Result<Option<SplitInfo>>)
    requires p.Valid()
    modifies p
    ensures p.Valid()
    ensures match TakeSplit(present, old(p.Rest()))
            case Ok((split, rest)) => r == Ok(split) && p.Rest() == rest
            case Err(e) => r == Err(e)
  {
    if !present {
      return Ok(None);
    }
    var count :- p.ReadBeU32();
    var id :- p.ReadU16();
    var index :- p.ReadBeU32();
    return Ok(Some(SplitInfo(count, id, index)));
  }

  method WriteDatagram(d: Datagram) returns (r: Result<seq<byte>>)
    ensures r == EncodeDatagram(d)
  {
    var buf := [FLAG_DATAGRAM];
    buf := buf + U24Le(d.sequenceNumber);
    ghost var start, written := buf, [];
    hide EncodeFrame;
    assert d.frames[0..] == d.frames && start + [] == start;
    AfterNothing(EncodeFrames(d.frames));
    for i := 0 to |d.frames|
      invariant buf == start + written
      invariant EncodeFrames(d.frames) == After(written, EncodeFrames(d.frames[i..]))
    {
      assert d.frames[i..][1..] == d.frames[i + 1..];
      var bytes :- WriteFrame(d.frames[i]);
      AfterMore(written, bytes, EncodeFrames(d.frames[i + 1..]));
      assert start + (written + bytes) == (start + written) + bytes;
      buf := buf + bytes;
      written := written + bytes;
    }
    assert written + [] == written;
    return Ok(buf);
  }

  method ReadDatagram(data: seq<byte>) returns (r: Result<Option<Datagram>>)
    ensures r == DecodeDatagram(data)
  {
    if data == [] {
      return Ok(None);
    }
    var first := data[0];
    if HasAckBits(first) || HasNackBit(first) {
      return Ok(None);
    }
    if !HasDatagramBit(first) {
      return Ok(None);
    }
    var p := new PacketBuf(data);
    var flag := p.ReadU8();
    var sequenceNumber :- p.ReadU24Le();
    ghost var s := p.Rest();
    AfterNothing(DecodeFrames(s));
    hide TakeFrame, TakeU8, TakeU24Le;
    var frames, done := [], false;
    while !done
      invariant p.Valid()
      invariant DecodeFrames(s) == After(frames, DecodeFrames(p.Rest()))
      invariant done ==> p.Rest() == []
      decreases !done, |p.Rest()|
    {
      ghost var before := p.Rest();
      var next :- ReadFrame(p);
      if next.Some? {
        AfterMore(frames, [next.value], DecodeFrames(p.Rest()));
        frames := frames + [next.value];
        assert |p.Rest()| < |before|;
      } else {
        done := true;
      }
    }
    assert frames + [] == frames;
    return Ok(Some(Datagram(sequenceNumber, frames)));
  }

  method PushRecord(buf: seq<byte>, r: AckRange) returns (pushed: seq<byte>)
    ensures pushed == buf + RecordBytes(r)
  {
    match r {
      case Single(start) =>
        pushed := buf + [1];
        pushed := pushed + U24Le(start);
      case Range(start, end) =>
        pushed := buf + [0];
        pushed := pushed + U24Le(start);
        pushed := pushed + U24Le(end);
    }
  }

  method WriteAck(a: Acknowledgement) returns (r: Result<seq<byte>>)
    ensures r == EncodeAck(a)
  {
    if |a.ranges| > 0xffff {
      return Err(TooManyRecords);
    }
    var buf := [if a.isAck then FLAG_ACK else FLAG_NACK];
    buf := buf + U16Be(|a.ranges|);
    ghost var whole := buf + RecordsBytes(a.ranges);
    hide RecordBytes, U16Be;
    assert a.ranges[0..] == a.ranges;
    for i := 0 to |a.ranges|
      invariant buf + RecordsBytes(a.ranges[i..]) == whole
    {
      ghost var before := buf;
      assert a.ranges[i..][1..] == a.ranges[i + 1..];
      buf := PushRecord(buf, a.ranges[i]);
      Regroup(before, RecordBytes(a.ranges[i]), RecordsBytes(a.ranges[i + 1..]));
    }
    assert buf + [] == buf;
    return Ok(buf);
  }

  lemma Regroup(a: seq<byte>, b: seq<byte>, c: seq<byte>)
    ensures a + (b + c) == (a + b) + c
  {
  }

  method ReadRecord(p: PacketBuf) returns (r: Result<AckRange>)
    requires p.Valid()
    modifies p
    ensures p.Valid()
    ensures match TakeRecord(old(p.Rest()))
            case Ok((record, rest)) => r == Ok(record) && p.Rest() == rest
            case Err(e) => r == Err(e)
  {
    var marker :- p.ReadU8();
    var start :- p.ReadU24Le();
    if marker == 1 {
      return Ok(Single(start));
    }
    var end :- p.ReadU24Le();
    return Ok(Range(start, end));
  }

  method ReadAck(data: seq<byte>) returns (r: Result<Option<Acknowledgement>>)
    ensures r == DecodeAck(data)
  {
    if data == [] {
      return Ok(None);
    }
    var first, isAck := data[0], false;
    if HasAckBits(first) {
      isAck := true;
    } else if !(HasDatagramBit(first) && HasNackBit(first)) {
      return Ok(None);
    }
    var p := new PacketBuf(data);
    var flag := p.ReadU8();
    var count :- p.ReadU16();
    hide TakeRecords;
    var ranges :- ReadRecords(p, count);
    return Ok(Some(Acknowledgement(isAck, ranges)));
  }

  method ReadRecords(p: PacketBuf, count: nat) returns (r: Result<seq<AckRange>>)
    requires p.Valid()
    modifies p
    ensures p.Valid() && r == TakeRecords(old(p.Rest()), count)
  {
    var ranges := [];
    ghost var s := p.Rest();
    AfterNothing(TakeRecords(s, count));
    hide TakeRecord;
    for i := 0 to count
      invariant p.Valid()
      invariant TakeRecords(s, count) == After(ranges, TakeRecords(p.Rest(), count - i))
    {
      var record :- ReadRecord(p);
      AfterMore(ranges, [record], TakeRecords(p.Rest(), count - i - 1));
      ranges := ranges + [record];
    }
    assert ranges + [] == ranges;
    return Ok(ranges);
  }

  method ClassifyPacket(data: seq<byte>) returns (r: Result<Incoming>)
    ensures r == Classify(data)
  {
    hide DecodeAck, DecodeDatagram;
    if data == [] {
      return Err(EmptyPacket);
    }
    var first := data[0];
    if HasAckBits(first) {
      var ack :- ReadAck(data);
      return if ack.Some? then Ok(IncomingAck(ack.value)) else Err(UnknownFlag);
    }
    if HasNackBit(first) && HasDatagramBit(first) {
      var nack :- ReadAck(data);
      return if nack.Some? then Ok(IncomingNack(nack.value)) else Err(UnknownFlag);
    }
    if HasDatagramBit(first) {
      var d :- ReadDatagram(data);
      return if d.Some? then Ok(IncomingDatagram(d.value)) else Err(UnknownFlag);
    }
    return Err(UnknownFlag);
  }
}
