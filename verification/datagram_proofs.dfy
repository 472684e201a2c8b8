/**
  The wire format is faithful: well-formed packets survive encoding and
  decoding, and whatever decodes is well formed and re-encodes to the same
  bytes up to the hint bits that decoding ignores.
 */
module DatagramProofs {
  import opened Basics
  import opened Datagrams

  // ---------- Encoding, then decoding ----------

  lemma TakeOptU24Inverts(index: Option<u32>, tail: seq<byte>)
    requires Fits(index)
    ensures TakeOptU24(index.Some?, OptU24(index) + tail) == Ok((index, tail))
  {
    if index.Some? {
      TakeU24LeInverts(index.value, tail);
    } else {
      assert [] + tail == tail;
    }
  }

  lemma TakeOrderInverts(index: Option<u32>, channel: byte, tail: seq<byte>)
    requires Fits(index) && (index.None? ==> channel == 0)
    ensures TakeOrder(index.Some?, OrderField(index, channel) + tail) == Ok(((index, channel), tail))
  {
    if index.Some? {
      assert OrderField(index, channel) + tail == U24Le(index.value) + ([channel] + tail);
      TakeU24LeInverts(index.value, [channel] + tail);
      TakeU8Inverts(channel, tail);
    } else {
      assert [] + tail == tail;
    }
  }

  lemma TakeSplitInverts(split: Option<SplitInfo>, tail: seq<byte>)
    ensures TakeSplit(split.Some?, SplitField(split) + tail) == Ok((split, tail))
  {
    if split.Some? {
      var SplitInfo(count, id, index) := split.value;
      var afterId := U32Be(index) + tail;
      assert SplitField(split) + tail == U32Be(count) + (U16Be(id) + afterId);
      TakeU32BeInverts(count, U16Be(id) + afterId);
      TakeU16BeInverts(id, afterId);
      TakeU32BeInverts(index, tail);
    } else {
      assert [] + tail == tail;
    }
  }

  lemma FrameBytesTail(f: Frame, tail: seq<byte>)
    requires BodyBits(f) <= 0xffff
    ensures FrameBytes(f, []) + tail == FrameBytes(f, tail)
  {
    var a, b, c, d, e := OptU24(f.reliableIndex), OptU24(f.sequenceIndex),
      OrderField(f.orderIndex, f.orderChannel), SplitField(f.split), f.body;
    assert f.body + [] == f.body;
    assert (d + e) + tail == d + (e + tail);
    assert (c + (d + e)) + tail == c + (d + (e + tail));
    assert (b + (c + (d + e))) + tail == b + (c + (d + (e + tail)));
    assert (a + (b + (c + (d + e)))) + tail == a + (b + (c + (d + (e + tail))));
  }

  lemma FromRawInverts(r: Reliability, split: bool)
    ensures var flags := r.AsRaw() * 32 + (if split then 16 else 0);
            FromRaw(flags / 32) == Ok(r) && (flags / 16 % 2 == 1) == split
  {
  }

  lemma FieldsDecode(f: Frame, tail: seq<byte>)
    requires f.WellFormed()
    ensures TakeFields(f.reliability, f.split.Some?, |f.body|, FrameFields(f, tail)) == Ok((f, tail))
  {
    hide OptU24, OrderField, SplitField, TakeOptU24, TakeOrder, TakeSplit, TakeBytes;
    var afterSplit := f.body + tail;
    var afterOrder := SplitField(f.split) + afterSplit;
    var afterSequence := OrderField(f.orderIndex, f.orderChannel) + afterOrder;
    TakeOptU24Inverts(f.reliableIndex, OptU24(f.sequenceIndex) + afterSequence);
    TakeOptU24Inverts(f.sequenceIndex, afterSequence);
    TakeOrderInverts(f.orderIndex, f.orderChannel, afterOrder);
    TakeSplitInverts(f.split, afterSplit);
    TakeBytesInverts(f.body, tail);
  }

  lemma HeaderDecodes(r: Reliability, split: bool, length: nat, tail: seq<byte>)
    requires length <= 8191
    ensures TakeHeader([r.AsRaw() * 32 + if split then 16 else 0] + (U16Be(length * 8) + tail))
         == Ok((Header(r, split, length), tail))
  {
    var flags: byte := r.AsRaw() * 32 + if split then 16 else 0;
    TakeU8Inverts(flags, U16Be(length * 8) + tail);
    FromRawInverts(r, split);
    TakeU16BeInverts(length * 8, tail);
    WholeBytes(length);
    hide TakeU8, TakeU16Be, U16Be, FromRaw, Reliability.AsRaw;
  }

  lemma WholeBytes(length: nat)
    ensures length * 8 % 8 == 0 && length * 8 / 8 == length
  {
  }

  lemma FrameBytesDecode(f: Frame, tail: seq<byte>)
    requires f.WellFormed()
    ensures TakeFrame(FrameBytes(f, tail)) == Ok((f, tail))
  {
    hide TakeFields, TakeHeader, FrameFields;
    HeaderDecodes(f.reliability, f.split.Some?, |f.body|, FrameFields(f, tail));
    FieldsDecode(f, tail);
  }

  /** The exact length of a frame's encoding. */
  lemma FrameBytesSize(f: Frame, tail: seq<byte>)
    requires f.IndicesMatch() && BodyBits(f) <= 0xffff
    ensures |FrameBytes(f, tail)| == f.Size() + |tail|
  {
    assert |OptU24(f.reliableIndex)| == if f.reliability.IsReliable() then 3 else 0;
    assert |OptU24(f.sequenceIndex)| == if f.reliability.IsSequenced() then 3 else 0;
    assert |OrderField(f.orderIndex, f.orderChannel)| == if f.reliability.IsOrdered() then 4 else 0;
    assert |SplitField(f.split)| == if f.split.Some? then 10 else 0;
  }

  /** A well-formed frame decodes to itself, consuming its own encoding and nothing of what follows. */
  lemma FrameRoundTrip(f: Frame, tail: seq<byte>)
    requires f.WellFormed()
    ensures EncodeFrame(f).Ok? && |EncodeFrame(f).value| == f.Size()
    ensures TakeFrame(EncodeFrame(f).value + tail) == Ok((f, tail))
  {
    FrameBytesTail(f, tail);
    FrameBytesDecode(f, tail);
    FrameBytesSize(f, []);
  }

  lemma {:induction false} FramesRoundTrip(frames: seq<Frame>)
    requires forall f :: f in frames ==> f.WellFormed()
    ensures EncodeFrames(frames).Ok? && DecodeFrames(EncodeFrames(frames).value) == Ok(frames)
    ensures |EncodeFrames(frames).value| == TotalSize(frames)
  {
    if frames != [] {
      FramesRoundTrip(frames[1..]);
      FrameRoundTrip(frames[0], EncodeFrames(frames[1..]).value);
      hide EncodeFrame, TakeFrame;
      assert [frames[0]] + frames[1..] == frames;
    }
  }

  function TotalSize(frames: seq<Frame>): nat {
    if frames == [] then 0 else frames[0].Size() + TotalSize(frames[1..])
  }

  lemma DatagramBytes(sequenceNumber: u24, body: seq<byte>)
    ensures var data := [FLAG_DATAGRAM] + U24Le(sequenceNumber) + body;
            |data| == 4 + |body| && data[0] == FLAG_DATAGRAM && TakeU24Le(data[1..]) == Ok((sequenceNumber, body))
  {
    var data := [FLAG_DATAGRAM] + U24Le(sequenceNumber) + body;
    assert data[1..] == U24Le(sequenceNumber) + body;
    TakeU24LeInverts(sequenceNumber, body);
  }

  /** A well-formed datagram is classified as itself after encoding, and its encoded size is exact. */
  lemma DatagramRoundTrip(d: Datagram)
    requires d.WellFormed()
    ensures EncodeDatagram(d).Ok? && Classify(EncodeDatagram(d).value) == Ok(IncomingDatagram(d))
    ensures |EncodeDatagram(d).value| == 4 + TotalSize(d.frames)
  {
    hide EncodeFrames, DecodeFrames, TotalSize, U24Le, TakeU24Le;
    FramesRoundTrip(d.frames);
    DatagramBytes(d.sequenceNumber, EncodeFrames(d.frames).value);
  }

  // ---------- Decoding, then encoding ----------

  /** A flag byte without the four bits that decoding ignores. */
  function ClearHints(flags: byte): byte {
    flags / 16 * 16
  }

  lemma FieldsNormalise(r: Reliability, isSplit: bool, length: nat, s: seq<byte>)
    requires length <= 8191 && TakeFields(r, isSplit, length, s).Ok?
    ensures var (f, rest) := TakeFields(r, isSplit, length, s).value;
            && f.WellFormed() && f.reliability == r && f.split.Some? == isSplit && |f.body| == length
            && s == FrameFields(f, rest)
  {
    hide TakeOptU24, TakeOrder, TakeSplit, OptU24, OrderField, SplitField;
    var (a, s1) := TakeOptU24(r.IsReliable(), s).value;
    OptU24Normalises(r.IsReliable(), s);
    var (b, s2) := TakeOptU24(r.IsSequenced(), s1).value;
    OptU24Normalises(r.IsSequenced(), s1);
    var (c, s3) := TakeOrder(r.IsOrdered(), s2).value;
    OrderNormalises(r.IsOrdered(), s2);
    var (d, s4) := TakeSplit(isSplit, s3).value;
    SplitNormalises(isSplit, s3);
    assert s4 == s4[..length] + s4[length..];
  }

  lemma OptU24Normalises(present: bool, s: seq<byte>)
    requires TakeOptU24(present, s).Ok?
    ensures var (index, rest) := TakeOptU24(present, s).value;
            index.Some? == present && Fits(index) && s == OptU24(index) + rest
  {
    if present { TakenU24LeIsLayout(s); }
  }

  lemma OrderNormalises(present: bool, s: seq<byte>)
    requires TakeOrder(present, s).Ok?
    ensures var ((index, channel), rest) := TakeOrder(present, s).value;
            && index.Some? == present && Fits(index) && (!present ==> channel == 0)
            && s == OrderField(index, channel) + rest
  {
    if present { TakenU24LeIsLayout(s); }
  }

  lemma SplitNormalises(present: bool, s: seq<byte>)
    requires TakeSplit(present, s).Ok?
    ensures var (split, rest) := TakeSplit(present, s).value;
            split.Some? == present && s == SplitField(split) + rest
  {
    if present {
      TakenU32BeIsLayout(s);
      TakenU16BeIsLayout(s[4..]);
      TakenU32BeIsLayout(s[6..]);
    }
  }

  lemma HeaderNormalises(s: seq<byte>)
    requires TakeHeader(s).Ok?
    ensures var (h, rest) := TakeHeader(s).value;
            && h.bodyLength <= 8191
            && h.reliability.AsRaw() * 32 + (if h.isSplit then 16 else 0) == ClearHints(s[0])
            && s[1..] == U16Be(h.bodyLength * 8) + rest
  {
    TakenU16BeIsLayout(s[1..]);
  }

  /** Whatever decodes as a frame is well formed and is re-encoded as it stood, its four hint bits cleared. */
  lemma FrameNormalises(s: seq<byte>)
    requires TakeFrame(s).Ok?
    ensures var (f, rest) := TakeFrame(s).value;
            && f.WellFormed() && |s| == f.Size() + |rest| && rest == s[f.Size()..]
            && EncodeFrame(f).Ok? && EncodeFrame(f).value == [ClearHints(s[0])] + s[1..f.Size()]
  {
    hide *;
    HeaderThenFields(s);
    var (h, fields) := TakeHeader(s).value;
    HeaderNormalises(s);
    FieldsNormalise(h.reliability, h.isSplit, h.bodyLength, fields);
    var (f, rest) := TakeFrame(s).value;
    FrameEncodes(f, s[0], s[1..], rest);
    assert s[1..][f.Size() - 1..] == s[f.Size()..] && s[1..][..f.Size() - 1] == s[1..f.Size()];
  }

  lemma HeaderThenFields(s: seq<byte>)
    requires TakeFrame(s).Ok?
    ensures TakeHeader(s).Ok? && s != []
    ensures var (h, fields) := TakeHeader(s).value;
            TakeFields(h.reliability, h.isSplit, h.bodyLength, fields) == TakeFrame(s)
  {
    hide TakeFields;
  }

  /** A frame that was read from a flag byte and `after` is encoded as them, up to the rest that was left. */
  lemma FrameEncodes(f: Frame, flags: byte, after: seq<byte>, rest: seq<byte>)
    requires f.WellFormed() && f.reliability.AsRaw() * 32 + (if f.split.Some? then 16 else 0) == ClearHints(flags)
    requires after == U16Be(|f.body| * 8) + FrameFields(f, rest)
    ensures |after| + 1 == f.Size() + |rest| && f.Size() > 0 && after[f.Size() - 1..] == rest
    ensures EncodeFrame(f) == Ok([ClearHints(flags)] + after[..f.Size() - 1])
  {
    WholeFrame(f, flags, rest);
    FrameBytesSize(f, rest);
    FrameBytesTail(f, rest);
    FrameBytesSize(f, []);
    hide *;
    FrontOf(FrameBytes(f, []), [ClearHints(flags)] + after, rest, f.Size());
    assert ([ClearHints(flags)] + after)[f.Size()..] == after[f.Size() - 1..];
    assert ([ClearHints(flags)] + after)[..f.Size()] == [ClearHints(flags)] + after[..f.Size() - 1];
  }

  lemma WholeFrame(f: Frame, flags: byte, rest: seq<byte>)
    requires f.WellFormed() && f.reliability.AsRaw() * 32 + (if f.split.Some? then 16 else 0) == ClearHints(flags)
    ensures BodyBits(f) <= 0xffff && f.IndicesMatch() && f.Size() > 0
    ensures FrameBytes(f, rest) == [ClearHints(flags)] + (U16Be(|f.body| * 8) + FrameFields(f, rest))
    ensures EncodeFrame(f) == Ok(FrameBytes(f, []))
  {
    hide FrameFields, U16Be, ClearHints;
  }

  lemma FrontOf(front: seq<byte>, whole: seq<byte>, rest: seq<byte>, n: nat)
    requires front + rest == whole && |front| == n
    ensures front == whole[..n] && rest == whole[n..]
  {
  }

  /** Whether one of `frames`, laid out one after another, starts at offset `k`. */
  predicate StartsAt(frames: seq<Frame>, k: int) {
    frames != [] && (k == 0 || StartsAt(frames[1..], k - frames[0].Size()))
  }

  lemma {:induction false} StartsAtBounds(frames: seq<Frame>, k: int)
    requires StartsAt(frames, k)
    ensures 0 <= k < TotalSize(frames)
  {
    if k != 0 { StartsAtBounds(frames[1..], k - frames[0].Size()); }
  }

  lemma {:induction false} FramesNormalise(s: seq<byte>)
    requires DecodeFrames(s).Ok?
    ensures var frames := DecodeFrames(s).value;
            && (forall f :: f in frames ==> f.WellFormed())
            && EncodeFrames(frames).Ok? && |EncodeFrames(frames).value| == |s| == TotalSize(frames)
            && forall k :: 0 <= k < |s| ==>
                 EncodeFrames(frames).value[k] == if StartsAt(frames, k) then ClearHints(s[k]) else s[k]
    decreases |s|
  {
    hide *;
    if s == [] {
      NoFrames();
    } else {
      FirstDecoded(s);
      FrameNormalises(s);
      var (f, rest) := TakeFrame(s).value;
      FramesNormalise(rest);
      var more := DecodeFrames(rest).value;
      FirstEncoded(f, more);
      FrameThenRest(f, more, s, EncodeFrames(more).value);
    }
  }

  lemma NoFrames()
    ensures DecodeFrames([]) == Ok([]) && EncodeFrames([]) == Ok([]) && TotalSize([]) == 0
  {
  }

  lemma FirstDecoded(s: seq<byte>)
    requires s != [] && DecodeFrames(s).Ok?
    ensures TakeFrame(s).Ok? && |TakeFrame(s).value.1| < |s| && DecodeFrames(TakeFrame(s).value.1).Ok?
    ensures DecodeFrames(s).value == [TakeFrame(s).value.0] + DecodeFrames(TakeFrame(s).value.1).value
  {
    hide TakeFrame;
  }

  lemma FirstEncoded(f: Frame, rest: seq<Frame>)
    requires EncodeFrame(f).Ok? && EncodeFrames(rest).Ok?
    ensures EncodeFrames([f] + rest) == Ok(EncodeFrame(f).value + EncodeFrames(rest).value)
    ensures TotalSize([f] + rest) == f.Size() + TotalSize(rest)
  {
    hide EncodeFrame, Frame.Size;
    assert ([f] + rest)[1..] == rest;
  }

  lemma FrameThenRest(f: Frame, rest: seq<Frame>, s: seq<byte>, e: seq<byte>)
    requires |s| == f.Size() + |e| && |e| == TotalSize(rest)
    requires forall k :: 0 <= k < |e| ==> e[k] == var b := s[f.Size() + k]; if StartsAt(rest, k) then ClearHints(b) else b
    ensures forall k :: 0 <= k < |s| ==>
              ([ClearHints(s[0])] + s[1..f.Size()] + e)[k] == if StartsAt([f] + rest, k) then ClearHints(s[k]) else s[k]
  {
    var all, whole := [f] + rest, [ClearHints(s[0])] + s[1..f.Size()] + e;
    assert all[1..] == rest;
    forall k | 0 <= k < |s|
      ensures whole[k] == if StartsAt(all, k) then ClearHints(s[k]) else s[k]
    {
      if 0 < k < f.Size() && StartsAt(all, k) {
        StartsAtBounds(rest, k - f.Size());
      } else if k >= f.Size() {
        assert whole[k] == e[k - f.Size()];
      }
    }
  }

  /**
    Whatever is classified as a datagram is a well-formed one. Encoding it again gives the same
    number of bytes, which differ only in the five hint bits of the first byte and the four hint
    bits of each frame's flag byte, and which are classified as the same datagram.
   */
  lemma DatagramNormalises(data: seq<byte>)
    requires Classify(data).Ok? && Classify(data).value.IncomingDatagram?
    ensures var d := Classify(data).value.d;
            && d.WellFormed() && EncodeDatagram(d).Ok?
            && var again := EncodeDatagram(d).value;
               && |again| == |data|
               && (forall k :: 0 <= k < |data| ==>
                     again[k] == if k == 0 then data[0] / 32 * 32
                                 else if StartsAt(d.frames, k - 4) then ClearHints(data[k]) else data[k])
               && Classify(again) == Classify(data)
  {
    hide DecodeFrames, EncodeFrames, StartsAt, TotalSize;
    var d := Classify(data).value.d;
    TakenU24LeIsLayout(data[1..]);
    FramesNormalise(data[4..]);
    var again, body := EncodeDatagram(d).value, EncodeFrames(d.frames).value;
    DatagramRoundTrip(d);
    forall k | 0 <= k < |data|
      ensures again[k] == if k == 0 then data[0] / 32 * 32
                          else if StartsAt(d.frames, k - 4) then ClearHints(data[k]) else data[k]
    {
      if k >= 4 {
        assert again[k] == body[k - 4] && data[4..][k - 4] == data[k];
      } else {
        if StartsAt(d.frames, k - 4) { StartsAtBounds(d.frames, k - 4); }
        assert data[1..] == U24Le(d.sequenceNumber) + data[4..];
      }
    }
  }

  // ---------- Acknowledgements ----------

  lemma RecordRoundTrip(r: AckRange, tail: seq<byte>)
    ensures TakeRecord(RecordBytes(r) + tail) == Ok((r, tail))
  {
    match r
    case Single(start) =>
      assert RecordBytes(r) + tail == [1] + (U24Le(start) + tail);
      TakeU8Inverts(1, U24Le(start) + tail);
      TakeU24LeInverts(start, tail);
    case Range(start, end) =>
      var afterStart := U24Le(end) + tail;
      assert RecordBytes(r) + tail == [0] + (U24Le(start) + afterStart);
      TakeU8Inverts(0, U24Le(start) + afterStart);
      TakeU24LeInverts(start, afterStart);
      TakeU24LeInverts(end, tail);
  }

  lemma {:induction false} RecordsRoundTrip(ranges: seq<AckRange>, tail: seq<byte>)
    ensures TakeRecords(RecordsBytes(ranges) + tail, |ranges|) == Ok(ranges)
  {
    if ranges != [] {
      var rest := RecordsBytes(ranges[1..]) + tail;
      assert RecordsBytes(ranges) + tail == RecordBytes(ranges[0]) + rest;
      hide TakeRecord, RecordBytes;
      RecordRoundTrip(ranges[0], rest);
      RecordsRoundTrip(ranges[1..], tail);
      assert [ranges[0]] + ranges[1..] == ranges;
    }
  }

  /** An ACK or NACK of at most 65535 records survives the wire, whatever bytes follow it. */
  lemma AckRoundTrip(a: Acknowledgement, tail: seq<byte>)
    ensures EncodeAck(a).Ok? <==> |a.ranges| <= 0xffff
    ensures EncodeAck(a).Ok? ==>
              Classify(EncodeAck(a).value + tail) == Ok(if a.isAck then IncomingAck(a) else IncomingNack(a))
  {
    hide *;
    AckEncodes(a);
    if |a.ranges| <= 0xffff {
      AckBytes(a, tail);
      RecordsRoundTrip(a.ranges, tail);
      AckDecodes(a, EncodeAck(a).value + tail, RecordsBytes(a.ranges) + tail);
      AckClassified(a, EncodeAck(a).value + tail);
    }
  }

  lemma AckEncodes(a: Acknowledgement)
    ensures EncodeAck(a).Ok? <==> |a.ranges| <= 0xffff
  {
  }

  function AckFlag(isAck: bool): byte {
    if isAck then FLAG_ACK else FLAG_NACK
  }

  lemma AckDecodes(a: Acknowledgement, data: seq<byte>, s: seq<byte>)
    requires data != [] && data[0] == AckFlag(a.isAck)
    requires TakeU16Be(data[1..]) == Ok((|a.ranges|, s)) && TakeRecords(s, |a.ranges|) == Ok(a.ranges)
    ensures DecodeAck(data) == Ok(Some(a))
  {
    hide TakeU16Be, TakeRecords;
  }

  lemma AckClassified(a: Acknowledgement, data: seq<byte>)
    requires data != [] && data[0] == AckFlag(a.isAck) && DecodeAck(data) == Ok(Some(a))
    ensures Classify(data) == Ok(if a.isAck then IncomingAck(a) else IncomingNack(a))
  {
    hide DecodeAck, DecodeDatagram;
  }

  lemma AckBytes(a: Acknowledgement, tail: seq<byte>)
    requires EncodeAck(a).Ok?
    ensures var data := EncodeAck(a).value + tail;
            && data != [] && data[0] == AckFlag(a.isAck)
            && TakeU16Be(data[1..]) == Ok((|a.ranges|, RecordsBytes(a.ranges) + tail))
  {
    hide RecordsBytes, U16Be, TakeU16Be;
    var data, records := EncodeAck(a).value + tail, RecordsBytes(a.ranges) + tail;
    assert data[1..] == U16Be(|a.ranges|) + records;
    TakeU16BeInverts(|a.ranges|, records);
  }
}
