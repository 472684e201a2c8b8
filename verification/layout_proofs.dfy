/**
  The wire format byte by byte: where each field stands and in which order of
  bytes, by arithmetic on the bytes alone, for everything that is written and for
  everything that is read.
 */
module LayoutProofs {
  import opened Basics
  import opened Datagrams
  import opened DatagramProofs

  // ---------- Numbers in a packet ----------

  /** Three bytes from `k` on hold `v`, the least significant one first. */
  predicate Le24(b: seq<byte>, k: nat, v: int) {
    k + 3 <= |b| && (b[k] as int) + 0x100 * (b[k + 1] as int) + 0x1_0000 * (b[k + 2] as int) == v
  }

  /** Two bytes from `k` on hold `v`, the most significant one first. */
  predicate Be16(b: seq<byte>, k: nat, v: int) {
    k + 2 <= |b| && 0x100 * (b[k] as int) + (b[k + 1] as int) == v
  }

  predicate Be32(b: seq<byte>, k: nat, v: int) {
    k + 4 <= |b| && 0x100_0000 * (b[k] as int) + 0x1_0000 * (b[k + 1] as int) + 0x100 * (b[k + 2] as int) + (b[k + 3] as int) == v
  }

  // ---------- Frames ----------

  function KindNumber(r: Reliability): nat {
    match r
    case Unreliable => 0
    case UnreliableSequenced => 1
    case Reliable => 2
    case ReliableOrdered => 3
    case ReliableSequenced => 4
  }

  predicate HasMessageIndex(r: Reliability) {
    r in {Reliable, ReliableOrdered, ReliableSequenced}
  }

  predicate HasSequenceIndex(r: Reliability) {
    r in {UnreliableSequenced, ReliableSequenced}
  }

  predicate HasOrderIndex(r: Reliability) {
    r in {UnreliableSequenced, ReliableOrdered, ReliableSequenced}
  }

  function SequenceAt(r: Reliability): nat {
    if HasMessageIndex(r) then 6 else 3
  }

  function OrderAt(r: Reliability): nat {
    SequenceAt(r) + if HasSequenceIndex(r) then 3 else 0
  }

  function SplitAt(r: Reliability): nat {
    OrderAt(r) + if HasOrderIndex(r) then 4 else 0
  }

  function BodyAt(r: Reliability, isSplit: bool): nat {
    SplitAt(r) + if isSplit then 10 else 0
  }

  /** An index is present exactly if it is called for, and then stands at `k`. */
  predicate IndexAt(b: seq<byte>, k: nat, index: Option<u32>, called: bool) {
    index.Some? == called && (called ==> Le24(b, k, index.value))
  }

  predicate SplitInfoAt(b: seq<byte>, k: nat, s: SplitInfo) {
    Be32(b, k, s.count) && Be16(b, k + 4, s.id) && Be32(b, k + 6, s.index)
  }

  /** `b` is the frame `f` on the wire, whatever the low four bits of its first byte. */
  predicate Carries(b: seq<byte>, f: Frame) {
    var r := f.reliability;
    && |b| == BodyAt(r, f.split.Some?) + |f.body|
    && b[0] / 32 == KindNumber(r) && (b[0] / 16 % 2 == 1 <==> f.split.Some?)
    && Be16(b, 1, 8 * (|f.body| % 0x1_0000_0000))
    && IndexAt(b, 3, f.reliableIndex, HasMessageIndex(r))
    && IndexAt(b, SequenceAt(r), f.sequenceIndex, HasSequenceIndex(r))
    && IndexAt(b, OrderAt(r), f.orderIndex, HasOrderIndex(r))
    && (HasOrderIndex(r) ==> b[OrderAt(r) + 3] == f.orderChannel)
    && (f.split.Some? ==> SplitInfoAt(b, SplitAt(r), f.split.value))
    && b[BodyAt(r, f.split.Some?)..] == f.body
  }

  lemma U24LeIs(v: u24)
    ensures Le24(U24Le(v), 0, v)
  {
    assert v / 65536 == v / 256 / 256;
  }

  lemma U16BeIs(v: u16)
    ensures Be16(U16Be(v), 0, v)
  {
  }

  lemma U32BeIs(v: u32)
    ensures Be32(U32Be(v), 0, v)
  {
    U16BeIs(v / 0x1_0000);
    U16BeIs(v % 0x1_0000);
  }

  /** A number stands where its bytes stand. */
  lemma Moved(b: seq<byte>, k: nat, part: seq<byte>, v: int)
    requires k + |part| <= |b| && b[k..k + |part|] == part
    ensures Le24(part, 0, v) ==> Le24(b, k, v)
    ensures Be16(part, 0, v) ==> Be16(b, k, v)
    ensures Be32(part, 0, v) ==> Be32(b, k, v)
  {
    assert forall i :: 0 <= i < |part| ==> b[k + i] == part[i];
  }

  lemma OptionalIndex(index: Option<u32>)
    requires Fits(index)
    ensures |OptU24(index)| == (if index.Some? then 3 else 0) && (index.Some? ==> Le24(OptU24(index), 0, index.value))
  {
    if index.Some? { U24LeIs(index.value); }
  }

  lemma OrderIs(index: Option<u32>, channel: byte)
    requires Fits(index)
    ensures |OrderField(index, channel)| == if index.Some? then 4 else 0
    ensures index.Some? ==> Le24(OrderField(index, channel), 0, index.value) && OrderField(index, channel)[3] == channel
  {
    if index.Some? {
      U24LeIs(index.value);
      Moved(OrderField(index, channel), 0, U24Le(index.value), index.value);
    }
  }

  lemma SplitIs(s: SplitInfo)
    ensures |SplitField(Some(s))| == 10 && SplitInfoAt(SplitField(Some(s)), 0, s)
  {
    var b := SplitField(Some(s));
    U32BeIs(s.count);
    U16BeIs(s.id);
    U32BeIs(s.index);
    Moved(b, 0, U32Be(s.count), s.count);
    Moved(b, 4, U16Be(s.id), s.id);
    Moved(b, 6, U32Be(s.index), s.index);
  }

  lemma SplitMoved(b: seq<byte>, k: nat, part: seq<byte>, s: SplitInfo)
    requires |part| == 10 && k + 10 <= |b| && b[k..k + 10] == part && SplitInfoAt(part, 0, s)
    ensures SplitInfoAt(b, k, s)
  {
    assert forall i :: 0 <= i < 10 ==> b[k + i] == part[i];
  }

  lemma OrderMoved(b: seq<byte>, k: nat, part: seq<byte>, v: int)
    requires |part| == 4 && k + 4 <= |b| && b[k..k + 4] == part && Le24(part, 0, v)
    ensures Le24(b, k, v) && b[k + 3] == part[3]
  {
    assert forall i :: 0 <= i < 4 ==> b[k + i] == part[i];
  }

  /** Five parts one after another, the third of which has the two last bytes of a header before it. */
  lemma Parts(h: seq<byte>, a: seq<byte>, b: seq<byte>, c: seq<byte>, d: seq<byte>, body: seq<byte>, whole: seq<byte>)
    requires |h| == 3 && whole == h + a + b + c + d + body
    ensures |whole| == 3 + |a| + |b| + |c| + |d| + |body|
    ensures whole[..3] == h && whole[3..3 + |a|] == a && whole[3 + |a|..3 + |a| + |b|] == b
    ensures whole[3 + |a| + |b|..3 + |a| + |b| + |c|] == c
    ensures whole[3 + |a| + |b| + |c|..3 + |a| + |b| + |c| + |d|] == d
    ensures whole[3 + |a| + |b| + |c| + |d|..] == body
  {
  }

  /** Every frame the encoder accepts, byte by byte; the four low bits of its first byte are zero. */
  lemma EncodedFrame(f: Frame)
    requires EncodeFrame(f).Ok?
    ensures Carries(EncodeFrame(f).value, f) && EncodeFrame(f).value[0] % 16 == 0
  {
    hide *;
    FrameParts(f);
    var h := [FrameFlags(f)] + U16Be(BodyBits(f));
    var a, b, c, d := OptU24(f.reliableIndex), OptU24(f.sequenceIndex), OrderField(f.orderIndex, f.orderChannel), SplitField(f.split);
    Parts(h, a, b, c, d, f.body, EncodeFrame(f).value);
    PartsCarry(f, h, a, b, c, d, EncodeFrame(f).value);
  }

  lemma FrameParts(f: Frame)
    requires EncodeFrame(f).Ok?
    ensures f.IndicesMatch() && f.IndicesFit() && BodyBits(f) <= 0xffff && |U16Be(BodyBits(f))| == 2
    ensures EncodeFrame(f).value
         == [FrameFlags(f)] + U16Be(BodyBits(f)) + OptU24(f.reliableIndex) + OptU24(f.sequenceIndex)
            + OrderField(f.orderIndex, f.orderChannel) + SplitField(f.split) + f.body
  {
    hide FrameFlags, OptU24, OrderField, SplitField;
    assert f.body + [] == f.body;
  }

  lemma PartsCarry(f: Frame, h: seq<byte>, a: seq<byte>, b: seq<byte>, c: seq<byte>, d: seq<byte>, whole: seq<byte>)
    requires f.IndicesMatch() && f.IndicesFit() && BodyBits(f) <= 0xffff
    requires h == [FrameFlags(f)] + U16Be(BodyBits(f)) && |h| == 3
    requires a == OptU24(f.reliableIndex) && b == OptU24(f.sequenceIndex)
    requires c == OrderField(f.orderIndex, f.orderChannel) && d == SplitField(f.split)
    requires |whole| == 3 + |a| + |b| + |c| + |d| + |f.body|
    requires whole[..3] == h && whole[3..3 + |a|] == a && whole[3 + |a|..3 + |a| + |b|] == b
    requires whole[3 + |a| + |b|..3 + |a| + |b| + |c|] == c
    requires whole[3 + |a| + |b| + |c|..3 + |a| + |b| + |c| + |d|] == d
    requires whole[3 + |a| + |b| + |c| + |d|..] == f.body
    ensures Carries(whole, f) && whole[0] % 16 == 0
  {
    CalledFor(f);
    hide FrameFlags, OptU24, OrderField, SplitField, U16Be, Le24, Be16, SplitInfoAt, HasMessageIndex, HasSequenceIndex, HasOrderIndex, KindNumber;
    HeadAt(f, whole);
    OptionalAt(f.reliableIndex, whole, 3);
    OptionalAt(f.sequenceIndex, whole, 3 + |a|);
    OrderFieldAt(f.orderIndex, f.orderChannel, whole, 3 + |a| + |b|);
    SplitFieldAt(f.split, whole, 3 + |a| + |b| + |c|);
  }

  lemma HeadAt(f: Frame, whole: seq<byte>)
    requires BodyBits(f) <= 0xffff && 3 <= |whole| && whole[..3] == [FrameFlags(f)] + U16Be(BodyBits(f))
    ensures whole[0] / 32 == KindNumber(f.reliability) && (whole[0] / 16 % 2 == 1 <==> f.split.Some?) && whole[0] % 16 == 0
    ensures Be16(whole, 1, 8 * (|f.body| % 0x1_0000_0000))
  {
    FlagsAre(f);
    U16BeIs(BodyBits(f));
    var h := [FrameFlags(f)] + U16Be(BodyBits(f));
    assert whole[0] == h[0];
    HeaderBits(h, whole, U16Be(BodyBits(f)), BodyBits(f));
    hide FrameFlags, U16Be, Be16;
  }

  lemma OptionalAt(index: Option<u32>, whole: seq<byte>, k: nat)
    requires Fits(index) && k + |OptU24(index)| <= |whole| && whole[k..k + |OptU24(index)|] == OptU24(index)
    ensures |OptU24(index)| == if index.Some? then 3 else 0
    ensures index.Some? ==> Le24(whole, k, index.value)
  {
    OptionalIndex(index);
    if index.Some? { Moved(whole, k, OptU24(index), index.value); }
  }

  lemma OrderFieldAt(index: Option<u32>, channel: byte, whole: seq<byte>, k: nat)
    requires Fits(index) && k + |OrderField(index, channel)| <= |whole|
    requires whole[k..k + |OrderField(index, channel)|] == OrderField(index, channel)
    ensures |OrderField(index, channel)| == if index.Some? then 4 else 0
    ensures index.Some? ==> Le24(whole, k, index.value) && whole[k + 3] == channel
  {
    OrderIs(index, channel);
    if index.Some? { OrderMoved(whole, k, OrderField(index, channel), index.value); }
  }

  lemma SplitFieldAt(split: Option<SplitInfo>, whole: seq<byte>, k: nat)
    requires k + |SplitField(split)| <= |whole| && whole[k..k + |SplitField(split)|] == SplitField(split)
    ensures |SplitField(split)| == if split.Some? then 10 else 0
    ensures split.Some? ==> SplitInfoAt(whole, k, split.value)
  {
    SplitFieldIs(split);
    if split.Some? { SplitMoved(whole, k, SplitField(split), split.value); }
  }

  lemma HeaderBits(h: seq<byte>, whole: seq<byte>, bits: seq<byte>, n: int)
    requires |h| == 3 && 3 <= |whole| && whole[..3] == h && |bits| == 2 && h[1..] == bits && Be16(bits, 0, n)
    ensures Be16(whole, 1, n)
  {
    assert whole[1] == h[1] == h[1..][0] && whole[2] == h[2] == h[1..][1];
  }

  lemma FlagsAre(f: Frame)
    ensures FrameFlags(f) / 32 == KindNumber(f.reliability) && (FrameFlags(f) / 16 % 2 == 1 <==> f.split.Some?)
    ensures FrameFlags(f) % 16 == 0
  {
  }

  lemma SplitFieldIs(split: Option<SplitInfo>)
    ensures |SplitField(split)| == if split.Some? then 10 else 0
    ensures split.Some? ==> SplitInfoAt(SplitField(split), 0, split.value)
  {
    if split.Some? { SplitIs(split.value); }
  }

  lemma CalledFor(f: Frame)
    requires f.IndicesMatch()
    ensures f.reliableIndex.Some? == HasMessageIndex(f.reliability)
    ensures f.sequenceIndex.Some? == HasSequenceIndex(f.reliability)
    ensures f.orderIndex.Some? == HasOrderIndex(f.reliability)
  {
  }

  // ---------- Frames that are read ----------

  function WireSize(f: Frame): nat {
    BodyAt(f.reliability, f.split.Some?) + |f.body|
  }

  /** `s` begins with the frame `f`, which has nothing that the wire does not carry, and `rest` follows. */
  predicate BeginsWith(s: seq<byte>, f: Frame, rest: seq<byte>) {
    && |f.body| <= 8191 && (!HasOrderIndex(f.reliability) ==> f.orderChannel == 0)
    && WireSize(f) <= |s| && Carries(s[..WireSize(f)], f) && rest == s[WireSize(f)..]
  }

  lemma SameBytes24(b: seq<byte>, c: seq<byte>, k: nat, v: int)
    requires Le24(b, k, v) && Le24(c, k, v)
    ensures b[k] == c[k] && b[k + 1] == c[k + 1] && b[k + 2] == c[k + 2] && 0 <= v < 0x100_0000
  {
  }

  lemma SameBytes16(b: seq<byte>, c: seq<byte>, k: nat, v: int)
    requires Be16(b, k, v) && Be16(c, k, v)
    ensures b[k] == c[k] && b[k + 1] == c[k + 1]
  {
  }

  lemma SameBytes32(b: seq<byte>, c: seq<byte>, k: nat, v: int)
    requires Be32(b, k, v) && Be32(c, k, v)
    ensures b[k] == c[k] && b[k + 1] == c[k + 1] && b[k + 2] == c[k + 2] && b[k + 3] == c[k + 3]
  {
  }

  /** A frame's bytes are determined by it, up to the four bits that are ignored. */
  lemma BytesDetermined(b: seq<byte>, c: seq<byte>, f: Frame)
    requires Carries(b, f) && Carries(c, f)
    ensures |b| == |c| && b[0] / 16 == c[0] / 16 && b[1..] == c[1..]
  {
    var r := f.reliability;
    var n := BodyAt(r, f.split.Some?);
    assert |b| == |c| == n + |f.body| && b[n..] == c[n..] && b[0] / 16 == c[0] / 16;
    HeaderDetermined(b, c, f);
    hide *;
    SameTails(b, c, n);
  }

  lemma HeaderDetermined(b: seq<byte>, c: seq<byte>, f: Frame)
    requires Carries(b, f) && Carries(c, f)
    ensures forall i :: 0 < i < BodyAt(f.reliability, f.split.Some?) ==> b[i] == c[i]
  {
    var r := f.reliability;
    SameBytes16(b, c, 1, 8 * (|f.body| % 0x1_0000_0000));
    if HasMessageIndex(r) { SameBytes24(b, c, 3, f.reliableIndex.value); }
    if HasSequenceIndex(r) { SameBytes24(b, c, SequenceAt(r), f.sequenceIndex.value); }
    if HasOrderIndex(r) { SameBytes24(b, c, OrderAt(r), f.orderIndex.value); }
    if f.split.Some? { SameSplit(b, c, SplitAt(r), f.split.value); }
    hide Le24, Be16, SplitInfoAt, KindNumber;
  }

  lemma SameTails(b: seq<byte>, c: seq<byte>, n: nat)
    requires 0 < n <= |b| == |c| && b[n..] == c[n..] && forall i :: 0 < i < n ==> b[i] == c[i]
    ensures b[1..] == c[1..]
  {
    assert b[1..] == b[1..n] + b[n..] && c[1..] == c[1..n] + c[n..];
  }

  lemma SameSplit(b: seq<byte>, c: seq<byte>, k: nat, s: SplitInfo)
    requires SplitInfoAt(b, k, s) && SplitInfoAt(c, k, s)
    ensures forall i :: k <= i < k + 10 ==> b[i] == c[i]
  {
    SameBytes32(b, c, k, s.count);
    SameBytes16(b, c, k + 4, s.id);
    SameBytes32(b, c, k + 6, s.index);
    hide Be16, Be32;
  }

  /** Reading a frame ignores the low four bits of its first byte. */
  lemma HintsIgnored(s: seq<byte>, t: seq<byte>)
    requires s != [] && t != [] && s[0] / 16 == t[0] / 16 && s[1..] == t[1..]
    ensures TakeFrame(s) == TakeFrame(t)
  {
    hide TakeFields;
    assert s[0] / 32 == t[0] / 32;
  }

  /** Exactly what a frame is read from: all and only the bytes that carry it. */
  lemma FrameReadExactly(s: seq<byte>, f: Frame, rest: seq<byte>)
    ensures TakeFrame(s) == Ok((f, rest)) <==> BeginsWith(s, f, rest)
  {
    hide *;
    if TakeFrame(s) == Ok((f, rest)) {
      FrameNormalises(s);
      EncodedFrame(f);
      ReadCarries(s, f, rest);
    }
    if BeginsWith(s, f, rest) {
      Survives(s, f, rest);
      FrameRoundTrip(f, rest);
      EncodedFrame(f);
      SameButHints(s, f, rest, EncodeFrame(f).value);
      HintsIgnored(s, EncodeFrame(f).value + rest);
    }
  }

  lemma ReadCarries(s: seq<byte>, f: Frame, rest: seq<byte>)
    requires f.WellFormed() && |s| == f.Size() + |rest| && rest == s[f.Size()..] && f.Size() > 0
    requires EncodeFrame(f).Ok? && EncodeFrame(f).value == [ClearHints(s[0])] + s[1..f.Size()]
    requires Carries(EncodeFrame(f).value, f)
    ensures BeginsWith(s, f, rest)
  {
    hide EncodeFrame;
    var b, c := EncodeFrame(f).value, s[..f.Size()];
    assert c == [s[0]] + s[1..f.Size()] && |b| == WireSize(f);
    FrontCarries(b, c, f);
  }

  lemma FrontCarries(b: seq<byte>, c: seq<byte>, f: Frame)
    requires Carries(b, f) && |b| == |c| && b[0] / 16 == c[0] / 16 && b[1..] == c[1..]
    ensures Carries(c, f)
  {
    var r := f.reliability;
    TailSame(b, c, BodyAt(r, f.split.Some?));
    assert b[0] / 32 == c[0] / 32 && b[0] / 16 % 2 == c[0] / 16 % 2;
    StillAt(b, c, 1);
    StillAt(b, c, 3);
    StillAt(b, c, SequenceAt(r));
    StillAt(b, c, OrderAt(r));
    StillAt(b, c, SplitAt(r));
    hide Le24, Be16, SplitInfoAt, KindNumber;
  }

  lemma TailSame(b: seq<byte>, c: seq<byte>, n: nat)
    requires 0 < n <= |b| == |c| && b[1..] == c[1..]
    ensures b[n..] == c[n..] && forall i :: 0 < i < |b| ==> c[i] == b[i]
  {
    assert b[n..] == b[1..][n - 1..] && c[n..] == c[1..][n - 1..];
    forall i | 0 < i < |b|
      ensures c[i] == b[i]
    {
      assert c[i] == c[1..][i - 1] && b[i] == b[1..][i - 1];
    }
  }

  lemma StillAt(b: seq<byte>, c: seq<byte>, k: nat)
    requires k > 0 && |b| == |c| && forall i :: 0 < i < |b| ==> c[i] == b[i]
    ensures forall v :: Le24(b, k, v) ==> Le24(c, k, v)
    ensures forall v :: Be16(b, k, v) ==> Be16(c, k, v)
    ensures forall s :: SplitInfoAt(b, k, s) ==> SplitInfoAt(c, k, s)
  {
  }

  lemma Survives(s: seq<byte>, f: Frame, rest: seq<byte>)
    requires BeginsWith(s, f, rest)
    ensures f.WellFormed() && WireSize(f) == f.Size()
  {
  }

  lemma SameButHints(s: seq<byte>, f: Frame, rest: seq<byte>, b: seq<byte>)
    requires BeginsWith(s, f, rest) && Carries(b, f)
    ensures s != [] && b != [] && s[0] / 16 == (b + rest)[0] / 16 && s[1..] == (b + rest)[1..]
  {
    var c := s[..WireSize(f)];
    BytesDetermined(b, c, f);
    assert s == c + rest;
    assert s[1..] == c[1..] + rest && (b + rest)[1..] == b[1..] + rest;
    hide Carries;
  }

  /** The bytes in front of the body, as the first byte announces them. */
  function HeaderSize(flags: byte): nat {
    (match flags / 32 case 0 => 3 case 1 => 10 case 2 => 6 case 3 => 10 case _ => 13) + if flags / 16 % 2 == 1 then 10 else 0
  }

  /** Eight times the length of the body, as the second and third byte announce it. */
  function BitsAt(s: seq<byte>): nat
    requires |s| >= 3
  {
    0x100 * (s[1] as int) + (s[2] as int)
  }

  lemma HeaderRead(s: seq<byte>)
    requires |s| >= 3 && s[0] < 160
    ensures TakeHeader(s).Ok? <==> BitsAt(s) % 8 == 0
    ensures TakeHeader(s).Err? ==> TakeHeader(s).error == LengthNotWholeBytes
    ensures TakeHeader(s).Ok? ==>
              var (h, rest) := TakeHeader(s).value;
              && rest == s[3..] && h.bodyLength == BitsAt(s) / 8 && BodyAt(h.reliability, h.isSplit) == HeaderSize(s[0])
  {
    assert s[1..][2..] == s[3..];
  }

  lemma OptionalFits(present: bool, s: seq<byte>)
    ensures TakeOptU24(present, s).Ok? <==> (present ==> |s| >= 3)
    ensures TakeOptU24(present, s).Err? ==> TakeOptU24(present, s).error == Truncated
    ensures TakeOptU24(present, s).Ok? ==> |TakeOptU24(present, s).value.1| == |s| - if present then 3 else 0
  {
  }

  lemma OrderFits(present: bool, s: seq<byte>)
    ensures TakeOrder(present, s).Ok? <==> (present ==> |s| >= 4)
    ensures TakeOrder(present, s).Err? ==> TakeOrder(present, s).error == Truncated
    ensures TakeOrder(present, s).Ok? ==> |TakeOrder(present, s).value.1| == |s| - if present then 4 else 0
  {
  }

  lemma SplitFits(present: bool, s: seq<byte>)
    ensures TakeSplit(present, s).Ok? <==> (present ==> |s| >= 10)
    ensures TakeSplit(present, s).Err? ==> TakeSplit(present, s).error == Truncated
    ensures TakeSplit(present, s).Ok? ==> |TakeSplit(present, s).value.1| == |s| - if present then 10 else 0
  {
  }

  lemma FieldsFit(r: Reliability, isSplit: bool, n: nat, s: seq<byte>)
    ensures TakeFields(r, isSplit, n, s).Ok? <==> BodyAt(r, isSplit) + n <= |s| + 3
    ensures TakeFields(r, isSplit, n, s).Err? ==> TakeFields(r, isSplit, n, s).error == Truncated
  {
    hide TakeOptU24, TakeOrder, TakeSplit;
    OptionalFits(r.IsReliable(), s);
    if TakeOptU24(r.IsReliable(), s).Ok? {
      var s1 := TakeOptU24(r.IsReliable(), s).value.1;
      OptionalFits(r.IsSequenced(), s1);
      if TakeOptU24(r.IsSequenced(), s1).Ok? {
        var s2 := TakeOptU24(r.IsSequenced(), s1).value.1;
        OrderFits(r.IsOrdered(), s2);
        if TakeOrder(r.IsOrdered(), s2).Ok? {
          SplitFits(isSplit, TakeOrder(r.IsOrdered(), s2).value.1);
        }
      }
    }
  }

  /** Exactly which bytes begin with a frame, and which error the others give. */
  lemma FrameAcceptedExactly(s: seq<byte>)
    ensures TakeFrame(s).Ok? <==>
              |s| >= 3 && s[0] < 160 && BitsAt(s) % 8 == 0 && HeaderSize(s[0]) + BitsAt(s) / 8 <= |s|
    ensures TakeFrame(s) == Err(UnsupportedReliability) <==> s != [] && s[0] >= 160
    ensures TakeFrame(s) == Err(LengthNotWholeBytes) <==> |s| >= 3 && s[0] < 160 && BitsAt(s) % 8 != 0
    ensures TakeFrame(s).Err? && (s != [] ==> s[0] < 160) && (|s| >= 3 ==> BitsAt(s) % 8 == 0) ==> TakeFrame(s) == Err(Truncated)
  {
    if |s| >= 3 && s[0] < 160 {
      HeaderRead(s);
      hide TakeHeader, TakeFields, BitsAt, HeaderSize;
      if TakeHeader(s).Ok? {
        var h := TakeHeader(s).value.0;
        FieldsFit(h.reliability, h.isSplit, h.bodyLength, s[3..]);
      }
    } else {
      hide TakeFields;
    }
  }

  /** Exactly which frames the encoder refuses, and why. */
  lemma FrameRefusedExactly(f: Frame)
    ensures var called := f.reliableIndex.Some? == HasMessageIndex(f.reliability)
                          && f.sequenceIndex.Some? == HasSequenceIndex(f.reliability)
                          && f.orderIndex.Some? == HasOrderIndex(f.reliability);
            var fits := (f.reliableIndex.Some? ==> f.reliableIndex.value < 0x100_0000)
                        && (f.sequenceIndex.Some? ==> f.sequenceIndex.value < 0x100_0000)
                        && (f.orderIndex.Some? ==> f.orderIndex.value < 0x100_0000);
            && (EncodeFrame(f) == Err(IndexMismatch) <==> !called)
            && (EncodeFrame(f) == Err(IndexTooLarge) <==> called && !fits)
            && (EncodeFrame(f) == Err(BodyTooLarge) <==> called && fits && |f.body| % 0x1_0000_0000 > 8191)
            && (EncodeFrame(f).Ok? <==> called && fits && |f.body| % 0x1_0000_0000 <= 8191)
  {
    hide FrameBytes;
  }

  // ---------- Datagrams ----------

  /** `s` is these frames, one after another to its end. */
  ghost predicate Tiled(s: seq<byte>, frames: seq<Frame>)
    decreases |frames|
  {
    if frames == [] then s == []
    else WireSize(frames[0]) <= |s| && Carries(s[..WireSize(frames[0])], frames[0]) && Tiled(s[WireSize(frames[0])..], frames[1..])
  }

  /** The frames have nothing that the wire does not carry. */
  ghost predicate Plain(frames: seq<Frame>) {
    forall f :: f in frames ==> |f.body| <= 8191 && (!HasOrderIndex(f.reliability) ==> f.orderChannel == 0)
  }

  lemma {:induction false} EncodedFrames(frames: seq<Frame>)
    requires EncodeFrames(frames).Ok?
    ensures Tiled(EncodeFrames(frames).value, frames)
  {
    hide EncodeFrame, Carries;
    if frames != [] {
      EncodedFrames(frames[1..]);
      EncodedFrame(frames[0]);
      var b, rest := EncodeFrame(frames[0]).value, EncodeFrames(frames[1..]).value;
      SizeOf(b, frames[0]);
      assert (b + rest)[..|b|] == b && (b + rest)[|b|..] == rest;
    }
  }

  lemma SizeOf(b: seq<byte>, f: Frame)
    requires Carries(b, f)
    ensures |b| == WireSize(f)
  {
  }

  lemma {:induction false} FramesReadExactly(s: seq<byte>, frames: seq<Frame>)
    ensures DecodeFrames(s) == Ok(frames) <==> Tiled(s, frames) && Plain(frames)
    decreases |s|
  {
    hide TakeFrame, Carries, WireSize;
    if s == [] {
      NothingTiled(frames);
    } else if TakeFrame(s).Ok? {
      var (f, rest) := TakeFrame(s).value;
      FrameReadExactly(s, f, rest);
      if frames != [] {
        FirstTaken(s, f, rest, frames);
        FramesReadExactly(rest, frames[1..]);
        PlainFirst(frames);
        assert [frames[0]] + frames[1..] == frames;
      }
    } else if frames != [] && Tiled(s, frames) && Plain(frames) {
      FrameReadExactly(s, frames[0], s[WireSize(frames[0])..]);
    }
  }

  lemma NothingTiled(frames: seq<Frame>)
    ensures Tiled([], frames) <==> frames == []
  {
  }

  lemma PlainFirst(frames: seq<Frame>)
    requires frames != []
    ensures Plain(frames) <==> Plain([frames[0]]) && Plain(frames[1..])
  {
    assert frames == [frames[0]] + frames[1..];
  }

  /** The frame taken from the front is the one tiled there, if there is one. */
  lemma FirstTaken(s: seq<byte>, f: Frame, rest: seq<byte>, frames: seq<Frame>)
    requires TakeFrame(s) == Ok((f, rest)) && BeginsWith(s, f, rest) && frames != []
    ensures Plain([f])
    ensures frames[0] == f ==> (Tiled(s, frames) <==> Tiled(rest, frames[1..]))
    ensures Tiled(s, frames) && Plain(frames) ==> frames[0] == f
  {
    hide Carries, TakeFrame, WireSize;
    if Tiled(s, frames) && Plain(frames) {
      FrameReadExactly(s, frames[0], s[WireSize(frames[0])..]);
    }
  }

  /** Where reading frames fails, and with which error: at the first place where no frame begins. */
  ghost predicate StopsAt(s: seq<byte>, frames: seq<Frame>, n: nat, e: Error) {
    n < |s| && Tiled(s[..n], frames) && Plain(frames) && TakeFrame(s[n..]) == Err(e)
  }

  lemma {:induction false} FramesRefused(s: seq<byte>) returns (frames: seq<Frame>, n: nat)
    requires DecodeFrames(s).Err?
    ensures StopsAt(s, frames, n, DecodeFrames(s).error)
    decreases |s|
  {
    hide TakeFrame, Carries, WireSize, Tiled, Plain;
    if TakeFrame(s).Err? {
      frames, n := [], 0;
      NothingTiled([]);
      assert s[0..] == s && s[..0] == [] && Plain([]) by { NonePlain(); }
    } else {
      var (f, rest) := TakeFrame(s).value;
      var more, k := FramesRefused(rest);
      FrameReadExactly(s, f, rest);
      FrontTiled(s, f, rest, more, k);
      frames, n := [f] + more, WireSize(f) + k;
      assert s[n..] == rest[k..];
    }
  }

  lemma NonePlain()
    ensures Plain([])
  {
  }

  lemma FrontTiled(s: seq<byte>, f: Frame, rest: seq<byte>, more: seq<Frame>, k: nat)
    requires BeginsWith(s, f, rest) && k <= |rest| && Tiled(rest[..k], more) && Plain(more)
    ensures WireSize(f) + k <= |s| && rest == s[WireSize(f)..]
    ensures Tiled(s[..WireSize(f) + k], [f] + more) && Plain([f] + more)
  {
    hide Carries, WireSize;
    var front := s[..WireSize(f) + k];
    assert front[..WireSize(f)] == s[..WireSize(f)] && front[WireSize(f)..] == rest[..k];
    assert ([f] + more)[1..] == more;
  }

  /** Exactly which bytes are not a sequence of frames, and with which error. */
  lemma {:induction false} FramesRefusedExactly(s: seq<byte>, e: Error)
    ensures DecodeFrames(s) == Err(e) <==> exists frames, n :: StopsAt(s, frames, n, e)
  {
    hide *;
    if DecodeFrames(s) == Err(e) {
      var frames, n := FramesRefused(s);
    }
    if frames, n :| StopsAt(s, frames, n, e) {
      StopsRefused(s, frames, n, e);
    }
  }

  lemma {:induction false} StopsRefused(s: seq<byte>, frames: seq<Frame>, n: nat, e: Error)
    requires StopsAt(s, frames, n, e)
    ensures DecodeFrames(s) == Err(e)
    decreases |frames|
  {
    hide TakeFrame, Carries, WireSize;
    if frames == [] {
      assert s[n..] == s by { assert n == 0; }
    } else {
      var w := WireSize(frames[0]);
      assert w <= n && s[..n][..w] == s[..w] && s[..n][w..] == s[w..][..n - w];
      FrameReadExactly(s, frames[0], s[w..]);
      PlainFirst(frames);
      assert s[w..][n - w..] == s[n..];
      StopsRefused(s[w..], frames[1..], n - w, e);
    }
  }

  /** Every datagram the encoder accepts, byte by byte. */
  lemma EncodedDatagram(d: Datagram)
    requires EncodeDatagram(d).Ok?
    ensures var b := EncodeDatagram(d).value;
            |b| >= 4 && b[0] == 128 && Le24(b, 1, d.sequenceNumber % 0x100_0000) && Tiled(b[4..], d.frames)
  {
    hide EncodeFrames, Tiled;
    EncodedFrames(d.frames);
    var b := EncodeDatagram(d).value;
    LowBits(d.sequenceNumber);
    Moved(b, 1, U24Le(d.sequenceNumber), d.sequenceNumber % 0x100_0000);
    assert b[4..] == EncodeFrames(d.frames).value;
  }

  lemma LowBits(v: u32)
    ensures Le24(U24Le(v), 0, v % 0x100_0000)
  {
    var a := v / 256;
    var b := a / 256;
    assert v / 65536 == b;
    Remainder(v, b / 256, v % 256 + 256 * (a % 256) + 65536 * (b % 256));
  }

  lemma Remainder(v: nat, turns: nat, rest: nat)
    requires v == 0x100_0000 * turns + rest && rest < 0x100_0000
    ensures v % 0x100_0000 == rest
  {
  }

  lemma NumberRead(s: seq<byte>)
    requires |s| >= 4
    ensures TakeU24Le(s[1..]).Ok? && TakeU24Le(s[1..]).value.1 == s[4..] && Le24(s, 1, TakeU24Le(s[1..]).value.0)
  {
    assert s[1..][3..] == s[4..];
  }

  /** Exactly which bytes are classified as a datagram, and as which. */
  lemma DatagramReadExactly(data: seq<byte>, d: Datagram)
    ensures Classify(data) == Ok(IncomingDatagram(d)) <==>
              && |data| >= 4 && 128 <= data[0] < 160
              && Le24(data, 1, d.sequenceNumber) && Tiled(data[4..], d.frames) && Plain(d.frames)
  {
    hide DecodeFrames, Tiled, Plain, TakeRecords, TakeU24Le;
    if |data| >= 4 {
      FramesReadExactly(data[4..], d.frames);
      NumberRead(data);
    } else if data != [] {
      ShortNumber(data);
    }
  }

  lemma ShortNumber(s: seq<byte>)
    requires 0 < |s| < 4
    ensures TakeU24Le(s[1..]) == Err(Truncated)
  {
  }

  // ---------- Acknowledgements ----------

  function MarkerSize(r: AckRange): nat {
    if r.Single? then 4 else 7
  }

  /** A record: the number 1 and one number, or anything else and two. */
  predicate RecordAt(b: seq<byte>, r: AckRange) {
    match r
    case Single(start) => |b| >= 4 && b[0] == 1 && Le24(b, 1, start)
    case Range(start, end) => |b| >= 7 && b[0] != 1 && Le24(b, 1, start) && Le24(b, 4, end)
  }

  /** `s` begins with these records, one after another. */
  ghost predicate RecordsAt(s: seq<byte>, ranges: seq<AckRange>)
    decreases |ranges|
  {
    ranges != [] ==> RecordAt(s, ranges[0]) && RecordsAt(s[MarkerSize(ranges[0])..], ranges[1..])
  }

  /** As written, a record of two numbers is marked with 0, and nothing follows the last one. */
  ghost predicate RecordsFill(s: seq<byte>, ranges: seq<AckRange>)
    decreases |ranges|
  {
    if ranges == [] then s == []
    else RecordAt(s, ranges[0]) && (ranges[0].Range? ==> s[0] == 0) && RecordsFill(s[MarkerSize(ranges[0])..], ranges[1..])
  }

  lemma RecordWritten(r: AckRange, tail: seq<byte>)
    ensures var s := RecordBytes(r) + tail;
            RecordAt(s, r) && (r.Range? ==> s[0] == 0) && s[MarkerSize(r)..] == tail
  {
    var s := RecordBytes(r) + tail;
    U24LeIs(r.start);
    Moved(s, 1, U24Le(r.start), r.start);
    if r.Range? {
      U24LeIs(r.end);
      Moved(s, 4, U24Le(r.end), r.end);
    }
  }

  lemma {:induction false} RecordsWritten(ranges: seq<AckRange>)
    ensures RecordsFill(RecordsBytes(ranges), ranges)
  {
    hide RecordBytes, RecordAt;
    if ranges != [] {
      RecordsWritten(ranges[1..]);
      RecordWritten(ranges[0], RecordsBytes(ranges[1..]));
    }
  }

  /** Every ACK and NACK the encoder accepts, byte by byte; it refuses those whose records 16 bits cannot count. */
  lemma EncodedAck(a: Acknowledgement)
    ensures EncodeAck(a).Err? <==> |a.ranges| > 65535
    ensures EncodeAck(a).Err? ==> EncodeAck(a) == Err(TooManyRecords)
    ensures EncodeAck(a).Ok? ==>
              var b := EncodeAck(a).value;
              && |b| >= 3 && b[0] == (if a.isAck then 192 else 160) && Be16(b, 1, |a.ranges|)
              && RecordsFill(b[3..], a.ranges)
  {
    hide RecordsBytes;
    if EncodeAck(a).Ok? {
      RecordsWritten(a.ranges);
      var b := EncodeAck(a).value;
      U16BeIs(|a.ranges|);
      Moved(b, 1, U16Be(|a.ranges|), |a.ranges|);
      assert b[3..] == RecordsBytes(a.ranges);
    }
  }

  lemma RecordRead(s: seq<byte>, r: AckRange)
    ensures RecordAt(s, r) <==> TakeRecord(s).Ok? && TakeRecord(s).value.0 == r
    ensures RecordAt(s, r) ==> TakeRecord(s).value.1 == s[MarkerSize(r)..]
    ensures TakeRecord(s).Err? ==> TakeRecord(s) == Err(Truncated)
  {
    if |s| >= 4 {
      assert s[1..][3..] == s[4..];
      NumberRead(s);
      if |s| >= 7 { SecondNumber(s); }
      hide TakeU24Le, Le24;
      if RecordAt(s, r) { OneNumber(s, 1, r.start, TakeU24Le(s[1..]).value.0); }
      if RecordAt(s, r) && r.Range? { OneNumber(s, 4, r.end, TakeU24Le(s[4..]).value.0); }
    }
  }

  lemma SecondNumber(s: seq<byte>)
    requires |s| >= 7
    ensures TakeU24Le(s[4..]).Ok? && TakeU24Le(s[4..]).value.1 == s[7..] && Le24(s, 4, TakeU24Le(s[4..]).value.0)
  {
    assert s[4..][3..] == s[7..];
  }

  lemma OneNumber(s: seq<byte>, k: nat, v: int, w: int)
    requires Le24(s, k, v) && Le24(s, k, w)
    ensures v == w
  {
  }

  lemma {:induction false} RecordsRead(s: seq<byte>, ranges: seq<AckRange>)
    ensures TakeRecords(s, |ranges|) == Ok(ranges) <==> RecordsAt(s, ranges)
    decreases |ranges|
  {
    hide TakeRecord, RecordAt;
    if ranges != [] {
      RecordRead(s, ranges[0]);
      if TakeRecord(s).Ok? {
        RecordsRead(TakeRecord(s).value.1, ranges[1..]);
        FirstRecord(s, ranges);
      }
    }
  }

  lemma FirstRecord(s: seq<byte>, ranges: seq<AckRange>)
    requires ranges != [] && TakeRecord(s).Ok?
    ensures var (first, rest) := TakeRecord(s).value;
            TakeRecords(s, |ranges|) == Ok(ranges) <==> first == ranges[0] && TakeRecords(rest, |ranges| - 1) == Ok(ranges[1..])
  {
    hide TakeRecord;
    assert [ranges[0]] + ranges[1..] == ranges;
    var (first, rest) := TakeRecord(s).value;
    if TakeRecords(rest, |ranges| - 1).Ok? {
      assert ([first] + TakeRecords(rest, |ranges| - 1).value)[1..] == TakeRecords(rest, |ranges| - 1).value;
    }
  }

  lemma {:induction false} RecordsCounted(s: seq<byte>, count: nat)
    ensures TakeRecords(s, count).Ok? ==> |TakeRecords(s, count).value| == count
    ensures TakeRecords(s, count).Err? ==> TakeRecords(s, count) == Err(Truncated)
    decreases count
  {
    hide TakeRecord;
    if count != 0 {
      RecordRead(s, Single(0));
      if TakeRecord(s).Ok? { RecordsCounted(TakeRecord(s).value.1, count - 1); }
    }
  }

  /** Exactly which bytes are classified as an ACK or a NACK, and as which; what follows the records is ignored. */
  lemma AckReadExactly(data: seq<byte>, a: Acknowledgement)
    ensures Classify(data) == Ok(if a.isAck then IncomingAck(a) else IncomingNack(a)) <==>
              && |data| >= 3 && data[0] >= 160 && (a.isAck <==> data[0] >= 192)
              && Be16(data, 1, |a.ranges|) && RecordsAt(data[3..], a.ranges)
    ensures data != [] && data[0] >= 160 && Classify(data).Err? ==> Classify(data) == Err(Truncated)
  {
    hide TakeRecords, RecordsAt, DecodeFrames;
    if |data| >= 3 && data[0] >= 160 {
      assert data[1..][2..] == data[3..];
      var count := TakeU16Be(data[1..]).value.0;
      RecordsCounted(data[3..], count);
      RecordsRead(data[3..], a.ranges);
    }
  }

  predicate KindFits(first: byte, packet: Incoming) {
    match packet
    case IncomingAck(a) => a.isAck && first >= 192
    case IncomingNack(a) => !a.isAck && 160 <= first < 192
    case IncomingDatagram(_) => 128 <= first < 160
  }

  /** The first byte alone decides what a packet can be. */
  lemma FirstByteDecides(data: seq<byte>)
    ensures Classify(data) == Err(EmptyPacket) <==> data == []
    ensures Classify(data) == Err(UnknownFlag) <==> data != [] && data[0] < 128
    ensures Classify(data).Ok? ==> data != [] && KindFits(data[0], Classify(data).value)
  {
    hide TakeRecords, DecodeFrames;
    if |data| >= 3 && data[0] >= 160 { RecordsCounted(data[3..], TakeU16Be(data[1..]).value.0); }
    if |data| >= 4 { FrameErrors(data[4..]); }
    if |data| >= 3 { assert data[1..][2..] == data[3..]; }
    if |data| >= 4 { assert data[1..][3..] == data[4..]; }
  }

  lemma FrameErrors(s: seq<byte>)
    ensures DecodeFrames(s).Err? ==> DecodeFrames(s).error in {Truncated, UnsupportedReliability, LengthNotWholeBytes}
  {
    hide *;
    if DecodeFrames(s).Err? {
      var frames, n := FramesRefused(s);
      StopsError(s, frames, n, DecodeFrames(s).error);
    }
  }

  lemma StopsError(s: seq<byte>, frames: seq<Frame>, n: nat, e: Error)
    requires StopsAt(s, frames, n, e)
    ensures e in {Truncated, UnsupportedReliability, LengthNotWholeBytes}
  {
    FrameAcceptedExactly(s[n..]);
    hide TakeFrame, Carries, Tiled;
  }
}
