/**
  The game layer above the transport: zig-zag integers, game packets, and the
  batches that carry them, optionally compressed. Compression is a pair of
  functions about which nothing is known here.
 */
module GamePackets {
  import opened Basics
  import opened Varints
  import VarintCodec

  // ---------- Zig-zag integers ----------

  function BitXor(a: nat, b: nat): nat {
    if a == 0 then b
    else if b == 0 then a
    else (if a % 2 != b % 2 then 1 else 0) + 2 * BitXor(a / 2, b / 2)
  }

  /** Numbers of small magnitude become small: 0, -1, 1, -2, 2, ... */
  function ZigZag(v: int): nat {
    if v >= 0 then 2 * v else -2 * v - 1
  }

  function FromZigZag(z: nat): int {
    if z % 2 == 0 then z / 2 else -(z / 2) - 1
  }

  lemma {:induction false} XorOnes(a: nat, n: nat)
    requires a < VarintCodec.Power2(n)
    ensures BitXor(a, VarintCodec.Power2(n) - 1) == VarintCodec.Power2(n) - 1 - a
  {
    if n != 0 && a != 0 {
      assert VarintCodec.Power2(n) == 2 * VarintCodec.Power2(n - 1);
      XorOnes(a / 2, n - 1);
    }
  }

  /** Exclusive or with a sign's bits: all ones complement the 32 bits, all zeros keep them. */
  lemma XorSign(a: u32)
    ensures BitXor(a, 0xffff_ffff) == 0xffff_ffff - a
    ensures BitXor(a, 0) == a
  {
    Power32();
    hide VarintCodec.Power2;
    XorOnes(a, 32);
  }

  lemma Power32()
    ensures VarintCodec.Power2(32) == 0x1_0000_0000
  {
    assert VarintCodec.Power2(8) == 0x100;
    assert VarintCodec.Power2(16) == 0x1_0000;
    assert VarintCodec.Power2(24) == 0x100_0000;
  }

  function DecodedVarint32(data: seq<byte>): Result<(int, nat)> {
    var read :- Decoded32(data);
    Ok((FromZigZag(read.0), read.1))
  }

  method WriteVarint32(value: int) returns (out: seq<byte>)
    requires W32.Fits(value)
    ensures ZigZag(value) < 0x1_0000_0000 && out == Leb(ZigZag(value))
  {
    hide BitXor, Leb;
    var doubled: u32 := W32.Pattern(value) * 2 % 0x1_0000_0000;
    var sign: u32 := if value < 0 then 0xffff_ffff else 0;
    XorSign(doubled);
    out := VarintCodec.WriteVaruint32(BitXor(doubled, sign));
  }

  method ReadVarint32(data: seq<byte>) returns (r: Result<(int, nat)>)
    ensures r == DecodedVarint32(data)
  {
    hide BitXor, Decoded32;
    var read :- VarintCodec.ReadVaruint32(data);
    var half: u32 := read.0 / 2;
    var lowBit: int := read.0 % 2;
    var sign: u32 := W32.Pattern(-lowBit);
    XorSign(half);
    return Ok((W32.Signed(BitXor(half, sign)), read.1));
  }

  // ---------- Packets ----------

  datatype GamePacket = GamePacket(id: u32, payload: seq<byte>)

  /** The payload's length is truncated to 32 bits. */
  function PacketBytes(p: GamePacket): seq<byte> {
    Leb(p.id) + Leb(|p.payload| % 0x1_0000_0000) + p.payload
  }

  function TakePacket(data: seq<byte>): (r: Result<(GamePacket, nat)>)
    ensures r.Ok? ==> 0 < r.value.1 <= |data|
  {
    var id :- Decoded32(data);
    var len :- Decoded32(data[id.1..]);
    var start := id.1 + len.1;
    if |data| < start + len.0 then Err(Truncated)
    else Ok((GamePacket(id.0, data[start..start + len.0]), start + len.0))
  }

  method EncodePacket(p: GamePacket) returns (buf: seq<byte>)
    ensures buf == PacketBytes(p)
  {
    buf := VarintCodec.WriteVaruint32(p.id);
    var len := VarintCodec.WriteVaruint32(|p.payload| % 0x1_0000_0000);
    buf := buf + len;
    buf := buf + p.payload;
  }

  method DecodePacket(data: seq<byte>) returns (r: Result<(GamePacket, nat)>)
    ensures r == TakePacket(data)
  {
    hide Decoded32;
    var id :- VarintCodec.ReadVaruint32(data);
    DecodedLength(data);
    var len :- VarintCodec.ReadVaruint32(data[id.1..]);
    DecodedLength(data[id.1..]);
    var start := id.1 + len.1;
    if |data| < start + len.0 {
      return Err(Truncated);
    }
    var payload := data[start..start + len.0];
    return Ok((GamePacket(id.0, payload), start + len.0));
  }

  lemma DecodedLength(data: seq<byte>)
    ensures Decoded32(data).Ok? ==> 0 < Decoded32(data).value.1 <= |data|
  {
  }

  // ---------- Batch bodies ----------

  function BatchBody(packets: seq<GamePacket>): seq<byte> {
    if packets == [] then [] else PacketBytes(packets[0]) + BatchBody(packets[1..])
  }

  function PacketsOf(body: seq<byte>): Result<seq<GamePacket>> {
    if body == [] then Ok([])
    else
      var first :- TakePacket(body);
      var rest :- PacketsOf(body[first.1..]);
      Ok([first.0] + rest)
  }

  lemma {:induction false} BodyAppend(packets: seq<GamePacket>, p: GamePacket)
    ensures BatchBody(packets + [p]) == BatchBody(packets) + PacketBytes(p)
  {
    hide PacketBytes;
    if packets == [] {
      assert [p][1..] == [] && packets + [p] == [p];
    } else {
      assert (packets + [p])[1..] == packets[1..] + [p];
      BodyAppend(packets[1..], p);
    }
  }

  method BuildBatchBody(packets: seq<GamePacket>) returns (buf: seq<byte>)
    ensures buf == BatchBody(packets)
  {
    hide PacketBytes;
    buf := [];
    for i := 0 to |packets|
      invariant buf == BatchBody(packets[..i])
    {
      var encoded := EncodePacket(packets[i]);
      buf := buf + encoded;
      BodyAppend(packets[..i], packets[i]);
      assert packets[..i + 1] == packets[..i] + [packets[i]];
    }
    assert packets[..|packets|] == packets;
  }

  method DecodeBatchBody(body: seq<byte>) returns (r: Result<seq<GamePacket>>)
    ensures r == PacketsOf(body)
  {
    hide TakePacket;
    var packets, off := [], 0;
    assert body[0..] == body;
    AfterNothing(PacketsOf(body));
    while off < |body|
      invariant off <= |body|
      invariant PacketsOf(body) == After(packets, PacketsOf(body[off..]))
    {
      var taken :- DecodePacket(body[off..]);
      assert body[off..][taken.1..] == body[off + taken.1..];
      AfterMore(packets, [taken.0], PacketsOf(body[off + taken.1..]));
      packets := packets + [taken.0];
      off := off + taken.1;
    }
    assert body[off..] == [] && packets + [] == packets;
    return Ok(packets);
  }

  // ---------- Batches ----------

  type Compress = seq<byte> -> Result<seq<byte>>

  const ID_BATCH: byte := 0xfe
  const FLATE: u16 := 0
  const SNAPPY: u16 := 1
  const NO_COMPRESSION: u16 := 0xffff

  function LegacyBatch(packets: seq<GamePacket>, zip: Compress): Result<seq<byte>> {
    var stream :- zip(BatchBody(packets));
    Ok([ID_BATCH] + stream)
  }

  function Batch(packets: seq<GamePacket>, algorithm: u16, zip: Compress): Result<seq<byte>> {
    var body := BatchBody(packets);
    if algorithm == FLATE then
      var stream :- zip(body);
      Ok([ID_BATCH, FLATE] + stream)
    else if algorithm == NO_COMPRESSION then Ok([ID_BATCH] + body)
    else if algorithm == SNAPPY then Err(UnsupportedCompression)
    else Err(UnknownCompression)
  }

  /** The three shapes are tried in order: prefixed stream, bare stream, packets as they are. */
  function PacketsOfBatch(data: seq<byte>, unzip: Compress): Result<seq<GamePacket>> {
    if data == [] then Err(EmptyPacket)
    else if data[0] != ID_BATCH then Err(NotABatch)
    else
      var rest := data[1..];
      if rest != [] && rest[0] == FLATE && unzip(rest[1..]).Ok? then PacketsOf(unzip(rest[1..]).value)
      else if unzip(rest).Ok? then PacketsOf(unzip(rest).value)
      else if PacketsOf(rest).Err? && rest != [] && rest[0] == SNAPPY then Err(UnsupportedCompression)
      else PacketsOf(rest)
  }

  method EncodeBatchLegacy(packets: seq<GamePacket>, zip: Compress) returns (r: Result<seq<byte>>)
    ensures r == LegacyBatch(packets, zip)
  {
    var body := BuildBatchBody(packets);
    var out := [ID_BATCH];
    var stream :- zip(body);
    out := out + stream;
    return Ok(out);
  }

  method EncodeBatch(packets: seq<GamePacket>, algorithm: u16, zip: Compress) returns (r: Result<seq<byte>>)
    ensures r == Batch(packets, algorithm, zip)
  {
    var body := BuildBatchBody(packets);
    var out := [ID_BATCH];
    if algorithm == FLATE {
      out := out + [FLATE];
      var stream :- zip(body);
      assert out == [ID_BATCH, FLATE];
      out := out + stream;
    } else if algorithm == NO_COMPRESSION {
      out := out + body;
    } else if algorithm == SNAPPY {
      return Err(UnsupportedCompression);
    } else {
      return Err(UnknownCompression);
    }
    return Ok(out);
  }

  method DecodeBatch(data: seq<byte>, unzip: Compress) returns (r: Result<seq<GamePacket>>)
    ensures r == PacketsOfBatch(data, unzip)
  {
    hide PacketsOf;
    if data == [] {
      return Err(EmptyPacket);
    }
    var rest := data[1..];
    if data[0] != ID_BATCH {
      return Err(NotABatch);
    }
    if rest != [] && rest[0] == FLATE {
      var stream := unzip(rest[1..]);
      if stream.Ok? {
        r := DecodeBatchBody(stream.value);
        return;
      }
    }
    var stream := unzip(rest);
    if stream.Ok? {
      r := DecodeBatchBody(stream.value);
      return;
    }
    r := DecodeBatchBody(rest);
    if r.Err? && rest != [] && rest[0] == SNAPPY {
      r := Err(UnsupportedCompression);
    }
  }
}
