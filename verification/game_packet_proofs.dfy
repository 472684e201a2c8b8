/**
  Round trips of the game layer: signed integers, single packets, batch bodies
  and whole batches, each on exactly the inputs for which it holds.
 */
module GamePacketProofs {
  import opened Basics
  import opened Varints
  import opened GamePackets

  // ---------- Integers ----------

  /** Every 32-bit number survives zig-zag and varint coding, whatever follows it. */
  lemma Varint32RoundTrip(v: int, tail: seq<byte>)
    requires W32.Fits(v)
    ensures ZigZag(v) < 0x1_0000_0000
    ensures DecodedVarint32(Leb(ZigZag(v)) + tail) == Ok((v, |Leb(ZigZag(v))|))
  {
    hide Leb, Decoded32;
    DecodesEncoding(ZigZag(v), tail);
  }

  /** Every pattern stands for a 32-bit number, and for no other pattern's. */
  lemma ZigZagCovers(z: u32)
    ensures W32.Fits(FromZigZag(z)) && ZigZag(FromZigZag(z)) == z
  {
  }

  function Magnitude(v: int): nat {
    if v < 0 then -v else v
  }

  /** Numbers are interleaved by magnitude, the negative one of each pair first. */
  lemma ZigZagOrder(a: int, b: int)
    ensures ZigZag(0) == 0 && (a > 0 ==> ZigZag(-a) + 1 == ZigZag(a))
    ensures Magnitude(a) < Magnitude(b) ==> ZigZag(a) < ZigZag(b)
  {
  }

  // ---------- Packets ----------

  /** What is read back from an encoded packet: the payload as far as its truncated length says. */
  lemma PacketReadBack(p: GamePacket, tail: seq<byte>)
    ensures var len := |p.payload| % 0x1_0000_0000;
            TakePacket(PacketBytes(p) + tail) ==
              Ok((GamePacket(p.id, p.payload[..len]), |PacketBytes(p)| - |p.payload| + len))
  {
    hide Leb, Decoded32;
    var len: u32 := |p.payload| % 0x1_0000_0000;
    var data := PacketBytes(p) + tail;
    var afterId := Leb(len) + (p.payload + tail);
    assert data == Leb(p.id) + afterId;
    DecodesEncoding(p.id, afterId);
    assert data[|Leb(p.id)|..] == afterId;
    DecodesEncoding(len, p.payload + tail);
    var start := |Leb(p.id)| + |Leb(len)|;
    assert data[start..] == p.payload + tail;
    assert data[start..start + len] == p.payload[..len];
  }

  /** Where the fields of an encoded packet stand: the identifier, the length in 32 bits, the payload. */
  lemma PacketLayout(p: GamePacket)
    ensures var b := PacketBytes(p);
            && Decoded32(b).Ok? && Decoded32(b).value.0 == p.id && Decoded32(b).value.1 <= |b|
            && var rest := b[Decoded32(b).value.1..];
               && Decoded32(rest).Ok? && Decoded32(rest).value.0 == |p.payload| % 0x1_0000_0000
               && Decoded32(rest).value.1 <= |rest| && rest[Decoded32(rest).value.1..] == p.payload
  {
    hide Leb, Decoded32;
    var length := Leb(|p.payload| % 0x1_0000_0000);
    assert PacketBytes(p) == Leb(p.id) + (length + p.payload);
    DecodesEncoding(p.id, length + p.payload);
    assert PacketBytes(p)[|Leb(p.id)|..] == length + p.payload;
    DecodesEncoding(|p.payload| % 0x1_0000_0000, p.payload);
  }

  /** Exactly what begins with a packet, and which packet: all bytes of its payload must be there. */
  lemma PacketReadExactly(data: seq<byte>, p: GamePacket, n: nat)
    ensures TakePacket(data) == Ok((p, n)) <==>
              exists i: nat, j: nat :: IdAndLength(data, i, j, p.id, |p.payload|) && n == i + j + |p.payload| <= |data| && data[i + j..n] == p.payload
    ensures TakePacket(data).Err? ==> TakePacket(data).error in {Truncated, TooLong}
    ensures TakePacket(data) == Err(TooLong) <==>
              Decoded32(data) == Err(TooLong) || exists id: u32, i: nat :: LengthTooLong(data, id, i)
  {
    IntegerErrors(data);
    if Decoded32(data).Ok? { IntegerErrors(data[Decoded32(data).value.1..]); }
    hide Decoded32;
    if TakePacket(data) == Ok((p, n)) {
      var i := Decoded32(data).value.1;
      assert IdAndLength(data, i, Decoded32(data[i..]).value.1, p.id, |p.payload|);
    }
    if TakePacket(data) == Err(TooLong) && Decoded32(data).Ok? {
      assert LengthTooLong(data, Decoded32(data).value.0, Decoded32(data).value.1);
    }
  }

  predicate LengthTooLong(data: seq<byte>, id: u32, i: nat) {
    Decoded32(data) == Ok((id, i)) && i <= |data| && Decoded32(data[i..]) == Err(TooLong)
  }

  /** An identifier of `i` bytes and a length of `j`. */
  predicate IdAndLength(data: seq<byte>, i: nat, j: nat, id: int, length: int) {
    && Decoded32(data).Ok? && Decoded32(data).value == (id, i) && i <= |data|
    && Decoded32(data[i..]).Ok? && Decoded32(data[i..]).value == (length, j)
  }

  lemma IntegerErrors(data: seq<byte>)
    ensures Decoded32(data).Err? ==> Decoded32(data).error in {Truncated, TooLong}
    ensures Decoded32(data).Ok? ==> 0 < Decoded32(data).value.1 <= |data|
  {
    LengthErrors(data, 5);
    hide LebLength, LebValue;
  }

  /** Exactly when a packet comes back: when its length fits the 32 bits it is written in. */
  lemma PacketRoundTripExactly(p: GamePacket, tail: seq<byte>)
    ensures TakePacket(PacketBytes(p) + tail) == Ok((p, |PacketBytes(p)|)) <==> |p.payload| < 0x1_0000_0000
  {
    hide PacketBytes, TakePacket;
    PacketReadBack(p, tail);
    if |p.payload| < 0x1_0000_0000 {
      assert p.payload[..|p.payload|] == p.payload;
    } else {
      assert |p.payload[..|p.payload| % 0x1_0000_0000]| < |p.payload|;
    }
  }

  predicate AllFit(packets: seq<GamePacket>) {
    forall p :: p in packets ==> |p.payload| < 0x1_0000_0000
  }

  /** Splitting a concatenation of packets gives the packets back. */
  lemma {:induction false} BodyRoundTrip(packets: seq<GamePacket>)
    requires AllFit(packets)
    ensures PacketsOf(BatchBody(packets)) == Ok(packets)
  {
    hide PacketBytes, TakePacket;
    if packets != [] {
      var body := BatchBody(packets);
      PacketRoundTripExactly(packets[0], BatchBody(packets[1..]));
      assert body[|PacketBytes(packets[0])|..] == BatchBody(packets[1..]);
      BodyRoundTrip(packets[1..]);
      assert [packets[0]] + packets[1..] == packets;
    }
  }

  // ---------- Reading first ----------

  /** A packet that was read fits, and writing it again takes no more bytes than were read. */
  lemma TakenPacketFits(data: seq<byte>)
    requires TakePacket(data).Ok?
    ensures var (p, n) := TakePacket(data).value;
            |p.payload| < 0x1_0000_0000 && |PacketBytes(p)| <= n
  {
    hide Leb, LebValue, LebLength;
    var id := Decoded32(data).value;
    var len := Decoded32(data[id.1..]).value;
    DecodedShortest(data);
    DecodedShortest(data[id.1..]);
  }

  lemma DecodedShortest(s: seq<byte>)
    requires Decoded32(s).Ok?
    ensures |Leb(Decoded32(s).value.0)| <= Decoded32(s).value.1
  {
    hide Leb, LebValue;
    var n := Decoded32(s).value.1;
    PatternSigned(W32, LebValue(s[..n]));
    LebShort(LebValue(s[..n]) % 0x1_0000_0000, s[..n]);
  }

  /**
    Reading a body and writing its packets again never lengthens it, and the result reads as the same
    packets: over-long integers are the only thing that is lost.
   */
  lemma {:induction false} BodyNormalises(body: seq<byte>)
    requires PacketsOf(body).Ok?
    ensures var packets := PacketsOf(body).value;
            AllFit(packets) && |BatchBody(packets)| <= |body| && PacketsOf(BatchBody(packets)) == Ok(packets)
    decreases |body|
  {
    hide PacketBytes, TakePacket;
    if body != [] {
      var taken := TakePacket(body).value;
      TakenPacketFits(body);
      BodyNormalises(body[taken.1..]);
      var packets := PacketsOf(body).value;
      assert packets[1..] == PacketsOf(body[taken.1..]).value;
      BodyRoundTrip(packets);
    }
  }

  // ---------- Batches ----------

  /** A stream that the decompressor undoes, and that does not begin with a zero byte. */
  ghost predicate Undone(body: seq<byte>, stream: seq<byte>, unzip: Compress) {
    unzip(stream) == Ok(body) && stream != [] && stream[0] != 0
  }

  /** `batch` is the stream behind some first bytes, or the compressor's error. */
  predicate Carries(batch: Result<seq<byte>>, front: seq<byte>, stream: Result<seq<byte>>) {
    if stream.Err? then batch == stream
    else batch.Ok? && |batch.value| >= |front| && batch.value[..|front|] == front && batch.value[|front|..] == stream.value
  }

  /** What a batch is on the wire, and which algorithms are refused. */
  lemma BatchLayout(packets: seq<GamePacket>, algorithm: u16, zip: Compress)
    ensures algorithm == 0 ==> Carries(Batch(packets, algorithm, zip), [254, 0], zip(BatchBody(packets)))
    ensures algorithm == 65535 ==> Carries(Batch(packets, algorithm, zip), [254], Ok(BatchBody(packets)))
    ensures algorithm == 1 ==> Batch(packets, algorithm, zip) == Err(UnsupportedCompression)
    ensures algorithm !in {0, 1, 65535} ==> Batch(packets, algorithm, zip) == Err(UnknownCompression)
    ensures Carries(LegacyBatch(packets, zip), [254], zip(BatchBody(packets)))
  {
    hide BatchBody;
  }

  lemma {:induction false} BodyErrors(body: seq<byte>)
    ensures PacketsOf(body).Err? ==> PacketsOf(body).error in {Truncated, TooLong}
    decreases |body|
  {
    if body != [] {
      PacketReadExactly(body, GamePacket(0, []), 0);
      hide TakePacket;
      if TakePacket(body).Ok? { BodyErrors(body[TakePacket(body).value.1..]); }
    }
  }

  /**
    What a batch is read from: the first of the stream behind a zero byte, the stream behind the batch
    byte, and the bytes behind it, where a stream counts if it decompresses. Nothing else is tried then.
   */
  lemma BatchReadFrom(rest: seq<byte>, unzip: Compress)
    ensures var read := PacketsOfBatch([254] + rest, unzip);
            && (forall stream :: rest == [0] + stream && unzip(stream).Ok? ==> read == PacketsOf(unzip(stream).value))
            && ((forall stream :: rest == [0] + stream ==> unzip(stream).Err?) && unzip(rest).Ok? ==> read == PacketsOf(unzip(rest).value))
            && ((forall stream :: rest == [0] + stream ==> unzip(stream).Err?) && unzip(rest).Err? && PacketsOf(rest).Ok? ==>
                  read == PacketsOf(rest))
  {
    hide PacketsOf;
    var data := [254] + rest;
    assert data[1..] == rest;
    if rest != [] { assert rest[0] == 0 ==> rest == [0] + rest[1..]; }
    forall stream | rest == [0] + stream
      ensures rest != [] && rest[0] == 0 && rest[1..] == stream
    {
    }
  }

  /** Exactly which batches are refused for their first bytes, and with which error. */
  lemma BatchRefusedExactly(data: seq<byte>, unzip: Compress)
    ensures var read := PacketsOfBatch(data, unzip);
            && (read == Err(EmptyPacket) <==> data == [])
            && (read == Err(NotABatch) <==> data != [] && data[0] != 254)
            && (read == Err(UnsupportedCompression) <==>
                  |data| >= 2 && data[0] == 254 && data[1] == 1 && unzip(data[1..]).Err? && PacketsOf(data[1..]).Err?)
  {
    if data != [] {
      var rest := data[1..];
      BodyErrors(rest);
      if unzip(rest).Ok? { BodyErrors(unzip(rest).value); }
      if rest != [] && unzip(rest[1..]).Ok? { BodyErrors(unzip(rest[1..]).value); }
    }
    hide PacketsOf;
  }

  lemma FlateRoundTrip(packets: seq<GamePacket>, zip: Compress, unzip: Compress)
    requires AllFit(packets) && zip(BatchBody(packets)).Ok?
    requires unzip(zip(BatchBody(packets)).value) == Ok(BatchBody(packets))
    ensures Batch(packets, FLATE, zip).Ok?
    ensures PacketsOfBatch(Batch(packets, FLATE, zip).value, unzip) == Ok(packets)
  {
    hide BatchBody, PacketsOf;
    BodyRoundTrip(packets);
    var stream := zip(BatchBody(packets)).value;
    var data: seq<byte> := [ID_BATCH, FLATE] + stream;
    assert data[1..] == [FLATE] + stream;
    assert data[1..][1..] == stream;
  }

  lemma LegacyRoundTrip(packets: seq<GamePacket>, zip: Compress, unzip: Compress)
    requires AllFit(packets) && zip(BatchBody(packets)).Ok?
    requires Undone(BatchBody(packets), zip(BatchBody(packets)).value, unzip)
    ensures LegacyBatch(packets, zip).Ok?
    ensures PacketsOfBatch(LegacyBatch(packets, zip).value, unzip) == Ok(packets)
  {
    hide BatchBody, PacketsOf;
    BodyRoundTrip(packets);
    var stream := zip(BatchBody(packets)).value;
    var data: seq<byte> := [ID_BATCH] + stream;
    assert data[1..] == stream;
  }

  /** A zlib stream's first two bytes: its method is 8, its window at most 32 KiB, and they are a multiple of 31. */
  predicate ZlibHeader(s: seq<byte>) {
    && |s| >= 2
    && var first: int := s[0]; first % 16 == 8 && first / 16 <= 7 && (256 * first + s[1]) % 31 == 0
  }

  /** What can begin a zlib stream. A decompressor that is fed a stream piece by piece may accept one cut short. */
  predicate MayBeginStream(s: seq<byte>) {
    |s| < 2 || ZlibHeader(s)
  }

  /** A decompressor that refuses whatever cannot begin a zlib stream. */
  ghost predicate StreamsOnly(unzip: Compress) {
    forall s :: unzip(s).Ok? ==> MayBeginStream(s)
  }

  /** Whether a body, as it is or behind a leading zero byte, can begin a zlib stream. */
  predicate LooksLikeStream(body: seq<byte>) {
    MayBeginStream(body) || (body != [] && body[0] == FLATE && MayBeginStream(body[1..]))
  }

  /** Whether an uncompressed batch comes back under every such decompressor. */
  ghost predicate AlwaysReturns(packets: seq<GamePacket>) {
    forall unzip: Compress :: StreamsOnly(unzip) ==>
      PacketsOfBatch([ID_BATCH] + BatchBody(packets), unzip) == Ok(packets)
  }

  /** Exactly when an uncompressed batch is sure to come back: when its body cannot begin a zlib stream. */
  lemma RawRoundTripExactly(packets: seq<GamePacket>, zip: Compress)
    requires AllFit(packets)
    ensures Batch(packets, NO_COMPRESSION, zip) == Ok([ID_BATCH] + BatchBody(packets))
    ensures AlwaysReturns(packets) <==> !LooksLikeStream(BatchBody(packets))
  {
    BodyRoundTrip(packets);
    hide BatchBody, PacketsOf, LooksLikeStream, PacketsOfBatch, StreamsOnly, AllFit;
    if LooksLikeStream(BatchBody(packets)) {
      var unzip := Misreading(BatchBody(packets));
    } else {
      forall unzip: Compress | StreamsOnly(unzip)
        ensures PacketsOfBatch([ID_BATCH] + BatchBody(packets), unzip) == Ok(packets)
      {
        ReadAsPackets(BatchBody(packets), unzip);
      }
    }
  }

  /** A decompressor under which a body that looks like a stream is not read as any packets. */
  lemma Misreading(body: seq<byte>) returns (unzip: Compress)
    requires LooksLikeStream(body)
    ensures StreamsOnly(unzip) && PacketsOfBatch([ID_BATCH] + body, unzip).Err?
  {
    unzip := s => if MayBeginStream(s) then Ok([0x80]) else Err(ZlibFailure);
    RawRead(body, unzip);
    hide PacketsOfBatch, PacketsOf, ZlibHeader;
  }

  lemma ReadAsPackets(body: seq<byte>, unzip: Compress)
    requires StreamsOnly(unzip) && !LooksLikeStream(body) && PacketsOf(body).Ok?
    ensures PacketsOfBatch([ID_BATCH] + body, unzip) == PacketsOf(body)
  {
    RawRead(body, unzip);
    hide PacketsOfBatch, PacketsOf, ZlibHeader;
  }

  /** What is made of the bytes after the leading one. */
  lemma RawRead(body: seq<byte>, unzip: Compress)
    ensures var r := PacketsOfBatch([ID_BATCH] + body, unzip);
            if body != [] && body[0] == FLATE && unzip(body[1..]).Ok? then r == PacketsOf(unzip(body[1..]).value)
            else if unzip(body).Ok? then r == PacketsOf(unzip(body).value)
            else PacketsOf(body).Ok? ==> r == PacketsOf(body)
    ensures PacketsOf([0x80]).Err?
  {
    assert ([ID_BATCH] + body)[1..] == body;
    assert PacketsOf([0x80]).Err?;
    hide PacketsOf;
  }

  /** Two inputs that can: a packet of identifier 120 with one byte, and one of identifier zero without any. */
  lemma RawBatchMisread(payload: byte)
    ensures !AlwaysReturns([GamePacket(0x78, [payload])])
    ensures !AlwaysReturns([GamePacket(0, [])])
  {
    var one, none := [GamePacket(0x78, [payload])], [GamePacket(0, [])];
    assert one[1..] == [] && none[1..] == [];
    assert PacketBytes(one[0]) == [0x78] + [1] + [payload];
    assert PacketBytes(none[0]) == [0] + [0] + [];
    assert LooksLikeStream(BatchBody(one)) && LooksLikeStream(BatchBody(none));
    hide LooksLikeStream, BatchBody;
    RawRoundTripExactly(one, s => Ok(s));
    RawRoundTripExactly(none, s => Ok(s));
  }
}
