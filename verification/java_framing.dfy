/**
  Length-prefixed strings and packets of the Java edition's protocol. Lengths
  are cast to 32-bit signed numbers on the way out and must not be negative on
  the way in. A string is its bytes; whether bytes are UTF-8 is a parameter.
 */
module JavaFraming {
  import opened Basics
  import opened Varints
  import VarintCodec

  /** A length as a 32-bit number, wrapping. */
  function AsI32(len: nat): (n: int)
    ensures W32.Fits(n) && W32.Pattern(n) == len % 0x1_0000_0000
  {
    W32.Signed(len % 0x1_0000_0000)
  }

  /** A length prefix and the bytes. */
  function Prefixed(bytes: seq<byte>): seq<byte> {
    Leb(W32.Pattern(AsI32(|bytes|))) + bytes
  }

  /** The bytes behind a length prefix, and how many bytes both took. */
  function TakePrefixed(data: seq<byte>): (r: Result<(seq<byte>, nat)>)
    ensures r.Ok? ==> |r.value.0| <= r.value.1 <= |data|
  {
    var (len, n) :- SignChecked(Decoded32(data));
    if |data| < n + len then Err(Truncated) else Ok((data[n..n + len], n + len))
  }

  method WriteString(s: seq<byte>) returns (buf: seq<byte>)
    ensures buf == Prefixed(s)
  {
    buf := VarintCodec.WriteInteger(W32, AsI32(|s|));
    buf := buf + s;
  }

  method ReadString(bytes: seq<byte>, utf8: seq<byte> -> bool) returns (r: Result<(seq<byte>, nat)>)
    ensures match TakePrefixed(bytes)
            case Ok((s, n)) => r == if utf8(s) then Ok((s, n)) else Err(NotUtf8)
            case Err(e) => r == Err(e)
  {
    DecodersAgree(bytes);
    PrefixLength(bytes);
    hide Decoded32, DecodedInteger, SignChecked;
    var read :- VarintCodec.ReadInteger(W32, bytes);
    var len := read.0;
    if len < 0 {
      return Err(NegativeLength);
    }
    var n := read.1;
    if |bytes| < n + len {
      return Err(Truncated);
    }
    var s := bytes[n..n + len];
    return if utf8(s) then Ok((s, n + len)) else Err(NotUtf8);
  }

  lemma PrefixLength(data: seq<byte>)
    ensures SignChecked(Decoded32(data)).Ok? ==> 0 < SignChecked(Decoded32(data)).value.1 <= |data|
    ensures DecodedInteger(W32, data).Ok? ==> 0 < DecodedInteger(W32, data).value.1 <= |data|
  {
  }

  method SendPacket(payload: seq<byte>) returns (frame: seq<byte>)
    ensures frame == Prefixed(payload)
  {
    frame := VarintCodec.WriteInteger(W32, AsI32(|payload|));
    frame := frame + payload;
  }

  /** A packet from the front of a stream that closes after its bytes. */
  method ReceivePacket(stream: seq<byte>) returns (r: Result<(seq<byte>, nat)>)
    ensures r == TakePrefixed(stream)
  {
    hide Decoded32, SignChecked;
    PrefixLength(stream);
    var read :- VarintCodec.ReadPacketLength(stream);
    var len, n := read.0, read.1;
    if |stream| < n + len {
      return Err(Truncated);
    }
    return Ok((stream[n..n + len], n + len));
  }

  /**
    Exactly when bytes behind a prefix come back, whatever follows them: when their number fits a
    signed 32-bit length. Of longer ones the prefix is negative or names fewer bytes.
   */
  lemma PrefixedRoundTripExactly(bytes: seq<byte>, tail: seq<byte>)
    ensures TakePrefixed(Prefixed(bytes) + tail) == Ok((bytes, |Prefixed(bytes)|)) <==> |bytes| < 0x8000_0000
    ensures |bytes| % 0x1_0000_0000 >= 0x8000_0000 ==>
              TakePrefixed(Prefixed(bytes) + tail) == Err(NegativeLength)
  {
    hide Leb, Decoded32;
    var len: u32 := |bytes| % 0x1_0000_0000;
    var data := Prefixed(bytes) + tail;
    assert data == Leb(len) + (bytes + tail);
    DecodesEncoding(len, bytes + tail);
    var n := |Leb(len)|;
    assert data[n..] == bytes + tail;
    if len < 0x8000_0000 {
      assert data[n..n + len] == bytes[..len];
    }
  }

  /** `n` bytes are an integer of the value `len`, which is not negative as a signed 32-bit number. */
  predicate PrefixIs(data: seq<byte>, n: nat, len: nat) {
    LebLength(data, 5) == Ok(n) && n <= |data| && LebValue(data[..n]) % 0x1_0000_0000 == len < 0x8000_0000
  }

  /** Exactly what begins with a prefix and its bytes, and which error the rest gives. */
  lemma PrefixedReadExactly(data: seq<byte>, bytes: seq<byte>, k: nat)
    ensures TakePrefixed(data) == Ok((bytes, k)) <==>
              exists n: nat :: PrefixIs(data, n, |bytes|) && k == n + |bytes| <= |data| && data[n..k] == bytes
    ensures TakePrefixed(data) == Err(TooLong) <==> LebLength(data, 5) == Err(TooLong)
    ensures TakePrefixed(data) == Err(NegativeLength) <==> exists n: nat :: NegativePrefix(data, n)
    ensures TakePrefixed(data).Err? ==> TakePrefixed(data).error in {Truncated, TooLong, NegativeLength}
  {
    LengthErrors(data, 5);
    PrefixRead(data);
    forall n: nat
      ensures PrefixIs(data, n, |bytes|) || NegativePrefix(data, n) ==> LebLength(data, 5) == Ok(n) && n <= |data|
    {
    }
    if LebLength(data, 5).Ok? { ReadAt(data, LebLength(data, 5).value, bytes, k); }
    hide LebLength, TakePrefixed, TakeAt, PrefixIs, NegativePrefix;
  }

  lemma ReadAt(data: seq<byte>, n: nat, bytes: seq<byte>, k: nat)
    requires LebLength(data, 5) == Ok(n) && n <= |data|
    ensures TakeAt(data, n) == Ok((bytes, k)) <==> PrefixIs(data, n, |bytes|) && k == n + |bytes| <= |data| && data[n..k] == bytes
    ensures TakeAt(data, n) == Err(NegativeLength) <==> NegativePrefix(data, n)
    ensures TakeAt(data, n).Err? ==> TakeAt(data, n).error in {Truncated, NegativeLength}
  {
    hide LebLength, LebValue;
  }

  predicate NegativePrefix(data: seq<byte>, n: nat) {
    LebLength(data, 5) == Ok(n) && LebValue(data[..n]) % 0x1_0000_0000 >= 0x8000_0000
  }

  lemma PrefixRead(data: seq<byte>)
    ensures LebLength(data, 5).Err? ==> TakePrefixed(data) == Err(LebLength(data, 5).error)
    ensures LebLength(data, 5).Ok? ==> TakePrefixed(data) == TakeAt(data, LebLength(data, 5).value)
  {
    hide LebLength, LebValue;
  }

  function TakeAt(data: seq<byte>, n: nat): Result<(seq<byte>, nat)>
    requires n <= |data|
  {
    var len := LebValue(data[..n]) % 0x1_0000_0000;
    if len >= 0x8000_0000 then Err(NegativeLength)
    else if |data| < n + len then Err(Truncated)
    else Ok((data[n..n + len], n + len))
  }

  /** Packets sent on one stream. */
  function Sent(payloads: seq<seq<byte>>): seq<byte> {
    if payloads == [] then [] else Prefixed(payloads[0]) + Sent(payloads[1..])
  }

  /** The first `count` packets received from a stream. */
  function Received(stream: seq<byte>, count: nat): Result<seq<seq<byte>>> {
    if count == 0 then Ok([])
    else
      var (payload, n) :- TakePrefixed(stream);
      var rest :- Received(stream[n..], count - 1);
      Ok([payload] + rest)
  }

  lemma FirstReceived(payload: seq<byte>, rest: seq<byte>)
    requires |payload| < 0x8000_0000
    ensures TakePrefixed(Prefixed(payload) + rest) == Ok((payload, |Prefixed(payload)|))
    ensures (Prefixed(payload) + rest)[|Prefixed(payload)|..] == rest
  {
    PrefixedRoundTripExactly(payload, rest);
    hide *;
  }

  /** Every packet sent on a stream comes back, in order. */
  lemma {:induction false} StreamRoundTrip(payloads: seq<seq<byte>>, tail: seq<byte>)
    requires forall p :: p in payloads ==> |p| < 0x8000_0000
    ensures Received(Sent(payloads) + tail, |payloads|) == Ok(payloads)
  {
    hide TakePrefixed, Prefixed;
    if payloads != [] {
      var rest := Sent(payloads[1..]) + tail;
      assert Sent(payloads) + tail == Prefixed(payloads[0]) + rest;
      FirstReceived(payloads[0], rest);
      StreamRoundTrip(payloads[1..], tail);
      assert [payloads[0]] + payloads[1..] == payloads;
    }
  }
}
