/**
  The cursor every connected-layer decoder reads through. Its readers are tied
  to the suffix readers of Basics: the unread part of the packet is the only
  thing a caller can observe, so decoding is specified on that suffix.
 */
module PacketCursor {
  import opened Basics

  /** `r` and the new unread part are what reading `spec` yields; a failed read moves nothing. */
  ghost predicate Took<T>(spec: Result<(T, seq<byte>)>, r: Result<T>, before: seq<byte>, after: seq<byte>) {
    match spec
    case Ok((v, rest)) => r == Ok(v) && after == rest
    case Err(e) => r == Err(e) && after == before
  }

  class PacketBuf {
    const data: seq<byte>
    var pos: nat

    ghost predicate Valid()
      reads this
    {
      pos <= |data|
    }

    ghost function Rest(): seq<byte>
      reads this
      requires Valid()
    {
      data[pos..]
    }

    constructor (data: seq<byte>)
      ensures Valid() && Rest() == data
    {
      this.data := data;
      pos := 0;
    }

    function Remaining(): (n: nat)
      reads this
      requires Valid()
      ensures n == |Rest()|
    {
      |data| - pos
    }

    method ReadU8() returns (r: Result<byte>)
      requires Valid()
      modifies this
      ensures Valid() && Took(TakeU8(old(Rest())), r, old(Rest()), Rest())
    {
      if Remaining() < 1 {
        return Err(Truncated);
      }
      var v := data[pos];
      pos := pos + 1;
      return Ok(v);
    }

    method ReadU16() returns (r: Result<u16>)
      requires Valid()
      modifies this
      ensures Valid() && Took(TakeU16Be(old(Rest())), r, old(Rest()), Rest())
    {
      if Remaining() < 2 {
        return Err(Truncated);
      }
      var v := U16Of(data[pos], data[pos + 1]);
      pos := pos + 2;
      return Ok(v);
    }

    method ReadU24Le() returns (r: Result<u24>)
      requires Valid()
      modifies this
      ensures Valid() && Took(TakeU24Le(old(Rest())), r, old(Rest()), Rest())
    {
      if Remaining() < 3 {
        return Err(Truncated);
      }
      var v := U24Of(data[pos], data[pos + 1], data[pos + 2]);
      pos := pos + 3;
      return Ok(v);
    }

    method ReadBytes(n: nat) returns (r: Result<seq<byte>>)
      requires Valid()
      modifies this
      ensures Valid() && Took(TakeBytes(old(Rest()), n), r, old(Rest()), Rest())
    {
      if Remaining() < n {
        return Err(Truncated);
      }
      var v := data[pos..pos + n];
      assert v == Rest()[..n];
      pos := pos + n;
      return Ok(v);
    }

    /** Four bytes read as a slice, most significant first. */
    method ReadBeU32() returns (r: Result<u32>)
      requires Valid()
      modifies this
      ensures Valid() && Took(TakeU32Be(old(Rest())), r, old(Rest()), Rest())
    {
      var b :- ReadBytes(4);
      return Ok(U32Of(U16Of(b[0], b[1]), U16Of(b[2], b[3])));
    }
  }
}
