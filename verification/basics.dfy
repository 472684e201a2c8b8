/**
  Shared vocabulary: optional values, failure-compatible results, fixed-width
  integers, and the byte layouts of the integers that appear on the wire.
 */
module Basics {

  datatype Option<+T> = None | Some(value: T)

  /** Which check failed. The source carries this as message text only. */
  datatype Error =
    | Truncated
    | TooLong
    | NegativeLength
    | NotUtf8
    | UnsupportedReliability
    | LengthNotWholeBytes
    | IndexMismatch
    | IndexTooLarge
    | BodyTooLarge
    | TooManyRecords
    | EmptyPacket
    | UnknownFlag
    | ZeroBudget
    | TooManyFragments
    | ZeroSplitCount
    | SplitIndexOutOfRange
    | DuplicateFragment
    | SplitCountMismatch
    | NotABatch
    | UnsupportedCompression
    | UnknownCompression
    | ZlibFailure

  datatype Result<+T> = Ok(value: T) | Err(error: Error) {
    predicate IsFailure() {
      Err?
    }

    function PropagateFailure<U>(): Result<U>
      requires Err?
    {
      Err(error)
    }

    function Extract(): T
      requires Ok?
    {
      value
    }
  }

  type byte = x: int | 0 <= x < 0x100
  type u16 = x: int | 0 <= x < 0x1_0000
  type u24 = x: int | 0 <= x < 0x100_0000
  type u32 = x: int | 0 <= x < 0x1_0000_0000

  // ---------- Working through a sequence ----------

  /** `acc` followed by what `rest` yields, or `rest`'s error. */
  ghost function After<T>(acc: seq<T>, rest: Result<seq<T>>): Result<seq<T>> {
    match rest
    case Ok(more) => Ok(acc + more)
    case Err(e) => Err(e)
  }

  lemma AfterNothing<T>(r: Result<seq<T>>)
    ensures After([], r) == r
  {
    if r.Ok? { assert [] + r.value == r.value; }
  }

  /** Moving one more element from what is left to what is done. */
  lemma AfterMore<T>(acc: seq<T>, more: seq<T>, rest: Result<seq<T>>)
    ensures After(acc, After(more, rest)) == After(acc + more, rest)
  {
    if rest.Ok? { assert acc + (more + rest.value) == (acc + more) + rest.value; }
  }

  // ---------- Arithmetic ----------

  lemma MulMonotone(a: nat, b: nat, m: nat)
    ensures a <= b ==> a * m <= b * m
  {
    if a <= b { assert (b - a) * m >= 0; }
  }

  lemma MulStep(n: nat, each: nat)
    requires n > 0
    ensures n * each == (n - 1) * each + each
  {
  }

  // ---------- Integer layouts ----------

  /** The low 24 bits, least significant byte first; the high byte is dropped. */
  function U24Le(v: u32): seq<byte> {
    [v % 256, v / 256 % 256, v / 65536 % 256]
  }

  function U16Be(v: u16): seq<byte> {
    [v / 256, v % 256]
  }

  function U32Be(v: u32): seq<byte> {
    U16Be(v / 0x1_0000) + U16Be(v % 0x1_0000)
  }

  function U16Of(high: byte, low: byte): u16 {
    var value: int := high;
    value * 256 + low
  }

  function U24Of(low: byte, middle: byte, high: byte): u24 {
    var m: int, h: int := middle, high;
    low + m * 256 + h * 65536
  }

  function U32Of(high: u16, low: u16): u32 {
    var value: int := high;
    value * 0x1_0000 + low
  }

  // ---------- Reading from the front of what is left ----------

  function TakeU8(s: seq<byte>): Result<(byte, seq<byte>)> {
    if |s| < 1 then Err(Truncated) else Ok((s[0], s[1..]))
  }

  function TakeU16Be(s: seq<byte>): Result<(u16, seq<byte>)> {
    if |s| < 2 then Err(Truncated) else Ok((U16Of(s[0], s[1]), s[2..]))
  }

  function TakeU24Le(s: seq<byte>): Result<(u24, seq<byte>)> {
    if |s| < 3 then Err(Truncated) else Ok((U24Of(s[0], s[1], s[2]), s[3..]))
  }

  function TakeU32Be(s: seq<byte>): Result<(u32, seq<byte>)> {
    if |s| < 4 then Err(Truncated)
    else Ok((U32Of(U16Of(s[0], s[1]), U16Of(s[2], s[3])), s[4..]))
  }

  function TakeBytes(s: seq<byte>, n: nat): Result<(seq<byte>, seq<byte>)> {
    if |s| < n then Err(Truncated) else Ok((s[..n], s[n..]))
  }

  // ---------- Each layout is exactly undone by its reader ----------

  lemma TakeU8Inverts(v: byte, tail: seq<byte>)
    ensures TakeU8([v] + tail) == Ok((v, tail))
  {
    assert ([v] + tail)[1..] == tail;
  }

  lemma TakeU16BeInverts(v: u16, tail: seq<byte>)
    ensures TakeU16Be(U16Be(v) + tail) == Ok((v, tail))
  {
    assert (U16Be(v) + tail)[2..] == tail;
  }

  lemma TakeU24LeInverts(v: u24, tail: seq<byte>)
    ensures TakeU24Le(U24Le(v) + tail) == Ok((v, tail))
  {
    U24Value(v);
    assert (U24Le(v) + tail)[3..] == tail;
    hide U24Of;
  }

  lemma U24Value(v: u24)
    ensures U24Of(v % 256, v / 256 % 256, v / 65536 % 256) == v
  {
    assert v / 65536 == v / 256 / 256 < 256;
  }

  lemma TakeU32BeInverts(v: u32, tail: seq<byte>)
    ensures TakeU32Be(U32Be(v) + tail) == Ok((v, tail))
  {
    assert (U32Be(v) + tail)[4..] == tail;
  }

  lemma TakeBytesInverts(b: seq<byte>, tail: seq<byte>)
    ensures TakeBytes(b + tail, |b|) == Ok((b, tail))
  {
    assert (b + tail)[..|b|] == b;
    assert (b + tail)[|b|..] == tail;
  }

  // ---------- The converse: what a reader accepts is the layout of its result ----------

  lemma TakenU16BeIsLayout(s: seq<byte>)
    requires |s| >= 2
    ensures s == U16Be(U16Of(s[0], s[1])) + s[2..]
  {
  }

  lemma TakenU24LeIsLayout(s: seq<byte>)
    requires |s| >= 3
    ensures s == U24Le(U24Of(s[0], s[1], s[2])) + s[3..]
  {
    U24Layout(s[0], s[1], s[2]);
    hide *;
  }

  lemma U24Layout(low: byte, middle: byte, high: byte)
    ensures U24Le(U24Of(low, middle, high)) == [low, middle, high]
  {
    var m: int, h: int := middle, high;
    var v := U24Of(low, middle, high);
    assert v == low + 256 * (m + 256 * h);
    assert v / 256 == m + 256 * h;
    assert v / 65536 == h;
  }

  lemma TakenU32BeIsLayout(s: seq<byte>)
    requires |s| >= 4
    ensures s == U32Be(U32Of(U16Of(s[0], s[1]), U16Of(s[2], s[3]))) + s[4..]
  {
    var high, low := U16Of(s[0], s[1]), U16Of(s[2], s[3]);
    assert U32Of(high, low) / 0x1_0000 == high && U32Of(high, low) % 0x1_0000 == low;
    TakenU16BeIsLayout(s);
    TakenU16BeIsLayout(s[2..]);
  }
}
