/**
  The loops that convert, write and read variable-length integers, byte by byte,
  each proved against the format of Varints. There are three independent
  decoders of the 32-bit format in the program; all three are here.
 */
module VarintCodec {
  import opened Basics
  import opened Varints

  // ---------- Shifting and combining bits ----------

  function Power2(n: nat): (p: nat)
    ensures p > 0
  {
    if n == 0 then 1 else 2 * Power2(n - 1)
  }

  function BitOr(a: nat, b: nat): nat {
    if a == 0 then b
    else if b == 0 then a
    else (if a % 2 == 1 || b % 2 == 1 then 1 else 0) + 2 * BitOr(a / 2, b / 2)
  }

  /** `value << shift`, whose bits past the width are lost. */
  function ShiftLeft(w: Width, value: nat, shift: nat): nat {
    value * Power2(shift) % w.Modulus()
  }

  lemma {:induction false} PowersAgree(n: nat)
    ensures Power2(7 * n) == Power128(n)
  {
    if n != 0 {
      PowersAgree(n - 1);
      SevenMore(7 * n - 7);
    }
  }

  lemma SevenMore(n: nat)
    ensures Power2(n + 7) == 128 * Power2(n)
  {
    assert Power2(n + 2) == 2 * Power2(n + 1) == 4 * Power2(n);
    assert Power2(n + 4) == 2 * Power2(n + 3) == 4 * Power2(n + 2);
    assert Power2(n + 6) == 2 * Power2(n + 5) == 4 * Power2(n + 4);
  }

  /** Bits below the shift do not meet those above it. */
  lemma {:induction false} OrIsSum(a: nat, v: nat, k: nat)
    requires a < Power2(k)
    ensures BitOr(a, v * Power2(k)) == a + v * Power2(k)
  {
    if k != 0 && a != 0 {
      var b, half := v * Power2(k), v * Power2(k - 1);
      assert b == 2 * half;
      OrIsSum(a / 2, v, k - 1);
      if b == 0 { assert half == 0; } else { assert b / 2 == half && b % 2 == 0; }
    }
  }

  /** A shift by whole groups inside the width loses only the groups' top bits. */
  lemma ShiftKeepsLow(w: Width, v: nat, n: nat)
    requires n < w.Size()
    ensures Power128(n) <= w.Modulus() && w.Modulus() % Power128(n) == 0
    ensures ShiftLeft(w, v, 7 * n) == (v % (w.Modulus() / Power128(n))) * Power128(n)
  {
    hide *;
    PowersAgree(n);
    PowerDivides(w, n);
    ShiftMod(w, v, Power128(n), w.Modulus() / Power128(n));
    ShiftIs(w, v, 7 * n);
  }

  lemma ShiftIs(w: Width, v: nat, shift: nat)
    ensures ShiftLeft(w, v, shift) == v * Power2(shift) % w.Modulus()
  {
  }

  lemma ShiftMod(w: Width, v: nat, p: nat, k: nat)
    requires p > 0 && k > 0 && k * p == w.Modulus()
    ensures v * p % w.Modulus() == (v % k) * p
  {
    hide Width.Modulus;
    var q, r := v / k, v % k;
    DivMod(v, k);
    MulDistributes(q, k, r, p);
    MulLess(r, k, p);
    ModOf(w, v * p, q, r * p);
  }

  lemma DivMod(v: nat, k: nat)
    requires k > 0
    ensures v == v / k * k + v % k && v % k < k
  {
  }

  lemma MulDistributes(q: nat, k: nat, r: nat, p: nat)
    ensures (q * k + r) * p == q * (k * p) + r * p
  {
  }

  lemma MulLess(r: nat, k: nat, p: nat)
    requires r < k && p > 0
    ensures r * p < k * p
  {
    MulMonotone(r + 1, k, p);
    MulDistributes(1, r, 1, p);
  }

  lemma ModOf(w: Width, x: nat, q: nat, r: nat)
    requires x == q * w.Modulus() + r && r < w.Modulus()
    ensures x % w.Modulus() == r
  {
  }

  lemma PowerDivides(w: Width, n: nat)
    requires n < w.Size()
    ensures Power128(n) <= w.Modulus() && w.Modulus() % Power128(n) == 0
    ensures (w.Modulus() / Power128(n)) * Power128(n) == w.Modulus()
  {
    assert Power128(1) == 0x80 && Power128(2) == 0x4000;
    assert Power128(3) == 0x20_0000 && Power128(4) == 0x1000_0000;
    assert Power128(5) == 0x8_0000_0000 && Power128(6) == 0x400_0000_0000;
    assert Power128(7) == 0x2_0000_0000_0000 && Power128(8) == 0x100_0000_0000_0000;
    assert Power128(9) == 0x8000_0000_0000_0000;
  }

  lemma {:induction false} LebValueAppend(s: seq<byte>, b: byte)
    ensures LebValue(s + [b]) == LebValue(s) + b % 128 * Power128(|s|)
  {
    if s == [] {
      assert s + [b] == [b] && [b][1..] == [];
    } else {
      assert (s + [b])[1..] == s[1..] + [b];
      LebValueAppend(s[1..], b);
      assert 128 * (b % 128 * Power128(|s| - 1)) == b % 128 * Power128(|s|);
    }
  }

  /** One step of a decoding loop: the next group is combined at its shift. */
  lemma Accumulate(w: Width, s: seq<byte>, n: nat)
    requires n < |s| && n < w.Size()
    ensures LebValue(s[..n]) < w.Modulus()
    ensures BitOr(LebValue(s[..n]), ShiftLeft(w, s[n] % 128, 7 * n)) == LebValue(s[..n + 1]) % w.Modulus()
  {
    var a, v := LebValue(s[..n]), s[n] % 128;
    ValueBound(s[..n]);
    PowerDivides(w, n);
    assert s[..n + 1] == s[..n] + [s[n]];
    LebValueAppend(s[..n], s[n]);
    hide Width.Modulus, Power128, Power2, LebValue;
    OrShifted(w, a, v, n);
  }

  /** The same step on the bits a loop has kept so far. */
  lemma NextBits(w: Width, s: seq<byte>, n: nat, bits: nat)
    requires n < |s| && n < w.Size() && bits == LebValue(s[..n]) % w.Modulus()
    ensures BitOr(bits, ShiftLeft(w, s[n] % 128, 7 * n)) == LebValue(s[..n + 1]) % w.Modulus()
  {
    hide *;
    Accumulate(w, s, n);
    ModOf(w, LebValue(s[..n]), 0, LebValue(s[..n]));
  }

  lemma OrShifted(w: Width, a: nat, v: nat, n: nat)
    requires n < w.Size() && a < Power128(n)
    ensures BitOr(a, ShiftLeft(w, v, 7 * n)) == (a + v * Power128(n)) % w.Modulus()
  {
    PowersAgree(n);
    ShiftKeepsLow(w, v, n);
    PowerDivides(w, n);
    hide *;
    OrParts(w, a, v, 7 * n, Power128(n), w.Modulus() / Power128(n));
  }

  lemma OrParts(w: Width, a: nat, v: nat, shift: nat, p: nat, k: nat)
    requires p == Power2(shift) && k > 0 && k * p == w.Modulus() && a < p
    ensures BitOr(a, (v % k) * p) == (a + v * p) % w.Modulus()
  {
    hide *;
    OrIsSum(a, v % k, shift);
    DivMod(v, k);
    MulDistributes(v / k, k, v % k, p);
    LowPart(v % k, k, a, p);
    ModOf(w, a + v * p, v / k, a + v % k * p);
  }

  lemma LowPart(r: nat, k: nat, a: nat, p: nat)
    requires r < k && a < p
    ensures a + r * p < k * p
  {
    MulMonotone(r + 1, k, p);
    MulDistributes(1, r, 1, p);
  }

  // ---------- VarInt and VarLong ----------

  /** The array for a number. The arithmetic shift is made a logical one by masking. */
  method FromInteger(w: Width, number: int) returns (ans: seq<byte>)
    requires w.Fits(number)
    ensures |Leb(w.Pattern(number))| <= w.Size() && ans == Padded(w, Leb(w.Pattern(number)))
  {
    ghost var u := w.Pattern(number);
    WidthBound(w, u);
    var inner := new byte[w.Size()](_ => 0);
    assert inner[..] == Zeros(w.Size());
    var n, ptr: nat, done := number, 0, false;
    ghost var rest := u;
    hide Leb, Zeros, Padded, Width.Modulus;
    while !done
      invariant ptr <= w.Size() == inner.Length
      invariant if done then inner[..] == Padded(w, Leb(u)) else
                  && rest < w.Modulus() && n % w.Modulus() == rest
                  && ptr < |Leb(u)| && Leb(u) == inner[..ptr] + Leb(rest)
                  && inner[ptr..] == Zeros(w.Size() - ptr)
      decreases !done, w.Size() - ptr
    {
      var tmp := n % 128;
      NextGroup(w, n, rest);
      n := n / 128 % (w.Modulus() / 128);
      if n != 0 {
        tmp := tmp + 128;
      }
      PlaceGroup(w, inner[..], ptr, u, rest);
      ghost var before := inner[..];
      inner[ptr] := tmp;
      assert inner[..] == before[ptr := tmp];
      ptr := ptr + 1;
      done := n == 0 || ptr >= w.Size();
      rest := rest / 128;
    }
    return inner[..];
  }

  /** Masking after the shift leaves the pattern's remaining groups, whatever the sign. */
  lemma NextGroup(w: Width, n: int, u: nat)
    requires u < w.Modulus() && n % w.Modulus() == u
    ensures w.Modulus() / 128 > 0 && u / 128 < w.Modulus()
    ensures n % 128 == u % 128 && n / 128 % (w.Modulus() / 128) == u / 128
    ensures u / 128 % w.Modulus() == u / 128
  {
    var q := n / w.Modulus();
    if w.W32? {
      GroupOf(n, q * 0x200_0000, u);
      LowOf32(q, u / 128);
    } else {
      GroupOf(n, q * 0x200_0000_0000_0000, u);
      LowOf64(q, u / 128);
    }
  }

  lemma LowOf32(q: int, x: nat)
    requires x < 0x200_0000
    ensures (q * 0x200_0000 + x) % 0x200_0000 == x
  {
  }

  lemma LowOf64(q: int, x: nat)
    requires x < 0x200_0000_0000_0000
    ensures (q * 0x200_0000_0000_0000 + x) % 0x200_0000_0000_0000 == x
  {
  }

  lemma GroupOf(n: int, high: int, u: nat)
    requires n == 128 * high + u
    ensures n % 128 == u % 128 && n / 128 == high + u / 128
  {
  }

  /** Storing the next group keeps the array split into what is written and what is left. */
  lemma PlaceGroup(w: Width, inner: seq<byte>, ptr: nat, u: nat, rest: nat)
    requires ptr < |inner| == w.Size() && |Leb(u)| <= w.Size()
    requires Leb(u) == inner[..ptr] + Leb(rest) && inner[ptr..] == Zeros(w.Size() - ptr)
    ensures var next := inner[ptr := if rest / 128 != 0 then rest % 128 + 128 else rest % 128];
            && next[ptr + 1..] == Zeros(w.Size() - ptr - 1)
            && if rest / 128 == 0 then next == Padded(w, Leb(u)) else
                 && ptr + 1 < |Leb(u)| && Leb(u) == next[..ptr + 1] + Leb(rest / 128)
  {
    var group: byte := if rest / 128 != 0 then rest % 128 + 128 else rest % 128;
    var next := inner[ptr := group];
    ZerosAfter(inner, ptr, w.Size() - ptr, group);
    LebGroup(inner[..ptr], rest);
    hide Width.Size, Zeros;
    LebNonempty(rest / 128);
    hide Leb;
    assert next == next[..ptr + 1] + next[ptr + 1..];
  }

  lemma ZerosAfter(inner: seq<byte>, ptr: nat, n: nat, group: byte)
    requires ptr < |inner| && |inner| - ptr == n && inner[ptr..] == Zeros(n)
    ensures inner[ptr := group][..ptr + 1] == inner[..ptr] + [group]
    ensures inner[ptr := group][ptr + 1..] == Zeros(n - 1)
  {
    assert inner[ptr := group][ptr + 1..] == inner[ptr..][1..];
  }

  lemma LebGroup(written: seq<byte>, rest: nat)
    ensures written + Leb(rest) ==
              if rest / 128 == 0 then written + [rest % 128] else (written + [rest % 128 + 128]) + Leb(rest / 128)
  {
    LebStep(rest);
    hide Leb;
    if rest / 128 != 0 {
      assert written + ([rest % 128 + 128] + Leb(rest / 128)) == (written + [rest % 128 + 128]) + Leb(rest / 128);
    }
  }

  lemma LebStep(rest: nat)
    ensures Leb(rest) == if rest / 128 == 0 then [rest % 128] else [rest % 128 + 128] + Leb(rest / 128)
  {
    assert rest < 128 <==> rest / 128 == 0;
  }

  lemma LebNonempty(u: nat)
    ensures |Leb(u)| > 0
  {
  }

  method WriteArray(w: Width, inner: seq<byte>) returns (out: seq<byte>)
    requires |inner| == w.Size()
    ensures out == Written(inner)
  {
    out := [];
    var ptr, done := 0, false;
    assert inner[0..] == inner;
    while !done
      invariant ptr <= w.Size() && |out| == ptr
      invariant NonZero(inner) == out + NonZero(inner[ptr..])
      invariant if done then NonZero(inner[ptr..]) == [] else ptr < w.Size()
      decreases !done, w.Size() - ptr
    {
      if inner[ptr] == 0 {
        done := true;
      } else {
        assert inner[ptr..][1..] == inner[ptr + 1..];
        assert out + ([inner[ptr]] + NonZero(inner[ptr + 1..])) == (out + [inner[ptr]]) + NonZero(inner[ptr + 1..]);
        out := out + [inner[ptr]];
        ptr := ptr + 1;
        done := ptr >= w.Size();
      }
    }
    if ptr == 0 {
      out := out + [0];
    }
  }

  lemma {:induction false} LengthFrom(s: seq<byte>, size: nat, n: nat)
    requires n <= |s| && n <= size && forall i :: 0 <= i < n ==> s[i] >= 128
    ensures LebLength(s, size) ==
              match LebLength(s[n..], size - n)
              case Ok(m) => Ok(n + m)
              case Err(e) => Err(e)
    decreases n
  {
    if n == 0 {
      assert s[0..] == s;
    } else {
      assert s[1..][n - 1..] == s[n..];
      LengthFrom(s[1..], size - 1, n - 1);
    }
  }

  /** What is known of the length once `n` bytes with the high bit have been passed. */
  lemma LengthAt(s: seq<byte>, size: nat, n: nat)
    requires n <= |s| && n <= size && forall i :: 0 <= i < n ==> s[i] >= 128
    ensures n == |s| ==> LebLength(s, size) == Err(Truncated)
    ensures n < |s| && n == size ==> LebLength(s, size) == Err(TooLong)
    ensures n < |s| && n < size && s[n] < 128 ==> LebLength(s, size) == Ok(n + 1)
  {
    LengthFrom(s, size, n);
  }

  /** The accepted bytes at the start of an otherwise zero array, and how many they are. */
  function ArrayRead(w: Width, s: seq<byte>): Result<(seq<byte>, nat)> {
    var n :- LebLength(s, w.Size());
    Ok((Padded(w, s[..n]), n))
  }

  method ReadArray(w: Width, s: seq<byte>) returns (r: Result<(seq<byte>, nat)>)
    ensures r == ArrayRead(w, s)
  {
    var inner, ptr := new byte[w.Size()](_ => 0), 0;
    assert inner[..] == Padded(w, s[..0]);
    while true
      invariant ptr <= w.Size() == inner.Length && ptr <= |s| && inner[..] == Padded(w, s[..ptr])
      invariant forall i :: 0 <= i < ptr ==> s[i] >= 128
      decreases |s| - ptr
    {
      LengthAt(s, w.Size(), ptr);
      if ptr >= |s| {
        return Err(Truncated);
      }
      var b := s[ptr];
      if ptr >= w.Size() {
        return Err(TooLong);
      }
      ghost var before := inner[..];
      inner[ptr] := b;
      assert inner[..] == before[ptr := b] == Padded(w, s[..ptr + 1]);
      ptr := ptr + 1;
      if b < 128 {
        return Ok((inner[..], ptr));
      }
    }
  }

  /** The number in an array that holds a whole encoding. */
  method ToInteger(w: Width, inner: seq<byte>) returns (n: int)
    requires |inner| == w.Size() && LebLength(inner, w.Size()).Ok?
    ensures n == w.Signed(LebValue(inner[..LebLength(inner, w.Size()).value]) % w.Modulus())
  {
    hide LebLength, LebValue, BitOr, ShiftLeft, Width.Size;
    var bits: nat, ptr: nat := 0, 0;
    NoBits(w, inner);
    LengthAt(inner, w.Size(), 0);
    while true
      invariant ptr < |inner| && ptr < w.Size() && forall i :: 0 <= i < ptr ==> inner[i] >= 128
      invariant bits == LebValue(inner[..ptr]) % w.Modulus()
      decreases |inner| - ptr
    {
      LengthAt(inner, w.Size(), ptr);
      NextBits(w, inner, ptr, bits);
      bits := BitOr(bits, ShiftLeft(w, inner[ptr] % 128, 7 * ptr));
      if inner[ptr] < 128 {
        return w.Signed(bits);
      }
      ptr := ptr + 1;
      LengthAt(inner, w.Size(), ptr);
    }
  }

  lemma NoBits(w: Width, s: seq<byte>)
    ensures LebValue(s[..0]) % w.Modulus() == 0
  {
  }

  /** Writes a number: the array for it, then the array's bytes. */
  method WriteInteger(w: Width, number: int) returns (out: seq<byte>)
    requires w.Fits(number)
    ensures out == Leb(w.Pattern(number))
  {
    hide *;
    var inner := FromInteger(w, number);
    PatternBelow(w, number);
    WrittenEncoding(w, w.Pattern(number));
    PaddedSize(w, Leb(w.Pattern(number)));
    out := WriteArray(w, inner);
  }

  lemma PatternBelow(w: Width, number: int)
    ensures w.Pattern(number) < w.Modulus()
  {
  }

  lemma PaddedSize(w: Width, s: seq<byte>)
    requires |s| <= w.Size()
    ensures |Padded(w, s)| == w.Size() && Padded(w, s)[..|s|] == s
  {
  }

  /** Reads an array and takes the number in it. */
  method ReadInteger(w: Width, s: seq<byte>) returns (r: Result<(int, nat)>)
    ensures r == DecodedInteger(w, s)
  {
    hide LebLength, LebValue, Padded, Width.Size, Width.Modulus, Width.Signed;
    var read :- ReadArray(w, s);
    var n := read.1;
    PaddedSize(w, s[..n]);
    LengthOfPart(s, read.0, w.Size(), n);
    var number := ToInteger(w, read.0);
    assert read.0[..n] == s[..n];
    return Ok((number, n));
  }

  lemma LengthOfPart(s: seq<byte>, t: seq<byte>, size: nat, n: nat)
    requires LebLength(s, size) == Ok(n) && n <= |t| && t[..n] == s[..n]
    ensures LebLength(t, size) == Ok(n)
  {
    hide *;
    AcceptedExactly(s, size, n);
    assert forall i :: 0 <= i < n ==> t[..n][i] == s[..n][i];
    AcceptedExactly(t, size, n);
  }

  // ---------- varuint32 ----------

  method WriteVaruint32(number: u32) returns (out: seq<byte>)
    ensures out == Leb(number)
  {
    out := [];
    var value: int, done := number, false;
    while !done
      invariant value >= 0 && Leb(number) == if done then out else out + Leb(value)
      decreases !done, value
    {
      var group := value % 128;
      ghost var before := value;
      value := value / 128;
      if value != 0 {
        group := group + 128;
      }
      assert Leb(before) == [group] + (if value == 0 then [] else Leb(value));
      assert out + ([group] + Leb(value)) == (out + [group]) + Leb(value);
      out := out + [group];
      done := value == 0;
    }
  }

  method ReadVaruint32(data: seq<byte>) returns (r: Result<(u32, nat)>)
    ensures r == Decoded32(data)
  {
    hide LebLength, LebValue, BitOr, ShiftLeft, Width.Signed;
    var value: nat, shift: nat := 0, 0;
    NoBits(W32, data);
    for i := 0 to |data|
      invariant i <= 5 && shift == 7 * i
      invariant forall j :: 0 <= j < i ==> data[j] >= 128
      invariant value == LebValue(data[..i]) % W32.Modulus()
    {
      LengthAt(data, 5, i);
      if shift >= 35 {
        return Err(TooLong);
      }
      NextBits(W32, data, i, value);
      value := BitOr(value, ShiftLeft(W32, data[i] % 128, shift));
      if data[i] < 128 {
        return Ok((value, i + 1));
      }
      shift := shift + 7;
    }
    LengthAt(data, 5, |data|);
    return Err(Truncated);
  }

  /** The length prefix of a packet, read byte by byte from a stream, and how much of it was consumed. */
  method ReadPacketLength(stream: seq<byte>) returns (r: Result<(nat, nat)>)
    ensures r == SignChecked(Decoded32(stream))
  {
    hide LebLength, LebValue, BitOr, ShiftLeft, Width.Signed;
    var bits: nat, shift: nat, consumed: nat := 0, 0, 0;
    NoBits(W32, stream);
    while true
      invariant consumed <= |stream| && consumed <= 5 && shift == 7 * consumed
      invariant forall j :: 0 <= j < consumed ==> stream[j] >= 128
      invariant bits == LebValue(stream[..consumed]) % W32.Modulus()
      decreases |stream| - consumed
    {
      LengthAt(stream, 5, consumed);
      if consumed >= |stream| {
        return Err(Truncated);
      }
      var b := stream[consumed];
      if shift >= 35 {
        return Err(TooLong);
      }
      NextBits(W32, stream, consumed, bits);
      bits := BitOr(bits, ShiftLeft(W32, b % 128, shift));
      consumed := consumed + 1;
      if b < 128 {
        break;
      }
      shift := shift + 7;
    }
    var len := W32.Signed(bits);
    if len < 0 {
      return Err(NegativeLength);
    }
    return Ok((len, consumed));
  }
}
