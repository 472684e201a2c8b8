/**
  The variable-length integers: what the format means, and the encoders and
  decoders of VarInt and VarLong, which work on a fixed array of 5 or 10 bytes.
 */
module Varints {
  import opened Basics

  // ---------- The format ----------

  /** Groups of seven bits, the lowest first; every byte but the last carries the high bit. */
  function Leb(u: nat): seq<byte> {
    if u < 128 then [u] else [u % 128 + 128] + Leb(u / 128)
  }

  /** What a run of bytes stands for, as an unbounded number. */
  function LebValue(s: seq<byte>): nat {
    if s == [] then 0 else s[0] % 128 + 128 * LebValue(s[1..])
  }

  /** How many bytes a decoder that allows `size` of them consumes from `s`. */
  function LebLength(s: seq<byte>, size: nat): (r: Result<nat>)
    ensures r.Ok? ==> 0 < r.value <= |s| && r.value <= size
  {
    if s == [] then Err(Truncated)
    else if size == 0 then Err(TooLong)
    else if s[0] < 128 then Ok(1)
    else
      var n :- LebLength(s[1..], size - 1);
      Ok(n + 1)
  }

  function Power128(n: nat): (p: nat)
    ensures p > 0
  {
    if n == 0 then 1 else 128 * Power128(n - 1)
  }

  // ---------- The two widths ----------

  datatype Width = W32 | W64 {
    function Size(): nat {
      if W32? then 5 else 10
    }

    function Modulus(): nat {
      if W32? then 0x1_0000_0000 else 0x1_0000_0000_0000_0000
    }

    predicate Fits(n: int) {
      var half: int := Modulus() / 2;
      -half <= n < half
    }

    /** The bit pattern of a signed number. */
    function Pattern(n: int): (u: nat)
      ensures u < Modulus()
    {
      n % Modulus()
    }

    /** The signed number with a bit pattern. */
    function Signed(u: nat): int
      requires u < Modulus()
    {
      if u < Modulus() / 2 then u else u - Modulus()
    }
  }

  lemma SignedPattern(w: Width, n: int)
    requires w.Fits(n)
    ensures w.Signed(w.Pattern(n)) == n
  {
  }

  lemma PatternSigned(w: Width, value: nat)
    ensures value % w.Modulus() <= value
    ensures w.Pattern(w.Signed(value % w.Modulus())) == value % w.Modulus()
  {
  }

  function Zeros(n: nat): seq<byte> {
    seq(n, _ => 0)
  }

  /** `s` at the start of an array of the width's size. */
  function Padded(w: Width, s: seq<byte>): seq<byte>
    requires |s| <= w.Size()
  {
    s + Zeros(w.Size() - |s|)
  }

  /** The bytes the writer emits for an array: those before the first zero, or one zero. */
  function Written(inner: seq<byte>): seq<byte> {
    if NonZero(inner) == [] then [0] else NonZero(inner)
  }

  function NonZero(inner: seq<byte>): seq<byte> {
    if inner == [] || inner[0] == 0 then [] else [inner[0]] + NonZero(inner[1..])
  }

  // ---------- Properties of the format ----------

  lemma {:induction false} LebBound(u: nat, n: nat)
    requires n > 0 && u < Power128(n)
    ensures |Leb(u)| <= n
  {
    if u >= 128 {
      assert Power128(n) == 128 * Power128(n - 1);
      assert n != 1;
      LebBound(u / 128, n - 1);
    }
  }

  lemma WidthBound(w: Width, u: nat)
    requires u < w.Modulus()
    ensures |Leb(u)| <= w.Size()
  {
    if w.W32? {
      assert Power128(5) == 0x8_0000_0000;
    } else {
      assert Power128(5) == 0x8_0000_0000;
      assert Power128(10) == 0x40_0000_0000_0000_0000;
    }
    LebBound(u, w.Size());
  }

  lemma {:induction false} LebDecodes(u: nat, tail: seq<byte>, size: nat)
    requires |Leb(u)| <= size
    ensures LebLength(Leb(u) + tail, size) == Ok(|Leb(u)|)
    ensures LebValue(Leb(u)) == u
    decreases u
  {
    if u >= 128 {
      assert (Leb(u) + tail)[1..] == Leb(u / 128) + tail;
      LebDecodes(u / 128, tail, size - 1);
    } else {
      assert Leb(u)[1..] == [];
    }
  }

  /** No byte of an encoding is zero, unless it is the encoding of zero. */
  lemma {:induction false} LebNonZero(u: nat)
    ensures u != 0 ==> forall i :: 0 <= i < |Leb(u)| ==> Leb(u)[i] != 0
    decreases u
  {
    if u >= 128 { LebNonZero(u / 128); }
  }

  lemma {:induction false} NonZeroOf(s: seq<byte>, tail: seq<byte>)
    requires (forall i :: 0 <= i < |s| ==> s[i] != 0) && (tail != [] ==> tail[0] == 0)
    ensures NonZero(s + tail) == s
  {
    if s == [] {
      assert s + tail == tail;
    } else {
      assert (s + tail)[1..] == s[1..] + tail;
      NonZeroOf(s[1..], tail);
    }
  }

  /** The writer's stopping at a zero byte is sound for every encoded value. */
  lemma WrittenEncoding(w: Width, u: nat)
    requires u < w.Modulus()
    ensures |Leb(u)| <= w.Size() && Written(Padded(w, Leb(u))) == Leb(u)
  {
    WidthBound(w, u);
    if u != 0 {
      LebNonZero(u);
      NonZeroOf(Leb(u), Zeros(w.Size() - |Leb(u)|));
    }
  }

  lemma {:induction false} ValueBound(s: seq<byte>)
    ensures LebValue(s) < Power128(|s|)
  {
    if s != [] { ValueBound(s[1..]); }
  }

  lemma {:induction false} LebShort(u: nat, s: seq<byte>)
    requires s != [] && u <= LebValue(s)
    ensures |Leb(u)| <= |s|
  {
    ValueBound(s);
    LebBound(u, |s|);
  }

  lemma Quotient(u: nat, d: nat, q: nat, rest: nat)
    requires u == d * q + rest && rest < d
    ensures u / d == q
  {
    if u / d < q {
      MulMonotone(u / d + 1, q, d);
    } else if u / d > q {
      MulMonotone(q + 1, u / d, d);
    }
  }

  lemma DivideTwice(u: nat, p: nat)
    requires p > 0
    ensures u / 128 / p == u / (128 * p)
  {
    var a := u / 128;
    assert u == 128 * a + u % 128 && a == p * (a / p) + a % p;
    assert u == (128 * p) * (a / p) + (128 * (a % p) + u % 128);
    assert 128 * (a % p) + u % 128 < 128 * p;
    Quotient(u, 128 * p, a / p, 128 * (a % p) + u % 128);
  }

  /** Byte by byte: the group of seven bits at each place, marked if more follow. */
  lemma {:induction false} LebByte(u: nat, i: nat)
    requires i < |Leb(u)|
    ensures Leb(u)[i] % 128 == u / Power128(i) % 128
    ensures Leb(u)[i] >= 128 <==> i < |Leb(u)| - 1
    decreases u
  {
    if i == 0 {
      assert Power128(0) == 1;
    } else {
      LebByte(u / 128, i - 1);
      DivideTwice(u, Power128(i - 1));
      NextPower(i);
      hide Power128;
    }
  }

  /** There are no more bytes than the number needs. */
  lemma {:induction false} LebSize(u: nat)
    ensures u < Power128(|Leb(u)|) && (|Leb(u)| > 1 ==> Power128(|Leb(u)| - 1) <= u)
    decreases u
  {
    if u < 128 {
      assert Power128(0) == 1;
    } else {
      var n := |Leb(u / 128)|;
      LebSize(u / 128);
      NextPower(n + 1);
      NextPower(n);
      if n == 1 { assert Power128(0) == 1; }
      hide Power128;
    }
  }

  /** Byte by byte, what is read: the group at each place of the value is that byte's low seven bits. */
  lemma {:induction false} ValueBytes(s: seq<byte>, i: nat)
    requires i < |s|
    ensures LebValue(s) / Power128(i) % 128 == s[i] % 128
  {
    var rest := s[1..];
    FirstGroup(s[0] % 128, LebValue(rest));
    if i == 0 {
      assert Power128(0) == 1;
    } else {
      ValueBytes(rest, i - 1);
      DivideTwice(LebValue(s), Power128(i - 1));
      NextPower(i);
      hide Power128;
    }
  }

  lemma FirstGroup(low: nat, high: nat)
    requires low < 128
    ensures (low + 128 * high) / 128 == high && (low + 128 * high) % 128 == low
  {
  }

  lemma NextPower(n: nat)
    requires n > 0
    ensures Power128(n) == 128 * Power128(n - 1)
  {
  }

  /** A negative number's pattern is its complement, and takes all the bytes there are. */
  lemma NegativeTakesAll(w: Width, n: int)
    requires w.Fits(n) && n < 0
    ensures w.Pattern(n) == n + if w.W32? then 0x1_0000_0000 else 0x1_0000_0000_0000_0000
    ensures |Leb(w.Pattern(n))| == if w.W32? then 5 else 10
  {
    var u := w.Pattern(n);
    WidthBound(w, u);
    LebSize(u);
    LargePattern(w, n);
    hide Power128, Leb, Width.Pattern;
    if |Leb(u)| < w.Size() { PowerMonotone(|Leb(u)|, w.Size() - 1); }
  }

  lemma LargePattern(w: Width, n: int)
    requires w.Fits(n) && n < 0
    ensures w.Pattern(n) == n + w.Modulus() && w.Pattern(n) >= Power128(w.Size() - 1)
  {
    if w.W32? {
      assert Power128(4) == 0x1000_0000;
    } else {
      assert Power128(4) == 0x1000_0000;
      assert Power128(9) == 0x8000_0000_0000_0000;
    }
  }

  lemma {:induction false} PowerMonotone(a: nat, b: nat)
    requires a <= b
    ensures Power128(a) <= Power128(b)
    decreases b
  {
    if a < b { PowerMonotone(a, b - 1); }
  }

  // ---------- Whole numbers through write and read ----------

  /**
    Writing any number and reading it back: the reader consumes exactly what was written, whatever
    follows, and yields the number.
   */
  lemma WriteThenRead(w: Width, n: int, tail: seq<byte>)
    requires w.Fits(n)
    ensures var bytes := Leb(w.Pattern(n));
            && |bytes| <= w.Size() && Written(Padded(w, bytes)) == bytes
            && LebLength(bytes + tail, w.Size()) == Ok(|bytes|)
            && w.Signed(LebValue(bytes) % w.Modulus()) == n
  {
    var u := w.Pattern(n);
    WrittenEncoding(w, u);
    LebDecodes(u, tail, w.Size());
    SignedPattern(w, n);
  }

  /** No shorter string that a decoder accepts stands for the same number. */
  lemma EncodingIsShortest(w: Width, n: int, s: seq<byte>)
    requires w.Fits(n) && LebLength(s, w.Size()) == Ok(|s|) && w.Signed(LebValue(s) % w.Modulus()) == n
    ensures |Leb(w.Pattern(n))| <= |s|
  {
    hide *;
    PatternSigned(w, LebValue(s));
    LebShort(w.Pattern(n), s);
  }

  /**
    Exactly when writing what was read reproduces it: a string of several bytes that ends in a zero
    byte, though accepted, is written without that byte, and so without its end.
   */
  lemma ReadThenWriteExactly(w: Width, s: seq<byte>)
    requires LebLength(s, w.Size()) == Ok(|s|)
    ensures Written(Padded(w, s)) == s <==> |s| == 1 || s[|s| - 1] != 0
    ensures |s| > 1 && s[|s| - 1] == 0 ==> Written(Padded(w, s)) == s[..|s| - 1]
  {
    hide *;
    if s[|s| - 1] != 0 {
      WrittenWhole(w, s);
    } else {
      WrittenShort(w, s);
    }
  }

  lemma WrittenWhole(w: Width, s: seq<byte>)
    requires LebLength(s, w.Size()) == Ok(|s|) && s[|s| - 1] != 0
    ensures Written(Padded(w, s)) == s
  {
    hide *;
    AcceptedExactly(s, w.Size(), |s|);
    ZeroFirst(w.Size() - |s|);
    PaddedIs(w, s);
    AllNonZero(s);
    WrittenBefore(s, Zeros(w.Size() - |s|));
  }

  lemma PaddedIs(w: Width, s: seq<byte>)
    requires |s| <= w.Size()
    ensures Padded(w, s) == s + Zeros(w.Size() - |s|)
  {
  }

  lemma AllNonZero(s: seq<byte>)
    requires s != [] && s[|s| - 1] != 0 && forall i :: 0 <= i < |s| - 1 ==> s[i] >= 128
    ensures forall i :: 0 <= i < |s| ==> s[i] != 0
  {
  }

  lemma WrittenShort(w: Width, s: seq<byte>)
    requires LebLength(s, w.Size()) == Ok(|s|) && s[|s| - 1] == 0
    ensures Written(Padded(w, s)) == (if |s| == 1 then s else s[..|s| - 1])
    ensures |s| > 1 ==> s[..|s| - 1] != s
  {
    AcceptedExactly(s, w.Size(), |s|);
    var front := s[..|s| - 1];
    assert s == front + [0];
    WrittenBeforeZero(w, front);
    hide *;
  }

  lemma WrittenBeforeZero(w: Width, front: seq<byte>)
    requires |front| < w.Size() && forall i :: 0 <= i < |front| ==> front[i] != 0
    ensures Written(Padded(w, front + [0])) == if front == [] then [0] else front
  {
    var zeros := Zeros(w.Size() - |front| - 1);
    var rest: seq<byte> := [0] + zeros;
    assert (front + [0]) + zeros == front + rest;
    WrittenBefore(front, rest);
  }

  lemma ZeroFirst(n: nat)
    ensures Zeros(n) != [] ==> Zeros(n)[0] == 0
  {
  }

  lemma WrittenBefore(s: seq<byte>, rest: seq<byte>)
    requires (forall i :: 0 <= i < |s| ==> s[i] != 0) && (rest != [] ==> rest[0] == 0)
    ensures Written(s + rest) == if s == [] then [0] else s
  {
    NonZeroOf(s, rest);
  }

  // ---------- What a decoder accepts ----------

  /** Exactly which strings are accepted, with which length, and which error the others give. */
  lemma {:induction false} AcceptedExactly(s: seq<byte>, size: nat, n: nat)
    ensures LebLength(s, size) == Ok(n) <==>
              && 0 < n <= |s| && n <= size && s[n - 1] < 128
              && forall i :: 0 <= i < n - 1 ==> s[i] >= 128
    ensures LebLength(s, size) == Err(TooLong) <==>
              |s| > size && forall i :: 0 <= i < size ==> s[i] >= 128
    ensures LebLength(s, size) == Err(Truncated) <==>
              |s| <= size && forall i :: 0 <= i < |s| ==> s[i] >= 128
  {
    if s != [] && size != 0 {
      AcceptedExactly(s[1..], size - 1, if n > 0 then n - 1 else 0);
    }
  }

  /** There are no other errors. */
  lemma {:induction false} LengthErrors(s: seq<byte>, size: nat)
    ensures LebLength(s, size).Err? ==> LebLength(s, size).error in {Truncated, TooLong}
  {
    if s != [] && size != 0 { LengthErrors(s[1..], size - 1); }
  }

  /** What a decoder of a signed number makes of `s`: the number and the bytes consumed. */
  function DecodedInteger(w: Width, s: seq<byte>): Result<(int, nat)> {
    var n :- LebLength(s, w.Size());
    Ok((w.Signed(LebValue(s[..n]) % w.Modulus()), n))
  }

  /** What a 32-bit decoder makes of `data`: the bit pattern and the bytes consumed. */
  function Decoded32(data: seq<byte>): Result<(u32, nat)> {
    var n :- LebLength(data, 5);
    Ok((LebValue(data[..n]) % 0x1_0000_0000, n))
  }

  lemma Regrouped(p: nat, c: nat, z: nat, t: nat, b: nat)
    requires t < c && b < p
    ensures p * (c * z + t) + b == (p * c) * z + (p * t + b) && p * t + b < p * c
  {
    MulMonotone(t + 1, c, p);
    assert (t + 1) * p == p * t + p && c * p == p * c;
    assert p * (c * z + t) == p * (c * z) + p * t && p * (c * z) == (p * c) * z;
  }

  lemma Split(u: nat, d: nat, q: nat, rest: nat)
    requires u == d * q + rest && rest < d
    ensures u / d == q && u % d == rest
  {
    Quotient(u, d, q, rest);
    assert u == d * (u / d) + u % d;
  }

  lemma DividedTwice(x: nat, p: nat, c: nat, y: nat, b: nat, z: nat, t: nat)
    requires x == p * y + b && y == c * z + t && b < p && t < c
    ensures p * c > 0 && x % (p * c) / p == t
  {
    Regrouped(p, c, z, t, b);
    Split(x, p * c, z, p * t + b);
    Split(p * t + b, p, t, b);
  }

  /** Dividing what is left of `x` is leaving what `x` divided leaves. */
  lemma QuotientOfRemainder(x: nat, p: nat, c: nat)
    requires p > 0 && c > 0
    ensures p * c > 0 && x % (p * c) / p == x / p % c
  {
    Whole(x, p);
    Whole(x / p, c);
    DividedTwice(x, p, c, x / p, x % p, x / p / c, x / p % c);
  }

  lemma Whole(x: nat, p: nat)
    requires p > 0
    ensures x == p * (x / p) + x % p && x % p < p
  {
  }

  lemma RemainderOfRemainder(y: nat, k: nat)
    requires k > 0
    ensures y % (128 * k) % 128 == y % 128
  {
    var z, t := y / (128 * k), y % (128 * k);
    assert y == (128 * k) * z + t && (128 * k) * z == 128 * (k * z);
    var a, b := t / 128, t % 128;
    assert y == 128 * (k * z + a) + b;
    Split(y, 128, k * z + a, b);
  }

  lemma SameGroup(x: nat, p: nat, k: nat)
    requires p > 0 && k > 0
    ensures p * (128 * k) > 0 && x % (p * (128 * k)) / p % 128 == x / p % 128
  {
    QuotientOfRemainder(x, p, 128 * k);
    RemainderOfRemainder(x / p, k);
  }

  lemma TopBits(x: nat, p: nat, k: nat)
    requires p > 0 && k in {2, 16}
    ensures x % (p * k) / p == x / p % 128 % k
  {
    QuotientOfRemainder(x, p, k);
    LowBits(x / p);
  }

  lemma LowBits(y: nat)
    ensures y % 128 % 2 == y % 2 && y % 128 % 16 == y % 16
  {
  }

  lemma Outside(a: nat, b: nat)
    ensures 128 * (a * 128 * b) == (128 * a) * 128 * b
  {
  }

  lemma {:induction false} PowerSplit(n: nat, i: nat)
    requires i < n
    ensures Power128(n) == Power128(i) * 128 * Power128(n - 1 - i)
    decreases i
  {
    NextPower(n);
    if i == 0 {
      assert Power128(0) == 1;
    } else {
      PowerSplit(n - 1, i - 1);
      NextPower(i);
      hide Power128;
      Outside(Power128(i - 1), Power128(n - 1 - i));
    }
  }

  lemma WholeModulus(low: nat, rest: nat, spare: nat, power: nat)
    requires power == low * 128 * rest && rest > 0 && spare > 0
    ensures low * (128 * (rest * spare)) == power * spare && rest * spare > 0
  {
    MulMonotone(1, rest, spare);
    assert low * (128 * (rest * spare)) == (low * 128) * (rest * spare);
    assert (low * 128) * (rest * spare) == ((low * 128) * rest) * spare;
  }

  lemma WidthGroups(w: Width, x: nat, i: nat)
    requires i < w.Size() - 1
    ensures x % w.Modulus() / Power128(i) % 128 == x / Power128(i) % 128
  {
    var n := w.Size() - 1;
    var spare := if w.W32? then 16 else 2;
    LastGroup(w);
    PowerSplit(n, i);
    hide Power128;
    var rest := Power128(n - 1 - i);
    WholeModulus(Power128(i), rest, spare, Power128(n));
    SameGroup(x, Power128(i), rest * spare);
  }

  /** `u` has, at the place `i`, the seven bits of a byte; at the last place only as many as fit the width. */
  predicate HasGroup(w: Width, u: nat, i: nat, b: byte) {
    if w.W32? && i == 4 then u / 0x1000_0000 == b % 16
    else if w.W64? && i == 9 then u / 0x8000_0000_0000_0000 == b % 2
    else u / Power128(i) % 128 == b % 128
  }

  lemma TopBit(x: nat, p: nat, k: nat, b: byte)
    requires p > 0 && k in {2, 16} && x / p % 128 == b % 128
    ensures x / p % 128 % k == b % k
  {
    hide *;
    LowBits(b);
  }

  lemma PatternGroups(w: Width, x: nat, i: nat, b: byte)
    requires i < w.Size() && x / Power128(i) % 128 == b % 128
    ensures HasGroup(w, x % w.Modulus(), i, b)
  {
    LastGroup(w);
    hide Power128;
    if i == w.Size() - 1 {
      if w.W32? {
        TopBits(x, 0x1000_0000, 16);
        TopBit(x, 0x1000_0000, 16, b);
      } else {
        TopBits(x, 0x8000_0000_0000_0000, 2);
        TopBit(x, 0x8000_0000_0000_0000, 2, b);
      }
    } else {
      WidthGroups(w, x, i);
    }
  }

  /**
    What a decoded number's bits are: seven of each byte, the first byte's lowest, and of the last byte
    that fits the width only as many as do; the rest are lost.
   */
  lemma DecodedBits(w: Width, s: seq<byte>, i: nat)
    requires DecodedInteger(w, s).Ok? && i < DecodedInteger(w, s).value.1
    ensures i < |s| && HasGroup(w, w.Pattern(DecodedInteger(w, s).value.0), i, s[i])
  {
    var n := LebLength(s, w.Size()).value;
    var x := LebValue(s[..n]);
    PatternSigned(w, x);
    ValueBytes(s[..n], i);
    hide LebLength, LebValue, Power128, HasGroup, Width.Signed, Width.Pattern, Width.Modulus;
    PatternGroups(w, x, i, s[i]);
  }

  lemma LastGroup(w: Width)
    ensures Power128(w.Size() - 1) == if w.W32? then 0x1000_0000 else 0x8000_0000_0000_0000
  {
    assert Power128(4) == 0x1000_0000;
    if w.W64? { assert Power128(9) == 0x8000_0000_0000_0000; }
  }

  /** A decoder gives up after 5 or 10 bytes of which none is the last. */
  lemma TooLongExactly(w: Width, s: seq<byte>)
    ensures DecodedInteger(w, s) == Err(TooLong) <==>
              var size := if w.W32? then 5 else 10;
              |s| > size && forall i :: 0 <= i < size ==> s[i] >= 128
    ensures DecodedInteger(w, s) == Err(Truncated) <==>
              |s| <= (if w.W32? then 5 else 10) && forall i :: 0 <= i < |s| ==> s[i] >= 128
  {
    AcceptedExactly(s, w.Size(), 0);
    hide LebLength, LebValue;
  }

  /** A decoded pattern taken as a signed length, which must not be negative. */
  function SignChecked(r: Result<(u32, nat)>): Result<(nat, nat)> {
    var decoded :- r;
    var len := W32.Signed(decoded.0);
    if len < 0 then Err(NegativeLength) else Ok((len, decoded.1))
  }

  /** The signed and the unsigned 32-bit decoders agree on what they accept, on the bits and on the length. */
  lemma DecodersAgree(s: seq<byte>)
    ensures match Decoded32(s)
            case Ok((u, n)) => exists v :: DecodedInteger(W32, s) == Ok((v, n)) && W32.Pattern(v) == u
            case Err(e) => DecodedInteger(W32, s) == Err(e)
    ensures SignChecked(Decoded32(s)) ==
              match DecodedInteger(W32, s)
              case Ok((v, n)) => (if v < 0 then Err(NegativeLength) else Ok((v, n)))
              case Err(e) => Err(e)
  {
    hide LebLength, LebValue;
    match LebLength(s, 5)
    case Ok(n) =>
      PatternSigned(W32, LebValue(s[..n]));
    case Err(_) =>
  }

  /** An encoding followed by anything decodes to its number, as bits and as a length. */
  lemma DecodesEncoding(u: u32, tail: seq<byte>)
    ensures Decoded32(Leb(u) + tail) == Ok((u, |Leb(u)|))
  {
    WidthBound(W32, u);
    LebDecodes(u, tail, 5);
    assert (Leb(u) + tail)[..|Leb(u)|] == Leb(u);
  }
}
