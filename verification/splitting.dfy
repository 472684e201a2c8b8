/**
  Splitting a payload into fragments and putting it back together, whatever the
  order in which the fragments arrive.
 */
module Splitting {
  import opened Basics
  import opened Datagrams

  // ---------- Splitting ----------

  /** How many pieces of at most `max` bytes a body of `length` bytes needs. */
  function PieceCount(length: nat, max: nat): (count: nat)
    requires max > 0
    ensures length <= count * max
    ensures count > 0 ==> (count - 1) * max < length
  {
    (length + max - 1) / max
  }

  /** Where piece `i` starts; past the last piece this stays at the end of the body. */
  function PieceStart(length: nat, max: nat, i: nat): nat {
    if i * max <= length then i * max else length
  }

  lemma PieceStartStep(length: nat, max: nat, i: nat)
    ensures PieceStart(length, max, i) <= PieceStart(length, max, i + 1) <= PieceStart(length, max, i) + max
    ensures PieceStart(length, max, i + 1) <= length
  {
    assert (i + 1) * max == i * max + max;
  }

  lemma PieceStartsAtZero(length: nat, max: nat)
    ensures PieceStart(length, max, 0) == 0
  {
  }

  function Piece(body: seq<byte>, max: nat, i: nat): seq<byte> {
    PieceStartStep(|body|, max, i);
    body[PieceStart(|body|, max, i)..PieceStart(|body|, max, i + 1)]
  }

  function Fragment(template: Frame, max: nat, id: u16, count: u32, i: u32): Frame {
    template.(split := Some(SplitInfo(count, id, i)), body := Piece(template.body, max, i))
  }

  function Fragments(template: Frame, max: nat, id: u16, count: u32): seq<Frame> {
    seq(count, i requires 0 <= i < count => Fragment(template, max, id, count, i))
  }

  function SplitInto(template: Frame, max: nat, id: u16): Result<seq<Frame>> {
    if max == 0 then Err(ZeroBudget)
    else if |template.body| <= max then Ok([template])
    else
      var count := PieceCount(|template.body|, max);
      if count > 0xffff_ffff then Err(TooManyFragments)
      else Ok(Fragments(template, max, id, count))
  }

  method Split(template: Frame, max: nat, id: u16) returns (r: Result<seq<Frame>>)
    ensures r == SplitInto(template, max, id)
  {
    if max == 0 {
      return Err(ZeroBudget);
    }
    var body := template.body;
    if |body| <= max {
      return Ok([template]);
    }
    var count := PieceCount(|body|, max);
    if count > 0xffff_ffff {
      return Err(TooManyFragments);
    }
    var fragments, offset := [], 0;
    hide PieceStart, PieceCount, Fragment;
    PieceStartsAtZero(|body|, max);
    while offset < |body|
      invariant |fragments| <= count
      invariant offset == PieceStart(|body|, max, |fragments|)
      invariant offset < |body| ==> |fragments| < count
      invariant forall i :: 0 <= i < |fragments| ==> fragments[i] == Fragment(template, max, id, count, i)
      decreases |body| - offset
    {
      var index := |fragments|;
      PieceInside(|body|, max, index);
      var end := if offset + max <= |body| then offset + max else |body|;
      var fragment := template.(split := Some(SplitInfo(count, id, index)), body := body[offset..end]);
      FragmentOf(template, max, id, count, index, end);
      fragments := fragments + [fragment];
      offset := end;
    }
    PieceEnd(|body|, max, |fragments|);
    FragmentsAre(template, max, id, count, fragments);
    return Ok(fragments);
  }

  /** Before the last piece's end there is a whole step to the next start, or the body ends. */
  lemma PieceInside(length: nat, max: nat, i: nat)
    requires max > 0 && PieceStart(length, max, i) < length
    ensures i < PieceCount(length, max)
    ensures var start := PieceStart(length, max, i);
            PieceStart(length, max, i + 1) == if start + max <= length then start + max else length
    ensures PieceStart(length, max, i + 1) < length ==> i + 1 < PieceCount(length, max)
  {
    var count := PieceCount(length, max);
    assert (i + 1) * max == i * max + max;
    MulMonotone(count, i, max);
    MulMonotone(count, i + 1, max);
  }

  lemma FragmentOf(template: Frame, max: nat, id: u16, count: u32, i: u32, end: nat)
    requires PieceStart(|template.body|, max, i) <= end == PieceStart(|template.body|, max, i + 1) <= |template.body|
    ensures template.(split := Some(SplitInfo(count, id, i)), body := template.body[PieceStart(|template.body|, max, i)..end])
         == Fragment(template, max, id, count, i)
  {
  }

  lemma FragmentsAre(template: Frame, max: nat, id: u16, count: u32, q: seq<Frame>)
    requires |q| == count && forall i :: 0 <= i < |q| ==> q[i] == Fragment(template, max, id, count, i)
    ensures q == Fragments(template, max, id, count)
  {
  }

  lemma PieceEnd(length: nat, max: nat, i: nat)
    requires max > 0 && i <= PieceCount(length, max) && PieceStart(length, max, i) >= length
    ensures i == PieceCount(length, max)
  {
    if i < PieceCount(length, max) {
      MulMonotone(i, PieceCount(length, max) - 1, max);
    }
  }
}
