/**
  The 24-bit circular receive window, and the unbounded set of numbers that it
  stands for.
 */
module ReceiveWindow {
  import opened Basics
  import opened Datagrams

  // ---------- Circular arithmetic ----------

  function Wrap(x: int): u24 {
    x % 0x100_0000
  }

  function ForwardDistance(from: u24, to: u24): u24 {
    Wrap(to - from)
  }

  /** `a` is ahead of `b` by less than half the circle. */
  predicate SeqGreater(a: u24, b: u24) {
    0 < Wrap(a - b) < 0x80_0000
  }

  /** Numbers less than a whole circle apart keep their difference. */
  lemma WrapDifference(x: int, y: int)
    requires -0x100_0000 < x - y < 0x100_0000
    ensures Wrap(Wrap(x) - Wrap(y)) == if x >= y then x - y else x - y + 0x100_0000
    ensures Wrap(x) == Wrap(y) <==> x == y
  {
  }

  lemma WrapNext(x: int)
    ensures Wrap(Wrap(x) + 1) == Wrap(x + 1) && Wrap(Wrap(x)) == Wrap(x) && Wrap(Wrap(x) - 1) == Wrap(x - 1)
  {
    var turns := x / 0x100_0000;
    assert x == turns * 0x100_0000 + Wrap(x);
  }

  /** The number in `[base, base + 2^24)` that a 24-bit number stands for. */
  function Unwrap(base: int, s: int): int {
    base + Wrap(s - base)
  }

  lemma UnwrapResidue(base: int, s: u24)
    ensures Wrap(Unwrap(base, s)) == s
  {
  }

  lemma UnwrapWrap(base: int, n: int)
    requires base <= n < base + 0x100_0000
    ensures Unwrap(base, Wrap(n)) == n
  {
  }

  // ---------- The window ----------

  datatype Window = Window(lowestUnseen: u24, highestSeen: u24, received: set<int>, started: bool)

  const NEW_WINDOW := Window(0, 0, {}, false)

  function Advance(w: Window): Window
    decreases |w.received|
  {
    if w.lowestUnseen in w.received then
      Advance(w.(received := w.received - {w.lowestUnseen}, lowestUnseen := Wrap(w.lowestUnseen + 1)))
    else w
  }

  function Record(w: Window, seqno: u24): (Window, bool) {
    if !w.started then (Advance(Window(seqno, seqno, w.received + {seqno}, true)), true)
    else if SeqGreater(w.lowestUnseen, seqno) then (w, false)
    else if seqno in w.received then (w, false)
    else
      var highest := if SeqGreater(seqno, w.highestSeen) then seqno else w.highestSeen;
      (Advance(w.(received := w.received + {seqno}, highestSeen := highest)), true)
  }

  function RangeOrSingle(start: u24, end: u24): AckRange {
    if start == end then Single(start) else Range(start, end)
  }

  /**
    The missing numbers of `[cur, stop]`, counted without wrapping, as wire records. `open` is the
    start of the run that reaches up to `cur`, if there is one.
   */
  function MissingFrom(received: set<int>, cur: int, stop: int, open: Option<int>): seq<AckRange>
    decreases stop - cur
  {
    if cur > stop then
      if open.Some? then [RangeOrSingle(Wrap(open.value), Wrap(stop))] else []
    else if Wrap(cur) !in received then
      MissingFrom(received, cur + 1, stop, if open.Some? then open else Some(cur))
    else if open.Some? then
      [RangeOrSingle(Wrap(open.value), Wrap(cur - 1))] + MissingFrom(received, cur + 1, stop, None)
    else MissingFrom(received, cur + 1, stop, None)
  }

  function Missing(w: Window): seq<AckRange> {
    if !w.started || w.received == {} then []
    else
      var span := ForwardDistance(w.lowestUnseen, w.highestSeen);
      if w.highestSeen in w.received && span == 0 then []
      else MissingFrom(w.received, w.lowestUnseen, w.lowestUnseen + span, None)
  }

  class DatagramWindow {
    var lowestUnseen: u24
    var highestSeen: u24
    var received: set<int>
    var started: bool

    function Contents(): Window
      reads this
    {
      Window(lowestUnseen, highestSeen, received, started)
    }

    constructor ()
      ensures Contents() == NEW_WINDOW
    {
      lowestUnseen, highestSeen, received, started := 0, 0, {}, false;
    }

    method AdvanceContiguous()
      modifies this
      ensures Contents() == Advance(old(Contents()))
    {
      while lowestUnseen in received
        invariant Advance(Contents()) == Advance(old(Contents()))
        decreases received
      {
        received := received - {lowestUnseen};
        lowestUnseen := Wrap(lowestUnseen + 1);
      }
    }

    method RecordArrival(number: u32) returns (isNew: bool)
      modifies this
      ensures (Contents(), isNew) == Record(old(Contents()), Wrap(number))
    {
      var seqno := Wrap(number);
      if !started {
        started := true;
        lowestUnseen := seqno;
        highestSeen := seqno;
        received := received + {seqno};
        AdvanceContiguous();
        return true;
      }
      if SeqGreater(lowestUnseen, seqno) {
        return false;
      }
      if seqno in received {
        return false;
      }
      received := received + {seqno};
      if SeqGreater(seqno, highestSeen) {
        highestSeen := seqno;
      }
      AdvanceContiguous();
      return true;
    }

    method MissingRanges() returns (ranges: seq<AckRange>)
      ensures ranges == Missing(Contents())
    {
      if !started || received == {} {
        return [];
      }
      var span: int := ForwardDistance(lowestUnseen, highestSeen);
      if highestSeen in received && span == 0 {
        return [];
      }
      ranges := [];
      var rangeStart: Option<u24> := None;
      var cur: int := lowestUnseen;
      ghost var stop := lowestUnseen + span;
      ghost var open: Option<int> := None;
      assert Wrap(stop) == highestSeen;
      for i := 0 to span + 1
        invariant cur == Wrap(lowestUnseen + i)
        invariant rangeStart.Some? == open.Some? && (open.Some? ==> rangeStart.value == Wrap(open.value))
        invariant ranges + MissingFrom(received, lowestUnseen + i, stop, open) == Missing(Contents())
      {
        ghost var rest := MissingFrom(received, lowestUnseen + i + 1, stop, None);
        WrapNext(lowestUnseen + i);
        if cur !in received {
          if rangeStart.None? {
            rangeStart, open := Some(cur), Some(lowestUnseen + i);
          }
        } else if rangeStart.Some? {
          var record := RangeOrSingle(rangeStart.value, Wrap(cur - 1));
          assert ranges + ([record] + rest) == (ranges + [record]) + rest;
          ranges := ranges + [record];
          rangeStart, open := None, None;
        }
        cur := Wrap(cur + 1);
      }
      if rangeStart.Some? {
        ranges := ranges + [RangeOrSingle(rangeStart.value, highestSeen)];
      } else {
        assert ranges + [] == ranges;
      }
    }
  }
}
