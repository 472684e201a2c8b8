/**
  The reassembler: fragments of one payload are collected in any order and
  joined when the last missing one arrives.
 */
module Reassembly {
  import opened Basics
  import opened Datagrams
  import opened Ascending
  import opened Splitting

  /** A reassembler's contents. `count` is zero whenever nothing is buffered. */
  datatype Parts = Parts(fragments: map<int, seq<byte>>, count: u32)

  const NO_PARTS := Parts(map[], 0)

  /** The buffered pieces, joined in the order of `keys`. */
  function JoinInOrder(fragments: map<int, seq<byte>>, keys: seq<int>): seq<byte>
    requires forall i :: 0 <= i < |keys| ==> keys[i] in fragments
  {
    if keys == [] then []
    else JoinInOrder(fragments, keys[..|keys| - 1]) + fragments[keys[|keys| - 1]]
  }

  ghost function Keys(fragments: map<int, seq<byte>>): (s: set<int>)
    ensures |s| == |fragments| && forall k :: k in s <==> k in fragments
  {
    SameCount(fragments);
    set k | k in fragments
  }

  lemma SameCount(fragments: map<int, seq<byte>>)
    ensures |set k | k in fragments| == |fragments|
  {
    assert (set k | k in fragments) == fragments.Keys;
  }

  ghost function AddPart(p: Parts, split: SplitInfo, body: seq<byte>): (Parts, Result<Option<seq<byte>>>) {
    if split.count == 0 then (p, Err(ZeroSplitCount))
    else if split.index >= split.count then (p, Err(SplitIndexOutOfRange))
    else if split.index in p.fragments then (p, Err(DuplicateFragment))
    else if p.fragments != map[] && p.count != split.count then (p, Err(SplitCountMismatch))
    else
      var fragments := p.fragments[split.index := body];
      if |fragments| == split.count then
        SortedKeys(fragments);
        (NO_PARTS, Ok(Some(JoinInOrder(fragments, Sorted(Keys(fragments))))))
      else (Parts(fragments, split.count), Ok(None))
  }

  lemma SortedKeys(fragments: map<int, seq<byte>>)
    ensures forall i :: 0 <= i < |Sorted(Keys(fragments))| ==> Sorted(Keys(fragments))[i] in fragments
  {
    var keys := Sorted(Keys(fragments));
    assert forall i :: 0 <= i < |keys| ==> keys[i] in keys;
  }

  /** The pieces, smallest key first. */
  method Join(fragments: map<int, seq<byte>>) returns (assembled: seq<byte>)
    ensures forall i :: 0 <= i < |Sorted(Keys(fragments))| ==> Sorted(Keys(fragments))[i] in fragments
    ensures assembled == JoinInOrder(fragments, Sorted(Keys(fragments)))
  {
    SortedKeys(fragments);
    TheKeys(fragments);
    hide Sorted, Keys;
    var keys := InOrder(set k | k in fragments);
    assembled := [];
    for i := 0 to |keys|
      invariant assembled == JoinInOrder(fragments, keys[..i])
    {
      JoinNext(fragments, keys, i);
      assembled := assembled + fragments[keys[i]];
    }
    assert keys[..|keys|] == keys;
  }

  lemma TheKeys(fragments: map<int, seq<byte>>)
    ensures (set k | k in fragments) == Keys(fragments)
  {
  }

  lemma JoinNext(fragments: map<int, seq<byte>>, keys: seq<int>, i: nat)
    requires i < |keys| && forall j :: 0 <= j < |keys| ==> keys[j] in fragments
    ensures JoinInOrder(fragments, keys[..i + 1]) == JoinInOrder(fragments, keys[..i]) + fragments[keys[i]]
  {
    assert keys[..i + 1][..i] == keys[..i];
  }

  class Reassembler {
    var fragments: map<int, seq<byte>>
    var count: u32

    ghost function Contents(): Parts
      reads this
    {
      Parts(fragments, count)
    }

    constructor ()
      ensures Contents() == NO_PARTS
    {
      fragments, count := map[], 0;
    }

    /** Takes over a reassembler that was moved out of a map. */
    constructor From(p: Parts)
      ensures Contents() == p
    {
      fragments, count := p.fragments, p.count;
    }

    method Add(split: SplitInfo, body: seq<byte>) returns (r: Result<Option<seq<byte>>>)
      modifies this
      ensures (Contents(), r) == AddPart(old(Contents()), split, body)
    {
      if split.count == 0 {
        return Err(ZeroSplitCount);
      }
      if split.index >= split.count {
        return Err(SplitIndexOutOfRange);
      }
      if split.index in fragments {
        return Err(DuplicateFragment);
      }
      if fragments == map[] {
        count := split.count;
      } else if count != split.count {
        return Err(SplitCountMismatch);
      }
      fragments := fragments[split.index := body];
      if |fragments| == count {
        var taken := fragments;
        fragments := map[];
        var assembled := Join(taken);
        count := 0;
        return Ok(Some(assembled));
      }
      return Ok(None);
    }
  }

  // ---------- Splitting and reassembly undo each other ----------

  /** A payload to be split: its frame, the budget and the group's id. */
  datatype Group = Group(frame: Frame, max: nat, id: u16) {
    predicate Splits() {
      && frame.split.None? && 0 < max < |frame.body|
      && PieceCount(|frame.body|, max) <= 0xffff_ffff
    }

    function Count(): u32
      requires Splits()
    {
      PieceCount(|frame.body|, max)
    }

    function At(i: nat): (f: Frame)
      requires Splits() && i < Count()
      ensures f.split == Some(SplitInfo(Count(), id, i)) && f.Template() == frame.Template()
    {
      Fragment(frame, max, id, Count(), i)
    }
  }

  lemma GroupCount(g: Group)
    requires g.Splits()
    ensures g.Count() >= 2
    ensures SplitInto(g.frame, g.max, g.id) == Ok(Fragments(g.frame, g.max, g.id, g.Count()))
    ensures |Fragments(g.frame, g.max, g.id, g.Count())| == g.Count()
    ensures forall i :: 0 <= i < g.Count() ==> Fragments(g.frame, g.max, g.id, g.Count())[i] == g.At(i)
  {
    MulMonotone(g.Count(), 1, g.max);
  }

  /** What a reassembler holds when it has seen the fragments of `g` numbered in `seen`, and no others. */
  ghost function Holding(g: Group, seen: set<int>): Parts
    requires g.Splits() && forall i :: i in seen ==> 0 <= i < g.Count()
  {
    Parts(map i | i in seen :: g.At(i).body, if seen == {} then 0 else g.Count())
  }

  lemma {:induction false} JoinPieces(g: Group, fragments: map<int, seq<byte>>, keys: seq<int>)
    requires g.Splits() && |keys| <= g.Count()
    requires forall i :: 0 <= i < |keys| ==> keys[i] == i && keys[i] in fragments && fragments[i] == g.At(i).body
    ensures JoinInOrder(fragments, keys) == g.frame.body[..PieceStart(|g.frame.body|, g.max, |keys|)]
  {
    if keys != [] {
      hide PieceCount, PieceStart;
      var last, body := |keys| - 1, g.frame.body;
      JoinPieces(g, fragments, keys[..last]);
      PieceStartStep(|body|, g.max, last);
      var start, end := PieceStart(|body|, g.max, last), PieceStart(|body|, g.max, |keys|);
      assert body[..start] + body[start..end] == body[..end];
    }
  }

  lemma KeysAreAll(fragments: map<int, seq<byte>>, count: nat)
    requires |fragments| == count && forall i :: i in fragments ==> 0 <= i < count
    ensures var keys := Sorted(Keys(fragments));
            |keys| == count && forall i :: 0 <= i < count ==> keys[i] == i && keys[i] in fragments
  {
    hide Sorted, Keys, Below;
    BelowAll(Keys(fragments), count);
    SortedBelow(count);
    var keys: seq<int> := seq(count, k => k);
    assert Sorted(Keys(fragments)) == keys;
    forall i | 0 <= i < count
      ensures keys[i] == i && i in fragments
    {
      assert i in Below(count);
    }
  }

  lemma JoinAll(g: Group, fragments: map<int, seq<byte>>, keys: seq<int>)
    requires g.Splits() && |keys| == g.Count()
    requires forall i :: 0 <= i < |keys| ==> keys[i] == i && keys[i] in fragments && fragments[i] == g.At(i).body
    ensures JoinInOrder(fragments, keys) == g.frame.body
  {
    AllPieces(g);
    JoinPieces(g, fragments, keys);
    assert g.frame.body[..|g.frame.body|] == g.frame.body;
  }

  lemma AllPieces(g: Group)
    requires g.Splits()
    ensures PieceStart(|g.frame.body|, g.max, g.Count()) == |g.frame.body|
  {
  }

  /** The next fragment of a group, wherever it stands: nothing until the last, then the whole body. */
  lemma AddFragment(g: Group, seen: set<int>, i: nat)
    requires g.Splits() && (forall k :: k in seen ==> 0 <= k < g.Count())
    requires i < g.Count() && i !in seen && |seen| < g.Count()
    ensures var f := g.At(i);
            AddPart(Holding(g, seen), f.split.value, f.body) ==
              if |seen| + 1 == g.Count() then (NO_PARTS, Ok(Some(g.frame.body)))
              else (Holding(g, seen + {i}), Ok(None))
  {
    var f := g.At(i);
    var fragments := Holding(g, seen).fragments[i := f.body];
    AddedKeys(g, seen, i);
    hide Holding, Fragment, JoinInOrder, Sorted, Keys, PieceCount;
    if |seen| + 1 == g.Count() {
      KeysAreAll(fragments, g.Count());
      JoinAll(g, fragments, Sorted(Keys(fragments)));
    }
  }

  lemma AddedKeys(g: Group, seen: set<int>, i: nat)
    requires g.Splits() && (forall k :: k in seen ==> 0 <= k < g.Count())
    requires i < g.Count() && i !in seen
    ensures var before, fragments := Holding(g, seen), Holding(g, seen).fragments[i := g.At(i).body];
            && (before.fragments == map[] || before.count == g.Count())
            && i !in before.fragments
            && |fragments| == |seen| + 1
            && Parts(fragments, g.Count()) == Holding(g, seen + {i})
            && forall k :: k in fragments ==> 0 <= k < g.Count() && fragments[k] == g.At(k).body
  {
    hide PieceCount, Fragment;
    var fragments := Holding(g, seen).fragments[i := g.At(i).body];
    assert fragments.Keys == seen + {i};
    assert fragments == Holding(g, seen + {i}).fragments;
  }

  /** Feeds frames one after another: the final contents and each call's result. */
  ghost function Feed(p: Parts, fragments: seq<Frame>): (Parts, seq<Result<Option<seq<byte>>>>)
    requires forall f :: f in fragments ==> f.split.Some?
  {
    if fragments == [] then (p, [])
    else
      var last := fragments[|fragments| - 1];
      var (before, results) := Feed(p, fragments[..|fragments| - 1]);
      var (after, r) := AddPart(before, last.split.value, last.body);
      (after, results + [r])
  }

  ghost predicate DistinctBelow(order: seq<int>, n: nat) {
    && (forall i :: 0 <= i < |order| ==> 0 <= order[i] < n)
    && (forall i, j :: 0 <= i < j < |order| ==> order[i] != order[j])
  }

  ghost function Elements(order: seq<int>): set<int> {
    set i | i in order
  }

  function Pick(g: Group, order: seq<int>): (fragments: seq<Frame>)
    requires g.Splits() && forall i :: 0 <= i < |order| ==> 0 <= order[i] < g.Count()
    ensures forall f :: f in fragments ==> f.split.Some?
  {
    seq(|order|, i requires 0 <= i < |order| => g.At(order[i]))
  }

  function Nothing(n: nat): seq<Result<Option<seq<byte>>>> {
    seq(n, _ => Ok(None))
  }

  /**
    Fragments of one group, none repeated, in any order: every call but the one that completes the
    group returns nothing, that one returns the original body, and then the reassembler is empty.
    Before that it holds fewer than `count` fragments, all numbered below `count`.
   */
  lemma {:induction false} ReassemblyInAnyOrder(g: Group, order: seq<int>)
    requires g.Splits() && DistinctBelow(order, g.Count())
    ensures |order| < g.Count() ==>
              Feed(NO_PARTS, Pick(g, order)) == (Holding(g, Elements(order)), Nothing(|order|))
    ensures |order| == g.Count() ==>
              Feed(NO_PARTS, Pick(g, order)) == (NO_PARTS, Nothing(|order| - 1) + [Ok(Some(g.frame.body))])
    ensures |order| <= g.Count()
  {
    ElementCount(g, order);
    if order != [] {
      var front := order[..|order| - 1];
      ReassemblyInAnyOrder(g, front);
      ElementCount(g, front);
      FeedLast(g, order);
    } else {
      assert Elements(order) == {} && Pick(g, order) == [] && Nothing(0) == [];
      assert Holding(g, {}) == NO_PARTS;
      assert Feed(NO_PARTS, []) == (NO_PARTS, []);
    }
  }

  lemma ElementCount(g: Group, order: seq<int>)
    requires g.Splits() && DistinctBelow(order, g.Count())
    ensures |Elements(order)| == |order| <= g.Count()
  {
    DistinctCount(order);
    SubsetCount(Elements(order), Below(g.Count()));
  }

  lemma FeedLast(g: Group, order: seq<int>)
    requires g.Splits() && DistinctBelow(order, g.Count()) && order != []
    requires var front := order[..|order| - 1];
             Feed(NO_PARTS, Pick(g, front)) == (Holding(g, Elements(front)), Nothing(|front|))
    ensures Feed(NO_PARTS, Pick(g, order)) ==
              if |order| < g.Count() then (Holding(g, Elements(order)), Nothing(|order|))
              else (NO_PARTS, Nothing(|order| - 1) + [Ok(Some(g.frame.body))])
  {
    hide *;
    var front, last := order[..|order| - 1], order[|order| - 1];
    PickStep(g, order);
    AddFragment(g, Elements(front), last);
    FeedStep(NO_PARTS, Pick(g, front), g.At(last));
  }

  lemma PickStep(g: Group, order: seq<int>)
    requires g.Splits() && DistinctBelow(order, g.Count()) && order != []
    ensures var front, last := order[..|order| - 1], order[|order| - 1];
            && DistinctBelow(front, g.Count()) && 0 <= last < g.Count()
            && Pick(g, order) == Pick(g, front) + [g.At(last)]
            && Elements(order) == Elements(front) + {last}
            && last !in Elements(front) && |Elements(front)| == |front| < g.Count()
            && (forall i :: 0 <= i < |front| ==> 0 <= front[i] < g.Count())
            && (forall k :: k in Elements(front) ==> 0 <= k < g.Count())
            && Nothing(|front|) + [Ok(None)] == Nothing(|order|)
  {
    var front := order[..|order| - 1];
    LastElement(order, g.Count());
    ElementCount(g, order);
    ElementCount(g, front);
    PickLast(g, order);
    hide Elements, Pick, DistinctBelow;
    assert Nothing(|front|) + [Ok(None)] == Nothing(|order|);
  }

  lemma LastElement(order: seq<int>, n: nat)
    requires order != [] && DistinctBelow(order, n)
    ensures var front, last := order[..|order| - 1], order[|order| - 1];
            && DistinctBelow(front, n) && 0 <= last < n
            && Elements(order) == Elements(front) + {last} && last !in Elements(front)
            && (forall i :: 0 <= i < |front| ==> 0 <= front[i] < n)
            && forall k :: k in Elements(front) ==> 0 <= k < n
  {
  }

  lemma PickLast(g: Group, order: seq<int>)
    requires g.Splits() && order != [] && forall i :: 0 <= i < |order| ==> 0 <= order[i] < g.Count()
    ensures Pick(g, order) == Pick(g, order[..|order| - 1]) + [g.At(order[|order| - 1])]
  {
    hide PieceCount, Fragment;
  }

  lemma FeedStep(p: Parts, fragments: seq<Frame>, last: Frame)
    requires last.split.Some? && forall f :: f in fragments ==> f.split.Some?
    ensures var (before, results) := Feed(p, fragments);
            var (after, r) := AddPart(before, last.split.value, last.body);
            Feed(p, fragments + [last]) == (after, results + [r])
  {
    assert (fragments + [last])[..|fragments|] == fragments;
  }
}
