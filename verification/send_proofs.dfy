/**
  What a successful send puts on the wire, when a send succeeds, and exactly how
  large its datagram is.
 */
module SendProofs {
  import opened Basics
  import opened Datagrams
  import opened DatagramProofs
  import opened Splitting
  import opened Reassembly
  import opened EngineState
  import opened Session

  /**
    A frame that the encoder accepts decodes to itself if and only if it is well formed. The encoder
    accepts more: a body of 2^32 bytes or more can pass its length check reduced to 32 bits.
   */
  lemma SurvivesExactly(f: Frame, tail: seq<byte>)
    requires EncodeFrame(f).Ok?
    ensures TakeFrame(EncodeFrame(f).value + tail) == Ok((f, tail)) <==> f.WellFormed()
  {
    hide *;
    if f.WellFormed() {
      FrameRoundTrip(f, tail);
    } else if TakeFrame(EncodeFrame(f).value + tail) == Ok((f, tail)) {
      FrameNormalises(EncodeFrame(f).value + tail);
    }
  }

  /** A witness that it does: 2^32 bytes are accepted and come back as an empty body with 2^32 bytes after it. */
  lemma HugeBodyIsLost(f: Frame)
    requires f.reliability.Unreliable? && f.IndicesMatch() && f.orderChannel == 0 && |f.body| == 0x1_0000_0000
    ensures EncodeFrame(f).Ok? && TakeFrame(EncodeFrame(f).value) == Ok((f.(body := []), f.body))
  {
    var empty := f.(body := []);
    assert f.body + [] == f.body == [] + f.body;
    assert FrameBytes(f, []) == FrameBytes(empty, f.body);
    FrameBytesDecode(empty, f.body);
  }

  /** The frames a send would put into its datagram. */
  function SentFrames(e: Engine, r: Reliability, body: seq<byte>, max: nat): Result<seq<Frame>> {
    SplitInto(NextFrame(e, r, body), max, SplitId(e.nextDatagram))
  }

  lemma NextFrameFields(e: Engine, r: Reliability, body: seq<byte>)
    ensures var f := NextFrame(e, r, body);
            && f.IndicesMatch() && f.IndicesFit() && f.orderChannel == 0 && f.split.None?
            && f.reliability == r && f.body == body && (|body| <= 8191 ==> f.WellFormed())
  {
  }

  lemma PieceSizes(length: nat, max: nat, i: nat)
    requires max > 0
    ensures PieceStart(length, max, i + 1) - PieceStart(length, max, i) <= max
    ensures length > max ==> PieceStart(length, max, 1) - PieceStart(length, max, 0) == max
  {
    PieceStartStep(length, max, i);
  }

  /** Which frames a split sends: the frame itself, or at least two fragments of it. */
  lemma SplitShape(f: Frame, max: nat, id: u16)
    requires f.split.None? && 0 < max
    ensures SplitInto(f, max, id).Ok? <==> |f.body| <= max || PieceCount(|f.body|, max) <= 0xffff_ffff
    ensures |f.body| <= max ==> SplitInto(f, max, id).value == [f]
    ensures |f.body| > max && SplitInto(f, max, id).Ok? ==>
              && Group(f, max, id).Splits()
              && SplitInto(f, max, id).value == Fragments(f, max, id, Group(f, max, id).Count())
  {
  }

  lemma {:induction false} EncodeFramesOk(frames: seq<Frame>)
    ensures EncodeFrames(frames).Ok? <==> forall i :: 0 <= i < |frames| ==> EncodeFrame(frames[i]).Ok?
  {
    if frames != [] {
      hide EncodeFrame;
      EncodeFramesOk(frames[1..]);
      assert forall i :: 0 < i < |frames| ==> frames[i] == frames[1..][i - 1];
    }
  }

  /**
    Exactly when a send succeeds: a body within the budget is at most 8191 bytes, or else the budget
    that its full fragments fill is, and the fragments can be counted in 32 bits.
   */
  lemma SendSucceedsExactly(e: Engine, r: Reliability, body: seq<byte>, max: nat, now: nat)
    requires max <= 0xffff_ffff
    ensures PrepareSend(e, r, body, max, now).1.Ok? <==>
              && 0 < max
              && if |body| <= max then |body| <= 8191 else max <= 8191 && PieceCount(|body|, max) <= 0xffff_ffff
  {
    hide *;
    var f := NextFrame(e, r, body);
    NextFrameFields(e, r, body);
    SendsIfEncoded(e, r, body, max, now);
    if max > 0 {
      SplitShape(f, max, SplitId(e.nextDatagram));
      if |body| <= max {
        EncodeFramesOk([f]);
        BodyEncodes(f);
        assert (forall i :: 0 <= i < |[f]| ==> EncodeFrame([f][i]).Ok?) <==> EncodeFrame([f][0]).Ok?;
      } else if SplitInto(f, max, SplitId(e.nextDatagram)).Ok? {
        EncodeFramesOk(SplitInto(f, max, SplitId(e.nextDatagram)).value);
        FragmentsEncode(Group(f, max, SplitId(e.nextDatagram)));
      }
    }
  }

  lemma SendsIfEncoded(e: Engine, r: Reliability, body: seq<byte>, max: nat, now: nat)
    ensures var frames := SplitInto(NextFrame(e, r, body), max, SplitId(e.nextDatagram));
            && (PrepareSend(e, r, body, max, now).1.Ok? <==> frames.Ok? && EncodeFrames(frames.value).Ok?)
            && (max == 0 ==> frames.Err?)
  {
    hide EncodeFrames, PieceCount, NextFrame;
  }

  lemma BodyEncodes(f: Frame)
    requires f.IndicesMatch() && f.IndicesFit() && |f.body| <= 0xffff_ffff
    ensures EncodeFrame(f).Ok? <==> |f.body| <= 8191
  {
  }

  lemma FragmentsEncode(g: Group)
    requires g.Splits() && g.frame.IndicesMatch() && g.frame.IndicesFit() && g.max <= 0xffff_ffff
    ensures var frames := Fragments(g.frame, g.max, g.id, g.Count());
            (forall i :: 0 <= i < |frames| ==> EncodeFrame(frames[i]).Ok?) <==> g.max <= 8191
  {
    hide *;
    GroupCount(g);
    forall i | 0 <= i < g.Count()
      ensures EncodeFrame(g.At(i)).Ok? <==> |g.At(i).body| <= 8191
      ensures |g.At(i).body| <= g.max && (i == 0 ==> |g.At(i).body| == g.max)
    {
      FragmentFields(g, i);
    }
    var frames := Fragments(g.frame, g.max, g.id, g.Count());
    assert (forall i :: 0 <= i < |frames| ==> EncodeFrame(frames[i]).Ok?) ==> EncodeFrame(frames[0]).Ok?;
  }

  lemma FragmentsWellFormed(g: Group)
    requires g.Splits() && g.frame.IndicesMatch() && g.frame.IndicesFit() && g.max <= 0xffff_ffff
    requires g.max <= 8191 && g.frame.orderChannel == 0
    ensures var frames := Fragments(g.frame, g.max, g.id, g.Count());
            forall f :: f in frames ==> f.WellFormed()
  {
    hide *;
    GroupCount(g);
    forall i | 0 <= i < g.Count()
      ensures g.At(i).WellFormed()
    {
      FragmentFields(g, i);
    }
  }

  lemma FragmentFields(g: Group, i: nat)
    requires g.Splits() && i < g.Count() && g.frame.IndicesMatch() && g.frame.IndicesFit()
    requires g.max <= 0xffff_ffff
    ensures |g.At(i).body| <= g.max && (i == 0 ==> |g.At(i).body| == g.max)
    ensures |g.At(i).body| == PieceStart(|g.frame.body|, g.max, i + 1) - PieceStart(|g.frame.body|, g.max, i)
    ensures EncodeFrame(g.At(i)).Ok? <==> |g.At(i).body| <= 8191
    ensures g.max <= 8191 && g.frame.orderChannel == 0 ==> g.At(i).WellFormed()
    ensures g.At(i).Size() == 13 + g.frame.reliability.IndexBytes() + |g.At(i).body|
  {
    hide PieceCount, PieceStart;
    PieceSizes(|g.frame.body|, g.max, i);
    PieceStartStep(|g.frame.body|, g.max, i);
    assert g.At(i).Template() == g.frame.Template();
  }

  /** The frames of a successful send are well formed, and its bytes are classified as their datagram. */
  lemma SentDecodes(e: Engine, r: Reliability, body: seq<byte>, max: nat, now: nat)
    requires max <= 0xffff_ffff && PrepareSend(e, r, body, max, now).1.Ok?
    ensures SentFrames(e, r, body, max).Ok?
    ensures var frames, bytes := SentFrames(e, r, body, max).value, PrepareSend(e, r, body, max, now).1.value;
            && Datagram(e.nextDatagram, frames).WellFormed()
            && Classify(bytes) == Ok(IncomingDatagram(Datagram(e.nextDatagram, frames)))
            && |bytes| == 4 + TotalSize(frames)
  {
    SendSucceedsExactly(e, r, body, max, now);
    var f, id := NextFrame(e, r, body), SplitId(e.nextDatagram);
    NextFrameFields(e, r, body);
    SplitShape(f, max, id);
    var frames := SentFrames(e, r, body, max).value;
    if |body| > max {
      FragmentsWellFormed(Group(f, max, id));
    }
    hide SplitInto, EncodeDatagram, Classify, Fragments, NextFrame;
    assert forall g :: g in frames ==> g.WellFormed();
    DatagramRoundTrip(Datagram(e.nextDatagram, frames));
  }

  // ---------- Sizes ----------

  lemma {:induction false} TotalSizeAppend(a: seq<Frame>, f: Frame)
    ensures TotalSize(a + [f]) == TotalSize(a) + f.Size()
  {
    if a == [] {
      assert [] + [f] == [f] && [f][1..] == [];
    } else {
      assert (a + [f])[1..] == a[1..] + [f];
      TotalSizeAppend(a[1..], f);
    }
  }

  lemma {:induction false} FragmentsSize(g: Group, n: nat)
    requires g.Splits() && n <= g.Count() && g.frame.IndicesMatch() && g.frame.IndicesFit()
    requires g.max <= 0xffff_ffff
    ensures TotalSize(Fragments(g.frame, g.max, g.id, g.Count())[..n])
         == PieceStart(|g.frame.body|, g.max, n) + n * (13 + g.frame.reliability.IndexBytes())
  {
    if n != 0 {
      hide *;
      FragmentsSize(g, n - 1);
      FragmentFields(g, n - 1);
      LastFragment(g, n);
      TotalSizeAppend(Fragments(g.frame, g.max, g.id, g.Count())[..n - 1], g.At(n - 1));
      MulStep(n, 13 + g.frame.reliability.IndexBytes());
    }
  }

  lemma LastFragment(g: Group, n: nat)
    requires g.Splits() && 0 < n <= g.Count()
    ensures var frames := Fragments(g.frame, g.max, g.id, g.Count());
            |frames| == g.Count() && frames[..n] == frames[..n - 1] + [g.At(n - 1)]
  {
    hide PieceCount, Fragment;
    GroupCount(g);
  }

  lemma GroupSize(g: Group)
    requires g.Splits() && g.frame.IndicesMatch() && g.frame.IndicesFit() && g.max <= 0xffff_ffff
    ensures TotalSize(Fragments(g.frame, g.max, g.id, g.Count()))
         == |g.frame.body| + g.Count() * (13 + g.frame.reliability.IndexBytes())
  {
    hide *;
    GroupCount(g);
    FragmentsSize(g, g.Count());
    AllPieces(g);
    var frames := Fragments(g.frame, g.max, g.id, g.Count());
    assert frames[..g.Count()] == frames;
  }

  lemma FrameAlone(f: Frame)
    ensures TotalSize([f]) == f.Size()
  {
    assert [f][1..] == [];
  }

  /** The number of frames in a send's datagram. */
  function SentCount(length: nat, max: nat): nat {
    if max == 0 || length <= max then 1 else PieceCount(length, max)
  }

  /** A sent datagram's exact size: a header, the body, and for every frame its header and indices. */
  lemma SentSize(e: Engine, r: Reliability, body: seq<byte>, max: nat, now: nat)
    requires max <= 0xffff_ffff && PrepareSend(e, r, body, max, now).1.Ok?
    ensures |PrepareSend(e, r, body, max, now).1.value|
         == 4 + |body| + SentCount(|body|, max) * (3 + r.IndexBytes() + if |body| > max then 10 else 0)
  {
    hide *;
    SentDecodes(e, r, body, max, now);
    SendSucceedsExactly(e, r, body, max, now);
    NextFrameFields(e, r, body);
    SentFramesAre(e, r, body, max);
    SplitSize(NextFrame(e, r, body), max, SplitId(e.nextDatagram));
  }

  lemma SentFramesAre(e: Engine, r: Reliability, body: seq<byte>, max: nat)
    ensures SentFrames(e, r, body, max) == SplitInto(NextFrame(e, r, body), max, SplitId(e.nextDatagram))
  {
  }

  lemma SplitSize(f: Frame, max: nat, id: u16)
    requires f.split.None? && f.IndicesMatch() && f.IndicesFit() && 0 < max <= 0xffff_ffff
    requires SplitInto(f, max, id).Ok?
    ensures TotalSize(SplitInto(f, max, id).value)
         == |f.body| + SentCount(|f.body|, max) * (3 + f.reliability.IndexBytes() + if |f.body| > max then 10 else 0)
  {
    SplitShape(f, max, id);
    hide SplitInto, TotalSize, PieceCount;
    if |f.body| > max {
      GroupSize(Group(f, max, id));
    } else {
      FrameAlone(f);
    }
  }

  /**
    A datagram sent under an MTU of at least 25 fits it if and only if its body is at least 24 bytes
    shorter than the MTU, and then it is one frame; one split into fragments, which all travel in the
    same datagram, never fits. At an MTU of 24 or less nothing can be sent at all.
   */
  lemma SentFitsMtuExactly(e: Engine, r: Reliability, body: seq<byte>, mtu: u16, now: nat)
    requires PrepareSend(e, r, body, MaxFrameBody(mtu), now).1.Ok?
    ensures mtu > 24
    ensures |PrepareSend(e, r, body, MaxFrameBody(mtu), now).1.value| <= mtu <==> |body| <= mtu - 24
    ensures SentFrames(e, r, body, MaxFrameBody(mtu)).Ok?
    ensures |SentFrames(e, r, body, MaxFrameBody(mtu)).value| == 1 <==> |body| <= mtu - 24
  {
    var max := MaxFrameBody(mtu);
    SentDecodes(e, r, body, max, now);
    SentFramesAre(e, r, body, max);
    SplitShape(NextFrame(e, r, body), max, SplitId(e.nextDatagram));
    if |body| > max { GroupCount(Group(NextFrame(e, r, body), max, SplitId(e.nextDatagram))); }
    SendSucceedsExactly(e, r, body, max, now);
    SentSize(e, r, body, max, now);
    hide PrepareSend, PieceCount, SplitInto, SentFrames, Fragments, Classify;
    if |body| > max {
      SplitCost(|body|, max, 13 + r.IndexBytes());
    }
  }

  /** Two fragments' headers alone outweigh what the MTU reserves. */
  lemma SplitCost(length: nat, max: nat, each: nat)
    requires length > max > 0 && each >= 13
    ensures PieceCount(length, max) * each >= 26
  {
    var count := PieceCount(length, max);
    MulMonotone(count, 1, max);
    hide PieceCount;
    assert count >= 2;
    MulMonotone(2, count, each);
  }
}
