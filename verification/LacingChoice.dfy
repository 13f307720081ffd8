/** Choosing a lacing automatically, and what the reader accepts. */
module LacingChoice {
  import opened Wrappers
  import opened Bytes
  import opened EbmlSize
  import opened Lacing
  import opened LacingProofs

  // ---------- the automatic choice ----------

  /** The automatic choice is never larger than any other lacing that the frames allow. */
  lemma BestIsMinimal(b: Block, l: LacingType)
    requires |b.frames| > 1 && (l == Xiph || l == Ebml || (l == Fixed && SameSize(b.frames)))
    ensures Predicted(b.(lacing := Auto)) <= Predicted(b.(lacing := l))
  {
    hide XiphSum, EbmlSum, FrameSum;
  }

  /** Extra bytes that a size can cost in its two differences. */
  function Extra(s: nat): nat {
    if s < 8192 then 0 else if s < 1048576 then 1 else if s < 134217728 then 2 else 3
  }

  function ExtraSum(fs: seq<Frame>, n: nat): nat
    requires n <= |fs|
  {
    if n == 0 then 0 else ExtraSum(fs, n - 1) + Extra(|fs[n - 1]|)
  }

  lemma {:induction false} EbmlAtMost(fs: seq<Frame>, n: nat)
    requires 0 < n <= |fs|
    ensures EbmlSum(fs, n) <= 2 * n + 2 * ExtraSum(fs, n) - Extra(|fs[n - 1]|)
  {
    if n > 1 {
      EbmlAtMost(fs, n - 1);
      OneDifferenceCost(|fs[n - 2]|, |fs[n - 1]|);
    } else {
      assert ExtraSum(fs, 1) == Extra(|fs[0]|);
    }
  }

  lemma OneDifferenceCost(s: nat, t: nat)
    requires s < TWO_32 && t < TWO_32
    ensures CodedSizeLengthSigned(t - s, 0) <= 2 + Extra(s) + Extra(t)
  {
  }

  lemma {:induction false} XiphAtLeast(fs: seq<Frame>, n: nat)
    requires n <= |fs|
    ensures XiphSum(fs, n) >= n + 2 * ExtraSum(fs, n)
    ensures !Sizes16(fs, n) ==> XiphSum(fs, n) >= n + 2 * ExtraSum(fs, n) + 255
  {
    if n > 0 {
      XiphAtLeast(fs, n - 1);
      OneXiphCost(|fs[n - 1]|);
    }
  }

  lemma OneXiphCost(s: nat)
    ensures s / 255 >= 2 * Extra(s)
    ensures s >= 0x1_0000 ==> s / 255 >= 255 + 2 * Extra(s)
  {
  }

  /** With at most 255 frames the automatic choice never truncates a Xiph size. */
  lemma BestXiphFits(fs: seq<Frame>)
    requires 1 < |fs| <= 255 && BestLacing(fs) == Xiph
    ensures Sizes16(fs, |fs| - 1)
  {
    EbmlAtMost(fs, |fs| - 1);
    XiphAtLeast(fs, |fs| - 1);
  }

  /** So the automatic choice can be read back unless EBML lacing wins for a frame that is empty. */
  lemma BestReadableIff(fs: seq<Frame>)
    requires 1 < |fs| <= 255
    ensures LaceOk(BestLacing(fs), fs) <==>
      (SameSize(fs) || XiphSum(fs, |fs| - 1) < EbmlSum(fs, |fs| - 1) || NonEmpty(fs, 0, |fs| - 1))
  {
    hide XiphSum, EbmlSum;
    if BestLacing(fs) == Xiph {
      BestXiphFits(fs);
    }
  }

  /** Which happens: two frames, the first of them empty. */
  lemma BestCanBeUnreadable(fs: seq<Frame>)
    requires fs == [[], [7]]
    ensures BestLacing(fs) == Ebml && !LaceOk(BestLacing(fs), fs)
  {
    assert |fs[0]| == 0 && |fs[1]| == 1;
    assert XiphSum(fs, 0) == 0 && XiphSum(fs, 1) == 1;
  }

  /** The predicted size is wrong for track 0x80 ... */
  lemma Track128SizeDiffers(b: Block)
    requires b == Block(0x80, 0, false, true, false, Auto, [[7]])
    ensures Predicted(b) == 6 && Rendered(b, true) == [0x40, 0x80, 0, 0, 7]
  {
    assert Concat(b.frames) == [7] by {
      OneFrame(b.frames);
    }
  }

  /** ... for a block without frames on a track of two bytes ... */
  lemma EmptySizeDiffers(b: Block, simple: bool)
    requires b.track == 0x81 && b.frames == []
    ensures Predicted(b) == 1 && Rendered(b, simple) == []
  {
  }

  /** ... and for a Xiph size of more than 16 bits. */
  lemma XiphSizeDiffers(b: Block, simple: bool)
    requires b.track < 0x80 && b.lacing == Xiph && |b.frames| == 2 && |b.frames[0]| == 0x1_0000
    ensures Predicted(b) > |Rendered(b, simple)|
  {
    hide Predicted, Rendered, XiphSum, EbmlSum;
    PredictedIsRendered(b, simple);
  }

  // ---------- nothing is lost or invented when reading ----------

  lemma {:induction false} CutConserves(data: seq<Byte>, pos: nat, sizes: seq<int>, fs: seq<Frame>)
    requires pos <= |data| < TWO_31 && Cut(data, pos, sizes) == Some(fs)
    ensures Concat(fs) == data[pos..]
    decreases |sizes|
  {
    if |sizes| > 0 {
      var more := Cut(data, pos + sizes[0], sizes[1..]).value;
      CutConserves(data, pos + sizes[0], sizes[1..], more);
      assert fs == [data[pos..pos + sizes[0]]] + more && fs[1..] == more;
      assert data[pos..] == data[pos..pos + sizes[0]] + data[pos + sizes[0]..];
    } else {
      assert data[pos..] == [];
    }
  }

  /** The frames are consecutive, start after the head and reach exactly to the end of the data. */
  ghost predicate Covers(data: seq<Byte>, b: Block) {
    && |data| > 0 && HeadSize(data) <= |data|
    && (exists pos :: HeadSize(data) <= pos <= |data| && Concat(b.frames) == data[pos..])
    && (b.lacing == NoLacing ==> |b.frames| == 1)
    && (b.lacing != NoLacing ==> HeadSize(data) < |data| && |b.frames| - 1 == data[HeadSize(data)])
  }

  /** Whatever the input is, no byte of it is lost or invented. */
  lemma ParseConserves(data: seq<Byte>, simple: bool, keyframe: bool, discardable: bool, b: Block)
    requires |data| < TWO_31 && Parse(data, simple, keyframe, discardable) == Some(b)
    ensures b.track < 0x4000 && b.lacing != Auto && Covers(data, b)
  {
    hide ReadLace, Cut, Concat;
    var h := HeadSize(data);
    if b.lacing == NoLacing {
      OneFrame(b.frames);
      assert Concat(b.frames) == data[h..];
    } else {
      var x := ReadLace(data, b.lacing, h + 1, |data| - h - 1, data[h]).value;
      LaceMoves(data, b.lacing, h + 1, |data| - h - 1, data[h]);
      CutConserves(data, x.pos, x.sizes, b.frames);
    }
  }

  lemma {:induction false} XiphMoves(data: seq<Byte>, pos: nat, last: int, sizes: seq<int>, k: nat)
    requires pos <= |data|
    ensures var r := ReadXiphSizes(data, pos, last, sizes, k); r.Some? ==> r.value.pos >= pos
    decreases k
  {
    hide U32, ReadXiphSize;
    if k > 0 && ReadXiphSize(data, pos, 0).Some? {
      var (s, p) := ReadXiphSize(data, pos, 0).value;
      XiphMoves(data, p, U32(last - (p - pos) - s), sizes + [s], k - 1);
    }
  }

  lemma {:induction false} EbmlMoves(data: seq<Byte>, pos: nat, last: int, sizes: seq<int>, size: int, k: nat)
    requires pos <= |data|
    ensures var r := ReadEbmlSizes(data, pos, last, sizes, size, k); r.Some? ==> r.value.pos >= pos
    decreases k
  {
    hide U32, I32, ReadCodedSigned, Window;
    if k > 0 && ReadEbmlSizes(data, pos, last, sizes, size, k).Some? {
      var r := ReadCodedSigned(Window(data, pos, last));
      var s := I32(size + r.value);
      EbmlMoves(data, pos + r.used, U32(last - (s + r.used)), sizes + [s], s, k - 1);
    }
  }

  lemma LaceMoves(data: seq<Byte>, l: LacingType, pos: nat, last: int, k: nat)
    requires pos <= |data|
    ensures var r := ReadLace(data, l, pos, last, k); r.Some? ==> r.value.pos >= pos
  {
    hide ReadXiphSizes, ReadEbmlSizes, ReadCoded, Window, U32, I32, Share;
    if l == Xiph {
      XiphMoves(data, pos, last, [], k);
    } else if l == Ebml && ReadEbmlLace(data, pos, last, k).Some? {
      var r := ReadCoded(Window(data, pos, last));
      var s := I32(r.value);
      EbmlMoves(data, pos + r.used, U32(last - (s + r.used)), [s], s, if k == 0 then 0 else k - 1);
    }
  }
}
