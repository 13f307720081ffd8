/** What a Matroska block keeps when it is written and read back. */
module LacingProofs {
  import opened Wrappers
  import opened Bytes
  import opened EbmlSize
  import opened Lacing
  import M = Modular

  // ---------- predicted sizes ----------

  function Truncated(fs: seq<Frame>, i: nat): nat
    requires i < |fs|
  {
    |fs[i]| % 0x1_0000
  }

  /** The sizes that a Xiph header can hold. */
  predicate Sizes16(fs: seq<Frame>, n: nat)
    requires n <= |fs|
  {
    forall i :: 0 <= i < n ==> |fs[i]| < 0x1_0000
  }

  // The header of a lace is as long as the sum says, unless a size was truncated; then it is shorter.
  lemma {:induction false} XiphLength(fs: seq<Frame>, i: nat)
    requires i < |fs|
    ensures |XiphFrom(fs, i)| + XiphSum(fs, i) <= XiphSum(fs, |fs| - 1)
    ensures |XiphFrom(fs, i)| + XiphSum(fs, i) == XiphSum(fs, |fs| - 1) <==>
      forall j :: i <= j < |fs| - 1 ==> |fs[j]| < 0x1_0000
    decreases |fs| - i
  {
    hide XiphOf;
    if i < |fs| - 1 {
      XiphLength(fs, i + 1);
      TruncatedLength(|fs[i]|);
    }
  }

  lemma TruncatedLength(s: nat)
    ensures s % 0x1_0000 / 255 + 1 <= s / 255 + 1
    ensures s % 0x1_0000 / 255 + 1 == s / 255 + 1 <==> s < 0x1_0000
  {
  }

  lemma {:induction false} EbmlLength(fs: seq<Frame>, i: nat)
    requires 0 < i < |fs|
    ensures |EbmlFrom(fs, i)| + EbmlSum(fs, i) == EbmlSum(fs, |fs| - 1)
    decreases |fs| - i
  {
    hide Coded, CodedSizeLengthSigned;
    if i < |fs| - 1 {
      EbmlLength(fs, i + 1);
    }
  }

  lemma {:induction false} ConcatLength(fs: seq<Frame>)
    ensures |Concat(fs)| == FrameSum(fs, |fs|)
  {
    if |fs| > 0 {
      ConcatLength(fs[1..]);
      FrameSumFront(fs, |fs|);
    }
  }

  lemma {:induction false} FrameSumFront(fs: seq<Frame>, n: nat)
    requires 0 < n <= |fs|
    ensures FrameSum(fs, n) == |fs[0]| + FrameSum(fs[1..], n - 1)
  {
    if n > 1 {
      FrameSumFront(fs, n - 1);
    }
  }

  /** Where UpdateSize and RenderData agree. */
  predicate SizesAgree(b: Block) {
    var n := |b.frames|;
    if n == 0 then b.track < 0x80
    else b.track != 0x80 && (Resolved(b.lacing, b.frames) == Xiph ==> Sizes16(b.frames, n - 1))
  }

  lemma HeaderLength(l: LacingType, fs: seq<Frame>)
    requires |fs| > 1
    ensures l == Xiph ==>
      && |LaceHeader(l, fs)| <= 1 + XiphSum(fs, |fs| - 1)
      && (|LaceHeader(l, fs)| == 1 + XiphSum(fs, |fs| - 1) <==> Sizes16(fs, |fs| - 1))
    ensures l == Ebml ==> |LaceHeader(l, fs)| == 1 + EbmlSum(fs, |fs| - 1)
    ensures l == Fixed ==> |LaceHeader(l, fs)| == 1
  {
    hide Coded;
    XiphLength(fs, 0);
    EbmlLength(fs, 1);
  }

  /**
   UpdateSize predicts exactly the bytes that RenderData writes if and only if the track number is
   not 0x80 and no Xiph size has more than 16 bits, or there are no frames and the track number is
   below 0x80; otherwise it predicts too many.
   */
  lemma PredictedIsRendered(b: Block, simple: bool)
    requires b.track < 0x4000 && (|b.frames| > 1 ==> b.lacing != NoLacing)
    ensures Predicted(b) >= |Rendered(b, simple)|
    ensures Predicted(b) == |Rendered(b, simple)| <==> SizesAgree(b)
  {
    hide XiphSum, EbmlSum, XiphFrom, EbmlFrom, Concat, Head, LaceHeader, BestLacing;
    var fs := b.frames;
    ConcatLength(fs);
    if |fs| == 1 {
      OneFrame(fs);
    } else if |fs| > 1 {
      HeaderLength(Resolved(b.lacing, fs), fs);
    }
  }

  lemma OneFrame(fs: seq<Frame>)
    requires |fs| == 1
    ensures Concat(fs) == fs[0] && FrameSum(fs, 1) == |fs[0]| && LaceHeader(NoLacing, fs) == []
  {
    assert fs[1..] == [];
  }

  // ---------- reading back a Xiph lace ----------

  // Bytes at a position of the data.
  ghost predicate At(data: seq<Byte>, pos: nat, bs: seq<Byte>) {
    pos <= |data| && bs <= data[pos..]
  }

  lemma AtConcat(data: seq<Byte>, pos: nat, a: seq<Byte>, b: seq<Byte>)
    requires At(data, pos, a + b)
    ensures At(data, pos, a) && At(data, pos + |a|, b)
  {
    assert data[pos..][..|a + b|] == a + b;
    assert data[pos + |a|..] == data[pos..][|a|..];
    assert (a + b)[|a|..] == b;
    assert (a + b)[..|a|] == a;
  }

  lemma SliceAfter(data: seq<Byte>, pos: nat, head: seq<Byte>, rest: seq<Byte>)
    requires pos <= |data| && data[pos..] == head + rest
    ensures pos + |head| <= |data| && At(data, pos, head) && data[pos + |head|..] == rest
    ensures |head| > 0 ==> data[pos] == head[0]
  {
    assert data[pos..][..|head|] == head;
    assert data[pos + |head|..] == data[pos..][|head|..];
    if |head| > 0 {
      assert data[pos] == data[pos..][0];
    }
  }

  lemma {:induction false} XiphSizeBack(data: seq<Byte>, pos: nat, s: nat, acc: nat)
    requires At(data, pos, XiphOf(s)) && acc + s < TWO_31
    ensures ReadXiphSize(data, pos, acc) == Some((acc + s, pos + |XiphOf(s)|))
    decreases s
  {
    assert data[pos..][0] == XiphOf(s)[0];
    if s >= 255 {
      AtConcat(data, pos, [255], XiphOf(s - 255));
      XiphSizeBack(data, pos + 1, s - 255, acc + 255);
    }
  }

  function TruncatedSum(fs: seq<Frame>, i: nat): nat
    requires i < |fs|
    decreases |fs| - i
  {
    if i == |fs| - 1 then 0 else Truncated(fs, i) + TruncatedSum(fs, i + 1)
  }

  function TruncatedSizes(fs: seq<Frame>, i: nat): (ss: seq<int>)
    requires i < |fs|
    ensures |ss| == |fs| - 1 - i && forall k :: 0 <= k < |ss| ==> ss[k] == Truncated(fs, i + k)
    decreases |fs| - i
  {
    if i == |fs| - 1 then [] else [Truncated(fs, i)] + TruncatedSizes(fs, i + 1)
  }

  lemma {:induction false} XiphSizesBack(data: seq<Byte>, pos: nat, fs: seq<Frame>, i: nat, last: int, sizes: seq<int>)
    requires i < |fs| && At(data, pos, XiphFrom(fs, i))
    requires |XiphFrom(fs, i)| + TruncatedSum(fs, i) <= last < TWO_31
    ensures ReadXiphSizes(data, pos, last, sizes, |fs| - 1 - i) ==
      Some(Lace(sizes + TruncatedSizes(fs, i), pos + |XiphFrom(fs, i)|, last - |XiphFrom(fs, i)| - TruncatedSum(fs, i)))
    decreases |fs| - i
  {
    hide XiphOf, ReadXiphSize;
    if i < |fs| - 1 {
      var s := Truncated(fs, i);
      AtConcat(data, pos, XiphOf(s), XiphFrom(fs, i + 1));
      XiphSizeBack(data, pos, s, 0);
      XiphSizesBack(data, pos + |XiphOf(s)|, fs, i + 1, last - |XiphOf(s)| - s, sizes + [s]);
      assert sizes + [s] + TruncatedSizes(fs, i + 1) == sizes + ([s] + TruncatedSizes(fs, i + 1));
    } else {
      assert sizes + TruncatedSizes(fs, i) == sizes;
    }
  }

  // ---------- reading back an EBML lace ----------

  function SizeSum(fs: seq<Frame>, i: nat): nat
    requires i <= |fs|
    decreases |fs| - i
  {
    if i == |fs| then 0 else |fs[i]| + SizeSum(fs, i + 1)
  }

  function Lengths(fs: seq<Frame>, i: nat, n: nat): (ss: seq<int>)
    requires i <= n <= |fs|
    ensures |ss| == n - i && forall k :: 0 <= k < n - i ==> ss[k] == |fs[i + k]|
  {
    seq(n - i, k requires 0 <= k < n - i => |fs[i + k]|)
  }

  /** The reader takes a size of zero for the end of the data. */
  predicate NonEmpty(fs: seq<Frame>, i: nat, n: nat)
    requires n <= |fs|
  {
    forall j :: i <= j < n ==> |fs[j]| > 0
  }

  lemma SignedBack(d: Int64, rest: seq<Byte>)
    requires -TWO_31 < d < TWO_31
    ensures var c := CodedSizeLengthSigned(d, 0);
      var r := ReadCodedSigned(CodedSigned(d, c) + rest);
      r.used == c && r.value == if d <= -0x800_0000 then d + 0x8_0000_0000 else d
  {
    hide Range, Coded, ReadCoded;
    RangeValues();
    var c := CodedSizeLengthSigned(d, 0);
    ReadBack(AsUnsigned(d + Bias(d)), c, rest);
  }

  // A difference of -2^27 or less is read 2^35 too large, which the conversion to 32 bits removes again.
  lemma DifferenceBack(d: Int64, rest: seq<Byte>, size: nat)
    requires -TWO_31 < d < TWO_31 && size < TWO_31 && 0 <= size + d < TWO_31
    ensures var c := CodedSizeLengthSigned(d, 0);
      var r := ReadCodedSigned(CodedSigned(d, c) + rest);
      r.used == c && I32(size + r.value) == size + d
  {
    hide CodedSigned, ReadCodedSigned, CodedSizeLengthSigned;
    SignedBack(d, rest);
    assert I32(size + d + 0x8_0000_0000) == size + d;
  }

  lemma FirstBack(s: nat, rest: seq<Byte>)
    requires s < TWO_31
    ensures var c := CodedSizeLength(s, 0, true);
      var r := ReadCoded(Coded(s, c) + rest);
      r.used == c <= 5 && r.value == s
  {
    hide Range, Coded, ReadCoded;
    RangeValues();
    ReadBack(s, CodedSizeLength(s, 0, true), rest);
  }

  lemma WindowHolds(data: seq<Byte>, pos: nat, last: int, a: seq<Byte>, b: seq<Byte>)
    requires At(data, pos, a + b) && |a| <= last
    ensures exists rest :: Window(data, pos, last) == a + rest
  {
    AtConcat(data, pos, a, b);
    var w := Window(data, pos, last);
    assert data[pos..][..|a|] == a;
    assert w[..|a|] == a;
    assert w == a + w[|a|..];
  }

  lemma SignedWidth(d: Int64)
    requires -TWO_32 < d < TWO_32
    ensures 1 <= CodedSizeLengthSigned(d, 0) <= 5
    ensures |CodedSigned(d, CodedSizeLengthSigned(d, 0))| == CodedSizeLengthSigned(d, 0)
  {
    hide Coded;
  }

  lemma OneDifference(data: seq<Byte>, pos: nat, fs: seq<Frame>, i: nat, last: int)
    requires 0 < i < |fs| - 1 && At(data, pos, EbmlFrom(fs, i))
    requires |EbmlFrom(fs, i)| <= last && |fs[i]| < TWO_31 && |fs[i - 1]| < TWO_31
    ensures var c := CodedSizeLengthSigned(Difference(fs, i), 0);
      var r := ReadCodedSigned(Window(data, pos, last));
      && r.used == c <= |data| - pos && I32(|fs[i - 1]| + r.value) == |fs[i]|
      && At(data, pos + c, EbmlFrom(fs, i + 1))
      && |EbmlFrom(fs, i)| == c + |EbmlFrom(fs, i + 1)|
  {
    hide ReadCodedSigned, CodedSigned, Window, CodedSizeLengthSigned, I32;
    var d := Difference(fs, i);
    SignedWidth(d);
    var code := CodedSigned(d, CodedSizeLengthSigned(d, 0));
    AtConcat(data, pos, code, EbmlFrom(fs, i + 1));
    WindowHolds(data, pos, last, code, EbmlFrom(fs, i + 1));
    var rest :| Window(data, pos, last) == code + rest;
    DifferenceBack(d, rest, |fs[i - 1]|);
  }

  lemma {:induction false} EbmlSizesBack(data: seq<Byte>, pos: nat, fs: seq<Frame>, i: nat, last: int, sizes: seq<int>)
    requires 0 < i < |fs| && At(data, pos, EbmlFrom(fs, i))
    requires last == |EbmlFrom(fs, i)| + SizeSum(fs, i) && last < TWO_31 && |fs[i - 1]| < TWO_31
    ensures ReadEbmlSizes(data, pos, last, sizes, |fs[i - 1]|, |fs| - 1 - i) ==
      if NonEmpty(fs, i, |fs| - 1)
      then Some(Lace(sizes + Lengths(fs, i, |fs| - 1), pos + |EbmlFrom(fs, i)|, |fs[|fs| - 1]|))
      else None
    decreases |fs| - i
  {
    hide ReadCodedSigned, Window, CodedSizeLengthSigned, I32, EbmlFrom, At, ReadEbmlSizes, Lengths;
    AtIn(data, pos, EbmlFrom(fs, i));
    assert SizeSum(fs, i) == |fs[i]| + SizeSum(fs, i + 1);
    var n := |fs| - 1;
    if i < n {
      OneDifference(data, pos, fs, i, last);
      var c := CodedSizeLengthSigned(Difference(fs, i), 0);
      EbmlStep(data, pos, last, sizes, |fs[i - 1]|, n - i, |fs[i]|, c);
      if |fs[i]| > 0 {
        EbmlSizesBack(data, pos + c, fs, i + 1, last - (|fs[i]| + c), sizes + [|fs[i]|]);
        LengthsFrom(fs, i, n, sizes);
      }
    } else {
      NoMore(fs);
      EbmlNoStep(data, pos, last, sizes, |fs[i - 1]|);
      assert sizes + Lengths(fs, i, n) == sizes;
    }
  }

  lemma LengthsFrom(fs: seq<Frame>, i: nat, n: nat, sizes: seq<int>)
    requires i < n <= |fs|
    ensures sizes + [|fs[i]|] + Lengths(fs, i + 1, n) == sizes + Lengths(fs, i, n)
  {
  }

  lemma AtIn(data: seq<Byte>, pos: nat, bs: seq<Byte>)
    requires At(data, pos, bs)
    ensures pos <= |data|
  {
  }

  lemma EbmlNoStep(data: seq<Byte>, pos: nat, last: int, sizes: seq<int>, size: int)
    requires pos <= |data|
    ensures ReadEbmlSizes(data, pos, last, sizes, size, 0) == Some(Lace(sizes, pos, last))
  {
  }

  // One size s in `used` bytes is taken from the data, unless it is zero.
  lemma EbmlStep(data: seq<Byte>, pos: nat, last: int, sizes: seq<int>, size: int, k: nat, s: nat, used: nat)
    requires k > 0 && pos <= |data|
    requires used <= |data| - pos
    requires s + used <= last < TWO_31
    requires var r := ReadCodedSigned(Window(data, pos, last)); r.used == used && I32(size + r.value) == s
    ensures ReadEbmlSizes(data, pos, last, sizes, size, k) ==
      if s == 0 then None else ReadEbmlSizes(data, pos + used, last - (s + used), sizes + [s], s, k - 1)
  {
    hide ReadCodedSigned, Window, I32;
  }

  lemma NoMore(fs: seq<Frame>)
    requires |fs| > 1
    ensures EbmlFrom(fs, |fs| - 1) == []
  {
  }

  lemma EbmlLaceBack(data: seq<Byte>, pos: nat, fs: seq<Frame>, last: int)
    requires |fs| > 1 && At(data, pos, FirstSize(fs) + EbmlFrom(fs, 1))
    requires last == |FirstSize(fs)| + |EbmlFrom(fs, 1)| + SizeSum(fs, 0) && last < TWO_31
    ensures ReadEbmlLace(data, pos, last, |fs| - 1) ==
      if NonEmpty(fs, 0, |fs| - 1)
      then Some(Lace(Lengths(fs, 0, |fs|), pos + |FirstSize(fs)| + |EbmlFrom(fs, 1)|, |fs[|fs| - 1]|))
      else None
  {
    hide ReadCoded, Coded, EbmlFrom, Window, ReadEbmlSizes, CodedSizeLength;
    var first := FirstSize(fs);
    AtConcat(data, pos, first, EbmlFrom(fs, 1));
    WindowHolds(data, pos, last, first, EbmlFrom(fs, 1));
    var rest :| Window(data, pos, last) == first + rest;
    assert SizeSum(fs, 0) == |fs[0]| + SizeSum(fs, 1);
    FirstBack(|fs[0]|, rest);
    if |fs[0]| > 0 {
      EbmlSizesBack(data, pos + |first|, fs, 1, last - (|fs[0]| + |first|), [|fs[0]|]);
      LastSize(fs);
      assert [|fs[0]|] + Lengths(fs, 1, |fs| - 1) + [|fs[|fs| - 1]|] == Lengths(fs, 0, |fs|);
    }
  }

  lemma {:induction false} LastSize(fs: seq<Frame>)
    requires |fs| > 0 && SizeSum(fs, 0) < TWO_31
    ensures |fs[|fs| - 1]| < TWO_31
  {
    SumHas(fs, 0, |fs| - 1);
  }

  lemma {:induction false} SumHas(fs: seq<Frame>, i: nat, k: nat)
    requires i <= k < |fs|
    ensures |fs[k]| <= SizeSum(fs, i)
    decreases |fs| - i
  {
    if i < k {
      SumHas(fs, i + 1, k);
    }
  }

  // ---------- cutting the frames ----------

  lemma {:induction false} SumsAgree(fs: seq<Frame>, i: nat)
    requires i <= |fs|
    ensures SizeSum(fs, i) + FrameSum(fs, i) == FrameSum(fs, |fs|)
    decreases |fs| - i
  {
    if i < |fs| {
      SumsAgree(fs, i + 1);
    }
  }

  lemma ConcatIsSum(fs: seq<Frame>)
    ensures |Concat(fs)| == SizeSum(fs, 0)
  {
    ConcatLength(fs);
    SumsAgree(fs, 0);
  }

  lemma {:induction false} CutBack(data: seq<Byte>, pos: nat, fs: seq<Frame>)
    requires pos <= |data| < TWO_31 && data[pos..] == Concat(fs)
    ensures Cut(data, pos, Lengths(fs, 0, |fs|)) == Some(fs)
    decreases |fs|
  {
    if |fs| > 0 {
      var rest := fs[1..];
      assert data[pos..pos + |fs[0]|] == data[pos..][..|fs[0]|] == fs[0];
      assert data[pos + |fs[0]|..] == data[pos..][|fs[0]|..] == Concat(rest);
      CutBack(data, pos + |fs[0]|, rest);
      assert Lengths(fs, 0, |fs|)[1..] == Lengths(rest, 0, |rest|);
      assert [fs[0]] + rest == fs;
    }
  }

  // If the frames come out right, so did their sizes.
  lemma CutNeedsLengths(data: seq<Byte>, pos: nat, sizes: seq<int>, fs: seq<Frame>)
    requires pos <= |data| < TWO_31 && Cut(data, pos, sizes) == Some(fs)
    ensures sizes == Lengths(fs, 0, |fs|)
  {
  }

  // ---------- the three laces ----------

  lemma {:induction false} TruncatedSums(fs: seq<Frame>, i: nat)
    requires i < |fs|
    ensures TruncatedSum(fs, i) + |fs[|fs| - 1]| <= SizeSum(fs, i)
    ensures (forall j :: i <= j < |fs| - 1 ==> |fs[j]| < 0x1_0000) ==>
      TruncatedSum(fs, i) + |fs[|fs| - 1]| == SizeSum(fs, i)
    decreases |fs| - i
  {
    if i < |fs| - 1 {
      TruncatedSums(fs, i + 1);
    } else {
      assert SizeSum(fs, i) == |fs[i]| + SizeSum(fs, i + 1);
    }
  }

  lemma XiphLace(data: seq<Byte>, pos: nat, last: int, k: nat, l: Lace)
    requires pos <= |data| && ReadXiphSizes(data, pos, last, [], k) == Some(l)
    ensures ReadLace(data, Xiph, pos, last, k) == Some(l.(sizes := l.sizes + [I32(l.last)]))
  {
    hide ReadXiphSizes, I32;
  }

  /** The sizes that a Xiph reader finds. */
  function XiphSizes(fs: seq<Frame>): seq<int>
    requires |fs| > 0
  {
    TruncatedSizes(fs, 0) + [I32(SizeSum(fs, 0) - TruncatedSum(fs, 0))]
  }

  lemma XiphRead(data: seq<Byte>, pos: nat, fs: seq<Frame>, last: int)
    requires |fs| > 1 && At(data, pos, XiphFrom(fs, 0)) && last == |XiphFrom(fs, 0)| + SizeSum(fs, 0) < TWO_31
    ensures var r := ReadLace(data, Xiph, pos, last, |fs| - 1);
      r.Some? && r.value.sizes == XiphSizes(fs) && r.value.pos == pos + |XiphFrom(fs, 0)|
  {
    hide XiphFrom, Concat, ReadXiphSizes, TruncatedSum, TruncatedSizes, SizeSum, I32, ReadLace, At;
    TruncatedSums(fs, 0);
    XiphSizesBack(data, pos, fs, 0, last, []);
    assert [] + TruncatedSizes(fs, 0) == TruncatedSizes(fs, 0);
    XiphLace(data, pos, last, |fs| - 1,
      Lace(TruncatedSizes(fs, 0), pos + |XiphFrom(fs, 0)|, SizeSum(fs, 0) - TruncatedSum(fs, 0)));
  }

  lemma XiphBack(data: seq<Byte>, pos: nat, fs: seq<Frame>)
    requires |fs| > 1 && pos <= |data| < TWO_31 && data[pos..] == XiphFrom(fs, 0) + Concat(fs)
    ensures var r := ReadLace(data, Xiph, pos, |data| - pos, |fs| - 1);
      r.Some? && (Cut(data, r.value.pos, r.value.sizes) == Some(fs) <==> Sizes16(fs, |fs| - 1))
  {
    hide *;
    ConcatIsSum(fs);
    SliceAfter(data, pos, XiphFrom(fs, 0), Concat(fs));
    XiphRead(data, pos, fs, |data| - pos);
    XiphCut(data, pos + |XiphFrom(fs, 0)|, fs);
  }

  lemma XiphCut(data: seq<Byte>, at: nat, fs: seq<Frame>)
    requires |fs| > 0 && at <= |data| < TWO_31 && data[at..] == Concat(fs)
    ensures Cut(data, at, XiphSizes(fs)) == Some(fs) <==> Sizes16(fs, |fs| - 1)
  {
    hide Concat, Cut, TruncatedSum, TruncatedSizes, SizeSum, Sizes16, I32, Truncated, Lengths;
    ConcatIsSum(fs);
    if Sizes16(fs, |fs| - 1) {
      TruncatedAre(fs);
      CutBack(data, at, fs);
    }
    if Cut(data, at, XiphSizes(fs)) == Some(fs) {
      CutNeedsLengths(data, at, XiphSizes(fs), fs);
      LengthsFit(fs, XiphSizes(fs));
    }
  }

  lemma NotTruncated(fs: seq<Frame>, i: nat)
    requires i < |fs|
    ensures Truncated(fs, i) == |fs[i]| <==> |fs[i]| < 0x1_0000
  {
  }

  lemma TruncatedAre(fs: seq<Frame>)
    requires |fs| > 0 && Sizes16(fs, |fs| - 1) && SizeSum(fs, 0) < TWO_31
    ensures XiphSizes(fs) == Lengths(fs, 0, |fs|)
  {
    hide Truncated, TruncatedSizes, SizeSum, TruncatedSum, I32, Lengths;
    var last := I32(SizeSum(fs, 0) - TruncatedSum(fs, 0));
    LastTruncated(fs);
    var a, b := TruncatedSizes(fs, 0) + [last], Lengths(fs, 0, |fs|);
    forall i | 0 <= i < |fs|
      ensures a[i] == b[i]
    {
      if i < |fs| - 1 {
        NotTruncated(fs, i);
        assert a[i] == TruncatedSizes(fs, 0)[i];
      }
    }
  }

  lemma LastTruncated(fs: seq<Frame>)
    requires |fs| > 0 && Sizes16(fs, |fs| - 1) && SizeSum(fs, 0) < TWO_31
    ensures I32(SizeSum(fs, 0) - TruncatedSum(fs, 0)) == |fs[|fs| - 1]|
  {
    hide Truncated, SizeSum, TruncatedSum, I32;
    TruncatedSums(fs, 0);
    LastSize(fs);
  }

  lemma LengthsFit(fs: seq<Frame>, sizes: seq<int>)
    requires |fs| > 0 && sizes == Lengths(fs, 0, |fs|) && TruncatedSizes(fs, 0) <= sizes
    ensures Sizes16(fs, |fs| - 1)
  {
    hide Truncated, TruncatedSizes;
    forall i | 0 <= i < |fs| - 1
      ensures |fs[i]| < 0x1_0000
    {
      assert sizes[i] == TruncatedSizes(fs, 0)[i];
      NotTruncated(fs, i);
    }
  }

  lemma EbmlLaceIs(data: seq<Byte>, pos: nat, last: int, k: nat)
    requires pos <= |data|
    ensures ReadLace(data, Ebml, pos, last, k) == ReadEbmlLace(data, pos, last, k)
  {
    hide ReadEbmlLace;
  }

  lemma EbmlBack(data: seq<Byte>, pos: nat, fs: seq<Frame>)
    requires |fs| > 1 && pos <= |data| < TWO_31 && data[pos..] == FirstSize(fs) + EbmlFrom(fs, 1) + Concat(fs)
    ensures var r := ReadLace(data, Ebml, pos, |data| - pos, |fs| - 1);
      r.Some? && Cut(data, r.value.pos, r.value.sizes) == Some(fs) <==> NonEmpty(fs, 0, |fs| - 1)
  {
    hide *;
    EbmlBackFrom(data, pos, fs, FirstSize(fs) + EbmlFrom(fs, 1));
  }

  lemma EbmlBackFrom(data: seq<Byte>, pos: nat, fs: seq<Frame>, head: seq<Byte>)
    requires |fs| > 1 && head == FirstSize(fs) + EbmlFrom(fs, 1)
    requires pos <= |data| < TWO_31 && data[pos..] == head + Concat(fs)
    ensures var r := ReadLace(data, Ebml, pos, |data| - pos, |fs| - 1);
      r.Some? && Cut(data, r.value.pos, r.value.sizes) == Some(fs) <==> NonEmpty(fs, 0, |fs| - 1)
  {
    hide *;
    var last, at := |data| - pos, pos + |head|;
    SliceAfter(data, pos, head, Concat(fs));
    ConcatIsSum(fs);
    assert |data[pos..]| == last;
    EbmlLaceIs(data, pos, last, |fs| - 1);
    EbmlRead(data, pos, fs, last, head);
    CutBack(data, at, fs);
  }

  lemma EbmlRead(data: seq<Byte>, pos: nat, fs: seq<Frame>, last: int, head: seq<Byte>)
    requires |fs| > 1 && head == FirstSize(fs) + EbmlFrom(fs, 1) && At(data, pos, head) && pos <= |data|
    requires last == |head| + SizeSum(fs, 0) && last < TWO_31
    ensures var r := ReadEbmlLace(data, pos, last, |fs| - 1);
      && (NonEmpty(fs, 0, |fs| - 1) <==> r.Some?)
      && (r.Some? ==> r.value.sizes == Lengths(fs, 0, |fs|) && r.value.pos == pos + |head|)
  {
    hide ReadEbmlLace, EbmlFrom, FirstSize, At, NonEmpty, Lengths;
    EbmlLaceBack(data, pos, fs, last);
  }

  lemma {:induction false} EqualSum(fs: seq<Frame>, i: nat)
    requires i <= |fs| && |fs| > 0 && SameSize(fs)
    ensures SizeSum(fs, i) == (|fs| - i) * |fs[0]|
    decreases |fs| - i
  {
    if i < |fs| {
      EqualSum(fs, i + 1);
      assert (|fs| - i) * |fs[0]| == |fs[0]| + (|fs| - i - 1) * |fs[0]|;
    }
  }

  lemma EqualShare(fs: seq<Frame>)
    requires |fs| > 0 && SameSize(fs) && SizeSum(fs, 0) < TWO_31
    ensures Share(SizeSum(fs, 0), |fs|) == |fs[0]|
  {
    EqualSum(fs, 0);
    LastSize(fs);
    M.DivModUnique(SizeSum(fs, 0), |fs|, |fs[0]|, 0);
  }

  lemma FixedBack(data: seq<Byte>, pos: nat, fs: seq<Frame>)
    requires |fs| > 1 && pos <= |data| < TWO_31 && data[pos..] == Concat(fs)
    ensures var r := ReadLace(data, Fixed, pos, |data| - pos, |fs| - 1);
      r.Some? && (Cut(data, r.value.pos, r.value.sizes) == Some(fs) <==> SameSize(fs))
  {
    hide Concat, Cut, SizeSum, Share;
    ConcatIsSum(fs);
    var share := Share(|data| - pos, |fs|);
    var sizes := seq(|fs|, _ => share);
    if SameSize(fs) {
      EqualShare(fs);
      assert sizes == Lengths(fs, 0, |fs|);
      CutBack(data, pos, fs);
    }
    if Cut(data, pos, sizes) == Some(fs) {
      CutNeedsLengths(data, pos, sizes, fs);
    }
  }

  // ---------- the whole block ----------

  /** The lacings that can represent the frames. */
  predicate LaceOk(l: LacingType, fs: seq<Frame>) {
    |fs| > 0 &&
    match l
    case NoLacing => |fs| == 1
    case Xiph => Sizes16(fs, |fs| - 1)
    case Ebml => NonEmpty(fs, 0, |fs| - 1)
    case Fixed => SameSize(fs)
    case Auto => false
  }

  /** The block that a reader should end up with. */
  function Restored(b: Block, simple: bool, keyframe: bool, discardable: bool): Block {
    b.(lacing := Resolved(b.lacing, b.frames),
       keyframe := if simple then b.keyframe else keyframe,
       discardable := if simple then b.discardable else discardable)
  }

  lemma FlagsBack(b: Block, simple: bool)
    requires b.lacing != Auto
    ensures var f := Flags(b, simple);
      && LacingOf(f) == b.lacing && (f / 8 % 2 == 1 <==> b.invisible)
      && (simple ==> (f >= 0x80 <==> b.keyframe) && (f % 2 == 1 <==> b.discardable))
  {
    FlagDigits(if b.invisible then 1 else 0, LacingBits(b.lacing), if simple && b.keyframe then 1 else 0,
               if simple && b.discardable then 1 else 0);
  }

  lemma FlagDigits(i: int, l: int, k: int, d: int)
    requires 0 <= i <= 1 && 0 <= k <= 1 && 0 <= d <= 1 && (l == 0 || l == 2 || l == 4 || l == 6)
    ensures var f := 8 * i + l + 0x80 * k + d;
      f / 2 % 4 == l / 2 && f / 8 % 2 == i && (f >= 0x80 <==> k == 1) && f % 2 == d
  {
  }

  lemma TimecodeBack(t: Int16)
    ensures var high: int := TimecodeBytes(t)[0];
      var u := high * 256 + TimecodeBytes(t)[1];
      t == if u >= 0x8000 then u - 0x1_0000 else u
  {
  }

  lemma TimecodeWidth(t: Int16)
    ensures |TimecodeBytes(t)| == 2
  {
  }

  lemma HeadBack(b: Block, simple: bool, rest: seq<Byte>)
    requires b.track < 0x4000 && b.track != 0x80
    ensures var data := Head(b, simple) + rest;
      var h := HeadSize(data);
      && data[0] >= 0x40 && h == |Head(b, simple)|
      && data[h - 3..h - 1] == TimecodeBytes(b.timecode) && data[h - 1] == Flags(b, simple)
      && data[h..] == rest
      && b.track == (var first: int := data[0]; if h == 4 then first - 0x80 else (first - 0x40) * 256 + data[1])
  {
    hide Flags, TimecodeBytes;
    var data, h := Head(b, simple) + rest, |Head(b, simple)|;
    var full := TrackBytes(b.track) + TimecodeBytes(b.timecode) + [Flags(b, simple)];
    TimecodeWidth(b.timecode);
    assert full[..h] == full;
    assert data == full + rest;
    assert data[h - 3..h - 1] == full[h - 3..h - 1] == TimecodeBytes(b.timecode);
    assert data[h..] == rest;
  }

  lemma HeaderStarts(l: LacingType, fs: seq<Frame>)
    requires |fs| > 1 && l != Auto && l != NoLacing
    ensures |LaceHeader(l, fs)| > 0
  {
  }

  // After the head, the lace is read back exactly if it could represent the frames.
  lemma BodyBack(data: seq<Byte>, h: nat, l: LacingType, fs: seq<Frame>)
    requires 1 < |fs| <= 255 && h < |data| < TWO_31 && l != Auto && l != NoLacing
    requires data[h..] == LaceHeader(l, fs) + Concat(fs)
    ensures data[h] == |fs| - 1
    ensures var r := ReadLace(data, l, h + 1, |data| - h - 1, |fs| - 1);
      (r.Some? && Cut(data, r.value.pos, r.value.sizes) == Some(fs)) <==> LaceOk(l, fs)
  {
    hide XiphFrom, EbmlFrom, FirstSize, Concat, Cut, ReadLace, LaceHeader, Sizes16, NonEmpty, SameSize;
    TailAfterCount(data, h, l, fs);
    match l
    case Xiph => XiphBack(data, h + 1, fs);
    case Ebml => EbmlBack(data, h + 1, fs);
    case Fixed => FixedBack(data, h + 1, fs);
  }

  function LaceTail(l: LacingType, fs: seq<Frame>): seq<Byte>
    requires |fs| > 1
  {
    match l
    case Xiph => XiphFrom(fs, 0)
    case Ebml => FirstSize(fs) + EbmlFrom(fs, 1)
    case _ => []
  }

  lemma TailAfterCount(data: seq<Byte>, h: nat, l: LacingType, fs: seq<Frame>)
    requires 1 < |fs| <= 255 && h <= |data| && l != Auto && l != NoLacing
    requires data[h..] == LaceHeader(l, fs) + Concat(fs)
    ensures h < |data| && data[h] == |fs| - 1 && data[h + 1..] == LaceTail(l, fs) + Concat(fs)
  {
    hide Concat, LaceTail, LaceHeader;
    CountAndTail(l, fs);
    assert data[h..] == [|fs| - 1] + (LaceTail(l, fs) + Concat(fs));
    SliceAfter(data, h, [|fs| - 1], LaceTail(l, fs) + Concat(fs));
  }

  lemma CountAndTail(l: LacingType, fs: seq<Frame>)
    requires 1 < |fs| <= 255 && l != Auto && l != NoLacing
    ensures LaceHeader(l, fs) == [|fs| - 1] + LaceTail(l, fs)
  {
    hide XiphFrom, EbmlFrom, FirstSize;
  }

  // The frames behind the head are found exactly if the lace could represent them.
  lemma FramesBack(data: seq<Byte>, h: nat, l: LacingType, fs: seq<Frame>)
    requires 1 <= |fs| <= 255 && h <= |data| < TWO_31 && l != Auto && (l == NoLacing <==> |fs| == 1)
    requires data[h..] == LaceHeader(l, fs) + Concat(fs)
    ensures ParseFrames(data, l, h) == Some(fs) <==> LaceOk(l, fs)
  {
    hide LaceHeader, Concat, Cut, ReadLace;
    if l == NoLacing {
      OneFrame(fs);
      assert data[h..] == fs[0];
      assert fs == [fs[0]];
    } else {
      HeaderStarts(l, fs);
      BodyBack(data, h, l, fs);
    }
  }

  /**
   A block of 1 to 255 frames on another track than 0x80 survives writing and reading, in all its
   fields, exactly if its lacing can represent the frame sizes.
   */
  lemma OtherTracksIff(b: Block, simple: bool, keyframe: bool, discardable: bool)
    requires b.track < 0x4000 && b.track != 0x80 && 1 <= |b.frames| <= 255
    requires |Rendered(b, simple)| < TWO_31
    ensures Parse(Rendered(b, simple), simple, keyframe, discardable) == Some(Restored(b, simple, keyframe, discardable))
      <==> LaceOk(Resolved(b.lacing, b.frames), b.frames)
  {
    hide Head, LaceHeader, Concat, ParseFrames, LacingOf, Flags, TimecodeBytes, BestLacing;
    var r := b.(lacing := Resolved(b.lacing, b.frames));
    var rest := LaceHeader(r.lacing, b.frames) + Concat(b.frames);
    var data := Head(r, simple) + rest;
    assert data == Rendered(b, simple);
    HeadBack(r, simple, rest);
    FlagsBack(r, simple);
    var h := HeadSize(data);
    assert data[h - 3] == data[h - 3..h - 1][0] && data[h - 2] == data[h - 3..h - 1][1];
    TimecodeBack(b.timecode);
    FramesBack(data, h, r.lacing, b.frames);
  }
}
