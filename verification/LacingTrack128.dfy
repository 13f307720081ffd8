/**
 Blocks of track 0x80.  The writer leaves out their flags byte, so the reader takes the count of
 frames for the flags, the first byte behind it for the count, and reads everything else one byte late.
 */
module LacingTrack128 {
  import opened Wrappers
  import opened Bytes
  import opened EbmlSize
  import opened Lacing
  import opened LacingProofs
  import opened LacingChoice
  import opened LacingShift

  /** Written and read back, in all fields. */
  predicate Survives(b: Block, simple: bool, keyframe: bool, discardable: bool)
    requires b.track < 0x4000 && |Rendered(b, simple)| < TWO_31
  {
    Parse(Rendered(b, simple), simple, keyframe, discardable) == Some(Restored(b, simple, keyframe, discardable))
  }

  lemma Head128(b: Block, simple: bool)
    requires b.track == 0x80
    ensures Head(b, simple) == [0x40, 0x80] + TimecodeBytes(b.timecode)
  {
    hide Flags;
    TimecodeWidth(b.timecode);
    var full := TrackBytes(0x80) + TimecodeBytes(b.timecode) + [Flags(b, simple)];
    assert TrackBytes(0x80) == [0x40, 0x80];
    assert full[..4] == [0x40, 0x80] + TimecodeBytes(b.timecode);
  }

  /** A single frame is lost. */
  lemma OneFrameIsLost(b: Block, simple: bool, keyframe: bool, discardable: bool)
    requires b.track == 0x80 && |b.frames| == 1 && |Rendered(b, simple)| < TWO_31
    ensures !Survives(b, simple, keyframe, discardable)
  {
    hide Flags, ReadLace, Cut, Concat, LacingOf;
    var data := Rendered(b, simple);
    OneFrame(b.frames);
    assert |data| == 4 + |b.frames[0]|;
    assert data[0] == 0x40;
    assert HeadSize(data) == 5;
    var r := Parse(data, simple, keyframe, discardable);
    assert r.Some? && r.value.lacing == NoLacing ==> |r.value.frames[0]| < |b.frames[0]|;
  }

  predicate Misread(data: seq<Byte>, l: LacingType, fs: seq<Frame>)
    requires |fs| > 1 && |data| < TWO_31
  {
    |data| > 5 &&
    var r := ReadLace(data, l, 6, |data| - 6, |fs| - 1);
    r.Some? && Cut(data, r.value.pos, r.value.sizes) == Some(fs) && r.value.pos == 4 + |LaceHeader(l, fs)|
  }

  /** The byte f, taken for the flags, says what they should say. */
  predicate ActsAsFlags(f: Byte, b: Block, simple: bool) {
    && LacingOf(f) == Resolved(b.lacing, b.frames) && (f / 8 % 2 == 1 <==> b.invisible)
    && (simple ==> (f >= 0x80 <==> b.keyframe) && (f % 2 == 1 <==> b.discardable))
  }

  // What reading a lace of this track gives, and where its frames must start.
  lemma LaceMisread(b: Block, simple: bool, keyframe: bool, discardable: bool)
    requires b.track == 0x80 && 1 < |b.frames| <= 255 && |Rendered(b, simple)| < TWO_31
    requires Survives(b, simple, keyframe, discardable)
    ensures Resolved(b.lacing, b.frames) != NoLacing && Resolved(b.lacing, b.frames) != Auto
    ensures Misread(Rendered(b, simple), Resolved(b.lacing, b.frames), b.frames)
    ensures Rendered(b, simple)[5] == |b.frames| - 1 && ActsAsFlags(|b.frames| - 1, b, simple)
  {
    hide ReadLace, Cut, Concat, LaceHeader, TimecodeBytes, Flags, LacingOf, Head, BestLacing;
    var data, l := Rendered(b, simple), Resolved(b.lacing, b.frames);
    var r0 := b.(lacing := l);
    Head128(r0, simple);
    TimecodeWidth(b.timecode);
    HeaderStarts(l, b.frames);
    CountAndTail(l, b.frames);
    assert data[0] == 0x40 && HeadSize(data) == 5 && data[4] == |b.frames| - 1;
    var lace := ReadLace(data, l, 6, |data| - 6, data[5]);
    LaceCount(data, l, |data| - 6, data[5], b.frames);
    CutConserves(data, lace.value.pos, lace.value.sizes, b.frames);
  }

  lemma LaceCount(data: seq<Byte>, l: LacingType, last: int, k: nat, fs: seq<Frame>)
    requires 6 <= |data| < TWO_31
    ensures var r := ReadLace(data, l, 6, last, k);
      r.Some? && Cut(data, r.value.pos, r.value.sizes) == Some(fs) ==> |fs| == k + 1
  {
    hide ReadXiphSizes, ReadEbmlLace, Share;
  }

  /** A fixed lace is lost. */
  lemma FixedIsLost(b: Block, simple: bool, keyframe: bool, discardable: bool)
    requires b.track == 0x80 && 1 < |b.frames| <= 255 && |Rendered(b, simple)| < TWO_31
    requires Resolved(b.lacing, b.frames) == Fixed
    ensures !Survives(b, simple, keyframe, discardable)
  {
    hide Survives, Rendered, Resolved, Cut;
    if Survives(b, simple, keyframe, discardable) {
      LaceMisread(b, simple, keyframe, discardable);
    }
  }

  lemma I32Below(x: int)
    requires x >= -TWO_31
    ensures I32(x) <= x
  {
  }

  // A size takes at least one byte for every 255 of it.
  lemma {:induction false} SizeNeedsBytes(data: seq<Byte>, pos: nat, acc: int)
    requires pos <= |data| && acc >= -TWO_31
    ensures var r := ReadXiphSize(data, pos, acc); r.Some? ==> r.value.0 < acc + 255 * (r.value.1 - pos)
    decreases |data| - pos
  {
    hide I32;
    if pos < |data| {
      I32Below(acc + data[pos]);
      if data[pos] == 255 {
        SizeNeedsBytes(data, pos + 1, I32(acc + 255));
      }
    }
  }

  /** The bytes that the sizes need, counted from the i-th one. */
  function Needed(sizes: seq<int>): int {
    if |sizes| == 0 then 0 else Needed(sizes[..|sizes| - 1]) + sizes[|sizes| - 1] / 255 + 1
  }

  lemma {:induction false} SizesNeedBytes(data: seq<Byte>, pos: nat, last: int, sizes: seq<int>, k: nat)
    requires pos <= |data|
    ensures var r := ReadXiphSizes(data, pos, last, sizes, k);
      r.Some? ==> Needed(r.value.sizes) - Needed(sizes) <= r.value.pos - pos
    decreases k
  {
    hide U32, ReadXiphSize;
    if k > 0 && ReadXiphSize(data, pos, 0).Some? {
      var (s, p) := ReadXiphSize(data, pos, 0).value;
      SizeNeedsBytes(data, pos, 0);
      OneMore(sizes, s);
      SizesNeedBytes(data, p, U32(last - (p - pos) - s), sizes + [s], k - 1);
    }
  }

  lemma OneMore(sizes: seq<int>, s: int)
    ensures Needed(sizes + [s]) == Needed(sizes) + s / 255 + 1
  {
    assert (sizes + [s])[..|sizes|] == sizes;
  }

  lemma {:induction false} NeededIsSum(fs: seq<Frame>, n: nat)
    requires n <= |fs|
    ensures Needed(Lengths(fs, 0, n)) == XiphSum(fs, n)
  {
    if n > 0 {
      NeededIsSum(fs, n - 1);
      assert Lengths(fs, 0, n)[..n - 1] == Lengths(fs, 0, n - 1);
    }
  }

  /** A Xiph lace is lost: its sizes cannot be read from one byte less. */
  lemma XiphIsLost(b: Block, simple: bool, keyframe: bool, discardable: bool)
    requires b.track == 0x80 && 1 < |b.frames| <= 255 && |Rendered(b, simple)| < TWO_31
    requires Resolved(b.lacing, b.frames) == Xiph
    ensures !Survives(b, simple, keyframe, discardable)
  {
    hide Survives, Rendered, Resolved, Cut, ReadXiphSizes, XiphFrom, XiphSum, Needed, Lengths, I32;
    if Survives(b, simple, keyframe, discardable) {
      var data, n := Rendered(b, simple), |b.frames|;
      LaceMisread(b, simple, keyframe, discardable);
      var lace := ReadLace(data, Xiph, 6, |data| - 6, n - 1).value;
      var found := ReadXiphSizes(data, 6, |data| - 6, [], n - 1).value;
      CutNeedsLengths(data, lace.pos, lace.sizes, b.frames);
      FirstLengths(b.frames, found.sizes, I32(found.last));
      SizesNeedBytes(data, 6, |data| - 6, [], n - 1);
      NeededNothing();
      NeededIsSum(b.frames, n - 1);
      XiphLength(b.frames, 0);
      XiphNothing(b.frames);
    }
  }

  lemma FirstLengths(fs: seq<Frame>, sizes: seq<int>, last: int)
    requires |fs| > 0 && |sizes| == |fs| - 1 && sizes + [last] == Lengths(fs, 0, |fs|)
    ensures sizes == Lengths(fs, 0, |fs| - 1)
  {
    assert forall k :: 0 <= k < |sizes| ==> sizes[k] == (sizes + [last])[k];
  }

  lemma NeededNothing()
    ensures Needed([]) == 0
  {
  }

  lemma XiphNothing(fs: seq<Frame>)
    ensures XiphSum(fs, 0) == 0
  {
  }

  // ---------- an EBML lace that survives ----------

  /** 192 frames, all but the last of 63 bytes, the first of them starting with a zero byte. */
  predicate Lucky(fs: seq<Frame>) {
    |fs| == 192 && (forall i :: 0 <= i < 191 ==> |fs[i]| == 63) && fs[0][0] == 0
  }

  lemma LuckyFrames(fs: seq<Frame>)
    requires fs == seq(192, _ => seq(63, _ => 0))
    ensures Lucky(fs)
  {
  }

  lemma CodeIs()
    ensures Coded(63, 1) == [CODE_63] && CodedSigned(0, 1) == [CODE_63]
  {
    assert ShiftBytes(63, 0) == 63 && LowBytes(63, 0) == [];
  }

  lemma {:induction false} SameDifferences(fs: seq<Frame>, i: nat)
    requires Lucky(fs) && 0 < i < 192
    ensures EbmlFrom(fs, i) == seq(191 - i, _ => CODE_63)
    decreases 192 - i
  {
    hide Coded, CodedSigned;
    CodeIs();
    if i < 191 {
      SameDifferences(fs, i + 1);
      assert Difference(fs, i) == 0;
    }
  }

  lemma ReadsCode(data: seq<Byte>, pos: nat, last: int)
    requires pos < |data| && data[pos] == CODE_63 && last > 0
    ensures var r := ReadCoded(Window(data, pos, last)); r.value == 63 && r.used == 1
    ensures var r := ReadCodedSigned(Window(data, pos, last)); r.value == 0 && r.used == 1
  {
    hide Coded, ReadCoded;
    var w := Window(data, pos, last);
    CodeIs();
    assert w == [CODE_63] + w[1..];
    RangeValues();
    ReadBack(63, 1, w[1..]);
  }

  lemma ReadsNothing(data: seq<Byte>, pos: nat, last: int)
    requires pos < |data| && data[pos] == 0
    ensures var r := ReadCodedSigned(Window(data, pos, last)); r.value == 0 && r.used == 0
  {
  }

  // The last difference is looked for in the first frame, where the zero byte stands for no code at all.
  lemma {:induction false} ReadsRun(data: seq<Byte>, pos: nat, last: int, sizes: seq<int>, k: nat)
    requires k > 0 && pos + k - 1 < |data| && 64 * k - 1 <= last < TWO_31
    requires (forall i :: pos <= i < pos + k - 1 ==> data[i] == CODE_63) && data[pos + k - 1] == 0
    ensures ReadEbmlSizes(data, pos, last, sizes, 63, k) ==
      Some(Lace(sizes + seq(k, _ => 63), pos + k - 1, last - 64 * (k - 1) - 63))
    decreases k
  {
    hide ReadCodedSigned, Window, I32, U32;
    if k == 1 {
      ReadsNothing(data, pos, last);
      assert sizes + [63] == sizes + seq(1, _ => 63);
    } else {
      ReadsCode(data, pos, last);
      ReadsRun(data, pos + 1, last - 64, sizes + [63], k - 1);
      assert sizes + [63] + seq(k - 1, _ => 63) == sizes + seq(k, _ => 63);
    }
  }

  lemma LuckyLace(data: seq<Byte>, fs: seq<Frame>)
    requires Lucky(fs) && 196 < |data| < TWO_31 && data[196..] == Concat(fs)
    requires forall i :: 4 <= i < 196 ==> data[i] == CODE_63
    ensures var r := ReadLace(data, Ebml, 6, |data| - 6, 191);
      r.Some? && Cut(data, r.value.pos, r.value.sizes) == Some(fs)
  {
    hide ReadCoded, Window, ReadEbmlSizes, Cut, Concat, I32, U32, SizeSum, Lengths;
    ConcatIsSum(fs);
    LuckySum(fs, 0);
    FrontByte(data, fs);
    var last := |data| - 6;
    ReadsCode(data, 6, last);
    ReadsRun(data, 7, last - 64, [63], 190);
    LuckySizes(fs);
    CutBack(data, 196, fs);
  }

  lemma FrontByte(data: seq<Byte>, fs: seq<Frame>)
    requires Lucky(fs) && 196 < |data| && data[196..] == Concat(fs)
    ensures data[196] == 0
  {
    assert data[196] == data[196..][0] == fs[0][0];
  }

  lemma {:induction false} LuckySum(fs: seq<Frame>, i: nat)
    requires Lucky(fs) && i <= 191
    ensures SizeSum(fs, i) == 63 * (191 - i) + |fs[191]|
    decreases 191 - i
  {
    assert SizeSum(fs, i) == |fs[i]| + SizeSum(fs, i + 1);
    if i < 191 {
      LuckySum(fs, i + 1);
    }
  }

  lemma LuckySizes(fs: seq<Frame>)
    requires Lucky(fs)
    ensures [63] + seq(190, _ => 63) + [|fs[191]| as int] == Lengths(fs, 0, 192)
  {
  }

  lemma LuckyBytes(b: Block, simple: bool)
    requires b.track == 0x80 && Resolved(b.lacing, b.frames) == Ebml && Lucky(b.frames)
    ensures Rendered(b, simple) == [0x40, 0x80] + TimecodeBytes(b.timecode) + seq(192, _ => CODE_63) + Concat(b.frames)
  {
    hide Concat, Coded, TimecodeBytes, Head, EbmlFrom, Resolved;
    Head128(b.(lacing := Ebml), simple);
    CodeIs();
    SameDifferences(b.frames, 1);
    assert LaceHeader(Ebml, b.frames) == seq(192, _ => CODE_63);
  }

  /** The count of 192 frames, taken for the flags, says this. */
  predicate FlagsFit(b: Block, simple: bool) {
    b.invisible && (simple ==> b.keyframe && b.discardable)
  }

  lemma FlagsOf192(b: Block, simple: bool)
    requires Resolved(b.lacing, b.frames) == Ebml
    ensures ActsAsFlags(191, b, simple) <==> FlagsFit(b, simple)
  {
    hide Resolved;
  }

  /** So an EBML lace of track 0x80 can survive: the count of its frames is a fitting flags byte. */
  lemma EbmlCanSurvive(b: Block, simple: bool, keyframe: bool, discardable: bool)
    requires b.track == 0x80 && Resolved(b.lacing, b.frames) == Ebml && Lucky(b.frames) && FlagsFit(b, simple)
    requires |Rendered(b, simple)| < TWO_31
    ensures Survives(b, simple, keyframe, discardable)
  {
    hide Rendered, Concat, ReadLace, Cut, TimecodeBytes, Lucky, Resolved;
    var data, tc := Rendered(b, simple), TimecodeBytes(b.timecode);
    LuckyBytes(b, simple);
    TimecodeWidth(b.timecode);
    TimecodeBack(b.timecode);
    LuckyIs(b.frames);
    assert data[0] == 0x40 && data[1] == 0x80 && data[2] == tc[0] && data[3] == tc[1];
    assert forall i :: 4 <= i < 196 ==> data[i] == CODE_63;
    assert data[196..] == Concat(b.frames);
    LuckyLace(data, b.frames);
  }

  lemma LuckyIs(fs: seq<Frame>)
    requires Lucky(fs)
    ensures |fs| == 192 && |Concat(fs)| > 0
  {
    assert |fs[0]| == 63;
  }

  // ---------- no other lace survives ----------

  lemma AllSmall(fs: seq<Frame>)
    requires SizeSum(fs, 0) < TWO_31
    ensures forall j :: 0 <= j < |fs| ==> |fs[j]| < TWO_31
  {
    hide SizeSum;
    forall j | 0 <= j < |fs|
      ensures |fs[j]| < TWO_31
    {
      SumHas(fs, 0, j);
    }
  }

  lemma LaceAt5(data: seq<Byte>, fs: seq<Frame>)
    requires 1 < |fs| <= 255 && 5 < |data| < TWO_31 && data[4..] == LaceHeader(Ebml, fs) + Concat(fs)
    ensures var end := 4 + |LaceHeader(Ebml, fs)|;
      SizesAt(data, 5, end, fs) && data[end..] == Concat(fs) && |data| == end + SizeSum(fs, 0)
  {
    hide LaceHeader, Concat, SizeSum, FirstSize, EbmlFrom;
    var header := LaceHeader(Ebml, fs);
    var end := 4 + |header|;
    CountAndTail(Ebml, fs);
    ConcatIsSum(fs);
    AllSmall(fs);
    assert data[4..][..|header|] == header;
    assert data[4..][|header|..] == Concat(fs);
    assert data[5..end] == data[4..end][1..] == header[1..];
  }

  /** Only those laces survive. */
  lemma EbmlSurvivorIsLucky(b: Block, simple: bool, keyframe: bool, discardable: bool)
    requires b.track == 0x80 && 1 < |b.frames| <= 255 && |Rendered(b, simple)| < TWO_31
    requires Resolved(b.lacing, b.frames) == Ebml && Survives(b, simple, keyframe, discardable)
    ensures Lucky(b.frames) && FlagsFit(b, simple)
  {
    hide Survives, Resolved, Cut, Concat, LaceHeader, ReadLace, SizesAt, LaceFound, SizeSum, Flags, TimecodeBytes, Head,
         ActsAsFlags, FlagsFit, Lucky, ReadEbmlLace, All63;
    var data, fs := Rendered(b, simple), b.frames;
    LaceMisread(b, simple, keyframe, discardable);
    Head128(b.(lacing := Ebml), simple);
    TimecodeWidth(b.timecode);
    assert data[4..] == LaceHeader(Ebml, fs) + Concat(fs);
    LaceAt5(data, fs);
    var end, last := 4 + |LaceHeader(Ebml, fs)|, |data| - 6;
    EbmlLaceIs(data, 6, last, |fs| - 1);
    FoundLace(data, last, fs, end);
    ShiftedIsEqual(data, 5, end, fs, last);
    LuckyFrom(data, end, fs);
    FlagsOf192(b, simple);
  }

  lemma FoundLace(data: seq<Byte>, last: int, fs: seq<Frame>, end: nat)
    requires 1 < |fs| && 6 <= |data| < TWO_31
    requires var r := ReadEbmlLace(data, 6, last, |fs| - 1);
      r.Some? && Cut(data, r.value.pos, r.value.sizes) == Some(fs) && r.value.pos == end
    ensures LaceFound(data, 6, last, fs, end)
  {
    hide ReadEbmlLace, Cut, Lengths;
    var r := ReadEbmlLace(data, 6, last, |fs| - 1).value;
    CutNeedsLengths(data, r.pos, r.sizes, fs);
  }

  lemma LuckyFrom(data: seq<Byte>, end: nat, fs: seq<Frame>)
    requires 1 < |fs| && 5 < |data| && data[5] == CODE_63 == |fs| - 1 && All63(fs, 0)
    requires end < |data| && data[end] == 0 && data[end..] == Concat(fs)
    ensures Lucky(fs)
  {
    assert data[end..][0] == 0;
  }

  // ---------- all blocks of the track ----------

  lemma NoneIsLost(b: Block, simple: bool, keyframe: bool, discardable: bool)
    requires b.track == 0x80 && b.frames == []
    ensures !Survives(b, simple, keyframe, discardable)
  {
  }

  /**
   Exactly these blocks of track 0x80 survive: EBML laces of 192 frames, all but the last of 63 bytes
   and the first of them starting with a zero byte, that are invisible and, in a simple block, keyframes
   and discardable.
   */
  lemma SurvivesIff(b: Block, simple: bool, keyframe: bool, discardable: bool)
    requires b.track == 0x80 && |b.frames| <= 255 && |Rendered(b, simple)| < TWO_31
    ensures Survives(b, simple, keyframe, discardable) <==>
      Resolved(b.lacing, b.frames) == Ebml && Lucky(b.frames) && FlagsFit(b, simple)
  {
    hide Survives, Rendered, Lucky, FlagsFit;
    var l := Resolved(b.lacing, b.frames);
    if |b.frames| == 0 {
      NoneIsLost(b, simple, keyframe, discardable);
      NotLucky(b.frames);
    } else if |b.frames| == 1 {
      OneFrameIsLost(b, simple, keyframe, discardable);
    } else if Survives(b, simple, keyframe, discardable) {
      LaceMisread(b, simple, keyframe, discardable);
      match l
      case Xiph => XiphIsLost(b, simple, keyframe, discardable); assert false;
      case Fixed => FixedIsLost(b, simple, keyframe, discardable); assert false;
      case Ebml => EbmlSurvivorIsLucky(b, simple, keyframe, discardable);
    } else if l == Ebml && Lucky(b.frames) && FlagsFit(b, simple) {
      EbmlCanSurvive(b, simple, keyframe, discardable);
      assert false;
    }
  }

  lemma NotLucky(fs: seq<Frame>)
    requires |fs| == 0
    ensures !Lucky(fs)
  {
  }
}
