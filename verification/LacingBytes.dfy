/**
 The bytes that RenderData writes (libmatroska/src/KaxBlock.cpp, lines 273-411), bit by bit and
 number by number, as section 10 of RFC 9559 lays them out: without reference to any reader.
 */
module LacingBytes {
  import opened Wrappers
  import opened Bytes
  import opened EbmlSize
  import opened Lacing
  import opened LacingProofs
  import opened LacingChoice

  /** Bit j of a byte, counted from the lowest. */
  predicate Bit(b: Byte, j: nat)
    requires j < 8
  {
    match j
    case 0 => b % 2 == 1
    case 1 => b / 2 % 2 == 1
    case 2 => b / 4 % 2 == 1
    case 3 => b / 8 % 2 == 1
    case 4 => b / 16 % 2 == 1
    case 5 => b / 32 % 2 == 1
    case 6 => b / 64 % 2 == 1
    case _ => b / 128 % 2 == 1
  }

  /** Where the timecode starts. */
  function TimecodeAt(b: Block): nat {
    if b.track < 0x80 then 1 else 2
  }

  lemma HeadOf(b: Block, simple: bool)
    requires b.track < 0x4000 && |b.frames| > 0
    ensures var r, out := b.(lacing := Resolved(b.lacing, b.frames)), Rendered(b, simple);
      && |Head(r, simple)| == 4 + (if b.track > 0x80 then 1 else 0) <= |out|
      && out[..|Head(r, simple)|] == Head(r, simple)
      && out[|Head(r, simple)|..] == LaceHeader(r.lacing, b.frames) + Concat(b.frames)
  {
    hide Head, LaceHeader, Concat, BestLacing;
    var r := b.(lacing := Resolved(b.lacing, b.frames));
    assert Rendered(b, simple) == Head(r, simple) + (LaceHeader(r.lacing, b.frames) + Concat(b.frames));
  }

  lemma TwoBytes(bs: seq<Byte>)
    requires |bs| == 2
    ensures BigEndian(bs) == 256 * (bs[0] as int) + bs[1]
  {
    assert bs == [bs[0]] + [bs[1]];
    BigEndianConcat([bs[0]], [bs[1]]);
    Single(bs[0]);
    Single(bs[1]);
    assert Pow256(0) == 1;
  }

  /** The track number: one byte with its top bit set, or two bytes with the second bit set. */
  lemma TrackIsWritten(b: Block, simple: bool)
    requires b.track < 0x4000 && |b.frames| > 0
    ensures var out := Rendered(b, simple);
      && |out| >= 4
      && (b.track < 0x80 ==> out[0] == 0x80 + b.track)
      && (b.track >= 0x80 ==> BigEndian(out[..2]) == 0x4000 + b.track)
  {
    hide LaceHeader, Concat, Resolved, Flags, TimecodeBytes;
    HeadOf(b, simple);
    TimecodeWidth(b.timecode);
    var out, r := Rendered(b, simple), b.(lacing := Resolved(b.lacing, b.frames));
    var full := TrackBytes(b.track) + TimecodeBytes(b.timecode) + [Flags(r, simple)];
    assert out[0] == out[..|Head(r, simple)|][0] == full[0];
    assert out[1] == out[..|Head(r, simple)|][1] == full[1];
    if b.track >= 0x80 {
      TwoBytes(out[..2]);
    }
  }

  /** The timecode: two bytes, most significant first, in two's complement. */
  lemma TimecodeIsWritten(b: Block, simple: bool)
    requires b.track < 0x4000 && |b.frames| > 0
    ensures var out, t := Rendered(b, simple), TimecodeAt(b);
      && |out| >= t + 2
      && BigEndian(out[t..t + 2]) == if b.timecode < 0 then b.timecode + 0x1_0000 else b.timecode
  {
    hide LaceHeader, Concat, Resolved, Flags;
    HeadOf(b, simple);
    TimecodeWidth(b.timecode);
    var out, r, t := Rendered(b, simple), b.(lacing := Resolved(b.lacing, b.frames)), TimecodeAt(b);
    var full := TrackBytes(b.track) + TimecodeBytes(b.timecode) + [Flags(r, simple)];
    assert out[t..t + 2] == out[..|Head(r, simple)|][t..t + 2] == full[t..t + 2] == TimecodeBytes(b.timecode);
    TwoBytes(out[t..t + 2]);
  }

  // Three flags and the two lacing bits, and nothing else.
  lemma FlagBits(i: int, l: int, k: int, d: int, f: Byte)
    requires 0 <= i <= 1 && 0 <= k <= 1 && 0 <= d <= 1 && (l == 0 || l == 2 || l == 4 || l == 6)
    requires f == 8 * i + l + 0x80 * k + d
    ensures !Bit(f, 4) && !Bit(f, 5) && !Bit(f, 6)
    ensures (Bit(f, 7) <==> k == 1) && (Bit(f, 3) <==> i == 1) && (Bit(f, 0) <==> d == 1)
    ensures (Bit(f, 1) <==> l == 2 || l == 6) && (Bit(f, 2) <==> l == 4 || l == 6)
  {
    Quotients(i, l, k, d, f);
  }

  lemma Quotients(i: int, l: int, k: int, d: int, f: int)
    requires 0 <= i <= 1 && 0 <= k <= 1 && 0 <= d <= 1 && (l == 0 || l == 2 || l == 4 || l == 6)
    requires f == 8 * i + l + 0x80 * k + d
    ensures f / 128 == k && f / 64 == 2 * k && f / 32 == 4 * k && f / 16 == 8 * k && f / 8 == 16 * k + i
    ensures f / 4 == 32 * k + 2 * i + l / 4 && f / 2 == 64 * k + 4 * i + l / 2
  {
  }

  lemma FlagsHaveBits(b: Block, simple: bool)
    ensures var f := Flags(b, simple);
      && !Bit(f, 4) && !Bit(f, 5) && !Bit(f, 6) && (Bit(f, 3) <==> b.invisible)
      && (Bit(f, 7) <==> simple && b.keyframe) && (Bit(f, 0) <==> simple && b.discardable)
      && (Bit(f, 1) <==> b.lacing == Xiph || b.lacing == Ebml) && (Bit(f, 2) <==> b.lacing == Fixed || b.lacing == Ebml)
  {
    hide Bit;
    FlagBits(if b.invisible then 1 else 0, LacingBits(b.lacing), if simple && b.keyframe then 1 else 0,
             if simple && b.discardable then 1 else 0, Flags(b, simple));
  }

  /** The bytes of a Xiph or an EBML header, behind the count. */
  function XiphBytes(fs: seq<Frame>): nat
    requires |fs| > 0
  {
    XiphSum(fs, |fs| - 1)
  }

  function EbmlBytes(fs: seq<Frame>): nat
    requires |fs| > 0
  {
    EbmlSum(fs, |fs| - 1)
  }

  /** The lacing that is asked for, or chosen: bits 1 and 2 of the flags. */
  predicate LacingIs(b: Block, xiph: bool, fixed: bool)
    requires |b.frames| > 0
  {
    if |b.frames| == 1 then !xiph && !fixed
    else match b.lacing
      case Xiph => xiph && !fixed
      case Fixed => !xiph && fixed
      case Auto =>
        if SameSize(b.frames) then !xiph && fixed
        else if XiphBytes(b.frames) < EbmlBytes(b.frames) then xiph && !fixed
        else xiph && fixed
      case _ => xiph && fixed
  }

  /**
   The flags byte: keyframe and discardable only in simple blocks, three bits that are always clear,
   and the lacing.
   */
  lemma FlagsAreWritten(b: Block, simple: bool)
    requires b.track < 0x4000 && b.track != 0x80 && |b.frames| > 0
    ensures var out, t := Rendered(b, simple), TimecodeAt(b) + 2;
      && |out| > t
      && !Bit(out[t], 4) && !Bit(out[t], 5) && !Bit(out[t], 6)
      && (Bit(out[t], 7) <==> simple && b.keyframe)
      && (Bit(out[t], 3) <==> b.invisible)
      && (Bit(out[t], 0) <==> simple && b.discardable)
      && LacingIs(b, Bit(out[t], 1), Bit(out[t], 2))
  {
    hide LaceHeader, Concat, Bit, Flags, TimecodeBytes, XiphSum, EbmlSum;
    HeadOf(b, simple);
    TimecodeWidth(b.timecode);
    var out, r, t := Rendered(b, simple), b.(lacing := Resolved(b.lacing, b.frames)), TimecodeAt(b) + 2;
    var full := TrackBytes(b.track) + TimecodeBytes(b.timecode) + [Flags(r, simple)];
    assert out[t] == out[..|Head(r, simple)|][t] == full[t] == Flags(r, simple);
    FlagsHaveBits(r, simple);
  }

  // ---------- lace headers and frames ----------

  function ByteSum(bs: seq<Byte>): nat {
    if |bs| == 0 then 0 else bs[0] + ByteSum(bs[1..])
  }

  /** A Xiph size is the sum of its bytes, all of which but the last are 255. */
  lemma {:induction false} XiphSizeIsSum(s: nat)
    ensures var bs := XiphOf(s);
      && ByteSum(bs) == s && bs[|bs| - 1] < 255 && forall i :: 0 <= i < |bs| - 1 ==> bs[i] == 255
  {
    if s >= 255 {
      XiphSizeIsSum(s - 255);
      assert XiphOf(s)[1..] == XiphOf(s - 255);
    }
  }

  /** A lace starts with the number of its frames less one, of which one byte is kept. */
  lemma CountIsWritten(b: Block, simple: bool)
    requires b.track < 0x4000 && |b.frames| > 1
    ensures var out, t := Rendered(b, simple), TimecodeAt(b) + if b.track == 0x80 then 2 else 3;
      |out| > t && (|b.frames| - 1 - out[t]) % 256 == 0
  {
    hide Concat, Flags, TimecodeBytes, XiphFrom, EbmlFrom, FirstSize;
    HeadOf(b, simple);
    var out, t := Rendered(b, simple), TimecodeAt(b) + if b.track == 0x80 then 2 else 3;
    assert out[t] == out[t..][0];
  }

  /** The sizes of an EBML lace: the first in the shortest code, then every difference in its own width. */
  lemma EbmlSizesAreWritten(fs: seq<Frame>, i: nat, c: Width)
    requires 0 < i < |fs| - 1 && |fs[0]| < Unknown(5)
    ensures var code := FirstSize(fs);
      && BigEndian(code) == Range(|code|) + |fs[0]| && 1 <= |code| <= 5 && (c < |code| ==> |fs[0]| >= Unknown(c))
    ensures var code, d := CodedSigned(|fs[i]| - |fs[i - 1]|, CodedSizeLengthSigned(|fs[i]| - |fs[i - 1]|, 0)), |fs[i]| - |fs[i - 1]|;
      && EbmlFrom(fs, i) == code + EbmlFrom(fs, i + 1)
      && (-0x800_0000 < d < 0x800_0000 ==> BigEndian(code) == Range(|code|) + d + Range(|code|) / 2 - 1)
    ensures EbmlFrom(fs, |fs| - 1) == []
  {
    hide Coded, BigEndian, Range, EbmlFrom, FirstSize;
    FirstCodeIs(fs[0], c);
    FirstSizeIs(fs);
    EbmlStepIs(fs, i);
    SignedWidth(Difference(fs, i));
    SignedIsNumber(Difference(fs, i));
  }

  lemma FirstSizeIs(fs: seq<Frame>)
    requires |fs| > 0
    ensures FirstSize(fs) == Coded(|fs[0]|, CodedSizeLength(|fs[0]|, 0, true))
  {
  }

  lemma FirstCodeIs(f: Frame, c: Width)
    requires |f| < Unknown(5)
    ensures var code := Coded(|f|, CodedSizeLength(|f|, 0, true));
      && BigEndian(code) == Range(|code|) + |f| && 1 <= |code| <= 5 && (c < |code| ==> |f| >= Unknown(c))
  {
    hide Coded, BigEndian, Range;
    RangeValues();
    ShortestWidth(|f|, c);
    CodeIsNumber(|f|, CodedSizeLength(|f|, 0, true));
  }

  lemma EbmlStepIs(fs: seq<Frame>, i: nat)
    requires 0 < i < |fs| - 1
    ensures EbmlFrom(fs, i) == CodedSigned(Difference(fs, i), CodedSizeLengthSigned(Difference(fs, i), 0)) + EbmlFrom(fs, i + 1)
    ensures EbmlFrom(fs, |fs| - 1) == []
  {
    hide Coded;
  }

  lemma {:induction false} ConcatPart(fs: seq<Frame>, i: nat)
    requires i < |fs|
    ensures FrameSum(fs, i) + |fs[i]| <= |Concat(fs)|
    ensures Concat(fs)[FrameSum(fs, i)..FrameSum(fs, i) + |fs[i]|] == fs[i]
    decreases |fs|
  {
    ConcatLength(fs);
    if i == 0 {
      assert FrameSum(fs, 0) == 0;
    } else {
      FrameSumFront(fs, i);
      ConcatPart(fs[1..], i - 1);
      var k, n := FrameSum(fs[1..], i - 1), |fs[i]|;
      assert Concat(fs)[|fs[0]|..] == Concat(fs[1..]);
      assert Concat(fs)[|fs[0]| + k..|fs[0]| + k + n] == Concat(fs[1..])[k..k + n];
    }
  }

  /** The frames stand at the end, one behind the other in their order. */
  lemma FramesAreWritten(b: Block, simple: bool, i: nat)
    requires b.track < 0x4000 && i < |b.frames|
    ensures var out, fs := Rendered(b, simple), b.frames;
      var start := |out| - FrameSum(fs, |fs|) + FrameSum(fs, i);
      0 <= start && start + |fs[i]| <= |out| && out[start..start + |fs[i]|] == fs[i]
  {
    hide LaceHeader, Concat, Head, BestLacing, FrameSum;
    var out, fs := Rendered(b, simple), b.frames;
    var r := b.(lacing := Resolved(b.lacing, fs));
    var front := Head(r, simple) + LaceHeader(r.lacing, fs);
    assert out == front + Concat(fs);
    ConcatLength(fs);
    ConcatPart(fs, i);
    var start, n := |front| + FrameSum(fs, i), |fs[i]|;
    assert out[start..start + n] == Concat(fs)[FrameSum(fs, i)..FrameSum(fs, i) + n];
  }

  // ---------- the head, as it is read ----------

  lemma LacingByBits(f: Byte)
    ensures (LacingOf(f) == NoLacing <==> !Bit(f, 1) && !Bit(f, 2)) && (LacingOf(f) == Xiph <==> Bit(f, 1) && !Bit(f, 2))
    ensures (LacingOf(f) == Fixed <==> !Bit(f, 1) && Bit(f, 2)) && (LacingOf(f) == Ebml <==> Bit(f, 1) && Bit(f, 2))
    ensures f >= 0x80 <==> Bit(f, 7)
  {
    assert f / 2 / 2 == f / 4;
  }

  /** Whatever the bytes are, a block that is read has the fields that its head says. */
  lemma HeadIsRead(data: seq<Byte>, simple: bool, keyframe: bool, discardable: bool, b: Block)
    requires |data| < TWO_31 && Parse(data, simple, keyframe, discardable) == Some(b)
    ensures |data| > 0 && var t := if data[0] >= 0x80 then 1 else 2;
      && |data| >= t + 3
      && (if t == 1 then data[0] == 0x80 + b.track else BigEndian(data[..2]) == 0x4000 + b.track)
      && BigEndian(data[t..t + 2]) == (if b.timecode < 0 then b.timecode + 0x1_0000 else b.timecode)
      && (b.invisible <==> Bit(data[t + 2], 3))
      && (b.keyframe <==> if simple then Bit(data[t + 2], 7) else keyframe)
      && (b.discardable <==> if simple then Bit(data[t + 2], 0) else discardable)
      && (Bit(data[t + 2], 1) <==> b.lacing == Xiph || b.lacing == Ebml)
      && (Bit(data[t + 2], 2) <==> b.lacing == Fixed || b.lacing == Ebml)
  {
    hide LacingOf, ParseFrames, Bit;
    var t := if data[0] >= 0x80 then 1 else 2;
    TwoBytes(data[t..t + 2]);
    BitIs(data[t + 2]);
    LacingByBits(data[t + 2]);
    if t == 2 {
      TwoBytes(data[..2]);
    }
  }

  lemma BitIs(f: Byte)
    ensures (f / 8 % 2 == 1 <==> Bit(f, 3)) && (f >= 0x80 <==> Bit(f, 7)) && (f % 2 == 1 <==> Bit(f, 0))
  {
  }
}
