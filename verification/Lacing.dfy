/**
 The layout of a Matroska block (section 10 of RFC 9559) as libmatroska/src/KaxBlock.cpp writes and
 reads it: head, lace header and frames.
 */
module Lacing {
  import opened Wrappers
  import opened Bytes
  import opened EbmlSize

  const TWO_32: int := 0x1_0000_0000
  const TWO_31: int := 0x8000_0000

  datatype LacingType = NoLacing | Xiph | Fixed | Ebml | Auto

  type Int16 = x: int | -0x8000 <= x < 0x8000 witness 0

  /** Frame sizes are 32-bit. */
  type Frame = f: seq<Byte> | |f| < TWO_32 witness []

  datatype Block = Block(
    track: nat, timecode: Int16, invisible: bool, keyframe: bool, discardable: bool,
    lacing: LacingType, frames: seq<Frame>)

  /** Conversions to uint32 and int32. */
  function U32(x: int): (r: int)
    ensures 0 <= r < TWO_32 && (0 <= x < TWO_32 ==> r == x)
  {
    x % TWO_32
  }

  function I32(x: int): (r: int)
    ensures -TWO_31 <= r < TWO_31 && (-TWO_31 <= x < TWO_31 ==> r == x)
  {
    (x + TWO_31) % TWO_32 - TWO_31
  }

  // ---------- the head ----------

  function TrackBytes(t: nat): seq<Byte>
    requires t < 0x4000
  {
    if t < 0x80 then [t + 0x80] else [t / 256 + 0x40, t % 256]
  }

  function LacingBits(l: LacingType): nat {
    match l
    case Xiph => 2
    case Fixed => 4
    case Ebml => 6
    case _ => 0
  }

  function Flags(b: Block, simple: bool): Byte {
    (if b.invisible then 8 else 0) + LacingBits(b.lacing)
    + (if simple then (if b.keyframe then 0x80 else 0) + if b.discardable then 1 else 0 else 0)
  }

  function TimecodeBytes(t: Int16): seq<Byte> {
    var u := if t < 0 then t + 0x1_0000 else t;
    [u / 256, u % 256]
  }

  /** The buffer of the head; only four bytes of it are written for track 0x80. */
  function Head(b: Block, simple: bool): (h: seq<Byte>)
    requires b.track < 0x4000
    ensures |h| == 4 + if b.track > 0x80 then 1 else 0
  {
    (TrackBytes(b.track) + TimecodeBytes(b.timecode) + [Flags(b, simple)])[..4 + if b.track > 0x80 then 1 else 0]
  }

  // ---------- lace headers ----------

  /** One Xiph size: a run of 255 and a smaller byte. */
  function XiphOf(s: nat): (bs: seq<Byte>)
    ensures |bs| == s / 255 + 1
  {
    if s >= 255 then [255] + XiphOf(s - 255) else [s]
  }

  /** The sizes of frames i up to the last but one; each is first truncated to 16 bits. */
  function XiphFrom(fs: seq<Frame>, i: nat): seq<Byte>
    requires i < |fs|
    decreases |fs| - i
  {
    if i == |fs| - 1 then [] else XiphOf(|fs[i]| % 0x1_0000) + XiphFrom(fs, i + 1)
  }

  function Difference(fs: seq<Frame>, i: nat): (d: Int64)
    requires 0 < i < |fs|
    ensures -TWO_32 < d < TWO_32
  {
    |fs[i]| - |fs[i - 1]|
  }

  /** The size differences of frames i up to the last but one. */
  function EbmlFrom(fs: seq<Frame>, i: nat): seq<Byte>
    requires 0 < i < |fs|
    decreases |fs| - i
  {
    if i == |fs| - 1 then []
    else CodedSigned(Difference(fs, i), CodedSizeLengthSigned(Difference(fs, i), 0)) + EbmlFrom(fs, i + 1)
  }

  function FirstSize(fs: seq<Frame>): seq<Byte>
    requires |fs| > 0
  {
    Coded(|fs[0]|, CodedSizeLength(|fs[0]|, 0, true))
  }

  function LaceHeader(l: LacingType, fs: seq<Frame>): seq<Byte>
    requires |fs| > 0 && (l == Ebml ==> |fs| > 1)
  {
    match l
    case Xiph => [(|fs| - 1) % 256] + XiphFrom(fs, 0)
    case Ebml => [(|fs| - 1) % 256] + FirstSize(fs) + EbmlFrom(fs, 1)
    case Fixed => [(|fs| - 1) % 256]
    case _ => []
  }

  function Concat(fs: seq<Frame>): seq<Byte> {
    if |fs| == 0 then [] else fs[0] + Concat(fs[1..])
  }

  // ---------- the whole block ----------

  /** The lacing that is really used for the frames. */
  function Resolved(l: LacingType, fs: seq<Frame>): (r: LacingType) {
    if |fs| == 1 then NoLacing
    else if l == NoLacing then Ebml
    else if l == Auto then BestLacing(fs)
    else l
  }

  /** What RenderData must write. */
  function Rendered(b: Block, simple: bool): seq<Byte>
    requires b.track < 0x4000
  {
    if |b.frames| == 0 then []
    else
      var r := b.(lacing := Resolved(b.lacing, b.frames));
      Head(r, simple) + LaceHeader(r.lacing, b.frames) + Concat(b.frames)
  }

  // ---------- choosing a lacing ----------

  function XiphSum(fs: seq<Frame>, n: nat): nat
    requires n <= |fs|
  {
    if n == 0 then 0 else XiphSum(fs, n - 1) + |fs[n - 1]| / 255 + 1
  }

  function EbmlSum(fs: seq<Frame>, n: nat): nat
    requires n <= |fs|
  {
    if n == 0 then 0
    else if n == 1 then CodedSizeLength(|fs[0]|, 0, true)
    else EbmlSum(fs, n - 1) + CodedSizeLengthSigned(Difference(fs, n - 1), 0)
  }

  predicate SameSize(fs: seq<Frame>) {
    forall i :: 0 <= i < |fs| ==> |fs[i]| == |fs[0]|
  }

  function BestLacing(fs: seq<Frame>): (l: LacingType)
    ensures if |fs| > 1 then l == Xiph || l == Ebml || l == Fixed else l == NoLacing
  {
    if |fs| <= 1 then NoLacing
    else if SameSize(fs) then Fixed
    else if XiphSum(fs, |fs| - 1) < EbmlSum(fs, |fs| - 1) then Xiph
    else Ebml
  }

  // ---------- predicted sizes ----------

  function FrameSum(fs: seq<Frame>, n: nat): nat
    requires n <= |fs|
  {
    if n == 0 then 0 else FrameSum(fs, n - 1) + |fs[n - 1]|
  }

  /** What UpdateSize must compute for an explicit or automatic lacing. */
  function Predicted(b: Block): nat
    requires |b.frames| > 1 ==> b.lacing != NoLacing
  {
    var n := |b.frames|;
    var l := if b.lacing == Auto then BestLacing(b.frames) else b.lacing;
    (if n == 0 then 0
     else if n == 1 then 4 + |b.frames[0]|
     else 5 + FrameSum(b.frames, n)
          + if l == Xiph then XiphSum(b.frames, n - 1) else if l == Ebml then EbmlSum(b.frames, n - 1) else 0)
    + if b.track >= 0x80 then 1 else 0
  }

  // ---------- reading ----------

  /** The frame sizes found, and where the frames start. */
  datatype Lace = Lace(sizes: seq<int>, pos: nat, last: int)

  function ReadXiphSize(data: seq<Byte>, pos: nat, acc: int): (r: Option<(int, nat)>)
    requires pos <= |data|
    ensures r.Some? ==> pos < r.value.1 <= |data|
    decreases |data| - pos
  {
    if pos == |data| then None
    else if data[pos] == 255 then ReadXiphSize(data, pos + 1, I32(acc + 255))
    else Some((I32(acc + data[pos]), pos + 1))
  }

  function ReadXiphSizes(data: seq<Byte>, pos: nat, last: int, sizes: seq<int>, k: nat): (r: Option<Lace>)
    requires pos <= |data|
    ensures r.Some? ==> |r.value.sizes| == |sizes| + k && r.value.pos <= |data|
    decreases k
  {
    if k == 0 then Some(Lace(sizes, pos, last))
    else match ReadXiphSize(data, pos, 0)
      case None => None
      case Some((s, p)) => ReadXiphSizes(data, p, U32(last - (p - pos) - s), sizes + [s], k - 1)
  }

  /** The bytes in which a coded size is looked for. */
  function Window(data: seq<Byte>, pos: nat, last: int): seq<Byte>
    requires pos <= |data|
  {
    if 0 <= last <= |data| - pos then data[pos..pos + last] else data[pos..]
  }

  function ReadEbmlSizes(data: seq<Byte>, pos: nat, last: int, sizes: seq<int>, size: int, k: nat): (r: Option<Lace>)
    requires pos <= |data|
    ensures r.Some? ==> |r.value.sizes| == |sizes| + k && r.value.pos <= |data|
    decreases k
  {
    if k == 0 then Some(Lace(sizes, pos, last))
    else
      var r := ReadCodedSigned(Window(data, pos, last));
      var s := I32(size + r.value);
      if s == 0 || U32(s + r.used) > last || r.used > |data| - pos then None
      else ReadEbmlSizes(data, pos + r.used, U32(last - (s + r.used)), sizes + [s], s, k - 1)
  }

  function ReadEbmlLace(data: seq<Byte>, pos: nat, last: int, k: nat): (r: Option<Lace>)
    requires pos <= |data|
    ensures r.Some? ==> |r.value.sizes| == k + 1 && r.value.pos <= |data|
  {
    var r := ReadCoded(Window(data, pos, last));
    var s := I32(r.value);
    if s == 0 || U32(s + r.used) > last || r.used > |data| - pos then None
    else
      var more := if k == 0 then 0 else k - 1;
      match ReadEbmlSizes(data, pos + r.used, U32(last - (s + r.used)), [s], s, more)
      case None => None
      case Some(l) => if k == 0 then Some(l) else Some(l.(sizes := l.sizes + [I32(l.last)]))
  }

  /** Frames of equal size. */
  function Share(last: int, n: nat): int
    requires n > 0
  {
    I32(last / n)
  }

  function ReadLace(data: seq<Byte>, l: LacingType, pos: nat, last: int, k: nat): (r: Option<Lace>)
    requires pos <= |data|
    ensures r.Some? ==> r.value.pos <= |data| && |r.value.sizes| == k + 1
  {
    match l
    case Xiph => (
      match ReadXiphSizes(data, pos, last, [], k)
      case None => None
      case Some(x) => Some(x.(sizes := x.sizes + [I32(x.last)])))
    case Ebml => ReadEbmlLace(data, pos, last, k)
    case _ => Some(Lace(seq(k + 1, _ => Share(last, k + 1)), pos, last))
  }

  /** The frames of the given sizes; they must end exactly where the data ends. */
  function Cut(data: seq<Byte>, pos: nat, sizes: seq<int>): (r: Option<seq<Frame>>)
    requires pos <= |data| < TWO_31
    ensures r.Some? ==> |r.value| == |sizes| && forall i :: 0 <= i < |sizes| ==> |r.value[i]| == sizes[i]
    decreases |sizes|
  {
    if |sizes| == 0 then (if pos == |data| then Some([]) else None)
    else if sizes[0] < 0 || sizes[0] > |data| - pos then None
    else match Cut(data, pos + sizes[0], sizes[1..])
      case None => None
      case Some(fs) => Some([data[pos..pos + sizes[0]]] + fs)
  }

  function LacingOf(flags: Byte): (l: LacingType)
    ensures l != Auto
  {
    match flags / 2 % 4
    case 0 => NoLacing
    case 1 => Xiph
    case 2 => Fixed
    case _ => Ebml
  }

  function HeadSize(data: seq<Byte>): (n: nat)
    requires |data| > 0
  {
    if data[0] >= 0x80 then 4 else 5
  }

  /**
   Not a lace of 256 frames: after that many the reader's 8-bit counter starts again with the first
   frame, and the loop goes on until it runs over the end of the data, or without end.
   */
  predicate CountsTo255(data: seq<Byte>) {
    |data| > 0 && |data| > HeadSize(data) && LacingOf(data[HeadSize(data) - 1]) != NoLacing ==>
      data[HeadSize(data)] != 255
  }

  /** The frames behind a head of h bytes; a lace of 256 frames is never read. */
  function ParseFrames(data: seq<Byte>, l: LacingType, h: nat): Option<seq<Frame>>
    requires h <= |data| < TWO_31
  {
    if l == NoLacing then Some([data[h..]])
    else if |data| == h || data[h] == 255 then None
    else match ReadLace(data, l, h + 1, |data| - h - 1, data[h])
      case None => None
      case Some(x) => Cut(data, x.pos, x.sizes)
  }

  /** What ReadData must find; keyframe and discardable flags are read from simple blocks only. */
  function Parse(data: seq<Byte>, simple: bool, keyframe: bool, discardable: bool): Option<Block>
    requires |data| < TWO_31
  {
    if |data| == 0 || data[0] < 0x40 || |data| < HeadSize(data) then None
    else
      var h := HeadSize(data);
      var first: int := data[0];
      var track := if h == 4 then first - 0x80 else (first - 0x40) * 256 + data[1];
      var high: int := data[h - 3];
      var u := high * 256 + data[h - 2];
      var flags := data[h - 1];
      var l := LacingOf(flags);
      match ParseFrames(data, l, h)
      case None => None
      case Some(fs) =>
        Some(Block(track, if u >= 0x8000 then u - 0x1_0000 else u, flags / 8 % 2 == 1,
          if simple then flags >= 0x80 else keyframe, if simple then flags % 2 == 1 else discardable, l, fs))
  }
}
