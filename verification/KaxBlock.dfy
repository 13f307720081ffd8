/** libmatroska/src/KaxBlock.cpp: the block that predicts its size, renders itself and is read back. */
module KaxBlock {
  import opened Wrappers
  import opened Bytes
  import opened EbmlSize
  import opened Lacing

  class KaxInternalBlock {
    const simple: bool
    var frames: seq<Frame>
    var track: nat
    var timecode: Int16
    var lacing: LacingType
    var invisible: bool
    var keyframe: bool
    var discardable: bool
    var size: nat

    constructor (isSimple: bool)
      ensures simple == isSimple && State() == Block(0, 0, false, true, false, Auto, [])
    {
      simple := isSimple;
      frames, track, timecode, lacing := [], 0, 0, Auto;
      invisible, keyframe, discardable, size := false, true, false, 0;
    }

    function State(): Block
      reads this
    {
      Block(track, timecode, invisible, keyframe, discardable, lacing, frames)
    }

    // ---------- sizes ----------

    method GetBestLacingType() returns (l: LacingType)
      ensures l == BestLacing(frames)
    {
      if |frames| <= 1 {
        return NoLacing;
      }
      var n := |frames|;
      var xiph, ebml, same := 1, 1, true;
      var i := 0;
      while i < n - 1
        invariant 0 <= i <= n - 1 && xiph == 1 + XiphSum(frames, i)
        invariant same <==> forall k :: 0 <= k <= i ==> |frames[k]| == |frames[0]|
      {
        if |frames[i]| != |frames[i + 1]| {
          same := false;
        }
        xiph := xiph + |frames[i]| / 255 + 1;
        i := i + 1;
      }
      assert same <==> SameSize(frames);
      ebml := ebml + CodedSizeLength(|frames[0]|, 0, true);
      i := 1;
      while i < n - 1
        invariant 1 <= i <= n - 1 && ebml == 1 + EbmlSum(frames, i)
      {
        ebml := ebml + CodedSizeLengthSigned(|frames[i]| - |frames[i - 1]|, 0);
        i := i + 1;
      }
      if same {
        l := Fixed;
      } else if xiph < ebml {
        l := Xiph;
      } else {
        l := Ebml;
      }
    }

    /** UpdateSize.  A failed assertion (a track number or lacing that cannot be written) ends it with an exception. */
    method UpdateSize() returns (ok: bool)
      modifies this`size
      ensures ok <==> track < 0x4000 && (|frames| > 1 ==> lacing != NoLacing)
      ensures ok ==> size == Predicted(State())
      ensures !ok ==> size == if track >= 0x4000 then old(size) else 5
    {
      hide XiphSum, EbmlSum, BestLacing;
      ok := track < 0x4000;
      if !ok {
        return;
      }
      var n := |frames|;
      if n == 0 {
        size := 0;
      } else if n == 1 {
        size := 4 + |frames[0]|;
      } else {
        size := 4 + 1;
        var here := lacing;
        if lacing == Auto {
          here := GetBestLacingType();
        }
        ok := AddLaceSizes(here);
        if !ok {
          return;
        }
        // the last frame, whose size is not in the lace
        size := size + |frames[n - 1]|;
      }
      if track >= 0x80 {
        size := size + 1;
      }
    }

    /** All frames but the last one, with their sizes in the lace header. */
    method AddLaceSizes(l: LacingType) returns (ok: bool)
      requires |frames| > 1 && l != Auto
      modifies this`size
      ensures ok <==> l != NoLacing
      ensures var n := |frames| - 1;
        size == old(size) + if !ok then 0 else
          FrameSum(frames, n) + if l == Xiph then XiphSum(frames, n) else if l == Ebml then EbmlSum(frames, n) else 0
    {
      hide XiphSum, EbmlSum, FrameSum;
      ok := true;
      match l {
        case Xiph => AddXiphSizes();
        case Ebml => AddEbmlSizes();
        case Fixed => AddFixedSizes();
        case NoLacing => ok := false;
      }
    }

    method AddXiphSizes()
      requires |frames| > 1
      modifies this`size
      ensures size == old(size) + FrameSum(frames, |frames| - 1) + XiphSum(frames, |frames| - 1)
    {
      var i := 0;
      while i < |frames| - 1
        invariant 0 <= i <= |frames| - 1 && size == old(size) + FrameSum(frames, i) + XiphSum(frames, i)
      {
        size := size + |frames[i]| + (|frames[i]| / 0xFF + 1);
        i := i + 1;
      }
    }

    method AddEbmlSizes()
      requires |frames| > 1
      modifies this`size
      ensures size == old(size) + FrameSum(frames, |frames| - 1) + EbmlSum(frames, |frames| - 1)
    {
      FirstSums(frames);
      size := size + |frames[0]| + CodedSizeLength(|frames[0]|, 0, true);
      var i := 1;
      while i < |frames| - 1
        invariant 1 <= i <= |frames| - 1 && size == old(size) + FrameSum(frames, i) + EbmlSum(frames, i)
      {
        size := size + |frames[i]| + CodedSizeLengthSigned(|frames[i]| - |frames[i - 1]|, 0);
        i := i + 1;
      }
    }

    method AddFixedSizes()
      requires |frames| > 1
      modifies this`size
      ensures size == old(size) + FrameSum(frames, |frames| - 1)
    {
      var i := 0;
      while i < |frames| - 1
        invariant 0 <= i <= |frames| - 1 && size == old(size) + FrameSum(frames, i)
      {
        size := size + |frames[i]|;
        i := i + 1;
      }
    }

    // ---------- writing ----------

    method RenderFlags() returns (flags: Byte)
      requires lacing != Auto
      ensures flags == Flags(State(), simple)
    {
      var f: int := 0;
      if invisible {
        f := 0x08;
      }
      if simple {
        if keyframe {
          f := f + 0x80;
        }
        if discardable {
          f := f + 0x01;
        }
      }
      match lacing {
        case Xiph => f := f + 2;
        case Ebml => f := f + 6;
        case Fixed => f := f + 4;
        case NoLacing =>
      }
      flags := f;
    }

    method RenderHead() returns (out: seq<Byte>)
      requires track < 0x4000 && lacing != Auto
      ensures out == Head(State(), simple)
    {
      hide Flags;
      var head: seq<Byte> := [];
      if track < 0x80 {
        head := head + [track + 0x80];
      } else {
        head := head + [track / 256 + 0x40];
        head := head + [track % 256];
      }
      head := head + TimecodeBytes(timecode);
      var flags := RenderFlags();
      head := head + [flags];
      assert head == TrackBytes(track) + TimecodeBytes(timecode) + [Flags(State(), simple)];
      out := head[..4 + if track > 0x80 then 1 else 0];
    }

    /**
     RenderData: writes the block, leaving its exact size and the lacing it settled on.  Only a track
     number that cannot be written ends it with an exception.
     */
    method RenderData() returns (ok: bool, out: seq<Byte>)
      modifies this`size, this`lacing
      ensures ok <==> |frames| == 0 || track < 0x4000
      ensures ok && track < 0x4000 ==> out == Rendered(old(State()), simple)
      ensures ok && |frames| > 0 ==> size == |out| && lacing == Resolved(old(lacing), frames)
      ensures |frames| == 0 ==> out == []
      ensures !ok || |frames| == 0 ==> size == old(size) && lacing == old(lacing)
    {
      hide LaceHeader, Head, Concat, Resolved;
      if |frames| == 0 {
        return true, [];
      }
      if track >= 0x4000 {
        return false, [];
      }
      ok := true;
      Settle();
      out := RenderHead();
      var lace := RenderLace();
      out := out + lace;
      var i := 0;
      ghost var front := out;
      ConcatNone(frames);
      while i < |frames|
        invariant 0 <= i <= |frames| && size == |out| && out == front + Concat(frames[..i])
        invariant lacing == Resolved(old(lacing), frames)
      {
        ConcatNext(frames, i);
        out := out + frames[i];
        size := size + |frames[i]|;
        i := i + 1;
      }
      assert frames[..i] == frames;
    }

    /** The lacing is settled, and the size starts with what is always written. */
    method Settle()
      requires track < 0x4000 && |frames| > 0
      modifies this`size, this`lacing
      ensures lacing == Resolved(old(lacing), frames) && lacing != Auto && (lacing == NoLacing <==> |frames| == 1)
      ensures size == |Head(State(), simple)| + if lacing == NoLacing then 0 else 1
    {
      hide BestLacing;
      if |frames| == 1 {
        size := 4;
        lacing := NoLacing;
      } else {
        if lacing == NoLacing {
          lacing := Ebml;
        }
        size := 4 + 1;
      }
      if track > 0x80 {
        size := size + 1;
      }
      if lacing == Auto {
        lacing := GetBestLacingType();
      }
    }

    method RenderLace() returns (out: seq<Byte>)
      requires |frames| > 0 && lacing != Auto && (lacing == NoLacing <==> |frames| == 1)
      modifies this`size
      ensures out == LaceHeader(lacing, frames)
      ensures size == old(size) + |out| - if lacing == NoLacing then 0 else 1
    {
      hide XiphFrom, EbmlFrom, FirstSize;
      out := [];
      match lacing {
        case Xiph =>
          out := [(|frames| - 1) % 256];
          var sizes := RenderXiphSizes();
          out := out + sizes;
        case Ebml =>
          out := [(|frames| - 1) % 256];
          var sizes := RenderEbmlSizes();
          out := out + sizes;
        case Fixed =>
          out := [(|frames| - 1) % 256];
        case NoLacing =>
      }
    }

    /** One size: a run of 0xFF and the rest. */
    method RenderXiphSize(s: nat) returns (out: seq<Byte>)
      modifies this`size
      ensures out == XiphOf(s % 0x1_0000) && size == old(size) + |out|
    {
      hide XiphOf;
      out := [];
      var tmpSize := s % 0x1_0000;
      while tmpSize >= 255
        invariant 0 <= tmpSize && size == old(size) + |out| && out + XiphOf(tmpSize) == XiphOf(s % 0x1_0000)
      {
        XiphNext(tmpSize);
        assert out + ([255] + XiphOf(tmpSize - 255)) == out + [255] + XiphOf(tmpSize - 255);
        out := out + [255];
        size := size + 1;
        tmpSize := tmpSize - 255;
      }
      XiphNext(tmpSize);
      out := out + [tmpSize];
      size := size + 1;
    }

    method RenderXiphSizes() returns (out: seq<Byte>)
      requires |frames| > 1
      modifies this`size
      ensures out == XiphFrom(frames, 0) && size == old(size) + |out|
    {
      hide XiphOf;
      out := [];
      var i := 0;
      while i < |frames| - 1
        invariant 0 <= i <= |frames| - 1 && size == old(size) + |out|
        invariant out + XiphFrom(frames, i) == XiphFrom(frames, 0)
      {
        var one := RenderXiphSize(|frames[i]|);
        assert out + (one + XiphFrom(frames, i + 1)) == out + one + XiphFrom(frames, i + 1);
        out := out + one;
        i := i + 1;
      }
    }

    method RenderEbmlSizes() returns (out: seq<Byte>)
      requires |frames| > 1
      modifies this`size
      ensures out == FirstSize(frames) + EbmlFrom(frames, 1) && size == old(size) + |out|
    {
      hide Coded, CodedSigned, CodedSizeLengthSigned, CodedSizeLength;
      var head := new Byte[8];
      Widths(frames, 0);
      var c := CodedSizeLength(|frames[0]|, 0, true);
      var n := CodedValueLength(|frames[0]|, c, head);
      out := head[..n];
      size := size + c;
      var i := 1;
      while i < |frames| - 1
        invariant 1 <= i <= |frames| - 1 && size == old(size) + |out|
        invariant out + EbmlFrom(frames, i) == FirstSize(frames) + EbmlFrom(frames, 1)
      {
        Widths(frames, i);
        var d := |frames[i]| - |frames[i - 1]|;
        c := CodedSizeLengthSigned(d, 0);
        n := CodedValueLengthSigned(d, c, head);
        assert out + (head[..n] + EbmlFrom(frames, i + 1)) == out + head[..n] + EbmlFrom(frames, i + 1);
        out := out + head[..n];
        size := size + c;
        i := i + 1;
      }
    }

    // ---------- reading ----------

    /** ReadData of the whole block; on any failure the block is emptied. */
    method ReadData(data: seq<Byte>) returns (ok: bool)
      requires |data| < TWO_31 && CountsTo255(data) && frames == []
      modifies this
      ensures ok ==> Parse(data, simple, old(keyframe), old(discardable)) == Some(State())
      ensures !ok ==> Parse(data, simple, old(keyframe), old(discardable)) == None
      ensures !ok ==> frames == [] && track == 0 && timecode == 0
    {
      hide ReadLace, Cut, LacingOf;
      ok := ReadInto(data);
      if !ok {
        frames, track, timecode := [], 0, 0;
      }
    }

    /** The track number, in one or two bytes; zero bytes if there is none that can be read. */
    method ReadTrack(data: seq<Byte>) returns (pos: nat)
      modifies this`track
      ensures pos == 0 <==> |data| == 0 || data[0] < 0x40 || (data[0] < 0x80 && |data| < 2)
      ensures pos > 0 ==> HeadSize(data) == pos + 3 && pos <= |data|
      ensures pos > 0 ==> var first: int := data[0]; track == if pos == 1 then first - 0x80 else (first - 0x40) * 256 + data[1]
    {
      pos := 0;
      if |data| == 0 {
        return;
      }
      track := data[0];
      if track / 0x80 % 2 == 0 {
        if track / 0x40 % 2 == 0 || |data| == 1 {
          return;
        }
        track := (track % 0x40) * 256;
        track := track + data[1];
        pos := 2;
      } else {
        track := track % 0x80;
        pos := 1;
      }
    }

    method ReadInto(data: seq<Byte>) returns (ok: bool)
      requires |data| < TWO_31 && CountsTo255(data) && frames == []
      modifies this
      ensures ok ==> Parse(data, simple, old(keyframe), old(discardable)) == Some(State())
      ensures !ok ==> Parse(data, simple, old(keyframe), old(discardable)) == None
    {
      hide ParseFrames, LacingOf;
      ok := false;
      var pos := ReadTrack(data);
      if pos == 0 {
        return;
      }
      var head := pos + 3;
      if |data| - pos < 2 {
        return;
      }
      var high: int := data[pos];
      var u := high * 256 + data[pos + 1];
      timecode := if u >= 0x8000 then u - 0x1_0000 else u;
      pos := pos + 2;
      if pos == |data| {
        return;
      }
      var flags := data[pos];
      pos := pos + 1;
      if simple {
        keyframe := flags / 0x80 % 2 == 1;
        discardable := flags % 2 == 1;
      }
      invisible := flags / 8 % 2 == 1;
      lacing := LacingOf(flags);
      var fs := ReadFrames(data, lacing, pos, head);
      if fs.None? {
        return;
      }
      frames := fs.value;
      ok := true;
    }
  }

  method ReadFrames(data: seq<Byte>, l: LacingType, pos: nat, head: nat) returns (r: Option<seq<Frame>>)
    requires pos == head <= |data| < TWO_31 && l != Auto
    requires l != NoLacing && head < |data| ==> data[head] != 255
    ensures r == ParseFrames(data, l, head)
  {
    hide ReadLace, Cut;
    if l == NoLacing {
      return Some([data[pos..]]);
    }
    var last := |data| - head - 1;
    if pos == |data| {
      return None;
    }
    var frameNum := data[pos];
    var lace := ReadLaceSizes(data, l, pos + 1, last, frameNum);
    if lace.None? {
      return None;
    }
    r := CutFrames(data, lace.value.pos, lace.value.sizes);
  }

  lemma FirstSums(fs: seq<Frame>)
    requires |fs| > 0
    ensures FrameSum(fs, 1) == |fs[0]| && EbmlSum(fs, 1) == CodedSizeLength(|fs[0]|, 0, true)
  {
    assert FrameSum(fs, 0) == 0;
  }

  lemma XiphNext(s: nat)
    ensures XiphOf(s) == if s >= 255 then [255] + XiphOf(s - 255) else [s]
  {
  }

  lemma Widths(fs: seq<Frame>, i: nat)
    requires i < |fs|
    ensures 1 <= CodedSizeLength(|fs[i]|, 0, true) <= 5
    ensures i > 0 ==> 1 <= CodedSizeLengthSigned(Difference(fs, i), 0) <= 5
  {
  }

  lemma ConcatNone(fs: seq<Frame>)
    ensures Concat(fs[..0]) == []
  {
  }

  lemma {:induction false} ConcatNext(fs: seq<Frame>, i: nat)
    requires i < |fs|
    ensures Concat(fs[..i + 1]) == Concat(fs[..i]) + fs[i]
    decreases i
  {
    if i == 0 {
      assert fs[..1] == [fs[0]] && fs[..1][1..] == [];
    } else {
      ConcatNext(fs[1..], i - 1);
      assert fs[1..][..i] == fs[..i + 1][1..] && fs[1..][..i - 1] == fs[..i][1..];
    }
  }

  // ---------- the lace headers, read ----------

  method ReadLaceSizes(data: seq<Byte>, l: LacingType, pos: nat, last: int, k: nat) returns (r: Option<Lace>)
    requires pos <= |data| && 0 <= last < TWO_32 && l != NoLacing && l != Auto
    ensures r == ReadLace(data, l, pos, last, k)
  {
    match l {
      case Xiph =>
        r := ReadXiphLace(data, pos, last, k);
      case Ebml =>
        r := ReadEbmlLaceSizes(data, pos, last, k);
      case Fixed =>
        var sizes: seq<int> := [];
        var i := 0;
        while i <= k
          invariant 0 <= i <= k + 1 && sizes == seq(i, _ => Share(last, k + 1))
        {
          sizes := sizes + [I32(last / (k + 1))];
          i := i + 1;
        }
        r := Some(Lace(sizes, pos, last));
    }
  }

  lemma U32Again(a: int, b: int)
    ensures U32(U32(a) - b) == U32(a - b)
  {
  }

  method ReadXiphLace(data: seq<Byte>, start: nat, room: int, k: nat) returns (r: Option<Lace>)
    requires start <= |data| && 0 <= room < TWO_32
    ensures r == ReadLace(data, Xiph, start, room, k)
  {
    hide U32, I32, ReadXiphSize;
    var sizes: seq<int> := [];
    var pos: nat, last: int, i: nat := start, room, 0;
    while i < k
      invariant 0 <= i <= k && pos <= |data| && 0 <= last < TWO_32
      invariant ReadXiphSizes(data, start, room, [], k) == ReadXiphSizes(data, pos, last, sizes, k - i)
    {
      var s, p, l := ReadOneXiph(data, pos, last);
      if p > |data| {
        return None;
      }
      sizes := sizes + [s];
      pos, last := p, U32(l - s);
      i := i + 1;
    }
    r := Some(Lace(sizes + [I32(last)], pos, last));
  }

  /** One size; p is beyond the data if they ended too early. */
  method ReadOneXiph(data: seq<Byte>, pos: nat, last: int) returns (s: int, p: nat, l: int)
    requires pos <= |data| && 0 <= last < TWO_32
    ensures p > |data| ==> ReadXiphSize(data, pos, 0) == None
    ensures p <= |data| ==> ReadXiphSize(data, pos, 0) == Some((s, p)) && U32(l - s) == U32(last - (p - pos) - s)
  {
    hide U32, I32;
    s, p, l := 0, pos, last;
    var value: Byte := 255;
    while value == 255
      invariant pos <= p <= |data|
      invariant ReadXiphSize(data, pos, 0) == if value == 255 then ReadXiphSize(data, p, s) else Some((s, p))
      invariant l == U32(last - (p - pos))
      decreases |data| - p + if value == 255 then 1 else 0
    {
      if p == |data| {
        return s, |data| + 1, l;
      }
      value := data[p];
      s := I32(s + value);
      U32Again(last - (p - pos), 1);
      l := U32(l - 1);
      p := p + 1;
    }
    U32Again(last - (p - pos), s);
  }

  lemma NextEbmlSize(data: seq<Byte>, pos: nat, last: int, sizes: seq<int>, size: int, k: nat)
    requires pos <= |data| && k > 0
    ensures var r := ReadCodedSigned(Window(data, pos, last));
      var s := I32(size + r.value);
      ReadEbmlSizes(data, pos, last, sizes, size, k) ==
        if s == 0 || U32(s + r.used) > last || r.used > |data| - pos then None
        else ReadEbmlSizes(data, pos + r.used, U32(last - (s + r.used)), sizes + [s], s, k - 1)
  {
    hide U32, I32, ReadCodedSigned, Window;
  }

  lemma NoEbmlSize(data: seq<Byte>, pos: nat, last: int, sizes: seq<int>, size: int)
    requires pos <= |data|
    ensures ReadEbmlSizes(data, pos, last, sizes, size, 0) == Some(Lace(sizes, pos, last))
  {
  }

  method ReadEbmlLaceSizes(data: seq<Byte>, start: nat, room: int, k: nat) returns (r: Option<Lace>)
    requires start <= |data| && 0 <= room < TWO_32
    ensures r == ReadLace(data, Ebml, start, room, k)
  {
    hide U32, I32, ReadCoded, ReadCodedSigned, Window, ReadEbmlSizes;
    var c := ReadCodedSizeValue(Window(data, start, room));
    var size := I32(c.value);
    if size == 0 || U32(size + c.used) > room || c.used > |data| - start {
      return None;
    }
    var sizes := [size];
    var pos, last := start + c.used, U32(room - (size + c.used));
    var i := 1;
    ghost var at, left := pos, last;
    while i < k
      invariant 1 <= i && (i <= k || i == 1) && 0 <= pos <= |data|
      invariant ReadEbmlSizes(data, at, left, [I32(c.value)], I32(c.value), if k == 0 then 0 else k - 1)
        == ReadEbmlSizes(data, pos, last, sizes, size, if k == 0 then 0 else k - i)
    {
      NextEbmlSize(data, pos, last, sizes, size, k - i);
      var d := ReadCodedSizeSignedValue(Window(data, pos, last));
      size := I32(size + d.value);
      if size == 0 || U32(size + d.used) > last || d.used > |data| - pos {
        return None;
      }
      sizes := sizes + [size];
      pos, last := pos + d.used, U32(last - (size + d.used));
      i := i + 1;
    }
    NoEbmlSize(data, pos, last, sizes, size);
    if i <= k {
      sizes := sizes + [I32(last)];
    }
    r := Some(Lace(sizes, pos, last));
  }

  /** The frames, each starting where the one before it ended, and the check that they fill the data. */
  method CutFrames(data: seq<Byte>, start: nat, sizes: seq<int>) returns (r: Option<seq<Frame>>)
    requires start <= |data| < TWO_31
    ensures r == Cut(data, start, sizes)
  {
    hide Cut, After;
    var fs: seq<Frame> := [];
    var pos: nat, i: nat := start, 0;
    AfterNone(Cut(data, start, sizes));
    assert sizes[0..] == sizes;
    while i < |sizes|
      invariant 0 <= i <= |sizes| && 0 <= pos <= |data|
      invariant Cut(data, start, sizes) == After(fs, Cut(data, pos, sizes[i..]))
    {
      if sizes[i] < 0 || sizes[i] > |data| - pos {
        CutStops(data, pos, sizes, i, fs);
        return None;
      }
      CutOne(data, pos, sizes, i, fs);
      fs := fs + [data[pos..pos + sizes[i]]];
      pos := pos + sizes[i];
      i := i + 1;
    }
    CutEnds(data, pos, sizes[i..], fs);
    r := if pos == |data| then Some(fs) else None;
  }

  function After(fs: seq<Frame>, r: Option<seq<Frame>>): Option<seq<Frame>> {
    match r
    case None => None
    case Some(more) => Some(fs + more)
  }

  lemma AfterNone(r: Option<seq<Frame>>)
    ensures After([], r) == r
  {
    if r.Some? {
      assert [] + r.value == r.value;
    }
  }

  lemma CutStops(data: seq<Byte>, pos: nat, sizes: seq<int>, i: nat, fs: seq<Frame>)
    requires pos <= |data| < TWO_31 && i < |sizes| && !(0 <= sizes[i] <= |data| - pos)
    ensures After(fs, Cut(data, pos, sizes[i..])) == None
  {
  }

  lemma CutEnds(data: seq<Byte>, pos: nat, sizes: seq<int>, fs: seq<Frame>)
    requires pos <= |data| < TWO_31 && sizes == []
    ensures After(fs, Cut(data, pos, sizes)) == if pos == |data| then Some(fs) else None
  {
    assert fs + [] == fs;
  }

  lemma CutOne(data: seq<Byte>, pos: nat, sizes: seq<int>, i: nat, fs: seq<Frame>)
    requires pos <= |data| < TWO_31 && i < |sizes| && 0 <= sizes[i] <= |data| - pos
    ensures After(fs, Cut(data, pos, sizes[i..])) ==
      After(fs + [data[pos..pos + sizes[i]]], Cut(data, pos + sizes[i], sizes[i + 1..]))
  {
    assert sizes[i..][1..] == sizes[i + 1..];
    AfterOne(fs, data[pos..pos + sizes[i]], Cut(data, pos + sizes[i], sizes[i + 1..]));
  }

  lemma AfterOne(fs: seq<Frame>, f: Frame, r: Option<seq<Frame>>)
    ensures After(fs, After([f], r)) == After(fs + [f], r)
  {
    if r.Some? {
      assert fs + ([f] + r.value) == fs + [f] + r.value;
    }
  }
}
