/** libebml/src/EbmlVoid.cpp: replacing a void element in place and filling the rest with another void. */
module EbmlVoid {
  import opened Wrappers
  import opened Bytes
  import opened EbmlSize
  import opened EbmlTree
  import opened ByteStream
  import opened EbmlMaster

  const VOID_ID: Id := [0xEC]

  /** Data size and width of the filler for a gap of n bytes. */
  function Filler(n: nat): (f: (nat, nat))
    requires n >= 2
  {
    var size := n - 1;
    var width := CodedSizeLength(size, 0, true);
    FillerFits(n);
    (size - width, width)
  }

  lemma FillerFits(n: nat)
    requires n >= 2
    ensures CodedSizeLength(n - 1, 0, true) <= n - 1
  {
  }

  /** The head of the filler. */
  function FillerHead(n: nat): seq<Byte>
    requires n >= 2
  {
    VOID_ID + Coded(Filler(n).0, Filler(n).1)
  }

  /**
   Head and data of the filler span exactly the gap, across every change of width; a reader of the
   head takes the whole gap for one void element exactly up to 2^35 + 4 bytes.
   */
  lemma FillerIsExact(n: nat, data: seq<Byte>, rest: seq<Byte>)
    requires n >= 2 && |data| == Filler(n).0
    ensures |FillerHead(n)| + |data| == n
    ensures FindsVoid(FillerHead(n) + data + rest, rest) <==> n <= Unknown(5) + 5
  {
    hide Coded, ReadItem, Range;
    RangeValues();
    FillerStart(n);
    FramedIff(VOID_ID, Filler(n).1, data, rest);
    FillerReadable(n);
  }

  lemma FillerReadable(n: nat)
    requires n >= 2
    ensures Filler(n).0 < Unknown(Filler(n).1) <==> n <= Unknown(5) + 5
  {
    hide Range;
    RangeValues();
  }

  predicate FindsVoid(bs: seq<Byte>, rest: seq<Byte>) {
    var r := ReadItem(bs);
    r.Some? && r.value.0.id == VOID_ID && r.value.1 == rest
  }

  class EbmlVoid {
    const elementPosition: nat
    const size: nat
    const sizeLength: nat

    constructor (p: nat, s: nat, w: nat)
      requires w <= 8
      ensures elementPosition == p && size == s && sizeLength == w
    {
      elementPosition, size, sizeLength := p, s, w;
    }

    function HeadSize(): (n: nat)
      ensures n >= 2
    {
      |VOID_ID| + CodedSizeLength(size, sizeLength, true)
    }

    /** The bytes that the void element occupies. */
    function Total(): (n: nat)
      ensures n >= 2
    {
      HeadSize() + size
    }
  }

  /** The filler as an object whose size and width are corrected step by step. */
  method MakeFiller(gap: nat) returns (size: nat, width: nat)
    requires gap >= 2
    ensures (size, width) == Filler(gap)
  {
    var sizeLength := 0;
    size := gap - 1;
    var headBefore := 1 + CodedSizeLength(size, sizeLength, true);
    FillerFits(gap);
    size := size - CodedSizeLength(size, sizeLength, true);
    var headAfter := 1 + CodedSizeLength(size, sizeLength, true);
    if headBefore != headAfter {
      sizeLength := CodedSizeLength(size, sizeLength, true) - (headAfter - headBefore);
    }
    width := CodedSizeLength(size, sizeLength, true);
  }

  method WriteFiller(gap: nat, out: Stream)
    requires gap >= 2 && out.pos <= |out.data|
    modifies out
    ensures |FillerHead(gap)| <= gap
    ensures out.data == Written(old(out.data), old(out.pos), FillerHead(gap)) && out.pos == old(out.pos) + |FillerHead(gap)|
  {
    var size, width := MakeFiller(gap);
    FillerStart(gap);
    var buffer := new Byte[8];
    var k := CodedValueLength(size, width, buffer);
    out.Write(VOID_ID + buffer[..k]);
  }

  /** The head that is written behind the element: none if at most one byte is thought to be left. */
  function FillerOf(gap: nat): (h: seq<Byte>)
    ensures |h| <= gap
  {
    if gap < 2 then [] else
      FillerStart(gap);
      FillerHead(gap)
  }

  /** What the file holds after the replacement, for an element that was thought to need `need` bytes. */
  ghost predicate Replaced(before: seq<Byte>, after: seq<Byte>, p: nat, total: nat, need: nat, element: seq<Byte>) {
    && p + total <= |before| == |after| && |element| <= need <= total
    && after[..p] == before[..p] && after[p..p + |element|] == element
    && var k := p + |element| + |FillerOf(total - need)|;
      && k <= |after| && after[p + |element|..k] == FillerOf(total - need) && after[k..] == before[k..]
  }

  /**
   ReplaceWith.  It refuses, with zero, exactly the elements that are too large or leave a single
   byte.  An element that is skipped because it holds its default writes nothing, but the filler is
   made for what its size field says.
   */
  method ReplaceWith(v: EbmlVoid, e: EbmlElement, out: Stream, comeBack: bool, withDefault: bool, ghost repr: set<EbmlElement>)
    returns (n: nat, ghost need: nat)
    requires e in repr && Closed(repr) && AllSettled(repr)
    requires v.elementPosition + v.Total() <= |out.data| && out.pos <= |out.data|
    modifies repr`size, set x <- repr :: x.checksum, out
    ensures need >= 2 && (!Skipped(e.tree, withDefault) ==> need == ElementSize(e.tree, withDefault))
    ensures n == if v.Total() < need || v.Total() == need + 1 then 0 else v.Total()
    ensures n == 0 ==> out.data == old(out.data) && out.pos == old(out.pos)
    ensures n > 0 ==>
      Replaced(old(out.data), out.data, v.elementPosition, v.Total(), need, Rendered(e.tree, withDefault))
    ensures n > 0 && comeBack ==> out.pos == old(out.pos)
  {
    hide ElementSize, Skipped, Closed, Height, Rendered, Written, Replaced, FillerOf, Legal, AllSettled;
    Self(repr, e);
    var size := NeededBytes(e, withDefault, repr);
    var total := v.HeadSize() + v.size;
    need := size;
    if total < size || total - size == 1 {
      return 0, need;
    }
    RenderedNeed(e.tree, withDefault, need);
    var currentPosition, left := out.pos, total - size;
    WriteOver(e, out, v.elementPosition, left, withDefault, repr);
    BothWritten(old(out.data), v.elementPosition, total, need, Rendered(e.tree, withDefault));
    if comeBack {
      out.SetFilePointer(currentPosition);
    }
    n := v.size + v.HeadSize();
  }

  /** Head and data of the element by its own fields, once they are up to date. */
  method NeededBytes(e: EbmlElement, withDefault: bool, ghost repr: set<EbmlElement>) returns (need: nat)
    requires e in repr && Closed(repr) && AllSettled(repr)
    modifies repr`size
    ensures AllSettled(repr) && need >= 2
    ensures !Skipped(e.tree, withDefault) ==> need == ElementSize(e.tree, withDefault)
  {
    hide Closed, DataSize, AllSettled;
    Self(repr, e);
    UpdateSize(e, withDefault, repr);
    need := e.size + |e.id| + CodedSizeLength(e.size, e.sizeLength, true);
  }

  /** Element and filler, written from position p on. */
  method WriteOver(e: EbmlElement, out: Stream, p: nat, left: nat, withDefault: bool, ghost repr: set<EbmlElement>)
    requires e in repr && Closed(repr) && AllSettled(repr) && p <= |out.data| && Legal(e.tree)
    modifies repr`size, set x <- repr :: x.checksum, out
    ensures var r := Rendered(e.tree, withDefault);
      && p + |r| <= |Written(old(out.data), p, r)|
      && out.data == Written(Written(old(out.data), p, r), p + |r|, FillerOf(left))
  {
    hide Closed, Height, Rendered, Written, FillerHead, Legal, AllSettled;
    out.SetFilePointer(p);
    var m := Render(e, withDefault, out, repr);
    if left > 1 {
      WriteFiller(left, out);
    } else {
      WrittenNothing(out.data, out.pos);
    }
  }

  lemma RenderedNeed(t: Tree, withDefault: bool, need: nat)
    requires Legal(t) && (!Skipped(t, withDefault) ==> need == ElementSize(t, withDefault))
    ensures |Rendered(t, withDefault)| == if Skipped(t, withDefault) then 0 else need
  {
    hide Head, Data, DataSize;
    SizesAreExact(t, withDefault);
  }

  lemma FillerStart(n: nat)
    requires n >= 2
    ensures 1 <= Filler(n).1 <= 5 && |FillerHead(n)| == 1 + Filler(n).1 <= n
  {
  }

  lemma BothWritten(before: seq<Byte>, p: nat, total: nat, need: nat, element: seq<Byte>)
    requires p + total <= |before| && |element| <= need <= total
    ensures Replaced(before, Written(Written(before, p, element), p + |element|, FillerOf(total - need)), p, total, need, element)
  {
    var head := FillerOf(total - need);
    hide FillerOf;
    WrittenTwice(before, p, element, head);
    var after := Written(before, p, element + head);
    assert after == before[..p] + (element + head) + before[p + |element + head|..];
    assert after[p..p + |element|] == element;
    assert after[p + |element|..p + |element| + |head|] == head;
    assert p + |element + head| == p + |element| + |head|;
  }

  /**
   A reader of the file finds the element, then one void element that ends exactly where the old
   void ended (if that is not too long to be coded), then whatever followed it before.
   */
  lemma ReplacedReadsBack(before: seq<Byte>, after: seq<Byte>, p: nat, total: nat, t: Tree, withDefault: bool)
    requires Legal(t) && !Skipped(t, withDefault) && Codable(t, withDefault)
    requires var need := ElementSize(t, withDefault);
      total != need + 1 && Replaced(before, after, p, total, need, Rendered(t, withDefault))
    ensures var k := p + ElementSize(t, withDefault);
      && k <= p + total <= |after|
      && ReadItem(after[p..]) == Some((Item(t.id, Data(t, withDefault)), after[k..]))
      && (k == p + total ==> after[k..] == before[p + total..])
      && (k < p + total ==> (FindsVoid(after[k..], before[p + total..]) <==> p + total - k <= Unknown(5) + 5))
  {
    hide Rendered, ReadItem, Codable, Range, FillerHead, Filler, Data, FindsVoid;
    var element := Rendered(t, withDefault);
    SizesAreExact(t, withDefault);
    var k, gap := p + |element|, total - |element|;
    assert after[p..] == element + after[k..];
    ItemBack(t, withDefault, after[k..]);
    if gap > 1 {
      FillerStart(gap);
      FillerSize(gap);
      GapFilled(before, after, k, gap);
    }
  }

  // A filler for the whole gap is read as one void element.
  lemma GapFilled(before: seq<Byte>, after: seq<Byte>, k: nat, gap: nat)
    requires gap >= 2 && k + gap <= |after| == |before| && |FillerHead(gap)| <= gap
    requires after[k..k + |FillerHead(gap)|] == FillerHead(gap)
    requires after[k + |FillerHead(gap)|..] == before[k + |FillerHead(gap)|..]
    ensures FindsVoid(after[k..], before[k + gap..]) <==> gap <= Unknown(5) + 5
  {
    hide ReadItem, Range, FillerHead, Filler, FindsVoid;
    var head := FillerHead(gap);
    FillerSize(gap);
    var data := after[k + |head|..k + gap];
    assert after[k..] == head + data + after[k + gap..];
    assert after[k + gap..] == after[k + |head|..][gap - |head|..] == before[k + |head|..][gap - |head|..] == before[k + gap..];
    FillerIsExact(gap, data, after[k + gap..]);
  }

  /**
   If the element was skipped and a filler is written, that ends too early: by as many bytes as the
   element was thought to need.
   */
  lemma SkippedFallsShort(before: seq<Byte>, after: seq<Byte>, p: nat, total: nat, need: nat, t: Tree, withDefault: bool)
    requires Legal(t) && Skipped(t, withDefault) && need >= 2 && need + 2 <= total
    requires Replaced(before, after, p, total, need, Rendered(t, withDefault))
    ensures FindsVoid(after[p..], before[p + total - need..]) <==> total - need <= Unknown(5) + 5
    ensures p + total - need < p + total
  {
    hide ReadItem, Range, FillerHead, Filler, FindsVoid;
    NotRendered(t, withDefault);
    FillerStart(total - need);
    GapFilled(before, after, p, total - need);
  }

  /** Behind the element a reader finds nothing, or one void, up to where the old void ended. */
  ghost predicate FitsExactly(before: seq<Byte>, after: seq<Byte>, p: nat, total: nat, element: seq<Byte>) {
    var k := p + |element|;
    && k <= p + total <= |after| && p + total <= |before|
    && (if k == p + total then after[k..] == before[k..] else FindsVoid(after[k..], before[p + total..]))
  }

  /**
   The replacement fits exactly if and only if nothing is left to fill, or the element is rendered
   and what is left can be coded as one void.  Nothing is left to fill, too, if a skipped element
   was thought to need the whole void: then nothing is written, and the old void stays.
   */
  lemma FitsExactlyIff(before: seq<Byte>, after: seq<Byte>, p: nat, total: nat, need: nat, t: Tree, withDefault: bool)
    requires Legal(t) && Codable(t, withDefault) && (!Skipped(t, withDefault) ==> need == ElementSize(t, withDefault))
    requires 2 <= need && total != need + 1 && Replaced(before, after, p, total, need, Rendered(t, withDefault))
    requires FindsVoid(before[p..], before[p + total..])
    ensures FitsExactly(before, after, p, total, Rendered(t, withDefault)) <==>
      total == need || (!Skipped(t, withDefault) && total - need <= Unknown(5) + 5)
  {
    hide Rendered, Codable, Range, Unknown, FillerHead, Filler, FindsVoid, Legal, ElementSize, Skipped;
    if !Skipped(t, withDefault) {
      RenderedNeed(t, withDefault, need);
      ReplacedReadsBack(before, after, p, total, t, withDefault);
    } else {
      NotRendered(t, withDefault);
      if total == need {
        Untouched(before, after, p);
      } else {
        StartsWithFiller(after, p, total - need);
        if FindsVoid(after[p..], before[p + total..]) {
          FillerEnds(total - need, after[p..], before[p + total..]);
        }
      }
    }
  }

  lemma Untouched(before: seq<Byte>, after: seq<Byte>, p: nat)
    requires p <= |before| == |after| && after[..p] == before[..p] && after[p..] == before[p..]
    ensures after == before
  {
    assert after == after[..p] + after[p..];
    assert before == before[..p] + before[p..];
  }

  lemma StartsWithFiller(after: seq<Byte>, p: nat, gap: nat)
    requires gap >= 2 && p + |FillerHead(gap)| <= |after| && after[p..p + |FillerHead(gap)|] == FillerHead(gap)
    ensures FillerHead(gap) <= after[p..]
  {
    hide FillerHead;
    assert after[p..][..|FillerHead(gap)|] == FillerHead(gap);
  }

  // A void behind such a head spans no more than the gap.
  lemma FillerEnds(gap: nat, bs: seq<Byte>, rest: seq<Byte>)
    requires gap >= 2 && FillerHead(gap) <= bs && FindsVoid(bs, rest)
    ensures |bs| <= gap + |rest|
  {
    hide ReadItem, Filler;
    FillerSize(gap);
    var head := FillerHead(gap);
    FillerWidth(gap);
    FramedAtMost(VOID_ID, Filler(gap).1, Filler(gap).0, bs[|head|..]);
    assert head + bs[|head|..] == bs;
  }

  lemma FillerWidth(gap: nat)
    requires gap >= 2
    ensures 1 <= Filler(gap).1 <= 5
  {
  }

  /** A skipped element of three bytes on a void of ten: the filler spans seven bytes, and three are stray. */
  lemma SkippedLeavesStray(before: seq<Byte>, after: seq<Byte>)
    requires before == [0xEC, 0x88, 0, 0, 0, 0, 0, 0, 0, 0] && after == [0xEC, 0x85, 0, 0, 0, 0, 0, 0, 0, 0]
    ensures Replaced(before, after, 0, 10, 3, []) && FindsVoid(before, [])
    ensures FindsVoid(after, [0, 0, 0]) && !FindsVoid(after, [])
  {
    hide FindsVoid, Filler, FillerHead, Unknown, Range;
    SmallFiller(7);
    SmallFiller(10);
    FillerIsExact(7, [0, 0, 0, 0, 0], [0, 0, 0]);
    FillerIsExact(10, [0, 0, 0, 0, 0, 0, 0, 0], []);
    assert FillerHead(7) + [0, 0, 0, 0, 0] + [0, 0, 0] == after;
    assert FillerHead(10) + [0, 0, 0, 0, 0, 0, 0, 0] + [] == before;
    assert after[0..] == after && after[7..] == [0, 0, 0] && after[10..] == [];
    StartsWithFiller(after, 0, 7);
    if FindsVoid(after, []) {
      FillerEnds(7, after, []);
    }
  }

  lemma SmallFiller(n: nat)
    requires 2 <= n <= 100
    ensures Filler(n) == (n - 2, 1) && FillerHead(n) == [0xEC, 0x80 + (n - 2)] && n <= Unknown(5) + 5
  {
  }

  /** Such an element: an integer with its default value, whose size field still says one byte. */
  lemma DefaultIsSkipped(t: Tree)
    requires t == UInteger([0x86], 0, 0, 1, Some(1))
    ensures Legal(t) && Skipped(t, false) && Rendered(t, false) == [] && ElementSize(t, true) == 3
  {
  }

  lemma FillerSize(n: nat)
    requires n >= 2
    ensures |FillerHead(n)| + Filler(n).0 == n
  {
  }
}
