/**
 Trees of EBML elements: predicted sizes and rendered bytes (libebml/src/EbmlMaster.cpp, lines
 90-159; EbmlElement.cpp, lines 587-648; EbmlUInteger.cpp; EbmlBinary.cpp).
 */
module EbmlTree {
  import opened Wrappers
  import opened Bytes
  import opened EbmlSize
  import Crc32

  /** An element identifier: the first byte tells its length. */
  type Id = s: seq<Byte> | 1 <= |s| <= 4 && FirstBit(s[0]) == |s| witness [0xBF]

  datatype Tree =
    | UInteger(id: Id, sizeLength: nat, defaultSize: nat, value: UInt64, default: Option<UInt64>)
    | Binary(id: Id, sizeLength: nat, data: seq<Byte>)
    | Master(id: Id, sizeLength: nat, checksum: bool, children: seq<Tree>)

  const CRC_ID: Id := [0xBF]

  /** Sizes that the source can code: at most eight bytes, of integers as of sizes. */
  predicate Legal(t: Tree) {
    && t.sizeLength <= 8
    && (t.UInteger? ==> t.defaultSize <= 8)
    && (t.Master? ==> forall i :: 0 <= i < |t.children| ==> Legal(t.children[i]))
  }

  predicate IsDefault(t: Tree) {
    match t
    case UInteger(_, _, _, value, default) => default == Some(value)
    case Binary(_, _, _) => false
    case Master(_, _, _, children) => |children| == 0
  }

  /** Elements with their default value are not written unless that is asked for. */
  predicate Skipped(t: Tree, withDefault: bool) {
    !withDefault && IsDefault(t)
  }

  // ---------- predicted sizes ----------

  function UIntegerSize(value: UInt64, defaultSize: nat): (n: nat)
    ensures 1 <= n && (defaultSize <= 8 ==> n <= 8)
  {
    var n :=
      if value <= 0xFF then 1
      else if value <= 0xFFFF then 2
      else if value <= 0xFF_FFFF then 3
      else if value <= 0xFFFF_FFFF then 4
      else if value <= 0xFF_FFFF_FFFF then 5
      else if value <= 0xFFFF_FFFF_FFFF then 6
      else if value <= 0xFF_FFFF_FFFF_FFFF then 7
      else 8;
    if defaultSize > n then defaultSize else n
  }

  lemma BytePowers()
    ensures Pow256(1) == 0x100 && Pow256(2) == 0x1_0000 && Pow256(3) == 0x100_0000 && Pow256(4) == 0x1_0000_0000
    ensures Pow256(5) == 0x100_0000_0000 && Pow256(6) == 0x1_0000_0000_0000 && Pow256(7) == 0x100_0000_0000_0000
    ensures Pow256(8) == 0x1_0000_0000_0000_0000 && Pow256(0) == 1
  {
  }

  /** An integer element holds its value, in as few bytes as the value and the default size allow. */
  lemma IntegerBack(value: UInt64, defaultSize: nat)
    requires defaultSize <= 8
    ensures var n := UIntegerSize(value, defaultSize);
      && BigEndian(LowBytes(value, n)) == value
      && n >= defaultSize && (n == 1 || n == defaultSize || value >= Pow256(n - 1))
  {
    hide Pow256, LowBytes;
    BytePowers();
    var n := UIntegerSize(value, defaultSize);
    assert n == 1 || n == 2 || n == 3 || n == 4 || n == 5 || n == 6 || n == 7 || n == 8;
    BigEndianOfLowBytes(value, n);
  }

  /** What UpdateSize must leave in the element. */
  function DataSize(t: Tree, withDefault: bool): nat
    decreases t, 1
  {
    match t
    case UInteger(_, _, defaultSize, value, _) => UIntegerSize(value, defaultSize)
    case Binary(_, _, data) => |data|
    case Master(_, _, checksum, children) =>
      ChildrenSize(t, withDefault, |children|) + if checksum then 6 else 0
  }

  function ChildrenSize(t: Tree, withDefault: bool, n: nat): nat
    requires t.Master? && n <= |t.children|
    decreases t, 0, n
  {
    if n == 0 then 0
    else ChildrenSize(t, withDefault, n - 1) + ElementSize(t.children[n - 1], withDefault)
  }

  function HeadWidth(t: Tree, withDefault: bool): (w: nat)
    ensures 1 <= w && (t.sizeLength <= 8 ==> w <= 8)
    decreases t, 2
  {
    CodedSizeLength(DataSize(t, withDefault), t.sizeLength, true)
  }

  function ElementSize(t: Tree, withDefault: bool): nat
    decreases t, 3
  {
    if Skipped(t, withDefault) then 0
    else DataSize(t, withDefault) + |t.id| + HeadWidth(t, withDefault)
  }

  // ---------- rendered bytes ----------

  function ToBits(bs: seq<Byte>): seq<bv8> {
    seq(|bs|, i requires 0 <= i < |bs| => bs[i] as bv8)
  }

  /** A checksum in memory order. */
  function WordBytes(c: bv32): (bs: seq<Byte>)
    ensures |bs| == 4
  {
    [Crc32.Low(c) as int, Crc32.Low(c >> 8) as int, Crc32.Low(c >> 16) as int, Crc32.Low(c >> 24) as int]
  }

  /** The checksum element of a body: head and four bytes. */
  function ChecksumElement(body: seq<Byte>): (bs: seq<Byte>)
    ensures |bs| == 6
  {
    CRC_ID + Coded(4, 1) + WordBytes(Crc32.CrcOf(ToBits(body)))
  }

  function Data(t: Tree, withDefault: bool): seq<Byte>
    requires Legal(t)
    decreases t, 1
  {
    match t
    case UInteger(_, _, defaultSize, value, _) => LowBytes(value, UIntegerSize(value, defaultSize))
    case Binary(_, _, data) => data
    case Master(_, _, checksum, children) =>
      var body := Body(t, withDefault, |children|);
      (if checksum then ChecksumElement(body) else []) + body
  }

  /** The first n children, rendered one after the other. */
  function Body(t: Tree, withDefault: bool, n: nat): seq<Byte>
    requires Legal(t) && t.Master? && n <= |t.children|
    decreases t, 0, n
  {
    if n == 0 then [] else Body(t, withDefault, n - 1) + Rendered(t.children[n - 1], withDefault)
  }

  function Head(t: Tree, withDefault: bool): seq<Byte>
    requires Legal(t)
  {
    t.id + Coded(DataSize(t, withDefault), HeadWidth(t, withDefault))
  }

  function Rendered(t: Tree, withDefault: bool): seq<Byte>
    requires Legal(t)
    decreases t, 2
  {
    if Skipped(t, withDefault) then [] else Head(t, withDefault) + Data(t, withDefault)
  }

  // ---------- predictions are exact ----------

  /** At every level the predicted sizes are those of the rendered bytes. */
  lemma {:induction false} SizesAreExact(t: Tree, withDefault: bool)
    requires Legal(t)
    ensures |Data(t, withDefault)| == DataSize(t, withDefault)
    ensures |Rendered(t, withDefault)| == ElementSize(t, withDefault)
    decreases t, 1
  {
    hide Coded, ChecksumElement;
    if t.Master? {
      BodyIsExact(t, withDefault, |t.children|);
    }
  }

  lemma {:induction false} BodyIsExact(t: Tree, withDefault: bool, n: nat)
    requires Legal(t) && t.Master? && n <= |t.children|
    ensures |Body(t, withDefault, n)| == ChildrenSize(t, withDefault, n)
    decreases t, 0, n
  {
    hide Head, Data, Rendered, ElementSize;
    if n > 0 {
      BodyIsExact(t, withDefault, n - 1);
      SizesAreExact(t.children[n - 1], withDefault);
    }
  }

  /**
   Identifier, size and data follow each other, and the size takes the least width that can tell it
   from "unknown", unless a longer one is asked for; five bytes are the most it is given by itself.
   */
  lemma HeadIsShortest(t: Tree, withDefault: bool, c: Width)
    requires Legal(t) && Rendered(t, withDefault) != []
    ensures var out, n := Rendered(t, withDefault), |Data(t, withDefault)|;
      var w := |out| - |t.id| - n;
      && 1 <= w <= 8 && w >= t.sizeLength && out[..|t.id|] == t.id && out[|t.id| + w..] == Data(t, withDefault)
      && (w > 5 ==> w == t.sizeLength)
      && (t.sizeLength <= c < w ==> n >= Unknown(c))
      && (w < 5 ==> n < Unknown(w))
  {
    hide Data, Coded, DataSize, Unknown;
    SizesAreExact(t, withDefault);
    WidthOf(DataSize(t, withDefault), t.sizeLength, c);
    var out, code := Rendered(t, withDefault), Coded(DataSize(t, withDefault), HeadWidth(t, withDefault));
    assert out == t.id + code + Data(t, withDefault);
  }

  lemma WidthOf(v: nat, sizeLength: nat, c: Width)
    requires sizeLength <= 8
    ensures var w := CodedSizeLength(v, sizeLength, true);
      && w >= sizeLength && (w > 5 ==> w == sizeLength) && (sizeLength <= c < w ==> v >= Unknown(c))
      && (w < 5 ==> v < Unknown(w))
  {
    hide Unknown;
    ShortestWidth(v, c);
    var w := CodedSizeLength(v, sizeLength, true);
    ShortestWidth(v, w);
  }

  // ---------- a length-prefixed decoder as the reference ----------

  datatype Item = Item(id: seq<Byte>, data: seq<Byte>)

  /** The first element of bs, and what follows it. */
  function ReadItem(bs: seq<Byte>): (r: Option<(Item, seq<Byte>)>)
    ensures r.Some? ==> |r.value.1| < |bs|
  {
    if |bs| == 0 || FirstBit(bs[0]) > 4 || FirstBit(bs[0]) > |bs| then None
    else
      var n := FirstBit(bs[0]);
      var s := ReadCoded(bs[n..]);
      if s.used == 0 || s.value == s.unknown || !(0 <= s.value <= |bs| - n - s.used) then None
      else Some((Item(bs[..n], bs[n + s.used..n + s.used + s.value]), bs[n + s.used + s.value..]))
  }

  function Split(bs: seq<Byte>): Option<seq<Item>>
    decreases |bs|
  {
    if |bs| == 0 then Some([])
    else match ReadItem(bs)
      case None => None
      case Some((item, rest)) =>
        match Split(rest)
        case None => None
        case Some(items) => Some([item] + items)
  }

  /** The items that the children from i on should give. */
  function Items(t: Tree, withDefault: bool, i: nat): seq<Item>
    requires Legal(t) && t.Master? && i <= |t.children|
    decreases |t.children| - i
  {
    if i == |t.children| then []
    else
      var c := t.children[i];
      (if Skipped(c, withDefault) then [] else [Item(c.id, Data(c, withDefault))]) + Items(t, withDefault, i + 1)
  }

  function Tail(t: Tree, withDefault: bool, i: nat): seq<Byte>
    requires Legal(t) && t.Master? && i <= |t.children|
    decreases |t.children| - i
  {
    if i == |t.children| then [] else Rendered(t.children[i], withDefault) + Tail(t, withDefault, i + 1)
  }

  /** Sizes that the coding can express in the width that is used. */
  predicate Codable(t: Tree, withDefault: bool)
    requires Legal(t)
  {
    DataSize(t, withDefault) < if t.sizeLength > 5 then Unknown(t.sizeLength) else Unknown(5)
  }

  lemma BodyStep(t: Tree, withDefault: bool, n: nat)
    requires t.Master? && Legal(t) && n < |t.children|
    ensures Legal(t.children[n])
    ensures Body(t, withDefault, n + 1) == Body(t, withDefault, n) + Rendered(t.children[n], withDefault)
    ensures !withDefault && IsDefault(t.children[n]) ==> Rendered(t.children[n], withDefault) == []
  {
  }

  lemma {:induction false} BodyTail(t: Tree, withDefault: bool, i: nat)
    requires Legal(t) && t.Master? && i <= |t.children|
    ensures Body(t, withDefault, |t.children|) == Body(t, withDefault, i) + Tail(t, withDefault, i)
    decreases |t.children| - i
  {
    hide Rendered, Body, Legal;
    if i < |t.children| {
      BodyStep(t, withDefault, i);
      BodyTail(t, withDefault, i + 1);
      Regroup(Body(t, withDefault, i), Rendered(t.children[i], withDefault), Tail(t, withDefault, i + 1));
    }
  }

  lemma Regroup(a: seq<Byte>, b: seq<Byte>, c: seq<Byte>)
    ensures a + b + c == a + (b + c)
  {
  }

  /** A head whose length is exact delimits the data, whatever follows them. */
  lemma Framed(id: Id, w: Width, data: seq<Byte>, rest: seq<Byte>)
    requires |data| < Unknown(w)
    ensures ReadItem(id + Coded(|data|, w) + data + rest) == Some((Item(id, data), rest))
  {
    hide Coded, ReadCoded, FirstBit, Range;
    var bs, code := id + Coded(|data|, w) + data + rest, Coded(|data|, w);
    RoundTripIff(|data|, w, data + rest);
    assert bs[|id|..] == code + (data + rest);
    assert bs[..|id|] == id;
    var k := |id| + |code|;
    assert bs[k..k + |data|] == data;
    assert bs[k + |data|..] == rest;
  }

  /** Exactly the lengths below the range of the width are delimited rightly. */
  lemma FramedIff(id: Id, w: Width, data: seq<Byte>, rest: seq<Byte>)
    ensures var r := ReadItem(id + Coded(|data|, w) + data + rest);
      r.Some? && r.value.0.id == id && r.value.1 == rest <==> |data| < Unknown(w)
  {
    hide Coded, ReadCoded, FirstBit, Range;
    var bs, code := id + Coded(|data|, w) + data + rest, Coded(|data|, w);
    if |data| < Unknown(w) {
      Framed(id, w, data, rest);
    } else {
      RoundTripIff(|data|, w, data + rest);
      assert bs[|id|..] == code + (data + rest);
    }
  }

  /** Whatever the length, no item reaches beyond the length that was written. */
  lemma FramedAtMost(id: Id, w: Width, n: nat, tail: seq<Byte>)
    ensures var r := ReadItem(id + Coded(n, w) + tail); r.Some? ==> |tail| <= n + |r.value.1|
  {
    hide Coded, ReadCoded, FirstBit, Range;
    var bs := id + Coded(n, w) + tail;
    ReadBack(n, w, tail);
    assert bs[|id|..] == Coded(n, w) + tail;
    RemainderAtMost(n, Range(w));
  }

  lemma RemainderAtMost(n: nat, m: nat)
    requires m > 0
    ensures n % m <= n
  {
    if n < m {
      assert n % m == n;
    }
  }

  /** A rendered element is read back whole. */
  lemma ItemBack(c: Tree, withDefault: bool, rest: seq<Byte>)
    requires Legal(c) && !Skipped(c, withDefault) && Codable(c, withDefault)
    ensures ReadItem(Rendered(c, withDefault) + rest) == Some((Item(c.id, Data(c, withDefault)), rest))
  {
    hide Coded, Data, DataSize, ReadItem, Range;
    SizesAreExact(c, withDefault);
    WidthSuffices(DataSize(c, withDefault), c.sizeLength);
    Framed(c.id, HeadWidth(c, withDefault), Data(c, withDefault), rest);
  }

  lemma WidthSuffices(v: nat, sizeLength: nat)
    requires sizeLength <= 8 && v < if sizeLength > 5 then Unknown(sizeLength) else Unknown(5)
    ensures v < Unknown(CodedSizeLength(v, sizeLength, true))
  {
    RoundTripChosen(v, sizeLength, []);
    RoundTripIff(v, CodedSizeLength(v, sizeLength, true), []);
  }

  /** The data of a master split into exactly its rendered children. */
  lemma {:induction false} TailSplits(t: Tree, withDefault: bool, i: nat)
    requires Legal(t) && t.Master? && i <= |t.children|
    requires forall j :: 0 <= j < |t.children| ==> Codable(t.children[j], withDefault)
    ensures Split(Tail(t, withDefault, i)) == Some(Items(t, withDefault, i))
    decreases |t.children| - i
  {
    hide Rendered, ReadItem, Codable;
    if i < |t.children| {
      var c, rest := t.children[i], Tail(t, withDefault, i + 1);
      TailSplits(t, withDefault, i + 1);
      if Skipped(c, withDefault) {
        NotRendered(c, withDefault);
        assert [] + rest == rest;
        assert [] + Items(t, withDefault, i + 1) == Items(t, withDefault, i + 1);
      } else {
        ItemBack(c, withDefault, rest);
      }
    }
  }

  lemma NotRendered(c: Tree, withDefault: bool)
    requires Legal(c) && Skipped(c, withDefault)
    ensures Rendered(c, withDefault) == []
  {
  }

  /**
   The head of a master spans exactly its children: its data split into them in order, after the
   checksum element if there is one.
   */
  lemma MasterSplits(t: Tree, withDefault: bool)
    requires Legal(t) && t.Master?
    requires forall j :: 0 <= j < |t.children| ==> Codable(t.children[j], withDefault)
    ensures var body := Body(t, withDefault, |t.children|);
      Split(Data(t, withDefault)) == Some(
        (if t.checksum then [Item(CRC_ID, WordBytes(Crc32.CrcOf(ToBits(body))))] else []) + Items(t, withDefault, 0))
  {
    hide ReadItem, WordBytes, Split, Items, Body;
    var body := Body(t, withDefault, |t.children|);
    BodyTail(t, withDefault, 0);
    NoBody(t, withDefault);
    assert Body(t, withDefault, 0) + Tail(t, withDefault, 0) == Tail(t, withDefault, 0);
    TailSplits(t, withDefault, 0);
    assert [] + body == body;
    assert [] + Items(t, withDefault, 0) == Items(t, withDefault, 0);
    if t.checksum {
      ChecksumBack(body);
      SplitOne(ChecksumElement(body) + body, Item(CRC_ID, WordBytes(Crc32.CrcOf(ToBits(body)))), body);
    }
  }

  lemma NoBody(t: Tree, withDefault: bool)
    requires Legal(t) && t.Master?
    ensures Body(t, withDefault, 0) == []
  {
  }

  lemma SplitOne(bs: seq<Byte>, item: Item, rest: seq<Byte>)
    requires ReadItem(bs) == Some((item, rest)) && Split(rest).Some? && |bs| > 0
    ensures Split(bs) == Some([item] + Split(rest).value)
  {
  }

  lemma ChecksumBack(body: seq<Byte>)
    ensures ReadItem(ChecksumElement(body) + body) == Some((Item(CRC_ID, WordBytes(Crc32.CrcOf(ToBits(body)))), body))
  {
    hide Coded, ReadItem, WordBytes;
    RangeValues();
    Framed(CRC_ID, 1, WordBytes(Crc32.CrcOf(ToBits(body))), body);
  }
}
