/**
 Elements as objects that keep their own data size up to date, and render themselves
 (libebml/src/EbmlMaster.cpp, EbmlElement.cpp, EbmlUInteger.cpp, EbmlBinary.cpp).
 */
module EbmlMaster {
  import opened Wrappers
  import opened Bytes
  import opened EbmlSize
  import opened EbmlTree
  import opened ByteStream
  import Crc32

  /** What an element holds; a master holds the list of its children. */
  datatype Content =
    | UIntegerContent(defaultSize: nat, value: UInt64, default: Option<UInt64>)
    | BinaryContent(data: seq<Byte>)
    | MasterContent(checksumUsed: bool, list: seq<EbmlElement>)

  function Height(t: Tree): nat {
    if t.Master? then 1 + MaxHeight(t, |t.children|) else 0
  }

  function MaxHeight(t: Tree, n: nat): (h: nat)
    requires t.Master? && n <= |t.children|
    ensures forall i :: 0 <= i < n ==> Height(t.children[i]) <= h
    decreases t, 0, n
  {
    if n == 0 then 0
    else
      var h := MaxHeight(t, n - 1);
      var k := Height(t.children[n - 1]);
      if k > h then k else h
  }

  class EbmlElement {
    const id: Id
    const sizeLength: nat
    const content: Content
    const checksum: Crc32.EbmlCrc32
    ghost const tree: Tree
    var size: nat

    constructor UInteger(i: Id, sl: nat, ds: nat, v: UInt64, d: Option<UInt64>)
      ensures tree == Tree.UInteger(i, sl, ds, v, d) && Agrees()
    {
      id, sizeLength, content := i, sl, UIntegerContent(ds, v, d);
      tree := Tree.UInteger(i, sl, ds, v, d);
      size := ds;
      checksum := new Crc32.EbmlCrc32();
    }

    constructor Binary(i: Id, sl: nat, bs: seq<Byte>)
      ensures tree == Tree.Binary(i, sl, bs) && Agrees() && Settled()
    {
      id, sizeLength, content := i, sl, BinaryContent(bs);
      tree := Tree.Binary(i, sl, bs);
      size := |bs|;
      checksum := new Crc32.EbmlCrc32();
    }

    constructor Master(i: Id, sl: nat, useChecksum: bool, elements: seq<EbmlElement>)
      ensures tree == Tree.Master(i, sl, useChecksum, seq(|elements|, k requires 0 <= k < |elements| => elements[k].tree))
      ensures Agrees()
    {
      id, sizeLength, content := i, sl, MasterContent(useChecksum, elements);
      tree := Tree.Master(i, sl, useChecksum, seq(|elements|, k requires 0 <= k < |elements| => elements[k].tree));
      size := 0;
      checksum := new Crc32.EbmlCrc32();
    }

    /** The fields are those of the tree that the element stands for. */
    ghost predicate Agrees() {
      && id == tree.id && sizeLength == tree.sizeLength
      && (content.UIntegerContent? <==> tree.UInteger?) && (content.BinaryContent? <==> tree.Binary?)
      && match content
         case UIntegerContent(ds, v, d) => ds == tree.defaultSize && v == tree.value && d == tree.default
         case BinaryContent(bs) => bs == tree.data
         case MasterContent(c, l) =>
           c == tree.checksum && |l| == |tree.children| && forall k :: 0 <= k < |l| ==> l[k].tree == tree.children[k]
    }

    /** Only integers and masters compute their size; binary data always have theirs. */
    ghost predicate Settled()
      reads this
    {
      content.BinaryContent? ==> size == |content.data|
    }

    predicate IsDefaultValue()
      ensures Agrees() ==> IsDefaultValue() == IsDefault(tree)
    {
      match content
      case UIntegerContent(_, v, d) => d == Some(v)
      case BinaryContent(_) => false
      case MasterContent(_, l) => |l| == 0
    }
  }

  /** A set of elements that holds, with each master, all its children. */
  ghost predicate Closed(repr: set<EbmlElement>) {
    && (forall e <- repr :: e.Agrees() && Legal(e.tree))
    && (forall e <- repr :: e.content.MasterContent? ==> forall k :: 0 <= k < |e.content.list| ==> e.content.list[k] in repr)
  }

  ghost predicate AllSettled(repr: set<EbmlElement>)
    reads repr
  {
    forall e <- repr :: e.Settled()
  }

  // What a closed set says of one child.
  lemma Child(repr: set<EbmlElement>, e: EbmlElement, k: nat)
    requires e in repr && Closed(repr) && e.content.MasterContent? && k < |e.content.list|
    ensures var c := e.content.list[k];
      && c in repr && c.Agrees() && c != e
      && e.tree.Master? && |e.content.list| == |e.tree.children| && e.tree.children[k] == c.tree
      && Height(c.tree) < Height(e.tree)
  {
  }

  lemma Self(repr: set<EbmlElement>, e: EbmlElement)
    requires e in repr && Closed(repr)
    ensures e.Agrees() && Legal(e.tree)
    ensures e.content.MasterContent? ==>
      e.tree.Master? && |e.content.list| == |e.tree.children| && e.content.checksumUsed == e.tree.checksum
  {
  }

  // ---------- sizes ----------

  /** ElementSize from the size field. */
  method ElementSizeOf(e: EbmlElement, withDefault: bool) returns (n: nat)
    requires e.Agrees() && (!Skipped(e.tree, withDefault) ==> e.size == DataSize(e.tree, withDefault))
    ensures n == EbmlTree.ElementSize(e.tree, withDefault)
  {
    if !withDefault && e.IsDefaultValue() {
      return 0;
    }
    n := e.size + |e.id| + CodedSizeLength(e.size, e.sizeLength, true);
  }

  method UpdateSize(e: EbmlElement, withDefault: bool, ghost repr: set<EbmlElement>)
    requires e in repr && Closed(repr) && AllSettled(repr)
    modifies repr`size
    ensures AllSettled(repr)
    ensures !Skipped(e.tree, withDefault) || e.tree.Master? ==> e.size == DataSize(e.tree, withDefault)
    ensures forall x <- repr :: x != e && Height(x.tree) >= Height(e.tree) ==> x.size == old(x.size)
    decreases Height(e.tree), 1
  {
    match e.content {
      case UIntegerContent(defaultSize, value, _) =>
        if !withDefault && e.IsDefaultValue() {
          return;
        }
        e.size := UIntegerSize(value, defaultSize);
      case BinaryContent(_) =>
      case MasterContent(_, _) =>
        UpdateMaster(e, withDefault, repr);
    }
  }

  lemma MasterSize(t: Tree, withDefault: bool)
    requires t.Master?
    ensures ChildrenSize(t, withDefault, 0) == 0
    ensures DataSize(t, withDefault) == ChildrenSize(t, withDefault, |t.children|) + if t.checksum then 6 else 0
  {
  }

  lemma ChildrenSizeStep(t: Tree, withDefault: bool, n: nat)
    requires t.Master? && n < |t.children|
    ensures ChildrenSize(t, withDefault, n + 1) ==
      ChildrenSize(t, withDefault, n) + ElementSize(t.children[n], withDefault)
    ensures !withDefault && IsDefault(t.children[n]) ==> ElementSize(t.children[n], withDefault) == 0
    ensures Skipped(t.children[n], withDefault) == (!withDefault && IsDefault(t.children[n]))
  {
  }

  method UpdateMaster(e: EbmlElement, withDefault: bool, ghost repr: set<EbmlElement>)
    requires e in repr && Closed(repr) && AllSettled(repr) && e.content.MasterContent?
    modifies repr`size
    ensures AllSettled(repr) && e.size == DataSize(e.tree, withDefault)
    ensures forall x <- repr :: x != e && Height(x.tree) >= Height(e.tree) ==> x.size == old(x.size)
    decreases Height(e.tree), 0
  {
    hide Height, Legal, Closed, EbmlElement.Agrees, ElementSize, DataSize, ChildrenSize, Skipped;
    Self(repr, e);
    MasterSize(e.tree, withDefault);
    e.size := 0;
    var list, i := e.content.list, 0;
    while i < |list|
      invariant 0 <= i <= |list| && AllSettled(repr)
      invariant e.size == ChildrenSize(e.tree, withDefault, i)
      invariant forall x <- repr :: x != e && Height(x.tree) >= Height(e.tree) ==> x.size == old(x.size)
    {
      Child(repr, e, i);
      ChildrenSizeStep(e.tree, withDefault, i);
      if !(!withDefault && list[i].IsDefaultValue()) {
        UpdateSize(list[i], withDefault, repr);
        var n := ElementSizeOf(list[i], withDefault);
        e.size := e.size + n;
      }
      i := i + 1;
    }
    if e.content.checksumUsed {
      e.size := e.size + 6;
    }
  }

  // ---------- rendering ----------

  method MakeRenderHead(e: EbmlElement, ghost withDefault: bool, out: Stream) returns (headSize: nat)
    requires e.Agrees() && Legal(e.tree) && e.size == DataSize(e.tree, withDefault) && out.pos <= |out.data|
    modifies out
    ensures out.data == Written(old(out.data), old(out.pos), Head(e.tree, withDefault))
    ensures headSize == |Head(e.tree, withDefault)| && out.pos == old(out.pos) + headSize <= |out.data|
  {
    var buffer := new Byte[8];
    var codedSize := CodedSizeLength(e.size, e.sizeLength, true);
    var n := CodedValueLength(e.size, codedSize, buffer);
    headSize := |e.id| + n;
    out.Write(e.id + buffer[..n]);
  }

  method RenderUInteger(value: UInt64, size: nat) returns (bs: seq<Byte>)
    requires size <= 8
    ensures bs == LowBytes(value, size)
  {
    var buffer := new Byte[8];
    var temp, i := value, 0;
    ghost var v: nat := value;
    while i < size
      invariant 0 <= i <= size && temp == ShiftBytes(v, i) && buffer[size - i..size] == LowBytes(v, i)
    {
      ShiftStep(v, i);
      buffer[size - i - 1] := temp % 256;
      assert buffer[size - i - 1..size] == [buffer[size - i - 1]] + buffer[size - i..size];
      temp := temp / 256;
      i := i + 1;
    }
    bs := buffer[..size];
  }

  /** Render: head and data, in the place where the stream stands. */
  method Render(e: EbmlElement, withDefault: bool, out: Stream, ghost repr: set<EbmlElement>) returns (n: nat)
    requires e in repr && Closed(repr) && AllSettled(repr) && out.pos <= |out.data|
    modifies repr`size, set x <- repr :: x.checksum, out
    ensures AllSettled(repr)
    ensures n == |Rendered(e.tree, withDefault)| && out.pos == old(out.pos) + n <= |out.data|
    ensures out.data == Written(old(out.data), old(out.pos), Rendered(e.tree, withDefault))
    ensures !Skipped(e.tree, withDefault) ==> e.size == DataSize(e.tree, withDefault)
    ensures forall x <- repr :: x != e && Height(x.tree) >= Height(e.tree) ==> x.size == old(x.size)
    decreases Height(e.tree), 3
  {
    hide Height, Legal, Head, Data, Written, DataSize, Closed;
    Self(repr, e);
    if !withDefault && e.IsDefaultValue() {
      WrittenNothing(out.data, out.pos);
      return 0;
    }
    UpdateSize(e, withDefault, repr);
    ghost var data, pos := out.data, out.pos;
    var headSize := MakeRenderHead(e, withDefault, out);
    var written := RenderData(e, withDefault, out, repr);
    WrittenTwice(data, pos, Head(e.tree, withDefault), Data(e.tree, withDefault));
    n := headSize + written;
  }

  method RenderData(e: EbmlElement, withDefault: bool, out: Stream, ghost repr: set<EbmlElement>) returns (n: nat)
    requires e in repr && Closed(repr) && AllSettled(repr) && out.pos <= |out.data|
    requires !Skipped(e.tree, withDefault) && e.size == DataSize(e.tree, withDefault)
    modifies repr`size, set x <- repr :: x.checksum, out
    ensures AllSettled(repr) && e.size == old(e.size)
    ensures n == |Data(e.tree, withDefault)| && out.pos == old(out.pos) + n <= |out.data|
    ensures out.data == Written(old(out.data), old(out.pos), Data(e.tree, withDefault))
    ensures forall x <- repr :: x != e && Height(x.tree) >= Height(e.tree) ==> x.size == old(x.size)
    decreases Height(e.tree), 2
  {
    hide Height, Closed, Written, DataSize, ChecksumElement, Skipped, Body;
    Self(repr, e);
    match e.content {
      case UIntegerContent(_, value, _) =>
        IntegerSizeIs(e.tree, withDefault);
        var bs := RenderUInteger(value, e.size);
        out.Write(bs);
        n := |bs|;
      case BinaryContent(data) =>
        out.Write(data);
        n := |data|;
      case MasterContent(checksumUsed, _) =>
        MasterData(e.tree, withDefault);
        if !checksumUsed {
          n := RenderChildren(e, withDefault, out, repr);
        } else {
          n := RenderWithChecksum(e, withDefault, out, repr);
        }
    }
  }

  lemma MasterData(t: Tree, withDefault: bool)
    requires t.Master? && Legal(t)
    ensures var body := Body(t, withDefault, |t.children|);
      Data(t, withDefault) == if t.checksum then ChecksumElement(body) + body else body
  {
    hide ChecksumElement, Body;
    assert [] + Body(t, withDefault, |t.children|) == Body(t, withDefault, |t.children|);
  }

  method RenderWithChecksum(e: EbmlElement, withDefault: bool, out: Stream, ghost repr: set<EbmlElement>) returns (n: nat)
    requires e in repr && Closed(repr) && AllSettled(repr) && out.pos <= |out.data| && e.content.MasterContent?
    modifies repr`size, set x <- repr :: x.checksum, out
    ensures AllSettled(repr) && e.size == old(e.size)
    ensures var body := Body(e.tree, withDefault, |e.tree.children|);
      && n == 6 + |body| && out.pos == old(out.pos) + n <= |out.data|
      && out.data == Written(old(out.data), old(out.pos), ChecksumElement(body) + body)
    ensures forall x <- repr :: x != e && Height(x.tree) >= Height(e.tree) ==> x.size == old(x.size)
    decreases Height(e.tree), 1
  {
    hide Height, Legal, Written, DataSize, Body, ToBits, WordBytes, Closed, Crc32.CrcOf, Coded;
    Self(repr, e);
    var buffer := new Stream();
    var _ := RenderChildren(e, withDefault, buffer, repr);
    WrittenFirst(buffer.data);
    WrittenFirst(Body(e.tree, withDefault, |e.tree.children|));
    e.checksum.FillCRC32(ToBits(buffer.data), 0);
    out.Write(CRC_ID + Coded(4, 1) + WordBytes(e.checksum.crcFinal));
    out.Write(buffer.data);
    WrittenTwice(old(out.data), old(out.pos), ChecksumElement(buffer.data), buffer.data);
    n := 6 + |buffer.data|;
  }

  lemma IntegerSizeIs(t: Tree, withDefault: bool)
    requires t.UInteger? && Legal(t)
    ensures DataSize(t, withDefault) == UIntegerSize(t.value, t.defaultSize) <= 8
  {
  }

  lemma WrittenFirst(bs: seq<Byte>)
    ensures Written([], 0, bs) == bs
  {
  }

  method RenderChildren(e: EbmlElement, withDefault: bool, out: Stream, ghost repr: set<EbmlElement>) returns (n: nat)
    requires e in repr && Closed(repr) && AllSettled(repr) && out.pos <= |out.data| && e.content.MasterContent?
    modifies repr`size, set x <- repr :: x.checksum, out
    ensures AllSettled(repr) && e.size == old(e.size)
    ensures n == |Body(e.tree, withDefault, |e.tree.children|)| && out.pos == old(out.pos) + n <= |out.data|
    ensures out.data == Written(old(out.data), old(out.pos), Body(e.tree, withDefault, |e.tree.children|))
    ensures forall x <- repr :: x != e && Height(x.tree) >= Height(e.tree) ==> x.size == old(x.size)
    decreases Height(e.tree), 0
  {
    hide Height, Closed, EbmlElement.Agrees, Written, Rendered, Skipped, Body, Legal;
    Self(repr, e);
    NoBody(e.tree, withDefault);
    n := 0;
    var list, i := e.content.list, 0;
    WrittenNothing(out.data, out.pos);
    while i < |list|
      invariant 0 <= i <= |list| && AllSettled(repr) && e.size == old(e.size)
      invariant n == |Body(e.tree, withDefault, i)| && out.pos == old(out.pos) + n <= |out.data|
      invariant out.data == Written(old(out.data), old(out.pos), Body(e.tree, withDefault, i))
      invariant forall x <- repr :: x != e && Height(x.tree) >= Height(e.tree) ==> x.size == old(x.size)
    {
      Child(repr, e, i);
      BodyStep(e.tree, withDefault, i);
      if !withDefault && list[i].IsDefaultValue() {
        assert Body(e.tree, withDefault, i) + [] == Body(e.tree, withDefault, i);
      } else {
        var m := Render(list[i], withDefault, out, repr);
        n := n + m;
        WrittenTwice(old(out.data), old(out.pos), Body(e.tree, withDefault, i), Rendered(list[i].tree, withDefault));
      }
      i := i + 1;
    }
  }
}
