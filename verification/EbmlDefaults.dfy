/**
 Which elements may be left out (libebml/src/EbmlElement.cpp, lines 587-594), and why that loses
 nothing: a reader that knows the declared elements puts their defaults in the place of what is missing.
 */
module EbmlDefaults {
  import opened Wrappers
  import opened Bytes
  import opened EbmlSize
  import opened EbmlTree
  import Crc32

  /** Nothing is written exactly for an integer that has its default, or a master without children. */
  lemma OmittedIff(t: Tree, withDefault: bool)
    requires Legal(t)
    ensures Rendered(t, withDefault) == [] <==>
      && !withDefault
      && match t
        case UInteger(_, _, _, value, default) => default.Some? && default.value == value
        case Binary(_, _, _) => false
        case Master(_, _, _, children) => children == []
    ensures ElementSize(t, withDefault) == 0 <==> Rendered(t, withDefault) == []
  {
    hide Data, Coded, CodedSizeLength, DataSize;
    SizesAreExact(t, withDefault);
  }

  // ---------- what a reader has to know, and what it should find ----------

  /** The declaration of an element: its identifier, for integers the default, for masters the children. */
  datatype Schema =
    | SInteger(id: Id, default: Option<UInt64>)
    | SBinary(id: Id)
    | SMaster(id: Id, children: seq<Schema>)

  datatype Meaning = MInteger(value: nat) | MBinary(data: seq<Byte>) | MMaster(children: seq<Meaning>) | Missing

  function SchemaOf(t: Tree): (s: Schema)
    ensures s.id == t.id
  {
    match t
    case UInteger(id, _, _, _, default) => SInteger(id, default)
    case Binary(id, _, _) => SBinary(id)
    case Master(id, _, _, children) =>
      SMaster(id, seq(|children|, i requires 0 <= i < |children| => SchemaOf(children[i])))
  }

  /** The tree without widths, default sizes and checksums. */
  function MeaningOf(t: Tree): Meaning {
    match t
    case UInteger(_, _, _, value, _) => MInteger(value)
    case Binary(_, _, data) => MBinary(data)
    case Master(_, _, _, children) =>
      MMaster(seq(|children|, i requires 0 <= i < |children| => MeaningOf(children[i])))
  }

  /** The data of the first item with an identifier. */
  function Find(items: seq<Item>, id: seq<Byte>): Option<seq<Byte>> {
    if |items| == 0 then None else if items[0].id == id then Some(items[0].data) else Find(items[1..], id)
  }

  /** What a reader makes of the data of an element, or of its absence. */
  function Decode(s: Schema, found: Option<seq<Byte>>): Meaning
    decreases s
  {
    match s
    case SInteger(_, default) =>
      if found.Some? then MInteger(BigEndian(found.value))
      else if default.Some? then MInteger(default.value)
      else Missing
    case SBinary(_) => if found.Some? then MBinary(found.value) else Missing
    case SMaster(_, children) =>
      if found.None? then (if children == [] then MMaster([]) else Missing)
      else match Split(found.value)
        case None => Missing
        case Some(items) =>
          MMaster(seq(|children|, i requires 0 <= i < |children| => Decode(children[i], Find(items, children[i].id))))
  }

  /** What a reader makes of the bytes of a declared element. */
  function DecodeElement(s: Schema, bs: seq<Byte>): Meaning {
    if bs == [] then Decode(s, None)
    else match ReadItem(bs)
      case None => Missing
      case Some((item, rest)) => if item.id == s.id then Decode(s, Some(item.data)) else Missing
  }

  /** In every master no two children have the same identifier, nor that of a checksum before them. */
  predicate Distinct(t: Tree) {
    t.Master? ==>
      && (forall i, j :: 0 <= i < j < |t.children| ==> t.children[i].id != t.children[j].id)
      && (t.checksum ==> forall i :: 0 <= i < |t.children| ==> t.children[i].id != CRC_ID)
      && forall i :: 0 <= i < |t.children| ==> Distinct(t.children[i])
  }

  predicate AllCodable(t: Tree, withDefault: bool)
    requires Legal(t)
  {
    && Codable(t, withDefault)
    && (t.Master? ==> forall i :: 0 <= i < |t.children| ==> AllCodable(t.children[i], withDefault))
  }

  // ---------- nothing is lost ----------

  // The data that an item for the child would have, if it is written.
  function Written(c: Tree, withDefault: bool): Option<seq<Byte>>
    requires Legal(c)
  {
    if Rendered(c, withDefault) == [] then None else Some(Data(c, withDefault))
  }

  lemma ItemsStep(t: Tree, withDefault: bool, i: nat)
    requires Legal(t) && t.Master? && i <= |t.children|
    ensures i == |t.children| ==> Items(t, withDefault, i) == []
    ensures i < |t.children| ==> Legal(t.children[i])
    ensures i < |t.children| ==> (var found, rest := Written(t.children[i], withDefault), Items(t, withDefault, i + 1);
      Items(t, withDefault, i) == if found.None? then rest else [Item(t.children[i].id, found.value)] + rest)
  {
    hide Rendered, Data;
    if i < |t.children| {
      var c := t.children[i];
      SkippedIff(c, withDefault);
      assert [] + Items(t, withDefault, i + 1) == Items(t, withDefault, i + 1);
    }
  }

  lemma SkippedIff(c: Tree, withDefault: bool)
    requires Legal(c)
    ensures Skipped(c, withDefault) <==> Rendered(c, withDefault) == []
  {
    hide Data, Coded, CodedSizeLength, DataSize;
  }

  lemma FindNext(item: Item, items: seq<Item>, id: seq<Byte>)
    ensures Find([item] + items, id) == if item.id == id then Some(item.data) else Find(items, id)
  {
    assert ([item] + items)[1..] == items;
  }

  // No item that belongs to children from i on has an identifier that none of these has.
  lemma {:induction false} NotFound(t: Tree, withDefault: bool, i: nat, id: seq<Byte>)
    requires Legal(t) && t.Master? && i <= |t.children|
    requires forall j :: i <= j < |t.children| ==> t.children[j].id != id
    ensures Find(Items(t, withDefault, i), id) == None
    decreases |t.children| - i
  {
    hide Rendered, Data, Legal, Items, Written;
    ItemsStep(t, withDefault, i);
    if i < |t.children| {
      NotFound(t, withDefault, i + 1, id);
      if Written(t.children[i], withDefault).Some? {
        FindNext(Item(t.children[i].id, Written(t.children[i], withDefault).value), Items(t, withDefault, i + 1), id);
      }
    }
  }

  /** Every child is found among the items by its identifier, with its data, exactly if it was written. */
  lemma {:induction false} ChildFound(t: Tree, withDefault: bool, i: nat, k: nat)
    requires Legal(t) && t.Master? && i <= k < |t.children|
    requires forall j :: i <= j < |t.children| && j != k ==> t.children[j].id != t.children[k].id
    ensures Legal(t.children[k])
    ensures Find(Items(t, withDefault, i), t.children[k].id) == Written(t.children[k], withDefault)
    decreases |t.children| - i
  {
    hide Rendered, Data, Items, Find, Written, Legal;
    ItemsStep(t, withDefault, i);
    var id := t.children[k].id;
    if i == k {
      NotFound(t, withDefault, i + 1, id);
    } else {
      ChildFound(t, withDefault, i + 1, k);
    }
    if Written(t.children[i], withDefault).Some? {
      FindNext(Item(t.children[i].id, Written(t.children[i], withDefault).value), Items(t, withDefault, i + 1), id);
    }
  }

  /** In the data of a master every child that was written is found, and no other. */
  lemma ChildrenFound(t: Tree, withDefault: bool) returns (items: seq<Item>)
    requires Legal(t) && t.Master? && Distinct(t) && AllCodable(t, withDefault)
    ensures Split(Data(t, withDefault)) == Some(items)
    ensures forall i :: 0 <= i < |t.children| ==> Find(items, t.children[i].id) == Written(t.children[i], withDefault)
  {
    hide Rendered, Data, Split, Codable, Written, Items, Find;
    MasterSplits(t, withDefault);
    items := Split(Data(t, withDefault)).value;
    var sum := WordBytes(Crc32.CrcOf(ToBits(Body(t, withDefault, |t.children|))));
    forall i | 0 <= i < |t.children|
      ensures Find(items, t.children[i].id) == Written(t.children[i], withDefault)
    {
      ChildFound(t, withDefault, 0, i);
      BehindChecksum(t, withDefault, items, t.children[i].id, sum);
    }
  }

  lemma SchemaParts(t: Tree)
    requires t.Master?
    ensures var s, m := SchemaOf(t), MeaningOf(t);
      && s.SMaster? && m.MMaster? && |s.children| == |m.children| == |t.children|
      && forall i :: 0 <= i < |t.children| ==>
        s.children[i] == SchemaOf(t.children[i]) && m.children[i] == MeaningOf(t.children[i])
  {
  }

  /** From the data of an element, or its absence, the reader recovers what the element means. */
  lemma {:induction false} DataDecoded(t: Tree, withDefault: bool)
    requires Legal(t) && Distinct(t) && AllCodable(t, withDefault)
    ensures Decode(SchemaOf(t), Written(t, withDefault)) == MeaningOf(t)
    decreases t
  {
    hide Rendered, Data, Split, Codable, Find;
    OmittedIff(t, withDefault);
    match t
    case UInteger(_, _, defaultSize, value, _) => IntegerData(t, withDefault);
    case Binary(_, _, _) => BinaryData(t, withDefault);
    case Master(_, _, _, children) =>
      if Written(t, withDefault).Some? {
        var items := ChildrenFound(t, withDefault);
        forall i | 0 <= i < |children|
          ensures Decode(SchemaOf(children[i]), Find(items, children[i].id)) == MeaningOf(children[i])
        {
          DataDecoded(children[i], withDefault);
        }
        MasterDecoded(t, Data(t, withDefault), items);
      }
  }

  lemma MasterDecoded(t: Tree, data: seq<Byte>, items: seq<Item>)
    requires t.Master? && Split(data) == Some(items)
    requires forall i :: 0 <= i < |t.children| ==>
      Decode(SchemaOf(t.children[i]), Find(items, t.children[i].id)) == MeaningOf(t.children[i])
    ensures Decode(SchemaOf(t), Some(data)) == MeaningOf(t)
  {
    hide Split, Find, SchemaOf, MeaningOf;
    SchemaParts(t);
    assert Decode(SchemaOf(t), Some(data)).children == MeaningOf(t).children;
  }

  lemma IntegerData(t: Tree, withDefault: bool)
    requires Legal(t) && t.UInteger?
    ensures BigEndian(Data(t, withDefault)) == t.value
  {
    hide BigEndian, LowBytes, UIntegerSize;
    IntegerBack(t.value, t.defaultSize);
  }

  lemma BinaryData(t: Tree, withDefault: bool)
    requires Legal(t) && t.Binary?
    ensures Data(t, withDefault) == t.data
  {
  }

  lemma BehindChecksum(t: Tree, withDefault: bool, items: seq<Item>, id: seq<Byte>, sum: seq<Byte>)
    requires Legal(t) && t.Master? && (t.checksum ==> id != CRC_ID)
    requires items == (if t.checksum then [Item(CRC_ID, sum)] else []) + Items(t, withDefault, 0)
    ensures Find(items, id) == Find(Items(t, withDefault, 0), id)
  {
    hide Items, Find;
    var rest := Items(t, withDefault, 0);
    if t.checksum {
      FindNext(Item(CRC_ID, sum), rest, id);
    } else {
      assert items == rest;
    }
  }

  /**
   A whole tree, rendered with or without its defaults: a reader that knows the declarations recovers
   every integer, every piece of data and the structure.
   */
  lemma TreeIsRecovered(t: Tree, withDefault: bool)
    requires Legal(t) && Distinct(t) && AllCodable(t, withDefault)
    ensures DecodeElement(SchemaOf(t), Rendered(t, withDefault)) == MeaningOf(t)
  {
    hide Rendered, Data, ReadItem, Codable, Decode, SchemaOf, MeaningOf;
    DataDecoded(t, withDefault);
    SkippedIff(t, withDefault);
    if Rendered(t, withDefault) != [] {
      ItemBack(t, withDefault, []);
      assert Rendered(t, withDefault) + [] == Rendered(t, withDefault);
    }
  }
}
