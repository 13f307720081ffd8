/**
 libebml/src/EbmlElement.cpp, lines 50-207: the variable-length coding of element sizes (section 4
 of RFC 8794), unsigned and signed.
 */
module EbmlSize {
  import opened Bytes
  import M = Modular

  type UInt64 = x: int | 0 <= x < 0x1_0000_0000_0000_0000 witness 0
  type Int64 = x: int | -0x8000_0000_0000_0000 <= x < 0x8000_0000_0000_0000 witness 0

  /** A coded size occupies 1 to 8 bytes.  Sizes are natural numbers here; the source has 64 bits for them. */
  type Width = c: int | 1 <= c <= 8 witness 1

  /** The length marker in the first byte. */
  function Marker(c: Width): (b: Byte)
    ensures 0 < b <= 128
  {
    [128, 64, 32, 16, 8, 4, 2, 1][c - 1]
  }

  /** The number of values with c coded bytes: 7 bits a byte. */
  function Range(c: Width): (n: nat)
    ensures n >= 128
  {
    if c == 1 then 128 else 128 * Range(c - 1)
  }

  /** The value with all bits set means an unknown size. */
  function Unknown(c: Width): nat {
    Range(c) - 1
  }

  lemma RangeValues()
    ensures Range(1) == 0x80 && Range(2) == 0x4000 && Range(3) == 0x20_0000 && Range(4) == 0x1000_0000
    ensures Range(5) == 0x8_0000_0000 && Range(6) == 0x400_0000_0000 && Range(7) == 0x2_0000_0000_0000
    ensures Range(8) == 0x100_0000_0000_0000
  {
  }

  lemma {:induction false} RangeIs(c: Width)
    ensures Range(c) == Marker(c) * Pow256(c - 1)
  {
    if c > 1 {
      RangeIs(c - 1);
      MarkerHalves(Marker(c), Pow256(c - 2));
    }
  }

  lemma MarkerHalves(m: int, p: int)
    ensures 128 * (2 * m * p) == m * (256 * p)
  {
  }

  // ---------- widths ----------

  function CodedSizeLength(v: nat, sizeLength: nat, finite: bool): (c: nat)
    ensures 1 <= c && sizeLength <= c && (c <= 5 || c == sizeLength)
  {
    var slack := if finite then 0 else 1;
    var c :=
      if v < 127 + slack then 1
      else if v < 16383 + slack then 2
      else if v < 2097151 + slack then 3
      else if v < 268435455 + slack then 4
      else 5;
    if sizeLength > 0 && c < sizeLength then sizeLength else c
  }

  function CodedSizeLengthSigned(v: Int64, sizeLength: nat): nat {
    var c :=
      if -64 < v < 64 then 1
      else if -8192 < v < 8192 then 2
      else if -1048576 < v < 1048576 then 3
      else if -134217728 < v < 134217728 then 4
      else 5;
    if sizeLength > 0 && c < sizeLength then sizeLength else c
  }

  /** The chosen width is the shortest that can tell the value from "unknown", up to five bytes. */
  lemma ShortestWidth(v: nat, w: Width)
    ensures var c := CodedSizeLength(v, 0, true);
      && c <= 5
      && (w < c ==> v >= Unknown(w))
      && (c < 5 && w >= c ==> v < Unknown(w))
  {
    RangeValues();
    assert w == 1 || w == 2 || w == 3 || w == 4 || w == 5 || w == 6 || w == 7 || w == 8;
  }

  // ---------- writing ----------

  /** The coded form of v in c bytes. */
  function Coded(v: nat, c: Width): (bs: seq<Byte>)
    ensures |bs| == c && Marker(c) <= bs[0] < 2 * Marker(c)
  {
    [Marker(c) + ShiftBytes(v, c - 1) % Marker(c)] + LowBytes(v, c - 1)
  }

  lemma {:induction false} ShiftStep(v: nat, n: nat)
    ensures ShiftBytes(v, n + 1) == ShiftBytes(v, n) / 256
    ensures LowBytes(v, n + 1) == [ShiftBytes(v, n) % 256] + LowBytes(v, n)
  {
    if n > 0 {
      ShiftStep(v / 256, n - 1);
    }
  }

  method CodedValueLength(v: nat, c: Width, out: array<Byte>) returns (n: nat)
    requires c <= out.Length
    modifies out
    ensures n == c && out[..c] == Coded(v, c) && out[c..] == old(out[c..])
  {
    hide Marker, ShiftBytes, LowBytes;
    var length := v;
    out[0] := Marker(c);
    var i := 1;
    ShiftZero(v);
    while i < c
      invariant 1 <= i <= c && length == ShiftBytes(v, i - 1) && out[0] == Marker(c)
      invariant out[c - i + 1..c] == LowBytes(v, i - 1)
      invariant out[c..] == old(out[c..])
    {
      ShiftStep(v, i - 1);
      out[c - i] := length % 256;
      assert out[c - i..c] == [out[c - i]] + out[c - i + 1..c];
      length := length / 256;
      i := i + 1;
    }
    // the marker bit is set already, so the disjunction adds only the bits below it
    out[0] := Marker(c) + length % Marker(c);
    assert out[..c] == [out[0]] + out[1..c];
    n := c;
  }

  lemma ShiftZero(v: nat)
    ensures ShiftBytes(v, 0) == v && LowBytes(v, 0) == []
  {
  }

  /** The offset that makes a signed value non-negative. */
  function Bias(v: Int64): nat {
    if -64 < v < 64 then 63
    else if -8192 < v < 8192 then 8191
    else if -1048576 < v < 1048576 then 1048575
    else if -134217728 < v < 134217728 then 134217727
    else 0
  }

  /** The value after the conversion of int64 to uint64. */
  function AsUnsigned(v: Int64): UInt64 {
    if v < 0 then v + 0x1_0000_0000_0000_0000 else v
  }

  function CodedSigned(v: Int64, c: Width): seq<Byte>
    requires v + Bias(v) < 0x8000_0000_0000_0000
  {
    Coded(AsUnsigned(v + Bias(v)), c)
  }

  method CodedValueLengthSigned(v: Int64, c: Width, out: array<Byte>) returns (n: nat)
    requires c <= out.Length
    modifies out
    ensures n == c && out[..c] == CodedSigned(v, c) && out[c..] == old(out[c..])
  {
    var length: Int64 := v;
    if -64 < v < 64 {
      length := v + 63;
    } else if -8192 < v < 8192 {
      length := v + 8191;
    } else if -1048576 < v < 1048576 {
      length := v + 1048575;
    } else if -134217728 < v < 134217728 {
      length := v + 134217727;
    }
    n := CodedValueLength(AsUnsigned(length), c, out);
  }

  // ---------- reading ----------

  /** Value, number of bytes used (zero if there is no complete size), and the unknown marker. */
  datatype Size = Size(value: int, used: nat, unknown: int)

  /** Position of the highest set bit of the first byte: the width, or 9. */
  function FirstBit(b: Byte): (c: nat)
    ensures 1 <= c <= 9
  {
    if b >= 128 then 1 else if b >= 64 then 2 else if b >= 32 then 3 else if b >= 16 then 4
    else if b >= 8 then 5 else if b >= 4 then 6 else if b >= 2 then 7 else if b >= 1 then 8 else 9
  }

  function UnknownMark(k: nat): int {
    if k == 0 then 0x7F else UnknownMark(k - 1) * 128 + 127
  }

  /** What a reader of bs must return. */
  function ReadCoded(bs: seq<Byte>): Size {
    var room := if |bs| < 8 then |bs| else 8;
    if |bs| == 0 || FirstBit(bs[0]) > room then Size(0, 0, UnknownMark(room))
    else
      var c := FirstBit(bs[0]);
      Size(BigEndian(bs[..c]) - Range(c), c, Unknown(c))
  }

  lemma {:induction false} UnknownMarkIs(k: nat)
    requires k < 8
    ensures UnknownMark(k) == Unknown(k + 1)
  {
    if k > 0 {
      UnknownMarkIs(k - 1);
    }
  }

  // Bit c of the first byte, counted from the top, is clear below the first set bit.
  lemma FirstBitIs(b: Byte, c: Width)
    requires c <= FirstBit(b)
    ensures b / Marker(c) % 2 == if c == FirstBit(b) then 1 else 0
    ensures c == FirstBit(b) ==> Marker(c) <= b < 2 * Marker(c)
  {
  }

  /** ReadCodedSizeValue over the bytes in the buffer. */
  method ReadCodedSizeValue(bs: seq<Byte>) returns (r: Size)
    ensures r == ReadCoded(bs)
  {
    hide FirstBit, Marker, BigEndian, Range;
    var unknown, idx := 0x7F, 0;
    while idx < |bs| && idx < 8
      invariant idx <= |bs| && idx <= 8 && unknown == UnknownMark(idx)
      invariant |bs| > 0 ==> idx < FirstBit(bs[0])
    {
      FirstBitIs(bs[0], idx + 1);
      if bs[0] / Marker(idx + 1) % 2 == 1 {
        var c := idx + 1;
        var result := ReadValue(bs, c);
        UnknownMarkIs(idx);
        return Size(result, c, unknown);
      }
      // the lowest bit is set, so the disjunction with 0xFF after the shift adds 127
      unknown := unknown * 128 + 127;
      idx := idx + 1;
    }
    r := Size(0, 0, unknown);
  }

  method ReadValue(bs: seq<Byte>, c: Width) returns (result: int)
    requires c <= |bs| && FirstBit(bs[0]) == c
    ensures result == BigEndian(bs[..c]) - Range(c)
  {
    hide FirstBit, Marker, Range, BigEndian, Pow256;
    FirstBitIs(bs[0], c);
    OneByte(bs);
    result := bs[0] - Marker(c);
    var i := 1;
    PowZero();
    while i < c
      invariant 1 <= i <= c && result == BigEndian(bs[..i]) - Marker(c) * Pow256(i - 1)
    {
      NextByte(bs, i);
      PowNext(Marker(c), i);
      result := result * 256 + bs[i];
      i := i + 1;
    }
    RangeIs(c);
  }

  lemma OneByte(bs: seq<Byte>)
    requires |bs| > 0
    ensures BigEndian(bs[..1]) == bs[0]
  {
    assert bs[..1][..0] == [];
  }

  lemma NextByte(bs: seq<Byte>, i: nat)
    requires i < |bs|
    ensures BigEndian(bs[..i + 1]) == BigEndian(bs[..i]) * 256 + bs[i]
  {
    assert bs[..i + 1][..i] == bs[..i];
  }

  lemma PowZero()
    ensures Pow256(0) == 1
  {
  }

  lemma PowNext(m: int, i: nat)
    requires i > 0
    ensures m * Pow256(i) == (m * Pow256(i - 1)) * 256
  {
  }

  /** The bias that belongs to a width. */
  function WidthBias(c: nat): nat {
    if c == 1 then 63 else if c == 2 then 8191 else if c == 3 then 1048575 else if c == 4 then 134217727 else 0
  }

  function ReadCodedSigned(bs: seq<Byte>): Size {
    var s := ReadCoded(bs);
    if s.used != 0 then s.(value := s.value - WidthBias(s.used)) else s
  }

  method ReadCodedSizeSignedValue(bs: seq<Byte>) returns (r: Size)
    ensures r == ReadCodedSigned(bs)
  {
    r := ReadCodedSizeValue(bs);
    if r.used != 0 {
      match r.used {
        case 1 => r := r.(value := r.value - 63);
        case 2 => r := r.(value := r.value - 8191);
        case 3 => r := r.(value := r.value - 1048575);
        case 4 => r := r.(value := r.value - 134217727);
        case _ =>
      }
    }
  }

  // ---------- round trips ----------

  lemma FirstBitOfCoded(b: Byte, c: Width)
    requires Marker(c) <= b < 2 * Marker(c)
    ensures FirstBit(b) == c
  {
  }

  lemma {:induction false} ModRange(v: nat, c: Width)
    ensures v % Range(c) == ShiftBytes(v, c - 1) % Marker(c) * Pow256(c - 1) + BigEndian(LowBytes(v, c - 1))
  {
    hide Marker, Range, LowBytes, ShiftBytes, Pow256, BigEndian;
    var h, l, p, m := ShiftBytes(v, c - 1), BigEndian(LowBytes(v, c - 1)), Pow256(c - 1), Marker(c);
    SplitBytes(v, c - 1);
    BigEndianBelow(LowBytes(v, c - 1));
    RangeIs(c);
    M.SplitMod(v, h, p, l, m, h / m, h % m);
    M.DivModUnique(v, Range(c), h / m, (h % m) * p + l);
  }

  /** Reading back a coded size: the value modulo the range of its width, whatever follows it. */
  lemma ReadBack(v: nat, c: Width, rest: seq<Byte>)
    ensures ReadCoded(Coded(v, c) + rest) == Size(v % Range(c), c, Unknown(c))
  {
    hide Marker, BigEndian, LowBytes, ShiftBytes, Range, FirstBit, Coded;
    var bs := Coded(v, c) + rest;
    FirstBitOfCoded(bs[0], c);
    assert bs[..c] == Coded(v, c);
    CodedNumber(v, c);
  }

  // As a number, a coded value is the marker above its low bits.
  lemma CodedNumber(v: nat, c: Width)
    ensures BigEndian(Coded(v, c)) == Range(c) + v % Range(c)
  {
    hide Marker, BigEndian, LowBytes, ShiftBytes, Range;
    var top, low := ShiftBytes(v, c - 1) % Marker(c), LowBytes(v, c - 1);
    BigEndianConcat([Marker(c) + top], low);
    Single(Marker(c) + top);
    RangeIs(c);
    ModRange(v, c);
    TwoProducts(Marker(c), top, Pow256(c - 1));
  }

  /** A size is written as a number of c bytes: the marker bit, and the low 7c bits of the value. */
  lemma CodeIsNumber(v: nat, c: Width)
    ensures BigEndian(Coded(v, c)) == Range(c) + v % Range(c)
  {
    hide Coded, BigEndian;
    CodedNumber(v, c);
  }

  /** A signed value in its own width is written with half the range less one added to it. */
  lemma SignedIsNumber(v: Int64)
    requires -0x800_0000_0000 < v < 0x800_0000_0000
    ensures var c := CodedSizeLengthSigned(v, 0);
      && (c < 5 ==> BigEndian(CodedSigned(v, c)) == Range(c) + v + Range(c) / 2 - 1)
      && (c == 5 ==> BigEndian(CodedSigned(v, c)) == Range(c) + v % Range(c))
  {
    hide Coded, BigEndian, Range;
    var c := CodedSizeLengthSigned(v, 0);
    CodedNumber(AsUnsigned(v + Bias(v)), c);
    RangeValues();
  }

  lemma TwoProducts(a: int, b: int, p: int)
    ensures (a + b) * p == a * p + b * p
  {
  }

  lemma Single(b: Byte)
    ensures BigEndian([b]) == b
  {
    assert [b][..0] == [];
  }

  /** A size survives with its width, and is not mistaken for "unknown", exactly below the range minus one. */
  lemma RoundTripIff(v: nat, c: Width, rest: seq<Byte>)
    ensures var s := ReadCoded(Coded(v, c) + rest);
      s.used == c && (s.value == v && s.value != s.unknown <==> v < Unknown(c))
  {
    ReadBack(v, c, rest);
    BelowMod(v, Range(c));
  }

  lemma BelowMod(v: int, n: int)
    requires n > 0 && v >= 0
    ensures v % n == v <==> v < n
  {
  }

  /** With the width the writer chooses (at most eight bytes) only sizes of 2^35 - 1 and above can be lost. */
  lemma RoundTripChosen(v: nat, sizeLength: nat, rest: seq<Byte>)
    requires sizeLength <= 8
    ensures var c := CodedSizeLength(v, sizeLength, true);
      var s := ReadCoded(Coded(v, c) + rest);
      s.used == c && (s.value == v && s.value != s.unknown <==>
        v < if sizeLength > 5 then Unknown(sizeLength) else Unknown(5))
  {
    hide Range, Coded, ReadCoded;
    RoundTripIff(v, CodedSizeLength(v, sizeLength, true), rest);
    RangeValues();
    var c := CodedSizeLength(v, sizeLength, true);
    assert c == 1 || c == 2 || c == 3 || c == 4 || c == 5 || c == 6 || c == 7 || c == 8;
  }

  /** An element of unknown size: the all-ones value of a width is written in that width and reads as unknown. */
  lemma UnknownReadsAsUnknown(v: nat, c: Width, rest: seq<Byte>)
    requires c <= 4 && v == Unknown(c)
    ensures CodedSizeLength(v, 0, false) == c
    ensures var s := ReadCoded(Coded(v, c) + rest); s.used == c && s.value == s.unknown
  {
    hide Coded, ReadCoded;
    RangeValues();
    ReadBack(v, c, rest);
  }

  /**
   A signed value survives in its own width exactly if it lies above -2^27 and below 2^35; a width
   forced to anything else always changes a small value.
   */
  lemma SignedRoundTripIff(v: Int64, c: Width, rest: seq<Byte>)
    ensures var s := ReadCodedSigned(CodedSigned(v, c) + rest);
      && s.used == c
      && (c == CodedSizeLengthSigned(v, 0) ==> (s.value == v <==> -0x800_0000 < v < 0x8_0000_0000))
      && (-0x800_0000 < v < 0x800_0000 && c != CodedSizeLengthSigned(v, 0) ==> s.value != v)
  {
    hide Range, Coded, ReadCoded;
    RangeValues();
    ReadBack(AsUnsigned(v + Bias(v)), c, rest);
    assert c == 1 || c == 2 || c == 3 || c == 4 || c == 5 || c == 6 || c == 7 || c == 8;
  }

  /** A signed value in its own width never reads as unknown. */
  lemma SignedNeverUnknown(v: Int64, rest: seq<Byte>)
    requires -0x800_0000 < v < 0x800_0000
    ensures var s := ReadCoded(CodedSigned(v, CodedSizeLengthSigned(v, 0)) + rest); s.value != s.unknown
  {
    hide Range, Coded, ReadCoded;
    RangeValues();
    var c := CodedSizeLengthSigned(v, 0);
    ReadBack(AsUnsigned(v + Bias(v)), c, rest);
    assert c == 1 || c == 2 || c == 3 || c == 4;
  }
}
