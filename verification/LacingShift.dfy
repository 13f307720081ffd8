/**
 Reading the sizes of an EBML lace one byte too late.  Between the place where a size was written
 and the place where it is looked for there are bytes of the header; once one of them is not the
 code of 63, there always is such a byte, and the two places never meet again.
 */
module LacingShift {
  import M = Modular
  import opened Wrappers
  import opened Bytes
  import opened EbmlSize
  import opened Lacing
  import opened LacingProofs
  import opened LacingChoice

  /** The size 63, and the difference 0. */
  const CODE_63: Byte := 191

  // ---------- two numbers with a common piece ----------

  lemma LowEnd(bs: seq<Byte>, m: nat) returns (h: nat)
    requires m <= |bs|
    ensures BigEndian(bs) == h * Pow256(m) + BigEndian(bs[|bs| - m..])
    ensures BigEndian(bs[|bs| - m..]) < Pow256(m)
  {
    var k := |bs| - m;
    assert bs == bs[..k] + bs[k..];
    BigEndianConcat(bs[..k], bs[k..]);
    BigEndianBelow(bs[k..]);
    h := BigEndian(bs[..k]);
  }

  lemma SameRemainder(a: int, b: int, p: int, x: int, y: int, e: int)
    requires p > 1 && 0 <= x < p && 0 <= y < p && 0 <= e <= 1
    requires ((a * p + x) - (b * p + y) - e) % p == 0
    ensures x == y + e || (x == 0 && y + e == p)
  {
    var d := x - y - e;
    var q := (a * p + x - (b * p + y) - e) / p;
    assert d == (q - a + b) * p;
    Factor(q - a + b, p, d);
  }

  lemma Factor(k: int, p: int, d: int)
    requires p > 1 && d == k * p && -p <= d < p
    ensures d == 0 || d == -p
  {
    Multiples(k, p);
  }

  lemma Multiples(k: int, p: int)
    requires p > 1
    ensures k >= 1 ==> k * p >= p
    ensures k <= -2 ==> k * p <= -2 * p
  {
  }

  lemma LastByte(bs: seq<Byte>)
    requires |bs| > 0
    ensures BigEndian(bs) == BigEndian(bs[..|bs| - 1]) * 256 + bs[|bs| - 1]
  {
  }

  lemma SameBytes(a: seq<Byte>, b: seq<Byte>)
    requires |a| == |b| && BigEndian(a) == BigEndian(b)
    ensures a == b
  {
    LowBytesOfBigEndian(a);
    LowBytesOfBigEndian(b);
  }

  // The ends of two codes that differ by at most one: all bytes but the last are the same.
  lemma SameEnds(z: seq<Byte>, y: seq<Byte>, e: int)
    requires |z| == |y| > 0 && y[|y| - 1] == CODE_63 && 0 <= e <= 1
    requires BigEndian(y) == BigEndian(z) + e || (BigEndian(y) == 0 && e == 1)
    ensures z[|z| - 1] + e == CODE_63 && z[..|z| - 1] == y[..|y| - 1]
  {
    var n := |z| - 1;
    LastByte(z);
    LastByte(y);
    SameBytes(z[..n], y[..n]);
  }

  // A piece that recurs at its own end, up to a tail of the code of 63, consists of high bytes.
  lemma {:induction false} HighBytes(rb: seq<Byte>, m: nat, j: nat)
    requires 0 < m < |rb| && j < m && rb[m - 1] >= 128
    requires forall t :: m <= t < |rb| ==> rb[t] == CODE_63
    requires rb[..m - 1] == rb[|rb| - m..|rb| - 1]
    ensures rb[j] >= 128
    decreases m - j
  {
    if j < m - 1 {
      var k := |rb| - m + j;
      assert rb[j] == rb[..m - 1][j] == rb[|rb| - m..|rb| - 1][j] == rb[k];
      if k < m {
        HighBytes(rb, m, k);
      }
    }
  }

  /**
   If a code of more than one byte begins with the last m bytes of another one and has the same low
   bytes, or these plus one, then what it has beyond them is not only codes of 63.
   */
  lemma Overlap(c: seq<Byte>, rb: seq<Byte>, m: nat, e: int) returns (t: nat)
    requires 0 < m <= |c| && m < |rb| && c[|c| - m..] == rb[..m] && 0 <= e <= 1 && rb[0] < 128
    requires (BigEndian(rb) - BigEndian(c) - e) % Pow256(m) == 0
    ensures m <= t < |rb| && rb[t] != CODE_63
  {
    if forall t :: m <= t < |rb| ==> rb[t] == CODE_63 {
      var z, y := c[|c| - m..], rb[|rb| - m..];
      var a := LowEnd(rb, m);
      var b := LowEnd(c, m);
      PowBig(m);
      SameRemainder(a, b, Pow256(m), BigEndian(y), BigEndian(z), e);
      SameEnds(z, y, e);
      assert z[..m - 1] == rb[..m - 1] && z[m - 1] == rb[m - 1];
      assert y[..m - 1] == rb[|rb| - m..|rb| - 1];
      HighBytes(rb, m, 0);
      assert false;
    }
    t :| m <= t < |rb| && rb[t] != CODE_63;
  }

  lemma PowBig(m: nat)
    requires m > 0
    ensures Pow256(m) >= 256
  {
    if m > 1 {
      PowBig(m - 1);
    }
  }

  // ---------- what a value says about the low bytes of its code ----------

  /** The bytes of one code. */
  predicate IsCode(rb: seq<Byte>) {
    1 <= |rb| <= 8 && FirstBit(rb[0]) == |rb|
  }

  lemma CodeRange(rb: seq<Byte>)
    requires IsCode(rb)
    ensures Range(|rb|) <= BigEndian(rb) < 2 * Range(|rb|)
  {
    hide BigEndian, Range;
    var v := |rb|;
    FirstBitIs(rb[0], v);
    assert rb == [rb[0]] + rb[1..];
    BigEndianConcat([rb[0]], rb[1..]);
    Single(rb[0]);
    BigEndianBelow(rb[1..]);
    RangeIs(v);
    Between(rb[0], Marker(v), Pow256(v - 1), BigEndian(rb[1..]));
  }

  lemma Between(a: int, b: int, p: int, x: int)
    requires b <= a < 2 * b && 0 <= x < p
    ensures b * p <= a * p + x < 2 * (b * p)
  {
    assert (a - b) * p >= 0;
    assert (2 * b - 1 - a) * p >= 0;
  }

  /** The difference that a code stands for is added to a size, in 32 bits. */
  predicate Adds(rb: seq<Byte>, size: int, d: int)
    requires IsCode(rb)
  {
    && 0 <= size < TWO_31 && 0 <= size + d < TWO_31
    && I32(size + (BigEndian(rb) - Range(|rb|) - WidthBias(|rb|))) == size + d
  }

  /** The code stands for a size, in 32 bits. */
  predicate Says(rb: seq<Byte>, s: int)
    requires IsCode(rb)
  {
    0 <= s < TWO_31 && I32(BigEndian(rb) - Range(|rb|)) == s
  }

  function Low(v: nat): int {
    if v <= 4 then 1 else 0
  }

  lemma Wrapped(x: int, y: int) returns (k: int)
    requires I32(x) == y
    ensures x == y + k * TWO_32
  {
    k := (x + TWO_31) / TWO_32;
  }

  lemma Powers()
    ensures Pow256(1) == 0x100 && Pow256(2) == 0x1_0000 && Pow256(3) == 0x100_0000 && Pow256(4) == 0x1_0000_0000
  {
    assert Pow256(0) == 1;
  }

  lemma Whole(k: int, a: int, b: int, n: int, p: int)
    requires p > 0 && n == a * p + k * (b * p)
    ensures n % p == 0
  {
    assert n == (a + k * b) * p;
    MultipleMod(a + k * b, p);
  }

  lemma MultipleMod(k: int, p: int)
    requires p > 0
    ensures (k * p) % p == 0
  {
    M.DivModUnique(k * p, p, k, 0);
  }

  lemma {:induction false} PowSplit(n: nat, m: nat)
    requires m <= n
    ensures Pow256(n) == Pow256(n - m) * Pow256(m)
  {
    if m < n {
      PowSplit(n - 1, m);
      assert 256 * (Pow256(n - 1 - m) * Pow256(m)) == (256 * Pow256(n - 1 - m)) * Pow256(m);
    }
  }

  lemma Product(k: int, n: nat, m: nat)
    requires m <= n
    ensures k * Pow256(n) == (k * Pow256(n - m)) * Pow256(m)
  {
    hide Pow256;
    PowSplit(n, m);
    Regrouped(k, Pow256(n - m), Pow256(m));
  }

  lemma Regrouped(k: int, a: int, b: int)
    ensures k * (a * b) == (k * a) * b
  {
  }

  /** The constant part of a code of v bytes is a whole number of units of 256^(v-1). */
  function Constant(v: Width): int {
    if v <= 4 then 3 * (Marker(v) / 2) else Marker(v)
  }

  lemma ConstantIs(v: Width)
    ensures Range(v) + WidthBias(v) + Low(v) == Constant(v) * Pow256(v - 1)
  {
    hide Pow256, Range;
    RangeIs(v);
    if v <= 4 {
      assert WidthBias(v) + 1 == (Marker(v) / 2) * Pow256(v - 1) by {
        Powers();
        ZeroPower();
        assert v == 1 || v == 2 || v == 3 || v == 4;
      }
      Triple(Marker(v) / 2, Pow256(v - 1));
    }
  }

  lemma ZeroPower()
    ensures Pow256(0) == 1
  {
  }

  lemma Triple(h: int, p: int)
    ensures (2 * h) * p + h * p == (3 * h) * p
  {
  }

  // ... and so of units of 256^m.
  lemma Units(v: nat, m: nat) returns (a: int, b: int)
    requires 0 < m < v <= 8 && m <= 4
    ensures Range(v) + WidthBias(v) + Low(v) == a * Pow256(m) && TWO_32 == b * Pow256(m)
  {
    hide Pow256, Range, WidthBias, Low, Constant;
    ConstantIs(v);
    Product(Constant(v), v - 1, m);
    a, b := Constant(v) * Pow256(v - 1 - m), Pow256(4 - m);
    Powers();
    PowSplit(4, m);
  }

  lemma UnitsOfRange(v: nat, m: nat) returns (a: int, b: int)
    requires 0 < m < v <= 8 && m <= 4
    ensures Range(v) == a * Pow256(m) && TWO_32 == b * Pow256(m)
  {
    hide Pow256, Range;
    RangeIs(v);
    Product(Marker(v), v - 1, m);
    a, b := Marker(v) * Pow256(v - 1 - m), Pow256(4 - m);
    Powers();
    PowSplit(4, m);
  }

  lemma AddsLow(rb: seq<Byte>, size: int, d: int, m: nat)
    requires IsCode(rb) && Adds(rb, size, d) && 0 < m < |rb| && m <= 4
    ensures (BigEndian(rb) - d + Low(|rb|)) % Pow256(m) == 0
  {
    hide BigEndian, Range, WidthBias, Low, I32, Pow256;
    var v := |rb|;
    var k := Wrapped(size + (BigEndian(rb) - Range(v) - WidthBias(v)), size + d);
    var a, b := Units(v, m);
    Whole(k, a, b, BigEndian(rb) - d + Low(v), Pow256(m));
  }

  lemma SaysLow(rb: seq<Byte>, s: int, m: nat)
    requires IsCode(rb) && Says(rb, s) && 0 < m < |rb| && m <= 4
    ensures (BigEndian(rb) - s) % Pow256(m) == 0
  {
    hide BigEndian, Range, I32, Pow256;
    var v := |rb|;
    var k := Wrapped(BigEndian(rb) - Range(v), s);
    var a, b := UnitsOfRange(v, m);
    Whole(k, a, b, BigEndian(rb) - s, Pow256(m));
  }

  // ---------- a shorter code for the same value ----------

  // A value is never written with more bytes than necessary, except if all bits of the shorter code are set.
  lemma ShorterAdds(rb: seq<Byte>, size: int, d: Int64)
    requires IsCode(rb) && Adds(rb, size, d) && |rb| < CodedSizeLengthSigned(d, 0)
    ensures |rb| == CodedSizeLengthSigned(d, 0) - 1
    ensures BigEndian(rb) == 2 * Range(|rb|) - 1 && d == WidthBias(|rb|) + 1
  {
    hide BigEndian, Range;
    CodeRange(rb);
    RangeValues();
  }

  lemma ShorterSays(rb: seq<Byte>, s: nat)
    requires IsCode(rb) && Says(rb, s) && |rb| < CodedSizeLength(s, 0, true)
    ensures |rb| == CodedSizeLength(s, 0, true) - 1
    ensures BigEndian(rb) == 2 * Range(|rb|) - 1 && s == Range(|rb|) - 1
  {
    hide BigEndian, Range;
    CodeRange(rb);
    RangeValues();
  }

  lemma EndsInOnes(rb: seq<Byte>)
    requires 1 <= |rb| <= 8 && BigEndian(rb) == 2 * Range(|rb|) - 1
    ensures rb[|rb| - 1] == 255
  {
    hide Range;
    RangeValues();
    LastByte(rb);
  }

  // Such a code is not the end of the longer one.
  lemma NotTheEnd(c: seq<Byte>, rb: seq<Byte>, x: int)
    requires 1 <= |rb| <= 4 && |c| == |rb| + 1 && BigEndian(rb) == 2 * Range(|rb|) - 1
    requires 0 <= x < Range(|rb|) && (BigEndian(c) - x) % Pow256(|rb|) == 0
    ensures c[1..] != rb
  {
    hide BigEndian, Range, Pow256;
    var m := |rb|;
    var h := LowEnd(c, m);
    RangeValues();
    Powers();
    SameRemainder(h, 0, Pow256(m), BigEndian(c[1..]), x, 0);
  }

  // ---------- one code written at p, and one read at q ----------

  lemma SignedIsCode(d: Int64, size: int)
    requires -TWO_31 < d < TWO_31 && 0 <= size < TWO_31 && 0 <= size + d < TWO_31
    ensures var c := CodedSigned(d, CodedSizeLengthSigned(d, 0));
      |c| == CodedSizeLengthSigned(d, 0) && IsCode(c) && Adds(c, size, d)
  {
    hide BigEndian, Range, Coded, I32;
    var w := CodedSizeLengthSigned(d, 0);
    var c := CodedSigned(d, w);
    FirstBitOfCoded(c[0], w);
    DifferenceBack(d, [], size);
    assert c + [] == c && c[..w] == c;
  }

  lemma SizeIsCode(s: nat)
    requires s < TWO_31
    ensures var c := Coded(s, CodedSizeLength(s, 0, true));
      |c| == CodedSizeLength(s, 0, true) && IsCode(c) && Says(c, s)
  {
    hide BigEndian, Range, Coded, I32;
    var w := CodedSizeLength(s, 0, true);
    var c := Coded(s, w);
    FirstBitOfCoded(c[0], w);
    FirstBack(s, []);
    assert c + [] == c && c[..w] == c;
  }

  // The code that is read overlaps the one that is written, and stands for the same difference.
  lemma AddsBeyond(c: seq<Byte>, rb: seq<Byte>, m: nat, size: int, d: Int64) returns (t: nat)
    requires IsCode(c) && IsCode(rb) && Adds(c, size, d) && Adds(rb, size, d)
    requires |c| == CodedSizeLengthSigned(d, 0) && 0 < m < |c|
    requires if m < |rb| then c[|c| - m..] == rb[..m] else c[|c| - m..][..|rb|] == rb
    ensures m <= t < |rb| && rb[t] != CODE_63
  {
    hide BigEndian, Range, I32, Pow256;
    var v, w := |rb|, |c|;
    AddsLow(c, size, d, m);
    if v < w {
      ShorterAdds(rb, size, d);
      RangeValues();
      if m < v {
        EndsInOnes(rb);
        t := v - 1;
      } else {
        NotTheEnd(c, rb, d - Low(w));
        assert false;
      }
    } else {
      AddsLow(rb, size, d, m);
      CloseNumbers(BigEndian(rb), BigEndian(c), d, Low(v), Low(w), Pow256(m));
      t := Overlap(c, rb, m, Low(w) - Low(v));
    }
  }

  lemma CloseNumbers(r: int, c: int, d: int, lr: int, lc: int, p: int)
    requires p > 0 && (r - d + lr) % p == 0 && (c - d + lc) % p == 0
    ensures (r - c - (lc - lr)) % p == 0
  {
    var a, b := (r - d + lr) / p, (c - d + lc) / p;
    assert r - c - (lc - lr) == (a - b) * p;
    MultipleMod(a - b, p);
  }

  lemma SaysBeyond(c: seq<Byte>, rb: seq<Byte>, m: nat, s: nat) returns (t: nat)
    requires IsCode(c) && IsCode(rb) && Says(c, s) && Says(rb, s)
    requires |c| == CodedSizeLength(s, 0, true) && 0 < m < |c|
    requires if m < |rb| then c[|c| - m..] == rb[..m] else c[|c| - m..][..|rb|] == rb
    ensures m <= t < |rb| && rb[t] != CODE_63
  {
    hide BigEndian, Range, I32, Pow256;
    var v, w := |rb|, |c|;
    SaysLow(c, s, m);
    if v < w {
      ShorterSays(rb, s);
      RangeValues();
      if m < v {
        EndsInOnes(rb);
        t := v - 1;
      } else {
        NotTheEnd(c, rb, s);
        assert false;
      }
    } else {
      SaysLow(rb, s, m);
      CloseNumbers(BigEndian(rb), BigEndian(c), s, 0, 0, Pow256(m));
      t := Overlap(c, rb, m, 0);
    }
  }

  // ---------- reading on from q what was written from p on ----------

  lemma CodeRead(data: seq<Byte>, q: nat, last: int)
    requires q <= |data|
    ensures var r := ReadCoded(Window(data, q, last));
      && (r.used == 0 ==> r.value == 0)
      && (r.used > 0 ==> q + r.used <= |data| && IsCode(data[q..q + r.used]))
      && (r.used > 0 ==> r.value == BigEndian(data[q..q + r.used]) - Range(r.used))
  {
    hide BigEndian, Range;
    var bs := Window(data, q, last);
    var c := ReadCoded(bs).used;
    if c > 0 {
      assert bs[..c] == data[q..q + c];
    }
  }

  lemma ReadsZero(rb: seq<Byte>)
    requires IsCode(rb) && rb[0] == CODE_63
    ensures |rb| == 1 && BigEndian(rb) - Range(1) == 63
  {
    Single(CODE_63);
    assert rb == [CODE_63];
  }

  lemma SlicesOverlap(data: seq<Byte>, p: nat, w: nat, q: nat, v: nat)
    requires p < q < p + w <= |data| && q + v <= |data|
    ensures var c, rb, m := data[p..p + w], data[q..q + v], p + w - q;
      if m < v then c[w - m..] == rb[..m] else c[w - m..][..v] == rb
  {
  }

  /** One difference further, there still is such a byte between the two places. */
  lemma StepKeeps(data: seq<Byte>, p: nat, q: nat, t: nat, d: Int64, size: int, last: int) returns (u: nat)
    requires p <= t < q <= |data| && data[t] != CODE_63
    requires -TWO_31 < d < TWO_31 && 0 <= size < TWO_31 && 0 <= size + d < TWO_31
    requires var w := CodedSizeLengthSigned(d, 0); p + w <= |data| && data[p..p + w] == CodedSigned(d, w)
    requires I32(size + ReadCodedSigned(Window(data, q, last)).value) == size + d
    ensures p + CodedSizeLengthSigned(d, 0) <= u < q + ReadCodedSigned(Window(data, q, last)).used
    ensures data[u] != CODE_63
  {
    hide ReadCoded, Window, I32, BigEndian, Range, CodedSigned, FirstBit, CodedSizeLengthSigned;
    var v, w := ReadCoded(Window(data, q, last)).used, CodedSizeLengthSigned(d, 0);
    CodeRead(data, q, last);
    SignedIsCode(d, size);
    if d == 0 {
      ZeroIsCode();
      assert data[p] == data[p..p + 1][0];
      u := t;
    } else {
      assert v > 0;
      var c, rb := data[p..p + w], data[q..q + v];
      if rb[0] == CODE_63 {
        ReadsZero(rb);
        assert false;
      }
      if p + w <= q {
        u := q;
      } else {
        SlicesOverlap(data, p, w, q, v);
        var k := AddsBeyond(c, rb, p + w - q, size, d);
        u := q + k;
      }
    }
  }

  lemma ZeroIsCode()
    ensures CodedSizeLengthSigned(0, 0) == 1 && CodedSigned(0, 1) == [CODE_63]
  {
    assert ShiftBytes(63, 0) == 63 && LowBytes(63, 0) == [];
  }

  /** The differences of the sizes from i on are written from p up to end. */
  ghost predicate WrittenAt(data: seq<Byte>, p: nat, end: nat, fs: seq<Frame>, i: nat)
    requires 0 < i < |fs|
  {
    p <= end <= |data| && data[p..end] == EbmlFrom(fs, i) && forall j :: 0 <= j < |fs| ==> |fs[j]| < TWO_31
  }

  lemma NextWritten(data: seq<Byte>, p: nat, end: nat, fs: seq<Frame>, i: nat)
    requires 0 < i < |fs| - 1 && WrittenAt(data, p, end, fs, i)
    ensures var d := Difference(fs, i);
      var w := CodedSizeLengthSigned(d, 0);
      && -TWO_31 < d < TWO_31 && p + w <= end <= |data| && data[p..p + w] == CodedSigned(d, w)
      && WrittenAt(data, p + w, end, fs, i + 1)
  {
    hide CodedSigned, CodedSizeLengthSigned;
    var d := Difference(fs, i);
    var w := CodedSizeLengthSigned(d, 0);
    SignedWidth(d);
    assert EbmlFrom(fs, i) == CodedSigned(d, w) + EbmlFrom(fs, i + 1);
    assert data[p..p + w] == data[p..end][..w] == CodedSigned(d, w);
    assert data[p + w..end] == data[p..end][w..] == EbmlFrom(fs, i + 1);
  }

  /** Reading from q on gives the sizes from i on, and ends where the header ends. */
  predicate FindsSizes(data: seq<Byte>, q: nat, last: int, sizes: seq<int>, fs: seq<Frame>, i: nat, end: nat)
    requires 0 < i < |fs| && q <= |data|
  {
    var r := ReadEbmlSizes(data, q, last, sizes, |fs[i - 1]|, |fs| - 1 - i);
    r.Some? && r.value.sizes == sizes + Lengths(fs, i, |fs| - 1) && r.value.pos == end
  }

  lemma {:induction false} SizesExtend(data: seq<Byte>, pos: nat, last: int, sizes: seq<int>, size: int, k: nat)
    requires pos <= |data|
    ensures var r := ReadEbmlSizes(data, pos, last, sizes, size, k);
      r.Some? ==> |r.value.sizes| >= |sizes| && r.value.sizes[..|sizes|] == sizes
    decreases k
  {
    hide U32, I32, ReadCodedSigned, Window;
    if k > 0 && ReadEbmlSizes(data, pos, last, sizes, size, k).Some? {
      var r := ReadCodedSigned(Window(data, pos, last));
      var s := I32(size + r.value);
      var more := sizes + [s];
      SizesExtend(data, pos + r.used, U32(last - (s + r.used)), more, s, k - 1);
      assert more[..|sizes|] == sizes;
    }
  }

  // One size read, and what is left to be read.
  lemma NextFound(data: seq<Byte>, q: nat, last: int, sizes: seq<int>, fs: seq<Frame>, i: nat, end: nat)
    requires 0 < i < |fs| - 1 && q <= |data| && FindsSizes(data, q, last, sizes, fs, i, end)
    ensures var r := ReadCodedSigned(Window(data, q, last));
      && I32(|fs[i - 1]| + r.value) == |fs[i]| > 0 && q + r.used <= |data| && U32(|fs[i]| + r.used) <= last
      && FindsSizes(data, q + r.used, U32(last - (|fs[i]| + r.used)), sizes + [|fs[i]|], fs, i + 1, end)
  {
    hide U32, I32, ReadCodedSigned, Window;
    var r := ReadCodedSigned(Window(data, q, last));
    var s := I32(|fs[i - 1]| + r.value);
    var all := sizes + Lengths(fs, i, |fs| - 1);
    SizesExtend(data, q + r.used, U32(last - (s + r.used)), sizes + [s], s, |fs| - 2 - i);
    assert all[|sizes|] == |fs[i]| && all[..|sizes| + 1][|sizes|] == s;
    LengthsFrom(fs, i, |fs| - 1, sizes);
  }

  lemma FoundNothing(data: seq<Byte>, q: nat, last: int, sizes: seq<int>, fs: seq<Frame>, end: nat)
    requires 1 < |fs| && q <= |data| && FindsSizes(data, q, last, sizes, fs, |fs| - 1, end)
    ensures q == end
  {
  }

  /** So the two places never meet, and the header is not read back. */
  lemma {:induction false} NeverMeet(data: seq<Byte>, p: nat, q: nat, t: nat, last: int, sizes: seq<int>,
                                     fs: seq<Frame>, i: nat, end: nat)
    requires 0 < i < |fs| && WrittenAt(data, p, end, fs, i) && p <= t < q <= |data| && data[t] != CODE_63
    ensures !FindsSizes(data, q, last, sizes, fs, i, end)
    decreases |fs| - i
  {
    hide WrittenAt, FindsSizes, ReadCodedSigned, Window, CodedSigned, CodedSizeLengthSigned, U32, I32;
    if FindsSizes(data, q, last, sizes, fs, i, end) {
      if i == |fs| - 1 {
        FoundNothing(data, q, last, sizes, fs, end);
        NothingWritten(data, p, end, fs);
      } else {
        NextFound(data, q, last, sizes, fs, i, end);
        NextWritten(data, p, end, fs, i);
        SmallFrame(data, p, end, fs, i);
        var d, r := Difference(fs, i), ReadCodedSigned(Window(data, q, last));
        var u := StepKeeps(data, p, q, t, d, |fs[i - 1]|, last);
        NeverMeet(data, p + CodedSizeLengthSigned(d, 0), q + r.used, u, U32(last - (|fs[i]| + r.used)),
                  sizes + [|fs[i]|], fs, i + 1, end);
      }
    }
  }

  lemma NothingWritten(data: seq<Byte>, p: nat, end: nat, fs: seq<Frame>)
    requires 1 < |fs| && WrittenAt(data, p, end, fs, |fs| - 1)
    ensures p == end
  {
    assert |data[p..end]| == 0;
  }

  lemma SmallFrame(data: seq<Byte>, p: nat, end: nat, fs: seq<Frame>, i: nat)
    requires 0 < i < |fs| && WrittenAt(data, p, end, fs, i)
    ensures |fs[i - 1]| < TWO_31 && |fs[i]| < TWO_31
  {
  }

  // ---------- only the codes of 63 are left ----------

  // The written code that begins with this byte is the whole code of no difference.
  lemma BeginsWith63(data: seq<Byte>, p: nat, d: Int64, size: int)
    requires -TWO_31 < d < TWO_31 && 0 <= size < TWO_31 && 0 <= size + d < TWO_31
    requires var w := CodedSizeLengthSigned(d, 0);
      p + w <= |data| && data[p..p + w] == CodedSigned(d, w) && data[p] == CODE_63
    ensures d == 0 && CodedSizeLengthSigned(d, 0) == 1
  {
    hide CodedSigned, BigEndian, Range, CodedSizeLengthSigned, FirstBit;
    SignedIsCode(d, size);
    ReadsZero(CodedSigned(d, CodedSizeLengthSigned(d, 0)));
  }

  // What is read where the frames start: the byte there begins no code at all.
  lemma NoCode(data: seq<Byte>, q: nat, last: int)
    requires q <= |data| && 8 <= last <= |data| - q && ReadCodedSigned(Window(data, q, last)).used == 0
    ensures q < |data| && data[q] == 0
  {
  }

  lemma RestRead(data: seq<Byte>, q: nat, end: nat, fs: seq<Frame>, i: nat, last: int)
    requires 0 < i < |fs| - 1 && WrittenAt(data, q, end, fs, i) && end - q <= last
    ensures ReadCodedSigned(Window(data, q, last)).used > 0
  {
    hide ReadCodedSigned, Window, EbmlFrom, CodedSizeLengthSigned;
    assert data[q..][..end - q] == EbmlFrom(fs, i);
    OneDifference(data, q, fs, i, last);
    SignedWidth(Difference(fs, i));
  }

  // A code that reads as no difference, and begins with this byte or not.
  lemma ReadsNoDifference(data: seq<Byte>, q: nat, last: int)
    requires q <= |data| && ReadCodedSigned(Window(data, q, last)).used > 0
    requires I32(63 + ReadCodedSigned(Window(data, q, last)).value) == 63
    ensures var v := ReadCodedSigned(Window(data, q, last)).used;
      q + v <= |data| && (if v == 1 then data[q] == CODE_63 else data[q] != CODE_63)
  {
    hide ReadCoded, Window, BigEndian, FirstBit;
    CodeRead(data, q, last);
    var v := ReadCoded(Window(data, q, last)).used;
    var rb := data[q..q + v];
    if v == 1 {
      CodeRange(rb);
      Single(data[q]);
      assert rb == [data[q]];
      RangeValues();
    } else if rb[0] == CODE_63 {
      ReadsZero(rb);
    }
  }

  predicate All63(fs: seq<Frame>, i: nat) {
    forall j :: i <= j < |fs| - 1 ==> |fs[j]| == 63
  }

  /** With a single code of 63 between the two places, all the sizes are 63. */
  lemma {:induction false} OnlyEqual(data: seq<Byte>, p: nat, last: int, sizes: seq<int>, fs: seq<Frame>, i: nat, end: nat)
    requires 0 < i < |fs| && |fs[i - 1]| == 63
    requires WrittenAt(data, p, end, fs, i) && p < |data| && data[p] == CODE_63
    requires FindsSizes(data, p + 1, last, sizes, fs, i, end)
    requires last == end - (p + 1) + SizeSum(fs, i) && last <= |data| - (p + 1) && last < TWO_31
    ensures All63(fs, i) && end < |data| && data[end] == 0
    decreases |fs| - i
  {
    hide WrittenAt, FindsSizes, ReadCodedSigned, Window, CodedSigned, CodedSizeLengthSigned, I32;
    if i == |fs| - 1 {
      FoundNothing(data, p + 1, last, sizes, fs, end);
      NothingWritten(data, p, end, fs);
      assert false;
    } else {
      NextFound(data, p + 1, last, sizes, fs, i, end);
      NextWritten(data, p, end, fs, i);
      SmallFrame(data, p, end, fs, i);
      var d, r, next := Difference(fs, i), ReadCodedSigned(Window(data, p + 1, last)), U32(last - (63 + ReadCodedSigned(Window(data, p + 1, last)).used));
      BeginsWith63(data, p, d, 63);
      SumStep(fs, i);
      if r.used == 0 {
        if i == |fs| - 2 {
          FoundNothing(data, p + 1, next, sizes + [63], fs, end);
          NoCode(data, end, last);
        } else {
          RestRead(data, p + 1, end, fs, i + 1, last);
          assert false;
        }
      } else {
        ReadsNoDifference(data, p + 1, last);
        if r.used == 1 {
          OnlyEqual(data, p + 1, next, sizes + [63], fs, i + 1, end);
        } else {
          NeverMeet(data, p + 1, p + 1 + r.used, p + 1, next, sizes + [63], fs, i + 1, end);
          assert false;
        }
      }
    }
  }

  lemma SumStep(fs: seq<Frame>, i: nat)
    requires i < |fs|
    ensures SizeSum(fs, i) == |fs[i]| + SizeSum(fs, i + 1)
  {
  }

  // ---------- the first size ----------

  /** The lace header without the count, from p up to end. */
  ghost predicate SizesAt(data: seq<Byte>, p: nat, end: nat, fs: seq<Frame>)
    requires |fs| > 1
  {
    && p <= end <= |data| && data[p..end] == FirstSize(fs) + EbmlFrom(fs, 1)
    && forall j :: 0 <= j < |fs| ==> |fs[j]| < TWO_31
  }

  lemma FirstWritten(data: seq<Byte>, p: nat, end: nat, fs: seq<Frame>)
    requires |fs| > 1 && SizesAt(data, p, end, fs)
    ensures var w := |FirstSize(fs)|;
      w >= 1 && p + w <= end <= |data| && data[p..p + w] == FirstSize(fs) && WrittenAt(data, p + w, end, fs, 1)
    ensures |fs[0]| < TWO_31
  {
    hide EbmlFrom, Coded;
    var w := |FirstSize(fs)|;
    assert data[p..p + w] == data[p..end][..w] == FirstSize(fs);
    assert data[p + w..end] == data[p..end][w..] == EbmlFrom(fs, 1);
  }

  /** The whole lace header, without the count, is read back from q on. */
  predicate LaceFound(data: seq<Byte>, q: nat, last: int, fs: seq<Frame>, end: nat)
    requires |fs| > 1 && q <= |data|
  {
    var r := ReadEbmlLace(data, q, last, |fs| - 1);
    r.Some? && r.value.sizes == Lengths(fs, 0, |fs|) && r.value.pos == end
  }

  // The first size read, and what is left to be read.
  lemma FirstFound(data: seq<Byte>, q: nat, last: int, fs: seq<Frame>, end: nat)
    requires |fs| > 1 && q <= |data| && LaceFound(data, q, last, fs, end)
    ensures var r := ReadCoded(Window(data, q, last));
      && I32(r.value) == |fs[0]| > 0 && r.used > 0 && q + r.used <= |data| && U32(|fs[0]| + r.used) <= last
      && FindsSizes(data, q + r.used, U32(last - (|fs[0]| + r.used)), [|fs[0]|], fs, 1, end)
  {
    hide U32, ReadCoded, Window, ReadEbmlSizes;
    CodeRead(data, q, last);
    var r := ReadCoded(Window(data, q, last));
    var s := I32(r.value);
    var lace := ReadEbmlSizes(data, q + r.used, U32(last - (s + r.used)), [s], s, |fs| - 2).value;
    SizesExtend(data, q + r.used, U32(last - (s + r.used)), [s], s, |fs| - 2);
    var all := lace.sizes + [I32(lace.last)];
    assert all == Lengths(fs, 0, |fs|);
    assert s == lace.sizes[..1][0] == all[0] == |fs[0]|;
    assert lace.sizes == all[..|fs| - 1] == [s] + Lengths(fs, 1, |fs| - 1);
  }

  // It must begin with a code of 63.
  lemma FirstIs63(data: seq<Byte>, p: nat, end: nat, fs: seq<Frame>, last: int)
    requires |fs| > 1 && SizesAt(data, p, end, fs) && p < |data| && LaceFound(data, p + 1, last, fs, end)
    ensures |fs[0]| == 63 && |FirstSize(fs)| == 1 && data[p] == CODE_63
    ensures p + 1 < |data| && data[p + 1] == CODE_63 && ReadCoded(Window(data, p + 1, last)).used == 1
  {
    hide SizesAt, WrittenAt, LaceFound, FindsSizes, ReadCoded, Window, I32, BigEndian, FirstBit, FirstSize, CodedSizeLength;
    FirstWritten(data, p, end, fs);
    FirstFound(data, p + 1, last, fs, end);
    CodeRead(data, p + 1, last);
    var s, v, w := |fs[0]|, ReadCoded(Window(data, p + 1, last)).used, |FirstSize(fs)|;
    var rb, next := data[p + 1..p + 1 + v], U32(last - (s + v));
    FirstCode(fs);
    if w > 1 {
      SlicesOverlap(data, p, w, p + 1, v);
      var k := SaysBeyond(data[p..p + w], rb, w - 1, s);
      NeverMeet(data, p + w, p + 1 + v, p + 1 + k, next, [s], fs, 1, end);
      assert false;
    } else if rb[0] != CODE_63 {
      NeverMeet(data, p + 1, p + 1 + v, p + 1, next, [s], fs, 1, end);
      assert false;
    } else {
      ReadsZero(rb);
      SizeOf63(fs);
      assert data[p] == data[p..p + 1][0];
    }
  }

  /** A header that is read back from its second byte on has sizes of 63 only, and a zero byte behind it. */
  lemma ShiftedIsEqual(data: seq<Byte>, p: nat, end: nat, fs: seq<Frame>, last: int)
    requires |fs| > 1 && SizesAt(data, p, end, fs) && p < |data|
    requires last == end - (p + 1) + SizeSum(fs, 0) && last <= |data| - (p + 1) && last < TWO_31
    requires LaceFound(data, p + 1, last, fs, end)
    ensures All63(fs, 0) && data[p] == CODE_63 && end < |data| && data[end] == 0
  {
    hide SizesAt, WrittenAt, LaceFound, FindsSizes, ReadCoded, Window, FirstSize;
    FirstWritten(data, p, end, fs);
    FirstFound(data, p + 1, last, fs, end);
    FirstIs63(data, p, end, fs, last);
    SumStep(fs, 0);
    OnlyEqual(data, p + 1, last - 64, [63], fs, 1, end);
  }

  lemma FirstCode(fs: seq<Frame>)
    requires |fs| > 0 && |fs[0]| < TWO_31
    ensures var c := FirstSize(fs);
      |c| == CodedSizeLength(|fs[0]|, 0, true) && IsCode(c) && Says(c, |fs[0]|)
  {
    hide CodedSizeLength, Coded, Says;
    SizeIsCode(|fs[0]|);
  }

  lemma SizeOf63(fs: seq<Frame>)
    requires |fs| > 0 && |fs[0]| == 63
    ensures FirstSize(fs) == [CODE_63]
  {
    assert ShiftBytes(63, 0) == 63 && LowBytes(63, 0) == [];
  }
}
