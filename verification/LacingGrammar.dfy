/**
 Exactly the laces that ReadData accepts (libmatroska/src/KaxBlock.cpp, lines 450-560), whoever wrote
 them: a grammar of size codes, as section 10.3 of RFC 9559 lays them out, with the peculiarities of this reader.
 */
module LacingGrammar {
  import opened Wrappers
  import opened Bytes
  import opened EbmlSize
  import opened Lacing
  import opened LacingProofs
  import opened LacingChoice
  import opened LacingBytes
  import M = Modular

  // ---------- 32-bit sums ----------

  lemma SameRemainder(a: int, b: int, q: int, n: int)
    requires n > 0 && a == b + q * n
    ensures a % n == b % n
  {
    M.DivModUnique(a, n, b / n + q, b % n);
  }

  lemma WrapTwice(a: int, b: int)
    ensures I32(I32(a) + b) == I32(a + b) && U32(U32(a) - b) == U32(a - b)
  {
    var q, r := (a + TWO_31) / TWO_32, a / TWO_32;
    assert I32(a) == a - q * TWO_32 && U32(a) == a - r * TWO_32;
    SameRemainder(I32(a) + b + TWO_31, a + b + TWO_31, -q, TWO_32);
    SameRemainder(U32(a) - b, a - b, -r, TWO_32);
  }

  function Sum(ss: seq<int>): int {
    if |ss| == 0 then 0 else ss[0] + Sum(ss[1..])
  }

  lemma {:induction false} SumOfLengths(fs: seq<Frame>, i: nat, n: nat)
    requires i <= n < |fs|
    ensures Sum(Lengths(fs, i, n)) + SizeSum(fs, n) == SizeSum(fs, i)
    decreases n - i
  {
    hide SizeSum;
    SizeSumStep(fs, i);
    if i < n {
      SumOfLengths(fs, i + 1, n);
      assert Lengths(fs, i, n)[1..] == Lengths(fs, i + 1, n);
    }
  }

  lemma SizeSumStep(fs: seq<Frame>, i: nat)
    requires i < |fs|
    ensures SizeSum(fs, i) == |fs[i]| + SizeSum(fs, i + 1)
    ensures i == |fs| - 1 ==> SizeSum(fs, i) == |fs[i]|
  {
  }

  // ---------- Xiph laces ----------

  /** The sizes one behind the other; a size may take any number of bytes. */
  function XiphCodes(ts: seq<nat>): seq<Byte> {
    if |ts| == 0 then [] else XiphOf(ts[0]) + XiphCodes(ts[1..])
  }

  /** The 32-bit sums in which the reader collects them. */
  function Wrapped(ts: seq<nat>): (ss: seq<int>)
    ensures |ss| == |ts| && forall i :: 0 <= i < |ts| ==> ss[i] == I32(ts[i])
  {
    if |ts| == 0 then [] else [I32(ts[0])] + Wrapped(ts[1..])
  }

  lemma {:induction false} XiphSizeAny(data: seq<Byte>, pos: nat, t: nat, acc: int)
    requires At(data, pos, XiphOf(t)) && acc == I32(acc)
    ensures ReadXiphSize(data, pos, acc) == Some((I32(acc + t), pos + |XiphOf(t)|))
    decreases t
  {
    hide I32;
    assert data[pos..][0] == XiphOf(t)[0];
    if t >= 255 {
      AtConcat(data, pos, [255], XiphOf(t - 255));
      WrapTwice(acc + 255, 0);
      XiphSizeAny(data, pos + 1, t - 255, I32(acc + 255));
      WrapTwice(acc + 255, t - 255);
      assert data[pos] == 255;
    }
  }

  lemma {:induction false} XiphSizeFound(data: seq<Byte>, pos: nat, acc: int) returns (t: nat)
    requires pos <= |data| && ReadXiphSize(data, pos, acc).Some?
    ensures At(data, pos, XiphOf(t)) && ReadXiphSize(data, pos, acc).value.1 == pos + |XiphOf(t)|
    decreases |data| - pos
  {
    hide I32;
    if data[pos] == 255 {
      var u := XiphSizeFound(data, pos + 1, I32(acc + 255));
      t := u + 255;
      assert XiphOf(t) == [255] + XiphOf(u);
      assert data[pos..] == [255] + data[pos + 1..];
    } else {
      t := data[pos];
      assert data[pos..] == [data[pos]] + data[pos + 1..];
    }
  }

  lemma XiphStep(data: seq<Byte>, pos: nat, last: int, sizes: seq<int>, k: nat, s: int, n: nat)
    requires pos + n <= |data| && n > 0 && ReadXiphSize(data, pos, 0) == Some((s, pos + n))
    ensures ReadXiphSizes(data, pos, last, sizes, k + 1) == ReadXiphSizes(data, pos + n, U32(last - n - s), sizes + [s], k)
  {
    hide U32, ReadXiphSize;
  }

  lemma XiphNoStep(data: seq<Byte>, pos: nat, last: int, sizes: seq<int>)
    requires pos <= |data|
    ensures ReadXiphSizes(data, pos, last, sizes, 0) == Some(Lace(sizes, pos, last))
  {
  }

  lemma XiphCodesAre(ts: seq<nat>)
    ensures |ts| > 0 ==> XiphCodes(ts) == XiphOf(ts[0]) + XiphCodes(ts[1..]) && Wrapped(ts) == [I32(ts[0])] + Wrapped(ts[1..])
    ensures |ts| == 0 ==> XiphCodes(ts) == [] && Wrapped(ts) == []
    ensures |ts| > 0 ==> Sum(Wrapped(ts)) == I32(ts[0]) + Sum(Wrapped(ts[1..]))
    ensures Sum([]) == 0
  {
    hide I32, XiphOf;
    if |ts| > 0 {
      SumFront(I32(ts[0]), Wrapped(ts[1..]));
    }
  }

  lemma SumFront(s: int, ss: seq<int>)
    ensures Sum([s] + ss) == s + Sum(ss)
  {
    assert ([s] + ss)[1..] == ss;
  }

  lemma {:induction false} XiphForward(data: seq<Byte>, pos: nat, last: int, sizes: seq<int>, ts: seq<nat>)
    requires At(data, pos, XiphCodes(ts)) && 0 <= last < TWO_32
    ensures ReadXiphSizes(data, pos, last, sizes, |ts|) ==
      Some(Lace(sizes + Wrapped(ts), pos + |XiphCodes(ts)|, U32(last - |XiphCodes(ts)| - Sum(Wrapped(ts)))))
    decreases |ts|
  {
    hide I32, U32, XiphOf, ReadXiphSize, ReadXiphSizes, At, XiphCodes, Wrapped, Sum;
    XiphCodesAre(ts);
    if |ts| > 0 {
      var code, s, rest := XiphOf(ts[0]), I32(ts[0]), ts[1..];
      AtConcat(data, pos, code, XiphCodes(rest));
      AtIn(data, pos, code);
      AtIn(data, pos + |code|, XiphCodes(rest));
      WrapTwice(0, 0);
      XiphSizeAny(data, pos, ts[0], 0);
      XiphStep(data, pos, last, sizes, |rest|, s, |code|);
      XiphForward(data, pos + |code|, U32(last - |code| - s), sizes + [s], rest);
      WrapTwice(last - |code| - s, |XiphCodes(rest)| + Sum(Wrapped(rest)));
      assert sizes + [s] + Wrapped(rest) == sizes + ([s] + Wrapped(rest));
    } else {
      assert sizes + Wrapped(ts) == sizes;
      AtIn(data, pos, XiphCodes(ts));
      XiphNoStep(data, pos, last, sizes);
    }
  }

  lemma {:induction false} XiphFound(data: seq<Byte>, pos: nat, last: int, sizes: seq<int>, k: nat) returns (ts: seq<nat>)
    requires pos <= |data| && ReadXiphSizes(data, pos, last, sizes, k).Some?
    ensures |ts| == k && At(data, pos, XiphCodes(ts))
    decreases k
  {
    hide I32, U32, XiphOf, ReadXiphSize;
    if k == 0 {
      ts := [];
    } else {
      var (s, p) := ReadXiphSize(data, pos, 0).value;
      var t := XiphSizeFound(data, pos, 0);
      var us := XiphFound(data, p, U32(last - (p - pos) - s), sizes + [s], k - 1);
      ts := [t] + us;
      assert ts[1..] == us;
      AtBoth(data, pos, XiphOf(t), XiphCodes(us));
    }
  }

  lemma AtBoth(data: seq<Byte>, pos: nat, a: seq<Byte>, b: seq<Byte>)
    requires At(data, pos, a) && At(data, pos + |a|, b)
    ensures At(data, pos, a + b)
  {
    assert data[pos..] == a + data[pos + |a|..];
  }

  /** A Xiph lace of these frames; sizes are compared as signed 32-bit numbers. */
  ghost predicate IsXiphLace(bs: seq<Byte>, fs: seq<Frame>, ts: seq<nat>) {
    && |ts| == |fs| - 1 <= 254
    && bs == [|fs| - 1] + XiphCodes(ts) + Concat(fs)
    && forall i :: 0 <= i < |ts| ==> I32(ts[i]) == |fs[i]|
  }

  lemma LaceSplit(data: seq<Byte>, h: nat, k: Byte, codes: seq<Byte>, rest: seq<Byte>)
    requires h <= |data| && data[h..] == [k] + codes + rest
    ensures h < |data| && data[h] == k && data[h + 1..] == codes + rest && At(data, h + 1, codes)
    ensures h + 1 + |codes| <= |data| && data[h + 1 + |codes|..] == rest
  {
    assert data[h..] == [k] + (codes + rest);
    SliceAfter(data, h, [k], codes + rest);
    SliceAfter(data, h + 1, codes, rest);
  }

  lemma XiphSizesAre(fs: seq<Frame>, ts: seq<nat>, last: nat, n: nat)
    requires |fs| > 0 && |ts| == |fs| - 1 && last == n + SizeSum(fs, 0) < TWO_31
    requires forall i :: 0 <= i < |ts| ==> I32(ts[i]) == |fs[i]|
    ensures Wrapped(ts) + [I32(U32(last - n - Sum(Wrapped(ts))))] == Lengths(fs, 0, |fs|)
  {
    hide I32, U32, SizeSum, Sum;
    var k := |ts|;
    assert Wrapped(ts) == Lengths(fs, 0, k);
    SumOfLengths(fs, 0, k);
    SizeSumStep(fs, k);
    LastSize(fs);
  }

  lemma XiphIsRead(data: seq<Byte>, h: nat, fs: seq<Frame>, ts: seq<nat>)
    requires h <= |data| < TWO_31 && IsXiphLace(data[h..], fs, ts)
    ensures ParseFrames(data, Xiph, h) == Some(fs)
  {
    hide I32, U32, XiphCodes, ReadXiphSizes, Concat, Cut, Sum, SizeSum, At;
    LaceSplit(data, h, |fs| - 1, XiphCodes(ts), Concat(fs));
    ConcatIsSum(fs);
    var last, at := |data| - h - 1, h + 1 + |XiphCodes(ts)|;
    assert |data[h + 1..]| == last;
    XiphForward(data, h + 1, last, [], ts);
    assert [] + Wrapped(ts) == Wrapped(ts);
    XiphSizesAre(fs, ts, last, |XiphCodes(ts)|);
    CutBack(data, at, fs);
  }

  // What is parsed was cut where the lace said.
  lemma CutByParse(data: seq<Byte>, l: LacingType, h: nat, fs: seq<Frame>)
    requires h <= |data| < TWO_31 && l != NoLacing && ParseFrames(data, l, h) == Some(fs)
    ensures h < |data| && data[h] < 255
    ensures var r := ReadLace(data, l, h + 1, |data| - h - 1, data[h]);
      r.Some? && Cut(data, r.value.pos, r.value.sizes) == Some(fs)
  {
    hide ReadLace, Cut;
  }

  lemma XiphTaken(data: seq<Byte>, pos: nat, last: nat, k: nat) returns (ts: seq<nat>, rest: int)
    requires pos <= |data| && last < TWO_32 && ReadLace(data, Xiph, pos, last, k).Some?
    ensures |ts| == k && At(data, pos, XiphCodes(ts))
    ensures var r := ReadLace(data, Xiph, pos, last, k).value;
      r.pos == pos + |XiphCodes(ts)| && r.sizes == Wrapped(ts) + [rest]
  {
    hide I32, U32, XiphCodes, ReadXiphSizes, Sum, At;
    ts := XiphFound(data, pos, last, [], k);
    XiphForward(data, pos, last, [], ts);
    assert [] + Wrapped(ts) == Wrapped(ts);
    rest := I32(U32(last - |XiphCodes(ts)| - Sum(Wrapped(ts))));
  }

  lemma TakenAre(ts: seq<nat>, rest: int, fs: seq<Frame>)
    requires Wrapped(ts) + [rest] == Lengths(fs, 0, |fs|)
    ensures |fs| == |ts| + 1 && forall i :: 0 <= i < |ts| ==> I32(ts[i]) == |fs[i]|
  {
    hide I32, Wrapped, Lengths;
    var all := Wrapped(ts) + [rest];
    forall i | 0 <= i < |ts|
      ensures I32(ts[i]) == |fs[i]|
    {
      assert all[i] == Wrapped(ts)[i];
    }
  }

  lemma XiphWasLace(data: seq<Byte>, h: nat, fs: seq<Frame>) returns (ts: seq<nat>)
    requires h <= |data| < TWO_31 && ParseFrames(data, Xiph, h) == Some(fs)
    ensures IsXiphLace(data[h..], fs, ts)
  {
    hide I32, U32, XiphCodes, ReadLace, Concat, Cut, At, Wrapped, Lengths, ParseFrames;
    CutByParse(data, Xiph, h, fs);
    var rest;
    ts, rest := XiphTaken(data, h + 1, |data| - h - 1, data[h]);
    var r := ReadLace(data, Xiph, h + 1, |data| - h - 1, data[h]).value;
    CutNeedsLengths(data, r.pos, r.sizes, fs);
    CutConserves(data, r.pos, r.sizes, fs);
    TakenAre(ts, rest, fs);
    Joined(data, h, XiphCodes(ts));
  }

  lemma Joined(data: seq<Byte>, h: nat, codes: seq<Byte>)
    requires h < |data| && At(data, h + 1, codes)
    ensures h + 1 + |codes| <= |data| && data[h..] == [data[h]] + codes + data[h + 1 + |codes|..]
  {
    assert data[h..] == [data[h]] + data[h + 1..];
    assert data[h + 1..] == codes + data[h + 1..][|codes|..];
    assert data[h + 1..][|codes|..] == data[h + 1 + |codes|..];
  }

  /** Exactly the Xiph laces are accepted, and these are the frames that are found. */
  lemma XiphAcceptedIff(data: seq<Byte>, h: nat, fs: seq<Frame>)
    requires h <= |data| < TWO_31
    ensures ParseFrames(data, Xiph, h) == Some(fs) <==> exists ts :: IsXiphLace(data[h..], fs, ts)
  {
    hide *;
    if ParseFrames(data, Xiph, h) == Some(fs) {
      var ts := XiphWasLace(data, h, fs);
    }
    if ts :| IsXiphLace(data[h..], fs, ts) {
      XiphIsRead(data, h, fs, ts);
    }
  }

  // ---------- fixed laces ----------

  lemma FixedLaceIs(data: seq<Byte>, pos: nat, last: int, k: nat)
    requires pos <= |data|
    ensures ReadLace(data, Fixed, pos, last, k) == Some(Lace(seq(k + 1, _ => Share(last, k + 1)), pos, last))
  {
  }

  lemma FixedIsRead(data: seq<Byte>, h: nat, fs: seq<Frame>)
    requires h <= |data| < TWO_31 && 1 <= |fs| <= 255 && SameSize(fs) && data[h..] == [|fs| - 1] + Concat(fs)
    ensures ParseFrames(data, Fixed, h) == Some(fs)
  {
    hide Concat, Cut, ReadLace, Share, SizeSum, SameSize;
    SliceAfter(data, h, [|fs| - 1], Concat(fs));
    ConcatIsSum(fs);
    var last := |data| - h - 1;
    assert |data[h + 1..]| == last;
    FixedLaceIs(data, h + 1, last, |fs| - 1);
    SharesAre(fs, last);
    CutBack(data, h + 1, fs);
  }

  lemma SharesAre(fs: seq<Frame>, last: nat)
    requires |fs| > 0 && SameSize(fs) && last == SizeSum(fs, 0) < TWO_31
    ensures seq(|fs|, _ => Share(last, |fs|)) == Lengths(fs, 0, |fs|)
  {
    hide Share, SizeSum;
    EqualShare(fs);
  }

  lemma FixedWasLace(data: seq<Byte>, h: nat, fs: seq<Frame>)
    requires h <= |data| < TWO_31 && ParseFrames(data, Fixed, h) == Some(fs)
    ensures 1 <= |fs| <= 255 && SameSize(fs) && data[h..] == [|fs| - 1] + Concat(fs)
  {
    hide *;
    CutByParse(data, Fixed, h, fs);
    var k: nat, last := data[h], |data| - h - 1;
    FixedLaceIs(data, h + 1, last, k);
    CutWasLace(data, h, k, Share(last, k + 1), fs);
  }

  lemma CutWasLace(data: seq<Byte>, h: nat, k: Byte, share: int, fs: seq<Frame>)
    requires h < |data| < TWO_31 && data[h] == k < 255 && Cut(data, h + 1, seq(k + 1, _ => share)) == Some(fs)
    ensures 1 <= |fs| <= 255 && SameSize(fs) && data[h..] == [|fs| - 1] + Concat(fs)
  {
    hide Concat, Cut, Lengths;
    var sizes := seq(k + 1, _ => share);
    CutNeedsLengths(data, h + 1, sizes, fs);
    CutConserves(data, h + 1, sizes, fs);
    assert forall i :: 0 <= i < |fs| ==> |fs[i]| == sizes[i] == share;
    assert data[h..] == [data[h]] + data[h + 1..];
  }

  /** Exactly the laces of equal frames without any size codes are accepted as fixed laces. */
  lemma FixedAcceptedIff(data: seq<Byte>, h: nat, fs: seq<Frame>)
    requires h <= |data| < TWO_31
    ensures ParseFrames(data, Fixed, h) == Some(fs) <==>
      1 <= |fs| <= 255 && SameSize(fs) && data[h..] == [|fs| - 1] + Concat(fs)
  {
    hide *;
    if 1 <= |fs| <= 255 && SameSize(fs) && data[h..] == [|fs| - 1] + Concat(fs) {
      FixedIsRead(data, h, fs);
    }
    if ParseFrames(data, Fixed, h) == Some(fs) {
      FixedWasLace(data, h, fs);
    }
  }

  // ---------- EBML laces ----------

  /** No code starts here, or it goes on behind the end. */
  predicate Unfinished(w: seq<Byte>) {
    |w| == 0 || FirstBit(w[0]) > 8 || FirstBit(w[0]) > |w|
  }

  /** The code at the start of w.  This reader takes an unfinished one for a code of no bytes. */
  predicate IsCode(code: seq<Byte>, w: seq<Byte>) {
    if |code| == 0 then Unfinished(w) else |code| <= 8 && FirstBit(code[0]) == |code| && code <= w
  }

  /** The number in a code, of a size or of a difference of two. */
  function CodeValue(code: seq<Byte>, signed: bool): int
    requires |code| <= 8
  {
    if |code| == 0 then 0
    else BigEndian(code) - Range(|code|) - if signed then WidthBias(|code|) else 0
  }

  lemma ReadsCode(code: seq<Byte>, w: seq<Byte>)
    requires IsCode(code, w)
    ensures |code| <= |w| && |code| <= 8
    ensures ReadCoded(w).used == ReadCodedSigned(w).used == |code|
    ensures ReadCoded(w).value == CodeValue(code, false) && ReadCodedSigned(w).value == CodeValue(code, true)
  {
    hide FirstBit, BigEndian, Range, WidthBias;
    if |code| > 0 {
      assert w[..|code|] == code;
      assert w[0] == code[0];
    }
  }

  lemma CodeRead(w: seq<Byte>)
    ensures var n := ReadCoded(w).used; n <= |w| && IsCode(w[..n], w) && n == ReadCodedSigned(w).used
  {
    hide FirstBit, BigEndian, Range, WidthBias;
    var n := ReadCoded(w).used;
    if n > 0 {
      assert w[..n][0] == w[0];
    }
  }

  function Flat(cs: seq<seq<Byte>>): seq<Byte> {
    if |cs| == 0 then [] else cs[0] + Flat(cs[1..])
  }

  /**
   The codes of the sizes ss, none of which is zero, behind the given size: each holds the difference
   to the size before, as a signed 32-bit number.  As many bytes as a size says are kept from the end
   of those in which the later codes are looked for.
   */
  predicate EbmlCodes(w: seq<Byte>, size: nat, cs: seq<seq<Byte>>, ss: seq<nat>) {
    && |cs| == |ss|
    && (|cs| == 0 || (
      && IsCode(cs[0], w)
      && ss[0] > 0 && |cs[0]| + ss[0] <= |w| && |cs[0]| <= 8
      && I32(size + CodeValue(cs[0], true)) == ss[0]
      && EbmlCodes(w[|cs[0]|..|w| - ss[0]], ss[0], cs[1..], ss[1..])))
  }

  lemma WindowIs(data: seq<Byte>, pos: nat, last: nat)
    requires pos + last <= |data|
    ensures Window(data, pos, last) == data[pos..pos + last]
  {
  }

  lemma Shrunk(data: seq<Byte>, pos: nat, last: nat, n: nat, s: nat)
    requires pos + last <= |data| && n + s <= last
    ensures data[pos..pos + last][n..last - s] == data[pos + n..pos + n + (last - (s + n))]
  {
    SliceOfSlice(data, pos, pos + last, n, last - s);
  }

  lemma WindowBehind(data: seq<Byte>, pos: nat, last: nat, n: nat, s: nat)
    requires pos + last == |data| && n + s <= last
    ensures data[pos..][n..last - s] == data[pos + n..pos + n + (last - (s + n))]
  {
    SliceOfSlice(data, pos, |data|, n, last - s);
    assert data[pos..] == data[pos..|data|];
  }

  lemma SliceOfSlice(data: seq<Byte>, a: nat, b: nat, n: nat, m: nat)
    requires a <= b <= |data| && n <= m <= b - a
    ensures data[a..b][n..m] == data[a + n..a + m]
  {
    var w := data[a..b];
    forall i | 0 <= i < m - n
      ensures w[n..m][i] == data[a + n..a + m][i]
    {
      assert w[n..m][i] == w[n + i] == data[a + (n + i)];
    }
  }

  lemma EbmlTakes(data: seq<Byte>, pos: nat, last: nat, sizes: seq<int>, size: int, k: nat, n: nat, s: int)
    requires pos + last <= |data| < TWO_31 && n <= last
    requires var r := ReadCodedSigned(data[pos..pos + last]); r.used == n && I32(size + r.value) == s
    ensures ReadEbmlSizes(data, pos, last, sizes, size, k + 1) ==
      if s == 0 || U32(s + n) > last then None
      else ReadEbmlSizes(data, pos + n, U32(last - (s + n)), sizes + [s], s, k)
  {
    hide ReadCodedSigned, I32, U32, Window;
    WindowIs(data, pos, last);
  }

  lemma FlatFront(cs: seq<seq<Byte>>)
    requires |cs| > 0
    ensures Flat(cs) == cs[0] + Flat(cs[1..])
  {
  }

  lemma CodesFront(w: seq<Byte>, size: nat, cs: seq<seq<Byte>>, ss: seq<nat>)
    requires EbmlCodes(w, size, cs, ss) && |cs| > 0
    ensures |ss| > 0 && IsCode(cs[0], w) && ss[0] > 0 && |cs[0]| + ss[0] <= |w| && |cs[0]| <= 8
    ensures I32(size + CodeValue(cs[0], true)) == ss[0]
    ensures EbmlCodes(w[|cs[0]|..|w| - ss[0]], ss[0], cs[1..], ss[1..])
  {
    hide I32, IsCode, CodeValue;
  }

  lemma {:induction false} EbmlForward(data: seq<Byte>, pos: nat, last: nat, sizes: seq<int>, size: nat,
                                       cs: seq<seq<Byte>>, ss: seq<nat>)
    requires pos + last <= |data| < TWO_31 && EbmlCodes(data[pos..pos + last], size, cs, ss)
    ensures |Flat(cs)| + Sum(ss) <= last
    ensures ReadEbmlSizes(data, pos, last, sizes, size, |cs|) ==
      Some(Lace(sizes + ss, pos + |Flat(cs)|, last - |Flat(cs)| - Sum(ss)))
    decreases |cs|
  {
    hide I32, EbmlCodes, ReadEbmlSizes, ReadCodedSigned, IsCode, CodeValue, Flat, Sum;
    var w := data[pos..pos + last];
    if |cs| > 0 {
      CodesFront(w, size, cs, ss);
      var n, s := |cs[0]|, ss[0];
      ReadsCode(cs[0], w);
      EbmlTakes(data, pos, last, sizes, size, |cs| - 1, n, s);
      Shrunk(data, pos, last, n, s);
      EbmlForward(data, pos + n, last - (s + n), sizes + [s], s, cs[1..], ss[1..]);
      FlatFront(cs);
      SumFront(s, ss[1..]);
      assert [s] + ss[1..] == ss;
      assert sizes + [s] + ss[1..] == sizes + ([s] + ss[1..]);
    } else {
      EbmlEmpty(w, size, cs, ss);
      EbmlNoStep(data, pos, last, sizes, size);
      assert sizes + ss == sizes;
    }
  }

  lemma EbmlEmpty(w: seq<Byte>, size: nat, cs: seq<seq<Byte>>, ss: seq<nat>)
    requires EbmlCodes(w, size, cs, ss) && |cs| == 0
    ensures ss == [] && Flat(cs) == [] && Sum(ss) == 0
  {
  }

  lemma {:induction false} CodesStart(w: seq<Byte>, size: nat, cs: seq<seq<Byte>>, ss: seq<nat>)
    requires EbmlCodes(w, size, cs, ss)
    ensures Flat(cs) <= w
    decreases |cs|
  {
    hide I32, EbmlCodes, IsCode, CodeValue, Flat;
    if |cs| > 0 {
      CodesFront(w, size, cs, ss);
      var n := |cs[0]|;
      CodesStart(w[n..|w| - ss[0]], ss[0], cs[1..], ss[1..]);
      CodeStarts(cs[0], w);
      FlatFront(cs);
      assert w == w[..n] + w[n..|w| - ss[0]] + w[|w| - ss[0]..];
    } else {
      EbmlEmpty(w, size, cs, ss);
    }
  }

  lemma CodeStarts(code: seq<Byte>, w: seq<Byte>)
    requires IsCode(code, w)
    ensures code <= w && w[..|code|] == code
  {
    hide FirstBit;
    assert |code| <= |w|;
    assert w[..|code|] == code;
  }

  // The sizes found are appended to those before.
  lemma {:induction false} EbmlAppends(data: seq<Byte>, pos: nat, last: int, sizes: seq<int>, size: int, k: nat)
    requires pos <= |data| && ReadEbmlSizes(data, pos, last, sizes, size, k).Some?
    ensures sizes <= ReadEbmlSizes(data, pos, last, sizes, size, k).value.sizes
    decreases k
  {
    hide I32, U32, ReadCodedSigned, Window;
    if k > 0 {
      var r := ReadCodedSigned(Window(data, pos, last));
      var s := I32(size + r.value);
      EbmlAppends(data, pos + r.used, U32(last - (s + r.used)), sizes + [s], s, k - 1);
    }
  }

  lemma {:induction false} EbmlFound(data: seq<Byte>, pos: nat, last: nat, sizes: seq<int>, size: nat, k: nat)
      returns (cs: seq<seq<Byte>>, ss: seq<nat>)
    requires pos + last <= |data| < TWO_31 && ReadEbmlSizes(data, pos, last, sizes, size, k).Some?
    requires forall x :: x in ReadEbmlSizes(data, pos, last, sizes, size, k).value.sizes ==> x >= 0
    ensures |cs| == k && EbmlCodes(data[pos..pos + last], size, cs, ss)
    decreases k
  {
    hide I32, U32, ReadEbmlSizes, ReadCodedSigned, IsCode, CodeValue;
    if k == 0 {
      cs, ss := [], [];
    } else {
      var w := data[pos..pos + last];
      var n, s := ReadCodedSigned(w).used, I32(size + ReadCodedSigned(w).value);
      CodeRead(w);
      EbmlTakes(data, pos, last, sizes, size, k - 1, n, s);
      EbmlAppends(data, pos + n, U32(last - (s + n)), sizes + [s], s, k - 1);
      LastIn(ReadEbmlSizes(data, pos, last, sizes, size, k).value.sizes, sizes, s);
      NoWrap(s, n, last);
      var ds, ts := EbmlFound(data, pos + n, last - (s + n), sizes + [s], s, k - 1);
      Shrunk(data, pos, last, n, s);
      ReadsCode(w[..n], w);
      CodesJoin(w, size, w[..n], s, ds, ts);
      cs, ss := [w[..n]] + ds, [s] + ts;
    }
  }

  lemma LastIn(xs: seq<int>, sizes: seq<int>, s: int)
    requires sizes + [s] <= xs
    ensures s in xs
  {
    assert xs[|sizes|] == (sizes + [s])[|sizes|] == s;
  }

  lemma NoWrap(s: nat, n: nat, last: nat)
    requires s < TWO_31 && n <= last < TWO_31 && U32(s + n) <= last
    ensures s + n <= last && U32(last - (s + n)) == last - (s + n)
  {
  }

  lemma CodesJoin(w: seq<Byte>, size: nat, code: seq<Byte>, s: nat, cs: seq<seq<Byte>>, ss: seq<nat>)
    requires IsCode(code, w) && s > 0 && |code| + s <= |w| && |code| <= 8
    requires I32(size + CodeValue(code, true)) == s && EbmlCodes(w[|code|..|w| - s], s, cs, ss)
    ensures EbmlCodes(w, size, [code] + cs, [s] + ss)
  {
    hide I32, IsCode, CodeValue;
    assert ([code] + cs)[1..] == cs && ([s] + ss)[1..] == ss;
  }

  /** The sizes of frames i up to the last but one. */
  function Middle(fs: seq<Frame>): (ss: seq<nat>)
    ensures |fs| > 1 ==> |ss| == |fs| - 2 && forall k :: 0 <= k < |ss| ==> ss[k] == |fs[1 + k]|
    ensures |fs| <= 1 ==> ss == []
  {
    if |fs| <= 1 then [] else seq(|fs| - 2, k requires 0 <= k < |fs| - 2 => |fs[1 + k]|)
  }

  /** The code of the first size, which is not zero, and those of the others but the last. */
  predicate SizeCodes(w: seq<Byte>, fs: seq<Frame>, cs: seq<seq<Byte>>) {
    && |fs| > 0 && |cs| > 0 && |fs[0]| > 0
    && IsCode(cs[0], w) && |cs[0]| <= 8 && |cs[0]| + |fs[0]| <= |w|
    && I32(CodeValue(cs[0], false)) == |fs[0]|
    && EbmlCodes(w[|cs[0]|..|w| - |fs[0]|], |fs[0]|, cs[1..], Middle(fs))
  }

  /** An EBML lace of these frames; the size of a single frame is coded too. */
  predicate IsEbmlLace(bs: seq<Byte>, fs: seq<Frame>, cs: seq<seq<Byte>>) {
    && 1 <= |fs| <= 255
    && bs == [|fs| - 1] + Flat(cs) + Concat(fs)
    && SizeCodes(bs[1..], fs, cs)
  }

  lemma EbmlStarts(data: seq<Byte>, pos: nat, last: nat, k: nat, n: nat, s: nat, l: Lace)
    requires pos + last == |data| < TWO_31 && s > 0 && s + n <= last
    requires var r := ReadCoded(data[pos..]); r.used == n && I32(r.value) == s
    requires ReadEbmlSizes(data, pos + n, last - (s + n), [s], s, if k == 0 then 0 else k - 1) == Some(l)
    ensures ReadEbmlLace(data, pos, last, k) == Some(if k == 0 then l else l.(sizes := l.sizes + [I32(l.last)]))
  {
    hide ReadCoded, I32, Window, ReadEbmlSizes;
    WindowIs(data, pos, last);
    assert data[pos..pos + last] == data[pos..];
  }

  lemma SumOfMiddle(fs: seq<Frame>)
    requires |fs| > 1
    ensures |fs[0]| + Sum(Middle(fs)) + |fs[|fs| - 1]| == SizeSum(fs, 0)
    ensures [|fs[0]|] + Middle(fs) + [|fs[|fs| - 1]|] == Lengths(fs, 0, |fs|)
  {
    hide Sum, SizeSum;
    var n := |fs| - 1;
    SumOfLengths(fs, 1, n);
    SizeSumStep(fs, 0);
    SizeSumStep(fs, n);
    assert Middle(fs) == Lengths(fs, 1, n);
  }

  lemma EbmlIsRead(data: seq<Byte>, h: nat, fs: seq<Frame>, cs: seq<seq<Byte>>)
    requires h <= |data| < TWO_31 && IsEbmlLace(data[h..], fs, cs)
    ensures ParseFrames(data, Ebml, h) == Some(fs)
  {
    hide *;
    EbmlLaceGives(data, h, fs, cs);
    var at := h + 1 + |Flat(cs)|;
    CutBack(data, at, fs);
    ParsesEbml(data, h, at, Lengths(fs, 0, |fs|), fs);
  }

  lemma ParsesEbml(data: seq<Byte>, h: nat, at: nat, sizes: seq<int>, fs: seq<Frame>)
    requires h < |data| < TWO_31 && data[h] != 255 && at <= |data| && Cut(data, at, sizes) == Some(fs)
    requires var r := ReadEbmlLace(data, h + 1, |data| - h - 1, data[h]);
      r.Some? && r.value.sizes == sizes && r.value.pos == at
    ensures ParseFrames(data, Ebml, h) == Some(fs)
  {
    hide ReadEbmlLace, Cut;
  }

  lemma EbmlLaceGives(data: seq<Byte>, h: nat, fs: seq<Frame>, cs: seq<seq<Byte>>)
    requires h <= |data| < TWO_31 && IsEbmlLace(data[h..], fs, cs)
    ensures h < |data| && data[h] == |fs| - 1 < 255
    ensures var at := h + 1 + |Flat(cs)|; at <= |data| && data[at..] == Concat(fs)
    ensures var r := ReadEbmlLace(data, h + 1, |data| - h - 1, |fs| - 1);
      r.Some? && r.value.sizes == Lengths(fs, 0, |fs|) && r.value.pos == h + 1 + |Flat(cs)|
  {
    hide *;
    LaceIs(data[h..], fs, cs);
    LaceSplit(data, h, |fs| - 1, Flat(cs), Concat(fs));
    ConcatIsSum(fs);
    var last, pos := |data| - h - 1, h + 1;
    assert data[h..][1..] == data[pos..];
    assert |data[pos..]| == last;
    SizesRead(data, pos, last, fs, cs);
  }

  lemma LaceIs(bs: seq<Byte>, fs: seq<Frame>, cs: seq<seq<Byte>>)
    requires IsEbmlLace(bs, fs, cs)
    ensures 1 <= |fs| <= 255 && bs == [|fs| - 1] + Flat(cs) + Concat(fs) && |bs| > 0 && SizeCodes(bs[1..], fs, cs)
  {
    hide Flat, Concat, SizeCodes;
  }

  // The sizes behind the first one.
  lemma RestRead(data: seq<Byte>, pos: nat, last: nat, fs: seq<Frame>, cs: seq<seq<Byte>>) returns (l: Lace)
    requires pos + last == |data| < TWO_31 && SizeCodes(data[pos..], fs, cs)
    ensures var n, s := |cs[0]|, |fs[0]|;
      && s > 0 && s + n <= last
      && ReadEbmlSizes(data, pos + n, last - (s + n), [s], s, if |fs| == 1 then 0 else |fs| - 2) == Some(l)
      && l == Lace([s] + Middle(fs), pos + |Flat(cs)|, last - s - |Flat(cs)| - Sum(Middle(fs)))
  {
    hide I32, ReadEbmlSizes, Flat, Sum, EbmlCodes, IsCode, CodeValue, Middle;
    var n, s, ss := |cs[0]|, |fs[0]|, Middle(fs);
    WindowBehind(data, pos, last, n, s);
    EbmlForward(data, pos + n, last - (s + n), [s], s, cs[1..], ss);
    FlatFront(cs);
    OneOrMore(fs);
    CountOf(data[pos..][n..last - s], s, cs[1..], ss);
    l := Lace([s] + ss, pos + |Flat(cs)|, last - s - |Flat(cs)| - Sum(ss));
  }

  lemma SizesRead(data: seq<Byte>, pos: nat, last: nat, fs: seq<Frame>, cs: seq<seq<Byte>>)
    requires pos + last == |data| < TWO_31 && SizeCodes(data[pos..], fs, cs)
    requires last == |Flat(cs)| + SizeSum(fs, 0)
    ensures var r := ReadEbmlLace(data, pos, last, |fs| - 1);
      r.Some? && r.value.sizes == Lengths(fs, 0, |fs|) && r.value.pos == pos + |Flat(cs)|
  {
    hide I32, U32, ReadEbmlLace, ReadEbmlSizes, ReadCoded, Flat, Sum, SizeSum, EbmlCodes, IsCode, CodeValue, Lengths, Middle;
    var l := RestRead(data, pos, last, fs, cs);
    ReadsCode(cs[0], data[pos..]);
    EbmlStarts(data, pos, last, |fs| - 1, |cs[0]|, |fs[0]|, l);
    AllSizes(fs, l);
  }

  lemma AllSizes(fs: seq<Frame>, l: Lace)
    requires |fs| > 0 && l.sizes == [|fs[0]|] + Middle(fs) && SizeSum(fs, 0) < TWO_31
    requires l.last == SizeSum(fs, 0) - |fs[0]| - Sum(Middle(fs))
    ensures (if |fs| == 1 then l.sizes else l.sizes + [I32(l.last)]) == Lengths(fs, 0, |fs|)
  {
    hide I32, Sum, SizeSum, Middle, Lengths;
    if |fs| > 1 {
      SumOfMiddle(fs);
      LastSize(fs);
    } else {
      OneOrMore(fs);
    }
  }

  lemma CountOf(w: seq<Byte>, size: nat, cs: seq<seq<Byte>>, ss: seq<nat>)
    requires EbmlCodes(w, size, cs, ss)
    ensures |cs| == |ss|
  {
  }

  lemma OneOrMore(fs: seq<Frame>)
    requires |fs| > 0
    ensures |Middle(fs)| == if |fs| == 1 then 0 else |fs| - 2
    ensures |fs| == 1 ==> Middle(fs) == [] && [|fs[0]|] + Middle(fs) == Lengths(fs, 0, 1)
  {
  }

  // A lace that is read has a first size, and sizes behind it.
  lemma EbmlStarted(data: seq<Byte>, pos: nat, last: nat, k: nat) returns (n: nat, s: int, l: Lace)
    requires pos + last == |data| < TWO_31 && ReadEbmlLace(data, pos, last, k).Some?
    ensures n == ReadCoded(data[pos..]).used && s == I32(ReadCoded(data[pos..]).value)
    ensures s != 0 && U32(s + n) <= last && n <= last
    ensures ReadEbmlSizes(data, pos + n, U32(last - (s + n)), [s], s, if k == 0 then 0 else k - 1) == Some(l)
    ensures ReadEbmlLace(data, pos, last, k) == Some(if k == 0 then l else l.(sizes := l.sizes + [I32(l.last)]))
  {
    hide ReadCoded, I32, U32, Window, ReadEbmlSizes;
    WindowIs(data, pos, last);
    assert data[pos..pos + last] == data[pos..];
    n, s := ReadCoded(data[pos..]).used, I32(ReadCoded(data[pos..]).value);
    l := ReadEbmlSizes(data, pos + n, U32(last - (s + n)), [s], s, if k == 0 then 0 else k - 1).value;
  }

  lemma SizesFound(data: seq<Byte>, pos: nat, last: nat, k: nat) returns (cs: seq<seq<Byte>>, s: nat, ss: seq<nat>)
    requires pos + last == |data| < TWO_31 && ReadEbmlLace(data, pos, last, k).Some?
    requires forall x :: x in ReadEbmlLace(data, pos, last, k).value.sizes ==> x >= 0
    ensures |cs| == 1 + |ss| && |ss| == (if k == 0 then 0 else k - 1) && s > 0
    ensures var w := data[pos..];
      && IsCode(cs[0], w) && |cs[0]| <= 8 && |cs[0]| + s <= |w| && I32(CodeValue(cs[0], false)) == s
      && EbmlCodes(w[|cs[0]|..|w| - s], s, cs[1..], ss)
    ensures var x := ReadEbmlLace(data, pos, last, k).value;
      && x.pos == pos + |Flat(cs)| && [s] + ss <= x.sizes
  {
    hide I32, U32, ReadEbmlLace, ReadEbmlSizes, ReadCoded, Flat, Sum, EbmlCodes, IsCode, CodeValue;
    var n, t, l := EbmlStarted(data, pos, last, k);
    var w, more: nat := data[pos..], if k == 0 then 0 else k - 1;
    CodeRead(w);
    ReadsCode(w[..n], w);
    EbmlAppends(data, pos + n, U32(last - (t + n)), [t], t, more);
    var all := ReadEbmlLace(data, pos, last, k).value.sizes;
    assert l.sizes <= all && [] + [t] <= all;
    LastIn(all, [], t);
    s := t;
    forall x | x in l.sizes
      ensures x >= 0
    {
      assert x in all;
    }
    NoWrap(s, n, last);
    var left := last - (s + n);
    WindowBehind(data, pos, last, n, s);
    var ds, ts := EbmlFound(data, pos + n, left, [s], s, more);
    EbmlForward(data, pos + n, left, [s], s, ds, ts);
    CountOf(w[n..last - s], s, ds, ts);
    cs, ss := [w[..n]] + ds, ts;
    FlatFront(cs);
  }

  lemma EbmlWasLace(data: seq<Byte>, h: nat, fs: seq<Frame>) returns (cs: seq<seq<Byte>>)
    requires h <= |data| < TWO_31 && ParseFrames(data, Ebml, h) == Some(fs)
    ensures IsEbmlLace(data[h..], fs, cs)
  {
    hide I32, U32, ReadEbmlLace, EbmlCodes, IsCode, CodeValue, Concat, Cut, Flat, Lengths, Middle;
    var k: nat, last := data[h], |data| - h - 1;
    var x := ReadEbmlLace(data, h + 1, last, k).value;
    CutNeedsLengths(data, x.pos, x.sizes, fs);
    CutConserves(data, x.pos, x.sizes, fs);
    var ds, s, ss := SizesFound(data, h + 1, last, k);
    cs := ds;
    MiddleIs(fs, s, ss);
    var w := data[h + 1..];
    EbmlCodesStart(w, fs, cs);
    Joined(data, h, Flat(cs));
    assert data[h..][1..] == w;
  }

  lemma MiddleIs(fs: seq<Frame>, s: nat, ss: seq<nat>)
    requires |fs| > 0 && |ss| == (if |fs| == 1 then 0 else |fs| - 2) && [s] + ss <= Lengths(fs, 0, |fs|)
    ensures s == |fs[0]| && ss == Middle(fs)
  {
    var all := Lengths(fs, 0, |fs|);
    assert s == ([s] + ss)[0] == all[0];
    forall i | 0 <= i < |ss|
      ensures ss[i] == |fs[1 + i]|
    {
      assert ss[i] == ([s] + ss)[1 + i] == all[1 + i];
    }
  }

  lemma EbmlCodesStart(w: seq<Byte>, fs: seq<Frame>, cs: seq<seq<Byte>>)
    requires SizeCodes(w, fs, cs)
    ensures Flat(cs) <= w
  {
    hide I32, EbmlCodes, IsCode, CodeValue, Flat, Middle;
    var n := |cs[0]|;
    CodeStarts(cs[0], w);
    CodesStart(w[n..|w| - |fs[0]|], |fs[0]|, cs[1..], Middle(fs));
    FlatFront(cs);
    assert w == w[..n] + w[n..|w| - |fs[0]|] + w[|w| - |fs[0]|..];
  }

  /** Exactly the EBML laces are accepted, and these are the frames that are found. */
  lemma EbmlAcceptedIff(data: seq<Byte>, h: nat, fs: seq<Frame>)
    requires h <= |data| < TWO_31
    ensures ParseFrames(data, Ebml, h) == Some(fs) <==> exists cs :: IsEbmlLace(data[h..], fs, cs)
  {
    hide *;
    if ParseFrames(data, Ebml, h) == Some(fs) {
      var cs := EbmlWasLace(data, h, fs);
    }
    if cs :| IsEbmlLace(data[h..], fs, cs) {
      EbmlIsRead(data, h, fs, cs);
    }
  }

  function Previous(size: nat, ss: seq<nat>, i: nat): nat
    requires i < |ss|
  {
    if i == 0 then size else ss[i - 1]
  }

  /** Whole codes, of any width, whose numbers are the differences of the sizes. */
  predicate Differences(size: nat, cs: seq<seq<Byte>>, ss: seq<nat>) {
    && |cs| == |ss|
    && forall i :: 0 <= i < |cs| ==>
      && 1 <= |cs[i]| <= 8 && FirstBit(cs[i][0]) == |cs[i]|
      && 0 < ss[i] < TWO_31 && Previous(size, ss, i) + CodeValue(cs[i], true) == ss[i]
  }

  lemma DifferencesStep(size: nat, cs: seq<seq<Byte>>, ss: seq<nat>)
    requires Differences(size, cs, ss) && |cs| > 0
    ensures Differences(ss[0], cs[1..], ss[1..])
  {
    hide CodeValue, FirstBit;
    var ds, ts := cs[1..], ss[1..];
    forall i | 0 <= i < |ds|
      ensures Previous(ss[0], ts, i) + CodeValue(ds[i], true) == ts[i]
    {
      assert ds[i] == cs[i + 1] && Previous(ss[0], ts, i) == Previous(size, ss, i + 1);
    }
  }

  lemma {:induction false} WholeCodes(w: seq<Byte>, size: nat, cs: seq<seq<Byte>>, ss: seq<nat>, tail: seq<Byte>)
    requires Differences(size, cs, ss) && w == Flat(cs) + tail && Sum(ss) <= |tail|
    ensures EbmlCodes(w, size, cs, ss)
    decreases |cs|
  {
    hide CodeValue, FirstBit, Differences, Flat, Sum;
    if |cs| > 0 {
      DifferencesStep(size, cs, ss);
      DifferencesFront(size, cs, ss);
      FlatFront(cs);
      var code, s := cs[0], ss[0];
      SumFront(s, ss[1..]);
      assert [s] + ss[1..] == ss;
      SumPositive(s, cs[1..], ss[1..]);
      var short := tail[..|tail| - s];
      assert w[..|code|] == code;
      assert w[|code|..|w| - s] == Flat(cs[1..]) + short;
      WholeCodes(w[|code|..|w| - s], s, cs[1..], ss[1..], short);
      assert [code] + cs[1..] == cs;
      CodesJoin(w, size, code, s, cs[1..], ss[1..]);
    } else {
      DifferencesFront(size, cs, ss);
    }
  }

  lemma DifferencesFront(size: nat, cs: seq<seq<Byte>>, ss: seq<nat>)
    requires Differences(size, cs, ss)
    ensures |cs| == |ss|
    ensures |cs| > 0 ==> 1 <= |cs[0]| <= 8 && FirstBit(cs[0][0]) == |cs[0]|
    ensures |cs| > 0 ==> ss[0] > 0 && I32(size + CodeValue(cs[0], true)) == ss[0]
  {
    hide CodeValue, FirstBit, I32;
    if |cs| > 0 {
      assert Previous(size, ss, 0) + CodeValue(cs[0], true) == ss[0] < TWO_31;
    }
  }

  lemma {:induction false} SumPositive(size: nat, cs: seq<seq<Byte>>, ss: seq<nat>)
    requires Differences(size, cs, ss)
    ensures Sum(ss) >= 0
    decreases |ss|
  {
    hide CodeValue, FirstBit, Differences;
    DifferencesFront(size, cs, ss);
    if |ss| > 0 {
      DifferencesStep(size, cs, ss);
      SumPositive(ss[0], cs[1..], ss[1..]);
    }
  }

  /**
   In particular, a lace is read whatever the widths of its codes are: the size of the first frame,
   then the differences, for all frames but the last, none of which is empty.
   */
  lemma AnyWidthsAreRead(data: seq<Byte>, h: nat, fs: seq<Frame>, cs: seq<seq<Byte>>)
    requires h <= |data| < TWO_31 && 2 <= |fs| <= 255 && |cs| == |fs| - 1
    requires data[h..] == [|fs| - 1] + Flat(cs) + Concat(fs)
    requires 1 <= |cs[0]| <= 8 && FirstBit(cs[0][0]) == |cs[0]| && CodeValue(cs[0], false) == |fs[0]| > 0
    requires Differences(|fs[0]|, cs[1..], Middle(fs))
    ensures ParseFrames(data, Ebml, h) == Some(fs)
  {
    hide CodeValue, FirstBit, Differences, Flat, Sum, Concat, EbmlCodes, ParseFrames, SizeSum, Middle;
    LaceSplit(data, h, |fs| - 1, Flat(cs), Concat(fs));
    assert |Concat(fs)| < TWO_31;
    WholeSizeCodes(data[h + 1..], fs, cs);
    assert data[h..][1..] == data[h + 1..];
    EbmlIsRead(data, h, fs, cs);
  }

  lemma WholeSizeCodes(w: seq<Byte>, fs: seq<Frame>, cs: seq<seq<Byte>>)
    requires 2 <= |fs| && |cs| == |fs| - 1 && w == Flat(cs) + Concat(fs) && |Concat(fs)| < TWO_31
    requires 1 <= |cs[0]| <= 8 && FirstBit(cs[0][0]) == |cs[0]| && CodeValue(cs[0], false) == |fs[0]| > 0
    requires Differences(|fs[0]|, cs[1..], Middle(fs))
    ensures SizeCodes(w, fs, cs)
  {
    hide CodeValue, FirstBit, Differences, Flat, Sum, Concat, EbmlCodes, SizeSum, Middle, Lengths, I32;
    var code, s, all := cs[0], |fs[0]|, Concat(fs);
    ConcatIsSum(fs);
    SumOfMiddle(fs);
    FlatFront(cs);
    SumHas(fs, 0, 0);
    var tail := all[..|all| - s];
    OneCode(w, code, Flat(cs[1..]), all, s);
    WholeCodes(w[|code|..|w| - s], s, cs[1..], Middle(fs), tail);
  }

  lemma OneCode(w: seq<Byte>, code: seq<Byte>, codes: seq<Byte>, all: seq<Byte>, s: nat)
    requires w == code + codes + all && s <= |all|
    ensures code <= w && |code| + s <= |w|
    ensures w[|code|..|w| - s] == codes + all[..|all| - s]
  {
    assert w == code + (codes + all);
  }

  /**
   A code of eight bytes, of which only two are left, is taken for no difference at all: its bytes
   become frames.
   */
  lemma UnfinishedCodeIsRead(fs: seq<Frame>)
    requires fs == [[1], [7], [9]]
    ensures ParseFrames([2, 0x81, 1, 7, 9], Ebml, 0) == Some(fs)
  {
    hide ParseFrames;
    var data, cs: seq<seq<Byte>> := [2, 0x81, 1, 7, 9], [[0x81], []];
    ThreeFrames(fs);
    Single(0x81);
    assert Flat([[]]) == [] + Flat([]) == [];
    assert cs[1..] == [[]];
    assert Flat(cs) == [0x81] + Flat([[]]) == [0x81];
    var w := data[1..];
    assert w == [0x81, 1, 7, 9] && w[1..3] == [1, 7];
    assert data[0..] == data == [2] + Flat(cs) + Concat(fs);
    var nothing: seq<Byte> := [];
    assert EbmlCodes([1, 7][0..1], 1, [], []);
    assert IsCode(nothing, [1, 7]);
    assert EbmlCodes([1, 7], 1, [nothing], [1]);
    assert Middle(fs) == [1];
    EbmlIsRead(data, 0, fs, cs);
  }

  lemma ThreeFrames(fs: seq<Frame>)
    requires fs == [[1], [7], [9]]
    ensures Concat(fs) == [1, 7, 9]
  {
    assert fs[1..] == [[7], [9]] && fs[1..][1..] == [[9]] && fs[1..][1..][1..] == [];
    assert Concat([[9]]) == [9];
    assert Concat([[7], [9]]) == [7] + Concat([[9]]);
  }

  // ---------- whole blocks ----------

  /** What may follow a head with these two lacing bits. */
  ghost predicate IsBody(bs: seq<Byte>, low: bool, high: bool, fs: seq<Frame>) {
    if !low && !high then fs == [bs]
    else if !high then exists ts :: IsXiphLace(bs, fs, ts)
    else if !low then 1 <= |fs| <= 255 && SameSize(fs) && bs == [|fs| - 1] + Concat(fs)
    else exists cs :: IsEbmlLace(bs, fs, cs)
  }

  lemma BodyIff(data: seq<Byte>, h: nat, f: Byte, fs: seq<Frame>)
    requires h <= |data| < TWO_31
    ensures ParseFrames(data, LacingOf(f), h) == Some(fs) <==> IsBody(data[h..], Bit(f, 1), Bit(f, 2), fs)
  {
    hide *;
    LacingByBits(f);
    IsBodyIs(data[h..], Bit(f, 1), Bit(f, 2), fs);
    match LacingOf(f)
    case NoLacing => PlainIff(data, h, fs);
    case Xiph => XiphAcceptedIff(data, h, fs);
    case Fixed => FixedAcceptedIff(data, h, fs);
    case Ebml => EbmlAcceptedIff(data, h, fs);
  }

  lemma PlainIff(data: seq<Byte>, h: nat, fs: seq<Frame>)
    requires h <= |data| < TWO_31
    ensures ParseFrames(data, NoLacing, h) == Some(fs) <==> fs == [data[h..]]
  {
  }

  lemma IsBodyIs(bs: seq<Byte>, low: bool, high: bool, fs: seq<Frame>)
    ensures !low && !high ==> (IsBody(bs, low, high, fs) <==> fs == [bs])
    ensures low && !high ==> (IsBody(bs, low, high, fs) <==> exists ts :: IsXiphLace(bs, fs, ts))
    ensures !low && high ==> (IsBody(bs, low, high, fs) <==> 1 <= |fs| <= 255 && SameSize(fs) && bs == [|fs| - 1] + Concat(fs))
    ensures low && high ==> (IsBody(bs, low, high, fs) <==> exists cs :: IsEbmlLace(bs, fs, cs))
  {
    hide IsXiphLace, IsEbmlLace, SameSize, Concat;
  }

  lemma ParseIsHead(data: seq<Byte>, simple: bool, keyframe: bool, discardable: bool)
    requires |data| < TWO_31
    ensures var r := Parse(data, simple, keyframe, discardable);
      if |data| > 0 && data[0] >= 0x40 && |data| >= HeadSize(data) then
        var p := ParseFrames(data, LacingOf(data[HeadSize(data) - 1]), HeadSize(data));
        r.Some? == p.Some? && (p.Some? ==> r.value.frames == p.value)
      else r == None
  {
    hide LacingOf, ParseFrames;
  }

  /**
   ReadData accepts exactly a track number of one or two bytes, three more bytes, and a body of the
   form that the lacing bits announce; its frames are those of the body.
   */
  lemma ReadsExactly(data: seq<Byte>, simple: bool, keyframe: bool, discardable: bool, fs: seq<Frame>)
    requires |data| < TWO_31
    ensures var r := Parse(data, simple, keyframe, discardable);
      r.Some? && r.value.frames == fs <==>
        |data| > 0 && data[0] >= 0x40 && var t := if data[0] >= 0x80 then 3 else 4;
        |data| > t && IsBody(data[t + 1..], Bit(data[t], 1), Bit(data[t], 2), fs)
  {
    hide LacingOf, ParseFrames, Parse, Bit, IsBody;
    ParseIsHead(data, simple, keyframe, discardable);
    if |data| > 0 {
      var t := if data[0] >= 0x80 then 3 else 4;
      if |data| > t {
        BodyIff(data, t + 1, data[t], fs);
      }
    }
  }
}
