/**
 libabi/pssl/ec_mult.c: ec_wNAF_mul, the sum of several integer multiples of points, and
 ec_wNAF_precompute_mult, which prepares its table of multiples of the generator.
 */
module EcMult {
  import opened Wrappers
  import opened Modular
  import opened Field
  import opened Curve
  import opened Jacobian
  import opened EcPoint
  import opened BatchInversion
  import opened Power
  import opened Wnaf
  import opened Multiples
  import opened Interleave
  import opened WnafSplit
  import opened OddMultiples

  /** EC_GROUP */
  class EcGroup {
    const c: Curve
    var generator: EcPoint?
    var order: nat
    var precomp: EcPreComp?

    constructor (c: Curve)
      ensures this.c == c && generator == null && order == 0 && precomp == null
    {
      this.c := c;
      generator, order, precomp := null, 0, null;
    }
  }

  // ---------- the wNAFs of the scalars ----------

  /** The window size used for each scalar. */
  function Windows(scalars: seq<int>): (ws: seq<nat>)
    ensures |ws| == |scalars| && AllWindows(ws)
    ensures forall i :: 0 <= i < |ws| ==> ws[i] == WindowBits(NumBits(Abs(scalars[i])))
  {
    seq(|scalars|, i requires 0 <= i < |scalars| => WindowBits(NumBits(Abs(scalars[i]))))
  }

  /** A correct wNAF for every scalar. */
  ghost predicate AllWnafs(ks: seq<int>, ws: seq<nat>, wnafs: seq<seq<int>>) {
    |wnafs| == |ks| == |ws| && forall i :: 0 <= i < |ks| ==> IsWnaf(ks[i], ws[i], wnafs[i])
  }

  /** The first loop of ec_wNAF_mul. */
  method ComputeWnafs(scalars: seq<int>) returns (ws: seq<nat>, wnafs: seq<seq<int>>, maxLen: nat, numVal: nat)
    ensures ws == Windows(scalars) && numVal == Offset(ws, |ws|)
    ensures AllWnafs(scalars, ws, wnafs) && NoDigitsFrom(wnafs, maxLen)
  {
    hide IsWnaf, Pow2, NumBits;
    ws, wnafs, maxLen, numVal := [], [], 0, 0;
    ghost var all := Windows(scalars);
    for i := 0 to |scalars|
      invariant |wnafs| == i && ws == all[..i] && numVal == Offset(all, i)
      invariant forall k :: 0 <= k < i ==> IsWnaf(scalars[k], all[k], wnafs[k]) && |wnafs[k]| <= maxLen
    {
      var w := WindowBits(NumBits(Abs(scalars[i])));
      ws := ws + [w];
      numVal := numVal + Pow2(w - 1);
      var r, len := ComputeWnaf(scalars[i], w);
      wnafs := wnafs + [r[..len]];
      if len > maxLen {
        maxLen := len;
      }
    }
    assert ws == all;
  }

  // ---------- the generator, when a table is available ----------

  lemma WnafDigits(scalar: int, w: nat, ds: seq<int>)
    requires IsWnaf(scalar, w, ds)
    ensures Value(ds) == scalar && 1 <= |ds| <= NumBits(Abs(scalar)) + 1
    ensures forall j :: 0 <= j < |ds| ==> WDigit(ds[j], w)
  {
  }

  lemma BlockDigitAt(ds: seq<int>, bs: nat, nb: nat, blocks: seq<seq<int>>, b: nat, j: nat)
    requires IsSplit(ds, bs, nb, blocks) && b < nb && j < |blocks[b]|
    ensures b * bs + j < |ds| && blocks[b][j] == ds[b * bs + j]
  {
    BlockBounds(|ds|, bs, nb, b);
    assert BlockIs(ds, bs, nb, b, blocks[b]);
  }

  /** One multiple of the generator for every block. */
  ghost function BlockPoints(c: Curve, bs: nat, nb: nat, G: Affine): (Bs: seq<Affine>)
    requires ValidCurve(c) && OnCurve(c, G)
    ensures |Bs| == nb && AllOnCurve(c, Bs) && SplitPoints(c, bs, G, Bs)
  {
    seq(nb, b requires 0 <= b => Mul(c, Pow2(bs * b), G))
  }

  lemma ShapeFacts(c: Curve, pre: EcPreComp)
    requires c.f.p > 0 && pre.Shaped(c) && pre.numblocks > 0
    ensures pre.blocksize > 0 && 1 <= pre.w <= 7 && AllValid(c, pre.points)
    ensures pre.num == pre.numblocks * Pow2(pre.w - 1) == |pre.points|
  {
  }

  lemma TableFacts(c: Curve, pre: EcPreComp)
    requires ValidCurve(c) && pre.WellFormed(c) && pre.numblocks > 0
    ensures pre.Shaped(c) && OnCurve(c, pre.Base(c))
  {
    hide OnCurve, Pow2, EcPreComp.Shaped;
  }

  /** Part b of the values of a table, from the start of the block on. */
  ghost predicate BlockSlice(tv: seq<Affine>, w: nat, b: nat, t: seq<Affine>) {
    w >= 1 && b * Pow2(w - 1) + Pow2(w - 1) <= |tv| && t == tv[b * Pow2(w - 1)..]
  }

  /** What is multiplied for the generator: a wNAF of the scalar, cut into blocks, each with its slice of the table. */
  ghost predicate BlockStreams(scalar: int, w: nat, bs: nat, tv: seq<Affine>, ds: seq<int>, wnafs: seq<seq<int>>,
                               ts: seq<seq<Affine>>)
  {
    && IsWnaf(scalar, w, ds) && IsSplit(ds, bs, |wnafs|, wnafs) && |ts| == |wnafs|
    && forall b :: 0 <= b < |ts| ==> BlockSlice(tv, w, b, ts[b])
  }

  /** The table holds the odd multiples of 2^(bs*b) times G, block by block. */
  ghost predicate OddBlocks(c: Curve, tv: seq<Affine>, w: nat, bs: nat, nb: nat, G: Affine)
    requires ValidCurve(c) && OnCurve(c, G)
  {
    forall b :: 0 <= b < nb ==> OddBlock(c, tv, w, bs, b, G)
  }

  ghost predicate OddBlock(c: Curve, tv: seq<Affine>, w: nat, bs: nat, b: nat, G: Affine)
    requires ValidCurve(c) && OnCurve(c, G)
  {
    w >= 1 && b * Pow2(w - 1) <= |tv| && OddTable(c, tv[b * Pow2(w - 1)..], Mul(c, Pow2(bs * b), G), w)
  }

  lemma WellFormedBlocks(c: Curve, pre: EcPreComp, G: Affine)
    requires ValidCurve(c) && pre.WellFormed(c) && pre.numblocks > 0 && OnCurve(c, G) && G == pre.Base(c)
    ensures OddBlocks(c, Values(c, pre.points), pre.w, pre.blocksize, pre.numblocks, G)
  {
    hide OnCurve, Pow2, Mul, OddTable, EcPreComp.Base;
    forall b | 0 <= b < pre.numblocks
      ensures OddBlock(c, Values(c, pre.points), pre.w, pre.blocksize, b, G)
    {
      assert SliceFits(b, pre.numblocks, pre.w) && pre.SliceIs(c, b);
    }
  }

  lemma BlockDigits(scalar: int, w: nat, bs: nat, tv: seq<Affine>, ds: seq<int>, wnafs: seq<seq<int>>,
                    ts: seq<seq<Affine>>, b: nat, k: nat)
    requires BlockStreams(scalar, w, bs, tv, ds, wnafs, ts) && b < |wnafs| && k < |wnafs[b]|
    ensures WDigit(wnafs[b][k], w) && BlockSlice(tv, w, b, ts[b])
    ensures wnafs[b][k] != 0 ==> Abs(wnafs[b][k]) / 2 < Pow2(w - 1) <= |ts[b]|
  {
    hide IsSplit, IsWnaf, WDigit;
    WnafDigits(scalar, w, ds);
    BlockDigitAt(ds, bs, |wnafs|, wnafs, b, k);
    assert BlockSlice(tv, w, b, ts[b]);
    if wnafs[b][k] != 0 {
      DigitIndex(wnafs[b][k], w);
    }
  }

  lemma BlockStreamsSelect(c: Curve, scalar: int, w: nat, bs: nat, tv: seq<Affine>, ds: seq<int>, wnafs: seq<seq<int>>,
                           ts: seq<seq<Affine>>)
    requires c.f.p > 0 && AllInField(c, tv) && BlockStreams(scalar, w, bs, tv, ds, wnafs, ts)
    ensures Streams(c, wnafs, ts)
  {
    hide IsSplit, IsWnaf, InField, Pow2;
    forall i, k | 0 <= i < |wnafs| && 0 <= k < |wnafs[i]|
      ensures Selects(ts[i], wnafs[i][k])
    {
      BlockDigits(scalar, w, bs, tv, ds, wnafs, ts, i, k);
    }
    forall i | 0 <= i < |ts|
      ensures AllInField(c, ts[i])
    {
      assert BlockSlice(tv, w, i, ts[i]);
    }
  }

  /** With the right table the blocks select the right entries, and sum to scalar times G. */
  lemma BlockSum(c: Curve, scalar: int, w: nat, bs: nat, tv: seq<Affine>, ds: seq<int>, wnafs: seq<seq<int>>,
                 ts: seq<seq<Affine>>, G: Affine)
    requires IsGroup(c) && OnCurve(c, G) && BlockStreams(scalar, w, bs, tv, ds, wnafs, ts) && Streams(c, wnafs, ts)
    requires OddBlocks(c, tv, w, bs, |wnafs|, G)
    ensures var Bs := BlockPoints(c, bs, |wnafs|, G);
      && RightEntries(c, wnafs, ts, Bs)
      && LinComb(c, Coefs(wnafs, 0), Bs, |Bs|) == Mul(c, scalar, G)
  {
    hide IsSplit, IsWnaf, OnCurve, Pow2, Mul, AffAdd, Associative, LinComb, Entry, Streams, OddTable, ValueFrom;
    var nb := |wnafs|;
    var Bs := BlockPoints(c, bs, nb, G);
    forall i, k | 0 <= i < nb && 0 <= k < |wnafs[i]|
      ensures RightEntry(c, ts[i], wnafs[i][k], Bs[i])
    {
      StreamAt(c, wnafs, ts, i, k);
      assert OddBlock(c, tv, w, bs, i, G);
      BlockDigits(scalar, w, bs, tv, ds, wnafs, ts, i, k);
      OddEntry(c, ts[i], w, wnafs[i][k], Bs[i]);
    }
    WnafDigits(scalar, w, ds);
    SplitSum(c, ds, bs, nb, wnafs, G, Coefs(wnafs, 0), Bs, nb);
  }

  lemma OddEntry(c: Curve, t: seq<Affine>, w: nat, d: int, B: Affine)
    requires ValidCurve(c) && OnCurve(c, B) && AllInField(c, t) && Selects(t, d) && WDigit(d, w)
    requires OddTable(c, t, B, w)
    ensures RightEntry(c, t, d, B)
  {
    hide OnCurve, InField, Mul, Entry;
    if d != 0 {
      DigitIndex(d, w);
      EntryIsMultiple(c, t, d, B);
    }
  }

  lemma CeilingBlocks(len: nat, bs: nat, nb: nat)
    requires bs > 0 && 0 < len < nb * bs
    ensures var n := (len + bs - 1) / bs; 0 < n <= nb && (n - 1) * bs <= len
  {
    var n := (len + bs - 1) / bs;
    assert n * bs + (len + bs - 1) % bs == len + bs - 1;
    MulBig(n, bs);
    MulBig(nb - n, bs);
    assert (nb - n) * bs == nb * bs - n * bs;
    assert (n - 1) * bs == n * bs - bs;
  }

  /** The number of blocks that splitting uses: an estimate from the bit length, then corrected. */
  method NumberOfBlocks(pre: EcPreComp, bits: nat, tmpLen: nat) returns (numblocks: nat)
    requires pre.blocksize > 0 && pre.numblocks > 0 && 0 < tmpLen <= bits + 1
    ensures 0 < numblocks <= pre.numblocks && (numblocks - 1) * pre.blocksize <= tmpLen
  {
    var blocksize := pre.blocksize;
    numblocks := bits / blocksize + 1;
    if numblocks > pre.numblocks {
      numblocks := pre.numblocks;
    }
    if tmpLen < numblocks * blocksize {
      // the wNAF may be shorter than the bit length lets expect
      CeilingBlocks(tmpLen, blocksize, numblocks);
      numblocks := (tmpLen + blocksize - 1) / blocksize;
      if numblocks > pre.numblocks {
        assert false;
      }
    } else {
      assert (numblocks - 1) * blocksize == numblocks * blocksize - blocksize;
    }
  }

  /**
   The digit strings and table slices for the generator: its wNAF is split into blocks when it
   is longer than all the others.
   */
  method GeneratorStreams(c: Curve, pre: EcPreComp, scalar: int, maxLen0: nat)
    returns (wnafs: seq<seq<int>>, subs: seq<seq<EcPoint>>, maxLen: nat, ghost ts: seq<seq<Affine>>, ghost ds: seq<int>)
    requires c.f.p > 0 && pre.Shaped(c) && pre.numblocks > 0
    ensures |wnafs| == |subs| <= pre.numblocks && AllHold(c, subs, ts) && Streams(c, wnafs, ts)
    ensures maxLen0 <= maxLen && NoDigitsFrom(wnafs, maxLen)
    ensures forall i, o :: 0 <= i < |subs| && o in subs[i] ==> o in pre.points
    ensures BlockStreams(scalar, pre.w, pre.blocksize, Values(c, pre.points), ds, wnafs, ts)
  {
    hide Pow2, IsWnaf, NumBits, EcPreComp.Shaped, AllHold, Streams, IsSplit, Value;
    ShapeFacts(c, pre);
    ValuesInField(c, pre.points);
    var ppb := Pow2(pre.w - 1);
    if pre.num != pre.numblocks * ppb {
      assert false;
    }
    var r, tmpLen := ComputeWnaf(scalar, pre.w);
    ds := r[..tmpLen];
    ghost var tv := Values(c, pre.points);
    if tmpLen <= maxLen0 {
      // the loop is long enough for the whole wNAF
      wnafs := [r[..tmpLen]];
      subs := [pre.points];
      maxLen := maxLen0;
      ts := [tv];
      NotSplit(ds, pre.blocksize);
      FirstSlice(pre.numblocks, pre.w, tv);
      WholeHolds(c, pre.points);
    } else {
      WnafDigits(scalar, pre.w, ds);
      var numblocks := NumberOfBlocks(pre, NumBits(Abs(scalar)), tmpLen);
      wnafs, subs := SplitWnaf(pre, r[..tmpLen], numblocks, ppb);
      maxLen := LongestBlock(wnafs, maxLen0);
      ts := SlicesOf(c, pre, numblocks, ppb, subs);
    }
    BlockStreamsSelect(c, scalar, pre.w, pre.blocksize, tv, ds, wnafs, ts);
  }

  lemma NotSplit(ds: seq<int>, bs: nat)
    ensures IsSplit(ds, bs, 1, [ds])
  {
    BlockBounds(|ds|, bs, 1, 0);
    assert 0 * bs == 0 && ds[0..] == ds;
    assert BlockIs(ds, bs, 1, 0, ds);
  }

  lemma FirstSlice(numblocks: nat, w: nat, tv: seq<Affine>)
    requires numblocks > 0 && w >= 1 && |tv| == numblocks * Pow2(w - 1)
    ensures BlockSlice(tv, w, 0, tv)
  {
    hide Pow2;
    FitsBelow(0, numblocks, Pow2(w - 1));
    assert 0 * Pow2(w - 1) == 0 && tv[0..] == tv;
  }

  lemma WholeHolds(c: Curve, objs: seq<EcPoint>)
    requires c.f.p > 0 && AllValid(c, objs)
    ensures AllHold(c, [objs], [Values(c, objs)])
  {
    hide ToAffine, ValidJac;
  }

  lemma SlicesOf(c: Curve, pre: EcPreComp, nb: nat, ppb: nat, subs: seq<seq<EcPoint>>) returns (ts: seq<seq<Affine>>)
    requires c.f.p > 0 && pre.w >= 1 && ppb == Pow2(pre.w - 1) && |pre.points| == pre.numblocks * ppb
    requires AllValid(c, pre.points) && nb <= pre.numblocks && |subs| == nb
    requires forall b :: 0 <= b < nb ==> b * ppb <= |pre.points| && subs[b] == pre.points[b * ppb..]
    ensures AllHold(c, subs, ts) && |ts| == nb
    ensures forall b :: 0 <= b < nb ==> BlockSlice(Values(c, pre.points), pre.w, b, ts[b])
  {
    hide Pow2, ToAffine, ValidJac;
    var tv := Values(c, pre.points);
    ts := seq(nb, b requires 0 <= b < nb => tv[b * ppb..]);
    forall b | 0 <= b < nb
      ensures BlockSlice(tv, pre.w, b, ts[b]) && TableHolds(c, subs[b], ts[b])
    {
      FitsBelow(b, pre.numblocks, ppb);
      assert subs[b] == pre.points[b * ppb..];
    }
  }

  method LongestBlock(blocks: seq<seq<int>>, maxLen0: nat) returns (maxLen: nat)
    ensures maxLen0 <= maxLen && NoDigitsFrom(blocks, maxLen)
  {
    maxLen := maxLen0;
    for i := 0 to |blocks|
      invariant maxLen0 <= maxLen && forall k :: 0 <= k < i ==> |blocks[k]| <= maxLen
    {
      if |blocks[i]| > maxLen {
        maxLen := |blocks[i]|;
      }
    }
  }

  // ---------- ec_wNAF_mul ----------

  /** A generator on the curve, and a precomputed table of any contents. */
  ghost predicate GroupShaped(group: EcGroup)
    reads group, group.generator, group.precomp
    reads if group.precomp == null then [] else group.precomp.points
  {
    && IsGroup(group.c)
    && (group.generator != null ==> group.generator.Valid(group.c) && OnCurve(group.c, group.generator.Value(group.c)))
    && (group.precomp != null ==> group.precomp.Shaped(group.c))
  }

  /** The table, if there is one, also holds what it should. */
  ghost predicate GroupOk(group: EcGroup)
    reads group, group.generator, group.precomp
    reads if group.precomp == null then [] else group.precomp.points
  {
    GroupShaped(group) && (group.precomp != null ==> group.precomp.WellFormed(group.c))
  }

  /** The precomputed table can be used: it exists and starts with the current generator. */
  ghost predicate UsesTable(group: EcGroup)
    requires GroupShaped(group)
    reads group, group.generator, group.precomp
    reads if group.precomp == null then [] else group.precomp.points
  {
    && group.generator != null && group.precomp != null && group.precomp.numblocks > 0
    && group.precomp.Base(group.c) == group.generator.Value(group.c)
  }

  /** The term scalar*G of the sum. */
  ghost function GeneratorTerm(c: Curve, scalar: Option<int>, G: Affine): (R: Affine)
    requires ValidCurve(c) && OnCurve(c, G)
    ensures OnCurve(c, R)
  {
    match scalar
    case None => Infinity
    case Some(k) => Mul(c, k, G)
  }

  ghost function GeneratorValue(group: EcGroup): (G: Affine)
    requires GroupShaped(group)
    reads group, group.generator, group.precomp
    reads if group.precomp == null then [] else group.precomp.points
    ensures OnCurve(group.c, G)
  {
    if group.generator == null then Infinity else group.generator.Value(group.c)
  }

  /**
   The points that get a table of their own: the given ones, and the generator when its scalar
   is present and no precomputed table can be used.
   */
  ghost function OwnPoints(scalar: Option<int>, usesTable: bool, G: Affine, Ps: seq<Affine>): seq<Affine> {
    if scalar.Some? && !usesTable then Ps + [G] else Ps
  }

  function OwnScalars(scalar: Option<int>, usesTable: bool, scalars: seq<int>): seq<int> {
    if scalar.Some? && !usesTable then scalars + [scalar.value] else scalars
  }

  lemma OwnOnCurve(c: Curve, scalar: Option<int>, usesTable: bool, G: Affine, Ps: seq<Affine>)
    requires ValidCurve(c) && OnCurve(c, G) && AllOnCurve(c, Ps)
    ensures AllOnCurve(c, OwnPoints(scalar, usesTable, G, Ps))
  {
    hide OnCurve;
  }

  /** No small odd multiple breaks the conversion of the tables to affine form. */
  ghost predicate CleanTables(c: Curve, scalar: Option<int>, usesTable: bool, G: Affine, scalars: seq<int>, Ps: seq<Affine>)
    requires ValidCurve(c) && OnCurve(c, G) && AllOnCurve(c, Ps) && |Ps| == |scalars|
  {
    OwnOnCurve(c, scalar, usesTable, G, Ps);
    var Qs, ks := OwnPoints(scalar, usesTable, G, Ps), OwnScalars(scalar, usesTable, scalars);
    ConvertsCleanly(ValPoints(c, Qs, Windows(ks), |Qs|))
  }

  /** scalar*G + the sum of scalars[i]*points[i] */
  ghost function Total(c: Curve, scalar: Option<int>, G: Affine, scalars: seq<int>, Ps: seq<Affine>): (R: Affine)
    requires ValidCurve(c) && OnCurve(c, G) && AllOnCurve(c, Ps) && |Ps| == |scalars|
    ensures OnCurve(c, R)
  {
    AddClosed(c, LinComb(c, scalars, Ps, |Ps|), GeneratorTerm(c, scalar, G));
    AffAdd(c, LinComb(c, scalars, Ps, |Ps|), GeneratorTerm(c, scalar, G))
  }

  lemma WnafCoefs(c: Curve, ks: seq<int>, ws: seq<nat>, wnafs: seq<seq<int>>, Ps: seq<Affine>)
    requires ValidCurve(c) && AllOnCurve(c, Ps) && |ks| == |ws| == |wnafs| == |Ps|
    requires forall i :: 0 <= i < |ks| ==> IsWnaf(ks[i], ws[i], wnafs[i])
    ensures LinComb(c, Coefs(wnafs, 0), Ps, |Ps|) == LinComb(c, ks, Ps, |Ps|)
  {
    hide OnCurve, ValueFrom, WDigit, LinComb;
    forall i | 0 <= i < |ks|
      ensures Coefs(wnafs, 0)[i] == ks[i]
    {
      WnafDigits(ks[i], ws[i], wnafs[i]);
    }
    LinCombSame(c, Coefs(wnafs, 0), ks, Ps, Ps, |Ps|);
  }

  lemma OwnDigit(ks: seq<int>, ws: seq<nat>, wnafs: seq<seq<int>>, i: nat, k: nat)
    requires AllWnafs(ks, ws, wnafs) && i < |ks| && k < |wnafs[i]| && ws[i] >= 1
    ensures WDigit(wnafs[i][k], ws[i])
    ensures wnafs[i][k] != 0 ==> Abs(wnafs[i][k]) / 2 < Pow2(ws[i] - 1)
  {
    hide IsWnaf, WDigit, Pow2;
    assert IsWnaf(ks[i], ws[i], wnafs[i]);
    WnafDigits(ks[i], ws[i], wnafs[i]);
    if wnafs[i][k] != 0 {
      DigitIndex(wnafs[i][k], ws[i]);
    }
  }

  lemma OwnStreams(c: Curve, ks: seq<int>, ws: seq<nat>, wnafs: seq<seq<int>>, cv: seq<Affine>)
    requires c.f.p > 0 && AllWnafs(ks, ws, wnafs) && AllWindows(ws) && |cv| == Offset(ws, |ws|)
    requires forall i :: 0 <= i < |ws| ==> AllInField(c, ValueSlices(cv, ws)[i])
    ensures Streams(c, wnafs, ValueSlices(cv, ws))
  {
    hide IsWnaf, InField, Pow2, ValueSlices, Offset, AllWnafs;
    WnafsCount(ks, ws, wnafs);
    forall i, k | 0 <= i < |wnafs| && 0 <= k < |wnafs[i]|
      ensures Selects(ValueSlices(cv, ws)[i], wnafs[i][k])
    {
      OwnDigit(ks, ws, wnafs, i, k);
      ValueSliceAt(cv, ws, i);
    }
  }

  lemma WnafsCount(ks: seq<int>, ws: seq<nat>, wnafs: seq<seq<int>>)
    requires AllWnafs(ks, ws, wnafs)
    ensures |wnafs| == |ks| == |ws|
  {
  }

  // ---------- which entries are needed ----------

  ghost predicate KeptEntry(vs: seq<Affine>, k: nat) {
    k < |vs| && EntryFate(vs, k) == Kept
  }

  /** Every entry that is selected by a digit survives the conversion to affine form. */
  ghost predicate UsedKept(vs: seq<Affine>, ws: seq<nat>, wnafs: seq<seq<int>>)
    requires AllWindows(ws)
  {
    |wnafs| == |ws| && forall i, k :: 0 <= i < |wnafs| && 0 <= k < |wnafs[i]| && wnafs[i][k] != 0 ==>
      KeptEntry(vs, Offset(ws, i) + Abs(wnafs[i][k]) / 2)
  }

  lemma CleanIsKept(vs: seq<Affine>, ks: seq<int>, ws: seq<nat>, wnafs: seq<seq<int>>)
    requires AllWindows(ws) && |vs| == Offset(ws, |ws|) && AllWnafs(ks, ws, wnafs) && ConvertsCleanly(vs)
    ensures UsedKept(vs, ws, wnafs)
  {
    hide IsWnaf, Pow2, ValueSlices, Offset, NoGap, FateOf, AllWnafs;
    WnafsCount(ks, ws, wnafs);
    forall i, k | 0 <= i < |wnafs| && 0 <= k < |wnafs[i]| && wnafs[i][k] != 0
      ensures KeptEntry(vs, Offset(ws, i) + Abs(wnafs[i][k]) / 2)
    {
      OwnDigit(ks, ws, wnafs, i, k);
      ValueSliceAt(vs, ws, i);
      NoGapKeeps(Pattern(vs), Leaves(|vs|), Leaves(|vs|) + Offset(ws, i) + Abs(wnafs[i][k]) / 2);
    }
  }

  /** Then the digits select the right multiples. */
  lemma KeptIsRight(c: Curve, ks: seq<int>, ws: seq<nat>, wnafs: seq<seq<int>>, Qs: seq<Affine>, cv: seq<Affine>)
    requires IsGroup(c) && AllOnCurve(c, Qs) && |Qs| == |ws| && AllWindows(ws) && AllWnafs(ks, ws, wnafs)
    requires Converted(ValPoints(c, Qs, ws, |Qs|), cv) && |cv| == Offset(ws, |ws|)
    requires UsedKept(ValPoints(c, Qs, ws, |Qs|), ws, wnafs) && Streams(c, wnafs, ValueSlices(cv, ws))
    ensures |wnafs| == |Qs| && RightEntries(c, wnafs, ValueSlices(cv, ws), Qs)
  {
    hide IsWnaf, OnCurve, Pow2, Mul, Entry, Streams, ValPoints, Offset, ValueSlices, Associative, EntryFate, AllWnafs;
    var vs, ts := ValPoints(c, Qs, ws, |Qs|), ValueSlices(cv, ws);
    WnafsCount(ks, ws, wnafs);
    forall i, k | 0 <= i < |wnafs| && 0 <= k < |wnafs[i]|
      ensures RightEntry(c, ts[i], wnafs[i][k], Qs[i])
    {
      StreamAt(c, wnafs, ts, i, k);
      if wnafs[i][k] != 0 {
        KeptDigit(c, ks, ws, wnafs, Qs, cv, i, k);
      }
    }
  }

  lemma KeptDigit(c: Curve, ks: seq<int>, ws: seq<nat>, wnafs: seq<seq<int>>, Qs: seq<Affine>, cv: seq<Affine>, i: nat, k: nat)
    requires IsGroup(c) && AllOnCurve(c, Qs) && |Qs| == |ws| == |ks| && AllWindows(ws) && AllWnafs(ks, ws, wnafs)
    requires Converted(ValPoints(c, Qs, ws, |Qs|), cv) && |cv| == Offset(ws, |ws|)
    requires i < |wnafs| && k < |wnafs[i]| && wnafs[i][k] != 0 && |wnafs| == |ws|
    requires KeptEntry(ValPoints(c, Qs, ws, |Qs|), Offset(ws, i) + Abs(wnafs[i][k]) / 2)
    requires AllInField(c, ValueSlices(cv, ws)[i]) && Selects(ValueSlices(cv, ws)[i], wnafs[i][k])
    ensures RightEntry(c, ValueSlices(cv, ws)[i], wnafs[i][k], Qs[i])
  {
    hide IsWnaf, OnCurve, Pow2, Mul, Entry, ValPoints, Offset, ValueSlices, Associative, EntryFate, AllWnafs, InField;
    var vs, t, d, j := ValPoints(c, Qs, ws, |Qs|), ValueSlices(cv, ws)[i], wnafs[i][k], Abs(wnafs[i][k]) / 2;
    OwnDigit(ks, ws, wnafs, i, k);
    OddDigit(d, ws[i]);
    ValueSliceAt(cv, ws, i);
    ValPointsAt(c, Qs, ws, |Qs|, i, j);
    assert AfterConversion(vs, Offset(ws, i) + j, cv[Offset(ws, i) + j]);
    EntryIsMultiple(c, t, d, Qs[i]);
  }

  lemma OddDigit(d: int, w: nat)
    requires WDigit(d, w) && d != 0
    ensures 2 * (Abs(d) / 2) + 1 == Abs(d)
  {
  }

  lemma SlicesApart(val: seq<EcPoint>, ws: seq<nat>, r: EcPoint, us: seq<seq<EcPoint>>)
    requires AllWindows(ws) && |val| == Offset(ws, |ws|) && r !in val && Apart(r, us)
    ensures Apart(r, Slices(val, ws) + us)
  {
    hide Offset;
    var ts := Slices(val, ws);
    forall i | 0 <= i < |ts + us|
      ensures r !in (ts + us)[i]
    {
      if i < |ts| {
        SliceWithin(val, ws, i);
      }
    }
  }

  lemma SliceWithin(val: seq<EcPoint>, ws: seq<nat>, i: nat)
    requires AllWindows(ws) && |val| == Offset(ws, |ws|) && i < |ws|
    ensures forall o :: o in Slices(val, ws)[i] ==> o in val
  {
    hide Pow2, Offset;
    SliceAt(val, ws, i);
    var t := Slices(val, ws)[i];
    forall o | o in t
      ensures o in val
    {
      var j :| 0 <= j < |t| && t[j] == o;
      assert t[j] == val[Offset(ws, i) + j];
    }
  }

  // The streams of the plain scalars followed by those of the split generator.
  lemma JoinStreams(c: Curve, wnafs: seq<seq<int>>, Ps: seq<Affine>, gwnafs: seq<seq<int>>, Bs: seq<Affine>)
    requires IsGroup(c) && AllOnCurve(c, Ps) && AllOnCurve(c, Bs) && |wnafs| == |Ps| && |gwnafs| == |Bs|
    ensures AllOnCurve(c, Ps + Bs)
    ensures LinComb(c, Coefs(wnafs + gwnafs, 0), Ps + Bs, |Ps + Bs|)
         == AffAdd(c, LinComb(c, Coefs(wnafs, 0), Ps, |Ps|), LinComb(c, Coefs(gwnafs, 0), Bs, |Bs|))
  {
    hide OnCurve, AffAdd, LinComb, ValueFrom, Associative;
    assert Coefs(wnafs + gwnafs, 0) == Coefs(wnafs, 0) + Coefs(gwnafs, 0);
    LinCombConcat(c, Coefs(wnafs, 0), Ps, Coefs(gwnafs, 0), Bs, |Bs|);
  }

  lemma JoinHeld(c: Curve, ts: seq<seq<EcPoint>>, wnafs: seq<seq<int>>, tv: seq<seq<Affine>>,
                 us: seq<seq<EcPoint>>, gwnafs: seq<seq<int>>, uv: seq<seq<Affine>>)
    requires ValidCurve(c) && AllHold(c, ts, tv) && AllHold(c, us, uv) && Streams(c, wnafs, tv) && Streams(c, gwnafs, uv)
    ensures AllHold(c, ts + us, tv + uv) && Streams(c, wnafs + gwnafs, tv + uv)
  {
    hide TableHolds, InField;
  }

  lemma JoinDigits(wnafs: seq<seq<int>>, gwnafs: seq<seq<int>>, top: nat)
    requires NoDigitsFrom(wnafs, top) && NoDigitsFrom(gwnafs, top)
    ensures NoDigitsFrom(wnafs + gwnafs, top)
  {
  }

  lemma JoinRight(c: Curve, wnafs: seq<seq<int>>, ts: seq<seq<Affine>>, Ps: seq<Affine>,
                  gwnafs: seq<seq<int>>, us: seq<seq<Affine>>, Bs: seq<Affine>)
    requires ValidCurve(c) && AllOnCurve(c, Ps) && AllOnCurve(c, Bs)
    requires RightEntries(c, wnafs, ts, Ps) && RightEntries(c, gwnafs, us, Bs)
    ensures AllOnCurve(c, Ps + Bs) && RightEntries(c, wnafs + gwnafs, ts + us, Ps + Bs)
  {
    hide OnCurve, RightEntry;
    forall i, k | 0 <= i < |wnafs + gwnafs| && 0 <= k < |(wnafs + gwnafs)[i]|
      ensures RightEntry(c, (ts + us)[i], (wnafs + gwnafs)[i][k], (Ps + Bs)[i])
    {
      if i >= |wnafs| {
        assert (wnafs + gwnafs)[i] == gwnafs[i - |wnafs|];
      }
    }
  }

  /** The right entries give the sum of the multiples. */
  lemma RunIsSum(c: Curve, ks: seq<int>, ws: seq<nat>, wnafs: seq<seq<int>>, ts: seq<seq<Affine>>, Qs: seq<Affine>,
                 gwnafs: seq<seq<int>>, us: seq<seq<Affine>>, Bs: seq<Affine>, top: nat)
    requires IsGroup(c) && AllOnCurve(c, Qs) && AllOnCurve(c, Bs) && |Qs| == |ks| && AllWnafs(ks, ws, wnafs)
    requires Streams(c, wnafs, ts) && Streams(c, gwnafs, us) && Streams(c, wnafs + gwnafs, ts + us)
    requires RightEntries(c, wnafs, ts, Qs) && RightEntries(c, gwnafs, us, Bs) && NoDigitsFrom(wnafs + gwnafs, top)
    ensures Horner(c, wnafs + gwnafs, ts + us, 0, top)
         == AffAdd(c, LinComb(c, ks, Qs, |Qs|), LinComb(c, Coefs(gwnafs, 0), Bs, |Bs|))
  {
    hide OnCurve, AffAdd, LinComb, Coefs, Associative, IsWnaf, Streams, RightEntries, Horner, NoDigitsFrom;
    RightCount(c, wnafs, ts, Qs);
    RightCount(c, gwnafs, us, Bs);
    WnafCoefs(c, ks, ws, wnafs, Qs);
    JoinStreams(c, wnafs, Qs, gwnafs, Bs);
    JoinRight(c, wnafs, ts, Qs, gwnafs, us, Bs);
    HornerIsSum(c, wnafs + gwnafs, ts + us, Qs + Bs, 0, top);
  }

  lemma RightCount(c: Curve, wnafs: seq<seq<int>>, ts: seq<seq<Affine>>, Bs: seq<Affine>)
    requires ValidCurve(c) && AllOnCurve(c, Bs) && Streams(c, wnafs, ts) && RightEntries(c, wnafs, ts, Bs)
    ensures |Bs| == |wnafs|
  {
  }

  /**
   Tables, main loop and clean-up, for streams that are already set up: the plain Horner scheme over
   the entries that the conversion to affine form leaves.
   */
  method MulStreams(c: Curve, r: EcPoint, srcs: seq<EcPoint>, ks: seq<int>, ws: seq<nat>, wnafs: seq<seq<int>>,
                    numVal: nat, gwnafs: seq<seq<int>>, gsubs: seq<seq<EcPoint>>, maxLen: nat,
                    ghost Qs: seq<Affine>, ghost us: seq<seq<Affine>>)
    returns (ghost cv: seq<Affine>)
    requires IsGroup(c) && r.Valid(c) && Sources(c, srcs, Qs) && AllOnCurve(c, Qs)
    requires |ks| == |Qs| && ws == Windows(ks) && numVal == Offset(ws, |ws|) && AllWnafs(ks, ws, wnafs)
    requires |gwnafs| == |gsubs| && AllHold(c, gsubs, us) && Streams(c, gwnafs, us) && Apart(r, gsubs)
    modifies r
    ensures r.Valid(c) && |cv| == Offset(ws, |ws|) && Converted(ValPoints(c, Qs, ws, |Qs|), cv)
    ensures Streams(c, wnafs, ValueSlices(cv, ws)) && Streams(c, wnafs + gwnafs, ValueSlices(cv, ws) + us)
    ensures r.Value(c) == Horner(c, wnafs + gwnafs, ValueSlices(cv, ws) + us, 0, maxLen)
  {
    hide OnCurve, Associative, IsWnaf, ToAffine, Converted, Streams, Horner, TableHolds, AllWnafs,
         ValPoints, Slices, ValueSlices, Offset, Windows, ValidField;
    var val, subs := BuildVal(c, srcs, ws, numVal, Qs);
    cv := Values(c, val);
    SlicesHold(c, val, ws);
    OwnStreams(c, ks, ws, wnafs, cv);
    WnafsCount(ks, ws, wnafs);
    JoinHeld(c, subs, wnafs, ValueSlices(cv, ws), gsubs, gwnafs, us);
    SlicesApart(val, ws, r, gsubs);
    InterleavedSum(c, r, wnafs + gwnafs, subs + gsubs, maxLen, ValueSlices(cv, ws) + us);
  }

  // ---------- the whole multiplication ----------

  /**
   What a multiplication works on: digit lists and table entries of the points with tables of their
   own, those of the generator if its precomputed table is used, and the number of rounds.
   */
  datatype Run = Run(wnafs: seq<seq<int>>, entries: seq<Affine>, gwnafs: seq<seq<int>>, gtables: seq<seq<Affine>>,
                     rounds: nat)

  /** The digits are those of the scalars, and the entries what the conversion leaves of the odd multiples. */
  ghost predicate OwnRun(c: Curve, Qs: seq<Affine>, ks: seq<int>, run: Run)
    requires ValidCurve(c) && AllOnCurve(c, Qs) && |Qs| == |ks|
  {
    && AllWnafs(ks, Windows(ks), run.wnafs)
    && Converted(ValPoints(c, Qs, Windows(ks), |Qs|), run.entries)
    && Streams(c, run.wnafs, Tables(ks, run))
    && Streams(c, run.wnafs + run.gwnafs, Tables(ks, run) + run.gtables)
    && NoDigitsFrom(run.wnafs + run.gwnafs, run.rounds)
  }

  function Tables(ks: seq<int>, run: Run): seq<seq<Affine>> {
    if |run.entries| == Offset(Windows(ks), |ks|) then ValueSlices(run.entries, Windows(ks)) else []
  }

  /** The wNAF of the generator's scalar, in blocks, with their slices of the precomputed table. */
  ghost predicate TableRun(scalar: int, w: nat, bs: nat, tv: seq<Affine>, run: Run) {
    exists ds :: BlockStreams(scalar, w, bs, tv, ds, run.gwnafs, run.gtables)
  }

  /** The result for this run: the plain Horner scheme over its entries. */
  ghost function Outcome(c: Curve, ks: seq<int>, run: Run): Affine
    requires c.f.p > 0 && Streams(c, run.wnafs + run.gwnafs, Tables(ks, run) + run.gtables)
  {
    Horner(c, run.wnafs + run.gwnafs, Tables(ks, run) + run.gtables, 0, run.rounds)
  }

  /** A run of ec_wNAF_mul on these arguments. */
  ghost predicate IsRun(c: Curve, scalar: Option<int>, usesTable: bool, G: Affine, scalars: seq<int>, Ps: seq<Affine>, run: Run)
    requires ValidCurve(c) && OnCurve(c, G) && AllOnCurve(c, Ps) && |Ps| == |scalars|
  {
    OwnOnCurve(c, scalar, usesTable, G, Ps);
    OwnRun(c, OwnPoints(scalar, usesTable, G, Ps), OwnScalars(scalar, usesTable, scalars), run)
  }

  /** No digit of the run selects an entry that the conversion has changed. */
  ghost predicate KeepsEntries(c: Curve, scalar: Option<int>, usesTable: bool, G: Affine, scalars: seq<int>, Ps: seq<Affine>,
                               run: Run)
    requires ValidCurve(c) && OnCurve(c, G) && AllOnCurve(c, Ps) && |Ps| == |scalars|
  {
    OwnOnCurve(c, scalar, usesTable, G, Ps);
    var Qs, ks := OwnPoints(scalar, usesTable, G, Ps), OwnScalars(scalar, usesTable, scalars);
    UsedKept(ValPoints(c, Qs, Windows(ks), |Qs|), Windows(ks), run.wnafs)
  }

  /** Tables that convert cleanly keep all entries. */
  lemma CleanKeepsEntries(c: Curve, scalar: Option<int>, usesTable: bool, G: Affine, scalars: seq<int>, Ps: seq<Affine>, run: Run)
    requires ValidCurve(c) && OnCurve(c, G) && AllOnCurve(c, Ps) && |Ps| == |scalars|
    requires IsRun(c, scalar, usesTable, G, scalars, Ps, run) && CleanTables(c, scalar, usesTable, G, scalars, Ps)
    ensures KeepsEntries(c, scalar, usesTable, G, scalars, Ps, run)
  {
    hide OnCurve, AllWnafs, ConvertsCleanly, ValPoints, UsedKept, Windows, Streams, Converted;
    OwnOnCurve(c, scalar, usesTable, G, Ps);
    var Qs, ks := OwnPoints(scalar, usesTable, G, Ps), OwnScalars(scalar, usesTable, scalars);
    CleanIsKept(ValPoints(c, Qs, Windows(ks), |Qs|), ks, Windows(ks), run.wnafs);
  }

  /** What the generator contributes: a run of the precomputed table, or nothing. */
  ghost predicate GeneratorRun(scalar: Option<int>, usesTable: bool, w: nat, bs: nat, tv: seq<Affine>, run: Run) {
    if scalar.Some? && usesTable then TableRun(scalar.value, w, bs, tv, run) else run.gwnafs == [] && run.gtables == []
  }

  /** With the right entries the outcome of a run is the sum that is asked for. */
  lemma RunTotal(c: Curve, scalar: Option<int>, usesTable: bool, G: Affine, scalars: seq<int>, Ps: seq<Affine>, run: Run,
                 w: nat, bs: nat, tv: seq<Affine>)
    requires IsGroup(c) && OnCurve(c, G) && AllOnCurve(c, Ps) && |Ps| == |scalars| && (usesTable ==> scalar.Some?)
    requires IsRun(c, scalar, usesTable, G, scalars, Ps, run) && KeepsEntries(c, scalar, usesTable, G, scalars, Ps, run)
    requires GeneratorRun(scalar, usesTable, w, bs, tv, run) && Streams(c, run.gwnafs, run.gtables)
    requires usesTable ==> OddBlocks(c, tv, w, bs, |run.gwnafs|, G)
    ensures Outcome(c, OwnScalars(scalar, usesTable, scalars), run) == Total(c, scalar, G, scalars, Ps)
  {
    hide OnCurve, AllWnafs, ValPoints, UsedKept, Windows, Streams, Converted, Associative, AffAdd, Mul, LinComb, Coefs,
         Horner, BlockStreams, OddBlocks, RightEntries, NoDigitsFrom, Total, Offset, ValueSlices;
    OwnOnCurve(c, scalar, usesTable, G, Ps);
    var Qs, ks := OwnPoints(scalar, usesTable, G, Ps), OwnScalars(scalar, usesTable, scalars);
    var ws := Windows(ks);
    var Bs := [];
    EntryCount(c, Qs, ws, run.entries);
    KeptIsRight(c, ks, ws, run.wnafs, Qs, run.entries);
    if usesTable {
      var ds :| BlockStreams(scalar.value, w, bs, tv, ds, run.gwnafs, run.gtables);
      Bs := BlockPoints(c, bs, |run.gwnafs|, G);
      BlockSum(c, scalar.value, w, bs, tv, ds, run.gwnafs, run.gtables, G);
    } else {
      NoTables(c);
    }
    RunIsSum(c, ks, ws, run.wnafs, Tables(ks, run), Qs, run.gwnafs, run.gtables, Bs, run.rounds);
    RightCount(c, run.gwnafs, run.gtables, Bs);
    TotalFromParts(c, scalar, usesTable, G, scalars, Ps, run.gwnafs, Bs);
  }

  lemma EntryCount(c: Curve, Qs: seq<Affine>, ws: seq<nat>, cv: seq<Affine>)
    requires ValidCurve(c) && AllOnCurve(c, Qs) && |Qs| == |ws| && AllWindows(ws)
    requires Converted(ValPoints(c, Qs, ws, |Qs|), cv)
    ensures |cv| == Offset(ws, |ws|)
  {
  }

  /** The precomputed table takes part: a scalar for the generator is given, and the table belongs to it. */
  ghost predicate TableUsed(group: EcGroup, scalar: Option<int>)
    requires GroupShaped(group)
    reads group, group.generator, group.precomp
    reads if group.precomp == null then [] else group.precomp.points
  {
    scalar.Some? && UsesTable(group)
  }

  function TableW(group: EcGroup): nat
    reads group, group.precomp
  {
    if group.precomp == null then 0 else group.precomp.w
  }

  function TableBs(group: EcGroup): nat
    reads group, group.precomp
  {
    if group.precomp == null then 0 else group.precomp.blocksize
  }

  function TableBlockCount(group: EcGroup): nat
    reads group, group.precomp
  {
    if group.precomp == null then 0 else group.precomp.numblocks
  }

  ghost function TableEntries(group: EcGroup): seq<Affine>
    requires group.c.f.p > 0
    reads group, group.precomp
    reads if group.precomp == null then [] else group.precomp.points
  {
    if group.precomp == null then [] else Values(group.c, group.precomp.points)
  }

  /** Its values are odd multiples of the generator, block by block. */
  ghost predicate TableRight(c: Curve, used: bool, tv: seq<Affine>, w: nat, bs: nat, nb: nat, G: Affine)
    requires ValidCurve(c) && OnCurve(c, G)
  {
    used ==> OddBlocks(c, tv, w, bs, nb, G)
  }

  lemma TableOfGroup(group: EcGroup, used: bool)
    requires GroupShaped(group) && GroupOk(group) && (used ==> UsesTable(group))
    ensures TableRight(group.c, used, TableEntries(group), TableW(group), TableBs(group), TableBlockCount(group),
                       GeneratorValue(group))
  {
    hide OnCurve, OddBlocks, EcPreComp.WellFormed, EcPreComp.Base, EcPreComp.Shaped;
    if used {
      WellFormedBlocks(group.c, group.precomp, GeneratorValue(group));
    }
  }

  /**
   ec_wNAF_mul.  It fails only when a generator is needed and there is none.  In every other case the
   result is the plain Horner scheme over the table entries, as the conversion to affine form leaves
   them; if all that are selected were kept, it is scalar*generator + the sum of scalars[i]*points[i].
   r may be one of the points, or the generator.
   */
  method WnafMul(group: EcGroup, r: EcPoint, scalar: Option<int>, points: seq<EcPoint>, scalars: seq<int>,
                 ghost Ps: seq<Affine>)
    returns (ok: bool, ghost run: Run)
    requires GroupShaped(group) && r.Valid(group.c) && (group.precomp != null ==> r !in group.precomp.points)
    requires |points| == |scalars| && Sources(group.c, points, Ps) && AllOnCurve(group.c, Ps)
    modifies r
    ensures ok <==> scalar.None? || old(group.generator) != null
    ensures !ok ==> r.J() == old(r.J())
    ensures ok ==> r.Valid(group.c)
    ensures ok ==> IsRun(group.c, scalar, old(TableUsed(group, scalar)), old(GeneratorValue(group)), scalars, Ps, run)
    ensures ok ==>
      GeneratorRun(scalar, old(TableUsed(group, scalar)), TableW(group), TableBs(group), old(TableEntries(group)), run)
    ensures ok ==> r.Value(group.c) == Outcome(group.c, OwnScalars(scalar, old(TableUsed(group, scalar)), scalars), run)
    ensures ok && old(GroupOk(group)) ==>
      KeepsEntries(group.c, scalar, old(TableUsed(group, scalar)), old(GeneratorValue(group)), scalars, Ps, run) ==>
      r.Value(group.c) == Total(group.c, scalar, old(GeneratorValue(group)), scalars, Ps)
    ensures ok && old(GroupOk(group)) ==>
      CleanTables(group.c, scalar, old(TableUsed(group, scalar)), old(GeneratorValue(group)), scalars, Ps) ==>
      r.Value(group.c) == Total(group.c, scalar, old(GeneratorValue(group)), scalars, Ps)
  {
    hide OnCurve, AffAdd, Associative, ToAffine, ValidField, EcPreComp.WellFormed, EcPreComp.Shaped, EcPreComp.Base,
         Total, KeepsEntries, CleanTables, IsRun, Outcome, GeneratorRun, Streams, AllWnafs, Windows, ValueSlices, Offset,
         TableRight, NoDigitsFrom, ValPoints, Converted, Horner, AllHold;
    var c := group.c;
    ghost var G, used, sound, tv := GeneratorValue(group), TableUsed(group, scalar), GroupOk(group), TableEntries(group);
    run := Run([], [], [], [], 0);
    if scalar.None? && |points| == 0 {
      r.SetToInfinity();
      InfinityIsZero(c, r.J());
      NothingRun(c, G, scalars, Ps, run, TableW(group), TableBs(group), tv);
      EmptyTotal(c, G, scalars, Ps);
      return true, run;
    }
    if scalar.Some? && group.generator == null {
      return false, run;
    }
    var pre := ChooseTable(group, scalar);
    ghost var nb := TableBlockCount(group);
    if sound {
      TableOfGroup(group, used);
    }
    var srcs, ks := points, scalars;
    if scalar.Some? && pre == null {
      // treat the generator like the other points
      srcs, ks := points + [group.generator], scalars + [scalar.value];
    }
    ghost var Qs := OwnPoints(scalar, used, G, Ps);
    OwnOnCurve(c, scalar, used, G, Ps);
    OwnSources(c, points, Ps, group.generator, G, srcs, Qs);
    ghost var ds;
    run, ds := MulWith(c, r, srcs, ks, pre, if pre == null then 0 else scalar.value, Qs);
    RunMade(c, scalar, used, G, scalars, Ps, run, ds, TableW(group), TableBs(group), tv);
    if sound {
      RunResult(c, scalar, used, G, scalars, Ps, run, TableW(group), TableBs(group), tv, nb);
    }
    return true, run;
  }

  /** Digit lists and tables of all points and of the generator's table, and the loop over them. */
  method MulWith(c: Curve, r: EcPoint, srcs: seq<EcPoint>, ks: seq<int>, pre: EcPreComp?, scalar: int, ghost Qs: seq<Affine>)
    returns (ghost run: Run, ghost ds: seq<int>)
    requires IsGroup(c) && r.Valid(c) && Sources(c, srcs, Qs) && AllOnCurve(c, Qs) && |ks| == |Qs|
    requires pre != null ==> pre.Shaped(c) && pre.numblocks > 0 && r !in pre.points
    modifies r
    ensures r.Valid(c) && AllWnafs(ks, Windows(ks), run.wnafs)
    ensures NoDigitsFrom(run.wnafs, run.rounds) && NoDigitsFrom(run.gwnafs, run.rounds)
    ensures |run.entries| == Offset(Windows(ks), |ks|) && Converted(ValPoints(c, Qs, Windows(ks), |Qs|), run.entries)
    ensures Streams(c, run.wnafs, ValueSlices(run.entries, Windows(ks))) && Streams(c, run.gwnafs, run.gtables)
    ensures Streams(c, run.wnafs + run.gwnafs, ValueSlices(run.entries, Windows(ks)) + run.gtables)
    ensures r.Value(c) ==
      Horner(c, run.wnafs + run.gwnafs, ValueSlices(run.entries, Windows(ks)) + run.gtables, 0, run.rounds)
    ensures pre == null ==> run.gwnafs == [] && run.gtables == []
    ensures pre != null ==> |run.gwnafs| <= pre.numblocks
    ensures pre != null ==>
      BlockStreams(scalar, pre.w, pre.blocksize, old(Values(c, pre.points)), ds, run.gwnafs, run.gtables)
  {
    hide OnCurve, Associative, ToAffine, EcPreComp.Shaped, Streams, AllWnafs, Windows, ValueSlices, Offset, NoDigitsFrom,
         ValPoints, Converted, Horner, BlockStreams, TableHolds;
    var ws, wnafs, maxLen, numVal := ComputeWnafs(ks);
    var gwnafs, gsubs := [], [];
    ghost var us;
    us, ds := [], [];
    if pre != null {
      ghost var low := maxLen;
      gwnafs, gsubs, maxLen, us, ds := GeneratorStreams(c, pre, scalar, maxLen);
      NoDigitsAbove(wnafs, low, maxLen);
    } else {
      NoTables(c);
      NoDigits(maxLen);
    }
    ApartFrom(r, gsubs, if pre == null then [] else pre.points);
    ghost var cv := MulStreams(c, r, srcs, ks, ws, wnafs, numVal, gwnafs, gsubs, maxLen, Qs, us);
    run := Run(wnafs, cv, gwnafs, us, maxLen);
  }

  // What has been computed is a run.
  lemma RunMade(c: Curve, scalar: Option<int>, used: bool, G: Affine, scalars: seq<int>, Ps: seq<Affine>, run: Run,
                ds: seq<int>, w: nat, bs: nat, tv: seq<Affine>)
    requires ValidCurve(c) && OnCurve(c, G) && AllOnCurve(c, Ps) && |Ps| == |scalars| && (used ==> scalar.Some?)
    requires AllOnCurve(c, OwnPoints(scalar, used, G, Ps))
    requires var Qs, ks := OwnPoints(scalar, used, G, Ps), OwnScalars(scalar, used, scalars);
      && AllWnafs(ks, Windows(ks), run.wnafs) && NoDigitsFrom(run.wnafs, run.rounds) && NoDigitsFrom(run.gwnafs, run.rounds)
      && |run.entries| == Offset(Windows(ks), |ks|) && Converted(ValPoints(c, Qs, Windows(ks), |Qs|), run.entries)
      && Streams(c, run.wnafs, ValueSlices(run.entries, Windows(ks)))
      && Streams(c, run.wnafs + run.gwnafs, ValueSlices(run.entries, Windows(ks)) + run.gtables)
    requires if used then BlockStreams(scalar.value, w, bs, tv, ds, run.gwnafs, run.gtables)
      else run.gwnafs == [] && run.gtables == []
    ensures IsRun(c, scalar, used, G, scalars, Ps, run) && GeneratorRun(scalar, used, w, bs, tv, run)
    ensures Streams(c, run.wnafs + run.gwnafs, Tables(OwnScalars(scalar, used, scalars), run) + run.gtables)
    ensures Outcome(c, OwnScalars(scalar, used, scalars), run) ==
      Horner(c, run.wnafs + run.gwnafs, ValueSlices(run.entries, Windows(OwnScalars(scalar, used, scalars))) + run.gtables,
             0, run.rounds)
  {
    hide OnCurve, AllWnafs, Windows, Offset, ValueSlices, Streams, Converted, ValPoints, NoDigitsFrom, BlockStreams, Horner;
    JoinDigits(run.wnafs, run.gwnafs, run.rounds);
  }

  // What a run gives with a right table for the generator.
  lemma RunResult(c: Curve, scalar: Option<int>, used: bool, G: Affine, scalars: seq<int>, Ps: seq<Affine>, run: Run,
                  w: nat, bs: nat, tv: seq<Affine>, nb: nat)
    requires IsGroup(c) && OnCurve(c, G) && AllOnCurve(c, Ps) && |Ps| == |scalars| && (used ==> scalar.Some?)
    requires IsRun(c, scalar, used, G, scalars, Ps, run) && GeneratorRun(scalar, used, w, bs, tv, run)
    requires Streams(c, run.gwnafs, run.gtables)
    requires |run.gwnafs| <= nb && TableRight(c, used, tv, w, bs, nb, G)
    ensures Streams(c, run.wnafs + run.gwnafs, Tables(OwnScalars(scalar, used, scalars), run) + run.gtables)
    ensures KeepsEntries(c, scalar, used, G, scalars, Ps, run) ==>
      Outcome(c, OwnScalars(scalar, used, scalars), run) == Total(c, scalar, G, scalars, Ps)
    ensures CleanTables(c, scalar, used, G, scalars, Ps) ==>
      Outcome(c, OwnScalars(scalar, used, scalars), run) == Total(c, scalar, G, scalars, Ps)
  {
    hide OnCurve, Associative, Outcome, Total, KeepsEntries, CleanTables, GeneratorRun, OddBlock, AllWnafs, Windows, Offset,
         ValueSlices, Streams, Converted, ValPoints, NoDigitsFrom;
    if CleanTables(c, scalar, used, G, scalars, Ps) {
      CleanKeepsEntries(c, scalar, used, G, scalars, Ps, run);
    }
    if KeepsEntries(c, scalar, used, G, scalars, Ps, run) {
      RunTotal(c, scalar, used, G, scalars, Ps, run, w, bs, tv);
    }
  }

  // Without a scalar and without points there is nothing to run.
  lemma NothingRun(c: Curve, G: Affine, scalars: seq<int>, Ps: seq<Affine>, run: Run, w: nat, bs: nat, tv: seq<Affine>)
    requires ValidCurve(c) && OnCurve(c, G) && AllOnCurve(c, Ps) && |Ps| == |scalars| == 0
    requires run == Run([], [], [], [], 0)
    ensures IsRun(c, None, false, G, scalars, Ps, run) && GeneratorRun(None, false, w, bs, tv, run)
    ensures Streams(c, run.wnafs + run.gwnafs, Tables(scalars, run) + run.gtables)
    ensures Outcome(c, scalars, run) == Infinity
  {
    hide OnCurve;
    assert scalars == [] && Ps == [];
    assert Windows([]) == [];
    assert ValueSlices([], []) == [];
  }

  /** The precomputed multiples, if they exist and belong to the current generator. */
  method ChooseTable(group: EcGroup, scalar: Option<int>) returns (pre: EcPreComp?)
    requires GroupShaped(group) && (scalar.Some? ==> group.generator != null)
    ensures pre == if scalar.Some? && UsesTable(group) then group.precomp else null
  {
    hide OnCurve, ToAffine, ValidField, EcPreComp.Shaped, EcPreComp.Base;
    pre := null;
    if scalar.Some? {
      if group.precomp != null && group.precomp.numblocks > 0 {
        FirstPoint(group.c, group.precomp);
        var cmp := Cmp(group.c, group.generator, group.precomp.points[0]);
        if cmp == 0 {
          pre := group.precomp;
        }
      }
    }
  }

  lemma EmptyTotal(c: Curve, G: Affine, scalars: seq<int>, Ps: seq<Affine>)
    requires ValidCurve(c) && OnCurve(c, G) && AllOnCurve(c, Ps) && |Ps| == |scalars| == 0
    ensures Total(c, None, G, scalars, Ps) == Infinity
  {
    hide OnCurve;
  }

  lemma FirstPoint(c: Curve, pre: EcPreComp)
    requires c.f.p > 0 && pre.Shaped(c) && pre.numblocks > 0
    ensures |pre.points| > 0
    ensures pre.points[0].Valid(c) && pre.points[0].Value(c) == pre.Base(c)
  {
    hide Pow2, ToAffine, ValidJac;
    FitsBelow(0, pre.numblocks, Pow2(pre.w - 1));
  }

  lemma OwnSources(c: Curve, points: seq<EcPoint>, Ps: seq<Affine>, g: EcPoint?, G: Affine,
                   srcs: seq<EcPoint>, Qs: seq<Affine>)
    requires c.f.p > 0 && Sources(c, points, Ps)
    requires (srcs == points && Qs == Ps)
      || (g != null && g.Valid(c) && g.Value(c) == G && srcs == points + [g] && Qs == Ps + [G])
    ensures Sources(c, srcs, Qs)
  {
    hide ToAffine, ValidJac;
  }

  lemma NoTables(c: Curve)
    requires ValidCurve(c)
    ensures AllHold(c, [], []) && Streams(c, [], []) && RightEntries(c, [], [], [])
    ensures LinComb(c, Coefs([], 0), [], 0) == Infinity
  {
  }

  lemma NoDigits(k: nat)
    ensures NoDigitsFrom([], k)
  {
  }

  lemma ApartFrom(r: EcPoint, tables: seq<seq<EcPoint>>, objs: seq<EcPoint>)
    requires r !in objs && forall i, o :: 0 <= i < |tables| && o in tables[i] ==> o in objs
    ensures Apart(r, tables)
  {
  }

  lemma TotalFromParts(c: Curve, scalar: Option<int>, usesTable: bool, G: Affine, scalars: seq<int>, Ps: seq<Affine>,
                       gwnafs: seq<seq<int>>, Bs: seq<Affine>)
    requires IsGroup(c) && OnCurve(c, G) && AllOnCurve(c, Ps) && |Ps| == |scalars|
    requires AllOnCurve(c, Bs) && |gwnafs| == |Bs| && (usesTable ==> scalar.Some?)
    requires LinComb(c, Coefs(gwnafs, 0), Bs, |Bs|) == if usesTable then Mul(c, scalar.value, G) else Infinity
    requires AllOnCurve(c, OwnPoints(scalar, usesTable, G, Ps))
    ensures var Qs, ks := OwnPoints(scalar, usesTable, G, Ps), OwnScalars(scalar, usesTable, scalars);
      AffAdd(c, LinComb(c, ks, Qs, |Qs|), LinComb(c, Coefs(gwnafs, 0), Bs, |Bs|)) == Total(c, scalar, G, scalars, Ps)
  {
    hide OnCurve, AffAdd, Mul, Coefs, Associative;
    var Qs, ks := OwnPoints(scalar, usesTable, G, Ps), OwnScalars(scalar, usesTable, scalars);
    AddZero(c, LinComb(c, ks, Qs, |Qs|));
    if scalar.Some? && !usesTable {
      LinCombSame(c, ks, scalars, Qs, Ps, |Ps|);
    }
  }

  // ---------- ec_wNAF_precompute_mult ----------

  /** The table entries: for every block, the odd multiples of 2^(8*b) times the generator. */
  ghost function TableValues(c: Curve, G: Affine, w: nat, nb: nat): (t: seq<Affine>)
    requires ValidCurve(c) && OnCurve(c, G) && w >= 1
    ensures |t| == nb * Pow2(w - 1)
  {
    if nb == 0 then []
    else
      assert nb * Pow2(w - 1) == (nb - 1) * Pow2(w - 1) + Pow2(w - 1);
      TableValues(c, G, w, nb - 1) + TableOf(c, Mul(c, Pow2(8 * (nb - 1)), G), w)
  }

  lemma {:induction false} TableValuesAt(c: Curve, G: Affine, w: nat, nb: nat, b: nat, j: nat)
    requires ValidCurve(c) && OnCurve(c, G) && w >= 1 && b < nb && j < Pow2(w - 1)
    ensures b * Pow2(w - 1) + j < nb * Pow2(w - 1)
    ensures TableValues(c, G, w, nb)[b * Pow2(w - 1) + j] == Mul(c, 2 * j + 1, Mul(c, Pow2(8 * b), G))
    decreases nb
  {
    hide OnCurve, Mul, Pow2;
    SliceFitsBelow(b, nb, w);
    if b < nb - 1 {
      TableValuesAt(c, G, w, nb - 1, b, j);
    }
  }

  /** The odd multiples of one base point. */
  method FillBlock(c: Curve, block: seq<EcPoint>, tmp: EcPoint, base: EcPoint, w: nat, ghost B: Affine)
    requires IsGroup(c) && OnCurve(c, B) && w >= 1 && |block| == Pow2(w - 1) && Distinct(block)
    requires tmp !in block && base !in block && base != tmp
    requires base.Valid(c) && base.Value(c) == B && tmp.Valid(c)
    requires AllValid(c, block)
    modifies block, tmp
    ensures Holds(c, block, TableOf(c, B, w))
    ensures tmp.Valid(c) && tmp.Value(c) == AffAdd(c, B, B)
  {
    hide AffAdd, OnCurve, ToAffine, Associative, Mul, Pow2, ValidField, ValidJac, Holds, TableOf,
         EcPoint.J, EcPoint.Valid, EcPoint.Value;
    MulZero(c, B);
    Dbl(c, tmp, base);
    assert |block| > 0;
    block[0].Copy(base);
    SameContents(c, block[0], base);
    for j := 1 to |block|
      invariant tmp.Valid(c) && tmp.Value(c) == AffAdd(c, B, B)
      invariant forall k :: 0 <= k < |block| ==> block[k].Valid(c)
      invariant forall k :: 0 <= k < j ==> block[k].Value(c) == Mul(c, 2 * k + 1, B)
    {
      NextOdd(c, j - 1, B);
      Add(c, block[j], tmp, block[j - 1]);
    }
    TableFilled(c, block, B, w);
  }

  /** The next base: 2^blocksize times the current one, by doublings; tmp holds its double. */
  method NextBase(c: Curve, base: EcPoint, tmp: EcPoint, blocksize: nat, ghost B: Affine)
    requires IsGroup(c) && OnCurve(c, B) && base != tmp && base.Valid(c) && tmp.Valid(c) && blocksize > 2
    requires tmp.Value(c) == AffAdd(c, B, B)
    modifies base
    ensures base.Valid(c) && base.Value(c) == Mul(c, Pow2(blocksize), B)
  {
    hide AffAdd, OnCurve, ToAffine, Associative, Mul;
    MulZero(c, B);
    MulDouble(c, 1, B);
    MulDouble(c, 2, B);
    Dbl(c, base, tmp);
    assert Pow2(2) == 4;
    for k := 2 to blocksize
      invariant base.Valid(c) && base.Value(c) == Mul(c, Pow2(k), B)
    {
      MulDouble(c, Pow2(k), B);
      Dbl(c, base, base);
    }
  }

  /** All blocks, one after the other. */
  method FillBlocks(c: Curve, objs: seq<EcPoint>, generator: EcPoint, w: nat, numblocks: nat, ghost G: Affine)
    requires IsGroup(c) && OnCurve(c, G) && w >= 1 && |objs| == numblocks * Pow2(w - 1) && Distinct(objs)
    requires generator.Valid(c) && generator.Value(c) == G
    requires AllValid(c, objs)
    requires forall k :: 0 <= k < |objs| ==> objs[k] != generator
    modifies objs
    ensures Holds(c, objs, TableValues(c, G, w, numblocks))
  {
    hide AffAdd, OnCurve, ToAffine, Associative, Mul, Pow2, Holds, TableValues, Distinct, ValidField,
         EcPoint.J, EcPoint.Valid, EcPoint.Value;
    var tmp := new EcPoint();
    var base := new EcPoint();
    base.Copy(generator);
    SameContents(c, base, generator);
    FreshIsValid(c, tmp);
    var off := 0;
    assert objs[..0] == [];
    NoValues(c, G, w);
    for i := 0 to numblocks
      invariant off == i * Pow2(w - 1) <= |objs|
      invariant tmp.Valid(c) && base.Valid(c)
      invariant i < numblocks ==> base.Value(c) == Mul(c, Pow2(8 * i), G)
      invariant AllValid(c, objs)
      invariant Holds(c, objs[..off], TableValues(c, G, w, i))
    {
      SliceFitsBelow(i, numblocks, w);
      FillBlockAt(c, objs, off, tmp, base, w, i, G);
      NextMultiple(i, Pow2(w - 1), 8);
      off := off + Pow2(w - 1);
      if i < numblocks - 1 {
        NextBase(c, base, tmp, 8, Mul(c, Pow2(8 * i), G));
        MulMul(c, Pow2(8), Pow2(8 * i), G);
        Pow2Add(8, 8 * i);
      }
    }
    assert objs[..off] == objs;
  }

  lemma NoValues(c: Curve, G: Affine, w: nat)
    requires ValidCurve(c) && OnCurve(c, G) && w >= 1
    ensures Holds(c, [], TableValues(c, G, w, 0)) && Mul(c, Pow2(8 * 0), G) == G
  {
    MulZero(c, G);
  }

  method FillBlockAt(c: Curve, objs: seq<EcPoint>, off: nat, tmp: EcPoint, base: EcPoint, w: nat, i: nat, ghost G: Affine)
    requires IsGroup(c) && OnCurve(c, G) && w >= 1 && off == i * Pow2(w - 1) && off + Pow2(w - 1) <= |objs| && Distinct(objs)
    requires tmp !in objs && base !in objs && base != tmp && base.Valid(c) && tmp.Valid(c)
    requires base.Value(c) == Mul(c, Pow2(8 * i), G)
    requires AllValid(c, objs)
    requires Holds(c, objs[..off], TableValues(c, G, w, i))
    modifies objs, tmp
    ensures AllValid(c, objs)
    ensures tmp.Valid(c) && tmp.Value(c) == AffAdd(c, base.Value(c), base.Value(c))
    ensures Holds(c, objs[..off + Pow2(w - 1)], TableValues(c, G, w, i + 1))
  {
    hide AffAdd, OnCurve, ToAffine, Associative, Mul, Pow2, ValidField, Holds, TableOf, Distinct;
    var size := Pow2(w - 1);
    var block := objs[off..off + size];
    ghost var before, rest := objs[..off], objs[off + size..];
    CutDistinct(objs, off, size);
    assert AllValid(c, rest) && AllValid(c, block);
    ghost var B := Mul(c, Pow2(8 * i), G);
    FillBlock(c, block, tmp, base, w, B);
    assert AllValid(c, rest);
    ExtendHeld(c, objs, off, size, TableValues(c, G, w, i), TableOf(c, B, w));
    RestValid(c, objs, off + size, TableValues(c, G, w, i + 1));
  }

  /** Allocation, contents and conversion of the table. */
  method BuildTable(c: Curve, generator: EcPoint, w: nat, numblocks: nat, num: nat, ghost G: Affine)
    returns (objs: seq<EcPoint>)
    requires IsGroup(c) && OnCurve(c, G) && w >= 1 && num == numblocks * Pow2(w - 1)
    requires generator.Valid(c) && generator.Value(c) == G
    ensures |objs| == num && forall k :: 0 <= k < |objs| ==> fresh(objs[k])
    ensures AllValid(c, objs) && Converted(TableValues(c, G, w, numblocks), Values(c, objs))
  {
    hide AffAdd, OnCurve, ToAffine, Associative, Mul, Pow2, ValidField, Converted, TableValues, Holds, Distinct;
    objs := NewPoints(c, num);
    FillBlocks(c, objs, generator, w, numblocks, G);
    ConvertVal(c, objs, TableValues(c, G, w, numblocks));
  }

  /** The parameters chosen for a group order of the given bit length. */
  function TableWindow(bits: nat): (w: nat)
    ensures 4 <= w <= 6 && w >= WindowBits(bits) && (w == 4 || w == WindowBits(bits))
  {
    if WindowBits(bits) > 4 then WindowBits(bits) else 4
  }

  /** As many blocks of eight bits as the order takes, and no more. */
  function TableBlocks(bits: nat): (nb: nat)
    ensures 8 * (nb - 1) < bits <= 8 * nb || bits == nb == 0
  {
    (bits + 8 - 1) / 8
  }

  /** The conversion to affine form keeps the table that the generator gets. */
  ghost predicate CleanPrecomputation(group: EcGroup)
    requires GroupShaped(group)
    reads group, group.generator, group.precomp
    reads if group.precomp == null then [] else group.precomp.points
  {
    ConvertsCleanly(PrecomputedValues(group))
  }

  /**
   ec_wNAF_precompute_mult: the old table is always dropped, and there is a new one if generator
   and order are present.  Its entries are what the conversion to affine form leaves of the odd
   multiples; it is well formed and belongs to the generator exactly if they all are kept.
   */
  method PrecomputeMult(group: EcGroup) returns (ok: bool)
    requires GroupShaped(group)
    modifies group
    ensures group.generator == old(group.generator) && group.order == old(group.order)
    ensures ok <==> group.generator != null && group.order != 0
    ensures !ok ==> group.precomp == null
    ensures ok ==> group.precomp != null && fresh(group.precomp) && GroupShaped(group)
    ensures ok ==> Converted(old(PrecomputedValues(group)), TableEntries(group))
    ensures ok ==> (GroupOk(group) && UsesTable(group) <==> old(CleanPrecomputation(group)))
    ensures ok ==> forall k :: 0 <= k < |group.precomp.points| ==> fresh(group.precomp.points[k])
  {
    hide OnCurve, ToAffine, Associative, ValidField, ConvertsCleanly, Converted, TableValues, NumBits,
         EcPreComp.WellFormed, EcPreComp.Shaped, EcPreComp.Base, TableBlocks, TableWindow, Values;
    ghost var G := GeneratorValue(group);
    group.precomp := null;
    if group.generator == null {
      return false;
    }
    if group.order == 0 {
      return false;
    }
    group.precomp := NewTable(group.c, group.generator, group.order, G);
    ok := true;
  }

  /** The table for a generator and an order: parameters, contents and conversion. */
  method NewTable(c: Curve, generator: EcPoint, order: nat, ghost G: Affine) returns (pre: EcPreComp)
    requires IsGroup(c) && OnCurve(c, G) && generator.Valid(c) && generator.Value(c) == G && order > 0
    ensures fresh(pre) && pre.Shaped(c) && pre.numblocks > 0
    ensures forall k :: 0 <= k < |pre.points| ==> fresh(pre.points[k])
    ensures var vs := TableValues(c, G, TableWindow(NumBits(order)), TableBlocks(NumBits(order)));
      Converted(vs, Values(c, pre.points)) && (pre.WellFormed(c) && pre.Base(c) == G <==> ConvertsCleanly(vs))
  {
    hide AffAdd, OnCurve, ToAffine, Associative, Mul, Pow2, ValidField, ConvertsCleanly, Converted, TableValues,
         EcPreComp.WellFormed, EcPreComp.Shaped, EcPreComp.Base, NumBits;
    pre := new EcPreComp();
    var bits := NumBits(order);
    var blocksize, w := 8, 4;
    if WindowBits(bits) > w {
      w := WindowBits(bits);
    }
    var numblocks := (bits + blocksize - 1) / blocksize;
    var num := Pow2(w - 1) * numblocks;
    assert num == numblocks * Pow2(w - 1);
    var objs := BuildTable(c, generator, w, numblocks, num, G);
    PositiveBits(order);
    pre.blocksize, pre.numblocks, pre.w, pre.points, pre.num := blocksize, numblocks, w, objs, num;
    TableIsSound(c, pre, G);
  }

  /** The odd multiples that the table is made of, for the parameters that fit the order. */
  ghost function PrecomputedValues(group: EcGroup): seq<Affine>
    requires GroupShaped(group)
    reads group, group.generator, group.precomp
    reads if group.precomp == null then [] else group.precomp.points
  {
    var bits := NumBits(group.order);
    TableValues(group.c, GeneratorValue(group), TableWindow(bits), TableBlocks(bits))
  }

  // A table of converted multiples is of the right shape, and right exactly if they were all kept.
  lemma TableIsSound(c: Curve, pre: EcPreComp, G: Affine)
    requires IsGroup(c) && OnCurve(c, G) && pre.blocksize == 8 && 1 <= pre.w <= 7 && pre.numblocks > 0
    requires pre.num == pre.numblocks * Pow2(pre.w - 1) == |pre.points| && AllValid(c, pre.points)
    requires Converted(TableValues(c, G, pre.w, pre.numblocks), Values(c, pre.points))
    ensures pre.Shaped(c)
    ensures pre.WellFormed(c) && pre.Base(c) == G <==> ConvertsCleanly(TableValues(c, G, pre.w, pre.numblocks))
  {
    hide EcPreComp.WellFormed, EcPreComp.Base, Holds, TableValues, OnCurve, Associative, Pow2, AffAdd, Converted,
         ConvertsCleanly, Values;
    TableIsWellFormed(c, pre, G);
    HeldIff(c, pre.points, TableValues(c, G, pre.w, pre.numblocks));
  }

  lemma HeldIff(c: Curve, objs: seq<EcPoint>, vs: seq<Affine>)
    requires c.f.p > 0 && AllValid(c, objs) && Converted(vs, Values(c, objs))
    ensures Holds(c, objs, vs) <==> ConvertsCleanly(vs)
  {
    hide ToAffine, ValidJac, EntryFate;
    ConvertedIff(vs, Values(c, objs));
    assert Holds(c, objs, vs) ==> Values(c, objs) == vs;
  }

  lemma PositiveBits(order: nat)
    requires order > 0
    ensures NumBits(order) > 0 && TableBlocks(NumBits(order)) > 0
  {
  }

  /** A table is well formed for G exactly if it holds the odd multiples of 2^(8*b) times G. */
  lemma TableIsWellFormed(c: Curve, pre: EcPreComp, G: Affine)
    requires IsGroup(c) && OnCurve(c, G) && pre.blocksize == 8 && 1 <= pre.w <= 7 && pre.numblocks > 0
    requires pre.num == pre.numblocks * Pow2(pre.w - 1) == |pre.points|
    ensures Holds(c, pre.points, TableValues(c, G, pre.w, pre.numblocks)) <==> pre.WellFormed(c) && pre.Base(c) == G
  {
    hide EcPreComp.WellFormed, EcPreComp.Base, Holds, TableValues, OnCurve, Associative, Pow2, AffAdd;
    if Holds(c, pre.points, TableValues(c, G, pre.w, pre.numblocks)) {
      HeldIsWellFormed(c, pre, G);
    }
    if pre.WellFormed(c) && pre.Base(c) == G {
      WellFormedIsHeld(c, pre, G);
    }
  }

  lemma WellFormedIsHeld(c: Curve, pre: EcPreComp, G: Affine)
    requires IsGroup(c) && OnCurve(c, G) && pre.blocksize == 8 && 1 <= pre.w <= 7 && pre.numblocks > 0
    requires pre.WellFormed(c) && pre.Base(c) == G
    ensures Holds(c, pre.points, TableValues(c, G, pre.w, pre.numblocks))
  {
    hide AffAdd, OnCurve, ToAffine, Associative, Mul, ValidField, TableValues, Pow2, OddTable, EcPreComp.Base, ValidJac;
    var m := Pow2(pre.w - 1);
    forall k | 0 <= k < |pre.points|
      ensures pre.points[k].Valid(c) && pre.points[k].Value(c) == TableValues(c, G, pre.w, pre.numblocks)[k]
    {
      EntryOfBlock(k, pre.numblocks, m);
      SliceEntry(c, pre, G, k / m, k % m, k);
    }
  }

  lemma EntryOfBlock(k: nat, nb: nat, m: nat)
    requires m > 0 && nb > 0 && k < nb * m
    ensures k / m < nb && (k / m) * m + k % m == k
  {
    assert (nb - 1) * m + m == nb * m;
    if k / m >= nb {
      FitsBelow(nb - 1, k / m, m);
    }
  }

  lemma SliceEntry(c: Curve, pre: EcPreComp, G: Affine, b: nat, j: nat, k: nat)
    requires IsGroup(c) && OnCurve(c, G) && pre.blocksize == 8 && 1 <= pre.w <= 7 && b < pre.numblocks && j < Pow2(pre.w - 1)
    requires pre.WellFormed(c) && pre.Base(c) == G
    requires k == b * Pow2(pre.w - 1) + j && k < |pre.points|
    ensures k < |TableValues(c, G, pre.w, pre.numblocks)|
    ensures pre.points[k].Value(c) == TableValues(c, G, pre.w, pre.numblocks)[k]
  {
    hide AffAdd, OnCurve, ToAffine, Associative, Mul, ValidField, TableValues, Pow2, EcPreComp.WellFormed, EcPreComp.Base;
    TableFacts(c, pre);
    WellFormedBlocks(c, pre, G);
    TableValuesAt(c, G, pre.w, pre.numblocks, b, j);
    var tv := Values(c, pre.points);
    assert OddBlock(c, tv, pre.w, pre.blocksize, b, G);
    var t := tv[b * Pow2(pre.w - 1)..];
    assert t[j] == tv[b * Pow2(pre.w - 1) + j];
  }

  lemma HeldIsWellFormed(c: Curve, pre: EcPreComp, G: Affine)
    requires IsGroup(c) && OnCurve(c, G) && pre.blocksize == 8 && 1 <= pre.w <= 7 && pre.numblocks > 0
    requires pre.num == pre.numblocks * Pow2(pre.w - 1) == |pre.points|
    requires Holds(c, pre.points, TableValues(c, G, pre.w, pre.numblocks))
    ensures pre.WellFormed(c) && pre.Base(c) == G
  {
    hide AffAdd, OnCurve, ToAffine, Associative, Mul, ValidField, TableValues, Pow2;
    var w, nb := pre.w, pre.numblocks;
    FirstValue(c, pre, G);
    forall b | 0 <= b < nb
      ensures SliceFits(b, nb, w) && pre.SliceIs(c, b)
    {
      SliceFitsBelow(b, nb, w);
      var t := Values(c, pre.points)[b * Pow2(w - 1)..];
      forall j | 0 <= j < Pow2(w - 1)
        ensures t[j] == Mul(c, 2 * j + 1, Mul(c, Pow2(8 * b), G))
      {
        TableValuesAt(c, G, w, nb, b, j);
        assert t[j] == Values(c, pre.points)[b * Pow2(w - 1) + j];
      }
    }
  }

  lemma FirstValue(c: Curve, pre: EcPreComp, G: Affine)
    requires IsGroup(c) && OnCurve(c, G) && 1 <= pre.w && pre.numblocks > 0
    requires |pre.points| == pre.numblocks * Pow2(pre.w - 1)
    requires Holds(c, pre.points, TableValues(c, G, pre.w, pre.numblocks))
    ensures pre.Base(c) == G
  {
    hide AffAdd, OnCurve, ToAffine, Associative, Mul, ValidField, TableValues;
    TableValuesAt(c, G, pre.w, pre.numblocks, 0, 0);
    assert 0 * Pow2(pre.w - 1) + 0 == 0;
    assert Pow2(8 * 0) == 1;
    MulZero(c, G);
    assert pre.points[0].Value(c) == TableValues(c, G, pre.w, pre.numblocks)[0];
  }
}
