/**
 The array `val` of ec_wNAF_mul (libabi/pssl/ec_mult.c): for every scalar without a precomputed
 table, the odd multiples P, 3P, 5P, ... of its point, all converted to affine form at once.
 */
module OddMultiples {
  import opened Field
  import opened Curve
  import opened Jacobian
  import opened EcPoint
  import opened BatchInversion
  import opened Power
  import opened Multiples
  import opened Interleave

  /** EC_window_bits_for_scalar_size */
  function WindowBits(b: nat): (w: nat)
    ensures 1 <= w <= 6
  {
    if b >= 2000 then 6
    else if b >= 800 then 5
    else if b >= 300 then 4
    else if b >= 70 then 3
    else if b >= 20 then 2
    else 1
  }

  /** Windows of w bits and more are used exactly from these lengths on. */
  lemma WindowThresholds(b: nat, w: nat)
    requires 2 <= w <= 6
    ensures WindowBits(b) >= w <==> b >= [20, 70, 300, 800, 2000][w - 2]
  {
    assert w == 2 || w == 3 || w == 4 || w == 5 || w == 6;
  }

  // ---------- the intended contents ----------

  /** P, 3P, ..., (2^w - 1)P */
  ghost function TableOf(c: Curve, P: Affine, w: nat): (t: seq<Affine>)
    requires ValidCurve(c) && OnCurve(c, P) && w >= 1
    ensures |t| == Pow2(w - 1) && forall j :: 0 <= j < |t| ==> t[j] == Mul(c, 2 * j + 1, P)
  {
    seq(Pow2(w - 1), j requires 0 <= j => Mul(c, 2 * j + 1, P))
  }

  predicate AllWindows(ws: seq<nat>) {
    forall i :: 0 <= i < |ws| ==> ws[i] >= 1
  }

  /** Where the table of scalar n starts. */
  function Offset(ws: seq<nat>, n: nat): nat
    requires n <= |ws| && AllWindows(ws)
  {
    if n == 0 then 0 else Offset(ws, n - 1) + Pow2(ws[n - 1] - 1)
  }

  lemma {:induction false} OffsetMono(ws: seq<nat>, m: nat, n: nat)
    requires m <= n <= |ws| && AllWindows(ws)
    ensures Offset(ws, m) <= Offset(ws, n)
  {
    hide Pow2;
    if m < n {
      OffsetMono(ws, m, n - 1);
    }
  }

  /** The tables of the first n points, one after the other. */
  ghost function ValPoints(c: Curve, Ps: seq<Affine>, ws: seq<nat>, n: nat): (t: seq<Affine>)
    requires ValidCurve(c) && AllOnCurve(c, Ps) && n <= |Ps| == |ws| && AllWindows(ws)
    ensures |t| == Offset(ws, n)
  {
    if n == 0 then [] else ValPoints(c, Ps, ws, n - 1) + TableOf(c, Ps[n - 1], ws[n - 1])
  }

  lemma {:induction false} ValPointsAt(c: Curve, Ps: seq<Affine>, ws: seq<nat>, n: nat, i: nat, j: nat)
    requires ValidCurve(c) && AllOnCurve(c, Ps) && n <= |Ps| == |ws| && AllWindows(ws)
    requires i < n && j < Pow2(ws[i] - 1)
    ensures Offset(ws, i) + j < Offset(ws, n)
    ensures ValPoints(c, Ps, ws, n)[Offset(ws, i) + j] == Mul(c, 2 * j + 1, Ps[i])
    decreases n
  {
    hide Pow2, OnCurve, Mul, ValPoints, Offset, TableOf;
    OffsetStep(ws, n - 1);
    ValPointsStep(c, Ps, ws, n);
    if i < n - 1 {
      ValPointsAt(c, Ps, ws, n - 1, i, j);
    }
  }

  lemma OffsetStep(ws: seq<nat>, n: nat)
    requires n < |ws| && AllWindows(ws)
    ensures Offset(ws, n + 1) == Offset(ws, n) + Pow2(ws[n] - 1)
  {
  }

  lemma ValPointsStep(c: Curve, Ps: seq<Affine>, ws: seq<nat>, n: nat)
    requires ValidCurve(c) && AllOnCurve(c, Ps) && 0 < n <= |Ps| == |ws| && AllWindows(ws)
    ensures ValPoints(c, Ps, ws, n) == ValPoints(c, Ps, ws, n - 1) + TableOf(c, Ps[n - 1], ws[n - 1])
    ensures |TableOf(c, Ps[n - 1], ws[n - 1])| == Pow2(ws[n - 1] - 1)
    ensures forall j :: 0 <= j < Pow2(ws[n - 1] - 1) ==>
      TableOf(c, Ps[n - 1], ws[n - 1])[j] == Mul(c, 2 * j + 1, Ps[n - 1])
  {
    hide Pow2, OnCurve, Mul;
  }

  // ---------- points at infinity among them ----------

  /** 0 for infinity, 1 for a finite point. */
  function Pattern(vs: seq<Affine>): (zs: seq<nat>)
    ensures |zs| == |vs| && forall k :: 0 <= k < |vs| ==> (zs[k] == 0 <==> vs[k] == Infinity)
  {
    seq(|vs|, k requires 0 <= k < |vs| => if vs[k] == Infinity then 0 else 1)
  }

  lemma {:induction false} SamePattern(zs: seq<nat>, ys: seq<nat>, n: nat, i: nat)
    requires |zs| == |ys| && 0 < i < 2 * n
    requires forall k :: 0 <= k < |zs| ==> (zs[k] == 0 <==> ys[k] == 0)
    ensures AllZero(zs, n, i) == AllZero(ys, n, i)
    decreases 2 * n - i
  {
    if i < n {
      SamePattern(zs, ys, n, 2 * i);
      SamePattern(zs, ys, n, 2 * i + 1);
    }
  }

  /** The condition under which the conversion to affine form keeps every table entry. */
  ghost predicate ConvertsCleanly(vs: seq<Affine>) {
    NoGap(Pattern(vs), Leaves(|vs|))
  }

  /** What becomes of entry k when all entries are converted at once. */
  function EntryFate(vs: seq<Affine>, k: nat): Fate
    requires k < |vs|
  {
    FateOf(Pattern(vs), Leaves(|vs|), Leaves(|vs|) + k)
  }

  /** An entry is kept, or lost to infinity, or a finite point takes the place of infinity. */
  ghost predicate AfterConversion(vs: seq<Affine>, k: nat, P: Affine)
    requires k < |vs|
  {
    match EntryFate(vs, k)
    case Kept => P == vs[k]
    case Zeroed => P == Infinity
    case Revived => vs[k] == Infinity && P.Aff?
  }

  ghost predicate Converted(vs: seq<Affine>, cv: seq<Affine>) {
    |cv| == |vs| && forall k :: 0 <= k < |vs| ==> AfterConversion(vs, k, cv[k])
  }

  /** All entries are what they were exactly if they leave no gap. */
  lemma ConvertedIff(vs: seq<Affine>, cv: seq<Affine>)
    requires Converted(vs, cv)
    ensures cv == vs <==> ConvertsCleanly(vs)
  {
    hide FateOf, AllZero;
    var zs, n := Pattern(vs), Leaves(|vs|);
    if ConvertsCleanly(vs) {
      forall k | 0 <= k < |vs|
        ensures cv[k] == vs[k]
      {
        NoGapKeeps(zs, n, n + k);
        assert AfterConversion(vs, k, cv[k]);
      }
    } else {
      var h :| 0 < h < n && GapAt(zs, n, h);
      FatePair(zs, n, h);
      var k := ZeroedLeaf(zs, n, 2 * h + 1);
      assert AfterConversion(vs, k, cv[k]);
    }
  }

  lemma FiniteConvertsCleanly(vs: seq<Affine>)
    requires Infinity !in vs
    ensures ConvertsCleanly(vs)
  {
    assert Pow2(0) == 1;
    var m := LeavesArePow2(|vs|, 0);
    SuffixHasNoGap(Pattern(vs), Leaves(|vs|), m);
  }

  // ---------- computing the tables ----------

  ghost predicate Holds(c: Curve, objs: seq<EcPoint>, vs: seq<Affine>)
    requires c.f.p > 0
    reads objs
  {
    |objs| == |vs| && forall k :: 0 <= k < |objs| ==> objs[k].Valid(c) && objs[k].Value(c) == vs[k]
  }

  /** EC_POINT_new for every entry: n distinct new points at infinity. */
  method NewPoints(c: Curve, n: nat) returns (objs: seq<EcPoint>)
    requires c.f.p > 0
    ensures |objs| == n && Distinct(objs)
    ensures forall k :: 0 <= k < n ==> fresh(objs[k]) && objs[k].Valid(c)
  {
    objs := [];
    while |objs| < n
      invariant |objs| <= n && Distinct(objs)
      invariant forall k :: 0 <= k < |objs| ==> fresh(objs[k]) && objs[k].Valid(c)
    {
      var o := new EcPoint();
      objs := objs + [o];
    }
  }

  lemma NextOdd(c: Curve, j: nat, P: Affine)
    requires IsGroup(c) && OnCurve(c, P)
    ensures AffAdd(c, Mul(c, 2 * j + 1, P), AffAdd(c, P, P)) == Mul(c, 2 * (j + 1) + 1, P)
    ensures AffAdd(c, AffAdd(c, P, P), Mul(c, 2 * j + 1, P)) == Mul(c, 2 * (j + 1) + 1, P)
  {
    hide AffAdd, OnCurve, Associative, Mul;
    MulZero(c, P);
    MulDouble(c, 1, P);
    MulAdd(c, 2 * j + 1, 2, P);
    MulAdd(c, 2, 2 * j + 1, P);
  }

  /** The odd multiples of one point, from lines 595-620. */
  method FillTable(c: Curve, table: seq<EcPoint>, tmp: EcPoint, src: EcPoint, w: nat, ghost P: Affine)
    requires IsGroup(c) && OnCurve(c, P) && w >= 1 && |table| == Pow2(w - 1) && Distinct(table)
    requires tmp !in table && src !in table && src != tmp
    requires src.Valid(c) && src.Value(c) == P && tmp.Valid(c)
    requires AllValid(c, table)
    modifies table, tmp
    ensures Holds(c, table, TableOf(c, P, w)) && tmp.Valid(c)
  {
    hide AffAdd, OnCurve, ToAffine, Associative, Mul, Pow2, ValidField, ValidJac, Holds, TableOf,
         EcPoint.J, EcPoint.Valid, EcPoint.Value;
    MulZero(c, P);
    assert |table| > 0;
    table[0].Copy(src);
    SameContents(c, table[0], src);
    if w > 1 {
      Dbl(c, tmp, table[0]);
      for j := 1 to |table|
        invariant tmp.Valid(c) && tmp.Value(c) == AffAdd(c, P, P)
        invariant forall k :: 0 <= k < |table| ==> table[k].Valid(c)
        invariant forall k :: 0 <= k < j ==> table[k].Value(c) == Mul(c, 2 * k + 1, P)
      {
        NextOdd(c, j - 1, P);
        Add(c, table[j], table[j - 1], tmp);
      }
    } else {
      Pow2Zero();
    }
    TableFilled(c, table, P, w);
  }

  lemma TableFilled(c: Curve, table: seq<EcPoint>, P: Affine, w: nat)
    requires ValidCurve(c) && OnCurve(c, P) && w >= 1 && |table| == Pow2(w - 1) && AllValid(c, table)
    requires forall k :: 0 <= k < |table| ==> table[k].Value(c) == Mul(c, 2 * k + 1, P)
    ensures Holds(c, table, TableOf(c, P, w))
  {
    hide OnCurve, ToAffine, Mul, Pow2, ValidJac;
  }

  ghost predicate Sources(c: Curve, srcs: seq<EcPoint>, Ps: seq<Affine>)
    requires c.f.p > 0
    reads srcs
  {
    |srcs| == |Ps| && forall i :: 0 <= i < |srcs| ==> srcs[i].Valid(c) && srcs[i].Value(c) == Ps[i]
  }

  /** EC_POINTs_make_affine: every entry is converted by its fate. */
  method ConvertVal(c: Curve, val: seq<EcPoint>, ghost vs: seq<Affine>)
    requires ValidCurve(c) && Distinct(val) && Holds(c, val, vs)
    modifies val
    ensures AllValid(c, val) && Converted(vs, Values(c, val))
  {
    hide ValidField, ToAffine, AffineResult, AllZero, Holds, Converted;
    ghost var js := Js(val);
    HeldBefore(c, val, vs);
    PointsMakeAffine(c, val);
    HeldAfter(c, val, js, vs);
  }

  lemma HeldBefore(c: Curve, val: seq<EcPoint>, vs: seq<Affine>)
    requires ValidCurve(c) && Holds(c, val, vs)
    ensures ValidAll(c, Js(val)) && Reduced(c.f, Zs(Js(val))) && |val| == |vs|
    ensures forall k :: 0 <= k < |val| ==> ToAffine(c, Js(val)[k]) == vs[k]
  {
    hide ToAffine;
    forall k | 0 <= k < |val|
      ensures ValidJac(c, Js(val)[k]) && ToAffine(c, Js(val)[k]) == vs[k]
    {
      assert val[k].Valid(c) && val[k].Value(c) == vs[k];
    }
  }

  lemma HeldAfter(c: Curve, val: seq<EcPoint>, js: seq<Jac>, vs: seq<Affine>)
    requires ValidCurve(c) && ValidAll(c, js) && Reduced(c.f, Zs(js)) && |js| == |val| == |vs|
    requires forall k :: 0 <= k < |js| ==> ToAffine(c, js[k]) == vs[k]
    requires forall k :: 0 <= k < |val| ==> val[k].J() == AffineResult(c, js, Leaves(|val|), k)
    ensures AllValid(c, val) && Converted(vs, Values(c, val))
  {
    hide ToAffine, AffineResult, FateOf, ValidJac;
    var zs, n := Zs(js), Leaves(|val|);
    forall k | 0 <= k < |js|
      ensures zs[k] == 0 <==> Pattern(vs)[k] == 0
    {
      InfinityIsZero(c, js[k]);
    }
    forall k | 0 <= k < |val|
      ensures val[k].Valid(c) && AfterConversion(vs, k, val[k].Value(c))
    {
      SameFate(zs, Pattern(vs), n, n + k);
      ResultByFate(c, js, n, k);
      InfinityIsZero(c, js[k]);
    }
  }

  lemma RootFate(zs: seq<nat>, n: nat)
    requires n > 0
    ensures FateOf(zs, n, 1) == Kept
  {
  }

  lemma {:induction false} SameFate(zs: seq<nat>, ys: seq<nat>, n: nat, i: nat)
    requires |zs| == |ys| && 0 < i < 2 * n
    requires forall k :: 0 <= k < |zs| ==> (zs[k] == 0 <==> ys[k] == 0)
    ensures FateOf(zs, n, i) == FateOf(ys, n, i)
    decreases i
  {
    hide AllZero, FateOf;
    if i > 1 {
      var h := i / 2;
      SameFate(zs, ys, n, h);
      SamePattern(zs, ys, n, 2 * h);
      SamePattern(zs, ys, n, 2 * h + 1);
      FatePair(zs, n, h);
      FatePair(ys, n, h);
    } else {
      RootFate(zs, n);
      RootFate(ys, n);
    }
  }

  lemma InfinityIsZero(c: Curve, j: Jac)
    requires c.f.p > 0
    ensures ToAffine(c, j) == Infinity <==> j.z == 0
  {
  }

  /** Slice i of val is the table of point i. */
  function Slices(val: seq<EcPoint>, ws: seq<nat>): (subs: seq<seq<EcPoint>>)
    requires AllWindows(ws) && |val| == Offset(ws, |ws|)
    ensures |subs| == |ws|
  {
    seq(|ws|, i requires 0 <= i < |ws| =>
      OffsetMono(ws, i, i + 1);
      OffsetMono(ws, i + 1, |ws|);
      val[Offset(ws, i)..Offset(ws, i + 1)])
  }

  lemma SliceAt(val: seq<EcPoint>, ws: seq<nat>, i: nat)
    requires AllWindows(ws) && |val| == Offset(ws, |ws|) && i < |ws|
    ensures |Slices(val, ws)[i]| == Pow2(ws[i] - 1)
    ensures Offset(ws, i) + Pow2(ws[i] - 1) <= |val|
    ensures forall j :: 0 <= j < Pow2(ws[i] - 1) ==> Slices(val, ws)[i][j] == val[Offset(ws, i) + j]
  {
    hide Pow2;
    OffsetMono(ws, i, i + 1);
    OffsetMono(ws, i + 1, |ws|);
  }

  /** The values of the tables, one by one. */
  function ValueSlices(cv: seq<Affine>, ws: seq<nat>): (ts: seq<seq<Affine>>)
    requires AllWindows(ws) && |cv| == Offset(ws, |ws|)
    ensures |ts| == |ws|
  {
    seq(|ws|, i requires 0 <= i < |ws| =>
      OffsetMono(ws, i, i + 1);
      OffsetMono(ws, i + 1, |ws|);
      cv[Offset(ws, i)..Offset(ws, i + 1)])
  }

  lemma ValueSliceAt(cv: seq<Affine>, ws: seq<nat>, i: nat)
    requires AllWindows(ws) && |cv| == Offset(ws, |ws|) && i < |ws|
    ensures |ValueSlices(cv, ws)[i]| == Pow2(ws[i] - 1)
    ensures Offset(ws, i) + Pow2(ws[i] - 1) <= |cv|
    ensures forall j :: 0 <= j < Pow2(ws[i] - 1) ==> ValueSlices(cv, ws)[i][j] == cv[Offset(ws, i) + j]
  {
    hide Pow2;
    OffsetMono(ws, i, i + 1);
    OffsetMono(ws, i + 1, |ws|);
  }

  lemma SlicesHold(c: Curve, val: seq<EcPoint>, ws: seq<nat>)
    requires ValidCurve(c) && AllWindows(ws) && |val| == Offset(ws, |ws|) && AllValid(c, val)
    ensures AllHold(c, Slices(val, ws), ValueSlices(Values(c, val), ws))
    ensures forall i :: 0 <= i < |ws| ==> AllInField(c, ValueSlices(Values(c, val), ws)[i])
  {
    hide Pow2, ToAffine, ValidJac, ValidField, Slices, ValueSlices, Offset, InField;
    var cv := Values(c, val);
    var ts := ValueSlices(cv, ws);
    ValuesInField(c, val);
    forall i | 0 <= i < |ws|
      ensures TableHolds(c, Slices(val, ws)[i], ts[i]) && AllInField(c, ts[i])
    {
      SliceAt(val, ws, i);
      ValueSliceAt(cv, ws, i);
      forall j | 0 <= j < |ts[i]|
        ensures Slices(val, ws)[i][j].Valid(c) && Slices(val, ws)[i][j].Value(c) == ts[i][j] && InField(c, ts[i][j])
      {
        assert Slices(val, ws)[i][j] == val[Offset(ws, i) + j];
      }
    }
  }

  ghost predicate Disjoint(a: seq<EcPoint>, b: seq<EcPoint>) {
    forall i :: 0 <= i < |a| ==> a[i] !in b
  }

  ghost predicate Within(a: seq<EcPoint>, b: seq<EcPoint>) {
    forall i :: 0 <= i < |a| ==> a[i] in b
  }

  lemma CutDistinct(objs: seq<EcPoint>, off: nat, size: nat)
    requires Distinct(objs) && off + size <= |objs|
    ensures Distinct(objs[off..off + size])
    ensures Disjoint(objs[..off], objs[off..off + size])
    ensures Disjoint(objs[off + size..], objs[off..off + size])
    ensures Within(objs[..off], objs) && Within(objs[off..off + size], objs) && Within(objs[off + size..], objs)
  {
  }

  lemma ExtendHeld(c: Curve, objs: seq<EcPoint>, off: nat, size: nat, vs: seq<Affine>, us: seq<Affine>)
    requires c.f.p > 0 && off + size <= |objs|
    requires Holds(c, objs[..off], vs) && Holds(c, objs[off..off + size], us)
    ensures Holds(c, objs[..off + size], vs + us)
  {
    hide ToAffine, ValidJac;
    var a, b := objs[..off], objs[off..off + size];
    assert objs[..off + size] == a + b;
  }

  lemma RestValid(c: Curve, objs: seq<EcPoint>, n: nat, vs: seq<Affine>)
    requires c.f.p > 0 && n <= |objs| && Holds(c, objs[..n], vs) && AllValid(c, objs[n..])
    ensures AllValid(c, objs)
  {
    hide ToAffine, ValidJac;
    assert objs == objs[..n] + objs[n..];
  }

  /** The part of the table loop that belongs to point i. */
  method FillOne(c: Curve, val: seq<EcPoint>, tmp: EcPoint, src: EcPoint, ws: seq<nat>, i: nat, off: nat,
                 ghost Ps: seq<Affine>)
    requires IsGroup(c) && AllOnCurve(c, Ps) && i < |Ps| == |ws| && AllWindows(ws)
    requires off == Offset(ws, i) && Offset(ws, i + 1) <= |val| && Distinct(val)
    requires tmp !in val && src !in val && src != tmp
    requires src.Valid(c) && src.Value(c) == Ps[i] && tmp.Valid(c)
    requires AllValid(c, val)
    requires Holds(c, val[..off], ValPoints(c, Ps, ws, i))
    modifies val, tmp
    ensures AllValid(c, val)
    ensures tmp.Valid(c)
    ensures Holds(c, val[..Offset(ws, i + 1)], ValPoints(c, Ps, ws, i + 1))
  {
    hide OnCurve, Mul, Pow2, ToAffine, AffAdd, Associative, Holds, ValidField, TableOf, Distinct;
    var size := Pow2(ws[i] - 1);
    var table := val[off..off + size];
    ghost var before, rest := val[..off], val[off + size..];
    CutDistinct(val, off, size);
    assert AllValid(c, rest) && AllValid(c, table);
    FillTable(c, table, tmp, src, ws[i], Ps[i]);
    assert AllValid(c, rest);
    ExtendHeld(c, val, off, size, ValPoints(c, Ps, ws, i), TableOf(c, Ps[i], ws[i]));
    RestValid(c, val, off + size, ValPoints(c, Ps, ws, i + 1));
  }

  lemma NothingHeld(c: Curve, val: seq<EcPoint>, Ps: seq<Affine>, ws: seq<nat>)
    requires ValidCurve(c) && AllOnCurve(c, Ps) && |Ps| == |ws| && AllWindows(ws)
    ensures Holds(c, val[..0], ValPoints(c, Ps, ws, 0))
  {
  }

  /** Allocation, tables and conversion: lines 566-625.  Every entry is converted by its fate. */
  method BuildVal(c: Curve, srcs: seq<EcPoint>, ws: seq<nat>, numVal: nat, ghost Ps: seq<Affine>)
    returns (val: seq<EcPoint>, subs: seq<seq<EcPoint>>)
    requires IsGroup(c) && AllOnCurve(c, Ps) && |Ps| == |ws| && AllWindows(ws)
    requires Sources(c, srcs, Ps) && numVal == Offset(ws, |ws|)
    ensures forall k :: 0 <= k < |val| ==> fresh(val[k])
    ensures |val| == numVal && subs == Slices(val, ws)
    ensures AllValid(c, val) && Converted(ValPoints(c, Ps, ws, |Ps|), Values(c, val))
  {
    hide OnCurve, Mul, Pow2, ToAffine, Associative, Converted, Holds, ValidField, ValPoints, Slices, Distinct,
         EcPoint.J, EcPoint.Valid, EcPoint.Value;
    val := NewPoints(c, numVal);
    var tmp := new EcPoint();
    FreshIsValid(c, tmp);
    var off := 0;
    assert Holds(c, val[..0], ValPoints(c, Ps, ws, 0)) by {
      NothingHeld(c, val, Ps, ws);
    }
    for i := 0 to |ws|
      invariant off == Offset(ws, i) && tmp.Valid(c)
      invariant off <= |val|
      invariant AllValid(c, val)
      invariant Holds(c, val[..off], ValPoints(c, Ps, ws, i))
      invariant Sources(c, srcs, Ps)
    {
      OffsetMono(ws, i + 1, |ws|);
      FillOne(c, val, tmp, srcs[i], ws, i, off, Ps);
      off := off + Pow2(ws[i] - 1);
    }
    if off != numVal {
      assert false;
    }
    assert val[..off] == val;
    ConvertVal(c, val, ValPoints(c, Ps, ws, |Ps|));
    subs := Slices(val, ws);
  }
}
