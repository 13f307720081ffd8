/**
 wNAF splitting (libabi/pssl/ec_mult.c): a long wNAF of the generator is cut into blocks, and
 block b is paired with the table of odd multiples of 2^(blocksize*b) times the generator.
 */
module WnafSplit {
  import opened Curve
  import opened EcPoint
  import opened Power
  import opened Wnaf
  import opened Multiples
  import opened Interleave

  /** EC_PRE_COMP: precomputed multiples of the generator. */
  class EcPreComp {
    var blocksize: nat
    var numblocks: nat
    var w: nat
    var points: seq<EcPoint>
    var num: nat

    /** ec_pre_comp_new */
    constructor ()
      ensures blocksize == 8 && numblocks == 0 && w == 4 && points == [] && num == 0
    {
      blocksize, numblocks, w, points, num := 8, 0, 4, [], 0;
    }

    /** The numbers of blocks and of points fit together, whatever the points are. */
    ghost predicate Shaped(c: Curve)
      requires c.f.p > 0
      reads this, points
    {
      numblocks > 0 ==>
        && blocksize > 0 && 1 <= w <= 7
        && num == numblocks * Pow2(w - 1) && |points| == num
        && AllValid(c, points)
    }

    /**
     Slice b of `points` holds the odd multiples of 2^(blocksize*b) times the first point, which
     is the generator the table was built for.
     */
    ghost predicate WellFormed(c: Curve)
      requires ValidCurve(c)
      reads this, points
    {
      Shaped(c) && (numblocks > 0 ==>
        && OnCurve(c, Base(c))
        && forall b :: 0 <= b < numblocks ==> SliceFits(b, numblocks, w) && SliceIs(c, b))
    }

    function Base(c: Curve): Affine
      requires c.f.p > 0
      reads this, points
    {
      if |points| > 0 then points[0].Value(c) else Infinity
    }

    ghost predicate SliceIs(c: Curve, b: nat)
      requires ValidCurve(c) && w >= 1 && b * Pow2(w - 1) <= |points| && OnCurve(c, Base(c))
      reads this, points
    {
      OddTable(c, Values(c, points)[b * Pow2(w - 1)..], Mul(c, Pow2(blocksize * b), Base(c)), w)
    }
  }

  ghost predicate SliceFits(b: nat, numblocks: nat, w: nat) {
    w >= 1 && b * Pow2(w - 1) + Pow2(w - 1) <= numblocks * Pow2(w - 1)
  }

  lemma SliceFitsBelow(b: nat, numblocks: nat, w: nat)
    requires b < numblocks && w >= 1
    ensures SliceFits(b, numblocks, w)
  {
    hide Pow2;
    FitsBelow(b, numblocks, Pow2(w - 1));
  }

  lemma FitsBelow(b: nat, n: nat, m: nat)
    requires b < n
    ensures b * m + m <= n * m
  {
    var d := n - b - 1;
    assert d * m >= 0;
    assert n * m == (d + b + 1) * m == d * m + b * m + m;
  }

  // ---------- cutting a digit string ----------

  /** Block b of nb blocks; the last one takes whatever is left. */
  function Block(ds: seq<int>, bs: nat, nb: nat, b: nat): seq<int>
    requires b < nb && (nb - 1) * bs <= |ds| && b * bs <= |ds| && (b + 1 < nb ==> (b + 1) * bs <= |ds|)
  {
    if b + 1 < nb then ds[b * bs..b * bs + bs] else ds[b * bs..]
  }

  lemma BlockBounds(len: nat, bs: nat, nb: nat, b: nat)
    requires b < nb && (nb - 1) * bs <= len
    ensures b * bs <= (nb - 1) * bs && (b + 1 < nb ==> b * bs + bs <= (nb - 1) * bs && (b + 1) * bs == b * bs + bs)
  {
    assert (b + 1) * bs == b * bs + bs;
    if b + 1 < nb {
      FitsBelow(b, nb - 1, bs);
    }
  }

  lemma {:induction false} ValueConcat(a: seq<int>, b: seq<int>)
    ensures Value(a + b) == Value(a) + Pow2(|a|) * Value(b)
    decreases |b|
  {
    hide ValueFrom, Pow2;
    if b == [] {
      assert a + b == a;
      EmptyValue();
    } else {
      var b', d := b[..|b| - 1], b[|b| - 1];
      assert b == b' + [d] && a + b == (a + b') + [d];
      ValueConcat(a, b');
      ValueAppend(a + b', d, 0);
      ValueAppend(b', d, 0);
      Pow2Add(|a|, |b'|);
      ConcatStep(Pow2(|a|), Pow2(|b'|), d, Value(b'));
    }
  }

  lemma ConcatStep(m: int, n: int, d: int, v: int)
    ensures m * v + d * (m * n) == m * (v + d * n)
  {
    assert d * (m * n) == m * (d * n);
  }

  // ---------- the blocks sum to the whole ----------

  ghost predicate IsSplit(ds: seq<int>, bs: nat, nb: nat, blocks: seq<seq<int>>) {
    && |blocks| == nb && nb > 0 && (nb - 1) * bs <= |ds|
    && forall b :: 0 <= b < nb ==> BlockIs(ds, bs, nb, b, blocks[b])
  }

  ghost predicate BlockIs(ds: seq<int>, bs: nat, nb: nat, b: nat, block: seq<int>)
    requires b < nb && (nb - 1) * bs <= |ds|
  {
    BlockBounds(|ds|, bs, nb, b);
    block == Block(ds, bs, nb, b)
  }

  /** Point b of the split: 2^(bs*b) times the generator. */
  ghost predicate SplitPoints(c: Curve, bs: nat, G: Affine, Bs: seq<Affine>)
    requires ValidCurve(c) && OnCurve(c, G)
  {
    forall b :: 0 <= b < |Bs| ==> Bs[b] == Mul(c, Pow2(bs * b), G)
  }

  lemma SplitPrefix(ds: seq<int>, bs: nat, nb: nat, blocks: seq<seq<int>>, b: nat)
    requires IsSplit(ds, bs, nb, blocks) && b < nb
    ensures b * bs <= |ds|
    ensures b + 1 < nb ==> (b + 1) * bs <= |ds| && Value(ds[..(b + 1) * bs]) == Value(ds[..b * bs]) + Pow2(b * bs) * Value(blocks[b])
    ensures b + 1 == nb ==> Value(ds) == Value(ds[..b * bs]) + Pow2(b * bs) * Value(blocks[b])
  {
    hide Value, Pow2;
    BlockBounds(|ds|, bs, nb, b);
    assert BlockIs(ds, bs, nb, b, blocks[b]);
    ValueConcat(ds[..b * bs], blocks[b]);
    if b + 1 < nb {
      assert ds[..(b + 1) * bs] == ds[..b * bs] + blocks[b];
    } else {
      assert ds == ds[..b * bs] + blocks[b];
    }
  }

  /** S is the multiple of G by the first k digits. */
  ghost predicate SumsTo(c: Curve, ds: seq<int>, k: nat, G: Affine, S: Affine)
    requires ValidCurve(c) && OnCurve(c, G)
  {
    k <= |ds| && S == Mul(c, Value(ds[..k]), G)
  }

  /** Splitting preserves meaning: the blocks with their points sum to scalar*G. */
  lemma {:induction false} SplitSum(c: Curve, ds: seq<int>, bs: nat, nb: nat, blocks: seq<seq<int>>, G: Affine,
                                    vs: seq<int>, Bs: seq<Affine>, n: nat)
    requires IsGroup(c) && OnCurve(c, G) && IsSplit(ds, bs, nb, blocks)
    requires |vs| == |Bs| == nb && AllOnCurve(c, Bs) && SplitPoints(c, bs, G, Bs)
    requires forall b :: 0 <= b < nb ==> vs[b] == Value(blocks[b])
    requires n <= nb
    ensures n < nb ==> SumsTo(c, ds, n * bs, G, LinComb(c, vs, Bs, n))
    ensures n == nb ==> LinComb(c, vs, Bs, n) == Mul(c, Value(ds), G)
  {
    hide Value, Pow2, OnCurve, AffAdd, Mul, Associative, SumsTo, IsSplit;
    if n == 0 {
      SplitNotEmpty(ds, bs, nb, blocks);
      NothingSummed(c, ds, bs, G);
    } else {
      var b := n - 1;
      SplitSum(c, ds, bs, nb, blocks, G, vs, Bs, b);
      assert Bs[b] == Mul(c, Pow2(bs * b), G);
      NextBlock(c, ds, bs, nb, blocks, G, LinComb(c, vs, Bs, b), vs[b], Bs[b], b);
    }
  }

  lemma SplitNotEmpty(ds: seq<int>, bs: nat, nb: nat, blocks: seq<seq<int>>)
    requires IsSplit(ds, bs, nb, blocks)
    ensures nb > 0
  {
  }

  lemma NothingSummed(c: Curve, ds: seq<int>, bs: nat, G: Affine)
    requires ValidCurve(c) && OnCurve(c, G)
    ensures SumsTo(c, ds, 0 * bs, G, Infinity)
  {
    hide Value, OnCurve, Mul;
    assert 0 * bs == 0 && ds[..0] == [];
    MulZero(c, G);
    EmptyValue();
  }

  lemma NextBlock(c: Curve, ds: seq<int>, bs: nat, nb: nat, blocks: seq<seq<int>>, G: Affine, S: Affine, v: int, B: Affine, b: nat)
    requires IsGroup(c) && OnCurve(c, G) && IsSplit(ds, bs, nb, blocks) && b < nb
    requires SumsTo(c, ds, b * bs, G, S) && v == Value(blocks[b]) && B == Mul(c, Pow2(bs * b), G)
    ensures b + 1 < nb ==> SumsTo(c, ds, (b + 1) * bs, G, AffAdd(c, S, Mul(c, v, B)))
    ensures b + 1 == nb ==> AffAdd(c, S, Mul(c, v, B)) == Mul(c, Value(ds), G)
  {
    hide Value, Pow2, OnCurve, AffAdd, Mul, Associative;
    SplitPrefix(ds, bs, nb, blocks, b);
    assert bs * b == b * bs;
    AddBlock(c, G, Value(ds[..b * bs]), v, Pow2(b * bs));
    BlockBounds(|ds|, bs, nb, b);
  }

  // One block more.
  lemma AddBlock(c: Curve, G: Affine, x: int, v: int, m: nat)
    requires IsGroup(c) && OnCurve(c, G)
    ensures AffAdd(c, Mul(c, x, G), Mul(c, v, Mul(c, m, G))) == Mul(c, x + m * v, G)
  {
    hide OnCurve, AffAdd, Mul, Associative;
    MulMul(c, v, m, G);
    assert v * m == m * v;
    MulAdd(c, x, m * v, G);
  }

  lemma EmptyValue()
    ensures Value([]) == 0
  {
  }

  /**
   Lines 515-560: cut the wNAF into `numblocks` parts.  The internal-error exits of the source
   (a wNAF shorter than a block, or a missing table slice) cannot be reached.
   */
  method SplitWnaf(pre: EcPreComp, tmpWnaf: seq<int>, numblocks: nat, ppb: nat)
    returns (blocks: seq<seq<int>>, subs: seq<seq<EcPoint>>)
    requires pre.w >= 1 && ppb == Pow2(pre.w - 1)
    requires 0 < numblocks <= pre.numblocks && |pre.points| == pre.numblocks * ppb
    requires (numblocks - 1) * pre.blocksize <= |tmpWnaf|
    ensures IsSplit(tmpWnaf, pre.blocksize, numblocks, blocks)
    ensures |blocks| == |subs| == numblocks
    ensures forall b :: 0 <= b < numblocks ==> b * ppb <= |pre.points| && subs[b] == pre.points[b * ppb..]
  {
    hide Pow2;
    var bs := pre.blocksize;
    blocks, subs := [], [];
    var pp, tmpPoints, tmpLen := 0, 0, |tmpWnaf|;
    for i := 0 to numblocks
      invariant |blocks| == |subs| == i
      invariant pp == i * bs && tmpPoints == i * ppb
      invariant i < numblocks ==> pp + tmpLen == |tmpWnaf|
      invariant forall b :: 0 <= b < i ==> BlockIs(tmpWnaf, bs, numblocks, b, blocks[b])
      invariant forall b :: 0 <= b < i ==> b * ppb <= |pre.points| && subs[b] == pre.points[b * ppb..]
    {
      BlockBounds(|tmpWnaf|, bs, numblocks, i);
      SliceFitsBelow(i, pre.numblocks, pre.w);
      var len := tmpLen;
      if i < numblocks - 1 {
        len := bs;
        if tmpLen < bs {
          assert false;
        }
        tmpLen := tmpLen - bs;
      }
      blocks := blocks + [tmpWnaf[pp..pp + len]];
      if tmpPoints >= |pre.points| {
        assert false;
      }
      subs := subs + [pre.points[tmpPoints..]];
      NextMultiple(i, bs, ppb);
      tmpPoints := tmpPoints + ppb;
      pp := pp + bs;
    }
  }

  lemma NextMultiple(i: nat, a: nat, b: nat)
    ensures (i + 1) * a == i * a + a && (i + 1) * b == i * b + b
  {
  }
}
