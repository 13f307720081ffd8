/**
 The precomputed table of ec_wNAF_precompute_mult for generators of any prime order.  It has at
 least eight multiples in a block, so for a very short order some of them are infinity; whether one
 of them breaks the conversion to affine form depends on where it stands.
 */
module ShortOrder {
  import opened Modular
  import opened Field
  import opened Curve
  import opened Power
  import opened Multiples
  import opened BatchInversion
  import opened OddMultiples
  import opened EcMult
  import opened PrimeOrder

  // ---------- where a zero does no harm ----------

  /** Points at infinity that stand at odd positions only leave no gap: each has a finite left sibling. */
  lemma OddZeroesHaveNoGap(zs: seq<nat>, n: nat, m: nat)
    requires n == Pow2(m) && |zs| <= n
    requires forall t :: 0 <= t < |zs| && zs[t] == 0 ==> t % 2 == 1
    ensures NoGap(zs, n)
  {
    forall i | 0 < i < n
      ensures !GapAt(zs, n, i)
    {
      var k := LevelOf(n, m, i);
      if k > 0 {
        NoGapBeside(zs, n, m, k - 1, i);
      }
    }
  }

  lemma NoGapBeside(zs: seq<nat>, n: nat, m: nat, k: nat, i: nat)
    requires n == Pow2(m) && |zs| <= n && k < m && 0 < i < n
    requires Pow2(m - k) <= 2 * i && 2 * i + 1 < 2 * Pow2(m - k)
    requires forall t :: 0 <= t < |zs| && zs[t] == 0 ==> t % 2 == 1
    ensures !GapAt(zs, n, i)
  {
    hide AllZero;
    var h := Pow2(k);
    Covers(zs, n, m, k, 2 * i);
    Covers(zs, n, m, k, 2 * i + 1);
    var t := FirstLeaf(n, m, k, i);
    if AllZero(zs, n, 2 * i) {
      EmptyFrom(zs, n, t, (2 * i + 1) * h);
    }
  }

  lemma EmptyFrom(zs: seq<nat>, n: nat, t: nat, hi: nat)
    requires ZeroFrom(zs, n, n + t, hi) && n + t < hi && t % 2 == 0
    requires forall t :: 0 <= t < |zs| && zs[t] == 0 ==> t % 2 == 1
    ensures t >= |zs|
  {
    ZeroAt(zs, n, n + t, hi, t);
  }

  lemma ZeroAt(zs: seq<nat>, n: nat, lo: nat, hi: nat, t: nat)
    requires ZeroFrom(zs, n, lo, hi) && lo <= n + t < hi
    ensures t < |zs| ==> zs[t] == 0
  {
  }

  // The first leaf below the left child stands at an even position.
  lemma FirstLeaf(n: nat, m: nat, k: nat, i: nat) returns (t: nat)
    requires n == Pow2(m) && k < m && Pow2(m - k) <= 2 * i
    ensures n + t == (2 * i) * Pow2(k) < (2 * i + 1) * Pow2(k) && t % 2 == 0
  {
    Pow2Add(m - k, k);
    Products(i, Pow2(m - k), Pow2(k));
    t := (2 * i) * Pow2(k) - n;
    EvenDifference(i * Pow2(k), Pow2(m - 1), t);
  }

  lemma Products(i: nat, a: nat, h: nat)
    requires a <= 2 * i && h > 0
    ensures a * h <= (2 * i) * h < (2 * i + 1) * h && (2 * i) * h == 2 * (i * h)
  {
    assert (2 * i) * h - a * h == (2 * i - a) * h >= 0;
    assert (2 * i + 1) * h == (2 * i) * h + h;
  }

  lemma EvenDifference(a: int, b: int, t: int)
    requires t == 2 * a - 2 * b
    ensures t % 2 == 0
  {
  }

  // A zero at an even leaf with a finite right sibling is a gap.
  lemma LeafGap(zs: seq<nat>, n: nat, t: nat)
    requires n > 1 && n % 2 == 0 && t % 2 == 0 && t + 1 < |zs| <= n && zs[t] == 0 && zs[t + 1] != 0
    ensures !NoGap(zs, n)
  {
    var i := (n + t) / 2;
    assert 2 * i == n + t;
    assert AllZero(zs, n, 2 * i) && !AllZero(zs, n, 2 * i + 1);
    assert GapAt(zs, n, i);
  }

  // ---------- one block of eight multiples ----------

  lemma Eight()
    ensures Pow2(0) == 1 && Pow2(3) == 8 && Pow2(4) == 16 && Leaves(8) == 8
  {
    assert Pow2(1) == 2 && Pow2(2) == 4;
    assert LeavesFrom(8, 4) == 8 && LeavesFrom(8, 2) == 8;
  }

  lemma ShortParameters(n: nat)
    requires 1 < n < 16
    ensures TableWindow(NumBits(n)) == 4 && TableBlocks(NumBits(n)) == 1
  {
    Eight();
    NumBitsBounds(n);
    if NumBits(n) > 4 {
      Pow2Mono(4, NumBits(n) - 1);
    }
  }

  lemma ZeroRemainder(n: nat, k: nat)
    requires n > 0
    ensures Cong(n, k, 0) <==> k % n == 0
  {
    CongZero(n, k);
  }

  lemma ShortEntry(c: Curve, G: Affine, n: nat, j: nat)
    requires IsGroup(c) && HasOrder(c, G, n) && j < 8
    ensures |TableValues(c, G, 4, 1)| == 8
    ensures TableValues(c, G, 4, 1)[j] == Infinity <==> (2 * j + 1) % n == 0
  {
    hide OnCurve, AffAdd, Associative, Mul, Cong, TableValues, Pow2;
    Eight();
    OrderIsPrime(c, G, n);
    TableValuesAt(c, G, 4, 1, 0, j);
    MulZero(c, G);
    MulInfinity(c, G, n, 2 * j + 1);
    ZeroRemainder(n, 2 * j + 1);
  }

  lemma SmallPrimes(n: nat)
    requires Prime(n) && n < 16
    ensures n == 2 || n == 3 || n == 5 || n == 7 || n == 11 || n == 13
  {
    hide Prime;
    OddIfPrime(n, 2);
    OddIfPrime(n, 3);
    assert Prime(n) ==> n >= 2 by {
      AtLeastTwo(n);
    }
  }

  lemma AtLeastTwo(n: nat)
    ensures Prime(n) ==> n >= 2
  {
  }

  lemma OddIfPrime(n: nat, d: nat)
    requires Prime(n) && d > 1
    ensures d < n ==> !Divides(d, n)
  {
  }

  /** For a generator of prime order the precomputed table is right unless that order is 3, 5 or 13. */
  lemma PrecomputedCleanIff(c: Curve, G: Affine, n: nat)
    requires IsGroup(c) && HasOrder(c, G, n)
    ensures ConvertsCleanly(TableValues(c, G, TableWindow(NumBits(n)), TableBlocks(NumBits(n))))
      <==> n != 3 && n != 5 && n != 13
  {
    hide OnCurve, Associative, HasOrder, ConvertsCleanly, NumBits;
    OrderIsPrime(c, G, n);
    if n >= 16 {
      PrecomputedIsClean(c, G, n);
    } else {
      ShortParameters(n);
      ShortCleanIff(c, G, n);
    }
  }

  lemma ShortCleanIff(c: Curve, G: Affine, n: nat)
    requires IsGroup(c) && HasOrder(c, G, n) && n < 16
    ensures ConvertsCleanly(TableValues(c, G, 4, 1)) <==> n != 3 && n != 5 && n != 13
  {
    hide OnCurve, Associative, Mul, AllZero, NoGap, TableValues, Pow2;
    Eight();
    SmallPrimes(n);
    var zs := Pattern(TableValues(c, G, 4, 1));
    forall j | 0 <= j < 8
      ensures |zs| == 8 && (zs[j] == 0 <==> (2 * j + 1) % n == 0)
    {
      ShortEntry(c, G, n, j);
    }
    assert zs[0] == 0 <==> 1 % n == 0;
    if n == 3 {
      LeafGap(zs, 8, 4);
    } else if n == 5 {
      LeafGap(zs, 8, 2);
    } else if n == 13 {
      LeafGap(zs, 8, 6);
    } else {
      OddZeroesHaveNoGap(zs, 8, 3);
    }
  }

  /** The same for a group whose stored order is the order of its generator. */
  lemma PrecomputationCleanIff(group: EcGroup)
    requires GroupOk(group) && HasOrder(group.c, GeneratorValue(group), group.order)
    ensures CleanPrecomputation(group) <==> group.order != 3 && group.order != 5 && group.order != 13
  {
    hide HasOrder, ConvertsCleanly, TableValues, NumBits, OnCurve;
    PrecomputedCleanIff(group.c, GeneratorValue(group), group.order);
  }
}
