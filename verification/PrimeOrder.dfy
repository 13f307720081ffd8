/**
 Points of prime order: which multiples are infinity, and hence why the conversion of the
 tables of ec_wNAF_mul never meets a point at infinity for them.
 */
module PrimeOrder {
  import opened Wrappers
  import opened Modular
  import opened Curve
  import opened Power
  import opened Wnaf
  import opened Multiples
  import opened OddMultiples
  import opened EcMult

  ghost predicate HasOrder(c: Curve, P: Affine, n: nat)
    requires ValidCurve(c)
  {
    && Prime(n) && OnCurve(c, P) && P != Infinity && Mul(c, n, P) == Infinity
  }

  lemma MulOfInfinity(c: Curve, k: int)
    requires IsGroup(c)
    ensures Mul(c, k, Infinity) == Infinity
  {
    hide AffAdd, Associative, Mul;
    var Z := Infinity;
    MulMul(c, k, 0, Z);
    MulZero(c, Z);
    assert k * 0 == 0;
  }

  /** Only the residue of the scalar matters. */
  lemma MulCong(c: Curve, P: Affine, n: nat, k: int, l: int)
    requires IsGroup(c) && HasOrder(c, P, n) && Cong(n, k, l)
    ensures Mul(c, k, P) == Mul(c, l, P)
  {
    hide OnCurve, AffAdd, Associative, Mul, Cong;
    var q := CongElim(n, k, l);
    MulAdd(c, l, q * n, P);
    MulMul(c, q, n, P);
    MulOfInfinity(c, q);
    AddZero(c, Mul(c, l, P));
    assert k == l + q * n;
  }

  /** k*P is infinity exactly when the order divides k. */
  lemma MulInfinity(c: Curve, P: Affine, n: nat, k: int)
    requires IsGroup(c) && HasOrder(c, P, n)
    ensures Mul(c, k, P) == Infinity <==> Cong(n, k, 0)
  {
    hide OnCurve, AffAdd, Associative, Mul, Cong;
    MulZero(c, P);
    if Cong(n, k, 0) {
      MulCong(c, P, n, k, 0);
    } else if Mul(c, k, P) == Infinity {
      var i := InverseExists(n, k);
      MulMul(c, i, k, P);
      MulOfInfinity(c, i);
      assert i * k == k * i;
      MulCong(c, P, n, k * i, 1);
    }
  }

  lemma SmallMultiple(c: Curve, P: Affine, n: nat, m: nat)
    requires IsGroup(c) && HasOrder(c, P, n) && 0 < m < n
    ensures Mul(c, m, P) != Infinity
  {
    hide OnCurve, AffAdd, Associative, Mul;
    MulInfinity(c, P, n, m);
    if Cong(n, m, 0) {
      CongResidues(n, m, 0);
    }
  }

  /** A non-trivial multiple of a point of prime order has the same order. */
  lemma MultipleHasOrder(c: Curve, P: Affine, n: nat, d: nat)
    requires IsGroup(c) && HasOrder(c, P, n) && 0 < d < n
    ensures HasOrder(c, Mul(c, d, P), n)
  {
    hide OnCurve, AffAdd, Associative, Mul, Prime;
    SmallMultiple(c, P, n, d);
    MulMul(c, n, d, P);
    MulMul(c, d, n, P);
    MulOfInfinity(c, d);
    assert n * d == d * n;
  }

  // ---------- the tables ----------

  // A scalar no longer than the order by more than a bit has a window below the order.
  lemma WindowBelowOrder(b: nat, n: nat)
    requires n >= 2 && b <= NumBits(n) + 1
    ensures Pow2(WindowBits(b)) <= n
  {
    NumBitsBounds(n);
    assert Pow2(1) == 2;
    if b >= 20 {
      Pow2Mono(18, NumBits(n) - 1);
      Pow2Mono(WindowBits(b), 18);
    }
  }

  lemma TableIsFinite(c: Curve, P: Affine, w: nat, n: nat)
    requires IsGroup(c) && HasOrder(c, P, n) && w >= 1 && Pow2(w) <= n
    ensures Infinity !in TableOf(c, P, w)
  {
    hide OnCurve, AffAdd, Associative, Mul;
    var t := TableOf(c, P, w);
    assert Pow2(w) == 2 * Pow2(w - 1);
    forall j | 0 <= j < |t|
      ensures t[j] != Infinity
    {
      SmallMultiple(c, P, n, 2 * j + 1);
    }
  }

  lemma {:induction false} ValIsFinite(c: Curve, Ps: seq<Affine>, ws: seq<nat>, m: nat, n: nat)
    requires IsGroup(c) && AllOnCurve(c, Ps) && m <= |Ps| == |ws| && AllWindows(ws)
    requires forall i :: 0 <= i < m ==> HasOrder(c, Ps[i], n) && Pow2(ws[i]) <= n
    ensures Infinity !in ValPoints(c, Ps, ws, m)
    decreases m
  {
    hide OnCurve, AffAdd, Associative, Mul, Pow2, HasOrder, TableOf;
    if m > 0 {
      ValIsFinite(c, Ps, ws, m - 1, n);
      TableIsFinite(c, Ps[m - 1], ws[m - 1], n);
    }
  }

  /** With points and generator of prime order, ec_wNAF_mul's tables are always clean. */
  lemma PrimeOrderIsClean(c: Curve, scalar: Option<int>, usesTable: bool, G: Affine, scalars: seq<int>,
                          Ps: seq<Affine>, n: nat)
    requires IsGroup(c) && AllOnCurve(c, Ps) && |Ps| == |scalars| && HasOrder(c, G, n)
    requires scalar.Some? ==> NumBits(Abs(scalar.value)) <= NumBits(n) + 1
    requires forall i :: 0 <= i < |Ps| ==> HasOrder(c, Ps[i], n) && NumBits(Abs(scalars[i])) <= NumBits(n) + 1
    ensures CleanTables(c, scalar, usesTable, G, scalars, Ps)
  {
    hide OnCurve, AffAdd, Associative, Mul, Pow2, HasOrder, NumBits, ConvertsCleanly, WindowBits;
    OrderIsPrime(c, G, n);
    OwnOnCurve(c, scalar, usesTable, G, Ps);
    var Qs, ks := OwnPoints(scalar, usesTable, G, Ps), OwnScalars(scalar, usesTable, scalars);
    var ws := Windows(ks);
    forall i | 0 <= i < |Qs|
      ensures HasOrder(c, Qs[i], n) && Pow2(ws[i]) <= n
    {
      WindowBelowOrder(NumBits(Abs(ks[i])), n);
    }
    ValIsFinite(c, Qs, ws, |Qs|, n);
    FiniteConvertsCleanly(ValPoints(c, Qs, ws, |Qs|));
  }

  lemma OrderIsPrime(c: Curve, G: Affine, n: nat)
    requires ValidCurve(c) && HasOrder(c, G, n)
    ensures n >= 2 && OnCurve(c, G)
  {
  }

  // ---------- the precomputed table ----------

  lemma PowerNotZero(n: nat, k: nat)
    requires Prime(n) && n > 2
    ensures !Cong(n, Pow2(k), 0)
  {
    hide Cong, Prime;
    if Cong(n, Pow2(k), 0) {
      if k == 0 {
        CongResidues(n, 1, 0);
      } else {
        CongProductZero(n, 2, Pow2(k - 1));
        PowerNotZero(n, k - 1);
        CongResidues(n, 2, 0);
      }
    }
  }

  lemma BlockHasOrder(c: Curve, G: Affine, n: nat, k: nat)
    requires IsGroup(c) && HasOrder(c, G, n) && n > 2
    ensures HasOrder(c, Mul(c, Pow2(k), G), n)
  {
    hide OnCurve, AffAdd, Associative, Mul, Cong, Prime, Pow2;
    PowerNotZero(n, k);
    MulInfinity(c, G, n, Pow2(k));
    MulMul(c, n, Pow2(k), G);
    MulMul(c, Pow2(k), n, G);
    MulOfInfinity(c, Pow2(k));
    assert n * Pow2(k) == Pow2(k) * n;
  }

  lemma {:induction false} PrecomputedIsFinite(c: Curve, G: Affine, w: nat, nb: nat, n: nat)
    requires IsGroup(c) && HasOrder(c, G, n) && w >= 1 && 2 < Pow2(w) <= n
    ensures Infinity !in TableValues(c, G, w, nb)
    decreases nb
  {
    hide OnCurve, AffAdd, Associative, Mul, Pow2, HasOrder, TableOf;
    OrderIsPrime(c, G, n);
    if nb > 0 {
      PrecomputedIsFinite(c, G, w, nb - 1, n);
      BlockHasOrder(c, G, n, 8 * (nb - 1));
      TableIsFinite(c, Mul(c, Pow2(8 * (nb - 1)), G), w, n);
    }
  }

  /** For a generator of prime order 16 or more the precomputed table is always clean. */
  lemma PrecomputedIsClean(c: Curve, G: Affine, n: nat)
    requires IsGroup(c) && HasOrder(c, G, n) && n >= 16
    ensures ConvertsCleanly(TableValues(c, G, TableWindow(NumBits(n)), TableBlocks(NumBits(n))))
  {
    hide OnCurve, AffAdd, Associative, Mul, HasOrder, ConvertsCleanly, NumBits;
    OrderIsPrime(c, G, n);
    var w := TableWindow(NumBits(n));
    TableWindowBelowOrder(n);
    PrecomputedIsFinite(c, G, w, TableBlocks(NumBits(n)), n);
    FiniteConvertsCleanly(TableValues(c, G, w, TableBlocks(NumBits(n))));
  }

  lemma TableWindowBelowOrder(n: nat)
    requires n >= 16
    ensures 2 < Pow2(TableWindow(NumBits(n))) <= n
  {
    NumBitsBounds(n);
    assert Pow2(4) == 16;
    Pow2Mono(4, TableWindow(NumBits(n)));
    if WindowBits(NumBits(n)) > 4 {
      Pow2Mono(6, NumBits(n) - 1);
      Pow2Mono(TableWindow(NumBits(n)), 6);
    }
  }
}
