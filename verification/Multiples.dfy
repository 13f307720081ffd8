/** Integer multiples and linear combinations of points, over the group of the curve. */
module Multiples {
  import opened Modular
  import opened Curve

  /** The curve together with the associativity hypothesis. */
  ghost predicate IsGroup(c: Curve) {
    ValidCurve(c) && Associative(c)
  }

  // ---------- rearranging sums ----------

  lemma AddAssoc(c: Curve, P: Affine, Q: Affine, R: Affine)
    requires IsGroup(c) && OnCurve(c, P) && OnCurve(c, Q) && OnCurve(c, R)
    ensures AffAdd(c, AffAdd(c, P, Q), R) == AffAdd(c, P, AffAdd(c, Q, R))
  {
    hide AffAdd, OnCurve;
    assert Triple(P, Q, R);
  }

  // (P + Q) + (R + S) == (P + R) + (Q + S)
  lemma AddSwap(c: Curve, P: Affine, Q: Affine, R: Affine, S: Affine)
    requires IsGroup(c) && OnCurve(c, P) && OnCurve(c, Q) && OnCurve(c, R) && OnCurve(c, S)
    ensures AffAdd(c, AffAdd(c, P, Q), AffAdd(c, R, S)) == AffAdd(c, AffAdd(c, P, R), AffAdd(c, Q, S))
  {
    hide AffAdd, OnCurve, Associative;
    AddClosed(c, R, S);
    AddClosed(c, Q, S);
    AddAssoc(c, P, Q, AffAdd(c, R, S));
    AddAssoc(c, Q, R, S);
    AddComm(c, Q, R);
    AddAssoc(c, R, Q, S);
    AddAssoc(c, P, R, AffAdd(c, Q, S));
  }

  // (P + Q) + R == (P + R) + Q
  lemma AddRight(c: Curve, P: Affine, Q: Affine, R: Affine)
    requires IsGroup(c) && OnCurve(c, P) && OnCurve(c, Q) && OnCurve(c, R)
    ensures AffAdd(c, AffAdd(c, P, Q), R) == AffAdd(c, AffAdd(c, P, R), Q)
  {
    hide AffAdd, OnCurve, Associative;
    AddAssoc(c, P, Q, R);
    AddComm(c, Q, R);
    AddAssoc(c, P, R, Q);
  }

  lemma NegNeg(c: Curve, P: Affine)
    requires ValidCurve(c) && OnCurve(c, P)
    ensures OnCurve(c, AffNeg(c, P)) && AffNeg(c, AffNeg(c, P)) == P
  {
    hide Cong, CoefA, CoefB, Equation;
    NegClosed(c, P);
  }

  lemma NegAdd(c: Curve, P: Affine, Q: Affine)
    requires IsGroup(c) && OnCurve(c, P) && OnCurve(c, Q)
    ensures OnCurve(c, AffAdd(c, P, Q))
    ensures AffNeg(c, AffAdd(c, P, Q)) == AffAdd(c, AffNeg(c, P), AffNeg(c, Q))
  {
    hide Cong, Equation, Associative, CoefA, CoefB;
    NegClosed(c, P);
    NegClosed(c, Q);
    AddClosed(c, P, Q);
    NegAddClosed(c, P, Q);
  }

  lemma NegAddClosed(c: Curve, P: Affine, Q: Affine)
    requires IsGroup(c) && OnCurve(c, P) && OnCurve(c, Q) && OnCurve(c, AffNeg(c, P)) && OnCurve(c, AffNeg(c, Q))
    requires OnCurve(c, AffAdd(c, P, Q))
    ensures AffNeg(c, AffAdd(c, P, Q)) == AffAdd(c, AffNeg(c, P), AffNeg(c, Q))
  {
    hide AffAdd, AffNeg, Associative, Equation, Cong, CoefA, CoefB;
    AddClosed(c, AffNeg(c, P), AffNeg(c, Q));
    AddSwap(c, P, Q, AffNeg(c, P), AffNeg(c, Q));
    AddInverse(c, P);
    AddInverse(c, Q);
    AddZero(c, Infinity);
    AddInfinity(c, AffAdd(c, P, Q), AffAdd(c, AffNeg(c, P), AffNeg(c, Q)));
  }

  // ---------- multiples ----------

  ghost function NMul(c: Curve, n: nat, P: Affine): (R: Affine)
    requires ValidCurve(c) && OnCurve(c, P)
    ensures OnCurve(c, R)
  {
    if n == 0 then Infinity
    else
      AddClosed(c, NMul(c, n - 1, P), P);
      AffAdd(c, NMul(c, n - 1, P), P)
  }

  /** k*P for any integer k. */
  ghost function Mul(c: Curve, k: int, P: Affine): (R: Affine)
    requires ValidCurve(c) && OnCurve(c, P)
    ensures OnCurve(c, R)
  {
    if k >= 0 then NMul(c, k, P)
    else
      NegClosed(c, NMul(c, -k, P));
      AffNeg(c, NMul(c, -k, P))
  }

  lemma MulZero(c: Curve, P: Affine)
    requires ValidCurve(c) && OnCurve(c, P)
    ensures Mul(c, 0, P) == Infinity && Mul(c, 1, P) == P
  {
    hide OnCurve;
    assert NMul(c, 0, P) == Infinity;
    assert NMul(c, 1, P) == AffAdd(c, Infinity, P);
  }

  lemma MulNeg(c: Curve, k: int, P: Affine)
    requires ValidCurve(c) && OnCurve(c, P)
    ensures Mul(c, -k, P) == AffNeg(c, Mul(c, k, P))
  {
    hide OnCurve;
    if k < 0 {
      NegNeg(c, NMul(c, -k, P));
    }
  }

  lemma MulSucc(c: Curve, k: int, P: Affine)
    requires IsGroup(c) && OnCurve(c, P)
    ensures Mul(c, k + 1, P) == AffAdd(c, Mul(c, k, P), P)
  {
    hide Cong, Equation, CoefA, CoefB, AffAdd, AffNeg, Associative;
    if k < 0 {
      // -(n+1)P + P == -nP
      var n := -(k + 1);
      var M := NMul(c, n, P);
      NegAdd(c, M, P);
      NegClosed(c, M);
      NegClosed(c, P);
      AddAssoc(c, AffNeg(c, M), AffNeg(c, P), P);
      AddComm(c, AffNeg(c, P), P);
      AddInverse(c, P);
      AddZero(c, AffNeg(c, M));
      assert Mul(c, k, P) == AffNeg(c, NMul(c, n + 1, P));
      MulNeg(c, n, P);
    }
  }

  lemma {:induction false} MulAddNat(c: Curve, k: int, n: nat, P: Affine)
    requires IsGroup(c) && OnCurve(c, P)
    ensures Mul(c, k + n, P) == AffAdd(c, Mul(c, k, P), Mul(c, n, P))
    decreases n
  {
    hide OnCurve, AffAdd, AffNeg, Associative;
    MulZero(c, P);
    if n == 0 {
      AddZero(c, Mul(c, k, P));
    } else {
      MulAddNat(c, k, n - 1, P);
      MulSucc(c, k + n - 1, P);
      MulSucc(c, n - 1, P);
      AddAssoc(c, Mul(c, k, P), Mul(c, n - 1, P), P);
    }
  }

  /** (k + l)*P == k*P + l*P */
  lemma MulAdd(c: Curve, k: int, l: int, P: Affine)
    requires IsGroup(c) && OnCurve(c, P)
    ensures Mul(c, k + l, P) == AffAdd(c, Mul(c, k, P), Mul(c, l, P))
  {
    hide OnCurve, AffAdd, AffNeg, Associative, Mul;
    if l >= 0 {
      MulAddNat(c, k, l, P);
    } else {
      MulAddNat(c, -k, -l, P);
      assert -k + -l == -(k + l);
      MulNeg(c, k + l, P);
      MulNeg(c, k, P);
      MulNeg(c, l, P);
      NegAdd(c, Mul(c, -k, P), Mul(c, -l, P));
      MulNeg(c, -(k + l), P);
      MulNeg(c, -k, P);
      MulNeg(c, -l, P);
      assert -(-(k + l)) == k + l && -(-k) == k && -(-l) == l;
    }
  }

  lemma MulDouble(c: Curve, k: int, P: Affine)
    requires IsGroup(c) && OnCurve(c, P)
    ensures Mul(c, 2 * k, P) == AffAdd(c, Mul(c, k, P), Mul(c, k, P))
  {
    hide OnCurve, AffAdd, Associative, Mul;
    MulAdd(c, k, k, P);
    assert k + k == 2 * k;
  }

  lemma {:induction false} MulMulNat(c: Curve, n: nat, l: int, P: Affine)
    requires IsGroup(c) && OnCurve(c, P)
    ensures Mul(c, n, Mul(c, l, P)) == Mul(c, n * l, P)
    decreases n
  {
    hide OnCurve, AffAdd, Associative, Mul;
    MulZero(c, P);
    MulZero(c, Mul(c, l, P));
    if n > 0 {
      MulMulNat(c, n - 1, l, P);
      MulSucc(c, n - 1, Mul(c, l, P));
      MulAdd(c, (n - 1) * l, l, P);
      assert (n - 1) * l + l == n * l;
    } else {
      assert n * l == 0;
    }
  }

  /** k*(l*P) == (k*l)*P */
  lemma MulMul(c: Curve, k: int, l: int, P: Affine)
    requires IsGroup(c) && OnCurve(c, P)
    ensures Mul(c, k, Mul(c, l, P)) == Mul(c, k * l, P)
  {
    hide OnCurve, AffAdd, Associative, Mul;
    if k >= 0 {
      MulMulNat(c, k, l, P);
    } else {
      MulMulNat(c, -k, l, P);
      MulNeg(c, -k, Mul(c, l, P));
      MulNeg(c, (-k) * l, P);
      assert -((-k) * l) == k * l && -(-k) == k;
    }
  }

  // ---------- linear combinations ----------

  ghost predicate AllOnCurve(c: Curve, Ps: seq<Affine>)
    requires c.f.p > 0
  {
    forall i :: 0 <= i < |Ps| ==> OnCurve(c, Ps[i])
  }

  /** The sum of ks[i]*Ps[i] over i < n. */
  ghost function LinComb(c: Curve, ks: seq<int>, Ps: seq<Affine>, n: nat): (R: Affine)
    requires ValidCurve(c) && AllOnCurve(c, Ps) && n <= |ks| && n <= |Ps|
    ensures OnCurve(c, R)
  {
    if n == 0 then Infinity
    else
      AddClosed(c, LinComb(c, ks, Ps, n - 1), Mul(c, ks[n - 1], Ps[n - 1]));
      AffAdd(c, LinComb(c, ks, Ps, n - 1), Mul(c, ks[n - 1], Ps[n - 1]))
  }

  lemma {:induction false} LinCombSame(c: Curve, ks: seq<int>, ls: seq<int>, Ps: seq<Affine>, Qs: seq<Affine>, n: nat)
    requires ValidCurve(c) && AllOnCurve(c, Ps) && AllOnCurve(c, Qs)
    requires n <= |ks| && n <= |ls| && n <= |Ps| && n <= |Qs|
    requires forall i :: 0 <= i < n ==> ks[i] == ls[i] && Ps[i] == Qs[i]
    ensures LinComb(c, ks, Ps, n) == LinComb(c, ls, Qs, n)
  {
    hide OnCurve, AffAdd, Mul;
    if n > 0 {
      LinCombSame(c, ks, ls, Ps, Qs, n - 1);
    }
  }

  lemma {:induction false} LinCombZero(c: Curve, ks: seq<int>, Ps: seq<Affine>, n: nat)
    requires ValidCurve(c) && AllOnCurve(c, Ps) && n <= |ks| && n <= |Ps|
    requires forall i :: 0 <= i < n ==> ks[i] == 0
    ensures LinComb(c, ks, Ps, n) == Infinity
  {
    hide OnCurve, AffAdd, Mul;
    if n > 0 {
      LinCombZero(c, ks, Ps, n - 1);
      MulZero(c, Ps[n - 1]);
      AddZero(c, Infinity);
    }
  }

  /** Doubling every coefficient doubles the sum. */
  lemma {:induction false} LinCombDouble(c: Curve, ks: seq<int>, ls: seq<int>, Ps: seq<Affine>, n: nat)
    requires IsGroup(c) && AllOnCurve(c, Ps) && n <= |ks| && n <= |ls| && n <= |Ps|
    requires forall i :: 0 <= i < n ==> ls[i] == 2 * ks[i]
    ensures LinComb(c, ls, Ps, n) == AffAdd(c, LinComb(c, ks, Ps, n), LinComb(c, ks, Ps, n))
  {
    hide OnCurve, AffAdd, Mul, Associative;
    if n == 0 {
      AddZero(c, Infinity);
    } else {
      LinCombDouble(c, ks, ls, Ps, n - 1);
      MulDouble(c, ks[n - 1], Ps[n - 1]);
      var S, M := LinComb(c, ks, Ps, n - 1), Mul(c, ks[n - 1], Ps[n - 1]);
      AddSwap(c, S, M, S, M);
    }
  }

  /** Adding d to one coefficient adds d times its point. */
  lemma {:induction false} LinCombUpdate(c: Curve, ks: seq<int>, Ps: seq<Affine>, n: nat, i: nat, d: int)
    requires IsGroup(c) && AllOnCurve(c, Ps) && i < n <= |ks| && n <= |Ps|
    ensures LinComb(c, ks[i := ks[i] + d], Ps, n) == AffAdd(c, LinComb(c, ks, Ps, n), Mul(c, d, Ps[i]))
    decreases n
  {
    hide OnCurve, AffAdd, Mul, Associative;
    var ls := ks[i := ks[i] + d];
    var S, M := LinComb(c, ks, Ps, n - 1), Mul(c, ks[n - 1], Ps[n - 1]);
    if i == n - 1 {
      LinCombSame(c, ks, ls, Ps, Ps, n - 1);
      MulAdd(c, ks[i], d, Ps[i]);
      AddAssoc(c, S, M, Mul(c, d, Ps[i]));
    } else {
      LinCombUpdate(c, ks, Ps, n - 1, i, d);
      AddRight(c, S, M, Mul(c, d, Ps[i]));
    }
  }

  /** A combination over two lists is the sum of the two combinations. */
  lemma {:induction false} LinCombConcat(c: Curve, ks: seq<int>, Ps: seq<Affine>, ls: seq<int>, Qs: seq<Affine>, m: nat)
    requires IsGroup(c) && AllOnCurve(c, Ps) && AllOnCurve(c, Qs)
    requires |ks| == |Ps| && m <= |ls| && m <= |Qs|
    ensures AllOnCurve(c, Ps + Qs)
    ensures LinComb(c, ks + ls, Ps + Qs, |ks| + m) == AffAdd(c, LinComb(c, ks, Ps, |ks|), LinComb(c, ls, Qs, m))
    decreases m
  {
    hide OnCurve, AffAdd, Mul, Associative;
    var S := LinComb(c, ks, Ps, |ks|);
    if m == 0 {
      LinCombSame(c, ks + ls, ks, Ps + Qs, Ps, |ks|);
      AddZero(c, S);
    } else {
      LinCombConcat(c, ks, Ps, ls, Qs, m - 1);
      AddAssoc(c, S, LinComb(c, ls, Qs, m - 1), Mul(c, ls[m - 1], Qs[m - 1]));
    }
  }
}
