/**
 The sum that the formulas of libabi/pssl/ecp_smpl.c compute, by the line through its two points:
 a description without any division.
 */
module ChordTangent {
  import opened Modular
  import opened Field
  import opened Curve

  /** The slope of the chord through P and Q, or of the tangent, is Rise over Run. */
  function Run(P: Affine, Q: Affine): int
    requires P.Aff? && Q.Aff?
  {
    if P.x != Q.x then P.x - Q.x else 2 * P.y
  }

  function Rise(c: Curve, P: Affine, Q: Affine): int
    requires c.f.p > 0 && P.Aff? && Q.Aff?
  {
    if P.x != Q.x then P.y - Q.y else 3 * P.x * P.x + CoefA(c)
  }

  /**
   The opposite of R is on the line through P and Q, and the three x coordinates add up to the
   square of the slope: it is the third point at which the line meets the curve.
   */
  predicate MeetsAt(c: Curve, P: Affine, Q: Affine, R: Affine)
    requires c.f.p > 0 && P.Aff? && Q.Aff? && R.Aff?
  {
    var dx, dy := Run(P, Q), Rise(c, P, Q);
    && Cong(c.f.p, (P.x + Q.x + R.x) * (dx * dx), dy * dy)
    && Cong(c.f.p, (P.y + R.y) * dx, dy * (P.x - R.x))
  }

  lemma RunNonzero(c: Curve, P: Affine, Q: Affine)
    requires ValidCurve(c) && InField(c, P) && InField(c, Q) && P.Aff? && Q.Aff?
    requires P.x != Q.x || (P == Q && P.y != 0)
    ensures !Cong(c.f.p, Run(P, Q), 0)
  {
    hide Cong;
    if P.x != Q.x {
      DifferenceNonzero(c.f.p, P.x, Q.x);
    } else {
      DoubleNonzero(c.f.p, P.y);
    }
  }

  // A point with the slope s meets the line.
  lemma ThirdMeets(p: nat, s: int, dx: int, dy: int, x1: int, y1: int, x2: int, x3: int, y3: int)
    requires p > 0 && Cong(p, s * dx, dy)
    requires Cong(p, x3, s * s - x1 - x2) && Cong(p, y3, s * (x1 - x3) - y1)
    ensures Cong(p, (x1 + x2 + x3) * (dx * dx), dy * dy)
    ensures Cong(p, (y1 + y3) * dx, dy * (x1 - x3))
  {
    hide Cong;
    CongMul(p, s * dx, dy, s * dx, dy);
    var q, w := dx * dx, s * s;
    assert (s * dx) * (s * dx) == w * q;
    assert (x1 + x2 + x3) * q - dy * dy == q * (x3 - (w - x1 - x2)) + 1 * (w * q - dy * dy);
    CongComb2(p, (x1 + x2 + x3) * q, dy * dy, q, x3, w - x1 - x2, 1, w * q, dy * dy);
    var d := x1 - x3;
    ProductSwap(y1, y3, s, d, dx, dy);
    CongComb2(p, (y1 + y3) * dx, dy * d, dx, y3, s * d - y1, d, s * dx, dy);
  }

  lemma ProductSwap(y1: int, y3: int, s: int, d: int, dx: int, dy: int)
    ensures (y1 + y3) * dx - dy * d == dx * (y3 - (s * d - y1)) + d * (s * dx - dy)
  {
    assert dx * (s * d) == d * (s * dx);
  }

  // Only one residue solves each of the two congruences.
  lemma SameSolution(p: nat, k: int, u: nat, v: nat, a: int, b: int)
    requires Prime(p) && u < p && v < p && !Cong(p, k, 0)
    requires Cong(p, (a + u) * k, b) && Cong(p, (a + v) * k, b)
    ensures u == v
  {
    hide Cong;
    assert (a + u) * k - (a + v) * k == u * k - v * k;
    CongComb2(p, u * k, v * k, 1, (a + u) * k, b, -1, (a + v) * k, b);
    CongCancel(p, u, v, k);
    CongResidues(p, u, v);
  }

  lemma SquareNonzero(p: nat, d: int)
    requires Prime(p) && !Cong(p, d, 0)
    ensures !Cong(p, d * d, 0)
  {
    hide Cong;
    if Cong(p, d * d, 0) {
      CongProductZero(p, d, d);
    }
  }

  lemma SumMeets(c: Curve, P: Affine, Q: Affine)
    requires ValidCurve(c) && InField(c, P) && InField(c, Q) && P.Aff? && Q.Aff?
    requires P.x != Q.x || (P == Q && P.y != 0)
    ensures var R := AffAdd(c, P, Q); R.Aff? && InField(c, R) && MeetsAt(c, P, Q, R)
  {
    hide Cong, Third, Slope, CoefA;
    var p, dx, dy := c.f.p, Run(P, Q), Rise(c, P, Q);
    RunNonzero(c, P, Q);
    SlopeCong(p, dy, dx);
    var s := Slope(p, dy, dx);
    var R := Third(p, s, P.x, P.y, Q.x);
    assert AffAdd(c, P, Q) == R;
    ThirdCong(p, s, P.x, P.y, Q.x);
    ThirdMeets(p, s, dx, dy, P.x, P.y, Q.x, R.x, R.y);
  }

  /** A finite sum is the one point whose opposite the line meets at last. */
  lemma SumIsThirdPoint(c: Curve, P: Affine, Q: Affine, R: Affine)
    requires ValidCurve(c) && InField(c, P) && InField(c, Q) && InField(c, R) && P.Aff? && Q.Aff? && R.Aff?
    requires P.x != Q.x || (P == Q && P.y != 0)
    ensures R == AffAdd(c, P, Q) <==> MeetsAt(c, P, Q, R)
  {
    hide Cong, AffAdd, Rise, Run;
    SumMeets(c, P, Q);
    if MeetsAt(c, P, Q, R) {
      var p, S, dx, dy := c.f.p, AffAdd(c, P, Q), Run(P, Q), Rise(c, P, Q);
      RunNonzero(c, P, Q);
      SquareNonzero(p, dx);
      SameSolution(p, dx * dx, R.x, S.x, P.x + Q.x, dy * dy);
      SameSolution(p, dx, R.y, S.y, P.y, dy * (P.x - R.x));
    }
  }
}
