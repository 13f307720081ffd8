/**
 The group of the curve y^2 = x^3 + a*x + b in affine coordinates: the chord-and-tangent
 law that the Jacobian formulas of libabi/pssl/ecp_smpl.c compute.  Closure, commutativity,
 the neutral element and inverses are proved here; associativity is a hypothesis.
 */
module Curve {
  import opened Modular
  import opened Field

  /** The curve part of EC_GROUP; `a` and `b` are stored in Montgomery form. */
  datatype Curve = Curve(f: Field, a: nat, b: nat, aIsMinus3: bool)

  datatype Affine = Infinity | Aff(x: nat, y: nat)

  ghost predicate ValidCurve(c: Curve) {
    && ValidField(c.f)
    && c.a < c.f.p && c.b < c.f.p
    && (c.aIsMinus3 <==> Decode(c.f, c.a) + 3 == c.f.p)
  }

  function CoefA(c: Curve): (r: nat)
    requires c.f.p > 0
  {
    Decode(c.f, c.a)
  }

  function CoefB(c: Curve): (r: nat)
    requires c.f.p > 0
  {
    Decode(c.f, c.b)
  }

  predicate Equation(p: nat, a: int, b: int, x: int, y: int)
    requires p > 0
  {
    Cong(p, y * y, x * x * x + a * x + b)
  }

  predicate OnCurve(c: Curve, P: Affine)
    requires c.f.p > 0
  {
    P.Aff? ==> P.x < c.f.p && P.y < c.f.p && Equation(c.f.p, CoefA(c), CoefB(c), P.x, P.y)
  }

  // The quotient num/den modulo p.
  function Slope(p: nat, num: int, den: int): (s: nat)
    requires p > 0
    ensures s < p
  {
    (num * Inv(p, den % p)) % p
  }

  function Third(p: nat, s: int, x1: int, y1: int, x2: int): (r: Affine)
    requires p > 0
    ensures r.Aff? && r.x < p && r.y < p
  {
    var x3 := (s * s - x1 - x2) % p;
    Aff(x3, (s * (x1 - x3) - y1) % p)
  }

  /** The chord-and-tangent sum. */
  function AffAdd(c: Curve, P: Affine, Q: Affine): (r: Affine)
    requires c.f.p > 0
  {
    var p := c.f.p;
    if P.Infinity? then Q
    else if Q.Infinity? then P
    else if P.x != Q.x then Third(p, Slope(p, P.y - Q.y, P.x - Q.x), P.x, P.y, Q.x)
    else if P.y == Q.y && P.y != 0 then
      Third(p, Slope(p, 3 * P.x * P.x + CoefA(c), 2 * P.y), P.x, P.y, P.x)
    else Infinity
  }

  function AffNeg(c: Curve, P: Affine): (r: Affine)
    requires c.f.p > 0 && (P.Aff? ==> P.y < c.f.p)
  {
    if P.Aff? && P.y != 0 then Aff(P.x, c.f.p - P.y) else P
  }

  lemma SlopeCong(p: nat, num: int, den: int)
    requires Prime(p) && !Cong(p, den, 0)
    ensures Cong(p, Slope(p, num, den) * den, num)
  {
    hide Cong;
    CongZero(p, den);
    InvCorrect(p, den % p);
    SlopeWith(p, num, den, Inv(p, den % p));
  }

  lemma SlopeWith(p: nat, num: int, den: int, i: int)
    requires p > 0 && Cong(p, (den % p) * i, 1)
    ensures Cong(p, ((num * i) % p) * den, num)
  {
    hide Cong;
    var m := den % p;
    CongMod(p, den);
    CongScale(p, den, m, i);
    CongTrans(p, den * i, m * i, 1);
    CongMod(p, num * i);
    var s := (num * i) % p;
    assert s * den - num == den * (s - num * i) + num * (den * i - 1);
    CongComb2(p, s * den, num, den, s, num * i, num, den * i, 1);
  }

  // A residue of the form u - v is zero only when u == v.
  lemma DifferenceNonzero(p: nat, u: nat, v: nat)
    requires 0 < p && u < p && v < p && u != v
    ensures !Cong(p, u - v, 0)
  {
    if Cong(p, u - v, 0) {
      CongResidues(p, u, v);
    }
  }

  lemma DoubleNonzero(p: nat, y: nat)
    requires Prime(p) && p > 3 && 0 < y < p
    ensures !Cong(p, 2 * y, 0) && !Cong(p, 2, 0)
  {
    hide Cong;
    if Cong(p, 2, 0) {
      CongResidues(p, 2, 0);
    }
    if Cong(p, 2 * y, 0) {
      CongProductZero(p, 2, y);
      CongResidues(p, y, 0);
    }
  }

  // ---------- closure ----------

  // The line y = s*x + v meets the cubic where F is zero.
  function F(a: int, b: int, s: int, v: int, x: int): int {
    x * x * x + a * x + b - (s * x + v) * (s * x + v)
  }

  // If the line passes through x1 and x2 (with multiplicity), it passes through x3.
  lemma ThirdRoot(p: nat, a: int, b: int, s: int, v: int, x1: int, x2: int, x3: int, al: int, be: int)
    requires p > 0 && Cong(p, x3, s * s - x1 - x2)
    requires al == a - 2 * s * v - (x1 * x2 + x3 * (x1 + x2))
    requires be == b - v * v + x1 * x2 * x3
    requires Cong(p, al, 0) && Cong(p, be, 0)
    ensures Cong(p, F(a, b, s, v, x3), 0)
  {
    hide Cong;
    RootSplit(a, b, s, v, x1, x2, x3, x3, al, be);
    CongComb3(p, F(a, b, s, v, x3), 0, x3 * x3, x3, s * s - x1 - x2, x3, al, 0, 1, be, 0);
  }

  lemma RootSplit(a: int, b: int, s: int, v: int, x1: int, x2: int, x3: int, x: int, al: int, be: int)
    requires al == a - 2 * s * v - (x1 * x2 + x3 * (x1 + x2))
    requires be == b - v * v + x1 * x2 * x3
    ensures F(a, b, s, v, x) ==
            (x - x1) * (x - x2) * (x - x3) + x * x * (x3 - (s * s - x1 - x2)) + x * al + be
  {
    CubicExpand(x, x1, x2, x3);
    LineSquare(s, v, x);
    RemainderTerms(a, s, v, x, x1 * x2 + x3 * (x1 + x2), x3, x1 + x2);
  }

  lemma RemainderTerms(a: int, s: int, v: int, x: int, e: int, x3: int, w: int)
    ensures x * (a - 2 * s * v - e) == a * x - 2 * (s * v * x) - e * x
    ensures x * x * (x3 - (s * s - w)) == (w + x3) * (x * x) - s * s * (x * x)
  {
    assert x * (2 * s * v) == 2 * (s * v * x);
    assert x * (a - 2 * s * v - e) == x * a - x * (2 * s * v) - x * e;
    var q, r := x * x, s * s;
    assert q * (x3 - (r - w)) == (w + x3) * q - r * q;
  }

  lemma LineSquare(s: int, v: int, x: int)
    ensures (s * x + v) * (s * x + v) == s * s * (x * x) + 2 * (s * v * x) + v * v
  {
    var m := s * x;
    assert (m + v) * (m + v) == m * m + 2 * m * v + v * v;
    assert m * m == s * s * (x * x);
    assert m * v == s * v * x;
  }

  lemma CubicExpand(x: int, x1: int, x2: int, x3: int)
    ensures (x - x1) * (x - x2) * (x - x3)
         == x * x * x - (x1 + x2 + x3) * (x * x) + (x1 * x2 + x3 * (x1 + x2)) * x - x1 * x2 * x3
  {
    assert (x - x1) * (x - x2) == x * x - (x1 + x2) * x + x1 * x2;
  }

  // Both coefficients of the remainder vanish when the line meets the curve at two points.
  lemma ChordRemainder(p: nat, a: int, b: int, s: int, v: int, x1: int, x2: int, x3: int, al: int, be: int)
    requires Prime(p) && Cong(p, x3, s * s - x1 - x2)
    requires al == a - 2 * s * v - (x1 * x2 + x3 * (x1 + x2))
    requires be == b - v * v + x1 * x2 * x3
    requires Cong(p, F(a, b, s, v, x1), 0) && Cong(p, F(a, b, s, v, x2), 0)
    requires !Cong(p, x1 - x2, 0)
    ensures Cong(p, al, 0) && Cong(p, be, 0)
  {
    hide Cong, F;
    RootSplit(a, b, s, v, x1, x2, x3, x1, al, be);
    RootSplit(a, b, s, v, x1, x2, x3, x2, al, be);
    RemainderAt(p, F(a, b, s, v, x1), x1, x3, s * s - x1 - x2, al, be);
    RemainderAt(p, F(a, b, s, v, x2), x2, x3, s * s - x1 - x2, al, be);
    CongSub(p, x1 * al + be, 0, x2 * al + be, 0);
    assert (x1 * al + be) - (x2 * al + be) == al * (x1 - x2) && 0 * (x1 - x2) == 0;
    CongCancel(p, al, 0, x1 - x2);
    CongComb2(p, be, 0, 1, x1 * al + be, 0, -x1, al, 0);
  }

  lemma RemainderAt(p: nat, fx: int, x: int, x3: int, t: int, al: int, be: int)
    requires p > 0 && Cong(p, x3, t) && Cong(p, fx, 0)
    requires fx == x * x * (x3 - t) + x * al + be
    ensures Cong(p, x * al + be, 0)
  {
    hide Cong;
    CongComb2(p, x * al + be, 0, 1, fx, 0, -(x * x), x3, t);
  }

  // The tangent meets the curve twice at x1.
  lemma TangentRemainder(p: nat, a: int, b: int, s: int, v: int, x1: int, y1: int, x3: int, al: int, be: int)
    requires p > 0 && Cong(p, x3, s * s - x1 - x1)
    requires al == a - 2 * s * v - (x1 * x1 + x3 * (x1 + x1))
    requires be == b - v * v + x1 * x1 * x3
    requires y1 == s * x1 + v && Cong(p, s * (2 * y1), 3 * x1 * x1 + a)
    requires Cong(p, F(a, b, s, v, x1), 0)
    ensures Cong(p, al, 0) && Cong(p, be, 0)
  {
    hide Cong, F;
    var t := s * s - x1 - x1;
    TangentIdentity(a, s, v, x1, y1, x3);
    CongComb2(p, al, 0, -1, s * (2 * y1), 3 * x1 * x1 + a, -2 * x1, x3, t);
    RootSplit(a, b, s, v, x1, x1, x3, x1, al, be);
    RemainderAt(p, F(a, b, s, v, x1), x1, x3, t, al, be);
    CongComb2(p, be, 0, 1, x1 * al + be, 0, -x1, al, 0);
  }

  lemma TangentIdentity(a: int, s: int, v: int, x: int, y: int, x3: int)
    requires y == s * x + v
    ensures a - 2 * s * v - (x * x + x3 * (x + x))
         == (-1) * (s * (2 * y) - (3 * x * x + a)) + (-2 * x) * (x3 - (s * s - x - x))
  {
    var q := s * s;
    assert s * (2 * y) == 2 * (q * x) + 2 * (s * v) by {
      assert s * y == s * (s * x) + s * v && s * (s * x) == q * x;
    }
    assert 2 * s * v == 2 * (s * v) && 3 * x * x == 3 * (x * x);
    assert (-2 * x) * (x3 - (q - x - x)) == -2 * (x * x3) + 2 * (q * x) - 4 * (x * x);
    assert x3 * (x + x) == 2 * (x * x3);
  }

  // A point on the line, at a root of the cubic, and its reflection are on the curve.
  lemma ReflectOnCurve(p: nat, a: int, b: int, s: int, v: int, x: int, y: int)
    requires p > 0 && Cong(p, F(a, b, s, v, x), 0) && Cong(p, y, -(s * x + v))
    ensures Equation(p, a, b, x, y)
  {
    hide Cong;
    var l := s * x + v;
    CongMul(p, y, -l, y, -l);
    assert (-l) * (-l) == l * l;
    CongComb2(p, y * y, x * x * x + a * x + b, 1, y * y, l * l, -1, x * x * x + a * x + b - l * l, 0);
  }

  lemma LineThrough(p: nat, a: int, b: int, s: int, v: int, x: int, y: int)
    requires p > 0 && Equation(p, a, b, x, y) && Cong(p, s * x + v, y)
    ensures Cong(p, F(a, b, s, v, x), 0)
  {
    hide Cong;
    var l := s * x + v;
    CongMul(p, l, y, l, y);
    CongComb2(p, F(a, b, s, v, x), 0, -1, l * l, y * y, -1, y * y, x * x * x + a * x + b);
  }

  lemma ThirdCong(p: nat, s: int, x1: int, y1: int, x2: int)
    requires p > 0
    ensures var r := Third(p, s, x1, y1, x2);
      Cong(p, r.x, s * s - x1 - x2) && Cong(p, r.y, s * (x1 - r.x) - y1)
  {
    hide Cong;
    CongMod(p, s * s - x1 - x2);
    var x3 := (s * s - x1 - x2) % p;
    CongMod(p, s * (x1 - x3) - y1);
  }

  lemma ThirdReflects(p: nat, s: int, x1: int, y1: int, x2: int)
    requires p > 0
    ensures var r := Third(p, s, x1, y1, x2);
      Cong(p, r.y, -(s * r.x + (y1 - s * x1)))
  {
    hide Cong, Third;
    ThirdCong(p, s, x1, y1, x2);
    var r := Third(p, s, x1, y1, x2);
    assert s * (x1 - r.x) - y1 == -(s * r.x + (y1 - s * x1));
  }

  lemma ChordOnCurve(p: nat, a: int, b: int, x1: int, y1: int, x2: int, y2: int, s: int)
    requires Prime(p) && Equation(p, a, b, x1, y1) && Equation(p, a, b, x2, y2)
    requires !Cong(p, x1 - x2, 0) && Cong(p, s * (x1 - x2), y1 - y2)
    ensures var r := Third(p, s, x1, y1, x2); Equation(p, a, b, r.x, r.y)
  {
    hide Cong, F, Third, Equation;
    var v := y1 - s * x1;
    var r := Third(p, s, x1, y1, x2);
    ThirdCong(p, s, x1, y1, x2);
    ThirdReflects(p, s, x1, y1, x2);
    var al := a - 2 * s * v - (x1 * x2 + r.x * (x1 + x2));
    var be := b - v * v + x1 * x2 * r.x;
    CongRefl(p, y1);
    LineThrough(p, a, b, s, v, x1, y1);
    assert (s * x2 + v) - y2 == -(s * (x1 - x2) - (y1 - y2));
    CongComb1(p, s * x2 + v, y2, -1, s * (x1 - x2), y1 - y2);
    LineThrough(p, a, b, s, v, x2, y2);
    ChordRemainder(p, a, b, s, v, x1, x2, r.x, al, be);
    ThirdRoot(p, a, b, s, v, x1, x2, r.x, al, be);
    ReflectOnCurve(p, a, b, s, v, r.x, r.y);
  }

  lemma TangentOnCurve(p: nat, a: int, b: int, x1: int, y1: int, s: int)
    requires p > 0 && Equation(p, a, b, x1, y1)
    requires Cong(p, s * (2 * y1), 3 * x1 * x1 + a)
    ensures var r := Third(p, s, x1, y1, x1); Equation(p, a, b, r.x, r.y)
  {
    hide Cong, F, Third, Equation;
    var v := y1 - s * x1;
    var r := Third(p, s, x1, y1, x1);
    ThirdCong(p, s, x1, y1, x1);
    ThirdReflects(p, s, x1, y1, x1);
    var al := a - 2 * s * v - (x1 * x1 + r.x * (x1 + x1));
    var be := b - v * v + x1 * x1 * r.x;
    CongRefl(p, y1);
    LineThrough(p, a, b, s, v, x1, y1);
    TangentRemainder(p, a, b, s, v, x1, y1, r.x, al, be);
    ThirdRoot(p, a, b, s, v, x1, x1, r.x, al, be);
    ReflectOnCurve(p, a, b, s, v, r.x, r.y);
  }

  // The sum of two points of the curve is a point of the curve.
  lemma AddClosed(c: Curve, P: Affine, Q: Affine)
    requires ValidCurve(c) && OnCurve(c, P) && OnCurve(c, Q)
    ensures OnCurve(c, AffAdd(c, P, Q))
  {
    hide Cong, Third, Equation, Slope, CoefA, CoefB;
    var p, a, b := c.f.p, CoefA(c), CoefB(c);
    if P.Aff? && Q.Aff? {
      if P.x != Q.x {
        DifferenceNonzero(p, P.x, Q.x);
        SlopeCong(p, P.y - Q.y, P.x - Q.x);
        ChordOnCurve(p, a, b, P.x, P.y, Q.x, Q.y, Slope(p, P.y - Q.y, P.x - Q.x));
      } else if P.y == Q.y && P.y != 0 {
        DoubleNonzero(p, P.y);
        SlopeCong(p, 3 * P.x * P.x + a, 2 * P.y);
        TangentOnCurve(p, a, b, P.x, P.y, Slope(p, 3 * P.x * P.x + a, 2 * P.y));
      }
    }
  }

  lemma NegClosed(c: Curve, P: Affine)
    requires c.f.p > 0 && OnCurve(c, P)
    ensures OnCurve(c, AffNeg(c, P))
  {
    hide Cong, CoefA, CoefB;
    if P.Aff? && P.y != 0 {
      var p: int, y: int := c.f.p, P.y;
      assert (p - y) * (p - y) - y * y == (p - 2 * y) * p;
      CongIntro(p, (p - y) * (p - y), y * y, p - 2 * y);
      CongTrans(p, (p - y) * (p - y), y * y, P.x * P.x * P.x + CoefA(c) * P.x + CoefB(c));
    }
  }

  // ---------- group laws ----------

  lemma AddComm(c: Curve, P: Affine, Q: Affine)
    requires ValidCurve(c) && OnCurve(c, P) && OnCurve(c, Q)
    ensures AffAdd(c, P, Q) == AffAdd(c, Q, P)
  {
    hide Cong, Third, Equation, Slope, CoefA, CoefB;
    if P.Aff? && Q.Aff? && P.x != Q.x {
      var p := c.f.p;
      DifferenceNonzero(p, P.x, Q.x);
      DifferenceNonzero(p, Q.x, P.x);
      var s, t := Slope(p, P.y - Q.y, P.x - Q.x), Slope(p, Q.y - P.y, Q.x - P.x);
      SlopeCong(p, P.y - Q.y, P.x - Q.x);
      SlopeCong(p, Q.y - P.y, Q.x - P.x);
      SlopeSym(p, s, t, P.x, P.y, Q.x, Q.y);
      ThirdSym(p, s, P.x, P.y, Q.x, Q.y);
    }
  }

  lemma SlopeSym(p: nat, s: nat, t: nat, x1: int, y1: int, x2: int, y2: int)
    requires Prime(p) && s < p && t < p && !Cong(p, x1 - x2, 0)
    requires Cong(p, s * (x1 - x2), y1 - y2) && Cong(p, t * (x2 - x1), y2 - y1)
    ensures s == t
  {
    hide Cong;
    var u := x1 - x2;
    assert s * u - t * u == (s * (x1 - x2) - (y1 - y2)) + (t * (x2 - x1) - (y2 - y1));
    CongComb2(p, s * u, t * u, 1, s * (x1 - x2), y1 - y2, 1, t * (x2 - x1), y2 - y1);
    CongCancel(p, s, t, u);
    CongResidues(p, s, t);
  }

  lemma ThirdSym(p: nat, s: int, x1: int, y1: int, x2: int, y2: int)
    requires p > 0 && Cong(p, s * (x1 - x2), y1 - y2)
    ensures Third(p, s, x1, y1, x2) == Third(p, s, x2, y2, x1)
  {
    hide Cong;
    var r1, r2 := Third(p, s, x1, y1, x2), Third(p, s, x2, y2, x1);
    ThirdCong(p, s, x1, y1, x2);
    ThirdCong(p, s, x2, y2, x1);
    assert s * s - x1 - x2 == s * s - x2 - x1;
    assert r1.x == r2.x;
    var x := r1.x;
    assert (s * (x1 - x) - y1) - (s * (x2 - x) - y2) == s * (x1 - x2) - (y1 - y2);
    CongComb3(p, r1.y, r2.y, 1, r1.y, s * (x1 - x) - y1, -1, r2.y, s * (x2 - x) - y2,
              1, s * (x1 - x2), y1 - y2);
    CongResidues(p, r1.y, r2.y);
  }

  lemma AddZero(c: Curve, P: Affine)
    requires c.f.p > 0
    ensures AffAdd(c, P, Infinity) == P && AffAdd(c, Infinity, P) == P
  {
  }

  lemma AddInverse(c: Curve, P: Affine)
    requires ValidCurve(c) && OnCurve(c, P)
    ensures AffAdd(c, P, AffNeg(c, P)) == Infinity
  {
    assert P.Aff? && P.y != 0 ==> c.f.p - P.y != P.y;
  }

  // On the curve, equal x means equal or opposite y.
  lemma SameX(c: Curve, P: Affine, Q: Affine)
    requires ValidCurve(c) && OnCurve(c, P) && OnCurve(c, Q)
    requires P.Aff? && Q.Aff? && P.x == Q.x && P.y != Q.y
    ensures Q == AffNeg(c, P)
  {
    hide Cong, CoefA, CoefB;
    var p := c.f.p;
    var rhs := P.x * P.x * P.x + CoefA(c) * P.x + CoefB(c);
    assert (P.y - Q.y) * (P.y + Q.y) == P.y * P.y - Q.y * Q.y;
    CongComb2(p, (P.y - Q.y) * (P.y + Q.y), 0, 1, P.y * P.y, rhs, -1, Q.y * Q.y, rhs);
    CongProductZero(p, P.y - Q.y, P.y + Q.y);
    DifferenceNonzero(p, P.y, Q.y);
    SumIsModulus(p, P.y, Q.y);
  }

  lemma SumIsModulus(p: nat, y: nat, z: nat)
    requires 0 < p && y < p && z < p && Cong(p, y + z, 0)
    ensures y + z == 0 || y + z == p
  {
    var k := CongElim(p, y + z, 0);
    MulBig(k, p);
    MulBig(k - 2, p);
    assert (k - 2) * p == k * p - 2 * p;
  }

  // A sum is infinity exactly when the operands are opposite.
  lemma AddInfinity(c: Curve, P: Affine, Q: Affine)
    requires ValidCurve(c) && OnCurve(c, P) && OnCurve(c, Q)
    ensures AffAdd(c, P, Q) == Infinity <==> Q == AffNeg(c, P)
  {
    hide Cong, Third, Equation, Slope, CoefA, CoefB;
    AddInverse(c, P);
    if P.Aff? && Q.Aff? && P.x == Q.x && P.y != Q.y {
      SameX(c, P, Q);
    }
  }

  // ---------- negation, for any pair of coordinates ----------

  /** Reduced coordinates, on the curve or not. */
  predicate InField(c: Curve, P: Affine)
    requires c.f.p > 0
  {
    P.Aff? ==> P.x < c.f.p && P.y < c.f.p
  }

  lemma SumInField(c: Curve, P: Affine, Q: Affine)
    requires c.f.p > 0 && InField(c, P) && InField(c, Q)
    ensures InField(c, AffAdd(c, P, Q)) && InField(c, AffNeg(c, P))
  {
    hide Slope, Third, CoefA;
  }

  lemma NegTwice(c: Curve, P: Affine)
    requires c.f.p > 0 && InField(c, P)
    ensures InField(c, AffNeg(c, P)) && AffNeg(c, AffNeg(c, P)) == P
  {
  }

  function NegMod(p: nat, y: int): (z: nat)
    requires 0 <= y < p
    ensures z < p && (z == 0 <==> y == 0)
  {
    if y == 0 then 0 else p - y
  }

  lemma NegModCong(p: nat, y: int)
    requires 0 <= y < p
    ensures Cong(p, NegMod(p, y), -y)
  {
    CongIntro(p, NegMod(p, y), -y, if y == 0 then 0 else 1);
  }

  lemma NegModIs(p: nat, y: int, z: nat)
    requires 0 <= y < p && z < p && Cong(p, z, -y)
    ensures z == NegMod(p, y)
  {
    hide Cong;
    NegModCong(p, y);
    CongSym(p, NegMod(p, y), -y);
    CongTrans(p, z, -y, NegMod(p, y));
    CongResidues(p, z, NegMod(p, y));
  }

  // With the opposite slope from the opposite point the third point is the opposite one.
  lemma ThirdNeg(p: nat, s: int, t: int, x1: int, y1: int, z1: int, x2: int)
    requires p > 0 && Cong(p, t, -s) && Cong(p, z1, -y1)
    ensures var r, o := Third(p, s, x1, y1, x2), Third(p, t, x1, z1, x2);
      o.x == r.x && o.y == NegMod(p, r.y)
  {
    hide Cong, Third, NegMod;
    var r, o := Third(p, s, x1, y1, x2), Third(p, t, x1, z1, x2);
    var ry: int := r.y;
    ThirdCong(p, s, x1, y1, x2);
    ThirdCong(p, t, x1, z1, x2);
    CongMul(p, t, -s, t, -s);
    assert (-s) * (-s) == s * s;
    CongComb3(p, o.x, r.x, 1, o.x, t * t - x1 - x2, 1, t * t, s * s, -1, r.x, s * s - x1 - x2);
    CongResidues(p, o.x, r.x);
    NegY(p, s, t, x1 - r.x, y1, z1, ry, o.y);
    NegModIs(p, ry, o.y);
  }

  lemma NegY(p: nat, s: int, t: int, d: int, y1: int, z1: int, y3: int, z3: int)
    requires p > 0 && Cong(p, t, -s) && Cong(p, z1, -y1) && Cong(p, y3, s * d - y1) && Cong(p, z3, t * d - z1)
    ensures Cong(p, z3, -y3)
  {
    hide Cong;
    CongScale(p, t, -s, d);
    assert (-s) * d == -(s * d);
    CongSub(p, t * d, -(s * d), z1, -y1);
    CongComb3(p, z3, -y3, 1, z3, t * d - z1, 1, t * d - z1, -(s * d) - (-y1), -1, s * d - y1, y3) by {
      CongSym(p, y3, s * d - y1);
    }
  }

  lemma SlopeMod(p: nat, num: int, den: int)
    requires p > 0
    ensures Cong(p, Slope(p, num, den), num * Inv(p, den % p))
  {
    hide Cong;
    CongMod(p, num * Inv(p, den % p));
  }

  lemma ChordSlopeNeg(p: nat, num: int, neg: int, den: int, s: int, t: int)
    requires p > 0 && Cong(p, neg, -num) && s == Slope(p, num, den) && t == Slope(p, neg, den)
    ensures Cong(p, t, -s)
  {
    hide Cong, Slope, Inv;
    var i: int := Inv(p, den % p);
    SlopeMod(p, num, den);
    SlopeMod(p, neg, den);
    CongScale(p, neg, -num, i);
    assert (-num) * i == -(num * i);
    CongSym(p, s, num * i);
    CongComb3(p, t, -s, 1, t, neg * i, 1, neg * i, -(num * i), -1, num * i, s);
  }

  lemma TangentSlopeNeg(p: nat, num: int, den: int, neg: int, s: int, t: int)
    requires Prime(p) && !Cong(p, den, 0) && !Cong(p, neg, 0) && Cong(p, neg, -den)
    requires s == Slope(p, num, den) && t == Slope(p, num, neg)
    ensures Cong(p, t, -s)
  {
    hide Cong, Slope;
    SlopeCong(p, num, den);
    SlopeCong(p, num, neg);
    CongScale(p, neg, -den, t);
    assert (-den) * t == (-t) * den && neg * t == t * neg;
    CongSym(p, t * neg, (-t) * den);
    CongTrans(p, (-t) * den, t * neg, num);
    CongSym(p, s * den, num);
    CongTrans(p, (-t) * den, num, s * den);
    CongCancel(p, -t, s, den);
    CongComb1(p, t, -s, -1, -t, s);
  }

  lemma NegIs(c: Curve, P: Affine)
    requires c.f.p > 0 && InField(c, P) && P.Aff?
    ensures AffNeg(c, P) == Aff(P.x, NegMod(c.f.p, P.y))
  {
  }

  lemma NegChord(c: Curve, P: Affine, Q: Affine)
    requires ValidCurve(c) && InField(c, P) && InField(c, Q) && P.Aff? && Q.Aff? && P.x != Q.x
    ensures AffAdd(c, AffNeg(c, P), AffNeg(c, Q)) == AffNeg(c, AffAdd(c, P, Q))
  {
    hide Cong, Slope, Third, AffNeg, NegMod, CoefA;
    var p, y1: int, y2: int := c.f.p, P.y, Q.y;
    var z1: int, z2: int := NegMod(p, y1), NegMod(p, y2);
    NegIs(c, P);
    NegIs(c, Q);
    NegModCong(p, y1);
    NegModCong(p, y2);
    CongSub(p, z1, -y1, z2, -y2);
    assert -y1 - (-y2) == -(y1 - y2);
    var s, t := Slope(p, y1 - y2, P.x - Q.x), Slope(p, z1 - z2, P.x - Q.x);
    ChordSlopeNeg(p, y1 - y2, z1 - z2, P.x - Q.x, s, t);
    ThirdNeg(p, s, t, P.x, y1, z1, Q.x);
    NegIs(c, Third(p, s, P.x, y1, Q.x));
  }

  lemma NegTangent(c: Curve, P: Affine)
    requires ValidCurve(c) && InField(c, P) && P.Aff? && P.y != 0
    ensures AffAdd(c, AffNeg(c, P), AffNeg(c, P)) == AffNeg(c, AffAdd(c, P, P))
  {
    hide Cong, Slope, Third, AffNeg, NegMod, CoefA, Prime;
    var p, y: int := c.f.p, P.y;
    var z := NegMod(p, y);
    NegIs(c, P);
    NegModCong(p, y);
    CongScale(p, z, -y, 2);
    assert (-y) * 2 == -(2 * y) && z * 2 == 2 * z;
    DoubleNonzero(p, P.y);
    DoubleNonzero(p, z);
    var num := 3 * P.x * P.x + CoefA(c);
    var s, t := Slope(p, num, 2 * y), Slope(p, num, 2 * z);
    TangentSlopeNeg(p, num, 2 * y, 2 * z, s, t);
    ThirdNeg(p, s, t, P.x, y, z, P.x);
    NegIs(c, Third(p, s, P.x, y, P.x));
  }

  /** The sum of the opposite points is the opposite of the sum, also off the curve. */
  lemma NegSum(c: Curve, P: Affine, Q: Affine)
    requires ValidCurve(c) && InField(c, P) && InField(c, Q)
    ensures InField(c, AffAdd(c, P, Q))
    ensures AffAdd(c, AffNeg(c, P), AffNeg(c, Q)) == AffNeg(c, AffAdd(c, P, Q))
  {
    hide Slope, Third, CoefA;
    SumInField(c, P, Q);
    if P.Aff? && Q.Aff? {
      if P.x != Q.x {
        NegChord(c, P, Q);
      } else if P.y == Q.y && P.y != 0 {
        NegTangent(c, P);
      }
    }
  }

  // Marks the triples at which the hypothesis is used.
  ghost predicate Triple(P: Affine, Q: Affine, R: Affine) {
    true
  }

  /** The one group law that is taken as a hypothesis. */
  ghost predicate Associative(c: Curve)
    requires c.f.p > 0
  {
    forall P: Affine, Q: Affine, R: Affine {:trigger Triple(P, Q, R)} ::
      Triple(P, Q, R) && OnCurve(c, P) && OnCurve(c, Q) && OnCurve(c, R) ==>
      AffAdd(c, AffAdd(c, P, Q), R) == AffAdd(c, P, AffAdd(c, Q, R))
  }
}
