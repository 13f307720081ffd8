/**
 Jacobian coordinates and their formulas as value functions (libabi/pssl/ecp_smpl.c), with
 the proof that each computes the affine chord-and-tangent result.
 */
module Jacobian {
  import opened Modular
  import opened Field
  import opened Curve

  /** The contents of an EC_POINT: (X/Z^2, Y/Z^3), infinity when Z is zero. */
  datatype Jac = Jac(x: nat, y: nat, z: nat, zIsOne: bool)

  /** Reduced coordinates, and a truthful flag for Z = 1; at infinity the flag is not looked at. */
  ghost predicate ValidJac(c: Curve, j: Jac)
    requires c.f.p > 0
  {
    && j.x < c.f.p && j.y < c.f.p && j.z < c.f.p
    && (j.zIsOne && j.z != 0 ==> j.z == One(c.f))
  }

  function ToAffine(c: Curve, j: Jac): (r: Affine)
    requires c.f.p > 0
  {
    if j.z == 0 then Infinity
    else
      var i := Inv(c.f.p, Decode(c.f, j.z));
      Aff((Decode(c.f, j.x) * (i * i)) % c.f.p, (Decode(c.f, j.y) * (i * i * i)) % c.f.p)
  }

  // ---------- representation ----------

  ghost predicate Represents(p: nat, x: int, y: int, z: int, ax: int, ay: int)
    requires p > 0
  {
    Cong(p, x, ax * (z * z)) && Cong(p, y, ay * (z * z * z))
  }

  lemma InversePowers(p: nat, x: int, y: int, z: int, i: int)
    requires p > 0 && Cong(p, z * i, 1)
    ensures Represents(p, x, y, z, x * (i * i), y * (i * i * i))
  {
    hide Cong;
    var m := z * i;
    CongMul(p, m, 1, m, 1);
    CongMul(p, m * m, 1, m, 1);
    ProductPowers(i, z);
    UnitFactor(p, x, i * i, z * z, m * m);
    UnitFactor(p, y, i * i * i, z * z * z, m * m * m);
  }

  lemma ProductPowers(a: int, b: int)
    ensures (b * a) * (b * a) == (a * a) * (b * b)
    ensures (b * a) * (b * a) * (b * a) == (a * a * a) * (b * b * b)
  {
    var m, u, v := b * a, a * a, b * b;
    assert m * m == u * v;
    assert (u * v) * (b * a) == (u * a) * (v * b);
  }

  lemma UnitFactor(p: nat, x: int, u: int, v: int, m: int)
    requires p > 0 && m == u * v && Cong(p, m, 1)
    ensures Cong(p, x, (x * u) * v)
  {
    hide Cong;
    CongScale(p, m, 1, x);
    assert m * x == (x * u) * v && 1 * x == x;
    CongSym(p, m * x, x);
  }

  lemma RepresentsMod(p: nat, x: int, y: int, z: int, u: int, v: int)
    requires p > 0 && Represents(p, x, y, z, u, v)
    ensures Represents(p, x, y, z, u % p, v % p)
  {
    hide Cong;
    CongMod(p, u);
    CongMod(p, v);
    CongScale(p, u, u % p, z * z);
    CongScale(p, v, v % p, z * z * z);
    CongTrans(p, x, u * (z * z), (u % p) * (z * z));
    CongTrans(p, y, v * (z * z * z), (v % p) * (z * z * z));
  }

  lemma CubeNonzero(p: nat, z: int)
    requires Prime(p) && !Cong(p, z, 0)
    ensures !Cong(p, z * z, 0) && !Cong(p, z * z * z, 0)
  {
    hide Cong;
    if Cong(p, z * z, 0) {
      CongProductZero(p, z, z);
    }
    if Cong(p, z * z * z, 0) {
      CongProductZero(p, z * z, z);
    }
  }

  lemma RepresentsUnique(p: nat, x: int, y: int, z: int, ax: nat, ay: nat, ex: nat, ey: nat)
    requires Prime(p) && !Cong(p, z, 0)
    requires ax < p && ay < p && ex < p && ey < p
    requires Represents(p, x, y, z, ax, ay) && Represents(p, x, y, z, ex, ey)
    ensures ax == ex && ay == ey
  {
    hide Cong;
    CubeNonzero(p, z);
    CongSym(p, x, ax * (z * z));
    CongTrans(p, ax * (z * z), x, ex * (z * z));
    CongCancel(p, ax, ex, z * z);
    CongResidues(p, ax, ex);
    CongSym(p, y, ay * (z * z * z));
    CongTrans(p, ay * (z * z * z), y, ey * (z * z * z));
    CongCancel(p, ay, ey, z * z * z);
    CongResidues(p, ay, ey);
  }

  // The decoded coordinates of a finite point.
  ghost predicate RepresentsJac(c: Curve, j: Jac, ax: int, ay: int)
    requires c.f.p > 0
  {
    Represents(c.f.p, Decode(c.f, j.x), Decode(c.f, j.y), Decode(c.f, j.z), ax, ay)
  }

  lemma ZNonzero(f: Field, z: nat)
    requires ValidField(f) && z < f.p
    ensures Cong(f.p, Decode(f, z), 0) <==> z == 0
  {
    hide Cong;
    DecodeZero(f, z);
    CongRefl(f.p, 0);
    if Cong(f.p, Decode(f, z), 0) {
      CongResidues(f.p, Decode(f, z), 0);
    }
  }

  lemma ToAffineElim(c: Curve, j: Jac)
    requires ValidCurve(c) && ValidJac(c, j) && j.z != 0
    ensures ToAffine(c, j).Aff?
    ensures ToAffine(c, j).x < c.f.p && ToAffine(c, j).y < c.f.p
    ensures RepresentsJac(c, j, ToAffine(c, j).x, ToAffine(c, j).y)
  {
    hide Cong, Represents, Decode;
    var f := c.f;
    DecodeZero(f, j.z);
    var z := Decode(f, j.z);
    var i := Inv(f.p, z);
    InvCorrect(f.p, z);
    InversePowers(f.p, Decode(f, j.x), Decode(f, j.y), z, i);
    RepresentsMod(f.p, Decode(f, j.x), Decode(f, j.y), z,
                  Decode(f, j.x) * (i * i), Decode(f, j.y) * (i * i * i));
  }

  lemma ToAffineIntro(c: Curve, j: Jac, ax: nat, ay: nat)
    requires ValidCurve(c) && ValidJac(c, j) && j.z != 0
    requires ax < c.f.p && ay < c.f.p && RepresentsJac(c, j, ax, ay)
    ensures ToAffine(c, j) == Aff(ax, ay)
  {
    hide Cong, Represents, Decode, ToAffine;
    ToAffineElim(c, j);
    ZNonzero(c.f, j.z);
    var P := ToAffine(c, j);
    RepresentsUnique(c.f.p, Decode(c.f, j.x), Decode(c.f, j.y), Decode(c.f, j.z), P.x, P.y, ax, ay);
  }

  // ---------- scaling to a common denominator ----------

  /** X_a * Z_b^2, or X_a when Z_b is one. */
  function ScaledX(f: Field, x: nat, b: Jac): (n: nat)
    requires f.p > 0
    ensures x < f.p ==> n < f.p
  {
    if b.zIsOne then x else FieldMul(f, x, FieldSqr(f, b.z))
  }

  /** Y_a * Z_b^3, or Y_a when Z_b is one. */
  function ScaledY(f: Field, y: nat, b: Jac): (n: nat)
    requires f.p > 0
    ensures y < f.p ==> n < f.p
  {
    if b.zIsOne then y else FieldMul(f, y, FieldMul(f, FieldSqr(f, b.z), b.z))
  }

  lemma DecodeMul2(f: Field, a: int, b: int, u: int, v: int)
    requires f.p > 0 && Cong(f.p, Decode(f, a), u) && Cong(f.p, Decode(f, b), v)
    ensures Cong(f.p, Decode(f, FieldMul(f, a, b)), u * v)
  {
    hide Cong, Decode, FieldMul;
    DecodeMul(f, a, b);
    CongMul(f.p, Decode(f, a), u, Decode(f, b), v);
    CongTrans(f.p, Decode(f, FieldMul(f, a, b)), Decode(f, a) * Decode(f, b), u * v);
  }

  lemma DecodeAdd2(f: Field, a: int, b: int, u: int, v: int)
    requires f.p > 0 && Cong(f.p, Decode(f, a), u) && Cong(f.p, Decode(f, b), v)
    ensures Cong(f.p, Decode(f, ModAddQuick(a, b, f.p)), u + v)
  {
    hide Cong, Decode, ModAddQuick;
    DecodeAdd(f, a, b);
    CongAdd(f.p, Decode(f, a), u, Decode(f, b), v);
    CongTrans(f.p, Decode(f, ModAddQuick(a, b, f.p)), Decode(f, a) + Decode(f, b), u + v);
  }

  lemma DecodeSub2(f: Field, a: int, b: int, u: int, v: int)
    requires f.p > 0 && Cong(f.p, Decode(f, a), u) && Cong(f.p, Decode(f, b), v)
    ensures Cong(f.p, Decode(f, ModSubQuick(a, b, f.p)), u - v)
  {
    hide Cong, Decode, ModSubQuick;
    DecodeSub(f, a, b);
    CongSub(f.p, Decode(f, a), u, Decode(f, b), v);
    CongTrans(f.p, Decode(f, ModSubQuick(a, b, f.p)), Decode(f, a) - Decode(f, b), u - v);
  }

  lemma OneFactor(p: nat, x: int, z: int)
    requires p > 0 && z == 1
    ensures Cong(p, x, x * (z * z)) && Cong(p, x, x * (z * z * z))
  {
    CongRefl(p, x);
    assert z * z == 1 && z * z * z == 1;
  }

  lemma ScaledXCorrect(c: Curve, x: nat, b: Jac)
    requires ValidCurve(c) && ValidJac(c, b) && b.z != 0 && x < c.f.p
    ensures Cong(c.f.p, Decode(c.f, ScaledX(c.f, x, b)), Decode(c.f, x) * (Decode(c.f, b.z) * Decode(c.f, b.z)))
  {
    hide Cong, Decode, FieldMul, One;
    var f, z := c.f, Decode(c.f, b.z);
    if b.zIsOne {
      DecodeOne(f);
      OneFactor(f.p, Decode(f, x), z);
    } else {
      CongRefl(f.p, Decode(f, x));
      CongRefl(f.p, z);
      DecodeMul2(f, b.z, b.z, z, z);
      DecodeMul2(f, x, FieldSqr(f, b.z), Decode(f, x), z * z);
    }
  }

  lemma ScaledYCorrect(c: Curve, y: nat, b: Jac)
    requires ValidCurve(c) && ValidJac(c, b) && b.z != 0 && y < c.f.p
    ensures var z := Decode(c.f, b.z); Cong(c.f.p, Decode(c.f, ScaledY(c.f, y, b)), Decode(c.f, y) * (z * z * z))
  {
    hide Cong, Decode, FieldMul, One;
    var f, z := c.f, Decode(c.f, b.z);
    if b.zIsOne {
      DecodeOne(f);
      OneFactor(f.p, Decode(f, y), z);
    } else {
      CongRefl(f.p, Decode(f, y));
      CongRefl(f.p, z);
      DecodeCube(f, b.z, z);
      DecodeMul2(f, y, FieldMul(f, FieldSqr(f, b.z), b.z), Decode(f, y), z * z * z);
    }
  }

  lemma DecodeCube(f: Field, a: int, u: int)
    requires f.p > 0 && Cong(f.p, Decode(f, a), u)
    ensures Cong(f.p, Decode(f, FieldMul(f, FieldSqr(f, a), a)), u * u * u)
  {
    hide Cong, Decode, FieldMul;
    DecodeMul2(f, a, a, u, u);
    DecodeMul2(f, FieldSqr(f, a), a, u * u, u);
  }

  lemma Regroup(a: int, u: int, v: int, m: int)
    requires m == v * u
    ensures a * u * v == a * m
  {
    assert a * u * v == a * (u * v);
  }

  // Scaled by the other denominator, a point has denominator w = za*zb.
  lemma ScaledRepresents(p: nat, x: int, y: int, za: int, zb: int, ax: int, ay: int, sx: int, sy: int)
    requires p > 0 && Represents(p, x, y, za, ax, ay)
    requires Cong(p, sx, x * (zb * zb)) && Cong(p, sy, y * (zb * zb * zb))
    ensures Represents(p, sx, sy, za * zb, ax, ay)
  {
    hide Cong;
    CongScale(p, x, ax * (za * za), zb * zb);
    CongScale(p, y, ay * (za * za * za), zb * zb * zb);
    var w := za * zb;
    ProductPowers(zb, za);
    Regroup(ax, za * za, zb * zb, w * w);
    Regroup(ay, za * za * za, zb * zb * zb, w * w * w);
    CongTrans(p, sx, x * (zb * zb), ax * (w * w));
    CongTrans(p, sy, y * (zb * zb * zb), ay * (w * w * w));
  }

  // ---------- the chord formulas over decoded values ----------

  // t = s*w is the slope between the scaled points.
  lemma ScaledSlope(p: nat, x1: int, y1: int, x2: int, y2: int, s: int, w: int,
                    n1: int, n2: int, n3: int, n4: int)
    requires p > 0 && Cong(p, s * (x1 - x2), y1 - y2)
    requires Represents(p, n1, n2, w, x1, y1) && Represents(p, n3, n4, w, x2, y2)
    ensures Cong(p, (s * w) * (n1 - n3), n2 - n4)
  {
    hide Cong;
    var q := w * w;
    CongSub(p, n1, x1 * q, n3, x2 * q);
    CongScale(p, n1 - n3, x1 * q - x2 * q, s * w);
    CongScale(p, s * (x1 - x2), y1 - y2, q * w);
    CongSub(p, n2, y1 * (q * w), n4, y2 * (q * w));
    assert (x1 * q - x2 * q) * (s * w) == s * (x1 - x2) * (q * w) by {
      assert (x1 * q - x2 * q) == (x1 - x2) * q;
    }
    assert (y1 - y2) * (q * w) == y1 * (q * w) - y2 * (q * w);
    assert (n1 - n3) * (s * w) == (s * w) * (n1 - n3);
    CongSym(p, n2 - n4, (y1 - y2) * (q * w));
    CongTrans(p, (s * w) * (n1 - n3), s * (x1 - x2) * (q * w), (y1 - y2) * (q * w));
    CongTrans(p, (s * w) * (n1 - n3), (y1 - y2) * (q * w), n2 - n4);
  }

  // The third point of the scaled chord is the scaled third point.
  lemma ScaledThirdX(p: nat, x1: int, x2: int, s: int, w: int, n1: int, n3: int, rx: int)
    requires p > 0 && Cong(p, rx, s * s - x1 - x2)
    requires Cong(p, n1, x1 * (w * w)) && Cong(p, n3, x2 * (w * w))
    ensures Cong(p, (s * w) * (s * w) - n1 - n3, rx * (w * w))
  {
    hide Cong;
    var q := w * w;
    assert (s * w) * (s * w) == s * s * q;
    assert ((s * s * q) - n1 - n3) - rx * q
        == -1 * (n1 - x1 * q) + -1 * (n3 - x2 * q) + (-q) * (rx - (s * s - x1 - x2)) by {
      assert (-q) * (rx - (s * s - x1 - x2)) == -(rx * q) + s * s * q - x1 * q - x2 * q;
    }
    CongComb3(p, s * s * q - n1 - n3, rx * q, -1, n1, x1 * q, -1, n3, x2 * q, -q, rx, s * s - x1 - x2);
  }

  lemma ScaledThirdY(p: nat, x1: int, y1: int, s: int, w: int, n1: int, n2: int, rx: int, ry: int, u: int)
    requires p > 0 && Cong(p, ry, s * (x1 - rx) - y1) && Cong(p, u, rx * (w * w))
    requires Represents(p, n1, n2, w, x1, y1)
    ensures Cong(p, (s * w) * (n1 - u) - n2, ry * (w * w * w))
  {
    hide Cong;
    var q := w * w;
    var d := n1 - u;
    CongSub(p, n1, x1 * q, u, rx * q);
    var e := x1 * q - rx * q;
    var g := s * (x1 - rx) - y1;
    assert e * (s * w) == s * (x1 - rx) * (q * w) by {
      assert e == (x1 - rx) * q;
    }
    assert (q * w) * g == s * (x1 - rx) * (q * w) - y1 * (q * w);
    assert ((s * w) * d - n2) - ry * (q * w)
        == (s * w) * (d - e) + -1 * (n2 - y1 * (q * w)) + (-(q * w)) * (ry - g) by {
      assert (s * w) * (d - e) == (s * w) * d - e * (s * w);
      assert (-(q * w)) * (ry - g) == -(ry * (q * w)) + (q * w) * g;
    }
    CongComb3(p, (s * w) * d - n2, ry * (q * w), s * w, d, e, -1, n2, y1 * (q * w), -(q * w), ry, g);
  }

  // X_r = n6^2 - n5^2*(n1+n3) is n5^2 times the scaled x.
  lemma ChordX(p: nat, n1: int, n3: int, n5: int, n6: int, t: int, xr: int)
    requires p > 0 && Cong(p, t * n5, n6) && Cong(p, xr, n6 * n6 - (n1 + n3) * (n5 * n5))
    ensures Cong(p, xr, (t * t - n1 - n3) * (n5 * n5))
  {
    hide Cong;
    var q := n5 * n5;
    CongMul(p, t * n5, n6, t * n5, n6);
    assert (t * n5) * (t * n5) == t * t * q;
    assert (t * t - n1 - n3) * q == t * t * q - (n1 + n3) * q;
    CongComb2(p, xr, (t * t - n1 - n3) * q, 1, xr, n6 * n6 - (n1 + n3) * q, -1, t * t * q, n6 * n6);
  }

  // 2*Y_r = n6*n9 - (n2+n4)*n5^3 is 2*n5^3 times the scaled y.
  lemma ChordY(p: nat, n1: int, n2: int, n3: int, n4: int, n5: int, n6: int, t: int, xr: int, u: int, yr2: int)
    requires p > 0 && Cong(p, t * n5, n6) && Cong(p, n6, n2 - n4) && Cong(p, n5, n1 - n3)
    requires Cong(p, xr, u * (n5 * n5))
    requires Cong(p, yr2, ((n1 + n3) * (n5 * n5) - 2 * xr) * n6 - (n2 + n4) * (n5 * n5 * n5))
    ensures Cong(p, yr2, (2 * (t * (n1 - u) - n2)) * (n5 * n5 * n5))
  {
    hide Cong;
    var q, k := n5 * n5, n1 + n3;
    // n9 = n5^2 * (n1 + n3 - 2u)
    CongComb1(p, k * q - 2 * xr, k * q - 2 * (u * q), -2, xr, u * q);
    var m := k - 2 * u;
    assert k * q - 2 * (u * q) == m * q;
    CongSym(p, t * n5, n6);
    CongMul(p, k * q - 2 * xr, m * q, n6, t * n5);
    assert (m * q) * (t * n5) == (t * m) * (q * n5);
    var left := (k * q - 2 * xr) * n6;
    CongComb2(p, yr2, (t * m) * (q * n5) - (n2 + n4) * (q * n5),
              1, yr2, left - (n2 + n4) * (q * n5), 1, left, (t * m) * (q * n5));
    ChordYInner(p, n1, n2, n3, n4, n5, n6, t, u);
    var v := 2 * (t * (n1 - u) - n2);
    CongScale(p, t * m - (n2 + n4), v, q * n5);
    assert (t * m) * (q * n5) - (n2 + n4) * (q * n5) == (t * m - (n2 + n4)) * (q * n5);
    CongTrans(p, yr2, (t * m - (n2 + n4)) * (q * n5), v * (q * n5));
  }

  lemma ChordYInner(p: nat, n1: int, n2: int, n3: int, n4: int, n5: int, n6: int, t: int, u: int)
    requires p > 0 && Cong(p, t * n5, n6) && Cong(p, n6, n2 - n4) && Cong(p, n5, n1 - n3)
    ensures Cong(p, t * (n1 + n3 - 2 * u) - (n2 + n4), 2 * (t * (n1 - u) - n2))
  {
    hide Cong;
    assert t * (n1 + n3 - 2 * u) == t * n1 + t * n3 - 2 * (t * u);
    assert t * (n1 - u) == t * n1 - t * u;
    assert t * (n5 - (n1 - n3)) == t * n5 - t * n1 + t * n3;
    CongComb3(p, t * (n1 + n3 - 2 * u) - (n2 + n4), 2 * (t * (n1 - u) - n2),
              t, n5, n1 - n3, -1, t * n5, n6, -1, n6, n2 - n4);
  }

  // From the scaled result to the result over Z_r = w*n5.
  lemma Rescale(p: nat, w: int, n5: int, zr: int, u: int, v: int, rx: int, ry: int)
    requires p > 0 && Cong(p, zr, w * n5)
    requires Cong(p, u, rx * (w * w)) && Cong(p, v, ry * (w * w * w))
    ensures Represents(p, u * (n5 * n5), v * (n5 * n5 * n5), zr, rx, ry)
  {
    hide Cong;
    var m := w * n5;
    CongSym(p, zr, m);
    CongMul(p, m, zr, m, zr);
    CongMul(p, m * m, zr * zr, m, zr);
    ProductPowers(n5, w);
    CongScale(p, u, rx * (w * w), n5 * n5);
    CongScale(p, v, ry * (w * w * w), n5 * n5 * n5);
    Regroup(rx, w * w, n5 * n5, m * m);
    Regroup(ry, w * w * w, n5 * n5 * n5, m * m * m);
    CongScale(p, m * m, zr * zr, rx);
    CongScale(p, m * m * m, zr * zr * zr, ry);
    assert (m * m) * rx == rx * (m * m) && (zr * zr) * rx == rx * (zr * zr);
    assert (m * m * m) * ry == ry * (m * m * m) && (zr * zr * zr) * ry == ry * (zr * zr * zr);
    CongTrans(p, u * (n5 * n5), rx * (m * m), rx * (zr * zr));
    CongTrans(p, v * (n5 * n5 * n5), ry * (m * m * m), ry * (zr * zr * zr));
  }

  // The whole chord computation.
  lemma ChordFormulas(p: nat, x1: int, y1: int, x2: int, y2: int, s: int, w: int,
                      n1: int, n2: int, n3: int, n4: int, n5: int, n6: int, xr: int, yr: int, zr: int)
    requires Prime(p) && p > 3 && Cong(p, s * (x1 - x2), y1 - y2)
    requires Represents(p, n1, n2, w, x1, y1) && Represents(p, n3, n4, w, x2, y2)
    requires Cong(p, n5, n1 - n3) && Cong(p, n6, n2 - n4) && Cong(p, zr, w * n5)
    requires Cong(p, xr, n6 * n6 - (n1 + n3) * (n5 * n5))
    requires Cong(p, 2 * yr, ((n1 + n3) * (n5 * n5) - 2 * xr) * n6 - (n2 + n4) * (n5 * n5 * n5))
    ensures var r := Third(p, s, x1, y1, x2); Represents(p, xr, yr, zr, r.x, r.y)
  {
    hide Cong, Third;
    var r := Third(p, s, x1, y1, x2);
    ThirdCong(p, s, x1, y1, x2);
    ScaledSlope(p, x1, y1, x2, y2, s, w, n1, n2, n3, n4);
    var t := s * w;
    SlopeOverN5(p, t, n1, n2, n3, n4, n5, n6);
    ChordX(p, n1, n3, n5, n6, t, xr);
    var u := t * t - n1 - n3;
    ScaledThirdX(p, x1, x2, s, w, n1, n3, r.x);
    ScaledThirdY(p, x1, y1, s, w, n1, n2, r.x, r.y, u);
    ChordY(p, n1, n2, n3, n4, n5, n6, t, xr, u, 2 * yr);
    var v := t * (n1 - u) - n2;
    HalfOf(p, yr, v, n5 * n5 * n5);
    Rescale(p, w, n5, zr, u, v, r.x, r.y);
    CongTrans(p, xr, u * (n5 * n5), r.x * (zr * zr));
    CongTrans(p, yr, v * (n5 * n5 * n5), r.y * (zr * zr * zr));
  }

  lemma SlopeOverN5(p: nat, t: int, n1: int, n2: int, n3: int, n4: int, n5: int, n6: int)
    requires p > 0 && Cong(p, t * (n1 - n3), n2 - n4) && Cong(p, n5, n1 - n3) && Cong(p, n6, n2 - n4)
    ensures Cong(p, t * n5, n6)
  {
    hide Cong;
    var d := n1 - n3;
    assert t * (n5 - d) == t * n5 - t * d;
    CongComb3(p, t * n5, n6, t, n5, d, 1, t * d, n2 - n4, -1, n6, n2 - n4);
  }

  lemma HalfOf(p: nat, yr: int, v: int, m: int)
    requires Prime(p) && p > 3 && Cong(p, 2 * yr, (2 * v) * m)
    ensures Cong(p, yr, v * m)
  {
    hide Cong;
    DoubleNonzero(p, 1);
    assert (2 * v) * m == (v * m) * 2 && 2 * yr == yr * 2;
    CongCancel(p, yr, v * m, 2);
  }

  // ---------- the tangent formulas over decoded values ----------

  lemma TangentFormulas(p: nat, a: int, x: int, y: int, s: int, xa: int, ya: int, z: int,
                        n1: int, n2: int, n3: int, xr: int, yr: int, zr: int)
    requires Prime(p) && Cong(p, s * (2 * y), 3 * x * x + a)
    requires Represents(p, xa, ya, z, x, y)
    requires Cong(p, n1, 3 * (xa * xa) + a * (z * z * (z * z)))
    requires Cong(p, zr, 2 * (ya * z))
    requires Cong(p, n2, 4 * (xa * (ya * ya))) && Cong(p, n3, 8 * (ya * ya * (ya * ya)))
    requires Cong(p, xr, n1 * n1 - 2 * n2) && Cong(p, yr, n1 * (n2 - xr) - n3)
    ensures var r := Third(p, s, x, y, x); Represents(p, xr, yr, zr, r.x, r.y)
  {
    hide Cong, Third;
    var r := Third(p, s, x, y, x);
    ThirdCong(p, s, x, y, x);
    TangentZ(p, x, y, xa, ya, z, zr);
    TangentSlope(p, a, x, y, s, xa, ya, z, n1, zr);
    TangentN2(p, x, xa, ya, z, zr, n2);
    TangentN3(p, y, ya, z, zr, n3);
    TangentX(p, x, s, n1, n2, zr, xr, r.x);
    TangentY(p, x, y, s, n1, n2, n3, zr, xr, yr, r.x, r.y);
  }

  // Z_r = 2*y*Z^4
  lemma TangentZ(p: nat, x: int, y: int, xa: int, ya: int, z: int, zr: int)
    requires p > 0 && Represents(p, xa, ya, z, x, y) && Cong(p, zr, 2 * (ya * z))
    ensures Cong(p, zr, 2 * y * (z * z * (z * z)))
  {
    hide Cong;
    var q := z * z;
    assert (2 * z) * (y * (q * z)) == 2 * y * (q * q);
    assert (2 * z) * ya == 2 * (ya * z);
    CongComb2(p, zr, 2 * y * (q * q), 1, zr, 2 * (ya * z), 2 * z, ya, y * (q * z));
  }

  // n1 = s*Z_r
  lemma SquareOfProduct(x: int, q: int)
    ensures (x * q) * (x * q) == x * x * (q * q)
  {
  }

  lemma Distribute(x: int, a: int, o: int)
    ensures (3 * x * x + a) * o == 3 * (x * x * o) + a * o
  {
  }

  lemma Commute(y: int, o: int, s: int)
    ensures (2 * y * o) * s == s * (2 * y) * o
  {
  }

  lemma TangentSlope(p: nat, a: int, x: int, y: int, s: int, xa: int, ya: int, z: int, n1: int, zr: int)
    requires p > 0 && Represents(p, xa, ya, z, x, y) && Cong(p, s * (2 * y), 3 * x * x + a)
    requires Cong(p, n1, 3 * (xa * xa) + a * (z * z * (z * z)))
    requires Cong(p, zr, 2 * y * (z * z * (z * z)))
    ensures Cong(p, n1, s * zr)
  {
    hide Cong;
    var q := z * z;
    var o := q * q;
    CongMul(p, xa, x * q, xa, x * q);
    SquareOfProduct(x, q);
    CongComb2(p, n1, 3 * (x * x * o) + a * o, 1, n1, 3 * (xa * xa) + a * o, 3, xa * xa, x * x * o);
    CongScale(p, s * (2 * y), 3 * x * x + a, o);
    Distribute(x, a, o);
    CongScale(p, zr, 2 * y * o, s);
    Commute(y, o, s);
    assert zr * s == s * zr;
    CongComb3(p, n1, s * zr, 1, n1, 3 * (x * x * o) + a * o,
              -1, s * (2 * y) * o, 3 * (x * x * o) + a * o, -1, s * zr, s * (2 * y) * o);
  }

  // n2 = x*Z_r^2
  lemma TangentN2(p: nat, x: int, xa: int, ya: int, z: int, zr: int, n2: int)
    requires p > 0 && Cong(p, xa, x * (z * z)) && Cong(p, zr, 2 * (ya * z))
    requires Cong(p, n2, 4 * (xa * (ya * ya)))
    ensures Cong(p, n2, x * (zr * zr))
  {
    hide Cong;
    var m := ya * z;
    CongMul(p, zr, 2 * m, zr, 2 * m);
    assert (2 * m) * (2 * m) == 4 * (ya * ya) * (z * z) by {
      ProductPowers(z, ya);
    }
    var e := 4 * (ya * ya);
    assert x * (e * (z * z)) == e * (x * (z * z));
    assert e * xa == 4 * (xa * (ya * ya));
    CongComb3(p, n2, x * (zr * zr), 1, n2, 4 * (xa * (ya * ya)), e, xa, x * (z * z),
              -x, zr * zr, e * (z * z));
  }

  // n3 = y*Z_r^3
  lemma TangentN3(p: nat, y: int, ya: int, z: int, zr: int, n3: int)
    requires p > 0 && Cong(p, ya, y * (z * z * z)) && Cong(p, zr, 2 * (ya * z))
    requires Cong(p, n3, 8 * (ya * ya * (ya * ya)))
    ensures Cong(p, n3, y * (zr * zr * zr))
  {
    hide Cong;
    var e, k := ya * ya * ya, z * z * z;
    TangentCube(p, ya, z, zr);
    Regroup4(y, e, k, ya);
    CongComb3(p, n3, y * (zr * zr * zr), 1, n3, 8 * (ya * ya * (ya * ya)), 8 * e, ya, y * k,
              -y, zr * zr * zr, 8 * (e * k));
  }

  lemma TangentCube(p: nat, ya: int, z: int, zr: int)
    requires p > 0 && Cong(p, zr, 2 * (ya * z))
    ensures Cong(p, zr * zr * zr, 8 * ((ya * ya * ya) * (z * z * z)))
  {
    hide Cong;
    var m := ya * z;
    CongMul(p, zr, 2 * m, zr, 2 * m);
    CongMul(p, zr * zr, (2 * m) * (2 * m), zr, 2 * m);
    assert (2 * m) * (2 * m) * (2 * m) == 8 * (m * m * m);
    ProductPowers(z, ya);
  }

  lemma Regroup4(y: int, e: int, k: int, ya: int)
    requires e == ya * ya * ya
    ensures y * (8 * (e * k)) == (8 * e) * (y * k)
    ensures (8 * e) * ya == 8 * (ya * ya * (ya * ya))
  {
    assert y * (e * k) == e * (y * k);
    assert e * ya == ya * ya * (ya * ya);
  }

  lemma TangentX(p: nat, x: int, s: int, n1: int, n2: int, zr: int, xr: int, rx: int)
    requires p > 0 && Cong(p, n1, s * zr) && Cong(p, n2, x * (zr * zr))
    requires Cong(p, xr, n1 * n1 - 2 * n2) && Cong(p, rx, s * s - x - x)
    ensures Cong(p, xr, rx * (zr * zr))
  {
    hide Cong;
    var q := zr * zr;
    CongMul(p, n1, s * zr, n1, s * zr);
    assert (s * zr) * (s * zr) == s * s * q;
    CongComb3(p, xr, s * s * q - 2 * (x * q), 1, xr, n1 * n1 - 2 * n2, 1, n1 * n1, s * s * q, -2, n2, x * q);
    assert (s * s - x - x) * q == s * s * q - 2 * (x * q);
    CongScale(p, rx, s * s - x - x, q);
    CongSym(p, rx * q, (s * s - x - x) * q);
    CongTrans(p, xr, (s * s - x - x) * q, rx * q);
  }

  lemma TangentY(p: nat, x: int, y: int, s: int, n1: int, n2: int, n3: int, zr: int, xr: int, yr: int, rx: int, ry: int)
    requires p > 0 && Cong(p, n1, s * zr) && Cong(p, n2, x * (zr * zr)) && Cong(p, n3, y * (zr * zr * zr))
    requires Cong(p, xr, rx * (zr * zr)) && Cong(p, yr, n1 * (n2 - xr) - n3)
    requires Cong(p, ry, s * (x - rx) - y)
    ensures Cong(p, yr, ry * (zr * zr * zr))
  {
    hide Cong;
    var q := zr * zr;
    var k := q * zr;
    CongSub(p, n2, x * q, xr, rx * q);
    CongMul(p, n1, s * zr, n2 - xr, x * q - rx * q);
    assert (s * zr) * (x * q - rx * q) == s * (x - rx) * k by {
      assert x * q - rx * q == (x - rx) * q;
    }
    CongComb3(p, yr, s * (x - rx) * k - y * k, 1, yr, n1 * (n2 - xr) - n3,
              1, n1 * (n2 - xr), s * (x - rx) * k, -1, n3, y * k);
    CongScale(p, ry, s * (x - rx) - y, k);
    assert (s * (x - rx) - y) * k == s * (x - rx) * k - y * k;
    CongSym(p, ry * k, s * (x - rx) * k - y * k);
    CongTrans(p, yr, s * (x - rx) * k - y * k, ry * k);
  }

  // ---------- ec_GFp_simple_dbl ----------

  /** The slope numerator n1, by its three branches. */
  function DblN1(c: Curve, a: Jac): (n: nat)
    requires c.f.p > 0 && a.x < c.f.p && a.z < c.f.p && c.a < c.f.p
    ensures n < c.f.p
  {
    var f, p := c.f, c.f.p;
    if a.zIsOne then
      var n0 := FieldSqr(f, a.x);
      ModAddQuick(ModAddQuick(n0, ModDblQuick(n0, p), p), c.a, p)
    else if c.aIsMinus3 then
      var n1 := FieldSqr(f, a.z);
      var n := FieldMul(f, ModAddQuick(a.x, n1, p), ModSubQuick(a.x, n1, p));
      ModAddQuick(ModDblQuick(n, p), n, p)
    else
      var n0 := FieldSqr(f, a.x);
      var n1 := FieldSqr(f, FieldSqr(f, a.z));
      ModAddQuick(FieldMul(f, n1, c.a), ModAddQuick(n0, ModDblQuick(n0, p), p), p)
  }

  lemma DecodeDbl2(f: Field, a: int, u: int)
    requires f.p > 0 && Cong(f.p, Decode(f, a), u)
    ensures Cong(f.p, Decode(f, ModDblQuick(a, f.p)), 2 * u)
  {
    hide Cong, Decode, ModAddQuick;
    DecodeAdd2(f, a, a, u, u);
    assert u + u == 2 * u;
  }

  // 3*x^2 from two additions.
  lemma DecodeTriple(f: Field, n: int, u: int)
    requires f.p > 0 && Cong(f.p, Decode(f, n), u)
    ensures Cong(f.p, Decode(f, ModAddQuick(n, ModDblQuick(n, f.p), f.p)), 3 * u)
    ensures Cong(f.p, Decode(f, ModAddQuick(ModDblQuick(n, f.p), n, f.p)), 3 * u)
  {
    hide Cong, Decode, ModAddQuick, ModDblQuick;
    DecodeDbl2(f, n, u);
    DecodeAdd2(f, n, ModDblQuick(n, f.p), u, 2 * u);
    DecodeAdd2(f, ModDblQuick(n, f.p), n, 2 * u, u);
    assert u + 2 * u == 3 * u && 2 * u + u == 3 * u;
  }

  lemma DblN1Correct(c: Curve, a: Jac)
    requires ValidCurve(c) && ValidJac(c, a) && a.z != 0
    ensures var x, z := Decode(c.f, a.x), Decode(c.f, a.z);
      Cong(c.f.p, Decode(c.f, DblN1(c, a)), 3 * (x * x) + CoefA(c) * (z * z * (z * z)))
  {
    if a.zIsOne {
      DblN1One(c, a);
    } else if c.aIsMinus3 {
      DblN1Minus3(c, a);
    } else {
      DblN1General(c, a);
    }
  }

  lemma DblN1One(c: Curve, a: Jac)
    requires ValidCurve(c) && ValidJac(c, a) && a.zIsOne && a.z != 0
    ensures var x, z := Decode(c.f, a.x), Decode(c.f, a.z);
      Cong(c.f.p, Decode(c.f, DblN1(c, a)), 3 * (x * x) + CoefA(c) * (z * z * (z * z)))
  {
    hide Cong, Decode, FieldMul, ModAddQuick, ModDblQuick;
    var f, p := c.f, c.f.p;
    var x := Decode(f, a.x);
    DecodeOne(f);
    CongRefl(p, x);
    CongRefl(p, CoefA(c));
    var n0 := FieldSqr(f, a.x);
    DecodeMul2(f, a.x, a.x, x, x);
    DecodeTriple(f, n0, x * x);
    var n := ModAddQuick(n0, ModDblQuick(n0, p), p);
    DecodeAdd2(f, n, c.a, 3 * (x * x), CoefA(c));
    assert CoefA(c) * (1 * 1 * (1 * 1)) == CoefA(c);
  }

  lemma DblN1Minus3(c: Curve, a: Jac)
    requires ValidCurve(c) && ValidJac(c, a) && !a.zIsOne && c.aIsMinus3
    ensures var x, z := Decode(c.f, a.x), Decode(c.f, a.z);
      Cong(c.f.p, Decode(c.f, DblN1(c, a)), 3 * (x * x) + CoefA(c) * (z * z * (z * z)))
  {
    hide Cong, Decode, FieldMul, ModAddQuick, ModSubQuick, ModDblQuick;
    var f, p := c.f, c.f.p;
    var x: int, z: int := Decode(f, a.x), Decode(f, a.z);
    var q := z * z;
    CongRefl(p, x);
    CongRefl(p, z);
    var n1 := FieldSqr(f, a.z);
    DecodeMul2(f, a.z, a.z, z, z);
    DecodeAdd2(f, a.x, n1, x, q);
    DecodeSub2(f, a.x, n1, x, q);
    var n := FieldMul(f, ModAddQuick(a.x, n1, p), ModSubQuick(a.x, n1, p));
    DecodeMul2(f, ModAddQuick(a.x, n1, p), ModSubQuick(a.x, n1, p), x + q, x - q);
    var w := (x + q) * (x - q);
    DecodeTriple(f, n, w);
    Minus3Coef(c, x, q);
    CongTrans(p, Decode(f, DblN1(c, a)), 3 * w, 3 * (x * x) + CoefA(c) * (q * q));
  }

  lemma Minus3Coef(c: Curve, x: int, q: int)
    requires ValidCurve(c) && c.aIsMinus3
    ensures Cong(c.f.p, 3 * ((x + q) * (x - q)), 3 * (x * x) + CoefA(c) * (q * q))
  {
    hide Cong, Decode;
    var p, A: int := c.f.p, CoefA(c);
    CongIntro(p, A, -3, 1);
    assert (x + q) * (x - q) == x * x - q * q;
    var o := q * q;
    assert (-o) * (A - (-3)) == -(A * o) - 3 * o;
    CongComb1(p, 3 * (x * x) - 3 * o, 3 * (x * x) + A * o, -o, A, -3);
  }

  lemma DblN1General(c: Curve, a: Jac)
    requires ValidCurve(c) && ValidJac(c, a) && !a.zIsOne && !c.aIsMinus3
    ensures var x, z := Decode(c.f, a.x), Decode(c.f, a.z);
      Cong(c.f.p, Decode(c.f, DblN1(c, a)), 3 * (x * x) + CoefA(c) * (z * z * (z * z)))
  {
    hide Cong, Decode, FieldMul, ModAddQuick, ModDblQuick;
    var f, p := c.f, c.f.p;
    var x, z := Decode(f, a.x), Decode(f, a.z);
    var q := z * z;
    CongRefl(p, x);
    CongRefl(p, z);
    CongRefl(p, CoefA(c));
    var n0 := FieldSqr(f, a.x);
    DecodeMul2(f, a.x, a.x, x, x);
    DecodeTriple(f, n0, x * x);
    var t := FieldSqr(f, a.z);
    DecodeMul2(f, a.z, a.z, z, z);
    var n1 := FieldSqr(f, t);
    DecodeMul2(f, t, t, q, q);
    DecodeMul2(f, n1, c.a, q * q, CoefA(c));
    var n := FieldMul(f, n1, c.a);
    var m := ModAddQuick(n0, ModDblQuick(n0, p), p);
    DecodeAdd2(f, n, m, q * q * CoefA(c), 3 * (x * x));
    assert q * q * CoefA(c) == CoefA(c) * (q * q);
  }

  /** The coordinates that ec_GFp_simple_dbl leaves in r; r0 is what r held before. */
  function JacDbl(c: Curve, r0: Jac, a: Jac): Jac
    requires c.f.p > 0 && a.x < c.f.p && a.y < c.f.p && a.z < c.f.p && c.a < c.f.p
  {
    if a.z == 0 then Jac(r0.x, r0.y, 0, false)
    else
      var f, p := c.f, c.f.p;
      var n1 := DblN1(c, a);
      var z := ModDblQuick(if a.zIsOne then a.y else FieldMul(f, a.y, a.z), p);
      var y2 := FieldSqr(f, a.y);
      var n2 := ModDblQuick(ModDblQuick(FieldMul(f, a.x, y2), p), p);
      var x := ModSubQuick(FieldSqr(f, n1), ModDblQuick(n2, p), p);
      var n3 := ModDblQuick(ModDblQuick(ModDblQuick(FieldSqr(f, y2), p), p), p);
      var y := ModSubQuick(FieldMul(f, n1, ModSubQuick(n2, x, p)), n3, p);
      Jac(x, y, z, false)
  }

  lemma DblZ(c: Curve, a: Jac)
    requires ValidCurve(c) && ValidJac(c, a) && a.z != 0
    ensures var n := if a.zIsOne then a.y else FieldMul(c.f, a.y, a.z);
      Cong(c.f.p, Decode(c.f, ModDblQuick(n, c.f.p)), 2 * (Decode(c.f, a.y) * Decode(c.f, a.z)))
  {
    hide Cong, Decode, FieldMul, ModDblQuick;
    var f, y, z := c.f, Decode(c.f, a.y), Decode(c.f, a.z);
    CongRefl(f.p, y);
    CongRefl(f.p, z);
    if a.zIsOne {
      DecodeOne(f);
      TimesOne(y, z);
      DecodeDbl2(f, a.y, y);
    } else {
      DblProduct(f, a.y, a.z, y, z);
    }
  }

  lemma TimesOne(y: int, z: int)
    requires z == 1
    ensures y * z == y
  {
  }

  lemma DblProduct(f: Field, a: int, b: int, y: int, z: int)
    requires f.p > 0 && Cong(f.p, Decode(f, a), y) && Cong(f.p, Decode(f, b), z)
    ensures Cong(f.p, Decode(f, ModDblQuick(FieldMul(f, a, b), f.p)), 2 * (y * z))
  {
    hide Cong, Decode, FieldMul, ModDblQuick;
    DecodeMul2(f, a, b, y, z);
    DecodeDbl2(f, FieldMul(f, a, b), y * z);
  }

  lemma FourTimes(f: Field, n: int, u: int)
    requires f.p > 0 && Cong(f.p, Decode(f, n), u)
    ensures Cong(f.p, Decode(f, ModDblQuick(ModDblQuick(n, f.p), f.p)), 4 * u)
  {
    hide Cong, Decode, ModDblQuick;
    DecodeDbl2(f, n, u);
    DecodeDbl2(f, ModDblQuick(n, f.p), 2 * u);
  }

  lemma EightTimes(f: Field, n: int, u: int)
    requires f.p > 0 && Cong(f.p, Decode(f, n), u)
    ensures Cong(f.p, Decode(f, ModDblQuick(ModDblQuick(ModDblQuick(n, f.p), f.p), f.p)), 8 * u)
  {
    hide Cong, Decode, ModDblQuick;
    FourTimes(f, n, u);
    DecodeDbl2(f, ModDblQuick(ModDblQuick(n, f.p), f.p), 4 * u);
  }

  lemma DblN2(f: Field, ax: int, ay: int, x: int, y: int)
    requires f.p > 0 && Cong(f.p, Decode(f, ax), x) && Cong(f.p, Decode(f, ay), y)
    ensures Cong(f.p, Decode(f, ModDblQuick(ModDblQuick(FieldMul(f, ax, FieldSqr(f, ay)), f.p), f.p)), 4 * (x * (y * y)))
  {
    hide Cong, Decode, FieldMul, ModDblQuick;
    DecodeMul2(f, ay, ay, y, y);
    DecodeMul2(f, ax, FieldSqr(f, ay), x, y * y);
    FourTimes(f, FieldMul(f, ax, FieldSqr(f, ay)), x * (y * y));
  }

  lemma DblN3(f: Field, ay: int, y: int)
    requires f.p > 0 && Cong(f.p, Decode(f, ay), y)
    ensures Cong(f.p, Decode(f, ModDblQuick(ModDblQuick(ModDblQuick(FieldSqr(f, FieldSqr(f, ay)), f.p), f.p), f.p)),
                 8 * (y * y * (y * y)))
  {
    hide Cong, Decode, FieldMul, ModDblQuick;
    DecodeMul2(f, ay, ay, y, y);
    DecodeMul2(f, FieldSqr(f, ay), FieldSqr(f, ay), y * y, y * y);
    EightTimes(f, FieldSqr(f, FieldSqr(f, ay)), y * y * (y * y));
  }

  lemma DblN2N3(c: Curve, a: Jac)
    requires ValidCurve(c) && ValidJac(c, a)
    ensures var f, p, x, y := c.f, c.f.p, Decode(c.f, a.x), Decode(c.f, a.y);
      var y2 := FieldSqr(f, a.y);
      && Cong(p, Decode(f, ModDblQuick(ModDblQuick(FieldMul(f, a.x, y2), p), p)), 4 * (x * (y * y)))
      && Cong(p, Decode(f, ModDblQuick(ModDblQuick(ModDblQuick(FieldSqr(f, y2), p), p), p)), 8 * (y * y * (y * y)))
  {
    hide Cong, Decode, FieldMul, FieldSqr, ModDblQuick, ValidJac;
    var f, x, y := c.f, Decode(c.f, a.x), Decode(c.f, a.y);
    CongRefl(f.p, x);
    CongRefl(f.p, y);
    DblN2(f, a.x, a.y, x, y);
    DblN3(f, a.y, y);
  }

  // X_r and Y_r from n1, n2 and n3.
  lemma DblXY(f: Field, n1: int, n2: int, n3: int)
    requires f.p > 0
    ensures var p := f.p;
      var x := ModSubQuick(FieldSqr(f, n1), ModDblQuick(n2, p), p);
      var y := ModSubQuick(FieldMul(f, n1, ModSubQuick(n2, x, p)), n3, p);
      var N1: int, N2: int, N3: int, X: int := Decode(f, n1), Decode(f, n2), Decode(f, n3), Decode(f, x);
      Cong(p, X, N1 * N1 - 2 * N2) && Cong(p, Decode(f, y), N1 * (N2 - X) - N3)
  {
    hide Cong, Decode, FieldMul, ModDblQuick, ModSubQuick;
    var p := f.p;
    var x := ModSubQuick(FieldSqr(f, n1), ModDblQuick(n2, p), p);
    var N1: int, N2: int, N3: int, X: int := Decode(f, n1), Decode(f, n2), Decode(f, n3), Decode(f, x);
    CongRefl(p, N1);
    CongRefl(p, N2);
    CongRefl(p, N3);
    CongRefl(p, X);
    DecodeMul2(f, n1, n1, N1, N1);
    DecodeDbl2(f, n2, N2);
    DecodeSub2(f, FieldSqr(f, n1), ModDblQuick(n2, p), N1 * N1, 2 * N2);
    DecodeSub2(f, n2, x, N2, X);
    var d := ModSubQuick(n2, x, p);
    DecodeMul2(f, n1, d, N1, N2 - X);
    DecodeSub2(f, FieldMul(f, n1, d), n3, N1 * (N2 - X), N3);
  }

  // Doubling a finite point that is not its own inverse.
  lemma DblFinite(c: Curve, r0: Jac, a: Jac, P: Affine)
    requires ValidCurve(c) && ValidJac(c, a) && a.z != 0 && P.Aff? && P.x < c.f.p && 0 < P.y < c.f.p
    requires RepresentsJac(c, a, P.x, P.y)
    ensures var j := JacDbl(c, r0, a);
      && j.x < c.f.p && j.y < c.f.p && j.z < c.f.p
      && RepresentsJac(c, j, AffAdd(c, P, P).x, AffAdd(c, P, P).y)
  {
    hide Cong, Decode, FieldMul, ModDblQuick, ModSubQuick, DblN1, Represents, Third, Slope;
    var f, p := c.f, c.f.p;
    var num := 3 * P.x * P.x + CoefA(c);
    DoubleNonzero(p, P.y);
    SlopeCong(p, num, 2 * P.y);
    DblN1Correct(c, a);
    DblZ(c, a);
    DblN2N3(c, a);
    var n1 := DblN1(c, a);
    var y2 := FieldSqr(f, a.y);
    var n2 := ModDblQuick(ModDblQuick(FieldMul(f, a.x, y2), p), p);
    var n3 := ModDblQuick(ModDblQuick(ModDblQuick(FieldSqr(f, y2), p), p), p);
    DblXY(f, n1, n2, n3);
    var j := JacDbl(c, r0, a);
    TangentFormulas(p, CoefA(c), P.x, P.y, Slope(p, num, 2 * P.y),
                    Decode(f, a.x), Decode(f, a.y), Decode(f, a.z),
                    Decode(f, n1), Decode(f, n2), Decode(f, n3),
                    Decode(f, j.x), Decode(f, j.y), Decode(f, j.z));
  }

  // A finite point has affine y zero exactly when its Jacobian Y is zero.
  lemma YZero(c: Curve, a: Jac, P: Affine)
    requires ValidCurve(c) && ValidJac(c, a) && a.z != 0 && P.Aff? && P.y < c.f.p
    requires RepresentsJac(c, a, P.x, P.y)
    ensures P.y == 0 <==> a.y == 0
  {
    hide Cong, Decode;
    var f, p := c.f, c.f.p;
    var y: int, z: int := Decode(f, a.y), Decode(f, a.z);
    ZNonzero(f, a.z);
    ZNonzero(f, a.y);
    CubeNonzero(p, z);
    var k := z * z * z;
    if P.y == 0 {
      assert P.y * k == 0;
    }
    if a.y == 0 {
      CongSym(p, y, P.y * k);
      CongTrans(p, P.y * k, y, 0);
      CongProductZero(p, P.y, k);
      CongResidues(p, P.y, 0);
    }
  }

  /** ec_GFp_simple_dbl computes the affine double. */
  lemma JacDblCorrect(c: Curve, r0: Jac, a: Jac)
    requires ValidCurve(c) && ValidJac(c, a) && ValidJac(c, r0)
    ensures ValidJac(c, JacDbl(c, r0, a))
    ensures ToAffine(c, JacDbl(c, r0, a)) == AffAdd(c, ToAffine(c, a), ToAffine(c, a))
  {
    hide Cong, Decode, FieldMul, ModDblQuick, ModSubQuick, DblN1, Represents, Third, Slope;
    if a.z != 0 {
      var P := ToAffine(c, a);
      var j := JacDbl(c, r0, a);
      ToAffineElim(c, a);
      YZero(c, a, P);
      DblN1Correct(c, a);
      DblZIsZero(c, a);
      if P.y != 0 {
        DblFinite(c, r0, a, P);
        var Q := AffAdd(c, P, P);
        ToAffineIntro(c, j, Q.x, Q.y);
      }
    }
  }

  // Z_r = 2*Y*Z vanishes exactly when Y does.
  lemma DblZIsZero(c: Curve, a: Jac)
    requires ValidCurve(c) && ValidJac(c, a) && a.z != 0
    ensures var n := if a.zIsOne then a.y else FieldMul(c.f, a.y, a.z);
      ModDblQuick(n, c.f.p) == 0 <==> a.y == 0
  {
    hide Cong, Decode, FieldMul, ModDblQuick, Prime;
    var f, p := c.f, c.f.p;
    var y: int, z: int := Decode(f, a.y), Decode(f, a.z);
    var n := if a.zIsOne then a.y else FieldMul(f, a.y, a.z);
    var m := ModDblQuick(n, p);
    DblZ(c, a);
    ZNonzero(f, a.z);
    ZNonzero(f, a.y);
    ZNonzero(f, m);
    DoubleNonzero(p, 1);
    TwiceProductZero(p, Decode(f, m), y, z);
  }

  // Twice a product is zero exactly if its first factor is, when the second is not.
  lemma TwiceProductZero(p: nat, d: int, y: int, z: int)
    requires p > 0 && Prime(p) && !Cong(p, 2, 0) && !Cong(p, z, 0) && Cong(p, d, 2 * (y * z))
    ensures Cong(p, d, 0) <==> Cong(p, y, 0)
  {
    hide Cong, Prime;
    if Cong(p, d, 0) {
      CongSym(p, d, 2 * (y * z));
      CongTrans(p, 2 * (y * z), d, 0);
      CongProductZero(p, 2, y * z);
      CongProductZero(p, y, z);
    }
    if Cong(p, y, 0) {
      CongScale(p, y, 0, 2 * z);
      assert y * (2 * z) == 2 * (y * z) && 0 * (2 * z) == 0;
      CongTrans(p, d, 2 * (y * z), 0);
    }
  }

  // ---------- ec_GFp_simple_add ----------

  /** Z_r = Z_a*Z_b*n5, by the cases of Z_is_one. */
  function AddZr(f: Field, a: Jac, b: Jac, n5: nat): (z: nat)
    requires f.p > 0
    ensures n5 < f.p ==> z < f.p
  {
    if a.zIsOne && b.zIsOne then n5
    else FieldMul(f, if a.zIsOne then b.z else if b.zIsOne then a.z else FieldMul(f, a.z, b.z), n5)
  }

  /** X_r and Y_r, from n1..n6. */
  function AddXr(f: Field, n1: int, n3: int, n5: int, n6: int): (x: nat)
    requires f.p > 0
    ensures x < f.p
  {
    ModSubQuick(FieldSqr(f, n6), FieldMul(f, ModAddQuick(n1, n3, f.p), FieldSqr(f, n5)), f.p)
  }

  function AddYr2(f: Field, n1: int, n2: int, n3: int, n4: int, n5: int, n6: int): (y: nat)
    requires f.p > 0
    ensures y < f.p
  {
    var p := f.p;
    var q := FieldSqr(f, n5);
    var k := FieldMul(f, ModAddQuick(n1, n3, p), q);
    var n9 := ModSubQuick(k, ModDblQuick(AddXr(f, n1, n3, n5, n6), p), p);
    ModSubQuick(FieldMul(f, n9, n6), FieldMul(f, ModAddQuick(n2, n4, p), FieldMul(f, q, n5)), p)
  }

  /** The coordinates that ec_GFp_simple_add leaves in r, for distinct point objects a and b. */
  function JacAdd(c: Curve, r0: Jac, a: Jac, b: Jac): Jac
    requires c.f.p > 0 && c.a < c.f.p
    requires a.x < c.f.p && a.y < c.f.p && a.z < c.f.p && b.x < c.f.p && b.y < c.f.p && b.z < c.f.p
  {
    if a.z == 0 then b
    else if b.z == 0 then a
    else
      var f, p := c.f, c.f.p;
      var n1, n2 := ScaledX(f, a.x, b), ScaledY(f, a.y, b);
      var n3, n4 := ScaledX(f, b.x, a), ScaledY(f, b.y, a);
      var n5, n6 := ModSubQuick(n1, n3, p), ModSubQuick(n2, n4, p);
      if n5 == 0 then
        if n6 == 0 then JacDbl(c, r0, a) else Jac(r0.x, r0.y, 0, false)
      else
        Jac(AddXr(f, n1, n3, n5, n6), Halve(f, AddYr2(f, n1, n2, n3, n4, n5, n6)), AddZr(f, a, b, n5), false)
  }

  lemma AddXYDecode(f: Field, n1: int, n2: int, n3: int, n4: int, n5: int, n6: int)
    requires f.p > 0
    ensures var N1: int, N3: int, N5: int, N6: int :=
        Decode(f, n1), Decode(f, n3), Decode(f, n5), Decode(f, n6);
      Cong(f.p, Decode(f, AddXr(f, n1, n3, n5, n6)), N6 * N6 - (N1 + N3) * (N5 * N5))
    ensures var N1: int, N2: int, N3: int, N4: int, N5: int, N6: int, X: int :=
        Decode(f, n1), Decode(f, n2), Decode(f, n3), Decode(f, n4), Decode(f, n5), Decode(f, n6),
        Decode(f, AddXr(f, n1, n3, n5, n6));
      Cong(f.p, Decode(f, AddYr2(f, n1, n2, n3, n4, n5, n6)),
           ((N1 + N3) * (N5 * N5) - 2 * X) * N6 - (N2 + N4) * (N5 * N5 * N5))
  {
    hide Cong, Decode, FieldMul, ModAddQuick, ModSubQuick, ModDblQuick;
    var p := f.p;
    var N1: int, N2: int, N3: int, N4: int, N5: int, N6: int :=
      Decode(f, n1), Decode(f, n2), Decode(f, n3), Decode(f, n4), Decode(f, n5), Decode(f, n6);
    CongRefl(p, N1);
    CongRefl(p, N2);
    CongRefl(p, N3);
    CongRefl(p, N4);
    CongRefl(p, N5);
    CongRefl(p, N6);
    var q, n7, n8 := FieldSqr(f, n5), ModAddQuick(n1, n3, p), ModAddQuick(n2, n4, p);
    DecodeMul2(f, n5, n5, N5, N5);
    DecodeMul2(f, n6, n6, N6, N6);
    DecodeAdd2(f, n1, n3, N1, N3);
    DecodeAdd2(f, n2, n4, N2, N4);
    var k := FieldMul(f, n7, q);
    var K := (N1 + N3) * (N5 * N5);
    DecodeMul2(f, n7, q, N1 + N3, N5 * N5);
    DecodeSub2(f, FieldSqr(f, n6), k, N6 * N6, K);
    AddYDecode(f, k, AddXr(f, n1, n3, n5, n6), n6, n8, q, n5, K, N6, N2 + N4, N5 * N5, N5);
  }

  lemma AddYDecode(f: Field, k: int, x: int, n6: int, n8: int, q: int, n5: int,
                   K: int, N6: int, N8: int, Q: int, N5: int)
    requires f.p > 0 && Cong(f.p, Decode(f, k), K) && Cong(f.p, Decode(f, n6), N6)
    requires Cong(f.p, Decode(f, n8), N8) && Cong(f.p, Decode(f, q), Q) && Cong(f.p, Decode(f, n5), N5)
    ensures var p, X: int := f.p, Decode(f, x);
      Cong(p, Decode(f, ModSubQuick(FieldMul(f, ModSubQuick(k, ModDblQuick(x, p), p), n6),
                                    FieldMul(f, n8, FieldMul(f, q, n5)), p)),
           (K - 2 * X) * N6 - N8 * (Q * N5))
  {
    hide Cong, Decode, FieldMul, ModSubQuick, ModDblQuick;
    var p, X: int := f.p, Decode(f, x);
    CongRefl(p, X);
    DecodeDbl2(f, x, X);
    DecodeSub2(f, k, ModDblQuick(x, p), K, 2 * X);
    var n9 := ModSubQuick(k, ModDblQuick(x, p), p);
    DecodeMul2(f, n9, n6, K - 2 * X, N6);
    DecodeMul2(f, q, n5, Q, N5);
    DecodeMul2(f, n8, FieldMul(f, q, n5), N8, Q * N5);
    DecodeSub2(f, FieldMul(f, n9, n6), FieldMul(f, n8, FieldMul(f, q, n5)), (K - 2 * X) * N6, N8 * (Q * N5));
  }

  lemma AddZDecode(c: Curve, a: Jac, b: Jac, n5: nat)
    requires ValidCurve(c) && ValidJac(c, a) && ValidJac(c, b) && a.z != 0 && b.z != 0
    ensures Cong(c.f.p, Decode(c.f, AddZr(c.f, a, b, n5)),
                 Decode(c.f, a.z) * Decode(c.f, b.z) * Decode(c.f, n5))
  {
    hide Cong, Decode, FieldMul;
    var f := c.f;
    var za: int, zb: int, N5: int := Decode(f, a.z), Decode(f, b.z), Decode(f, n5);
    CongRefl(f.p, za);
    CongRefl(f.p, zb);
    CongRefl(f.p, N5);
    DecodeOne(f);
    if !a.zIsOne || !b.zIsOne {
      if a.zIsOne {
        DecodeMul2(f, b.z, n5, zb, N5);
      } else if b.zIsOne {
        DecodeMul2(f, a.z, n5, za, N5);
      } else {
        DecodeMul2(f, a.z, b.z, za, zb);
        DecodeMul2(f, FieldMul(f, a.z, b.z), n5, za * zb, N5);
      }
    }
  }

  // The scaled coordinates of both points over the common denominator.
  lemma AddScaled(c: Curve, a: Jac, b: Jac, P: Affine)
    requires ValidCurve(c) && ValidJac(c, a) && ValidJac(c, b) && b.z != 0 && P.Aff?
    requires RepresentsJac(c, a, P.x, P.y)
    ensures Represents(c.f.p, Decode(c.f, ScaledX(c.f, a.x, b)), Decode(c.f, ScaledY(c.f, a.y, b)),
                       Decode(c.f, a.z) * Decode(c.f, b.z), P.x, P.y)
  {
    hide Cong, Decode, ScaledX, ScaledY, Represents;
    var f := c.f;
    ScaledXCorrect(c, a.x, b);
    ScaledYCorrect(c, a.y, b);
    ScaledRepresents(f.p, Decode(f, a.x), Decode(f, a.y), Decode(f, a.z), Decode(f, b.z), P.x, P.y,
                     Decode(f, ScaledX(f, a.x, b)), Decode(f, ScaledY(f, a.y, b)));
  }

  // Two scaled values differ exactly when the affine ones do.
  lemma ScaledDifference(f: Field, n1: nat, n3: nat, u: nat, v: nat, m: int)
    requires ValidField(f) && n1 < f.p && n3 < f.p && u < f.p && v < f.p && !Cong(f.p, m, 0)
    requires Cong(f.p, Decode(f, n1), u * m) && Cong(f.p, Decode(f, n3), v * m)
    ensures ModSubQuick(n1, n3, f.p) == 0 <==> u == v
  {
    hide Cong, Decode;
    var p := f.p;
    if n1 == n3 {
      CongSym(p, Decode(f, n1), u * m);
      CongTrans(p, u * m, Decode(f, n1), v * m);
      CongCancel(p, u, v, m);
      CongResidues(p, u, v);
    }
    if u == v {
      CongSym(p, Decode(f, n3), v * m);
      CongTrans(p, Decode(f, n1), u * m, Decode(f, n3));
      CongResidues(p, Decode(f, n1), Decode(f, n3));
      DecodeInjective(f, n1, n3);
    }
  }

  lemma AddDifferences(c: Curve, a: Jac, b: Jac, P: Affine, Q: Affine)
    requires ValidCurve(c) && ValidJac(c, a) && ValidJac(c, b) && a.z != 0 && b.z != 0 && P.Aff? && Q.Aff?
    requires P.x < c.f.p && P.y < c.f.p && Q.x < c.f.p && Q.y < c.f.p
    requires RepresentsJac(c, a, P.x, P.y) && RepresentsJac(c, b, Q.x, Q.y)
    ensures ModSubQuick(ScaledX(c.f, a.x, b), ScaledX(c.f, b.x, a), c.f.p) == 0 <==> P.x == Q.x
    ensures ModSubQuick(ScaledY(c.f, a.y, b), ScaledY(c.f, b.y, a), c.f.p) == 0 <==> P.y == Q.y
  {
    hide Cong, Decode, ScaledX, ScaledY, ModSubQuick;
    var f, p := c.f, c.f.p;
    var za: int, zb: int := Decode(f, a.z), Decode(f, b.z);
    var w := za * zb;
    AddScaled(c, a, b, P);
    AddScaled(c, b, a, Q);
    assert zb * za == w;
    ZNonzero(f, a.z);
    ZNonzero(f, b.z);
    if Cong(p, w, 0) {
      CongProductZero(p, za, zb);
    }
    CubeNonzero(p, w);
    ScaledDifference(f, ScaledX(f, a.x, b), ScaledX(f, b.x, a), P.x, Q.x, w * w);
    ScaledDifference(f, ScaledY(f, a.y, b), ScaledY(f, b.y, a), P.y, Q.y, w * w * w);
  }

  lemma AddZNonzero(c: Curve, a: Jac, b: Jac, n5: nat)
    requires ValidCurve(c) && ValidJac(c, a) && ValidJac(c, b) && a.z != 0 && b.z != 0 && 0 < n5 < c.f.p
    ensures AddZr(c.f, a, b, n5) != 0
  {
    hide Cong, Decode, AddZr;
    var f, p := c.f, c.f.p;
    var za: int, zb: int, N5: int, Z: int := Decode(f, a.z), Decode(f, b.z), Decode(f, n5), Decode(f, AddZr(f, a, b, n5));
    AddZDecode(c, a, b, n5);
    ZNonzero(f, a.z);
    ZNonzero(f, b.z);
    ZNonzero(f, n5);
    ZNonzero(f, AddZr(f, a, b, n5));
    if Cong(p, Z, 0) {
      CongSym(p, Z, za * zb * N5);
      CongTrans(p, za * zb * N5, Z, 0);
      CongProductZero(p, za * zb, N5);
      CongProductZero(p, za, zb);
    }
  }

  // X_r, Y_r and Z_r over two points with a common denominator w.
  lemma AddOverCommon(f: Field, w: int, P: Affine, Q: Affine, s: int, zr: int,
                      n1: int, n2: int, n3: int, n4: int)
    requires ValidField(f) && P.Aff? && Q.Aff? && Cong(f.p, s * (P.x - Q.x), P.y - Q.y)
    requires Represents(f.p, Decode(f, n1), Decode(f, n2), w, P.x, P.y)
    requires Represents(f.p, Decode(f, n3), Decode(f, n4), w, Q.x, Q.y)
    requires Cong(f.p, zr, w * Decode(f, ModSubQuick(n1, n3, f.p)))
    ensures var n5, n6 := ModSubQuick(n1, n3, f.p), ModSubQuick(n2, n4, f.p);
      var r := Third(f.p, s, P.x, P.y, Q.x);
      Represents(f.p, Decode(f, AddXr(f, n1, n3, n5, n6)),
                 Decode(f, Halve(f, AddYr2(f, n1, n2, n3, n4, n5, n6))), zr, r.x, r.y)
  {
    hide Cong, Decode, ModSubQuick, AddXr, AddYr2, Halve, Third, Represents;
    var p := f.p;
    var n5, n6 := ModSubQuick(n1, n3, p), ModSubQuick(n2, n4, p);
    DecodeSub(f, n1, n3);
    DecodeSub(f, n2, n4);
    AddXYDecode(f, n1, n2, n3, n4, n5, n6);
    var y2 := AddYr2(f, n1, n2, n3, n4, n5, n6);
    var X: int, Y: int := Decode(f, AddXr(f, n1, n3, n5, n6)), Decode(f, Halve(f, y2));
    var N1: int, N2: int, N3: int, N4: int, N5: int, N6: int :=
      Decode(f, n1), Decode(f, n2), Decode(f, n3), Decode(f, n4), Decode(f, n5), Decode(f, n6);
    DecodeHalve(f, y2);
    CongTrans(p, 2 * Y, Decode(f, y2), ((N1 + N3) * (N5 * N5) - 2 * X) * N6 - (N2 + N4) * (N5 * N5 * N5));
    ChordFormulas(p, P.x, P.y, Q.x, Q.y, s, w, N1, N2, N3, N4, N5, N6, X, Y, zr);
  }

  // Adding two finite points with different x.
  lemma AddFinite(c: Curve, r0: Jac, a: Jac, b: Jac, P: Affine, Q: Affine)
    requires ValidCurve(c) && ValidJac(c, a) && ValidJac(c, b) && a.z != 0 && b.z != 0 && P.Aff? && Q.Aff?
    requires P.x < c.f.p && P.y < c.f.p && Q.x < c.f.p && Q.y < c.f.p && P.x != Q.x
    requires RepresentsJac(c, a, P.x, P.y) && RepresentsJac(c, b, Q.x, Q.y)
    ensures var j := JacAdd(c, r0, a, b);
      && j.z != 0
      && RepresentsJac(c, j, AffAdd(c, P, Q).x, AffAdd(c, P, Q).y)
  {
    hide Cong, Decode, ScaledX, ScaledY, ModSubQuick, AddZr, AddXr, AddYr2, Halve, Third, Slope, Represents;
    var f, p := c.f, c.f.p;
    var n1, n2 := ScaledX(f, a.x, b), ScaledY(f, a.y, b);
    var n3, n4 := ScaledX(f, b.x, a), ScaledY(f, b.y, a);
    var n5 := ModSubQuick(n1, n3, p);
    var w := Decode(f, a.z) * Decode(f, b.z);
    AddDifferences(c, a, b, P, Q);
    AddScaled(c, a, b, P);
    AddScaled(c, b, a, Q);
    assert Decode(f, b.z) * Decode(f, a.z) == w;
    AddZDecode(c, a, b, n5);
    AddZNonzero(c, a, b, n5);
    DifferenceNonzero(p, P.x, Q.x);
    SlopeCong(p, P.y - Q.y, P.x - Q.x);
    AddOverCommon(f, w, P, Q, Slope(p, P.y - Q.y, P.x - Q.x), Decode(f, AddZr(f, a, b, n5)), n1, n2, n3, n4);
  }

  /** ec_GFp_simple_add computes the affine sum, for any two points of the curve. */
  lemma JacAddCorrect(c: Curve, r0: Jac, a: Jac, b: Jac)
    requires ValidCurve(c) && ValidJac(c, a) && ValidJac(c, b) && ValidJac(c, r0)
    ensures ValidJac(c, JacAdd(c, r0, a, b))
    ensures ToAffine(c, JacAdd(c, r0, a, b)) == AffAdd(c, ToAffine(c, a), ToAffine(c, b))
  {
    hide Cong, Decode, ScaledX, ScaledY, ModSubQuick, AddZr, AddXr, AddYr2, Halve, Third, Slope, Represents, JacDbl;
    if a.z != 0 && b.z != 0 {
      var P, Q := ToAffine(c, a), ToAffine(c, b);
      ToAffineElim(c, a);
      ToAffineElim(c, b);
      AddDifferences(c, a, b, P, Q);
      var j := JacAdd(c, r0, a, b);
      if P.x != Q.x {
        AddFinite(c, r0, a, b, P, Q);
        var S := AffAdd(c, P, Q);
        ToAffineIntro(c, j, S.x, S.y);
      } else if P.y == Q.y {
        JacDblCorrect(c, r0, a);
      }
    }
  }

  // ---------- ec_GFp_simple_invert and ec_GFp_simple_cmp ----------

  function JacNeg(c: Curve, a: Jac): Jac
    requires a.y < c.f.p
  {
    if a.z == 0 || a.y == 0 then a else a.(y := c.f.p - a.y)
  }

  lemma JacNegCorrect(c: Curve, a: Jac)
    requires ValidCurve(c) && ValidJac(c, a)
    ensures ValidJac(c, JacNeg(c, a))
    ensures ToAffine(c, a).Aff? ==> ToAffine(c, a).y < c.f.p
    ensures ToAffine(c, JacNeg(c, a)) == AffNeg(c, ToAffine(c, a))
  {
    hide Cong, Decode, Represents;
    if a.z != 0 {
      var f, p := c.f, c.f.p;
      var P := ToAffine(c, a);
      ToAffineElim(c, a);
      YZero(c, a, P);
      if a.y != 0 {
        var j := JacNeg(c, a);
        NegDecode(f, a.y);
        NegRepresents(p, Decode(f, a.x), Decode(f, a.y), Decode(f, a.z), P.x, P.y, Decode(f, j.y));
        ToAffineIntro(c, j, P.x, p - P.y);
      }
    }
  }

  lemma NegDecode(f: Field, y: int)
    requires f.p > 0
    ensures Cong(f.p, Decode(f, f.p - y), -(Decode(f, y) as int))
  {
    hide Cong, Decode;
    var p, t := f.p, f.rinv;
    DecodeCong(f, p - y);
    DecodeCong(f, y);
    assert (p - y) * t == t * p - y * t;
    CongIntro(p, (p - y) * t, -(y * t), t);
    var d: int := Decode(f, y);
    CongComb3(p, Decode(f, p - y), -d, 1, Decode(f, p - y), (p - y) * t,
              1, (p - y) * t, -(y * t), 1, d, y * t);
  }

  lemma NegRepresents(p: nat, x: int, y: int, z: int, ax: int, ay: int, y': int)
    requires p > 0 && Represents(p, x, y, z, ax, ay) && Cong(p, y', -y)
    ensures Represents(p, x, y', z, ax, p - ay)
  {
    hide Cong;
    var k := z * z * z;
    assert (p - ay) * k == k * p - ay * k;
    CongIntro(p, (p - ay) * k, -(ay * k), k);
    CongComb3(p, y', (p - ay) * k, 1, y', -y, -1, y, ay * k, -1, (p - ay) * k, -(ay * k));
  }

  /** ec_GFp_simple_cmp: 0 when the affine values are equal, 1 when they differ. */
  function JacCmp(c: Curve, a: Jac, b: Jac): int
    requires c.f.p > 0
  {
    if a.z == 0 then (if b.z == 0 then 0 else 1)
    else if b.z == 0 then 1
    else if a.zIsOne && b.zIsOne then (if a.x == b.x && a.y == b.y then 0 else 1)
    else if ScaledX(c.f, a.x, b) != ScaledX(c.f, b.x, a) then 1
    else if ScaledY(c.f, a.y, b) != ScaledY(c.f, b.y, a) then 1
    else 0
  }

  lemma JacCmpCorrect(c: Curve, a: Jac, b: Jac)
    requires ValidCurve(c) && ValidJac(c, a) && ValidJac(c, b)
    ensures JacCmp(c, a, b) == (if ToAffine(c, a) == ToAffine(c, b) then 0 else 1)
  {
    hide Cong, Decode, FieldMul, Represents;
    if a.z != 0 && b.z != 0 {
      ToAffineElim(c, a);
      ToAffineElim(c, b);
      AddDifferences(c, a, b, ToAffine(c, a), ToAffine(c, b));
    }
  }

  // ---------- affine coordinates in and out ----------

  /** The decoded affine coordinates that ec_GFp_simple_point_get_affine_coordinates stores. */
  function GetX(c: Curve, a: Jac): nat
    requires c.f.p > 0
  {
    var z := Decode(c.f, a.z);
    if z == 1 then Decode(c.f, a.x)
    else
      var i := Inv(c.f.p, z);
      FieldMul(c.f, a.x, (i * i) % c.f.p)
  }

  function GetY(c: Curve, a: Jac): nat
    requires c.f.p > 0
  {
    var z := Decode(c.f, a.z);
    if z == 1 then Decode(c.f, a.y)
    else
      var i := Inv(c.f.p, z);
      FieldMul(c.f, a.y, (((i * i) % c.f.p) * i) % c.f.p)
  }

  // The Montgomery factor of the coordinate cancels against the plain inverse power.
  lemma MulPlain(f: Field, v: int, m: int, k: int)
    requires f.p > 0 && Cong(f.p, m, k)
    ensures FieldMul(f, v, m) == (Decode(f, v) * k) % f.p
  {
    hide Cong;
    var p, t := f.p, f.rinv;
    DecodeCong(f, v);
    CongMul(p, Decode(f, v), v * t, k, m) by {
      CongSym(p, m, k);
    }
    assert v * t * m == v * m * t;
    CongSym(p, Decode(f, v) * k, v * m * t);
    CongSameMod(p, v * m * t, Decode(f, v) * k);
  }

  lemma TimesOnes(a: nat, p: nat)
    requires a < p
    ensures (a * (1 * 1)) % p == a && (a * (1 * 1 * 1)) % p == a
  {
    SmallMod(a, p);
  }

  lemma InverseIsReduced(f: Field, x: int, y: int, i: nat)
    requires f.p > 0
    ensures FieldMul(f, x, (i * i) % f.p) == (Decode(f, x) * (i * i)) % f.p
    ensures FieldMul(f, y, (((i * i) % f.p) * i) % f.p) == (Decode(f, y) * (i * i * i)) % f.p
  {
    hide Cong, Decode, FieldMul;
    var p := f.p;
    var i2 := (i * i) % p;
    CongMod(p, i * i);
    CongScale(p, i2, i * i, i);
    CongMod(p, i2 * i);
    CongTrans(p, (i2 * i) % p, i2 * i, i * i * i);
    MulPlain(f, x, i2, i * i);
    MulPlain(f, y, (i2 * i) % p, i * i * i);
  }

  lemma GetAffineCorrect(c: Curve, a: Jac)
    requires ValidCurve(c) && ValidJac(c, a) && a.z != 0
    ensures ToAffine(c, a) == Aff(GetX(c, a), GetY(c, a))
  {
    hide Cong, Decode, FieldMul, Inv;
    var z := Decode(c.f, a.z);
    if z == 1 {
      InverseOfOne(c.f.p);
      TimesOnes(Decode(c.f, a.x), c.f.p);
      TimesOnes(Decode(c.f, a.y), c.f.p);
    } else {
      InverseIsReduced(c.f, a.x, a.y, Inv(c.f.p, z));
    }
  }

  lemma InverseOfOne(p: nat)
    requires p > 1
    ensures Inv(p, 1) == 1
  {
  }

  lemma SmallMod(a: nat, p: nat)
    requires a < p
    ensures a % p == a
  {
    DivModUnique(a, p, 0, a);
  }

  /** ec_GFp_simple_point_set_affine_coordinates: the encoding of x and y with Z one. */
  function SetAffine(c: Curve, x: int, y: int): Jac
    requires c.f.p > 0
  {
    Jac(Encode(c.f, x % c.f.p), Encode(c.f, y % c.f.p), One(c.f), true)
  }

  lemma SetAffineCorrect(c: Curve, x: int, y: int)
    requires ValidCurve(c)
    ensures ValidJac(c, SetAffine(c, x, y))
    ensures ToAffine(c, SetAffine(c, x, y)) == Aff(x % c.f.p, y % c.f.p)
  {
    hide Cong, Decode, Encode, FieldMul, ToAffine;
    var f, p := c.f, c.f.p;
    var a := SetAffine(c, x, y);
    DecodeOne(f);
    DecodeEncode(f, x % p);
    DecodeEncode(f, y % p);
    SmallMod(x % p, p);
    SmallMod(y % p, p);
    GetAffineCorrect(c, a);
  }
}
