/**
 EC_POINT objects and the methods of libabi/pssl/ecp_smpl.c that write them.  The result
 object may be one of the operands: every method states the new value of `r` in terms of
 the old values of its operands.
 */
module EcPoint {
  import opened Modular
  import opened Field
  import opened Curve
  import opened Jacobian
  import opened Power

  class EcPoint {
    var X: nat
    var Y: nat
    var Z: nat
    var ZIsOne: bool

    /** EC_POINT_new: all coordinates are zero, which is infinity. */
    constructor ()
      ensures J() == Jac(0, 0, 0, false)
    {
      X, Y, Z, ZIsOne := 0, 0, 0, false;
    }

    function J(): Jac
      reads this
    {
      Jac(X, Y, Z, ZIsOne)
    }

    ghost predicate Valid(c: Curve)
      requires c.f.p > 0
      reads this
    {
      ValidJac(c, J())
    }

    /** The point of the curve that this object stands for. */
    function Value(c: Curve): Affine
      requires c.f.p > 0
      reads this
    {
      ToAffine(c, J())
    }

    predicate IsAtInfinity()
      reads this
    {
      Z == 0
    }

    /** ec_GFp_simple_point_copy. */
    method Copy(src: EcPoint)
      modifies this
      ensures J() == old(src.J())
    {
      X := src.X;
      Y := src.Y;
      Z := src.Z;
      ZIsOne := src.ZIsOne;
    }

    /** ec_GFp_simple_point_set_to_infinity: X and Y keep their old contents. */
    method SetToInfinity()
      modifies this
      ensures J() == Jac(old(X), old(Y), 0, false)
    {
      ZIsOne := false;
      Z := 0;
    }
  }

  lemma SameContents(c: Curve, a: EcPoint, b: EcPoint)
    requires c.f.p > 0 && a.J() == b.J()
    ensures a.Valid(c) == b.Valid(c) && a.Value(c) == b.Value(c)
  {
  }

  lemma FreshIsValid(c: Curve, a: EcPoint)
    requires c.f.p > 0 && a.J() == Jac(0, 0, 0, false)
    ensures a.Valid(c)
  {
  }

  /** ec_GFp_simple_dbl: r := 2*a, where r may be a. */
  method Dbl(c: Curve, r: EcPoint, a: EcPoint)
    requires ValidCurve(c) && a.Valid(c) && r.Valid(c)
    modifies r
    ensures r.Valid(c)
    ensures r.J() == JacDbl(c, old(r.J()), old(a.J()))
    ensures r.Value(c) == AffAdd(c, old(a.Value(c)), old(a.Value(c)))
  {
    hide FieldMul, ModAddQuick, ModSubQuick, ModDblQuick, ToAffine, AffAdd;
    ghost var r0, a0 := r.J(), a.J();
    JacDblCorrect(c, r0, a0);
    if a.IsAtInfinity() {
      r.Z := 0;
      r.ZIsOne := false;
      return;
    }
    var f, p := c.f, c.f.p;
    var n0, n1, n2, n3: nat;
    if a.ZIsOne {
      n0 := FieldSqr(f, a.X);
      n1 := ModDblQuick(n0, p);
      n0 := ModAddQuick(n0, n1, p);
      n1 := ModAddQuick(n0, c.a, p);
    } else if c.aIsMinus3 {
      n1 := FieldSqr(f, a.Z);
      n0 := ModAddQuick(a.X, n1, p);
      n2 := ModSubQuick(a.X, n1, p);
      n1 := FieldMul(f, n0, n2);
      n0 := ModDblQuick(n1, p);
      n1 := ModAddQuick(n0, n1, p);
    } else {
      n0 := FieldSqr(f, a.X);
      n1 := ModDblQuick(n0, p);
      n0 := ModAddQuick(n0, n1, p);
      n1 := FieldSqr(f, a.Z);
      n1 := FieldSqr(f, n1);
      n1 := FieldMul(f, n1, c.a);
      n1 := ModAddQuick(n1, n0, p);
    }
    assert n1 == DblN1(c, a0);
    if a.ZIsOne {
      n0 := a.Y;
    } else {
      n0 := FieldMul(f, a.Y, a.Z);
    }
    r.Z := ModDblQuick(n0, p);
    r.ZIsOne := false;
    n3 := FieldSqr(f, a.Y);
    n2 := FieldMul(f, a.X, n3);
    n2 := ModDblQuick(ModDblQuick(n2, p), p);
    n0 := ModDblQuick(n2, p);
    r.X := FieldSqr(f, n1);
    r.X := ModSubQuick(r.X, n0, p);
    n0 := FieldSqr(f, n3);
    n3 := ModDblQuick(ModDblQuick(ModDblQuick(n0, p), p), p);
    n0 := ModSubQuick(n2, r.X, p);
    n0 := FieldMul(f, n1, n0);
    r.Y := ModSubQuick(n0, n3, p);
  }

  /** The scratch values n1, n2 (or n3, n4): one point scaled by the denominator of the other. */
  method Scale(f: Field, p: EcPoint, other: EcPoint) returns (sx: nat, sy: nat)
    requires f.p > 0
    ensures sx == ScaledX(f, p.X, other.J()) && sy == ScaledY(f, p.Y, other.J())
  {
    hide FieldMul;
    if other.ZIsOne {
      sx := p.X;
      sy := p.Y;
    } else {
      var n0 := FieldSqr(f, other.Z);
      sx := FieldMul(f, p.X, n0);
      n0 := FieldMul(f, n0, other.Z);
      sy := FieldMul(f, p.Y, n0);
    }
  }

  /** ec_GFp_simple_add: r := a + b, where r may be a or b or both. */
  method Add(c: Curve, r: EcPoint, a: EcPoint, b: EcPoint)
    requires ValidCurve(c) && a.Valid(c) && b.Valid(c) && r.Valid(c)
    modifies r
    ensures r.Valid(c)
    ensures a != b ==> r.J() == JacAdd(c, old(r.J()), old(a.J()), old(b.J()))
    ensures r.Value(c) == AffAdd(c, old(a.Value(c)), old(b.Value(c)))
  {
    hide FieldMul, ScaledX, ScaledY, ModAddQuick, ModSubQuick, ModDblQuick, ToAffine, AffAdd, JacDbl;
    ghost var r0, a0, b0 := r.J(), a.J(), b.J();
    JacAddCorrect(c, r0, a0, b0);
    if a == b {
      Dbl(c, r, a);
      return;
    }
    if a.IsAtInfinity() {
      r.Copy(b);
      return;
    }
    if b.IsAtInfinity() {
      r.Copy(a);
      return;
    }
    var f, p := c.f, c.f.p;
    var n0, n1, n2, n3, n4, n5, n6: nat;
    n1, n2 := Scale(f, a, b);
    n3, n4 := Scale(f, b, a);
    n5 := ModSubQuick(n1, n3, p);
    n6 := ModSubQuick(n2, n4, p);
    if n5 == 0 {
      if n6 == 0 {
        // equal operands: the chord becomes the tangent
        Dbl(c, r, a);
      } else {
        // opposite operands
        r.Z := 0;
        r.ZIsOne := false;
      }
      return;
    }
    n1 := ModAddQuick(n1, n3, p);
    n2 := ModAddQuick(n2, n4, p);
    if a.ZIsOne && b.ZIsOne {
      r.Z := n5;
    } else {
      if a.ZIsOne {
        n0 := b.Z;
      } else if b.ZIsOne {
        n0 := a.Z;
      } else {
        n0 := FieldMul(f, a.Z, b.Z);
      }
      r.Z := FieldMul(f, n0, n5);
    }
    r.ZIsOne := false;
    n0 := FieldSqr(f, n6);
    n4 := FieldSqr(f, n5);
    n3 := FieldMul(f, n1, n4);
    r.X := ModSubQuick(n0, n3, p);
    n0 := ModDblQuick(r.X, p);
    n0 := ModSubQuick(n3, n0, p);
    n0 := FieldMul(f, n0, n6);
    n5 := FieldMul(f, n4, n5);
    n1 := FieldMul(f, n2, n5);
    n0 := ModSubQuick(n0, n1, p);
    if n0 % 2 == 1 {
      n0 := n0 + p;
    }
    // either way the halving below is exact
    r.Y := n0 / 2;
  }

  /** ec_GFp_simple_invert. */
  method Invert(c: Curve, point: EcPoint)
    requires ValidCurve(c) && point.Valid(c)
    modifies point
    ensures point.Valid(c) && point.J() == JacNeg(c, old(point.J()))
    ensures old(point.Value(c)).Aff? ==> old(point.Value(c)).y < c.f.p
    ensures point.Value(c) == AffNeg(c, old(point.Value(c)))
  {
    hide ToAffine;
    JacNegCorrect(c, point.J());
    if point.IsAtInfinity() || point.Y == 0 {
      return;
    }
    point.Y := c.f.p - point.Y;
  }

  /** ec_GFp_simple_cmp: 0 exactly when the two objects stand for the same point. */
  method Cmp(c: Curve, a: EcPoint, b: EcPoint) returns (ret: int)
    requires ValidCurve(c) && a.Valid(c) && b.Valid(c)
    ensures ret == (if a.Value(c) == b.Value(c) then 0 else 1)
  {
    hide FieldMul, ToAffine;
    JacCmpCorrect(c, a.J(), b.J());
    if a.IsAtInfinity() {
      return if b.IsAtInfinity() then 0 else 1;
    }
    if b.IsAtInfinity() {
      return 1;
    }
    if a.ZIsOne && b.ZIsOne {
      return if a.X == b.X && a.Y == b.Y then 0 else 1;
    }
    var f := c.f;
    var tmp1, tmp2, za23, zb23: nat := 0, 0, 0, 0;
    if !b.ZIsOne {
      zb23 := FieldSqr(f, b.Z);
      tmp1 := FieldMul(f, a.X, zb23);
    } else {
      tmp1 := a.X;
    }
    if !a.ZIsOne {
      za23 := FieldSqr(f, a.Z);
      tmp2 := FieldMul(f, b.X, za23);
    } else {
      tmp2 := b.X;
    }
    if tmp1 != tmp2 {
      return 1;
    }
    if !b.ZIsOne {
      zb23 := FieldMul(f, zb23, b.Z);
      tmp1 := FieldMul(f, a.Y, zb23);
    } else {
      tmp1 := a.Y;
    }
    if !a.ZIsOne {
      za23 := FieldMul(f, za23, a.Z);
      tmp2 := FieldMul(f, b.Y, za23);
    } else {
      tmp2 := b.Y;
    }
    if tmp1 != tmp2 {
      return 1;
    }
    return 0;
  }

  /** ec_GFp_simple_point_get_affine_coordinates; ok is false at infinity. */
  method GetAffineCoordinates(c: Curve, point: EcPoint) returns (ok: bool, x: nat, y: nat)
    requires ValidCurve(c) && point.Valid(c)
    ensures ok <==> point.Value(c) != Infinity
    ensures ok ==> point.Value(c) == Aff(x, y)
  {
    hide FieldMul, Decode, Inv, ValidField;
    if point.IsAtInfinity() {
      return false, 0, 0;
    }
    GetAffineCorrect(c, point.J());
    var f, p := c.f, c.f.p;
    var z := Decode(f, point.Z);
    if z == 1 {
      x := Decode(f, point.X);
      y := Decode(f, point.Y);
    } else {
      var z1 := Inv(p, z);
      var z2 := (z1 * z1) % p;
      x := FieldMul(f, point.X, z2);
      var z3 := (z2 * z1) % p;
      y := FieldMul(f, point.Y, z3);
    }
    ok := true;
  }

  /** ec_GFp_simple_set_Jprojective_coordinates_GFp with z = 1. */
  method SetAffineCoordinates(c: Curve, point: EcPoint, x: int, y: int)
    requires ValidCurve(c)
    modifies point
    ensures point.Valid(c) && point.J() == SetAffine(c, x, y)
    ensures point.Value(c) == Aff(x % c.f.p, y % c.f.p)
  {
    hide Encode, ToAffine;
    SetAffineCorrect(c, x, y);
    var f, p := c.f, c.f.p;
    point.X := x % p;
    point.X := Encode(f, point.X);
    point.Y := y % p;
    point.Y := Encode(f, point.Y);
    point.Z := One(f);
    point.ZIsOne := true;
  }

  /**
   ec_GFp_simple_group_set_curve: refuses even moduli and those of at most two bits; otherwise the
   coefficients are stored in Montgomery form and the flag says whether a is -3.  Whether the
   modulus is prime is not looked at; if it is, the curve is valid.
   */
  method SetCurve(f: Field, a: int, b: int) returns (ok: bool, c: Curve)
    requires f.p > 0 && Cong(f.p, f.r * f.rinv, 1)
    ensures ok <==> f.p > 3 && f.p % 2 == 1
    ensures ok ==> c.f == f && c.a < f.p && c.b < f.p && CoefA(c) == a % f.p && CoefB(c) == b % f.p
    ensures ok ==> (c.aIsMinus3 <==> CoefA(c) + 3 == f.p)
    ensures Prime(f.p) ==> (ok <==> f.p > 3)
    ensures ok && Prime(f.p) ==> ValidCurve(c)
  {
    hide Cong, Encode, Decode, Prime;
    TwoBits(f.p);
    OddPrime(f.p);
    if NumBits(f.p) <= 2 || f.p % 2 == 0 {
      return false, Curve(f, 0, 0, false);
    }
    var tmpA, tmpB := a % f.p, b % f.p;
    DecodeEncode(f, tmpA);
    DecodeEncode(f, tmpB);
    SmallMod(tmpA, f.p);
    SmallMod(tmpB, f.p);
    c := Curve(f, Encode(f, tmpA), Encode(f, tmpB), tmpA + 3 == f.p);
    ok := true;
  }

  lemma TwoBits(p: nat)
    ensures NumBits(p) <= 2 <==> p <= 3
  {
    NumBitsBounds(p);
    assert Pow2(0) == 1 && Pow2(1) == 2 && Pow2(2) == 4;
    if p > 3 {
      NumBitsMono(4, p);
    } else {
      NumBitsMono(p, 3);
    }
  }

  lemma OddPrime(p: nat)
    ensures Prime(p) && p > 3 ==> p % 2 == 1
  {
    assert Prime(p) && p > 3 ==> !Divides(2, p);
  }
}
