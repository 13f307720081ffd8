/**
 A generator whose precomputed table does not survive the conversion to affine form: the curve
 y^2 = x^3 + 4x + 2 over the field of five elements has three points only.
 */
module ThreePoints {
  import opened Modular
  import opened Field
  import opened CurveLaw = Curve
  import opened Power
  import opened Multiples
  import opened PrimeOrder
  import opened OddMultiples
  import opened EcMult
  import opened ShortOrder

  const FIVE: Field := Field(5, 8, 2)
  const THREE := Curve(FIVE, 2, 1, false)

  /** The multiples of (3, 1). */
  function Pt(k: nat): Affine {
    match k % 3
    case 0 => Infinity
    case 1 => Aff(3, 1)
    case _ => Aff(3, 4)
  }

  lemma ThreeIsValid()
    ensures ValidCurve(THREE) && CoefA(THREE) == 4 && CoefB(THREE) == 2
  {
    assert !Divides(2, 5) && !Divides(3, 5) && !Divides(4, 5);
  }

  lemma OnThree(k: nat)
    ensures OnCurve(THREE, Pt(k))
  {
    ThreeIsValid();
  }

  lemma Cubes(x: nat)
    requires x < 5
    ensures (x * x * x + 4 * x + 2) % 5 == [2, 2, 3, 1, 2][x]
  {
    assert x == 0 || x == 1 || x == 2 || x == 3 || x == 4;
  }

  lemma Squares(y: nat)
    requires y < 5
    ensures y * y % 5 == [0, 1, 4, 4, 1][y]
  {
    assert y == 0 || y == 1 || y == 2 || y == 3 || y == 4;
  }

  /** There are no other points. */
  lemma PointsAreAll(P: Affine) returns (k: nat)
    requires OnCurve(THREE, P)
    ensures k < 3 && P == Pt(k)
  {
    hide Cong, ValidCurve, CoefA, CoefB;
    ThreeIsValid();
    if P == Infinity {
      k := 0;
    } else {
      CongSameMod(5, P.y * P.y, P.x * P.x * P.x + 4 * P.x + 2);
      Cubes(P.x);
      Squares(P.y);
      k := if P.y == 1 then 1 else 2;
    }
  }

  lemma Doubled(y: nat, den: nat, i: nat, s: nat, y3: nat)
    requires 0 < y < 5 && den == 2 * y % 5 && i == Inv(5, den) && s == 31 * i % 5
    requires (s * s - 6) % 5 == 3 && y3 == (s * 0 - y) % 5
    ensures AffAdd(THREE, Aff(3, y), Aff(3, y)) == Aff(3, y3)
  {
    hide ValidCurve, CoefA, Inv;
    ThreeIsValid();
    assert 3 * 3 * 3 + CoefA(THREE) == 31;
  }

  lemma Sums(i: nat, j: nat)
    requires i < 3 && j < 3
    ensures AffAdd(THREE, Pt(i), Pt(j)) == Pt(i + j)
  {
    hide Slope, Third;
    if i == 1 && j == 1 {
      assert Inv(5, 2) == 3;
      Doubled(1, 2, 3, 3, 4);
    } else if i == 2 && j == 2 {
      assert Inv(5, 3) == 2;
      Doubled(4, 3, 2, 2, 1);
    }
  }

  /** The points form a group of prime order generated by (3, 1). */
  lemma ThreeIsGroup()
    ensures IsGroup(THREE) && HasOrder(THREE, Pt(1), 3)
  {
    ThreeIsValid();
    forall P: Affine, Q: Affine, R: Affine | Triple(P, Q, R) && OnCurve(THREE, P) && OnCurve(THREE, Q) && OnCurve(THREE, R)
      ensures AffAdd(THREE, AffAdd(THREE, P, Q), R) == AffAdd(THREE, P, AffAdd(THREE, Q, R))
    {
      ThreeAssociates(P, Q, R);
    }
    OnThree(1);
    ThreeTimes();
    assert !Divides(2, 3);
  }

  lemma ThreeAssociates(P: Affine, Q: Affine, R: Affine)
    requires OnCurve(THREE, P) && OnCurve(THREE, Q) && OnCurve(THREE, R)
    ensures AffAdd(THREE, AffAdd(THREE, P, Q), R) == AffAdd(THREE, P, AffAdd(THREE, Q, R))
  {
    hide AffAdd, OnCurve, Pt;
    var i := PointsAreAll(P);
    var j := PointsAreAll(Q);
    var k := PointsAreAll(R);
    Sums(i, j);
    Sums(j, k);
    SameIndex(i + j);
    SameIndex(j + k);
    Sums((i + j) % 3, k);
    Sums(i, (j + k) % 3);
    SameIndex((i + j) % 3 + k);
    SameIndex(i + (j + k) % 3);
  }

  lemma SameIndex(k: nat)
    ensures Pt(k) == Pt(k % 3)
  {
  }

  lemma ThreeTimes()
    requires ValidCurve(THREE) && OnCurve(THREE, Pt(1))
    ensures Mul(THREE, 3, Pt(1)) == Infinity
  {
    hide AffAdd, OnCurve, ValidCurve;
    Sums(0, 1);
    Sums(1, 1);
    Sums(2, 1);
    assert NMul(THREE, 0, Pt(1)) == Pt(0);
    assert NMul(THREE, 1, Pt(1)) == Pt(1);
    assert NMul(THREE, 2, Pt(1)) == Pt(2);
  }

  /** Its table of precomputed multiples is not kept: 9G is infinity, beside it stands 11G. */
  lemma TableNotClean()
    ensures IsGroup(THREE) && HasOrder(THREE, Pt(1), 3)
    ensures !ConvertsCleanly(TableValues(THREE, Pt(1), TableWindow(NumBits(3)), TableBlocks(NumBits(3))))
  {
    hide *;
    ThreeIsGroup();
    OrderIsPrime(THREE, Pt(1), 3);
    PrecomputedCleanIff(THREE, Pt(1), 3);
  }
}
