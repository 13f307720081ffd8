/**
 A curve on which the hypotheses hold: y^2 = x^3 - 3x + 1 over the field of five elements, a group
 of order seven.  So no result about groups and prime orders is empty.
 */
module SmallCurve {
  import opened Modular
  import opened Field
  import opened CurveLaw = Curve
  import opened Multiples
  import opened PrimeOrder
  import opened Wrappers
  import opened Power
  import opened Jacobian
  import opened BatchInversion
  import opened Wnaf
  import opened Interleave
  import opened OddMultiples
  import opened EcMult

  const FIVE: Field := Field(5, 8, 2)
  const SMALL := Curve(FIVE, 1, 3, true)

  /** The multiples of the generator (0, 1). */
  function Pt(k: nat): Affine {
    match k % 7
    case 0 => Infinity
    case 1 => Aff(0, 1)
    case 2 => Aff(1, 3)
    case 3 => Aff(3, 3)
    case 4 => Aff(3, 2)
    case 5 => Aff(1, 2)
    case _ => Aff(0, 4)
  }

  lemma Points()
    ensures Pt(0) == Infinity && Pt(1) == Aff(0, 1) && Pt(2) == Aff(1, 3) && Pt(3) == Aff(3, 3)
    ensures Pt(4) == Aff(3, 2) && Pt(5) == Aff(1, 2) && Pt(6) == Aff(0, 4) && Pt(7) == Infinity
    ensures Pt(8) == Aff(0, 1) && Pt(9) == Aff(1, 3) && Pt(10) == Aff(3, 3) && Pt(11) == Aff(3, 2)
    ensures Pt(12) == Aff(1, 2)
  {
  }

  lemma Inverses()
    ensures Inv(5, 1) == 1 && Inv(5, 2) == 3 && Inv(5, 3) == 2 && Inv(5, 4) == 4
  {
  }

  lemma SmallIsValid()
    ensures ValidCurve(SMALL) && CoefA(SMALL) == 2 && CoefB(SMALL) == 1
  {
    assert !Divides(2, 5) && !Divides(3, 5) && !Divides(4, 5);
  }

  lemma SevenIsPrime()
    ensures Prime(7)
  {
    assert !Divides(2, 7) && !Divides(3, 7) && !Divides(4, 7) && !Divides(5, 7) && !Divides(6, 7);
  }

  lemma PointsAreOnCurve(k: nat)
    ensures OnCurve(SMALL, Pt(k))
  {
    SmallIsValid();
  }

  lemma Cubes(x: nat)
    requires x < 5
    ensures (x * x * x + 2 * x + 1) % 5 == [1, 4, 3, 4, 3][x]
  {
    assert x == 0 || x == 1 || x == 2 || x == 3 || x == 4;
  }

  lemma Squares(y: nat)
    requires y < 5
    ensures y * y % 5 == [0, 1, 4, 4, 1][y]
  {
    assert y == 0 || y == 1 || y == 2 || y == 3 || y == 4;
  }

  /** There are no other points. */
  lemma PointsAreAll(P: Affine) returns (k: nat)
    requires OnCurve(SMALL, P)
    ensures k < 7 && P == Pt(k)
  {
    hide Cong, ValidCurve, CoefA, CoefB;
    SmallIsValid();
    if P == Infinity {
      k := 0;
    } else {
      CongSameMod(5, P.y * P.y, P.x * P.x * P.x + 2 * P.x + 1);
      Cubes(P.x);
      Squares(P.y);
      k := if P.x == 0 then (if P.y == 1 then 1 else 6)
           else if P.x == 1 then (if P.y == 3 then 2 else 5)
           else if P.y == 3 then 3 else 4;
    }
  }

  lemma ThirdIs(s: nat, x1: nat, y1: nat, x2: nat, x3: nat, y3: nat)
    requires x3 == (s * s - x1 - x2) % 5 && y3 == (s * (x1 - x3) - y1) % 5
    ensures Third(5, s, x1, y1, x2) == Aff(x3, y3)
  {
  }

  // One chord or tangent, from its slope s.
  lemma Line(x1: nat, y1: nat, x2: nat, y2: nat, s: nat, x3: nat, y3: nat)
    requires x1 < 5 && y1 < 5 && x2 < 5 && y2 < 5 && y1 != 0
    requires x1 != x2 ==> s == Slope(5, y1 - y2, x1 - x2)
    requires x1 == x2 ==> y1 == y2 && s == Slope(5, 3 * x1 * x1 + 2, 2 * y1)
    requires x3 == (s * s - x1 - x2) % 5 && y3 == (s * (x1 - x3) - y1) % 5
    ensures AffAdd(SMALL, Aff(x1, y1), Aff(x2, y2)) == Aff(x3, y3)
  {
    hide Slope, CoefA, Third, ValidCurve;
    SmallIsValid();
    ThirdIs(s, x1, y1, x2, x3, y3);
  }

  lemma Pair(x1: nat, y1: nat, x2: nat, y2: nat, num: int, den: int, d: nat, i: nat, s: nat, x3: nat, y3: nat)
    requires x1 < 5 && y1 < 5 && x2 < 5 && y2 < 5 && y1 != 0
    requires if x1 != x2 then num == y1 - y2 && den == x1 - x2 else y1 == y2 && num == 3 * x1 * x1 + 2 && den == 2 * y1
    requires d == den % 5 && d > 0 && i == Inv(5, d) && s == (num * i) % 5
    requires x3 == (s * s - x1 - x2) % 5 && y3 == (s * (x1 - x3) - y1) % 5
    ensures AffAdd(SMALL, Aff(x1, y1), Aff(x2, y2)) == Aff(x3, y3)
  {
    hide Slope, AffAdd, Inv;
    SlopeIs(num, den, d, i, s);
    Line(x1, y1, x2, y2, s, x3, y3);
  }

  lemma SlopeIs(num: int, den: int, d: nat, i: nat, s: nat)
    requires d == den % 5 && d > 0 && i == Inv(5, d) && s == (num * i) % 5
    ensures Slope(5, num, den) == s
  {
  }

  lemma Sums1(j: nat)
    requires 0 < j < 7
    ensures AffAdd(SMALL, Pt(1), Pt(j)) == Pt(1 + j)
  {
    hide AffAdd, Inv, Pt;
    Inverses();
    Points();
    match j
    case 1 => Pair(0, 1, 0, 1, 2, 2, 2, 3, 1, 1, 3);
    case 2 => Pair(0, 1, 1, 3, -2, -1, 4, 4, 2, 3, 3);
    case 3 => Pair(0, 1, 3, 3, -2, -3, 2, 3, 4, 3, 2);
    case 4 => Pair(0, 1, 3, 2, -1, -3, 2, 3, 2, 1, 2);
    case 5 => Pair(0, 1, 1, 2, -1, -1, 4, 4, 1, 0, 4);
    case 6 => Opposite(0, 1, 4);
  }

  lemma Sums2(j: nat)
    requires 0 < j < 7
    ensures AffAdd(SMALL, Pt(2), Pt(j)) == Pt(2 + j)
  {
    hide AffAdd, Inv, Pt;
    Inverses();
    Points();
    match j
    case 1 => Pair(1, 3, 0, 1, 2, 1, 1, 1, 2, 3, 3);
    case 2 => Pair(1, 3, 1, 3, 5, 6, 1, 1, 0, 3, 2);
    case 3 => Pair(1, 3, 3, 3, 0, -2, 3, 2, 0, 1, 2);
    case 4 => Pair(1, 3, 3, 2, 1, -2, 3, 2, 2, 0, 4);
    case 5 => Opposite(1, 3, 2);
    case 6 => Pair(1, 3, 0, 4, -1, 1, 1, 1, 4, 0, 1);
  }

  lemma Sums3(j: nat)
    requires 0 < j < 7
    ensures AffAdd(SMALL, Pt(3), Pt(j)) == Pt(3 + j)
  {
    hide AffAdd, Inv, Pt;
    Inverses();
    Points();
    match j
    case 1 => Pair(3, 3, 0, 1, 2, 3, 3, 2, 4, 3, 2);
    case 2 => Pair(3, 3, 1, 3, 0, 2, 2, 3, 0, 1, 2);
    case 3 => Pair(3, 3, 3, 3, 29, 6, 1, 1, 4, 0, 4);
    case 4 => Opposite(3, 3, 2);
    case 5 => Pair(3, 3, 1, 2, 1, 2, 2, 3, 3, 0, 1);
    case 6 => Pair(3, 3, 0, 4, -1, 3, 3, 2, 3, 1, 3);
  }

  lemma Sums4(j: nat)
    requires 0 < j < 7
    ensures AffAdd(SMALL, Pt(4), Pt(j)) == Pt(4 + j)
  {
    hide AffAdd, Inv, Pt;
    Inverses();
    Points();
    match j
    case 1 => Pair(3, 2, 0, 1, 1, 3, 3, 2, 2, 1, 2);
    case 2 => Pair(3, 2, 1, 3, -1, 2, 2, 3, 2, 0, 4);
    case 3 => Opposite(3, 2, 3);
    case 4 => Pair(3, 2, 3, 2, 29, 4, 4, 4, 1, 0, 1);
    case 5 => Pair(3, 2, 1, 2, 0, 2, 2, 3, 0, 1, 3);
    case 6 => Pair(3, 2, 0, 4, -2, 3, 3, 2, 1, 3, 3);
  }

  lemma Sums5(j: nat)
    requires 0 < j < 7
    ensures AffAdd(SMALL, Pt(5), Pt(j)) == Pt(5 + j)
  {
    hide AffAdd, Inv, Pt;
    Inverses();
    Points();
    match j
    case 1 => Pair(1, 2, 0, 1, 1, 1, 1, 1, 1, 0, 4);
    case 2 => Opposite(1, 2, 3);
    case 3 => Pair(1, 2, 3, 3, -1, -2, 3, 2, 3, 0, 1);
    case 4 => Pair(1, 2, 3, 2, 0, -2, 3, 2, 0, 1, 3);
    case 5 => Pair(1, 2, 1, 2, 5, 4, 4, 4, 0, 3, 3);
    case 6 => Pair(1, 2, 0, 4, -2, 1, 1, 1, 3, 3, 2);
  }

  lemma Sums6(j: nat)
    requires 0 < j < 7
    ensures AffAdd(SMALL, Pt(6), Pt(j)) == Pt(6 + j)
  {
    hide AffAdd, Inv, Pt;
    Inverses();
    Points();
    match j
    case 1 => Opposite(0, 4, 1);
    case 2 => Pair(0, 4, 1, 3, 1, -1, 4, 4, 4, 0, 1);
    case 3 => Pair(0, 4, 3, 3, 1, -3, 2, 3, 3, 1, 3);
    case 4 => Pair(0, 4, 3, 2, 2, -3, 2, 3, 1, 3, 3);
    case 5 => Pair(0, 4, 1, 2, 2, -1, 4, 4, 3, 3, 2);
    case 6 => Pair(0, 4, 0, 4, 2, 8, 3, 2, 4, 1, 2);
  }

  lemma Opposite(x: nat, y: nat, z: nat)
    requires x < 5 && y < 5 && z < 5 && y != z
    ensures AffAdd(SMALL, Aff(x, y), Aff(x, z)) == Infinity
  {
  }

  lemma Sums(i: nat, j: nat)
    requires i < 7 && j < 7
    ensures AffAdd(SMALL, Pt(i), Pt(j)) == Pt(i + j)
  {
    hide AffAdd;
    if i == 0 || j == 0 {
      AddNothing(i, j);
    } else {
      match i
      case 1 => Sums1(j);
      case 2 => Sums2(j);
      case 3 => Sums3(j);
      case 4 => Sums4(j);
      case 5 => Sums5(j);
      case 6 => Sums6(j);
    }
  }

  lemma AddNothing(i: nat, j: nat)
    requires i == 0 || j == 0
    ensures AffAdd(SMALL, Pt(i), Pt(j)) == Pt(i + j)
  {
    hide Slope, Third, Pt;
    Points();
  }

  /** All seven points form a group of prime order generated by (0, 1). */
  lemma SmallIsGroup()
    ensures IsGroup(SMALL) && HasOrder(SMALL, Pt(1), 7)
  {
    SmallIsValid();
    forall P: Affine, Q: Affine, R: Affine | Triple(P, Q, R) && OnCurve(SMALL, P) && OnCurve(SMALL, Q) && OnCurve(SMALL, R)
      ensures AffAdd(SMALL, AffAdd(SMALL, P, Q), R) == AffAdd(SMALL, P, AffAdd(SMALL, Q, R))
    {
      SmallAssociates(P, Q, R);
    }
    SevenIsPrime();
    PointsAreOnCurve(1);
    Multiple(7);
  }

  lemma SmallAssociates(P: Affine, Q: Affine, R: Affine)
    requires OnCurve(SMALL, P) && OnCurve(SMALL, Q) && OnCurve(SMALL, R)
    ensures AffAdd(SMALL, AffAdd(SMALL, P, Q), R) == AffAdd(SMALL, P, AffAdd(SMALL, Q, R))
  {
    hide AffAdd, OnCurve, Pt;
    var i := PointsAreAll(P);
    var j := PointsAreAll(Q);
    var k := PointsAreAll(R);
    Sums(i, j);
    Sums(j, k);
    SameIndex(i + j);
    SameIndex(j + k);
    Sums((i + j) % 7, k);
    Sums(i, (j + k) % 7);
    SameIndex((i + j) % 7 + k);
    SameIndex(i + (j + k) % 7);
    SameSum(i, j, k);
  }

  lemma AddMod(a: nat, b: nat)
    ensures (a % 7 + b) % 7 == (a + b) % 7
  {
    var c := a % 7 + b;
    DivModUnique(a + b, 7, a / 7 + c / 7, c % 7);
  }

  lemma SameSum(i: nat, j: nat, k: nat)
    ensures ((i + j) % 7 + k) % 7 == (i + (j + k) % 7) % 7
  {
    AddMod(i + j, k);
    AddMod(j + k, i);
  }

  lemma SameIndex(k: nat)
    ensures Pt(k) == Pt(k % 7)
  {
  }

  lemma {:induction false} Multiple(k: nat)
    requires ValidCurve(SMALL) && OnCurve(SMALL, Pt(1)) && k <= 7
    ensures NMul(SMALL, k, Pt(1)) == Pt(k)
  {
    hide AffAdd, OnCurve, ValidCurve;
    if k > 0 {
      Multiple(k - 1);
      Sums(k - 1, 1);
    }
  }

  // ---------- inputs on which the conversion to affine form fails ----------

  /** Infinity in front of the generator: a gap, and the generator's value is lost. */
  lemma GapLosesPoint(js: seq<Jac>)
    requires js == [Jac(0, 0, 0, false), SetAffine(SMALL, 0, 1)]
    ensures ValidAll(SMALL, js) && Reduced(SMALL.f, Zs(js))
    ensures ToAffine(SMALL, js[0]) == Infinity && ToAffine(SMALL, js[1]) == Pt(1)
    ensures !NoGap(Zs(js), 2) && !ValuesKept(SMALL, js, 2)
  {
    hide ToAffine, AffineResult;
    SmallIsValid();
    SetAffineCorrect(SMALL, 0, 1);
    InfinityIsZero(SMALL, js[0]);
    PatternGap(Zs(js));
    MakeAffineIff(SMALL, js, 2);
  }

  lemma PatternGap(zs: seq<nat>)
    requires |zs| == 2 && zs[0] == 0 && zs[1] != 0
    ensures !NoGap(zs, 2)
  {
    assert AllZero(zs, 2, 2) && !AllZero(zs, 2, 3);
    assert GapAt(zs, 2, 1);
  }

  /** Such points are among the arguments of a multiplication: the sum of infinity and the generator. */
  lemma TablesNotClean()
    ensures ValidCurve(SMALL) && AllOnCurve(SMALL, [Infinity, Pt(1)])
    ensures OnCurve(SMALL, Pt(1)) && !CleanTables(SMALL, None, false, Pt(1), [1, 1], [Infinity, Pt(1)])
  {
    hide ValidCurve, OnCurve;
    SmallIsValid();
    PointsAreOnCurve(0);
    PointsAreOnCurve(1);
    Points();
    var Ps, ws := [Infinity, Pt(1)], Windows([1, 1]);
    assert NumBits(1) == 1 && ws == [1, 1];
    var vs := ValPoints(SMALL, Ps, ws, 2);
    assert Pow2(0) == 1;
    assert Offset(ws, 1) == 1 && Offset(ws, 2) == 2;
    ValPointsAt(SMALL, Ps, ws, 2, 0, 0);
    ValPointsAt(SMALL, Ps, ws, 2, 1, 0);
    Multiple(1);
    NothingTimesOne();
    assert vs[0] == Infinity && vs[1] == Pt(1);
    PatternGap(Pattern(vs));
    assert Leaves(2) == 2;
  }

  /** And the sum is lost with it: 0 times infinity plus 1 times the generator comes out as infinity. */
  lemma SumIsLost(G: Affine, run: Run)
    requires ValidCurve(SMALL) && OnCurve(SMALL, G) && AllOnCurve(SMALL, [Infinity, Pt(1)])
    requires IsRun(SMALL, None, false, G, [0, 1], [Infinity, Pt(1)], run)
    requires GeneratorRun(None, false, 0, 0, [], run)
    ensures Streams(SMALL, run.wnafs + run.gwnafs, Tables([0, 1], run) + run.gtables)
    ensures Outcome(SMALL, [0, 1], run) == Infinity
    ensures Total(SMALL, None, G, [0, 1], [Infinity, Pt(1)]) == Pt(1)
  {
    hide ValidCurve, OnCurve, Streams, Total, Pt, Horner, NoDigitsFrom, ValPoints, IsWnaf, Converted;
    var Ps, ks, ws := [Infinity, Pt(1)], [0, 1], [1, 1];
    SmallWindows();
    var vs := ValPoints(SMALL, Ps, ws, 2);
    LostEntry(vs, run.entries);
    assert run.wnafs + run.gwnafs == run.wnafs && Tables(ks, run) + run.gtables == Tables(ks, run);
    var ts := Tables(ks, run);
    forall i, k | 0 <= i < |run.wnafs| && 0 <= k < |run.wnafs[i]|
      ensures NoEntry(SMALL, ts[i], run.wnafs[i][k])
    {
      assert AllWnafs(ks, ws, run.wnafs);
      LostDigit(ks, run, ts, i, k);
    }
    HornerOfNothing(SMALL, run.wnafs, ts, 0, run.rounds);
    SumOfSecond(G);
  }

  lemma SmallWindows()
    ensures Windows([0, 1]) == [1, 1] && Offset([1, 1], 0) == 0 && Offset([1, 1], 1) == 1 && Offset([1, 1], 2) == 2
  {
    assert NumBits(0) == 0 && NumBits(1) == 1 && Pow2(0) == 1;
    assert Offset([1, 1], 0) == 0 && Offset([1, 1], 1) == 1;
  }

  // The two table entries: infinity, and the generator behind it.
  lemma LostEntry(vs: seq<Affine>, cv: seq<Affine>)
    requires ValidCurve(SMALL) && AllOnCurve(SMALL, [Infinity, Pt(1)])
    requires Offset([1, 1], 2) == 2 && vs == ValPoints(SMALL, [Infinity, Pt(1)], [1, 1], 2) && Converted(vs, cv)
    ensures |cv| == 2 && cv[1] == Infinity
  {
    hide ValidCurve, OnCurve, ValPoints, AllZero;
    assert Pow2(0) == 1 && Offset([1, 1], 1) == 1 && Offset([1, 1], 0) == 0;
    ValPointsAt(SMALL, [Infinity, Pt(1)], [1, 1], 2, 0, 0);
    ValPointsAt(SMALL, [Infinity, Pt(1)], [1, 1], 2, 1, 0);
    Multiple(1);
    NothingTimesOne();
    Points();
    var zs := Pattern(vs);
    PairGap(zs);
    assert Leaves(2) == 2;
    assert EntryFate(vs, 1) == Zeroed;
    assert AfterConversion(vs, 1, cv[1]);
  }

  lemma PairGap(zs: seq<nat>)
    requires |zs| == 2 && zs[0] == 0 && zs[1] != 0
    ensures FateOf(zs, 2, 3) == Zeroed
  {
    assert AllZero(zs, 2, 2) && !AllZero(zs, 2, 3);
    assert GapAt(zs, 2, 1);
    assert FateOf(zs, 2, 1) == Kept;
  }

  // The first scalar has no digit, and every digit of the second one selects the lost entry.
  lemma LostDigit(ks: seq<int>, run: Run, ts: seq<seq<Affine>>, i: nat, k: nat)
    requires SMALL.f.p > 0 && ks == [0, 1] && AllWnafs(ks, [1, 1], run.wnafs) && Streams(SMALL, run.wnafs, ts)
    requires i < |run.wnafs| && k < |run.wnafs[i]| && |run.entries| == 2 && run.entries[1] == Infinity
    requires Offset([1, 1], 2) == 2 && ts == ValueSlices(run.entries, [1, 1])
    ensures NoEntry(SMALL, ts[i], run.wnafs[i][k])
  {
    hide Streams, IsWnaf;
    StreamAt(SMALL, run.wnafs, ts, i, k);
    assert IsWnaf(ks[i], 1, run.wnafs[i]);
    if i == 0 {
      ZeroDigits(run.wnafs[0]);
    } else {
      OwnDigit(ks, [1, 1], run.wnafs, i, k);
      ValueSliceAt(run.entries, [1, 1], 1);
      assert Pow2(0) == 1 && Offset([1, 1], 1) == 1;
    }
  }

  lemma ZeroDigits(ds: seq<int>)
    requires IsWnaf(0, 1, ds)
    ensures ds == [0]
  {
    assert NumBits(0) == 0;
    assert ValueFrom(ds, 1) == 0;
    assert ValueFrom(ds, 0) == ds[0] + 2 * ValueFrom(ds, 1);
  }

  lemma SumOfSecond(G: Affine)
    requires ValidCurve(SMALL) && OnCurve(SMALL, G) && AllOnCurve(SMALL, [Infinity, Pt(1)])
    ensures Total(SMALL, None, G, [0, 1], [Infinity, Pt(1)]) == Pt(1)
  {
    hide ValidCurve, OnCurve;
    var Ps := [Infinity, Pt(1)];
    assert OnCurve(SMALL, Ps[0]) && OnCurve(SMALL, Ps[1]);
    MulZero(SMALL, Infinity);
    MulZero(SMALL, Pt(1));
    assert LinComb(SMALL, [0, 1], Ps, 0) == Infinity;
    assert LinComb(SMALL, [0, 1], Ps, 1) == Infinity;
    assert LinComb(SMALL, [0, 1], Ps, 2) == Pt(1);
  }

  lemma NothingTimesOne()
    requires ValidCurve(SMALL)
    ensures Mul(SMALL, 1, Infinity) == Infinity
  {
    assert NMul(SMALL, 0, Infinity) == Infinity;
  }
}
