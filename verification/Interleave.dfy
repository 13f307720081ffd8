/**
 The main loop of ec_wNAF_mul (libabi/pssl/ec_mult.c): one Horner scheme over many wNAFs,
 with an accumulator that is negated lazily.
 */
module Interleave {
  import opened Modular
  import opened Field
  import opened Curve
  import opened Jacobian
  import opened EcPoint
  import opened Power
  import opened Wnaf
  import opened Multiples

  // ---------- the plain scheme, over whatever the tables hold ----------

  ghost predicate AllInField(c: Curve, t: seq<Affine>)
    requires c.f.p > 0
  {
    forall j :: 0 <= j < |t| ==> InField(c, t[j])
  }

  /** Every digit that is not zero selects an entry of its table. */
  ghost predicate Streams(c: Curve, wnafs: seq<seq<int>>, ts: seq<seq<Affine>>)
    requires c.f.p > 0
  {
    && |wnafs| == |ts|
    && (forall i :: 0 <= i < |ts| ==> AllInField(c, ts[i]))
    && forall i, j :: 0 <= i < |wnafs| && 0 <= j < |wnafs[i]| ==> Selects(ts[i], wnafs[i][j])
  }

  predicate Selects(t: seq<Affine>, d: int) {
    d != 0 ==> Abs(d) / 2 < |t|
  }

  /** The entry for a digit, with the sign of the digit. */
  ghost function Entry(c: Curve, t: seq<Affine>, d: int): (P: Affine)
    requires c.f.p > 0 && AllInField(c, t) && Selects(t, d) && d != 0
    ensures InField(c, P)
  {
    SumInField(c, t[Abs(d) / 2], Infinity);
    if d < 0 then AffNeg(c, t[-d / 2]) else t[d / 2]
  }

  function DigitAt(ds: seq<int>, k: nat): int {
    if k < |ds| then ds[k] else 0
  }

  /** The digits at position k of the first n lists, added to S in order. */
  ghost function RoundSum(c: Curve, wnafs: seq<seq<int>>, ts: seq<seq<Affine>>, k: nat, n: nat, S: Affine): (R: Affine)
    requires c.f.p > 0 && Streams(c, wnafs, ts) && n <= |wnafs| && InField(c, S)
    ensures InField(c, R)
  {
    if n == 0 then S
    else
      var T := RoundSum(c, wnafs, ts, k, n - 1, S);
      var d := DigitAt(wnafs[n - 1], k);
      if d == 0 then T
      else
        SumInField(c, T, Entry(c, ts[n - 1], d));
        AffAdd(c, T, Entry(c, ts[n - 1], d))
  }

  /** The digits from position top - 1 down to k: double, then add one round. */
  ghost function Horner(c: Curve, wnafs: seq<seq<int>>, ts: seq<seq<Affine>>, k: nat, top: nat): (R: Affine)
    requires c.f.p > 0 && Streams(c, wnafs, ts)
    ensures InField(c, R)
    decreases top - k
  {
    if k >= top then Infinity
    else
      var S := Horner(c, wnafs, ts, k + 1, top);
      SumInField(c, S, S);
      RoundSum(c, wnafs, ts, k, |wnafs|, AffAdd(c, S, S))
  }

  ghost predicate NoDigitsFrom(wnafs: seq<seq<int>>, k: nat) {
    forall i :: 0 <= i < |wnafs| ==> |wnafs[i]| <= k
  }

  lemma {:induction false} EmptyRound(c: Curve, wnafs: seq<seq<int>>, ts: seq<seq<Affine>>, k: nat, n: nat, S: Affine)
    requires c.f.p > 0 && Streams(c, wnafs, ts) && n <= |wnafs| && InField(c, S) && NoDigitsFrom(wnafs, k)
    ensures RoundSum(c, wnafs, ts, k, n, S) == S
  {
    hide AffAdd, Streams, InField;
    if n > 0 {
      EmptyRound(c, wnafs, ts, k, n - 1, S);
    }
  }

  /** Where to start does not matter, as long as no digit stands above. */
  lemma {:induction false} HornerTop(c: Curve, wnafs: seq<seq<int>>, ts: seq<seq<Affine>>, k: nat, low: nat, top: nat)
    requires c.f.p > 0 && Streams(c, wnafs, ts) && low <= top && NoDigitsFrom(wnafs, low)
    ensures Horner(c, wnafs, ts, k, low) == Horner(c, wnafs, ts, k, top)
    decreases top - k
  {
    hide Streams, RoundSum, NoDigitsFrom;
    if k < top {
      HornerTop(c, wnafs, ts, k + 1, low, top);
      if k >= low {
        NoDigitsAbove(wnafs, low, k);
        EmptyRound(c, wnafs, ts, k, |wnafs|, Infinity);
      }
    }
  }

  lemma NoDigitsAbove(wnafs: seq<seq<int>>, low: nat, k: nat)
    requires NoDigitsFrom(wnafs, low) && low <= k
    ensures NoDigitsFrom(wnafs, k)
  {
  }

  /** The entry that the digit selects, if it is not zero, is infinity. */
  ghost predicate NoEntry(c: Curve, t: seq<Affine>, d: int)
    requires c.f.p > 0
  {
    d != 0 ==> AllInField(c, t) && Selects(t, d) && t[Abs(d) / 2] == Infinity
  }

  lemma {:induction false} NothingSelected(c: Curve, wnafs: seq<seq<int>>, ts: seq<seq<Affine>>, k: nat, n: nat)
    requires c.f.p > 0 && Streams(c, wnafs, ts) && n <= |wnafs|
    requires forall i, j :: 0 <= i < |wnafs| && 0 <= j < |wnafs[i]| ==> NoEntry(c, ts[i], wnafs[i][j])
    ensures RoundSum(c, wnafs, ts, k, n, Infinity) == Infinity
  {
    if n > 0 {
      NothingSelected(c, wnafs, ts, k, n - 1);
      var d := DigitAt(wnafs[n - 1], k);
      if d != 0 {
        assert NoEntry(c, ts[n - 1], wnafs[n - 1][k]);
      }
    }
  }

  /** If only infinity is selected, nothing is left of the sum. */
  lemma {:induction false} HornerOfNothing(c: Curve, wnafs: seq<seq<int>>, ts: seq<seq<Affine>>, k: nat, top: nat)
    requires c.f.p > 0 && Streams(c, wnafs, ts)
    requires forall i, j :: 0 <= i < |wnafs| && 0 <= j < |wnafs[i]| ==> NoEntry(c, ts[i], wnafs[i][j])
    ensures Horner(c, wnafs, ts, k, top) == Infinity
    decreases top - k
  {
    hide Streams, NoEntry, RoundSum;
    if k < top {
      HornerOfNothing(c, wnafs, ts, k + 1, top);
      NothingSelected(c, wnafs, ts, k, |wnafs|);
    }
  }

  // ---------- the accumulator ----------

  ghost predicate AllValid(c: Curve, objs: seq<EcPoint>)
    requires c.f.p > 0
    reads objs
  {
    forall i :: 0 <= i < |objs| ==> objs[i].Valid(c)
  }

  ghost function Values(c: Curve, objs: seq<EcPoint>): (vs: seq<Affine>)
    requires c.f.p > 0
    reads objs
    ensures |vs| == |objs| && forall k :: 0 <= k < |objs| ==> vs[k] == objs[k].Value(c)
  {
    seq(|objs|, k requires 0 <= k < |objs| reads objs => objs[k].Value(c))
  }

  lemma ValueInField(c: Curve, j: Jac)
    requires c.f.p > 0
    ensures InField(c, ToAffine(c, j))
  {
  }

  lemma ValuesInField(c: Curve, objs: seq<EcPoint>)
    requires c.f.p > 0
    ensures AllInField(c, Values(c, objs))
  {
    hide ToAffine, InField;
    forall k | 0 <= k < |objs|
      ensures InField(c, Values(c, objs)[k])
    {
      ValueInField(c, objs[k].J());
    }
  }

  ghost predicate TableHolds(c: Curve, table: seq<EcPoint>, t: seq<Affine>)
    requires c.f.p > 0
    reads table
  {
    |t| <= |table| && forall j :: 0 <= j < |t| ==> table[j].Valid(c) && table[j].Value(c) == t[j]
  }

  /**
   S is the sum accumulated so far.  While r_is_at_infinity is set the contents of r are
   unused; while r_is_inverted is set r holds the negated sum.
   */
  ghost predicate Accumulates(c: Curve, r: Jac, inverted: bool, atInfinity: bool, S: Affine)
    requires ValidCurve(c)
  {
    && ValidJac(c, r) && InField(c, S)
    && (atInfinity ==> S == Infinity)
    && (!atInfinity ==> ToAffine(c, r) == if inverted then AffNeg(c, S) else S)
  }

  /** The start of an outer round: the accumulator is doubled. */
  method DoubleAccumulator(c: Curve, r: EcPoint, inverted: bool, atInfinity: bool, ghost S: Affine)
    requires ValidCurve(c) && Accumulates(c, r.J(), inverted, atInfinity, S)
    modifies r
    ensures Accumulates(c, r.J(), inverted, atInfinity, AffAdd(c, S, S))
  {
    hide AffAdd, AffNeg, ToAffine, Cong, CoefA, CoefB;
    NegSum(c, S, S);
    if !atInfinity {
      Dbl(c, r, r);
    } else {
      NothingDoubled(c);
    }
  }

  lemma NothingDoubled(c: Curve)
    requires c.f.p > 0
    ensures AffAdd(c, Infinity, Infinity) == Infinity
  {
  }

  lemma NothingAdded(c: Curve, M: Affine)
    requires c.f.p > 0
    ensures AffAdd(c, Infinity, M) == M
  {
  }

  /** The body of the inner loop for a non-zero digit. */
  method AddDigit(c: Curve, r: EcPoint, table: seq<EcPoint>, d: int, rIsInverted: bool, rIsAtInfinity: bool,
                  ghost t: seq<Affine>, ghost S: Affine)
    returns (inverted: bool, atInfinity: bool)
    requires ValidCurve(c) && TableHolds(c, table, t) && AllInField(c, t) && r !in table
    requires Selects(t, d) && d != 0
    requires Accumulates(c, r.J(), rIsInverted, rIsAtInfinity, S)
    modifies r
    ensures !atInfinity
    ensures Accumulates(c, r.J(), inverted, atInfinity, AffAdd(c, S, Entry(c, t, d)))
  {
    hide AffAdd, AffNeg, ToAffine, Cong, CoefA, CoefB;
    inverted, atInfinity := rIsInverted, rIsAtInfinity;
    var isNeg := d < 0;
    var digit := d;
    if isNeg {
      digit := -digit;
    }
    ghost var M := Entry(c, t, d);
    NegSum(c, S, M);
    NegTwice(c, S);
    NegTwice(c, t[digit / 2]);
    assert table[digit / 2].Value(c) == t[digit / 2];
    if isNeg != inverted {
      if !atInfinity {
        Invert(c, r);
      }
      inverted := !inverted;
    }
    if atInfinity {
      r.Copy(table[digit / 2]);
      atInfinity := false;
      NothingAdded(c, M);
    } else {
      Add(c, r, r, table[digit / 2]);
    }
  }

  // ---------- the loops ----------

  ghost function Objects(tables: seq<seq<EcPoint>>): (s: set<EcPoint>)
    ensures forall i, o :: 0 <= i < |tables| && o in tables[i] ==> o in s
    ensures forall o :: o in s ==> exists i :: 0 <= i < |tables| && o in tables[i]
  {
    set i, o | 0 <= i < |tables| && o in tables[i] :: o
  }

  ghost predicate AllHold(c: Curve, tables: seq<seq<EcPoint>>, ts: seq<seq<Affine>>)
    requires c.f.p > 0
    reads Objects(tables)
  {
    |ts| == |tables| && forall i :: 0 <= i < |tables| ==> TableHolds(c, tables[i], ts[i])
  }

  ghost predicate Apart(r: EcPoint, tables: seq<seq<EcPoint>>) {
    forall i :: 0 <= i < |tables| ==> r !in tables[i]
  }

  lemma StreamAt(c: Curve, wnafs: seq<seq<int>>, ts: seq<seq<Affine>>, i: nat, k: nat)
    requires c.f.p > 0 && Streams(c, wnafs, ts) && i < |wnafs|
    ensures |ts| == |wnafs| && AllInField(c, ts[i]) && Selects(ts[i], DigitAt(wnafs[i], k))
  {
  }

  /** One round: the inner loop over all wNAFs at digit position k. */
  method OneRound(c: Curve, r: EcPoint, wnafs: seq<seq<int>>, valSub: seq<seq<EcPoint>>, k: nat,
                  rIsInverted: bool, rIsAtInfinity: bool, ghost ts: seq<seq<Affine>>, ghost S: Affine)
    returns (inverted: bool, atInfinity: bool)
    requires ValidCurve(c) && |valSub| == |wnafs| && Streams(c, wnafs, ts)
    requires AllHold(c, valSub, ts) && Apart(r, valSub)
    requires InField(c, S) && Accumulates(c, r.J(), rIsInverted, rIsAtInfinity, S)
    modifies r
    ensures Accumulates(c, r.J(), inverted, atInfinity, RoundSum(c, wnafs, ts, k, |wnafs|, S))
  {
    hide Accumulates, AffAdd, InField, TableHolds, Streams, Entry, ValidField;
    inverted, atInfinity := rIsInverted, rIsAtInfinity;
    for i := 0 to |wnafs|
      invariant Accumulates(c, r.J(), inverted, atInfinity, RoundSum(c, wnafs, ts, k, i, S))
      invariant AllHold(c, valSub, ts)
    {
      StreamAt(c, wnafs, ts, i, k);
      if |wnafs[i]| > k && wnafs[i][k] != 0 {
        inverted, atInfinity := AddDigit(c, r, valSub[i], wnafs[i][k], inverted, atInfinity, ts[i],
                                         RoundSum(c, wnafs, ts, k, i, S));
      }
    }
  }

  /**
   The main loop and the clean-up after it.  Whatever the tables hold, r becomes the result of the
   plain Horner scheme: the lazy negation and the two flags do not show.
   */
  method InterleavedSum(c: Curve, r: EcPoint, wnafs: seq<seq<int>>, valSub: seq<seq<EcPoint>>, maxLen: nat,
                    ghost ts: seq<seq<Affine>>)
    requires ValidCurve(c) && r.Valid(c) && |valSub| == |wnafs| && Streams(c, wnafs, ts)
    requires AllHold(c, valSub, ts) && Apart(r, valSub)
    modifies r
    ensures r.Valid(c)
    ensures r.Value(c) == Horner(c, wnafs, ts, 0, maxLen)
  {
    hide AffAdd, InField, TableHolds, Streams, RoundSum, ValidField;
    var rIsInverted, rIsAtInfinity := false, true;
    NothingYet(c, r.J(), wnafs, ts, maxLen);
    for k := maxLen downto 0
      invariant Accumulates(c, r.J(), rIsInverted, rIsAtInfinity, Horner(c, wnafs, ts, k, maxLen))
      invariant AllHold(c, valSub, ts)
    {
      ghost var S := Horner(c, wnafs, ts, k + 1, maxLen);
      SumInField(c, S, S);
      DoubleAccumulator(c, r, rIsInverted, rIsAtInfinity, S);
      rIsInverted, rIsAtInfinity :=
        OneRound(c, r, wnafs, valSub, k, rIsInverted, rIsAtInfinity, ts, AffAdd(c, S, S));
    }
    FinishAccumulator(c, r, rIsInverted, rIsAtInfinity, Horner(c, wnafs, ts, 0, maxLen));
  }

  lemma NothingYet(c: Curve, j: Jac, wnafs: seq<seq<int>>, ts: seq<seq<Affine>>, top: nat)
    requires ValidCurve(c) && ValidJac(c, j) && Streams(c, wnafs, ts)
    ensures Accumulates(c, j, false, true, Horner(c, wnafs, ts, top, top))
  {
  }

  method FinishAccumulator(c: Curve, r: EcPoint, rIsInverted: bool, rIsAtInfinity: bool, ghost S: Affine)
    requires ValidCurve(c) && Accumulates(c, r.J(), rIsInverted, rIsAtInfinity, S)
    modifies r
    ensures r.Valid(c) && r.Value(c) == S
  {
    hide Cong, CoefA, CoefB;
    NegTwice(c, S);
    if rIsAtInfinity {
      r.SetToInfinity();
    } else if rIsInverted {
      Invert(c, r);
    }
  }

  // ---------- the sum, where the entries are right ----------

  /** The entry that the digit selects, if it is not zero, is the multiple it stands for. */
  ghost predicate RightEntry(c: Curve, t: seq<Affine>, d: int, B: Affine)
    requires ValidCurve(c) && OnCurve(c, B)
  {
    d != 0 ==> AllInField(c, t) && Selects(t, d) && Entry(c, t, d) == Mul(c, d, B)
  }

  ghost predicate RightEntries(c: Curve, wnafs: seq<seq<int>>, ts: seq<seq<Affine>>, Bs: seq<Affine>)
    requires ValidCurve(c) && AllOnCurve(c, Bs)
  {
    && |Bs| == |wnafs| == |ts|
    && forall i, k :: 0 <= i < |wnafs| && 0 <= k < |wnafs[i]| ==> RightEntry(c, ts[i], wnafs[i][k], Bs[i])
  }

  /** t[j] is (2j+1)*B for every j below 2^(w-1). */
  ghost predicate OddTable(c: Curve, t: seq<Affine>, B: Affine, w: nat)
    requires ValidCurve(c) && OnCurve(c, B)
  {
    && w >= 1 && Pow2(w - 1) <= |t|
    && forall j :: 0 <= j < Pow2(w - 1) ==> t[j] == Mul(c, 2 * j + 1, B)
  }

  lemma DigitIndex(d: int, w: nat)
    requires w >= 1 && WDigit(d, w) && d != 0
    ensures 0 <= Abs(d) / 2 < Pow2(w - 1) && 2 * (Abs(d) / 2) + 1 == Abs(d)
  {
    assert Pow2(w) == 2 * Pow2(w - 1);
  }

  // An entry of the right value, for either sign of the digit.
  lemma EntryIsMultiple(c: Curve, t: seq<Affine>, d: int, B: Affine)
    requires ValidCurve(c) && OnCurve(c, B) && AllInField(c, t) && Selects(t, d) && d != 0
    requires t[Abs(d) / 2] == Mul(c, Abs(d), B)
    ensures Entry(c, t, d) == Mul(c, d, B)
  {
    hide AffNeg, OnCurve, InField;
    MulNeg(c, -d, B);
  }

  /** The coefficients after the digits at k and above have been used. */
  ghost function Coefs(wnafs: seq<seq<int>>, k: nat): (cs: seq<int>)
    ensures |cs| == |wnafs| && forall i :: 0 <= i < |wnafs| ==> cs[i] == ValueFrom(wnafs[i], k)
  {
    seq(|wnafs|, i requires 0 <= i < |wnafs| => ValueFrom(wnafs[i], k))
  }

  // Halfway through round k: the first n coefficients have their digit, the rest are only doubled.
  ghost predicate Round(wnafs: seq<seq<int>>, k: nat, n: nat, cur: seq<int>) {
    && |cur| == |wnafs|
    && forall i :: 0 <= i < |wnafs| ==>
      cur[i] == if i < n then ValueFrom(wnafs[i], k) else 2 * ValueFrom(wnafs[i], k + 1)
  }

  lemma RoundStart(c: Curve, wnafs: seq<seq<int>>, k: nat, Bs: seq<Affine>) returns (cur: seq<int>)
    requires IsGroup(c) && AllOnCurve(c, Bs) && |Bs| == |wnafs|
    ensures Round(wnafs, k, 0, cur) && |cur| == |wnafs|
    ensures var S := LinComb(c, Coefs(wnafs, k + 1), Bs, |Bs|); LinComb(c, cur, Bs, |Bs|) == AffAdd(c, S, S)
  {
    hide AffAdd, OnCurve, Associative, ValueFrom, LinComb;
    cur := seq(|wnafs|, i requires 0 <= i < |wnafs| => 2 * ValueFrom(wnafs[i], k + 1));
    LinCombDouble(c, Coefs(wnafs, k + 1), cur, Bs, |Bs|);
  }

  lemma RoundEnd(c: Curve, wnafs: seq<seq<int>>, k: nat, cur: seq<int>, Bs: seq<Affine>)
    requires ValidCurve(c) && AllOnCurve(c, Bs) && |Bs| == |wnafs| && Round(wnafs, k, |wnafs|, cur)
    ensures LinComb(c, cur, Bs, |Bs|) == LinComb(c, Coefs(wnafs, k), Bs, |Bs|)
  {
    hide OnCurve, ValueFrom, LinComb;
    LinCombSame(c, cur, Coefs(wnafs, k), Bs, Bs, |Bs|);
  }

  lemma RoundStep(wnafs: seq<seq<int>>, k: nat, n: nat, cur: seq<int>)
    requires Round(wnafs, k, n, cur) && n < |wnafs|
    ensures Round(wnafs, k, n + 1, cur[n := cur[n] + DigitAt(wnafs[n], k)])
  {
  }

  lemma OnCurveInField(c: Curve, P: Affine)
    requires c.f.p > 0 && OnCurve(c, P)
    ensures InField(c, P)
  {
  }

  // The inner loop adds to every coefficient its digit.
  lemma {:induction false} RoundIsSum(c: Curve, wnafs: seq<seq<int>>, ts: seq<seq<Affine>>, Bs: seq<Affine>, k: nat,
                                      n: nat, cur0: seq<int>) returns (cur: seq<int>)
    requires IsGroup(c) && Streams(c, wnafs, ts) && AllOnCurve(c, Bs) && RightEntries(c, wnafs, ts, Bs)
    requires n <= |wnafs| && |cur0| == |wnafs| == |Bs| && Round(wnafs, k, 0, cur0)
    requires InField(c, LinComb(c, cur0, Bs, |Bs|))
    ensures |cur| == |wnafs| && Round(wnafs, k, n, cur)
    ensures RoundSum(c, wnafs, ts, k, n, LinComb(c, cur0, Bs, |Bs|)) == LinComb(c, cur, Bs, |Bs|)
  {
    hide AffAdd, OnCurve, InField, Associative, ValueFrom, LinComb, Round, Streams, Entry, Mul;
    if n == 0 {
      cur := cur0;
    } else {
      cur := RoundIsSum(c, wnafs, ts, Bs, k, n - 1, cur0);
      RoundStep(wnafs, k, n - 1, cur);
      var d := DigitAt(wnafs[n - 1], k);
      if d != 0 {
        assert RightEntry(c, ts[n - 1], wnafs[n - 1][k], Bs[n - 1]);
        LinCombUpdate(c, cur, Bs, |Bs|, n - 1, d);
        cur := cur[n - 1 := cur[n - 1] + d];
      } else {
        assert cur[n - 1 := cur[n - 1] + 0] == cur;
      }
    }
  }

  lemma NoValueAbove(c: Curve, wnafs: seq<seq<int>>, k: nat, Bs: seq<Affine>)
    requires ValidCurve(c) && AllOnCurve(c, Bs) && |Bs| == |wnafs| && NoDigitsFrom(wnafs, k)
    ensures LinComb(c, Coefs(wnafs, k), Bs, |Bs|) == Infinity
  {
    LinCombZero(c, Coefs(wnafs, k), Bs, |Bs|);
  }

  /** The scheme then is the sum of Value(wnafs[i])*Bs[i]. */
  lemma {:induction false} HornerIsSum(c: Curve, wnafs: seq<seq<int>>, ts: seq<seq<Affine>>, Bs: seq<Affine>, k: nat, top: nat)
    requires IsGroup(c) && Streams(c, wnafs, ts) && AllOnCurve(c, Bs) && |Bs| == |wnafs| && RightEntries(c, wnafs, ts, Bs)
    requires k <= top && NoDigitsFrom(wnafs, top)
    ensures Horner(c, wnafs, ts, k, top) == LinComb(c, Coefs(wnafs, k), Bs, |Bs|)
    decreases top - k
  {
    hide AffAdd, OnCurve, InField, Associative, LinComb, Coefs, Round, Streams, RightEntries, RoundSum, NoDigitsFrom;
    if k == top {
      NoValueAbove(c, wnafs, k, Bs);
    } else {
      HornerIsSum(c, wnafs, ts, Bs, k + 1, top);
      var cur0 := RoundStart(c, wnafs, k, Bs);
      OnCurveInField(c, LinComb(c, cur0, Bs, |Bs|));
      var cur := RoundIsSum(c, wnafs, ts, Bs, k, |wnafs|, cur0);
      RoundEnd(c, wnafs, k, cur, Bs);
    }
  }
}
