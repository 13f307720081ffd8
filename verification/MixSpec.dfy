/**
 What the audio mixer must compute (libffabi/src/audio_mix.c): the unreduced mixing matrix in
 fixed point, and the algebra of leaving silent and pass-through channels out of it.
 */
module MixSpec {

  const MAX_CHANNELS: nat := 32
  const ONE_Q30: int := 0x4000_0000
  const TWO_31: int := 0x8000_0000
  const TWO_63: int := 0x8000_0000_0000_0000

  type Int32 = x: int | -0x8000_0000 <= x < 0x8000_0000 witness 0

  // ---------- fixed point ----------

  /** av_clipl_int32 */
  function Clip(x: int): (r: Int32)
    ensures -TWO_31 <= x < TWO_31 ==> r == x
  {
    if x < -TWO_31 then -TWO_31 else if x >= TWO_31 then TWO_31 - 1 else x
  }

  /** llrint: to the nearest integer, halves to the even one. */
  function RoundEven(x: real): int {
    var f := x.Floor;
    var d := x - f as real;
    if d < 0.5 then f else if d > 0.5 then f + 1 else if f % 2 == 0 then f else f + 1
  }

  /** The conversion of one coefficient. */
  function Q30(v: real): Int32 {
    Clip(RoundEven(ONE_Q30 as real * v))
  }

  /** q is the integer nearest to 2^30 times v, the even one of two, or the end of the 32-bit range next to it. */
  predicate Nearest(v: real, q: int) {
    var y := ONE_Q30 as real * v;
    if y >= TWO_31 as real - 0.5 then q == TWO_31 - 1
    else if y < -(TWO_31 as real) - 0.5 then q == -TWO_31
    else q as real - 0.5 <= y <= q as real + 0.5 && (y == q as real - 0.5 || y == q as real + 0.5 ==> q % 2 == 0)
  }

  lemma Q30IsNearest(v: real)
    ensures Nearest(v, Q30(v))
  {
    var y := ONE_Q30 as real * v;
    NearestInteger(y);
  }

  lemma NearestInteger(y: real)
    ensures var q := RoundEven(y);
      q as real - 0.5 <= y <= q as real + 0.5 && (y == q as real - 0.5 || y == q as real + 0.5 ==> q % 2 == 0)
  {
  }

  lemma Q30OfZeroAndOne()
    ensures Q30(0.0) == 0 && Q30(1.0) == ONE_Q30
  {
    assert (ONE_Q30 as real).Floor == ONE_Q30;
    assert (0.0).Floor == 0;
  }

  /** Two's complement wrap-around of a 64-bit accumulator. */
  function Wrap64(x: int): (r: int)
    ensures -TWO_63 <= r < TWO_63
    ensures -TWO_63 <= x < TWO_63 ==> r == x
  {
    (x + TWO_63) % (2 * TWO_63) - TWO_63
  }

  /** y is the integer part of s / 2^30, or the end of the 32-bit range that lies next to it. */
  predicate Shifted(s: int, y: int) {
    if s >= TWO_31 * ONE_Q30 then y == TWO_31 - 1
    else if s < -TWO_31 * ONE_Q30 then y == -TWO_31
    else y * ONE_Q30 <= s < (y + 1) * ONE_Q30
  }

  /** sum >> 30, clipped. */
  function Finish(sum: int): (y: Int32)
    ensures Shifted(sum, y)
  {
    Clip(sum / ONE_Q30)
  }

  lemma FinishOfOne(x: Int32)
    ensures Finish(x * ONE_Q30) == x
  {
    assert x * ONE_Q30 / ONE_Q30 == x;
  }

  // ---------- the unreduced mix ----------

  /** The mixing matrix: row o, column i. */
  type Matrix = seq<seq<real>>

  ghost predicate Shape(m: Matrix, ins: nat, outs: nat) {
    && 0 < ins <= MAX_CHANNELS && 0 < outs <= MAX_CHANNELS
    && |m| == outs && forall o :: 0 <= o < outs ==> |m[o]| == ins
  }

  /** The accumulator after the first n inputs of output row `row`. */
  function FullSum(row: seq<real>, x: seq<Int32>, n: nat): int
    requires n <= |row| && n <= |x|
  {
    if n == 0 then 0 else Wrap64(FullSum(row, x, n - 1) + (x[n - 1] as int) * Q30(row[n - 1]))
  }

  /** Output o for one sample of every input. */
  function FullMix(m: Matrix, ins: nat, outs: nat, x: seq<Int32>, o: nat): Int32
    requires Shape(m, ins, outs) && |x| == ins && o < outs
  {
    Finish(FullSum(m[o], x, ins))
  }

  // ---------- channels that need no mixing ----------

  predicate RowZero(m: Matrix, ins: nat, outs: nat, o: nat)
    requires Shape(m, ins, outs) && o < outs
  {
    forall i :: 0 <= i < ins ==> m[o][i] == 0.0
  }

  predicate ColZero(m: Matrix, ins: nat, outs: nat, i: nat)
    requires Shape(m, ins, outs) && i < ins
  {
    forall o :: 0 <= o < outs ==> m[o][i] == 0.0
  }

  /** Output o is silent and its slot is not an input to anything. */
  predicate Silent(m: Matrix, ins: nat, outs: nat, o: nat)
    requires Shape(m, ins, outs)
  {
    o < outs && RowZero(m, ins, outs, o) && (o < ins ==> ColZero(m, ins, outs, o))
  }

  /** Input i goes unchanged to output i, and nowhere else, and nothing else goes there. */
  predicate Pass(m: Matrix, ins: nat, outs: nat, i: nat)
    requires Shape(m, ins, outs)
  {
    && i < ins && i < outs
    && (forall o :: 0 <= o < outs ==> m[o][i] == if o == i then 1.0 else 0.0)
    && (forall j :: 0 <= j < ins && j != i ==> m[i][j] == 0.0)
  }

  predicate Unused(m: Matrix, ins: nat, outs: nat, i: nat)
    requires Shape(m, ins, outs)
  {
    outs <= i < ins && ColZero(m, ins, outs, i)
  }

  /** The slots that remain. */
  predicate Keep(m: Matrix, ins: nat, outs: nat, i: nat)
    requires Shape(m, ins, outs)
  {
    !Silent(m, ins, outs, i) && !Pass(m, ins, outs, i) && !Unused(m, ins, outs, i)
  }

  /** The kept slots below n, in order. */
  function KeepList(m: Matrix, ins: nat, outs: nat, n: nat): (ks: seq<nat>)
    requires Shape(m, ins, outs)
    ensures |ks| <= n
    ensures forall k :: 0 <= k < |ks| ==> ks[k] < n && Keep(m, ins, outs, ks[k])
    ensures forall j, k :: 0 <= j < k < |ks| ==> ks[j] < ks[k]
  {
    if n == 0 then []
    else if Keep(m, ins, outs, n - 1) then KeepList(m, ins, outs, n - 1) + [n - 1]
    else KeepList(m, ins, outs, n - 1)
  }

  lemma {:induction false} KeepListPrefix(m: Matrix, ins: nat, outs: nat, a: nat, b: nat)
    requires Shape(m, ins, outs) && a <= b
    ensures KeepList(m, ins, outs, a) <= KeepList(m, ins, outs, b)
    decreases b - a
  {
    hide Keep, KeepList;
    if a < b {
      KeepListPrefix(m, ins, outs, a, b - 1);
      KeepListStep(m, ins, outs, b);
    }
  }

  // A kept slot has the rank of its channel in the list.
  lemma Rank(m: Matrix, ins: nat, outs: nat, o: nat, n: nat)
    requires Shape(m, ins, outs) && o < n && Keep(m, ins, outs, o)
    ensures var a := |KeepList(m, ins, outs, o)|; a < |KeepList(m, ins, outs, n)| && KeepList(m, ins, outs, n)[a] == o
  {
    hide *;
    KeepListStep(m, ins, outs, o + 1);
    KeepListPrefix(m, ins, outs, o + 1, n);
    NextElement(KeepList(m, ins, outs, o), o, KeepList(m, ins, outs, n));
  }

  lemma NextElement(a: seq<nat>, x: nat, b: seq<nat>)
    requires a + [x] <= b
    ensures |a| < |b| && b[|a|] == x
  {
    assert (a + [x])[|a|] == x;
  }

  lemma NothingKept(m: Matrix, ins: nat, outs: nat, i: nat, n: nat)
    requires Shape(m, ins, outs) && i < n && |KeepList(m, ins, outs, n)| == 0
    ensures !Keep(m, ins, outs, i)
  {
    hide *;
    if Keep(m, ins, outs, i) {
      Rank(m, ins, outs, i, n);
    }
  }

  // ---------- leaving channels out does not change a sum ----------

  /** The accumulator over the compacted inputs ks. */
  function CompactSum(coefs: seq<Int32>, ys: seq<Int32>, n: nat): int
    requires n <= |coefs| && n <= |ys|
  {
    if n == 0 then 0 else Wrap64(CompactSum(coefs, ys, n - 1) + (ys[n - 1] as int) * coefs[n - 1])
  }

  function Select<T>(xs: seq<T>, ks: seq<nat>): (ys: seq<T>)
    requires forall k :: 0 <= k < |ks| ==> ks[k] < |xs|
    ensures |ys| == |ks| && forall k :: 0 <= k < |ks| ==> ys[k] == xs[ks[k]]
  {
    seq(|ks|, k requires 0 <= k < |ks| => xs[ks[k]])
  }

  function Quantise(row: seq<real>): (qs: seq<Int32>)
    ensures |qs| == |row| && forall i :: 0 <= i < |row| ==> qs[i] == Q30(row[i])
  {
    seq(|row|, i requires 0 <= i < |row| => Q30(row[i]))
  }

  // A dropped input has coefficient zero in every row that is still mixed.
  lemma DroppedCoefficient(m: Matrix, ins: nat, outs: nat, o: nat, i: nat)
    requires Shape(m, ins, outs) && o < outs && i < ins
    requires Keep(m, ins, outs, o) && !Keep(m, ins, outs, i)
    ensures m[o][i] == 0.0
  {
  }

  lemma {:induction false} SumInRange(row: seq<real>, x: seq<Int32>, n: nat)
    requires n <= |row| && n <= |x|
    ensures -TWO_63 <= FullSum(row, x, n) < TWO_63
  {
  }

  lemma {:induction false} CompactSumSame(a: seq<Int32>, b: seq<Int32>, xs: seq<Int32>, ys: seq<Int32>, n: nat)
    requires n <= |a| && n <= |b| && n <= |xs| && n <= |ys|
    requires forall k :: 0 <= k < n ==> a[k] == b[k] && xs[k] == ys[k]
    ensures CompactSum(a, xs, n) == CompactSum(b, ys, n)
  {
    if n > 0 {
      CompactSumSame(a, b, xs, ys, n - 1);
    }
  }

  /** The compacted accumulator equals the full one, for every row that is still mixed. */
  lemma {:induction false} CompactIsFull(m: Matrix, ins: nat, outs: nat, o: nat, x: seq<Int32>, n: nat)
    requires Shape(m, ins, outs) && o < outs && Keep(m, ins, outs, o) && |x| == ins && n <= ins
    ensures var ks := KeepList(m, ins, outs, n);
      CompactSum(Select(Quantise(m[o]), ks), Select(x, ks), |ks|) == FullSum(m[o], x, n)
    decreases n
  {
    hide Keep, Wrap64, Q30, FullSum, CompactSum, Quantise, Select, KeepList;
    KeepListStep(m, ins, outs, n);
    if n == 0 {
      EmptySums(m[o], x, Select(Quantise(m[o]), []), Select(x, []));
    } else {
      CompactIsFull(m, ins, outs, o, x, n - 1);
      if Keep(m, ins, outs, n - 1) {
        NextSums(m[o], x, n, KeepList(m, ins, outs, n - 1));
      } else {
        DroppedCoefficient(m, ins, outs, o, n - 1);
        SkippedTerm(m[o], x, n);
      }
    }
  }

  lemma KeepListStep(m: Matrix, ins: nat, outs: nat, n: nat)
    requires Shape(m, ins, outs)
    ensures KeepList(m, ins, outs, n) ==
      if n == 0 then []
      else if Keep(m, ins, outs, n - 1) then KeepList(m, ins, outs, n - 1) + [n - 1]
      else KeepList(m, ins, outs, n - 1)
  {
    hide Keep;
  }

  lemma EmptySums(row: seq<real>, x: seq<Int32>, a: seq<Int32>, ys: seq<Int32>)
    ensures FullSum(row, x, 0) == CompactSum(a, ys, 0) == 0
  {
  }

  // Both accumulators add the same last term.
  lemma NextSums(row: seq<real>, x: seq<Int32>, n: nat, js: seq<nat>)
    requires 0 < n <= |row| && n <= |x| && forall k :: 0 <= k < |js| ==> js[k] < n - 1
    requires CompactSum(Select(Quantise(row), js), Select(x, js), |js|) == FullSum(row, x, n - 1)
    ensures var ks := js + [n - 1];
      CompactSum(Select(Quantise(row), ks), Select(x, ks), |ks|) == FullSum(row, x, n)
  {
    hide Wrap64, Q30, Quantise, Select;
    var ks, q := js + [n - 1], Quantise(row);
    CompactSumSame(Select(q, ks), Select(q, js), Select(x, ks), Select(x, js), |js|);
  }

  lemma SkippedTerm(row: seq<real>, x: seq<Int32>, n: nat)
    requires 0 < n <= |row| && n <= |x| && row[n - 1] == 0.0
    ensures FullSum(row, x, n) == FullSum(row, x, n - 1)
  {
    hide Wrap64, Q30;
    Q30OfZeroAndOne();
    SumInRange(row, x, n - 1);
    WrapSmall(FullSum(row, x, n - 1));
    assert (x[n - 1] as int) * 0 == 0;
  }

  lemma WrapSmall(x: int)
    requires -TWO_63 <= x < TWO_63
    ensures Wrap64(x) == x
  {
  }

  /** A silent output of the full matrix is zero. */
  lemma {:induction false} SilentSum(row: seq<real>, x: seq<Int32>, n: nat)
    requires n <= |row| && n <= |x| && forall i :: 0 <= i < n ==> row[i] == 0.0
    ensures FullSum(row, x, n) == 0
  {
    hide Q30;
    Q30OfZeroAndOne();
    if n > 0 {
      SilentSum(row, x, n - 1);
      assert x[n - 1] * 0 == 0;
    }
  }

  lemma SilentMix(m: Matrix, ins: nat, outs: nat, x: seq<Int32>, o: nat)
    requires Shape(m, ins, outs) && |x| == ins && o < outs && RowZero(m, ins, outs, o)
    ensures FullMix(m, ins, outs, x, o) == 0
  {
    SilentSum(m[o], x, ins);
  }

  /** A pass-through output of the full matrix is its input. */
  lemma {:induction false} PassSum(row: seq<real>, x: seq<Int32>, i: nat, n: nat)
    requires n <= |row| && n <= |x| && i < |row| && i < |x|
    requires forall j :: 0 <= j < |row| ==> row[j] == if j == i then 1.0 else 0.0
    ensures FullSum(row, x, n) == if i < n then x[i] * ONE_Q30 else 0
    decreases n
  {
    hide Q30;
    Q30OfZeroAndOne();
    if n > 0 {
      PassSum(row, x, i, n - 1);
      assert x[n - 1] * 0 == 0;
    }
  }

  lemma PassMix(m: Matrix, ins: nat, outs: nat, x: seq<Int32>, o: nat)
    requires Shape(m, ins, outs) && |x| == ins && o < outs && Pass(m, ins, outs, o)
    ensures FullMix(m, ins, outs, x, o) == x[o]
  {
    PassSum(m[o], x, o, ins);
    FinishOfOne(x[o]);
  }

  /** Channels of the identity need no mixing at all: each of them passes. */
  lemma {:induction false} IdentityPasses(m: Matrix, n: nat, k: nat)
    requires Shape(m, n, n) && k <= n
    requires forall o, i :: 0 <= o < n && 0 <= i < n ==> m[o][i] == if o == i then 1.0 else 0.0
    ensures forall i :: 0 <= i < n ==> Pass(m, n, n, i) && !Keep(m, n, n, i)
    ensures KeepList(m, n, n, k) == []
    decreases k
  {
    if k > 0 {
      IdentityPasses(m, n, k - 1);
    }
  }

  /** Nor do those of a matrix of zeroes: every output is silent, and every input behind them goes nowhere. */
  lemma {:induction false} ZeroesAreSilent(m: Matrix, ins: nat, outs: nat, k: nat)
    requires Shape(m, ins, outs)
    requires forall o, i :: 0 <= o < outs && 0 <= i < ins ==> m[o][i] == 0.0
    requires k <= ins || k <= outs
    ensures forall i :: 0 <= i < ins || 0 <= i < outs ==>
      if i < outs then Silent(m, ins, outs, i) else Unused(m, ins, outs, i)
    ensures KeepList(m, ins, outs, k) == []
    decreases k
  {
    if k > 0 {
      ZeroesAreSilent(m, ins, outs, k - 1);
    }
  }
}
