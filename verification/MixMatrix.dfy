/**
 The end of ff_avresample_build_matrix (libffabi/src/audio_mix_matrix.c, lines 267-287): the
 64 x 64 matrix is compacted to the channels of the two layouts and normalised.  It follows that
 the 64-bit accumulator of the mixer cannot overflow.
 */
module MixMatrix {
  import opened MixSpec

  const BITS: nat := 64

  /** A channel layout: which of the 64 channels are present. */
  type Layout = l: seq<bool> | |l| == BITS witness seq(BITS, _ => false)

  type Wide = m: seq<seq<real>> | |m| == BITS && forall i :: 0 <= i < BITS ==> |m[i]| == BITS
    witness seq(BITS, _ => seq(BITS, _ => 0.0))

  /** The present channels below n. */
  function Present(l: Layout, n: nat): (ps: seq<nat>)
    requires n <= BITS
    ensures |ps| <= n && forall k :: 0 <= k < |ps| ==> ps[k] < n && l[ps[k]]
  {
    if n == 0 then [] else if l[n - 1] then Present(l, n - 1) + [n - 1] else Present(l, n - 1)
  }

  /** In increasing order, and none is missing. */
  lemma {:induction false} PresentIsSorted(l: Layout, n: nat)
    requires n <= BITS
    ensures forall j, k :: 0 <= j < k < |Present(l, n)| ==> Present(l, n)[j] < Present(l, n)[k]
    ensures forall i :: 0 <= i < n && l[i] ==> i in Present(l, n)
  {
    if n > 0 {
      PresentIsSorted(l, n - 1);
    }
  }

  /** One past the last present channel. */
  function Stop(l: Layout, n: nat): (k: nat)
    requires n <= BITS
    ensures k <= n
  {
    if n == 0 then 0 else if l[n - 1] then n else Stop(l, n - 1)
  }

  lemma {:induction false} PresentPrefix(l: Layout, a: nat, b: nat)
    requires a <= b <= BITS
    ensures Present(l, a) <= Present(l, b)
    decreases b - a
  {
    if a < b {
      PresentPrefix(l, a, b - 1);
    }
  }

  // Counting present channels reaches its end exactly at the last one.
  lemma {:induction false} StopIsEnd(l: Layout, j: nat, n: nat)
    requires j <= n <= BITS
    ensures |Present(l, j)| < |Present(l, n)| <==> j < Stop(l, n)
    ensures |Present(l, j)| <= |Present(l, n)|
    decreases n - j
  {
    if j < n {
      StopIsEnd(l, j, n - 1);
      PresentPrefix(l, j, n - 1);
    }
  }

  function Abs(x: real): (r: real)
    ensures r >= 0.0 && (r == x || r == -x)
  {
    if x < 0.0 then -x else x
  }

  function AbsSum(row: seq<real>, n: nat): (s: real)
    requires n <= |row|
    ensures s >= 0.0
  {
    if n == 0 then 0.0 else AbsSum(row, n - 1) + Abs(row[n - 1])
  }

  /** The sum of the samples x weighted by the row. */
  function RealSum(row: seq<real>, x: seq<real>, n: nat): real
    requires n <= |row| && n <= |x|
  {
    if n == 0 then 0.0 else RealSum(row, x, n - 1) + row[n - 1] * x[n - 1]
  }

  /** The loudest samples for a row: the signs of its coefficients. */
  function Signs(row: seq<real>): (x: seq<real>)
    ensures |x| == |row| && forall i :: 0 <= i < |x| ==> x[i] == if row[i] < 0.0 then -1.0 else 1.0
  {
    seq(|row|, i requires 0 <= i < |row| => if row[i] < 0.0 then -1.0 else 1.0)
  }

  lemma NotNegative(a: real, b: real)
    requires a >= 0.0 && b >= 0.0
    ensures a * b >= 0.0
  {
  }

  lemma ProductGrows(a: real, b: real, c: real)
    requires a <= b && c >= 0.0
    ensures a * c <= b * c
  {
    NotNegative(b - a, c);
    assert (b - a) * c == b * c - a * c;
  }

  lemma BoundedProduct(a: real, x: real, b: real)
    requires -b <= x <= b
    ensures -(Abs(a) * b) <= a * x <= Abs(a) * b
  {
    var c := Abs(a);
    ProductGrows(-b, x, c);
    ProductGrows(x, b, c);
    assert b * c == c * b && -b * c == -(c * b);
    if a >= 0.0 {
      assert a * x == x * c;
    } else {
      assert a * x == -(x * c);
    }
  }

  lemma AddedProduct(s: real, t: real, b: real, u: real, v: real)
    requires -(s * b) <= u <= s * b && -(t * b) <= v <= t * b
    ensures -((s + t) * b) <= u + v <= (s + t) * b
  {
    assert (s + t) * b == s * b + t * b;
  }

  lemma {:induction false} RealSumBound(row: seq<real>, x: seq<real>, n: nat, b: real)
    requires n <= |row| == |x| && b > 0.0 && forall i :: 0 <= i < |x| ==> -b <= x[i] <= b
    ensures -(AbsSum(row, n) * b) <= RealSum(row, x, n) <= AbsSum(row, n) * b
  {
    hide *;
    SumsStep(row, x, n);
    if n > 0 {
      RealSumBound(row, x, n - 1, b);
      BoundedProduct(row[n - 1], x[n - 1], b);
      AddedProduct(AbsSum(row, n - 1), Abs(row[n - 1]), b, RealSum(row, x, n - 1), row[n - 1] * x[n - 1]);
    } else {
      ZeroTimes(b);
    }
  }

  lemma SumsStep(row: seq<real>, x: seq<real>, n: nat)
    requires n <= |row| && n <= |x|
    ensures n == 0 ==> AbsSum(row, n) == RealSum(row, x, n) == 0.0
    ensures n > 0 ==>
      && AbsSum(row, n) == AbsSum(row, n - 1) + Abs(row[n - 1])
      && RealSum(row, x, n) == RealSum(row, x, n - 1) + row[n - 1] * x[n - 1]
  {
  }

  lemma ZeroTimes(b: real)
    ensures 0.0 * b == 0.0
  {
  }

  lemma SignProduct(a: real, x: real)
    requires x == if a < 0.0 then -1.0 else 1.0
    ensures a * x == Abs(a)
  {
  }

  lemma {:induction false} SignsReach(row: seq<real>, n: nat)
    requires n <= |row|
    ensures RealSum(row, Signs(row), n) == AbsSum(row, n)
  {
    hide Abs, Signs;
    if n > 0 {
      SignsReach(row, n - 1);
      SignProduct(row[n - 1], Signs(row)[n - 1]);
    }
  }

  lemma TimesOne(a: real)
    ensures a * 1.0 == a
  {
  }

  /** The absolute sum is the greatest sum that samples between -1 and 1 can have. */
  lemma AbsSumIsGreatest(row: seq<real>, x: seq<real>)
    requires |row| == |x| && forall i :: 0 <= i < |x| ==> -1.0 <= x[i] <= 1.0
    ensures RealSum(row, x, |x|) <= AbsSum(row, |row|) == RealSum(row, Signs(row), |row|)
  {
    RealSumBound(row, x, |x|, 1.0);
    TimesOne(AbsSum(row, |row|));
    SignsReach(row, |row|);
  }

  function RMax(a: real, b: real): real {
    if a > b then a else b
  }

  /** The greatest absolute sum over the first n rows, each up to column w. */
  function MaxSum(m: Wide, w: nat, n: nat): (s: real)
    requires w <= BITS && n <= BITS
    ensures s >= 0.0
    ensures forall i :: 0 <= i < n ==> AbsSum(m[i], w) <= s
    ensures n > 0 ==> exists i :: 0 <= i < n && AbsSum(m[i], w) == s
  {
    if n == 0 then 0.0 else RMax(MaxSum(m, w, n - 1), AbsSum(m[n - 1], w))
  }

  /** The divisor of the normalisation. */
  function Divisor(m: Wide, inL: Layout, outL: Layout): (d: real)
    ensures d >= 1.0
  {
    RMax(MaxSum(m, Stop(inL, BITS), Stop(outL, BITS)), 1.0)
  }

  // ---------- the two loops ----------

  ghost predicate Fits(out: array2<real>, inL: Layout, outL: Layout) {
    out.Length0 == |Present(outL, BITS)| && out.Length1 == |Present(inL, BITS)|
  }

  /** One row: the slot of an absent channel is written again by the next present one. */
  method TransferRow(m: Wide, inL: Layout, outL: Layout, i: nat, out: array2<real>, outI: nat) returns (sum: real)
    requires Fits(out, inL, outL) && i < BITS && outI < out.Length0
    modifies out
    ensures forall b :: 0 <= b < out.Length1 ==> out[outI, b] == m[i][Present(inL, BITS)[b]]
    ensures forall a, b :: 0 <= a < out.Length0 && a != outI && 0 <= b < out.Length1 ==> out[a, b] == old(out[a, b])
    ensures sum == AbsSum(m[i], Stop(inL, BITS))
  {
    hide Present, Stop;
    sum := 0.0;
    var j, outJ := 0, 0;
    StopIsEnd(inL, 0, BITS);
    PresentStep(inL, 0);
    while outJ < out.Length1 && j < BITS
      invariant j <= Stop(inL, BITS) && outJ == |Present(inL, j)| <= out.Length1
      invariant outJ < out.Length1 <==> j < Stop(inL, BITS)
      invariant sum == AbsSum(m[i], j)
      invariant forall b :: 0 <= b < outJ ==> out[outI, b] == m[i][Present(inL, BITS)[b]]
      invariant forall a, b :: 0 <= a < out.Length0 && a != outI && 0 <= b < out.Length1 ==> out[a, b] == old(out[a, b])
    {
      NextPresent(inL, j);
      out[outI, outJ] := m[i][j];
      sum := sum + Abs(m[i][j]);
      if inL[j] {
        outJ := outJ + 1;
      }
      j := j + 1;
    }
  }

  // What one step of the compaction loops does to the count.
  lemma NextPresent(l: Layout, j: nat)
    requires j < BITS
    ensures var k, n := |Present(l, j)|, |Present(l, BITS)|;
      && |Present(l, j + 1)| == (if l[j] then k + 1 else k) <= n
      && (l[j] ==> k < n && Present(l, BITS)[k] == j)
      && (|Present(l, j + 1)| < n <==> j + 1 < Stop(l, BITS))
  {
    hide Present, Stop;
    PresentStep(l, j + 1);
    PresentPrefix(l, j + 1, BITS);
    StopIsEnd(l, j + 1, BITS);
    if l[j] {
      assert Present(l, j + 1)[|Present(l, j)|] == j;
    }
  }

  method Transfer(m: Wide, inL: Layout, outL: Layout, out: array2<real>) returns (maxcoef: real)
    requires Fits(out, inL, outL)
    modifies out
    ensures forall a, b :: 0 <= a < out.Length0 && 0 <= b < out.Length1 ==>
      out[a, b] == m[Present(outL, BITS)[a]][Present(inL, BITS)[b]]
    ensures maxcoef == MaxSum(m, Stop(inL, BITS), Stop(outL, BITS))
  {
    hide Present, Stop, AbsSum;
    maxcoef := 0.0;
    var i, outI := 0, 0;
    StopIsEnd(outL, 0, BITS);
    PresentStep(outL, 0);
    while outI < out.Length0 && i < BITS
      invariant i <= Stop(outL, BITS) && outI == |Present(outL, i)| <= out.Length0
      invariant outI < out.Length0 <==> i < Stop(outL, BITS)
      invariant maxcoef == MaxSum(m, Stop(inL, BITS), i)
      invariant forall a, b :: 0 <= a < outI && 0 <= b < out.Length1 ==>
        out[a, b] == m[Present(outL, BITS)[a]][Present(inL, BITS)[b]]
    {
      NextPresent(outL, i);
      var sum := TransferRow(m, inL, outL, i, out, outI);
      maxcoef := RMax(maxcoef, sum);
      if outL[i] {
        outI := outI + 1;
      }
      i := i + 1;
    }
  }

  lemma PresentStep(l: Layout, n: nat)
    requires n <= BITS
    ensures Present(l, n) ==
      if n == 0 then [] else if l[n - 1] then Present(l, n - 1) + [n - 1] else Present(l, n - 1)
  {
  }

  /** No row below the last present output has an absolute sum above one. */
  ghost predicate NoLoudRow(m: Wide, inL: Layout, outL: Layout) {
    forall i :: 0 <= i < Stop(outL, BITS) ==> AbsSum(m[i], Stop(inL, BITS)) <= 1.0
  }

  /** Row i has the greatest absolute sum of these rows. */
  ghost predicate LoudestRow(m: Wide, inL: Layout, outL: Layout, i: int) {
    && 0 <= i < Stop(outL, BITS)
    && forall k :: 0 <= k < Stop(outL, BITS) ==> AbsSum(m[k], Stop(inL, BITS)) <= AbsSum(m[i], Stop(inL, BITS))
  }

  /** The entry of the a-th present output and the b-th present input. */
  function Chosen(m: Wide, inL: Layout, outL: Layout, a: nat, b: nat): real
    requires a < |Present(outL, BITS)| && b < |Present(inL, BITS)|
  {
    m[Present(outL, BITS)[a]][Present(inL, BITS)[b]]
  }

  /** The divisor is one, or the absolute sum of the loudest row if that is greater. */
  lemma DivisorIsAttained(m: Wide, inL: Layout, outL: Layout)
    ensures NoLoudRow(m, inL, outL) ==> Divisor(m, inL, outL) == 1.0
    ensures !NoLoudRow(m, inL, outL) ==>
      exists i :: LoudestRow(m, inL, outL, i) && Divisor(m, inL, outL) == AbsSum(m[i], Stop(inL, BITS))
  {
    hide Stop, AbsSum, MaxSum;
    var w, n := Stop(inL, BITS), Stop(outL, BITS);
    if !NoLoudRow(m, inL, outL) {
      var i :| 0 <= i < n && AbsSum(m[i], w) == MaxSum(m, w, n);
      forall k | 0 <= k < n
        ensures AbsSum(m[k], w) <= AbsSum(m[i], w)
      {
        NotAbove(m, w, n, k);
      }
      assert LoudestRow(m, inL, outL, i);
    } else {
      NothingLoud(m, w, n);
    }
  }

  lemma NotAbove(m: Wide, w: nat, n: nat, k: nat)
    requires w <= BITS && k < n <= BITS
    ensures AbsSum(m[k], w) <= MaxSum(m, w, n)
  {
    hide AbsSum;
  }

  lemma NothingLoud(m: Wide, w: nat, n: nat)
    requires w <= BITS && n <= BITS && forall i :: 0 <= i < n ==> AbsSum(m[i], w) <= 1.0
    ensures MaxSum(m, w, n) <= 1.0
  {
    hide AbsSum;
  }

  /**
   What normalisation is: the entries as they are if no row is louder than one; otherwise every entry
   times the absolute sum of the loudest row is the entry there was.
   */
  lemma NormalByLoudest(m: Wide, inL: Layout, outL: Layout)
    ensures NoLoudRow(m, inL, outL) ==>
      forall a, b :: 0 <= a < |Present(outL, BITS)| && 0 <= b < |Present(inL, BITS)| ==>
        Normal(m, inL, outL, a, b) == Chosen(m, inL, outL, a, b)
    ensures !NoLoudRow(m, inL, outL) ==>
      exists i :: LoudestRow(m, inL, outL, i) &&
        forall a, b :: 0 <= a < |Present(outL, BITS)| && 0 <= b < |Present(inL, BITS)| ==>
          Normal(m, inL, outL, a, b) * AbsSum(m[i], Stop(inL, BITS)) == Chosen(m, inL, outL, a, b)
  {
    hide Stop, AbsSum, MaxSum, Present, Divisor, Quotient, NoLoudRow, LoudestRow;
    DivisorIsAttained(m, inL, outL);
    var d := Divisor(m, inL, outL);
    forall a, b | 0 <= a < |Present(outL, BITS)| && 0 <= b < |Present(inL, BITS)|
      ensures Normal(m, inL, outL, a, b) * d == Chosen(m, inL, outL, a, b)
    {
      QuotientTimes(Chosen(m, inL, outL, a, b), d);
    }
  }

  lemma QuotientTimes(x: real, d: real)
    requires d >= 1.0
    ensures Quotient(x, d) * d == x
  {
  }

  /** Compaction and normalisation: matching entries divided by the greatest sum, if that exceeds one. */
  method BuildTail(m: Wide, inL: Layout, outL: Layout, out: array2<real>)
    requires Fits(out, inL, outL)
    modifies out
    ensures forall a, b :: 0 <= a < out.Length0 && 0 <= b < out.Length1 ==> out[a, b] == Normal(m, inL, outL, a, b)
    ensures NoLoudRow(m, inL, outL) ==>
      forall a, b :: 0 <= a < out.Length0 && 0 <= b < out.Length1 ==> out[a, b] == Chosen(m, inL, outL, a, b)
    ensures !NoLoudRow(m, inL, outL) ==>
      exists i :: LoudestRow(m, inL, outL, i) && forall a, b :: 0 <= a < out.Length0 && 0 <= b < out.Length1 ==>
        out[a, b] * AbsSum(m[i], Stop(inL, BITS)) == Chosen(m, inL, outL, a, b)
  {
    hide Present, MaxSum, Stop, NoLoudRow, LoudestRow, Chosen, AbsSum;
    NormalByLoudest(m, inL, outL);
    var maxcoef := Transfer(m, inL, outL, out);
    if maxcoef > 1.0 {
      Divide(out, maxcoef);
    } else {
      assert Divisor(m, inL, outL) == 1.0;
    }
  }

  method Divide(out: array2<real>, d: real)
    requires d > 1.0
    modifies out
    ensures forall a, b :: 0 <= a < out.Length0 && 0 <= b < out.Length1 ==> out[a, b] == old(out[a, b]) / d
  {
    var i := 0;
    while i < out.Length0
      invariant i <= out.Length0
      invariant forall a, b :: 0 <= a < out.Length0 && 0 <= b < out.Length1 ==>
        out[a, b] == if a < i then old(out[a, b]) / d else old(out[a, b])
    {
      var j := 0;
      while j < out.Length1
        invariant j <= out.Length1
        invariant forall a, b :: 0 <= a < out.Length0 && 0 <= b < out.Length1 ==>
          out[a, b] == if a < i || (a == i && b < j) then old(out[a, b]) / d else old(out[a, b])
      {
        out[i, j] := out[i, j] / d;
        j := j + 1;
      }
      i := i + 1;
    }
  }

  /** The normalised coefficient of the a-th present output and the b-th present input. */
  function Normal(m: Wide, inL: Layout, outL: Layout, a: nat, b: nat): real
    requires a < |Present(outL, BITS)| && b < |Present(inL, BITS)|
  {
    Quotient(m[Present(outL, BITS)[a]][Present(inL, BITS)[b]], Divisor(m, inL, outL))
  }

  function Quotient(x: real, d: real): real
    requires d >= 1.0
  {
    x / d
  }

  lemma AbsIsPositive(x: real)
    ensures Abs(x) >= 0.0
  {
  }

  function NormalRow(m: Wide, inL: Layout, outL: Layout, a: nat): (r: seq<real>)
    requires a < |Present(outL, BITS)|
    ensures |r| == |Present(inL, BITS)|
    ensures forall b :: 0 <= b < |r| ==> r[b] == Normal(m, inL, outL, a, b)
  {
    seq(|Present(inL, BITS)|, b requires 0 <= b < |Present(inL, BITS)| => Normal(m, inL, outL, a, b))
  }

  // ---------- every row sums to at most one ----------

  // The present columns below n sum to at most all columns below n.
  function Times(d: real, s: real): real {
    d * s
  }

  lemma PresentSumStep(d: real, s: real, t: real, q: real, x: real)
    requires Times(d, s) <= t && Times(d, q) == x
    ensures Times(d, s + q) <= t + x
  {
    assert d * (s + q) == d * s + d * q;
  }

  lemma {:induction false} PresentSum(row: seq<real>, l: Layout, d: real, r: seq<real>, n: nat)
    requires |row| == BITS && n <= BITS && d >= 1.0 && |Present(l, n)| <= |r|
    requires forall b :: 0 <= b < |Present(l, n)| ==> r[b] == Quotient(row[Present(l, n)[b]], d)
    ensures Times(d, AbsSum(r, |Present(l, n)|)) <= AbsSum(row, n)
  {
    hide Quotient, Abs, Times, Present;
    PresentStep(l, n);
    if n == 0 {
      TimesZero(d);
    } else {
      AbsIsPositive(row[n - 1]);
      var k := |Present(l, n - 1)|;
      assert forall b :: 0 <= b < k ==> Present(l, n)[b] == Present(l, n - 1)[b];
      PresentSum(row, l, d, r, n - 1);
      if l[n - 1] {
        assert Present(l, n)[k] == n - 1;
        AbsOfQuotient(row[n - 1], d);
        PresentSumStep(d, AbsSum(r, k), AbsSum(row, n - 1), Abs(r[k]), Abs(row[n - 1]));
      }
    }
  }

  lemma TimesZero(d: real)
    ensures Times(d, 0.0) == 0.0
  {
  }

  lemma AbsOfQuotient(x: real, d: real)
    requires d >= 1.0
    ensures Times(d, Abs(Quotient(x, d))) == Abs(x)
  {
    var q := x / d;
    assert q * d == x;
    if x < 0.0 {
      assert q < 0.0;
    } else {
      assert q >= 0.0;
    }
  }

  lemma {:induction false} PresentIsBelowStop(l: Layout, n: nat)
    requires n <= BITS
    ensures Present(l, n) == Present(l, Stop(l, n))
    ensures forall k :: 0 <= k < |Present(l, n)| ==> Present(l, n)[k] < Stop(l, n)
  {
    if n > 0 && !l[n - 1] {
      PresentIsBelowStop(l, n - 1);
    }
  }

  /** After normalisation every output row has absolute sum at most one. */
  lemma RowSumAtMostOne(m: Wide, inL: Layout, outL: Layout, a: nat)
    requires a < |Present(outL, BITS)|
    ensures AbsSum(NormalRow(m, inL, outL, a), |Present(inL, BITS)|) <= 1.0
  {
    hide Present, Stop, AbsSum, MaxSum;
    var d, r, w := Divisor(m, inL, outL), NormalRow(m, inL, outL, a), Stop(inL, BITS);
    var i := Present(outL, BITS)[a];
    PresentIsBelowStop(inL, BITS);
    PresentIsBelowStop(outL, BITS);
    PresentSum(m[i], inL, d, r, w);
    AtMostOne(d, AbsSum(r, |r|), AbsSum(m[i], w));
  }

  lemma AtMostOne(d: real, s: real, t: real)
    requires d >= 1.0 && d * s <= t <= d
    ensures s <= 1.0
  {
    if s > 1.0 {
      Stretch(d, s);
    }
  }

  lemma Stretch(d: real, s: real)
    requires d > 0.0 && s > 1.0
    ensures d * s > d
  {
    assert d * (s - 1.0) > 0.0;
  }

  // ---------- the accumulator cannot overflow ----------

  /** The sum in unbounded integers. */
  function ExactSum(row: seq<real>, x: seq<Int32>, n: nat): int
    requires n <= |row| && n <= |x|
  {
    if n == 0 then 0 else ExactSum(row, x, n - 1) + (x[n - 1] as int) * Q30(row[n - 1])
  }

  lemma Q30Bound(v: real)
    ensures -(ONE_Q30 as real * Abs(v) + 0.5) <= Q30(v) as real <= ONE_Q30 as real * Abs(v) + 0.5
  {
    var y := ONE_Q30 as real * v;
    assert y - 0.5 <= RoundEven(y) as real <= y + 0.5;
  }

  lemma ProductBound(x: Int32, q: int, b: real)
    requires -b <= q as real <= b
    ensures -(TWO_31 as real * b) <= (x * q) as real <= TWO_31 as real * b
  {
    var p: int := TWO_31 * (if q < 0 then -q else q);
    SignedProduct(x, q);
    assert -p <= x * q <= p;
    assert p as real <= TWO_31 as real * b;
  }

  lemma Monotone(a: int, b: int, c: int)
    requires a <= b && c >= 0
    ensures a * c <= b * c
  {
  }

  lemma SignedProduct(x: int, q: int)
    requires -TWO_31 <= x <= TWO_31
    ensures q >= 0 ==> -(TWO_31 * q) <= x * q <= TWO_31 * q
    ensures q < 0 ==> TWO_31 * q <= x * q <= -(TWO_31 * q)
  {
    var r: int := if q < 0 then -q else q;
    Monotone(-TWO_31, x, r);
    Monotone(x, TWO_31, r);
    assert q < 0 ==> x * q == -(x * r);
  }

  lemma BoundStep(s: real, v: real, n: nat, e: int, p: int)
    requires var b := TWO_31 as real * (ONE_Q30 as real * s + 0.5 * n as real); -b <= e as real <= b
    requires var b := TWO_31 as real * (ONE_Q30 as real * v + 0.5); -b <= p as real <= b
    ensures var b := TWO_31 as real * (ONE_Q30 as real * (s + v) + 0.5 * (n + 1) as real); -b <= (e + p) as real <= b
  {
  }

  lemma {:induction false} ExactSumBound(row: seq<real>, x: seq<Int32>, n: nat)
    requires n <= |row| && n <= |x|
    ensures var b := TWO_31 as real * (ONE_Q30 as real * AbsSum(row, n) + 0.5 * n as real);
      -b <= ExactSum(row, x, n) as real <= b
  {
    hide Q30, Abs;
    if n > 0 {
      ExactSumBound(row, x, n - 1);
      Q30Bound(row[n - 1]);
      ProductBound(x[n - 1], Q30(row[n - 1]), ONE_Q30 as real * Abs(row[n - 1]) + 0.5);
      BoundStep(AbsSum(row, n - 1), Abs(row[n - 1]), n - 1, ExactSum(row, x, n - 1), x[n - 1] * Q30(row[n - 1]));
    }
  }

  lemma {:induction false} AbsSumGrows(row: seq<real>, a: nat, b: nat)
    requires a <= b <= |row|
    ensures AbsSum(row, a) <= AbsSum(row, b)
    decreases b - a
  {
    if a < b {
      AbsSumGrows(row, a, b - 1);
    }
  }

  /** With rows of absolute sum at most one and at most 32 channels no addition ever wraps around. */
  lemma {:induction false} NoOverflow(row: seq<real>, x: seq<Int32>, n: nat)
    requires n <= |row| == |x| <= MAX_CHANNELS && AbsSum(row, |row|) <= 1.0
    ensures FullSum(row, x, n) == ExactSum(row, x, n)
    ensures -TWO_63 < ExactSum(row, x, n) < TWO_63
  {
    hide Q30;
    ExactSumBound(row, x, n);
    AbsSumGrows(row, n, |row|);
    if n > 0 {
      NoOverflow(row, x, n - 1);
    }
  }

  // ---------- how far the fixed-point sum is from the real one ----------

  function Reals(x: seq<Int32>): (r: seq<real>)
    ensures |r| == |x| && forall i :: 0 <= i < |x| ==> r[i] == x[i] as real
  {
    seq(|x|, i requires 0 <= i < |x| => x[i] as real)
  }

  lemma TermError(x: Int32, v: real, q: int)
    requires q as real - 0.5 <= ONE_Q30 as real * v <= q as real + 0.5
    ensures -(ONE_Q30 as real) <= (x * q) as real - ONE_Q30 as real * (v * x as real) <= ONE_Q30 as real
  {
    var e, y: int := q as real - ONE_Q30 as real * v, x;
    ScaledError(y as real, e);
    assert (x * q) as real == y as real * q as real;
    assert ONE_Q30 as real * (v * x as real) == y as real * (ONE_Q30 as real * v);
  }

  lemma ScaledError(y: real, e: real)
    requires -(TWO_31 as real) <= y <= TWO_31 as real && -0.5 <= e <= 0.5
    ensures -(ONE_Q30 as real) <= y * e <= ONE_Q30 as real
  {
    BoundedProduct(e, y, TWO_31 as real);
    assert e * y == y * e;
    assert Abs(e) * (TWO_31 as real) <= 0.5 * (TWO_31 as real);
  }

  /** Every coefficient costs at most one unit of the result. */
  lemma {:induction false} SumIsAccurate(row: seq<real>, x: seq<Int32>, n: nat)
    requires n <= |row| == |x| && forall i :: 0 <= i < |row| ==> -1.0 <= row[i] <= 1.0
    ensures var e := ExactSum(row, x, n) as real - ONE_Q30 as real * RealSum(row, Reals(x), n);
      -(ONE_Q30 as real) * n as real <= e <= ONE_Q30 as real * n as real
  {
    hide Q30, Reals;
    if n > 0 {
      SumIsAccurate(row, x, n - 1);
      Q30IsNearest(row[n - 1]);
      TermError(x[n - 1], row[n - 1], Q30(row[n - 1]));
      ErrorStep(ExactSum(row, x, n - 1), x[n - 1] * Q30(row[n - 1]), RealSum(row, Reals(x), n - 1),
                row[n - 1] * Reals(x)[n - 1], n);
    }
  }

  lemma ErrorStep(s: int, p: int, r: real, t: real, n: nat)
    requires n > 0
    requires -(ONE_Q30 as real) * (n - 1) as real <= s as real - ONE_Q30 as real * r <= ONE_Q30 as real * (n - 1) as real
    requires -(ONE_Q30 as real) <= p as real - ONE_Q30 as real * t <= ONE_Q30 as real
    ensures -(ONE_Q30 as real) * n as real <= (s + p) as real - ONE_Q30 as real * (r + t) <= ONE_Q30 as real * n as real
  {
  }

  lemma {:induction false} EntryAtMostSum(row: seq<real>, i: nat, n: nat)
    requires i < n <= |row|
    ensures Abs(row[i]) <= AbsSum(row, n)
  {
    if i < n - 1 {
      EntryAtMostSum(row, i, n - 1);
    }
  }

  // ---------- exactly when the accumulator can overflow ----------

  /** The extreme sums of the first n products, over all samples. */
  function High(row: seq<real>, n: nat): (h: int)
    requires n <= |row|
    ensures h >= 0
  {
    if n == 0 then 0
    else
      var q: int := Q30(row[n - 1]);
      High(row, n - 1) + if q >= 0 then (TWO_31 - 1) * q else -TWO_31 * q
  }

  function Low(row: seq<real>, n: nat): (l: int)
    requires n <= |row|
    ensures l <= 0
  {
    if n == 0 then 0
    else
      var q: int := Q30(row[n - 1]);
      Low(row, n - 1) + if q >= 0 then -TWO_31 * q else (TWO_31 - 1) * q
  }

  /** Something a caller can compute from the coefficients alone. */
  predicate RowFits(row: seq<real>) {
    High(row, |row|) < TWO_63 && Low(row, |row|) >= -TWO_63
  }

  /** The samples that reach them. */
  function Loudest(row: seq<real>, up: bool): (x: seq<Int32>)
    ensures |x| == |row|
    ensures forall i :: 0 <= i < |row| ==> x[i] == if (Q30(row[i]) >= 0) == up then TWO_31 - 1 else -TWO_31
  {
    seq(|row|, i requires 0 <= i < |row| => if (Q30(row[i]) >= 0) == up then TWO_31 - 1 else -TWO_31)
  }

  lemma ExtremeProduct(x: Int32, q: int)
    ensures q >= 0 ==> -TWO_31 * q <= (x as int) * q <= (TWO_31 - 1) * q
    ensures q < 0 ==> (TWO_31 - 1) * q <= (x as int) * q <= -TWO_31 * q
  {
    var y: int, r: int := x, if q < 0 then -q else q;
    Monotone(-TWO_31, y, r);
    Monotone(y, TWO_31 - 1, r);
    assert q < 0 ==> y * q == -(y * r);
  }

  lemma {:induction false} SumBetween(row: seq<real>, x: seq<Int32>, n: nat)
    requires n <= |row| == |x|
    ensures Low(row, n) <= ExactSum(row, x, n) <= High(row, n)
  {
    hide Q30;
    if n > 0 {
      SumBetween(row, x, n - 1);
      ExtremeProduct(x[n - 1], Q30(row[n - 1]));
    }
  }

  lemma {:induction false} SumReached(row: seq<real>, n: nat)
    requires n <= |row|
    ensures ExactSum(row, Loudest(row, true), n) == High(row, n)
    ensures ExactSum(row, Loudest(row, false), n) == Low(row, n)
  {
    hide Q30, Loudest;
    if n > 0 {
      SumReached(row, n - 1);
    }
  }

  lemma {:induction false} ExtremesGrow(row: seq<real>, a: nat, b: nat)
    requires a <= b <= |row|
    ensures High(row, a) <= High(row, b) && Low(row, b) <= Low(row, a)
    decreases b - a
  {
    hide Q30;
    if a < b {
      ExtremesGrow(row, a, b - 1);
    }
  }

  lemma WrapAgain(a: int, b: int)
    ensures Wrap64(Wrap64(a) + b) == Wrap64(a + b)
  {
  }

  // The wrapped sum is the exact one, wrapped once.
  lemma {:induction false} FullIsWrapped(row: seq<real>, x: seq<Int32>, n: nat)
    requires n <= |row| == |x|
    ensures FullSum(row, x, n) == Wrap64(ExactSum(row, x, n))
  {
    hide Q30, Wrap64;
    if n == 0 {
      WrapSmall(0);
    } else {
      FullIsWrapped(row, x, n - 1);
      WrapAgain(ExactSum(row, x, n - 1), (x[n - 1] as int) * Q30(row[n - 1]));
    }
  }

  lemma WrappedIff(row: seq<real>, x: seq<Int32>, n: nat)
    requires n <= |row| == |x|
    ensures FullSum(row, x, n) == ExactSum(row, x, n) <==> -TWO_63 <= ExactSum(row, x, n) < TWO_63
  {
    hide FullSum, ExactSum;
    FullIsWrapped(row, x, n);
  }

  /** No addition wraps around, whatever the samples. */
  ghost predicate NeverWraps(row: seq<real>) {
    forall x: seq<Int32>, n: nat :: n <= |row| == |x| ==> FullSum(row, x, n) == ExactSum(row, x, n)
  }

  /** The accumulator is safe for all samples exactly if the extreme sums fit into 64 bits. */
  lemma NeverWrapsIff(row: seq<real>)
    ensures NeverWraps(row) <==> RowFits(row)
  {
    hide FullSum, ExactSum, Loudest, High, Low;
    if RowFits(row) {
      forall x: seq<Int32>, n: nat | n <= |row| == |x|
        ensures FullSum(row, x, n) == ExactSum(row, x, n)
      {
        SumBetween(row, x, n);
        ExtremesGrow(row, n, |row|);
        WrappedIff(row, x, n);
      }
    }
    if NeverWraps(row) {
      SumReached(row, |row|);
      WrappedIff(row, Loudest(row, true), |row|);
      WrappedIff(row, Loudest(row, false), |row|);
    }
  }

  /** Without the bound on the rows the accumulator does wrap around. */
  lemma OverflowWithoutNormalisation(row: seq<real>, x: seq<Int32>)
    requires row == seq(4, _ => 2.0) && x == seq(4, _ => TWO_31 - 1)
    ensures FullSum(row, x, 4) != ExactSum(row, x, 4)
  {
    hide FullSum, ExactSum, Wrap64;
    assert (ONE_Q30 as real * 2.0).Floor == 2 * ONE_Q30;
    assert Q30(2.0) == TWO_31 - 1;
    NoTerm(row, x);
    NextTerm(row, x, 1);
    NextTerm(row, x, 2);
    NextTerm(row, x, 3);
    NextTerm(row, x, 4);
    WrappedIff(row, x, 4);
  }

  lemma NoTerm(row: seq<real>, x: seq<Int32>)
    requires |row| == |x|
    ensures ExactSum(row, x, 0) == 0
  {
  }

  lemma NextTerm(row: seq<real>, x: seq<Int32>, n: nat)
    requires 0 < n <= |row| == |x|
    ensures ExactSum(row, x, n) == ExactSum(row, x, n - 1) + (x[n - 1] as int) * Q30(row[n - 1])
  {
    hide Q30;
  }

  /** The normalised matrix never overflows. */
  lemma NormalisedNeverOverflows(m: Wide, inL: Layout, outL: Layout, a: nat, x: seq<Int32>)
    requires a < |Present(outL, BITS)| && |x| == |Present(inL, BITS)| <= MAX_CHANNELS
    ensures FullSum(NormalRow(m, inL, outL, a), x, |x|) == ExactSum(NormalRow(m, inL, outL, a), x, |x|)
  {
    RowSumAtMostOne(m, inL, outL, a);
    NoOverflow(NormalRow(m, inL, outL, a), x, |x|);
  }
}
