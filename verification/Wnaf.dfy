/**
 compute_wNAF (libabi/pssl/ec_mult.c): the modified width-(w+1) non-adjacent form.
 Bit operations on the non-negative window value are written as division and remainder
 by powers of two.
 */
module Wnaf {
  import opened Modular
  import opened Power

  /** signed char */
  type SChar = x: int | -128 <= x < 128 witness 0

  // ---------- the meaning of a digit string ----------

  /** The number that digits k, k+1, ... represent, counted from weight 1. */
  function ValueFrom(ds: seq<int>, k: nat): int
    decreases |ds| - k
  {
    if k >= |ds| then 0 else ds[k] + 2 * ValueFrom(ds, k + 1)
  }

  function Value(ds: seq<int>): int {
    ValueFrom(ds, 0)
  }

  lemma {:induction false} ValueAppend(ds: seq<int>, d: int, k: nat)
    requires k <= |ds|
    ensures ValueFrom(ds + [d], k) == ValueFrom(ds, k) + d * Pow2(|ds| - k)
    decreases |ds| - k
  {
    if k < |ds| {
      ValueAppend(ds, d, k + 1);
      assert Pow2(|ds| - k) == 2 * Pow2(|ds| - k - 1);
      assert 2 * (d * Pow2(|ds| - k - 1)) == d * Pow2(|ds| - k);
    }
  }

  function Abs(x: int): nat {
    if x < 0 then -x else x
  }

  predicate WDigit(d: int, w: nat) {
    d == 0 || (d % 2 != 0 && Abs(d) < Pow2(w))
  }

  /**
   Two non-zero digits are more than w positions apart; only the top digit may be exactly
   w above the next one.
   */
  ghost predicate Spaced(ds: seq<int>, w: nat) {
    forall i, j :: 0 <= i < j < |ds| && ds[i] != 0 && ds[j] != 0 ==>
      j - i > w || (j - i == w && j == |ds| - 1)
  }

  /**
   No digit of the opposite sign stands so high that a positive one would have shortened the whole:
   within w + 1 positions of the length of the scalar.
   */
  ghost predicate OppositeLow(scalar: int, w: nat, ds: seq<int>) {
    forall j :: 0 <= j < |ds| && (if scalar < 0 then ds[j] > 0 else ds[j] < 0) ==> j + w + 1 < NumBits(Abs(scalar))
  }

  /** The modified wNAF of a scalar. */
  ghost predicate IsWnaf(scalar: int, w: nat, ds: seq<int>) {
    && Value(ds) == scalar
    && 1 <= |ds| <= NumBits(Abs(scalar)) + 1
    && (forall i :: 0 <= i < |ds| ==> WDigit(ds[i], w))
    && Spaced(ds, w)
    && OppositeLow(scalar, w, ds)
    && (scalar > 0 ==> ds[|ds| - 1] > 0)
    && (scalar < 0 ==> ds[|ds| - 1] < 0)
  }

  // ---------- one step ----------

  /** The bits of s from position n upwards. */
  function Quot(s: nat, n: nat): nat {
    if n == 0 then s else Quot(s, n - 1) / 2
  }

  /** BN_is_bit_set */
  function BitSet(s: nat, n: nat): (b: nat)
    ensures b <= 1
  {
    Quot(s, n) % 2
  }

  /** The digit chosen for window value `win`; `last` says that no new bits will arrive. */
  function Digit(win: nat, b: nat, last: bool): int
    requires b > 0
  {
    if win % 2 == 0 then 0
    else if (win / b) % 2 == 1 then (if last then win % b else win - 2 * b)
    else win
  }

  lemma DigitCases(win: nat, w: nat, last: bool)
    requires w >= 1 && win <= 2 * Pow2(w)
    ensures var b := Pow2(w); var d := Digit(win, b, last);
      && b % 2 == 0
      && (win % 2 == 0 ==> d == 0)
      && (win % 2 == 1 && win < b ==> d == win)
      && (win % 2 == 1 && win > b && !last ==> d == win - 2 * b)
      && (win % 2 == 1 && win > b && last ==> d == win - b)
      && (win % 2 == 1 ==> win != b && win < 2 * b && d % 2 == 1)
  {
    var b := Pow2(w);
    assert b == 2 * Pow2(w - 1);
    if win % 2 == 1 {
      if win < b {
        DivModUnique(win, b, 0, win);
      } else {
        DivModUnique(win, b, 1, win - b);
      }
    }
  }

  lemma QuotHalve(s: nat, n: nat)
    ensures Quot(s, n) == 2 * Quot(s, n + 1) + BitSet(s, n)
  {
  }

  lemma {:induction false} QuotBounds(s: nat, n: nat)
    ensures Quot(s, n) * Pow2(n) <= s < (Quot(s, n) + 1) * Pow2(n)
  {
    if n > 0 {
      QuotBounds(s, n - 1);
      DoubleBounds(s, Quot(s, n), Quot(s, n - 1) - 2 * Quot(s, n), Pow2(n - 1));
    }
  }

  lemma DoubleBounds(s: int, q: int, bit: int, a: nat)
    requires (2 * q + bit) * a <= s < (2 * q + bit + 1) * a && 0 <= bit <= 1
    ensures q * (2 * a) <= s < (q + 1) * (2 * a)
  {
    var x := q * a;
    assert q * (2 * a) == 2 * x && (q + 1) * (2 * a) == 2 * x + 2 * a;
    if bit == 0 {
      assert (2 * q + bit) * a == 2 * x && (2 * q + bit + 1) * a == 2 * x + a;
    } else {
      assert (2 * q + bit) * a == 2 * x + a && (2 * q + bit + 1) * a == 2 * x + 2 * a;
    }
  }

  lemma ModQuot(s: nat, n: nat)
    ensures s == s % Pow2(n) + Quot(s, n) * Pow2(n) && 0 <= s % Pow2(n) < Pow2(n)
    ensures Quot(s, n) == s / Pow2(n)
  {
    hide Quot, Pow2;
    QuotBounds(s, n);
    var q, a := Quot(s, n), Pow2(n);
    assert (q + 1) * a == q * a + a;
    DivModUnique(s, a, q, s - q * a);
  }

  lemma QuotZero(s: nat, n: nat)
    ensures Quot(s, n) == 0 <==> s < Pow2(n)
  {
    hide Quot, Pow2;
    QuotBounds(s, n);
    MulBig(Quot(s, n), Pow2(n));
  }

  // ---------- the invariant of the loop ----------

  /**
   After j digits, t is what remains to be written: the window value plus the bits of the
   scalar above the window.
   */
  ghost predicate Remaining(s: nat, w: nat, len: nat, j: nat, win: nat, t: nat) {
    && win <= 2 * Pow2(w)
    && t == win + Quot(s, j + w + 1) * Pow2(w + 1)
    && t * Pow2(j) <= Pow2(len)
  }

  /** The window value after the digit d has been written at position j. */
  function NextWindow(s: nat, w: nat, j: nat, win: nat, d: int): int {
    (win - d) / 2 + Pow2(w) * BitSet(s, j + 1 + w)
  }

  lemma InitialWindow(s: nat, w: nat, len: nat)
    requires len == NumBits(s)
    ensures 0 <= s % Pow2(w + 1) && Remaining(s, w, len, 0, s % Pow2(w + 1), s)
  {
    hide Pow2, Quot;
    NumBitsBounds(s);
    Pow2Double(w);
    ModQuot(s, w + 1);
    Pow2Zero();
  }

  lemma Pow2Double(n: nat)
    ensures Pow2(n + 1) == 2 * Pow2(n)
  {
  }

  // The loop condition says that something remains.
  lemma GuardIsRemaining(s: nat, w: nat, len: nat, j: nat, win: nat, t: nat)
    requires Remaining(s, w, len, j, win, t) && 0 < s && len == NumBits(s)
    ensures t > 0 <==> (win != 0 || j + w + 1 < len)
    ensures j + w + 1 >= len ==> t == win && Quot(s, j + w + 1) == 0
    ensures t > 0 ==> j <= len
  {
    hide Quot, Pow2;
    RestOfBits(s, w, len, j);
    SumIsPositive(win, Quot(s, j + w + 1), Pow2(w + 1));
    if t > 0 {
      NotTooFar(t, j, len);
    }
  }

  lemma SumIsPositive(win: nat, q: nat, p: nat)
    requires p > 0
    ensures win + q * p > 0 <==> win != 0 || q != 0
    ensures q == 0 ==> q * p == 0
  {
    MulBig(q, p);
  }

  lemma NotTooFar(t: nat, j: nat, len: nat)
    requires t > 0 && t * Pow2(j) <= Pow2(len)
    ensures j <= len
  {
    hide Pow2;
    MulBig(t, Pow2(j));
    if j > len {
      Pow2StrictMono(len, j);
    }
  }

  // Bits are left above the window exactly while it has not reached the length.
  lemma RestOfBits(s: nat, w: nat, len: nat, j: nat)
    requires 0 < s && len == NumBits(s)
    ensures Quot(s, j + w + 1) == 0 <==> j + w + 1 >= len
  {
    hide Quot, Pow2;
    var n := j + w + 1;
    NumBitsBounds(s);
    QuotZero(s, n);
    if n < len {
      Pow2Mono(n, len - 1);
    } else {
      Pow2Mono(len, n);
    }
  }

  // What remains after one digit.
  lemma StepRemaining(s: nat, w: nat, len: nat, j: nat, win: nat, t: nat, last: bool)
    requires w >= 1 && Remaining(s, w, len, j, win, t) && s < Pow2(len)
    requires last <==> j + w + 1 >= len
    ensures var d := Digit(win, Pow2(w), last);
      var win' := NextWindow(s, w, j, win, d);
      0 <= win' && (t - d) % 2 == 0 && t >= d && Remaining(s, w, len, j + 1, win', (t - d) / 2)
  {
    hide Digit, Quot, Pow2, BitSet;
    var b, n := Pow2(w), j + w + 1;
    var d := Digit(win, b, last);
    DigitCases(win, w, last);
    var q, q', bit := Quot(s, n), Quot(s, n + 1), BitSet(s, n);
    QuotHalve(s, n);
    if last {
      Pow2Mono(len, n);
      QuotZero(s, n);
    }
    assert j + 1 + w == n;
    Pow2Double(w);
    StepWindow(b, win, d, q, q', bit, t, last);
    StepBound(s, w, len, j, win, t, d, last);
  }

  lemma StepWindow(b: nat, win: nat, d: int, q: nat, q': nat, bit: nat, t: nat, last: bool)
    requires b > 0 && b % 2 == 0 && win <= 2 * b && q == 2 * q' + bit && bit <= 1 && (last ==> q == 0)
    requires t == win + q * (2 * b)
    requires win % 2 == 0 ==> d == 0
    requires win % 2 == 1 && win < b ==> d == win
    requires win % 2 == 1 && win > b && !last ==> d == win - 2 * b
    requires win % 2 == 1 && win > b && last ==> d == win - b
    requires win % 2 == 1 ==> win != b && win < 2 * b
    ensures (win - d) % 2 == 0 && 0 <= (win - d) / 2 + b * bit <= 2 * b
    ensures (t - d) % 2 == 0 && t >= d && (t - d) / 2 == (win - d) / 2 + b * bit + q' * (2 * b)
  {
    var x := q' * (2 * b);
    HighBits(q', bit, b);
    HalfSum(b, win, d, x, b * bit, last);
  }

  lemma HighBits(q: nat, bit: nat, b: nat)
    requires bit <= 1
    ensures (2 * q + bit) * (2 * b) == 2 * (q * (2 * b)) + 2 * (b * bit)
    ensures 0 <= b * bit <= b && 0 <= q * (2 * b)
  {
  }

  lemma HalfSum(b: nat, win: nat, d: int, x: nat, y: nat, last: bool)
    requires b % 2 == 0 && win <= 2 * b && y <= b
    requires win % 2 == 0 ==> d == 0
    requires win % 2 == 1 && win < b ==> d == win
    requires win % 2 == 1 && win > b && !last ==> d == win - 2 * b
    requires win % 2 == 1 && win > b && last ==> d == win - b
    requires win % 2 == 1 ==> win != b && win < 2 * b
    ensures (win - d) % 2 == 0 && 0 <= (win - d) / 2 + y <= 2 * b
    ensures win + 2 * x + 2 * y >= d && (win + 2 * x + 2 * y - d) % 2 == 0
    ensures (win + 2 * x + 2 * y - d) / 2 == (win - d) / 2 + y + x
  {
  }

  lemma StepBound(s: nat, w: nat, len: nat, j: nat, win: nat, t: nat, d: int, last: bool)
    requires w >= 1 && Remaining(s, w, len, j, win, t) && s < Pow2(len) && (t - d) % 2 == 0
    requires d >= 0 || (!last && d == win - 2 * Pow2(w))
    requires last <==> j + w + 1 >= len
    ensures ((t - d) / 2) * Pow2(j + 1) <= Pow2(len)
  {
    hide Quot, Pow2;
    var b, h, n := Pow2(w), (t - d) / 2, j + w + 1;
    Pow2Double(j);
    assert h * (2 * Pow2(j)) == (2 * h) * Pow2(j) == (t - d) * Pow2(j);
    if d >= 0 {
      assert d * Pow2(j) >= 0;
      assert (t - d) * Pow2(j) == t * Pow2(j) - d * Pow2(j);
    } else {
      var q := Quot(s, n);
      Pow2Add(w + 1, j);
      Pow2Double(w);
      assert t - d == 2 * b * (q + 1);
      RoundUp(q, 2 * b, Pow2(j));
      Pow2Add(len - n, n);
      QuotBounds(s, n);
      QuotientBelow(s, q, Pow2(n), Pow2(len - n));
    }
  }

  lemma RoundUp(q: int, c: int, m: int)
    ensures (c * (q + 1)) * m == (q + 1) * (c * m)
  {
  }

  lemma QuotientBelow(s: nat, q: nat, a: nat, m: nat)
    requires a > 0 && q * a <= s < m * a
    ensures (q + 1) * a <= m * a
  {
    MulBig(q - m, a);
    assert (q - m) * a == q * a - m * a;
    if q < m {
      assert (m - q - 1) * a >= 0;
      assert (m - q - 1) * a == m * a - (q + 1) * a;
    }
  }

  // ---------- spacing ----------

  // t has enough trailing zero bits (or is a single last bit) for the digits written so far.
  ghost predicate ZerosAhead(k: nat, w: nat, t: int, last: bool) {
    k < w ==> t % Pow2(w - k) == 0 || (last && t == Pow2(w - 1 - k))
  }

  ghost predicate Pending(ds: seq<int>, w: nat, t: int, last: bool) {
    forall i :: 0 <= i < |ds| && ds[i] != 0 ==> ZerosAhead(|ds| - 1 - i, w, t, last)
  }

  // Spaced, with an exception at the top only once nothing remains.
  ghost predicate SpacedSoFar(ds: seq<int>, w: nat, t: int) {
    forall i, j :: 0 <= i < j < |ds| && ds[i] != 0 && ds[j] != 0 ==>
      j - i > w || (j - i == w && j == |ds| - 1 && t == 0)
  }

  lemma MultipleHalves(t: int, m: nat)
    requires m > 0 && t % (2 * m) == 0
    ensures t % 2 == 0 && (t / 2) % m == 0
  {
    var c := t / (2 * m);
    assert t == c * (2 * m) == 2 * (c * m);
    DivModUnique(t / 2, m, c, 0);
  }

  // A zero digit brings every earlier digit one position further away.
  lemma PendingZero(k: nat, w: nat, t: int, last: bool, last': bool)
    requires ZerosAhead(k, w, t, last) && t % 2 == 0 && (last ==> last')
    ensures ZerosAhead(k + 1, w, t / 2, last')
  {
    if k + 1 < w {
      assert Pow2(w - k) == 2 * Pow2(w - (k + 1));
      assert Pow2(w - 1 - k) == 2 * Pow2(w - 1 - (k + 1));
      if t % Pow2(w - k) == 0 {
        MultipleHalves(t, Pow2(w - (k + 1)));
      }
    }
  }

  // An odd remainder closer than w+1 is the final one.
  lemma OddIsFar(k: nat, w: nat, t: int, last: bool)
    requires ZerosAhead(k, w, t, last) && t % 2 == 1
    ensures k >= w || (k == w - 1 && t == 1 && last)
  {
    if k < w {
      assert Pow2(w - k) == 2 * Pow2(w - k - 1);
      if t % Pow2(w - k) == 0 {
        MultipleHalves(t, Pow2(w - k - 1));
      }
      EvenPower(w - 1 - k);
    }
  }

  lemma EvenPower(k: nat)
    ensures k > 0 ==> Pow2(k) % 2 == 0
    ensures k == 0 ==> Pow2(k) == 1
  {
  }

  lemma MultipleIsZero(q: nat, w: nat)
    ensures (q * Pow2(w)) % Pow2(w) == 0
  {
    DivModUnique(q * Pow2(w), Pow2(w), q, 0);
  }

  // Just after a non-zero digit, what remains is a multiple of 2^w, or the last bit alone.
  lemma PendingNew(s: nat, w: nat, len: nat, j: nat, win: nat, t: nat, last: bool)
    requires w >= 1 && Remaining(s, w, len, j, win, t) && win % 2 == 1 && (last ==> Quot(s, j + w + 1) == 0)
    ensures var t' := (t - Digit(win, Pow2(w), last)) / 2;
      t' >= 0 && ZerosAhead(0, w, t', last) && (last && t == 1 ==> t' == 0)
  {
    hide Digit, Quot, Pow2, ZerosAhead, Remaining;
    var q := Quot(s, j + w + 1);
    WindowSplit(s, w, len, j, win, t);
    AfterOddDigit(win, w, last, q * Pow2(w));
    AheadOfMultiple(q, w, last);
    AheadOfMultiple(q + 1, w, last);
    AheadOfLast(w);
    assert (q + 1) * Pow2(w) == q * Pow2(w) + Pow2(w);
    assert q == 0 ==> q * Pow2(w) == 0;
  }

  // An odd window leaves nothing, one more window unit, or (at the end) the last bit.
  lemma AfterOddDigit(win: nat, w: nat, last: bool, x: nat)
    requires w >= 1 && win <= 2 * Pow2(w) && win % 2 == 1
    ensures var t' := (win + 2 * x - Digit(win, Pow2(w), last)) / 2;
      || t' == x
      || (!last && t' == x + Pow2(w))
      || (last && t' == x + Pow2(w - 1) && win > 1)
  {
    hide Digit, Pow2;
    DigitCases(win, w, last);
    Pow2Double(w - 1);
  }

  lemma WindowSplit(s: nat, w: nat, len: nat, j: nat, win: nat, t: nat)
    requires Remaining(s, w, len, j, win, t)
    ensures win <= 2 * Pow2(w)
    ensures Quot(s, j + w + 1) * Pow2(w) >= 0 && t == win + 2 * (Quot(s, j + w + 1) * Pow2(w))
  {
    hide Quot, Pow2;
    Pow2Double(w);
    assert Quot(s, j + w + 1) * (2 * Pow2(w)) == 2 * (Quot(s, j + w + 1) * Pow2(w));
  }

  lemma AheadOfMultiple(q: nat, w: nat, last: bool)
    ensures q * Pow2(w) >= 0 && ZerosAhead(0, w, q * Pow2(w), last)
  {
    MultipleIsZero(q, w);
  }

  lemma AheadOfLast(w: nat)
    requires w >= 1
    ensures ZerosAhead(0, w, Pow2(w - 1), true)
  {
  }

  lemma StepSpacing(ds: seq<int>, d: int, w: nat, t: int, t': int, last: bool, last': bool)
    requires w >= 1 && t > 0 && (last ==> last') && SpacedSoFar(ds, w, t) && Pending(ds, w, t, last)
    requires d == 0 <==> t % 2 == 0
    requires d == 0 ==> t' == t / 2
    requires d != 0 ==> ZerosAhead(0, w, t', last') && (last && t == 1 ==> t' == 0)
    ensures SpacedSoFar(ds + [d], w, t') && Pending(ds + [d], w, t', last')
  {
    hide ZerosAhead;
    var es := ds + [d];
    forall i | 0 <= i < |es| && es[i] != 0
      ensures ZerosAhead(|es| - 1 - i, w, t', last')
    {
      if i < |ds| {
        EarlierDigit(|ds| - 1 - i, d, w, t, t', last, last');
      }
    }
    forall i, j | 0 <= i < j < |es| && es[i] != 0 && es[j] != 0
      ensures j - i > w || (j - i == w && j == |es| - 1 && t' == 0)
    {
      if j == |ds| {
        OddIsFar(|ds| - 1 - i, w, t, last);
      }
    }
  }

  lemma EarlierDigit(k: nat, d: int, w: nat, t: int, t': int, last: bool, last': bool)
    requires ZerosAhead(k, w, t, last) && (last ==> last') && (d == 0 <==> t % 2 == 0)
    requires d == 0 ==> t' == t / 2
    ensures ZerosAhead(k + 1, w, t', last')
  {
    if d == 0 {
      PendingZero(k, w, t, last, last');
    } else {
      OddIsFar(k, w, t, last);
    }
  }

  // ---------- compute_wNAF ----------

  function Sign(scalar: int): int {
    if scalar < 0 then -1 else 1
  }

  /** Everything the loop keeps about the digits written so far. */
  ghost predicate Written(scalar: int, w: nat, ds: seq<int>, t: int, last: bool) {
    && scalar == Value(ds) + Sign(scalar) * t * Pow2(|ds|)
    && (forall i :: 0 <= i < |ds| ==> WDigit(ds[i], w))
    && SpacedSoFar(ds, w, t) && Pending(ds, w, t, last)
    && OppositeLow(scalar, w, ds)
    && (t == 0 ==> |ds| > 0 && ds[|ds| - 1] * Sign(scalar) > 0)
  }

  lemma StepWritten(scalar: int, w: nat, len: nat, ds: seq<int>, win: nat, t: nat)
    requires w >= 1 && scalar != 0 && len == NumBits(Abs(scalar)) && t > 0
    requires Remaining(Abs(scalar), w, len, |ds|, win, t)
    requires Written(scalar, w, ds, t, |ds| + w + 1 >= len)
    ensures var last := |ds| + w + 1 >= len;
      var d := Digit(win, Pow2(w), last);
      && t >= d && (t - d) % 2 == 0
      && WDigit(d, w)
      && Written(scalar, w, ds + [Sign(scalar) * d], (t - d) / 2, |ds| + 1 + w + 1 >= len)
  {
    hide Digit, Quot, Pow2, SpacedSoFar, Pending, Remaining, Value, OppositeLow;
    var s, j := Abs(scalar), |ds|;
    var last := j + w + 1 >= len;
    var d := Digit(win, Pow2(w), last);
    var sd := Sign(scalar) * d;
    var t' := (t - d) / 2;
    NumBitsBounds(s);
    StepRemaining(s, w, len, j, win, t, last);
    NewDigit(s, w, len, j, win, t);
    SignedDigit(scalar, d, w);
    StepSpacing(ds, sd, w, t, t', last, j + 1 + w + 1 >= len);
    AppendedValue(scalar, ds, t, d, t');
    NoLateOpposite(s, w, len, j, win, t);
    NextOpposite(scalar, w, ds, d);
  }

  // At the end only digits that are not negative are chosen.
  lemma NoLateOpposite(s: nat, w: nat, len: nat, j: nat, win: nat, t: nat)
    requires w >= 1 && Remaining(s, w, len, j, win, t)
    ensures Digit(win, Pow2(w), j + w + 1 >= len) < 0 ==> j + w + 1 < len
  {
    hide Digit, Pow2, Quot;
    DigitCases(win, w, j + w + 1 >= len);
  }

  lemma NextOpposite(scalar: int, w: nat, ds: seq<int>, d: int)
    requires OppositeLow(scalar, w, ds) && (d < 0 ==> |ds| + w + 1 < NumBits(Abs(scalar)))
    ensures OppositeLow(scalar, w, ds + [Sign(scalar) * d])
  {
    hide NumBits;
  }

  lemma AppendedValue(scalar: int, ds: seq<int>, t: nat, d: int, t': int)
    requires t == 2 * t' + d && scalar == Value(ds) + Sign(scalar) * t * Pow2(|ds|)
    ensures scalar == Value(ds + [Sign(scalar) * d]) + Sign(scalar) * t' * Pow2(|ds| + 1)
  {
    hide Sign;
    ValueAppend(ds, Sign(scalar) * d, 0);
    Pow2Double(|ds|);
    StepValue(Sign(scalar), t, d, t', Pow2(|ds|));
  }

  lemma SignedDigit(scalar: int, d: int, w: nat)
    requires WDigit(d, w)
    ensures WDigit(Sign(scalar) * d, w) && (Sign(scalar) * d == 0 <==> d == 0)
    ensures d > 0 ==> (Sign(scalar) * d) * Sign(scalar) > 0
  {
  }

  // The facts about the chosen digit that the spacing argument needs.
  lemma NewDigit(s: nat, w: nat, len: nat, j: nat, win: nat, t: nat)
    requires w >= 1 && s > 0 && len == NumBits(s) && t > 0 && Remaining(s, w, len, j, win, t)
    ensures var last := j + w + 1 >= len;
      var d := Digit(win, Pow2(w), last);
      var t' := (t - d) / 2;
      && WDigit(d, w)
      && (d == 0 <==> t % 2 == 0)
      && (d == 0 ==> t' == t / 2)
      && (d != 0 ==> ZerosAhead(0, w, t', j + 1 + w + 1 >= len) && (last && t == 1 ==> t' == 0))
      && (t' == 0 && (t - d) % 2 == 0 && t >= d ==> d > 0)
  {
    hide Digit, Quot, Pow2, ZerosAhead, Remaining;
    var last := j + w + 1 >= len;
    var d := Digit(win, Pow2(w), last);
    GuardIsRemaining(s, w, len, j, win, t);
    WindowSplit(s, w, len, j, win, t);
    DigitCases(win, w, last);
    DigitBasics(win, w, last, Quot(s, j + w + 1) * Pow2(w), t);
    if win % 2 == 1 {
      PendingNew(s, w, len, j, win, t, last);
      ZerosLater(w, (t - d) / 2, last);
    }
  }

  lemma DigitBasics(win: nat, w: nat, last: bool, x: nat, t: nat)
    requires w >= 1 && win <= 2 * Pow2(w) && t == win + 2 * x && t > 0
    ensures var d := Digit(win, Pow2(w), last);
      && WDigit(d, w) && t % 2 == win % 2
      && (d == 0 <==> t % 2 == 0)
      && ((t - d) / 2 == 0 && (t - d) % 2 == 0 && t >= d ==> d > 0)
  {
    hide Digit, Pow2;
    DigitCases(win, w, last);
  }

  lemma ZerosLater(w: nat, t: int, last: bool)
    requires ZerosAhead(0, w, t, last)
    ensures ZerosAhead(0, w, t, true)
  {
  }

  lemma StepValue(sign: int, t: int, d: int, t': int, m: int)
    requires t == 2 * t' + d
    ensures sign * t * m == (sign * d) * m + sign * t' * (2 * m)
  {
    assert sign * t == 2 * (sign * t') + sign * d;
    assert (2 * (sign * t')) * m == sign * t' * (2 * m);
  }

  lemma StartWritten(scalar: int, w: nat, last: bool)
    requires scalar != 0
    ensures Written(scalar, w, [], Abs(scalar), last)
  {
    Pow2Zero();
  }

  lemma FinishWritten(scalar: int, w: nat, ds: seq<int>, last: bool)
    requires scalar != 0 && Written(scalar, w, ds, 0, last)
    requires |ds| <= NumBits(Abs(scalar)) + 1
    ensures IsWnaf(scalar, w, ds)
  {
    hide Value, NumBits, Pow2;
    assert Sign(scalar) * 0 * Pow2(|ds|) == 0;
  }

  lemma ZeroWnaf(w: nat)
    ensures IsWnaf(0, w, [0])
  {
  }

  /**
   compute_wNAF.  r is null exactly when the window is refused; otherwise r[..retLen] is the
   modified wNAF of the scalar, and retLen is at most one more than its bit length.
   */
  method ComputeWnaf(scalar: int, w: int) returns (r: array?<SChar>, retLen: nat)
    ensures r == null <==> scalar != 0 && (w <= 0 || w > 7)
    ensures r != null ==> fresh(r) && retLen <= r.Length
    ensures r != null && 0 < w <= 7 ==> IsWnaf(scalar, w, r[..retLen])
    ensures scalar == 0 ==> r != null && r[..retLen] == [0]
  {
    hide Digit, Quot, Pow2, Written, Remaining, IsWnaf, WDigit, NumBits, Value, Abs;
    if scalar == 0 {
      r := new SChar[1];
      r[0] := 0;
      retLen := 1;
      if w > 0 {
        ZeroWnaf(w);
      }
      assert r[..retLen] == [0];
      return;
    }
    if w <= 0 || w > 7 {
      return null, 0;
    }
    var bit := Pow2(w);
    var nextBit := 2 * bit;
    var sign := 1;
    if scalar < 0 {
      sign := -1;
    }
    var s := Abs(scalar);
    var len := NumBits(s);
    r := new SChar[len + 1];
    Pow2Double(w);
    InitialWindow(s, w, len);
    var window := s % nextBit;
    var j := 0;
    ghost var t: nat := s;
    StartWritten(scalar, w, j + w + 1 >= len);
    assert r[..0] == [];
    GuardIsRemaining(s, w, len, j, window, t);
    while window != 0 || j + w + 1 < len
      invariant 0 <= window && j <= r.Length
      invariant t > 0 <==> (window != 0 || j + w + 1 < len)
      invariant t > 0 ==> j <= len
      invariant Remaining(s, w, len, j, window, t)
      invariant Written(scalar, w, r[..j], t, j + w + 1 >= len)
      decreases t
    {
      var digit, next := NextDigit(s, w, len, j, window, bit, nextBit, t);
      StepWritten(scalar, w, len, r[..j], window, t);
      SmallDigit(digit, w);
      r[j] := sign * digit;
      assert r[..j + 1] == r[..j] + [sign * digit];
      j := j + 1;
      window := next;
      t := (t - digit) / 2;
      GuardIsRemaining(s, w, len, j, window, t);
    }
    if j > len + 1 {
      assert false;
    }
    retLen := j;
    FinishWritten(scalar, w, r[..j], j + w + 1 >= len);
  }

  lemma SmallDigit(d: int, w: nat)
    requires WDigit(d, w) && w <= 7
    ensures -128 < d < 128
  {
    hide Pow2;
    Pow2Mono(w, 7);
    assert Pow2(7) == 128 by {
      Pow2Seven();
    }
  }

  lemma Pow2Seven()
    ensures Pow2(7) == 128
  {
    assert Pow2(4) == 16;
  }

  /** The choice of the digit, with the source's consistency checks, none of which can fail. */
  method ChooseDigit(window: nat, w: nat, bit: int, nextBit: int, last: bool) returns (digit: int)
    requires 1 <= w <= 7 && bit == Pow2(w) && nextBit == 2 * bit && window <= nextBit
    ensures digit == Digit(window, bit, last)
    ensures (window - digit) % 2 == 0 && 0 <= window - digit <= nextBit
  {
    hide Pow2;
    DigitCases(window, w, last);
    digit := 0;
    if window % 2 == 1 {
      if (window / bit) % 2 == 1 {
        digit := window - nextBit;
        if last {
          digit := window % bit;
        }
      } else {
        digit := window;
      }
      if digit <= -bit || digit >= bit || digit % 2 == 0 {
        assert false;
      }
      var rest := window - digit;
      if rest != 0 && rest != nextBit && rest != bit {
        assert false;
      }
    }
  }

  /**
   The body of the loop up to the write and the window update after it; the last
   consistency check cannot fail either.
   */
  method NextDigit(s: nat, w: nat, len: nat, j: nat, window: nat, bit: int, nextBit: int, ghost t: nat)
    returns (digit: int, next: nat)
    requires 1 <= w <= 7 && s > 0 && len == NumBits(s) && t > 0 && bit == Pow2(w) && nextBit == 2 * bit
    requires Remaining(s, w, len, j, window, t)
    ensures digit == Digit(window, bit, j + w + 1 >= len)
    ensures next == NextWindow(s, w, j, window, digit)
    ensures t >= digit && (t - digit) % 2 == 0 && (t - digit) / 2 < t
    ensures Remaining(s, w, len, j + 1, next, (t - digit) / 2)
  {
    hide Pow2, Remaining, Quot, Digit;
    NumBitsBounds(s);
    StepRemaining(s, w, len, j, window, t, j + w + 1 >= len);
    WindowSplit(s, w, len, j, window, t);
    DigitCases(window, w, j + w + 1 >= len);
    digit := ChooseDigit(window, w, bit, nextBit, j + w + 1 >= len);
    next := (window - digit) / 2;
    next := next + bit * BitSet(s, j + 1 + w);
    WindowSplit(s, w, len, j + 1, next, (t - digit) / 2);
    if next > nextBit {
      assert false;
    }
  }
}
