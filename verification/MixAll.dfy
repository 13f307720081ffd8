/**
 libffabi/src/audio_mix.c, lines 62-161: from the matrix of two channel layouts to mixed samples.
 */
module MixAll {
  import opened MixSpec
  import opened AudioMix
  import opened MixRun
  import opened MixMatrix

  function Ins(inL: Layout): nat {
    |Present(inL, BITS)|
  }

  /** The normalised matrix over the present channels. */
  function NormalMatrix(m: Wide, inL: Layout, outL: Layout): (rows: Matrix)
    ensures |rows| == Ins(outL)
    ensures forall a :: 0 <= a < |rows| ==> rows[a] == NormalRow(m, inL, outL, a)
  {
    seq(Ins(outL), a requires 0 <= a < Ins(outL) => NormalRow(m, inL, outL, a))
  }

  /** The rows of a filled array. */
  method Rows(out: array2<real>) returns (rows: Matrix)
    ensures |rows| == out.Length0
    ensures forall a :: 0 <= a < |rows| ==> |rows[a]| == out.Length1 && forall b :: 0 <= b < out.Length1 ==> rows[a][b] == out[a, b]
  {
    rows := [];
    var a := 0;
    while a < out.Length0
      invariant 0 <= a <= out.Length0 && |rows| == a
      invariant forall k :: 0 <= k < a ==> |rows[k]| == out.Length1 && forall b :: 0 <= b < out.Length1 ==> rows[k][b] == out[k, b]
    {
      var row: seq<real> := [];
      var b := 0;
      while b < out.Length1
        invariant 0 <= b <= out.Length1 && |row| == b && forall k :: 0 <= k < b ==> row[k] == out[a, k]
      {
        row := row + [out[a, b]];
        b := b + 1;
      }
      rows := rows + [row];
      a := a + 1;
    }
  }

  /** ffm_audio_mix_alloc, for a given 64 x 64 matrix: fails exactly for channel counts outside 1..32. */
  method Alloc(m: Wide, inL: Layout, outL: Layout) returns (am: AudioMix?)
    ensures am != null <==> 0 < Ins(inL) <= MAX_CHANNELS && 0 < Ins(outL) <= MAX_CHANNELS
    ensures am != null ==> fresh(am) && am.inChannels == Ins(inL) && am.outChannels == Ins(outL)
    ensures am != null ==> am.Converted(NormalMatrix(m, inL, outL))
  {
    hide Present, Normal, Pass, Unused, Silent, Q30, Keep, KeepList, SkipsInput, CompactCoef;
    var out := new real[Ins(outL), Ins(inL)];
    BuildTail(m, inL, outL, out);
    var rows := Rows(out);
    assert rows == NormalMatrix(m, inL, outL) by {
      forall a | 0 <= a < |rows|
        ensures rows[a] == NormalRow(m, inL, outL, a)
      {
      }
    }
    var mix := new AudioMix(Ins(inL), Ins(outL));
    var ok := mix.SetMatrix(rows);
    am := if ok then mix else null;
  }

  /** One output sample without wrap-around: the exact integer sum over all inputs, without 30 bits. */
  ghost predicate ExactlyMixed(m: Wide, inL: Layout, outL: Layout, x: seq<Int32>, o: nat, y: Int32)
    requires o < Ins(outL) && Ins(inL) <= |x|
  {
    Shifted(ExactSum(NormalRow(m, inL, outL, o), x[..Ins(inL)], Ins(inL)), y)
  }

  lemma MixedIsExact(m: Wide, inL: Layout, outL: Layout, x: seq<Int32>, o: nat, y: Int32)
    requires 0 < Ins(inL) <= MAX_CHANNELS && 0 < Ins(outL) <= MAX_CHANNELS && o < Ins(outL) && Ins(inL) <= |x|
    requires Shape(NormalMatrix(m, inL, outL), Ins(inL), Ins(outL))
    requires Mixed(NormalMatrix(m, inL, outL), Ins(inL), Ins(outL), x, o, y)
    ensures ExactlyMixed(m, inL, outL, x, o, y)
  {
    hide Present, Finish, FullSum, ExactSum;
    NormalisedNeverOverflows(m, inL, outL, o, x[..Ins(inL)]);
  }

  /** The real sum of the samples for one output of the normalised matrix. */
  function RealMix(m: Wide, inL: Layout, outL: Layout, x: seq<Int32>, o: nat): real
    requires o < Ins(outL) && Ins(inL) <= |x|
  {
    RealSum(NormalRow(m, inL, outL, o), Reals(x[..Ins(inL)]), Ins(inL))
  }

  lemma LoudestReal(row: seq<real>, x: seq<Int32>)
    requires |row| == |x| && AbsSum(row, |row|) <= 1.0
    ensures -(TWO_31 as real) <= RealSum(row, Reals(x), |row|) <= TWO_31 as real
  {
    hide Reals;
    RealSumBound(row, Reals(x), |row|, TWO_31 as real);
    AtMostBound(AbsSum(row, |row|), TWO_31 as real);
  }

  lemma AtMostBound(s: real, b: real)
    requires 0.0 <= s <= 1.0 && b >= 0.0
    ensures s * b <= b
  {
    assert (1.0 - s) * b >= 0.0;
  }

  lemma ShiftIsAccurate(s: int, y: Int32, r: real, n: nat)
    requires Shifted(s, y) && -(TWO_31 as real) <= r <= TWO_31 as real
    requires -(ONE_Q30 as real) * n as real <= s as real - ONE_Q30 as real * r <= ONE_Q30 as real * n as real
    ensures -(n as real) - 1.0 <= y as real - r <= n as real + 1.0
  {
  }

  /** Every output sample differs from the real sum by at most one unit for each input, and one more. */
  lemma MixIsAccurate(m: Wide, inL: Layout, outL: Layout, x: seq<Int32>, o: nat, y: Int32)
    requires o < Ins(outL) && Ins(inL) <= |x| && ExactlyMixed(m, inL, outL, x, o, y)
    ensures var e := y as real - RealMix(m, inL, outL, x, o); -(Ins(inL) as real) - 1.0 <= e <= Ins(inL) as real + 1.0
  {
    hide Present, Normal, Shifted, AbsSum, ExactSum, RealSum, Reals;
    var row, n, xs := NormalRow(m, inL, outL, o), Ins(inL), x[..Ins(inL)];
    RowSumAtMostOne(m, inL, outL, o);
    forall i | 0 <= i < |row|
      ensures -1.0 <= row[i] <= 1.0
    {
      EntryAtMostSum(row, i, |row|);
    }
    SumIsAccurate(row, xs, n);
    LoudestReal(row, xs);
    ShiftIsAccurate(ExactSum(row, xs, n), y, RealSum(row, Reals(xs), n), n);
  }

  /**
   Building, reducing, compacting and mixing in place: every output sample is the exact sum over all
   inputs of the normalised matrix; no intermediate step overflows or loses a channel.
   */
  method MixSamples(m: Wide, inL: Layout, outL: Layout, src: Samples, len: nat) returns (ok: bool)
    requires |src| == Max(Ins(inL), Ins(outL)) && Channels(src, len)
    modifies src
    ensures ok <==> 0 < Ins(inL) <= MAX_CHANNELS && 0 < Ins(outL) <= MAX_CHANNELS
    ensures ok ==> forall o, t :: 0 <= o < Ins(outL) && 0 <= t < len ==>
      ExactlyMixed(m, inL, outL, old(Column(src, t)), o, src[o][t])
    ensures forall k, t :: 0 <= k < |src| && 0 <= t < src[k].Length && (t >= len || k >= Ins(outL) || !ok) ==>
      src[k][t] == old(src[k][t])
  {
    hide Present, NormalMatrix, Mixed, ExactlyMixed, Pass, Unused, Silent, Q30, Keep, KeepList, SkipsInput, CompactCoef;
    var am := Alloc(m, inL, outL);
    if am == null {
      return false;
    }
    assert forall t :: 0 <= t < len ==> Column(src, t) == old(Column(src, t));
    Mix(am, NormalMatrix(m, inL, outL), src, len);
    forall o, t | 0 <= o < Ins(outL) && 0 <= t < len
      ensures ExactlyMixed(m, inL, outL, old(Column(src, t)), o, src[o][t])
    {
      MixedIsExact(m, inL, outL, old(Column(src, t)), o, src[o][t]);
    }
    ok := true;
  }
}
