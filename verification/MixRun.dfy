/**
 libffabi/src/audio_mix.c, lines 46-60 and 129-161: mixing in place with the compact matrix gives
 exactly what the full matrix would give.
 */
module MixRun {
  import opened MixSpec
  import opened AudioMix

  type Samples = seq<array<Int32>>

  ghost predicate Channels(s: Samples, len: nat) {
    && (forall k :: 0 <= k < |s| ==> s[k].Length >= len)
    && forall j, k :: 0 <= j < k < |s| ==> s[j] != s[k]
  }

  /** One sample of every channel. */
  ghost function Column(s: Samples, t: nat): (x: seq<Int32>)
    requires forall k :: 0 <= k < |s| ==> t < s[k].Length
    reads s
    ensures |x| == |s| && forall k :: 0 <= k < |s| ==> x[k] == s[k][t]
  {
    seq(|s|, k requires 0 <= k < |s| reads s => s[k][t])
  }

  /** One product sum in the 64-bit accumulator. */
  method Accumulate(s: Samples, c: array2<Int32>, i: nat, out: nat, inCh: nat) returns (sum: int)
    requires inCh <= |s| && out < c.Length0 && inCh <= c.Length1
    requires forall k :: 0 <= k < |s| ==> i < s[k].Length
    ensures sum == CompactSum(Row(c, out), Column(s, i), inCh)
  {
    sum := 0;
    var n := 0;
    while n < inCh
      invariant n <= inCh && sum == CompactSum(Row(c, out), Column(s, i), n)
    {
      sum := Wrap64(sum + (s[n][i] as int) * c[out, n]);
      n := n + 1;
    }
  }

  /** The first inner loop: all outputs for sample i, in temp. */
  method ComputePoint(s: Samples, c: array2<Int32>, i: nat, outCh: nat, inCh: nat, temp: array<Int32>)
    requires inCh <= |s| && outCh <= c.Length0 && inCh <= c.Length1
    requires outCh <= temp.Length && temp !in s && forall k :: 0 <= k < |s| ==> i < s[k].Length
    modifies temp
    ensures forall k :: 0 <= k < outCh ==> temp[k] == Finish(CompactSum(Row(c, k), Column(s, i), inCh))
  {
    hide Finish, CompactSum, Row, Column;
    var out := 0;
    while out < outCh
      invariant out <= outCh
      invariant forall k :: 0 <= k < out ==> temp[k] == Finish(CompactSum(Row(c, k), Column(s, i), inCh))
    {
      var sum := Accumulate(s, c, i, out, inCh);
      temp[out] := Finish(sum);
      out := out + 1;
    }
  }

  /** The second one: they are stored. */
  method StorePoint(s: Samples, i: nat, outCh: nat, temp: array<Int32>)
    requires outCh <= |s| && outCh <= temp.Length && temp !in s && Channels(s, i + 1)
    modifies s
    ensures forall k :: 0 <= k < outCh ==> s[k][i] == temp[k]
    ensures forall k :: outCh <= k < |s| ==> s[k][i] == old(s[k][i])
    ensures forall k, t :: 0 <= k < |s| && 0 <= t < s[k].Length && t != i ==> s[k][t] == old(s[k][t])
  {
    var out := 0;
    while out < outCh
      invariant out <= outCh
      invariant forall k :: 0 <= k < out ==> s[k][i] == temp[k]
      invariant forall k :: out <= k < |s| ==> s[k][i] == old(s[k][i])
      invariant forall k, t :: 0 <= k < |s| && 0 <= t < s[k].Length && t != i ==> s[k][t] == old(s[k][t])
    {
      s[out][i] := temp[out];
      out := out + 1;
    }
  }

  /** All outputs for sample i: computed into temp before any of them is stored. */
  method MixPoint(s: Samples, c: array2<Int32>, i: nat, outCh: nat, inCh: nat, temp: array<Int32>)
    requires outCh <= |s| && inCh <= |s| && outCh <= c.Length0 && inCh <= c.Length1
    requires outCh <= temp.Length && temp !in s && Channels(s, i + 1)
    modifies s, temp
    ensures forall k :: 0 <= k < outCh ==> s[k][i] == Finish(CompactSum(old(Row(c, k)), old(Column(s, i)), inCh))
    ensures forall k :: outCh <= k < |s| ==> s[k][i] == old(s[k][i])
    ensures forall k, t :: 0 <= k < |s| && 0 <= t < s[k].Length && t != i ==> s[k][t] == old(s[k][t])
  {
    hide Finish, CompactSum, Row, Column;
    ComputePoint(s, c, i, outCh, inCh, temp);
    StorePoint(s, i, outCh, temp);
  }

  /** mix_any_s32_q30_c */
  method MixAny(s: Samples, c: array2<Int32>, len: nat, outCh: nat, inCh: nat)
    requires outCh <= |s| && inCh <= |s| && outCh <= c.Length0 && inCh <= c.Length1
    requires outCh <= MAX_CHANNELS && Channels(s, len)
    modifies s
    ensures forall k, t :: 0 <= k < outCh && 0 <= t < len ==>
      s[k][t] == Finish(CompactSum(old(Row(c, k)), old(Column(s, t)), inCh))
    ensures forall k, t :: 0 <= k < |s| && 0 <= t < s[k].Length && (t >= len || k >= outCh) ==> s[k][t] == old(s[k][t])
  {
    hide Finish, CompactSum;
    var temp := new Int32[MAX_CHANNELS];
    var i := 0;
    while i < len
      invariant i <= len
      invariant forall k, t :: 0 <= k < outCh && 0 <= t < i ==>
        s[k][t] == Finish(CompactSum(old(Row(c, k)), old(Column(s, t)), inCh))
      invariant forall k, t :: 0 <= k < |s| && 0 <= t < s[k].Length && (t >= i || k >= outCh) ==> s[k][t] == old(s[k][t])
    {
      assert Column(s, i) == old(Column(s, i));
      assert forall k :: 0 <= k < outCh ==> Row(c, k) == old(Row(c, k));
      MixPoint(s, c, i, outCh, inCh, temp);
      i := i + 1;
    }
  }

  // ---------- ffm_audio_mix ----------

  function Max(a: nat, b: nat): nat {
    if a < b then b else a
  }

  /** What one output sample must be: the sum for the full matrix over the old input column, without 30 bits. */
  ghost predicate Mixed(m: Matrix, ins: nat, outs: nat, x: seq<Int32>, o: nat, y: Int32)
    requires Shape(m, ins, outs) && ins <= |x| && o < outs
  {
    Shifted(FullSum(m[o], x[..ins], ins), y)
  }

  lemma SelectNone(src: Samples)
    ensures Select(src, []) == []
  {
  }

  lemma SelectOne(src: Samples, ks: seq<nat>, i: nat)
    requires i < |src| && forall k :: 0 <= k < |ks| ==> ks[k] < |src|
    ensures Select(src, ks + [i]) == Select(src, ks) + [src[i]]
  {
  }

  // One channel further, the list grows if the channel is kept.
  lemma SelectNext(m: Matrix, ins: nat, outs: nat, src: Samples, i: nat)
    requires Shape(m, ins, outs) && i < |src|
    ensures Select(src, KeepList(m, ins, outs, i + 1)) ==
      if Keep(m, ins, outs, i) then Select(src, KeepList(m, ins, outs, i)) + [src[i]]
      else Select(src, KeepList(m, ins, outs, i))
  {
    hide *;
    KeepListStep(m, ins, outs, i + 1);
    SelectOne(src, KeepList(m, ins, outs, i), i);
  }

  /** The list of channels left to mix. */
  method SelectChannels(am: AudioMix, ghost m: Matrix, src: Samples) returns (data: Samples)
    requires am.Buffers() && Shape(m, am.inChannels, am.outChannels)
    requires am.Reduced(m) && am.inMatrixChannels > 0
    requires |src| == Max(am.inChannels, am.outChannels) <= MAX_CHANNELS
    ensures data == Select(src, KeepList(m, am.inChannels, am.outChannels, |src|))
  {
    hide AudioMix.Reduced, Shape, Keep, KeepList, Select, Silent, Pass, SkipsInput;
    SelectNone(src);
    data := [];
    var i := 0;
    while i < Max(am.inChannels, am.outChannels)
      invariant i <= |src|
      invariant data == Select(src, KeepList(m, am.inChannels, am.outChannels, i))
    {
      SelectNext(m, am.inChannels, am.outChannels, src, i);
      am.KeptSlot(m, i);
      if !(am.inputSkip[i] || am.outputSkip[i] || am.outputZero[i]) {
        data := data + [src[i]];
      }
      i := i + 1;
    }
  }

  // Without any reduction the list of channels is the whole list.
  lemma {:induction false} NothingDropped(m: Matrix, ins: nat, outs: nat, n: nat)
    requires Shape(m, ins, outs) && |KeepList(m, ins, outs, n)| == n
    ensures forall i :: 0 <= i < n ==> KeepList(m, ins, outs, n)[i] == i
  {
    hide Keep, KeepList;
    if n > 0 {
      KeepListStep(m, ins, outs, n);
      NothingDropped(m, ins, outs, n - 1);
    }
  }

  // A kept output of the compact mix is the output of the full mix.
  lemma KeptOutput(m: Matrix, ins: nat, outs: nat, a: nat, coefs: seq<Int32>, x: seq<Int32>, ys: seq<Int32>)
    requires Shape(m, ins, outs) && |x| >= ins && a < |KeepList(m, ins, outs, outs)|
    requires var ks := KeepList(m, ins, outs, ins);
      && |coefs| == |ks| <= |ys|
      && (forall b :: 0 <= b < |ks| ==> coefs[b] == CompactCoef(m, ins, outs, a, b) && ys[b] == x[ks[b]])
    ensures Mixed(m, ins, outs, x, KeepList(m, ins, outs, outs)[a], Finish(CompactSum(coefs, ys, |KeepList(m, ins, outs, ins)|)))
  {
    hide Keep, Q30, Wrap64, CompactSum, FullSum, Finish;
    var ks, o := KeepList(m, ins, outs, ins), KeepList(m, ins, outs, outs)[a];
    CompactIsFull(m, ins, outs, o, x[..ins], ins);
    CompactSumSame(coefs, Select(Quantise(m[o]), ks), ys, Select(x[..ins], ks), |ks|);
  }

  lemma DroppedOutputValue(m: Matrix, ins: nat, outs: nat, x: seq<Int32>, o: nat)
    requires Shape(m, ins, outs) && ins <= |x| && o < outs
    ensures Silent(m, ins, outs, o) ==> Mixed(m, ins, outs, x, o, 0)
    ensures Pass(m, ins, outs, o) ==> Mixed(m, ins, outs, x, o, x[o])
  {
    if Silent(m, ins, outs, o) {
      SilentMix(m, ins, outs, x[..ins], o);
    }
    if Pass(m, ins, outs, o) {
      PassMix(m, ins, outs, x[..ins], o);
    }
  }

  lemma SelectedChannels(src: Samples, ks: seq<nat>, len: nat)
    requires Channels(src, len) && forall k :: 0 <= k < |ks| ==> ks[k] < |src|
    requires forall j, k :: 0 <= j < k < |ks| ==> ks[j] < ks[k]
    ensures Channels(Select(src, ks), len)
    ensures forall i, k :: 0 <= i < |src| && 0 <= k < |ks| && i != ks[k] ==> Select(src, ks)[k] != src[i]
  {
  }

  /** The samples that mixing leaves alone. */
  ghost predicate LeftAlone(m: Matrix, ins: nat, outs: nat, k: nat, t: nat, len: nat)
    requires Shape(m, ins, outs)
  {
    t >= len || k >= outs || !Keep(m, ins, outs, k)
  }

  /** The channels that are left are mixed; all others keep their samples. */
  method MixKept(am: AudioMix, ghost m: Matrix, src: Samples, len: nat)
    requires am.Converted(m) && am.inMatrixChannels > 0
    requires |src| == Max(am.inChannels, am.outChannels) && Channels(src, len)
    modifies src
    ensures forall o, t :: 0 <= o < am.outChannels && 0 <= t < len && Keep(m, am.inChannels, am.outChannels, o) ==>
      Mixed(m, am.inChannels, am.outChannels, old(Column(src, t)), o, src[o][t])
    ensures forall k, t :: 0 <= k < |src| && 0 <= t < src[k].Length && LeftAlone(m, am.inChannels, am.outChannels, k, t, len) ==>
      src[k][t] == old(src[k][t])
  {
    hide Keep, KeepList, CompactCoef, Finish, CompactSum, Mixed, Silent, Pass, SkipsInput;
    var ins, outs := am.inChannels, am.outChannels;
    var data: Samples;
    if am.outMatrixChannels < outs || am.inMatrixChannels < ins {
      data := SelectChannels(am, m, src);
    } else {
      data := src;
      NothingDropped(m, ins, outs, |src|);
    }
    ghost var ks := KeepList(m, ins, outs, |src|);
    assert data == Select(src, ks);
    assert forall t :: 0 <= t < len ==> Column(src, t) == old(Column(src, t));
    MixSelected(m, ins, outs, am.matrix, src, data, len, am.outMatrixChannels, am.inMatrixChannels);
  }

  method MixSelected(ghost m: Matrix, ghost ins: nat, ghost outs: nat, c: array2<Int32>,
                     ghost src: Samples, data: Samples, len: nat, outCh: nat, inCh: nat)
    requires Shape(m, ins, outs) && |src| == Max(ins, outs) && Channels(src, len)
    requires data == Select(src, KeepList(m, ins, outs, |src|))
    requires outCh == |KeepList(m, ins, outs, outs)| == c.Length0 && inCh == |KeepList(m, ins, outs, ins)| == c.Length1
    requires forall a, b :: 0 <= a < outCh && 0 <= b < inCh ==> c[a, b] == CompactCoef(m, ins, outs, a, b)
    modifies src
    ensures forall o, t :: 0 <= o < outs && 0 <= t < len && Keep(m, ins, outs, o) ==>
      Mixed(m, ins, outs, old(Column(src, t)), o, src[o][t])
    ensures forall k, t :: 0 <= k < |src| && 0 <= t < src[k].Length && LeftAlone(m, ins, outs, k, t, len) ==>
      src[k][t] == old(src[k][t])
  {
    hide Keep, KeepList, CompactCoef, Finish, CompactSum, Mixed, LeftAlone;
    ghost var ks := KeepList(m, ins, outs, |src|);
    SelectedChannels(src, ks, len);
    KeepListPrefix(m, ins, outs, outs, |src|);
    KeepListPrefix(m, ins, outs, ins, |src|);
    MixAny(data, c, len, outCh, inCh);
    forall o, t | 0 <= o < outs && 0 <= t < len && Keep(m, ins, outs, o)
      ensures Mixed(m, ins, outs, old(Column(src, t)), o, src[o][t])
    {
      Rank(m, ins, outs, o, outs);
      ghost var a := |KeepList(m, ins, outs, o)|;
      assert src[o] == data[a];
      KeptOutput(m, ins, outs, a, old(Row(c, a)), old(Column(src, t)), old(Column(data, t)));
    }
    forall k, t | 0 <= k < |src| && 0 <= t < src[k].Length && LeftAlone(m, ins, outs, k, t, len)
      ensures src[k][t] == old(src[k][t])
    {
      Alone(m, ins, outs, src, k, t, len);
    }
  }

  // A channel left alone is either not in the list, or it is read only, or the sample is outside the block.
  lemma Alone(m: Matrix, ins: nat, outs: nat, src: Samples, k: nat, t: nat, len: nat)
    requires Shape(m, ins, outs) && |src| == Max(ins, outs) && Channels(src, len)
    requires k < |src| && LeftAlone(m, ins, outs, k, t, len)
    ensures var ks := KeepList(m, ins, outs, |src|);
      src[k] !in Select(src, ks)
      || exists a :: 0 <= a < |ks| && src[k] == Select(src, ks)[a] && (t >= len || a >= |KeepList(m, ins, outs, outs)|)
  {
    hide Keep;
    var ks := KeepList(m, ins, outs, |src|);
    SelectedChannels(src, ks, len);
    if Keep(m, ins, outs, k) {
      Rank(m, ins, outs, k, |src|);
      if k >= outs {
        KeepListPrefix(m, ins, outs, outs, k);
      }
      assert src[k] == Select(src, ks)[|KeepList(m, ins, outs, k)|];
    }
  }

  /** ffm_audio_mix: bit for bit the result of the unreduced matrix, whatever was dropped. */
  method Mix(am: AudioMix, ghost m: Matrix, src: Samples, len: nat)
    requires am.Converted(m)
    requires |src| == Max(am.inChannels, am.outChannels) && Channels(src, len)
    modifies src
    ensures forall o, t :: 0 <= o < am.outChannels && 0 <= t < len ==>
      Mixed(m, am.inChannels, am.outChannels, old(Column(src, t)), o, src[o][t])
    ensures forall k, t :: 0 <= k < |src| && 0 <= t < src[k].Length && (t >= len || k >= am.outChannels) ==>
      src[k][t] == old(src[k][t])
  {
    hide Keep, KeepList, Silent, Pass, Mixed, CompactCoef, SkipsInput;
    var ins, outs := am.inChannels, am.outChannels;
    if am.inMatrixChannels != 0 && am.outMatrixChannels != 0 {
      MixKept(am, m, src, len);
    }
    if am.outMatrixChannels < outs {
      ZeroSilent(am, m, src, len);
    } else {
      NothingDropped(m, ins, outs, outs);
    }
    forall o, t | 0 <= o < outs && 0 <= t < len
      ensures Mixed(m, ins, outs, old(Column(src, t)), o, src[o][t])
    {
      KindOfOutput(m, ins, outs, o);
      DroppedOutputValue(m, ins, outs, old(Column(src, t)), o);
    }
  }

  lemma KindOfOutput(m: Matrix, ins: nat, outs: nat, o: nat)
    requires Shape(m, ins, outs) && o < outs
    ensures Keep(m, ins, outs, o) <==> !Silent(m, ins, outs, o) && !Pass(m, ins, outs, o)
    ensures !(Silent(m, ins, outs, o) && Pass(m, ins, outs, o))
    ensures |KeepList(m, ins, outs, outs)| == outs ==> Keep(m, ins, outs, o)
  {
    hide Silent, Pass, KeepList;
    OneKind(m, ins, outs, o);
    KindRanges(m, ins, outs, o);
    if |KeepList(m, ins, outs, outs)| == outs {
      NothingDropped(m, ins, outs, outs);
      assert KeepList(m, ins, outs, outs)[o] == o;
    }
  }

  /** Lines 155-159: the silent outputs. */
  method ZeroSilent(am: AudioMix, ghost m: Matrix, src: Samples, len: nat)
    requires am.Reduced(m) && |src| >= am.outChannels && Channels(src, len)
    modifies src
    ensures forall k, t :: 0 <= k < |src| && 0 <= t < src[k].Length ==>
      src[k][t] == if k < am.outChannels && Silent(m, am.inChannels, am.outChannels, k) && t < len then 0 else old(src[k][t])
  {
    hide Silent, KeepList, Pass, SkipsInput;
    var i := 0;
    while i < am.outChannels
      invariant i <= am.outChannels
      invariant forall k, t :: 0 <= k < |src| && 0 <= t < src[k].Length ==>
        src[k][t] == if k < i && Silent(m, am.inChannels, am.outChannels, k) && t < len then 0 else old(src[k][t])
    {
      if am.outputZero[i] {
        ZeroFill(src[i], len);
      }
      i := i + 1;
    }
  }

  method ZeroFill(a: array<Int32>, len: nat)
    requires len <= a.Length
    modifies a
    ensures forall t :: 0 <= t < a.Length ==> a[t] == if t < len then 0 else old(a[t])
  {
    forall t | 0 <= t < len { a[t] := 0; }
  }
}
