/**
 libffabi/src/audio_mix.c: the reduction of a mixing matrix, its compaction to fixed point, and
 the in-place mixer.  Coefficients are exact reals.
 */
module AudioMix {
  import opened MixSpec

  // ---------- counting dropped slots ----------

  function CountSilent(m: Matrix, ins: nat, outs: nat, n: nat): (k: nat)
    requires Shape(m, ins, outs)
    ensures k <= n
  {
    if n == 0 then 0
    else CountSilent(m, ins, outs, n - 1) + if Silent(m, ins, outs, n - 1) then 1 else 0
  }

  function CountPass(m: Matrix, ins: nat, outs: nat, n: nat): (k: nat)
    requires Shape(m, ins, outs)
    ensures k <= n
  {
    if n == 0 then 0 else CountPass(m, ins, outs, n - 1) + if Pass(m, ins, outs, n - 1) then 1 else 0
  }

  function CountUnused(m: Matrix, ins: nat, outs: nat, n: nat): (k: nat)
    requires Shape(m, ins, outs)
    ensures k <= n
  {
    if n == 0 then 0 else CountUnused(m, ins, outs, n - 1) + if Unused(m, ins, outs, n - 1) then 1 else 0
  }

  // Every slot is kept, silent, passed through or unused, and only one of these.
  lemma {:induction false} KeepCount(m: Matrix, ins: nat, outs: nat, n: nat)
    requires Shape(m, ins, outs)
    ensures |KeepList(m, ins, outs, n)| + CountSilent(m, ins, outs, n) + CountPass(m, ins, outs, n)
            + CountUnused(m, ins, outs, n) == n
  {
    hide Silent, Pass, Unused;
    if n > 0 {
      KeepCount(m, ins, outs, n - 1);
      OneKind(m, ins, outs, n - 1);
    }
  }

  lemma OneKind(m: Matrix, ins: nat, outs: nat, i: nat)
    requires Shape(m, ins, outs)
    ensures !(Silent(m, ins, outs, i) && Pass(m, ins, outs, i))
    ensures !(Silent(m, ins, outs, i) && Unused(m, ins, outs, i))
    ensures !(Pass(m, ins, outs, i) && Unused(m, ins, outs, i))
  {
    if Pass(m, ins, outs, i) {
      assert m[i][i] == 1.0;
    }
  }

  predicate SkipsInput(m: Matrix, ins: nat, outs: nat, i: nat)
    requires Shape(m, ins, outs)
  {
    Pass(m, ins, outs, i) || Unused(m, ins, outs, i)
  }

  function Min(a: nat, b: nat): nat {
    if a < b then a else b
  }

  lemma {:induction false} CountsBeyond(m: Matrix, ins: nat, outs: nat, n: nat)
    requires Shape(m, ins, outs)
    ensures n >= outs ==> CountSilent(m, ins, outs, n) == CountSilent(m, ins, outs, outs)
    ensures n >= Min(ins, outs) ==> CountPass(m, ins, outs, n) == CountPass(m, ins, outs, Min(ins, outs))
    ensures n <= outs ==> CountUnused(m, ins, outs, n) == 0
  {
    hide Silent, Pass, Unused;
    if n > 0 {
      CountsBeyond(m, ins, outs, n - 1);
      KindRanges(m, ins, outs, n - 1);
    }
  }

  lemma KindRanges(m: Matrix, ins: nat, outs: nat, i: nat)
    requires Shape(m, ins, outs)
    ensures i >= outs ==> !Silent(m, ins, outs, i)
    ensures i >= Min(ins, outs) ==> !Pass(m, ins, outs, i)
    ensures i < outs ==> !Unused(m, ins, outs, i)
  {
  }

  lemma {:induction false} AllSilent(m: Matrix, ins: nat, outs: nat, n: nat)
    requires Shape(m, ins, outs) && CountSilent(m, ins, outs, n) == n
    ensures forall i :: 0 <= i < n ==> Silent(m, ins, outs, i)
  {
    hide Silent;
    if n > 0 {
      AllSilent(m, ins, outs, n - 1);
    }
  }

  // ---------- the tests ----------

  /** Lines 172-191. */
  method OutputIsSilent(m: Matrix, ins: nat, outs: nat, o: nat) returns (zero: bool)
    requires Shape(m, ins, outs) && o < outs
    ensures zero == Silent(m, ins, outs, o)
  {
    zero := true;
    var i := 0;
    while i < ins
      invariant i <= ins && zero && forall j :: 0 <= j < i ==> m[o][j] == 0.0
    {
      if m[o][i] != 0.0 {
        zero := false;
        break;
      }
      i := i + 1;
    }
    if o < ins {
      i := 0;
      while i < outs
        invariant i <= outs && (zero ==> RowZero(m, ins, outs, o))
        invariant !zero ==> !RowZero(m, ins, outs, o)
        invariant forall j :: 0 <= j < i ==> m[j][o] == 0.0
      {
        if m[i][o] != 0.0 {
          zero := false;
          break;
        }
        i := i + 1;
      }
    }
  }

  /** Lines 208-227. */
  method InputPasses(m: Matrix, ins: nat, outs: nat, i: nat) returns (skip: bool)
    requires Shape(m, ins, outs) && i < ins && i < outs
    ensures skip == Pass(m, ins, outs, i)
  {
    skip := true;
    var o := 0;
    while o < outs
      invariant o <= outs
      invariant forall k :: 0 <= k < o ==> m[k][i] == if k == i then 1.0 else 0.0
      invariant skip && i < o ==> forall j :: 0 <= j < ins && j != i ==> m[i][j] == 0.0
      invariant !skip ==> i < o && !forall j :: 0 <= j < ins && j != i ==> m[i][j] == 0.0
    {
      if (o != i && m[o][i] != 0.0) || (o == i && m[o][i] != 1.0) {
        skip := false;
        break;
      }
      if o == i {
        var i0 := 0;
        while i0 < ins
          invariant i0 <= ins && skip
          invariant forall j :: 0 <= j < i0 && j != i ==> m[o][j] == 0.0
        {
          if i0 != i && m[o][i0] != 0.0 {
            skip := false;
            break;
          }
          i0 := i0 + 1;
        }
      }
      o := o + 1;
    }
  }

  /** Lines 235-242. */
  method InputContributes(m: Matrix, ins: nat, outs: nat, i: nat) returns (contrib: bool)
    requires Shape(m, ins, outs) && i < ins
    ensures contrib == !ColZero(m, ins, outs, i)
  {
    contrib := false;
    var o := 0;
    while o < outs
      invariant o <= outs && !contrib && forall k :: 0 <= k < o ==> m[k][i] == 0.0
    {
      if m[o][i] != 0.0 {
        contrib := true;
        break;
      }
      o := o + 1;
    }
  }

  /** Lines 256-274. */
  method OutputPasses(m: Matrix, ins: nat, outs: nat, o: nat) returns (skip: bool)
    requires Shape(m, ins, outs) && o < ins && o < outs
    ensures skip == Pass(m, ins, outs, o)
  {
    skip := true;
    var i := 0;
    while i < ins
      invariant i <= ins && skip
      invariant forall j :: 0 <= j < i ==> m[o][j] == if j == o then 1.0 else 0.0
    {
      if (o != i && m[o][i] != 0.0) || (o == i && m[o][i] != 1.0) {
        skip := false;
        break;
      }
      i := i + 1;
    }
    i := o;
    var o0 := 0;
    while o0 < outs
      invariant o0 <= outs
      invariant skip ==> forall j :: 0 <= j < ins ==> m[o][j] == if j == o then 1.0 else 0.0
      invariant !skip ==> !Pass(m, ins, outs, o)
      invariant forall k :: 0 <= k < o0 && k != i ==> m[k][i] == 0.0
    {
      if o0 != i && m[o0][i] != 0.0 {
        skip := false;
        break;
      }
      o0 := o0 + 1;
    }
  }

  // ---------- reduce_matrix ----------

  /** One row of the compact matrix. */
  ghost function Row(c: array2<Int32>, a: nat): (r: seq<Int32>)
    requires a < c.Length0
    reads c
    ensures |r| == c.Length1 && forall b :: 0 <= b < c.Length1 ==> r[b] == c[a, b]
  {
    seq(c.Length1, b requires 0 <= b < c.Length1 reads c => c[a, b])
  }

  /** The mixer: its channel counts, the three flag arrays and the compact matrix. */
  class AudioMix {
    const inChannels: nat
    const outChannels: nat
    var inMatrixChannels: int
    var outMatrixChannels: int
    const outputZero: array<bool>
    const inputSkip: array<bool>
    const outputSkip: array<bool>
    var matrix: array2?<Int32>

    constructor (ins: nat, outs: nat)
      ensures inChannels == ins && outChannels == outs && Buffers()
      ensures fresh(outputZero) && fresh(inputSkip) && fresh(outputSkip)
    {
      inChannels, outChannels := ins, outs;
      inMatrixChannels, outMatrixChannels := 0, 0;
      outputZero, inputSkip, outputSkip :=
        new bool[MAX_CHANNELS](_ => false), new bool[MAX_CHANNELS](_ => false), new bool[MAX_CHANNELS](_ => false);
      matrix := null;
    }

    ghost predicate Buffers() {
      && outputZero.Length == inputSkip.Length == outputSkip.Length == MAX_CHANNELS
      && outputZero != inputSkip && inputSkip != outputSkip && outputZero != outputSkip
    }

    /** The flags and counts that reduce_matrix must leave. */
    ghost predicate Reduced(m: Matrix)
      reads this, outputZero, inputSkip, outputSkip
    {
      && Buffers() && Shape(m, inChannels, outChannels)
      && (forall o :: 0 <= o < MAX_CHANNELS ==> outputZero[o] == Silent(m, inChannels, outChannels, o))
      && inMatrixChannels >= 0 && outMatrixChannels >= 0
      && (inMatrixChannels == 0 <==> outMatrixChannels == 0)
      && (inMatrixChannels == 0 ==> forall o :: 0 <= o < outChannels ==>
        Silent(m, inChannels, outChannels, o) || Pass(m, inChannels, outChannels, o))
      && (inMatrixChannels > 0 ==>
        && inMatrixChannels == |KeepList(m, inChannels, outChannels, inChannels)|
        && outMatrixChannels == |KeepList(m, inChannels, outChannels, outChannels)|
        && (forall i :: 0 <= i < MAX_CHANNELS ==> inputSkip[i] == SkipsInput(m, inChannels, outChannels, i))
        && (forall o :: 0 <= o < MAX_CHANNELS ==> outputSkip[o] == Pass(m, inChannels, outChannels, o)))
    }

    /** The first part: outputs that can be zeroed instead of mixed. */
    method MarkSilent(m: Matrix)
      requires Buffers() && Shape(m, inChannels, outChannels)
      requires inMatrixChannels == inChannels && outMatrixChannels == outChannels
      modifies this, outputZero, inputSkip, outputSkip
      ensures matrix == old(matrix)
      ensures forall i :: 0 <= i < MAX_CHANNELS ==> !inputSkip[i] && !outputSkip[i]
      ensures forall o :: 0 <= o < MAX_CHANNELS ==> outputZero[o] == Silent(m, inChannels, outChannels, o)
      ensures outMatrixChannels == outChannels - CountSilent(m, inChannels, outChannels, outChannels)
      ensures inMatrixChannels == inChannels - CountSilent(m, inChannels, outChannels, inChannels)
    {
      hide Silent, Pass, Keep, KeepList, SkipsInput;
      forall i | 0 <= i < MAX_CHANNELS { outputZero[i] := false; }
      forall i | 0 <= i < MAX_CHANNELS { inputSkip[i] := false; }
      forall i | 0 <= i < MAX_CHANNELS { outputSkip[i] := false; }
      var o := 0;
      while o < outChannels
        invariant o <= outChannels
        invariant matrix == old(matrix)
        invariant forall i :: 0 <= i < MAX_CHANNELS ==> !inputSkip[i] && !outputSkip[i]
        invariant forall k :: 0 <= k < o ==> outputZero[k] == Silent(m, inChannels, outChannels, k)
        invariant forall k :: o <= k < MAX_CHANNELS ==> !outputZero[k]
        invariant outMatrixChannels == outChannels - CountSilent(m, inChannels, outChannels, o)
        invariant inMatrixChannels == inChannels - CountSilent(m, inChannels, outChannels, Min(o, inChannels))
      {
        var zero := OutputIsSilent(m, inChannels, outChannels, o);
        if zero {
          outputZero[o] := true;
          outMatrixChannels := outMatrixChannels - 1;
          if o < inChannels {
            inMatrixChannels := inMatrixChannels - 1;
          }
        }
        o := o + 1;
      }
      CountsBeyond(m, inChannels, outChannels, inChannels);
      forall k | outChannels <= k < MAX_CHANNELS
        ensures !Silent(m, inChannels, outChannels, k)
      {
        KindRanges(m, inChannels, outChannels, k);
      }
    }

    /** The second part: inputs that are passed through, or contribute to nothing. */
    method MarkInputs(m: Matrix)
      requires Buffers() && Shape(m, inChannels, outChannels)
      requires forall i :: 0 <= i < MAX_CHANNELS ==> !inputSkip[i]
      requires inMatrixChannels == inChannels - CountSilent(m, inChannels, outChannels, inChannels)
      modifies this`inMatrixChannels, inputSkip
      ensures forall i :: 0 <= i < MAX_CHANNELS ==> inputSkip[i] == SkipsInput(m, inChannels, outChannels, i)
      ensures inMatrixChannels == |KeepList(m, inChannels, outChannels, inChannels)|
    {
      hide Pass, Unused, Silent, Keep, KeepList, SkipsInput, CountPass, CountUnused, CountSilent;
      MarkPassed(m);
      MarkUnused(m);
      CountsBeyond(m, inChannels, outChannels, inChannels);
      KeepCount(m, inChannels, outChannels, inChannels);
      forall k | 0 <= k < MAX_CHANNELS
        ensures inputSkip[k] == SkipsInput(m, inChannels, outChannels, k)
      {
        SkipsByRange(m, inChannels, outChannels, k);
      }
    }

    /** Lines 205-232: inputs that go unchanged to their own output only. */
    method MarkPassed(m: Matrix)
      requires Buffers() && Shape(m, inChannels, outChannels)
      requires forall i :: 0 <= i < MAX_CHANNELS ==> !inputSkip[i]
      modifies this`inMatrixChannels, inputSkip
      ensures forall k :: 0 <= k < MAX_CHANNELS ==>
        inputSkip[k] == (k < Min(inChannels, outChannels) && Pass(m, inChannels, outChannels, k))
      ensures inMatrixChannels == old(inMatrixChannels) - CountPass(m, inChannels, outChannels, Min(inChannels, outChannels))
    {
      hide Pass;
      var i := 0;
      while i < Min(inChannels, outChannels)
        invariant i <= Min(inChannels, outChannels)
        invariant forall k :: 0 <= k < MAX_CHANNELS ==> inputSkip[k] == (k < i && Pass(m, inChannels, outChannels, k))
        invariant inMatrixChannels == old(inMatrixChannels) - CountPass(m, inChannels, outChannels, i)
      {
        var skip := InputPasses(m, inChannels, outChannels, i);
        if skip {
          inputSkip[i] := true;
          inMatrixChannels := inMatrixChannels - 1;
        }
        i := i + 1;
      }
    }

    /** Lines 233-246: the inputs without an output of their own that go nowhere. */
    method MarkUnused(m: Matrix)
      requires Buffers() && Shape(m, inChannels, outChannels)
      requires forall i :: Min(inChannels, outChannels) <= i < MAX_CHANNELS ==> !inputSkip[i]
      modifies this`inMatrixChannels, inputSkip
      ensures forall k :: 0 <= k < Min(inChannels, outChannels) ==> inputSkip[k] == old(inputSkip[k])
      ensures forall k :: Min(inChannels, outChannels) <= k < MAX_CHANNELS ==>
        inputSkip[k] == (k < inChannels && Unused(m, inChannels, outChannels, k))
      ensures inMatrixChannels == old(inMatrixChannels) - CountUnused(m, inChannels, outChannels, inChannels)
    {
      hide Unused;
      var i := Min(inChannels, outChannels);
      CountsBeyond(m, inChannels, outChannels, i);
      while i < inChannels
        invariant Min(inChannels, outChannels) <= i <= inChannels
        invariant forall k :: 0 <= k < Min(inChannels, outChannels) ==> inputSkip[k] == old(inputSkip[k])
        invariant forall k :: Min(inChannels, outChannels) <= k < MAX_CHANNELS ==>
          inputSkip[k] == (k < i && Unused(m, inChannels, outChannels, k))
        invariant inMatrixChannels == old(inMatrixChannels) - CountUnused(m, inChannels, outChannels, i)
      {
        var contrib := InputContributes(m, inChannels, outChannels, i);
        UnusedIs(m, inChannels, outChannels, i);
        if !contrib {
          inputSkip[i] := true;
          inMatrixChannels := inMatrixChannels - 1;
        }
        i := i + 1;
      }
    }

    /** The third part: outputs that only get their own input. */
    method MarkOutputs(m: Matrix)
      requires Buffers() && Shape(m, inChannels, outChannels)
      requires forall o :: 0 <= o < MAX_CHANNELS ==> !outputSkip[o]
      requires outMatrixChannels == outChannels - CountSilent(m, inChannels, outChannels, outChannels)
      modifies this`outMatrixChannels, outputSkip
      ensures forall o :: 0 <= o < MAX_CHANNELS ==> outputSkip[o] == Pass(m, inChannels, outChannels, o)
      ensures outMatrixChannels == |KeepList(m, inChannels, outChannels, outChannels)|
    {
      hide Pass, Unused, Silent, Keep, KeepList, SkipsInput;
      var o := 0;
      while o < Min(inChannels, outChannels)
        invariant o <= Min(inChannels, outChannels)
        invariant forall k :: 0 <= k < o ==> outputSkip[k] == Pass(m, inChannels, outChannels, k)
        invariant forall k :: o <= k < MAX_CHANNELS ==> !outputSkip[k]
        invariant outMatrixChannels == old(outMatrixChannels) - CountPass(m, inChannels, outChannels, o)
      {
        var skip := OutputPasses(m, inChannels, outChannels, o);
        if skip {
          outputSkip[o] := true;
          outMatrixChannels := outMatrixChannels - 1;
        }
        o := o + 1;
      }
      CountsBeyond(m, inChannels, outChannels, outChannels);
      KeepCount(m, inChannels, outChannels, outChannels);
      forall k | 0 <= k < MAX_CHANNELS
        ensures outputSkip[k] == Pass(m, inChannels, outChannels, k)
      {
        KindRanges(m, inChannels, outChannels, k);
      }
    }

    /** reduce_matrix, with its three early returns. */
    method ReduceMatrix(m: Matrix)
      requires Buffers() && Shape(m, inChannels, outChannels)
      requires inMatrixChannels == inChannels && outMatrixChannels == outChannels
      modifies this, outputZero, inputSkip, outputSkip
      ensures Reduced(m) && matrix == old(matrix)
    {
      hide Pass, Unused, Silent;
      MarkSilent(m);
      if outMatrixChannels == 0 || inMatrixChannels == 0 {
        NothingLeft(m, inChannels, outChannels);
        outMatrixChannels := 0;
        inMatrixChannels := 0;
        return;
      }
      MarkInputs(m);
      if inMatrixChannels == 0 {
        NoInputLeft(m, inChannels, outChannels);
        outMatrixChannels := 0;
        return;
      }
      MarkOutputs(m);
      if outMatrixChannels == 0 {
        NoOutputLeft(m, inChannels, outChannels);
        inMatrixChannels := 0;
        return;
      }
    }

    /** The compact matrix in fixed point: kept rows by kept columns. */
    ghost predicate Converted(m: Matrix)
      reads this, outputZero, inputSkip, outputSkip, matrix
    {
      && Reduced(m)
      && (inMatrixChannels > 0 ==>
        && matrix != null && matrix.Length0 == outMatrixChannels && matrix.Length1 == inMatrixChannels
        && forall a, b :: 0 <= a < outMatrixChannels && 0 <= b < inMatrixChannels ==>
          matrix[a, b] == CompactCoef(m, inChannels, outChannels, a, b))
    }

    /** CONVERT_MATRIX: every entry of the compact matrix is written exactly once. */
    method Convert(m: Matrix)
      requires Reduced(m) && inMatrixChannels > 0
      modifies this`matrix
      ensures Converted(m) && fresh(matrix)
    {
      hide Pass, Unused, Silent, Q30, Keep, KeepList, SkipsInput, CompactCoef;
      var c := new Int32[outMatrixChannels, inMatrixChannels];
      ConvertRows(m, c);
      matrix := c;
    }

    method ConvertRows(m: Matrix, c: array2<Int32>)
      requires Buffers() && Shape(m, inChannels, outChannels) && Reduced(m) && inMatrixChannels > 0
      requires c.Length0 == outMatrixChannels && c.Length1 == inMatrixChannels
      requires inMatrixChannels == |KeepList(m, inChannels, outChannels, inChannels)|
      requires outMatrixChannels == |KeepList(m, inChannels, outChannels, outChannels)|
      modifies c
      ensures forall a, b :: 0 <= a < c.Length0 && 0 <= b < c.Length1 ==>
        c[a, b] == CompactCoef(m, inChannels, outChannels, a, b)
    {
      hide Reduced, Keep, KeepList, CompactCoef;
      var o, o0 := 0, 0;
      while o < outChannels
        invariant o <= outChannels && o0 == |KeepList(m, inChannels, outChannels, o)| <= outMatrixChannels
        invariant forall a, b :: 0 <= a < o0 && 0 <= b < c.Length1 ==>
          Row(c, a)[b] == CompactCoef(m, inChannels, outChannels, a, b)
      {
        KeepListGrows(m, inChannels, outChannels, o, outChannels);
        KeptSlot(m, o);
        if !(outputZero[o] || outputSkip[o]) {
          ConvertRow(m, m[o], c, o, o0);
          o0 := o0 + 1;
        }
        o := o + 1;
      }
    }

    // The flag tests of the two conversion loops say exactly that the slot is kept.
    lemma KeptSlot(m: Matrix, i: nat)
      requires Reduced(m) && inMatrixChannels > 0 && i < MAX_CHANNELS
      ensures i < outChannels ==> (Keep(m, inChannels, outChannels, i) <==> !(outputZero[i] || outputSkip[i]))
      ensures i < inChannels ==> (Keep(m, inChannels, outChannels, i) <==> !(inputSkip[i] || outputZero[i]))
      ensures Keep(m, inChannels, outChannels, i) <==> !(inputSkip[i] || outputSkip[i] || outputZero[i])
    {
      hide Pass, Silent, KeepList;
      KindRanges(m, inChannels, outChannels, i);
      PassRange(m, inChannels, outChannels, i);
    }

    method ConvertRow(ghost m: Matrix, row: seq<real>, c: array2<Int32>, ghost o: nat, o0: nat)
      requires Buffers() && Shape(m, inChannels, outChannels) && Reduced(m) && inMatrixChannels > 0 && o < outChannels
      requires c.Length0 == outMatrixChannels && c.Length1 == inMatrixChannels
      requires inMatrixChannels == |KeepList(m, inChannels, outChannels, inChannels)|
      requires outMatrixChannels == |KeepList(m, inChannels, outChannels, outChannels)|
      requires Keep(m, inChannels, outChannels, o) && o0 == |KeepList(m, inChannels, outChannels, o)| < c.Length0
      requires row == m[o] && |row| == inChannels <= MAX_CHANNELS
      modifies c
      ensures forall a :: 0 <= a < c.Length0 && a != o0 ==> Row(c, a) == old(Row(c, a))
      ensures forall b :: 0 <= b < c.Length1 ==> Row(c, o0)[b] == CompactCoef(m, inChannels, outChannels, o0, b)
    {
      hide Reduced, Shape, Keep, KeepList, CompactCoef, Q30, Row;
      var i, i0 := 0, 0;
      while i < inChannels
        invariant i <= inChannels && i0 == |KeepList(m, inChannels, outChannels, i)| <= c.Length1
        invariant forall a :: 0 <= a < c.Length0 && a != o0 ==> Row(c, a) == old(Row(c, a))
        invariant forall b :: 0 <= b < i0 ==> Row(c, o0)[b] == CompactCoef(m, inChannels, outChannels, o0, b)
      {
        KeepListGrows(m, inChannels, outChannels, i, inChannels);
        KeptSlot(m, i);
        if !(inputSkip[i] || outputZero[i]) {
          EntryIs(m, inChannels, outChannels, o, i);
          WriteEntry(c, o0, i0, row[i]);
          i0 := i0 + 1;
        }
        i := i + 1;
      }
    }

    /** ff_audio_mix_set_matrix: refuses channel counts outside 1..32. */
    method SetMatrix(m: Matrix) returns (ok: bool)
      requires Buffers() && |m| == outChannels && forall o :: 0 <= o < outChannels ==> |m[o]| == inChannels
      modifies this, outputZero, inputSkip, outputSkip
      ensures ok <==> 0 < inChannels <= MAX_CHANNELS && 0 < outChannels <= MAX_CHANNELS
      ensures ok ==> Converted(m)
    {
      if inChannels <= 0 || inChannels > MAX_CHANNELS || outChannels <= 0 || outChannels > MAX_CHANNELS {
        return false;
      }
      matrix := null;
      inMatrixChannels := inChannels;
      outMatrixChannels := outChannels;
      ReduceMatrix(m);
      if inMatrixChannels != 0 && outMatrixChannels != 0 {
        Convert(m);
      }
      ok := true;
    }
  }

  method WriteEntry(c: array2<Int32>, a: nat, b: nat, v: real)
    requires a < c.Length0 && b < c.Length1
    modifies c
    ensures Row(c, a) == old(Row(c, a))[b := Q30(v)]
    ensures forall k :: 0 <= k < c.Length0 && k != a ==> Row(c, k) == old(Row(c, k))
  {
    c[a, b] := Q30(v);
    assert forall k :: 0 <= k < c.Length1 ==> Row(c, a)[k] == old(Row(c, a))[b := c[a, b]][k];
  }

  /** Entry (a, b) of the compact matrix. */
  function CompactCoef(m: Matrix, ins: nat, outs: nat, a: nat, b: nat): Int32
    requires Shape(m, ins, outs)
    requires a < |KeepList(m, ins, outs, outs)| && b < |KeepList(m, ins, outs, ins)|
  {
    Q30(m[KeepList(m, ins, outs, outs)[a]][KeepList(m, ins, outs, ins)[b]])
  }

  // The entry for the kept slots o and i is the one at their ranks.
  lemma EntryIs(m: Matrix, ins: nat, outs: nat, o: nat, i: nat)
    requires Shape(m, ins, outs) && o < outs && i < ins && Keep(m, ins, outs, o) && Keep(m, ins, outs, i)
    ensures var a, b := |KeepList(m, ins, outs, o)|, |KeepList(m, ins, outs, i)|;
      && a < |KeepList(m, ins, outs, outs)| && b < |KeepList(m, ins, outs, ins)|
      && CompactCoef(m, ins, outs, a, b) == Q30(m[o][i])
  {
    hide Keep, Q30, KeepList, Shape;
    Rank(m, ins, outs, o, outs);
    Rank(m, ins, outs, i, ins);
  }

  lemma KeepListGrows(m: Matrix, ins: nat, outs: nat, i: nat, n: nat)
    requires Shape(m, ins, outs) && i < n
    ensures |KeepList(m, ins, outs, i)| <= |KeepList(m, ins, outs, n)|
    ensures KeepList(m, ins, outs, i + 1) ==
      if Keep(m, ins, outs, i) then KeepList(m, ins, outs, i) + [i] else KeepList(m, ins, outs, i)
    ensures |KeepList(m, ins, outs, i + 1)| <= |KeepList(m, ins, outs, n)|
  {
    hide Keep;
    KeepListPrefix(m, ins, outs, i, n);
    KeepListPrefix(m, ins, outs, i + 1, n);
  }

  lemma PassRange(m: Matrix, ins: nat, outs: nat, i: nat)
    requires Shape(m, ins, outs)
    ensures Pass(m, ins, outs, i) ==> i < ins && i < outs
    ensures Unused(m, ins, outs, i) ==> outs <= i < ins
  {
  }

  lemma SkipsByRange(m: Matrix, ins: nat, outs: nat, i: nat)
    requires Shape(m, ins, outs)
    ensures i < Min(ins, outs) ==> SkipsInput(m, ins, outs, i) == Pass(m, ins, outs, i)
    ensures Min(ins, outs) <= i < ins ==> SkipsInput(m, ins, outs, i) == Unused(m, ins, outs, i)
    ensures i >= ins ==> !SkipsInput(m, ins, outs, i)
  {
  }

  lemma UnusedIs(m: Matrix, ins: nat, outs: nat, i: nat)
    requires Shape(m, ins, outs)
    ensures Unused(m, ins, outs, i) == (outs <= i < ins && ColZero(m, ins, outs, i))
  {
  }

  // If every input or every output is silent, then all outputs are.
  lemma NothingLeft(m: Matrix, ins: nat, outs: nat)
    requires Shape(m, ins, outs)
    requires CountSilent(m, ins, outs, outs) == outs || CountSilent(m, ins, outs, ins) == ins
    ensures forall o :: 0 <= o < outs ==> Silent(m, ins, outs, o)
  {
    if CountSilent(m, ins, outs, outs) == outs {
      AllSilent(m, ins, outs, outs);
    } else {
      AllSilent(m, ins, outs, ins);
      forall o | 0 <= o < outs
        ensures Silent(m, ins, outs, o)
      {
        AllColumnsZero(m, ins, outs, o);
      }
    }
  }

  lemma AllColumnsZero(m: Matrix, ins: nat, outs: nat, o: nat)
    requires Shape(m, ins, outs) && o < outs && forall i :: 0 <= i < ins ==> Silent(m, ins, outs, i)
    ensures Silent(m, ins, outs, o)
  {
    forall i | 0 <= i < ins
      ensures m[o][i] == 0.0
    {
      assert Silent(m, ins, outs, i);
      assert ColZero(m, ins, outs, i);
    }
  }

  // If no input is kept, every output is silent or passed through.
  lemma NoInputLeft(m: Matrix, ins: nat, outs: nat)
    requires Shape(m, ins, outs) && |KeepList(m, ins, outs, ins)| == 0
    ensures forall o :: 0 <= o < outs ==> Silent(m, ins, outs, o) || Pass(m, ins, outs, o)
  {
    hide Keep;
    forall o | 0 <= o < outs && o >= ins
      ensures Silent(m, ins, outs, o)
    {
      forall i | 0 <= i < ins
        ensures m[o][i] == 0.0
      {
        NothingKept(m, ins, outs, i, ins);
        DroppedColumn(m, ins, outs, i, o);
      }
    }
    forall o | 0 <= o < outs && o < ins
      ensures Silent(m, ins, outs, o) || Pass(m, ins, outs, o)
    {
      NothingKept(m, ins, outs, o, ins);
      DroppedOutput(m, ins, outs, o);
    }
  }

  lemma DroppedColumn(m: Matrix, ins: nat, outs: nat, i: nat, o: nat)
    requires Shape(m, ins, outs) && i < ins <= o < outs && !Keep(m, ins, outs, i)
    ensures m[o][i] == 0.0
  {
  }

  lemma DroppedOutput(m: Matrix, ins: nat, outs: nat, o: nat)
    requires Shape(m, ins, outs) && o < outs && !Keep(m, ins, outs, o)
    ensures Silent(m, ins, outs, o) || Pass(m, ins, outs, o)
  {
  }

  lemma NoOutputLeft(m: Matrix, ins: nat, outs: nat)
    requires Shape(m, ins, outs) && |KeepList(m, ins, outs, outs)| == 0
    ensures forall o :: 0 <= o < outs ==> Silent(m, ins, outs, o) || Pass(m, ins, outs, o)
  {
    hide Keep;
    forall o | 0 <= o < outs
      ensures Silent(m, ins, outs, o) || Pass(m, ins, outs, o)
    {
      NothingKept(m, ins, outs, o, outs);
      DroppedOutput(m, ins, outs, o);
    }
  }
}
