/**
 ec_GFp_simple_points_make_affine: all Z coordinates are inverted with one modular inversion,
 through a heap-shaped product tree.  The tree treats empty and zero entries as ones on the
 way up.  On the way down a zero left child beside a non-zero right child is not handled, so
 the routine is right exactly when no such pair of siblings exists (`NoGap`).
 */
module BatchInversion {
  import opened Modular
  import opened Field
  import opened Curve
  import opened Jacobian
  import opened EcPoint
  import opened Power

  /** heap[i]: a NULL pointer or a BIGNUM. */
  datatype Slot = Null | Val(v: nat)

  function V(s: Slot): nat {
    if s.Val? then s.v else 0
  }

  predicate IsZero(s: Slot) {
    V(s) == 0
  }

  predicate Reduced(f: Field, zs: seq<nat>) {
    f.p > 0 && forall k :: 0 <= k < |zs| ==> zs[k] < f.p
  }

  /** The product of two children. */
  function Combine(f: Field, l: Slot, r: Slot): (s: Slot)
    requires f.p > 0
    ensures V(l) < f.p && V(r) < f.p ==> V(s) < f.p
  {
    if l.Null? then Val(0)
    else if IsZero(r) then l
    else if IsZero(l) then r
    else Val(FieldMul(f, l.v, r.v))
  }

  /** Node i after the upward sweep, over `n` leaf positions of which |zs| are filled. */
  function Up(f: Field, zs: seq<nat>, n: nat, i: nat): (s: Slot)
    requires Reduced(f, zs) && 0 < i < 2 * n
    ensures V(s) < f.p
    decreases 2 * n - i
  {
    if i >= n then (if i - n < |zs| then Val(zs[i - n]) else Null)
    else Combine(f, Up(f, zs, n, 2 * i), Up(f, zs, n, 2 * i + 1))
  }

  /** The root after inversion: encoded twice to make up for the two Montgomery factors. */
  function InvertedRoot(f: Field, v: nat): nat
    requires f.p > 0 && v < f.p
  {
    Encode(f, Encode(f, Inv(f.p, v)))
  }

  /** The new left and right entries of a pair of siblings below the inverted parent d. */
  function DownLeft(f: Field, l: Slot, r: Slot, d: nat): Slot
    requires f.p > 0
  {
    if l.Null? then Null else if IsZero(r) then Val(d) else Val(FieldMul(f, d, r.v))
  }

  function DownRight(f: Field, l: Slot, r: Slot, d: nat): Slot
    requires f.p > 0
  {
    if l.Null? || IsZero(r) then r else Val(FieldMul(f, d, l.v))
  }

  /** Node i after the downward sweep. */
  function Down(f: Field, zs: seq<nat>, n: nat, i: nat): Slot
    requires Reduced(f, zs) && 0 < i < 2 * n
    decreases i
  {
    if i == 1 then Val(InvertedRoot(f, V(Up(f, zs, n, 1))))
    else
      var e := i / 2 * 2;
      var l, r := Up(f, zs, n, e), Up(f, zs, n, e + 1);
      var d := V(Down(f, zs, n, i / 2));
      if i == e then DownLeft(f, l, r, d) else DownRight(f, l, r, d)
  }

  // ---------- the condition, over the pattern of points at infinity ----------

  /** Every filled leaf below node i is zero. */
  predicate AllZero(zs: seq<nat>, n: nat, i: nat)
    requires 0 < i < 2 * n
    decreases 2 * n - i
  {
    if i >= n then (i - n < |zs| ==> zs[i - n] == 0)
    else AllZero(zs, n, 2 * i) && AllZero(zs, n, 2 * i + 1)
  }

  /** No all-zero left subtree has a right sibling with a non-zero leaf. */
  predicate GapAt(zs: seq<nat>, n: nat, i: nat)
    requires 0 < i < n
  {
    AllZero(zs, n, 2 * i) && !AllZero(zs, n, 2 * i + 1)
  }

  predicate NoGap(zs: seq<nat>, n: nat) {
    forall i :: 0 < i < n ==> !GapAt(zs, n, i)
  }

  // ---------- when the tree inverts every leaf ----------

  lemma MulNonzero(f: Field, v: nat, w: nat)
    requires ValidField(f) && 0 < v < f.p && 0 < w < f.p
    ensures FieldMul(f, v, w) != 0
  {
    hide Cong, Decode, FieldMul;
    var p, x: int, y: int, m := f.p, Decode(f, v), Decode(f, w), FieldMul(f, v, w);
    DecodeMul(f, v, w);
    ZNonzero(f, v);
    ZNonzero(f, w);
    ZNonzero(f, m);
    if m == 0 {
      CongSym(p, Decode(f, m), x * y);
      CongTrans(p, x * y, Decode(f, m), 0);
      CongProductZero(p, x, y);
    }
  }

  // The product is zero exactly when every leaf below is.
  lemma {:induction false} UpZero(f: Field, zs: seq<nat>, n: nat, i: nat)
    requires ValidField(f) && Reduced(f, zs) && 0 < i < 2 * n
    ensures IsZero(Up(f, zs, n, i)) <==> AllZero(zs, n, i)
    decreases 2 * n - i
  {
    hide FieldMul, ValidField;
    if i < n {
      UpZero(f, zs, n, 2 * i);
      UpZero(f, zs, n, 2 * i + 1);
      var l, r := Up(f, zs, n, 2 * i), Up(f, zs, n, 2 * i + 1);
      if !IsZero(l) && !IsZero(r) {
        MulNonzero(f, l.v, r.v);
      }
      EmptyPrefix(f, zs, n, i);
    }
  }

  // Filled leaves come first: an empty left child has an empty right sibling.
  lemma EmptyPrefix(f: Field, zs: seq<nat>, n: nat, i: nat)
    requires Reduced(f, zs) && 0 < i < n
    ensures Up(f, zs, n, 2 * i).Null? ==> Up(f, zs, n, 2 * i + 1).Null? && 2 * i >= n
  {
  }

  // d is the inverse of u, or zero when u is.
  ghost predicate Inverse(f: Field, u: Slot, d: Slot)
    requires f.p > 0
  {
    if IsZero(u) then IsZero(d)
    else d.Val? && Cong(f.p, Decode(f, u.v) * Decode(f, d.v), 1)
  }

  lemma RootInverse(f: Field, v: nat)
    requires ValidField(f) && v < f.p
    ensures Inverse(f, Val(v), Val(InvertedRoot(f, v)))
  {
    hide Cong, Decode, Encode;
    var p, i := f.p, Inv(f.p, v);
    if v == 0 {
      EncodeZero(f);
    } else {
      InvCorrect(p, v);
      DecodeEncode(f, Encode(f, i));
      SmallMod(Encode(f, i), p);
      EncodeCong(f, i);
      DecodeCong(f, v);
      CongMul(p, Decode(f, v), v * f.rinv, Encode(f, i), i * f.r);
      CongMul(p, v * i, 1, f.r * f.rinv, 1);
      Interchange(v, f.rinv, i, f.r);
      CongTrans(p, Decode(f, v) * Encode(f, i), (v * i) * (f.r * f.rinv), 1);
    }
  }

  lemma Interchange(a: int, b: int, c: int, d: int)
    ensures (a * b) * (c * d) == (a * c) * (d * b)
  {
    assert (a * b) * (c * d) == a * (b * (c * d)) == a * (c * (d * b));
  }

  lemma EncodeCong(f: Field, a: int)
    requires f.p > 0
    ensures Cong(f.p, Encode(f, a), a * f.r)
  {
    CongMod(f.p, a * f.r);
  }

  lemma EncodeZero(f: Field)
    requires f.p > 0
    ensures Encode(f, 0) == 0
  {
    SmallMod(0, f.p);
  }

  // One step down at a pair without a gap.
  lemma PairInverse(f: Field, l: Slot, r: Slot, d: Slot)
    requires ValidField(f) && V(l) < f.p && V(r) < f.p && (l.Null? ==> r.Null?)
    requires Inverse(f, Combine(f, l, r), d) && (IsZero(l) ==> IsZero(r))
    ensures Inverse(f, l, DownLeft(f, l, r, V(d))) && Inverse(f, r, DownRight(f, l, r, V(d)))
  {
    hide Cong, Decode, FieldMul;
    if !IsZero(r) {
      MulNonzero(f, l.v, r.v);
      var p := f.p;
      var x: int, y: int, z: int := Decode(f, l.v), Decode(f, r.v), Decode(f, d.v);
      var m := Decode(f, FieldMul(f, l.v, r.v));
      DecodeMul(f, l.v, r.v);
      DecodeMul(f, d.v, r.v);
      DecodeMul(f, d.v, l.v);
      PairProduct(p, x, y, z, m, Decode(f, FieldMul(f, d.v, r.v)));
      assert y * x == x * y;
      PairProduct(p, y, x, z, m, Decode(f, FieldMul(f, d.v, l.v)));
    }
  }

  lemma PairProduct(p: nat, x: int, y: int, z: int, m: int, w: int)
    requires p > 0 && Cong(p, m, x * y) && Cong(p, m * z, 1) && Cong(p, w, z * y)
    ensures Cong(p, x * w, 1)
  {
    hide Cong;
    CongScale(p, w, z * y, x);
    assert w * x == x * w && (z * y) * x == (x * y) * z;
    CongScale(p, m, x * y, z);
    CongSym(p, m * z, (x * y) * z);
    CongTrans(p, x * w, (x * y) * z, m * z);
    CongTrans(p, x * w, m * z, 1);
  }

  lemma RootIsFilled(f: Field, zs: seq<nat>, n: nat)
    requires Reduced(f, zs) && |zs| > 0 && n > 0
    ensures Up(f, zs, n, 1).Val?
  {
    if n > 1 {
      EmptyPrefix(f, zs, n, 1);
    }
  }

  // ---------- what a gap does ----------

  // At a gap the right subtree, whose product is not zero, receives zero.
  lemma GapZeroes(f: Field, zs: seq<nat>, n: nat, h: nat)
    requires ValidField(f) && Reduced(f, zs) && 0 < h < n && |zs| > 0 && GapAt(zs, n, h)
    ensures IsZero(Down(f, zs, n, 2 * h + 1)) && !IsZero(Up(f, zs, n, 2 * h + 1))
  {
    hide ValidField, AllZero, FieldMul;
    UpZero(f, zs, n, 2 * h);
    UpZero(f, zs, n, 2 * h + 1);
    EmptyPrefix(f, zs, n, h);
    var l, r, d := Up(f, zs, n, 2 * h), Up(f, zs, n, 2 * h + 1), V(Down(f, zs, n, h));
    MulByZero(f, d);
    assert (2 * h + 1) / 2 == h;
    assert Down(f, zs, n, 2 * h + 1) == DownRight(f, l, r, d);
  }

  lemma MulByZero(f: Field, d: nat)
    requires f.p > 0
    ensures FieldMul(f, d, 0) == 0 && FieldMul(f, 0, d) == 0
  {
    assert d * 0 * f.rinv == 0 && 0 * d * f.rinv == 0;
    SmallMod(0, f.p);
  }

  lemma ZeroBelow(f: Field, zs: seq<nat>, n: nat, i: nat)
    requires Reduced(f, zs) && 0 < i < n && IsZero(Down(f, zs, n, i))
    ensures IsZero(Down(f, zs, n, 2 * i)) && IsZero(Down(f, zs, n, 2 * i + 1))
  {
    hide FieldMul;
    var l, r := Up(f, zs, n, 2 * i), Up(f, zs, n, 2 * i + 1);
    MulByZero(f, V(l));
    MulByZero(f, V(r));
    assert 2 * i / 2 == i && (2 * i + 1) / 2 == i;
    assert Down(f, zs, n, 2 * i) == DownLeft(f, l, r, 0);
    assert Down(f, zs, n, 2 * i + 1) == DownRight(f, l, r, 0);
  }

  // ---------- what becomes of a node ----------

  /**
   Without a gap above it a node is kept.  Below the right side of a gap everything is zeroed; on the
   left side the path to the leftmost leaf is revived, although that leaf was zero.
   */
  datatype Fate = Kept | Zeroed | Revived

  function FateOf(zs: seq<nat>, n: nat, i: nat): Fate
    requires 0 < i < 2 * n
    decreases i
  {
    if i == 1 then Kept
    else match FateOf(zs, n, i / 2)
      case Kept => if !GapAt(zs, n, i / 2) then Kept else if i % 2 == 0 then Revived else Zeroed
      case Zeroed => Zeroed
      case Revived => if i % 2 == 0 then Revived else Zeroed
  }

  /** What the node holds in the end, by its fate; u is the product it held before. */
  ghost predicate HoldsByFate(f: Field, u: Slot, d: Slot, fate: Fate)
    requires f.p > 0
  {
    match fate
    case Kept => Inverse(f, u, d)
    case Zeroed => IsZero(d)
    case Revived => IsZero(u) && (u.Val? ==> V(d) == One(f))
  }

  // The product of the right side and its own inverse lands on the left side.
  lemma GapPair(f: Field, l: Slot, r: Slot, d: Slot)
    requires ValidField(f) && V(l) < f.p && V(r) < f.p && l.Val? && IsZero(l) && !IsZero(r)
    requires Inverse(f, Combine(f, l, r), d)
    ensures V(DownLeft(f, l, r, V(d))) == One(f) && IsZero(DownRight(f, l, r, V(d)))
  {
    hide Cong, Decode, FieldMul, One;
    var m := FieldMul(f, d.v, r.v);
    MulByZero(f, d.v);
    DecodeMul(f, d.v, r.v);
    DecodeOne(f);
    assert Decode(f, d.v) * Decode(f, r.v) == Decode(f, r.v) * Decode(f, d.v);
    CongTrans(f.p, Decode(f, m), Decode(f, d.v) * Decode(f, r.v), 1);
    CongResidues(f.p, Decode(f, m), 1);
    DecodeInjective(f, m, One(f));
  }

  lemma RevivedPair(f: Field, l: Slot, r: Slot, d: nat)
    requires f.p > 0 && IsZero(l) && IsZero(r) && d == One(f)
    ensures HoldsByFate(f, l, DownLeft(f, l, r, d), Revived) && HoldsByFate(f, r, DownRight(f, l, r, d), Zeroed)
  {
  }

  lemma FilledAbove(f: Field, zs: seq<nat>, n: nat, i: nat)
    requires Reduced(f, zs) && 0 < i < n
    ensures Up(f, zs, n, i).Val?
  {
    hide FieldMul;
  }

  /** Every node ends up by its fate; one without a gap above it holds the inverse of its product. */
  lemma {:induction false} DownByFate(f: Field, zs: seq<nat>, n: nat, i: nat)
    requires ValidField(f) && Reduced(f, zs) && 0 < i < 2 * n && |zs| > 0
    ensures HoldsByFate(f, Up(f, zs, n, i), Down(f, zs, n, i), FateOf(zs, n, i))
    decreases i
  {
    hide ValidField, Inverse, DownLeft, DownRight, InvertedRoot, AllZero, Combine, HoldsByFate, One;
    if i == 1 {
      RootInverse(f, V(Up(f, zs, n, 1)));
      RootIsFilled(f, zs, n);
      FateKept(f, Up(f, zs, n, 1), Down(f, zs, n, 1));
    } else {
      var h := i / 2;
      DownByFate(f, zs, n, h);
      PairByFate(f, zs, n, h);
      assert i == 2 * h || i == 2 * h + 1;
    }
  }

  lemma FateKept(f: Field, u: Slot, d: Slot)
    requires f.p > 0
    ensures HoldsByFate(f, u, d, Kept) <==> Inverse(f, u, d)
  {
  }

  lemma FateZeroed(f: Field, u: Slot, d: Slot)
    requires f.p > 0
    ensures HoldsByFate(f, u, d, Zeroed) <==> IsZero(d)
  {
  }

  lemma FateRevived(f: Field, u: Slot, d: Slot)
    requires f.p > 0
    ensures HoldsByFate(f, u, d, Revived) <==> IsZero(u) && (u.Val? ==> V(d) == One(f))
  {
  }

  lemma Children(f: Field, zs: seq<nat>, n: nat, h: nat)
    requires Reduced(f, zs) && 0 < h < n
    ensures var l, r, d := Up(f, zs, n, 2 * h), Up(f, zs, n, 2 * h + 1), V(Down(f, zs, n, h));
      Down(f, zs, n, 2 * h) == DownLeft(f, l, r, d) && Down(f, zs, n, 2 * h + 1) == DownRight(f, l, r, d)
    ensures Up(f, zs, n, h) == Combine(f, Up(f, zs, n, 2 * h), Up(f, zs, n, 2 * h + 1))
  {
    hide DownLeft, DownRight, Combine;
    assert 2 * h / 2 == h && (2 * h + 1) / 2 == h;
  }

  lemma FatePair(zs: seq<nat>, n: nat, h: nat)
    requires 0 < h < n
    ensures var fate := FateOf(zs, n, h);
      && FateOf(zs, n, 2 * h) == (if fate == Kept && GapAt(zs, n, h) then Revived else fate)
      && FateOf(zs, n, 2 * h + 1) == (if fate == Kept && !GapAt(zs, n, h) then Kept else Zeroed)
  {
    hide AllZero;
    assert 2 * h / 2 == h && (2 * h + 1) / 2 == h;
  }

  lemma PairByFate(f: Field, zs: seq<nat>, n: nat, h: nat)
    requires ValidField(f) && Reduced(f, zs) && 0 < h < n && |zs| > 0
    requires HoldsByFate(f, Up(f, zs, n, h), Down(f, zs, n, h), FateOf(zs, n, h))
    ensures HoldsByFate(f, Up(f, zs, n, 2 * h), Down(f, zs, n, 2 * h), FateOf(zs, n, 2 * h))
    ensures HoldsByFate(f, Up(f, zs, n, 2 * h + 1), Down(f, zs, n, 2 * h + 1), FateOf(zs, n, 2 * h + 1))
  {
    hide ValidField, Inverse, Down, DownLeft, DownRight, Up, Combine, AllZero, HoldsByFate, One, FateOf;
    var l, r, u, d := Up(f, zs, n, 2 * h), Up(f, zs, n, 2 * h + 1), Up(f, zs, n, h), Down(f, zs, n, h);
    Children(f, zs, n, h);
    FatePair(zs, n, h);
    UpZero(f, zs, n, h);
    UpZero(f, zs, n, 2 * h);
    UpZero(f, zs, n, 2 * h + 1);
    EmptyPrefix(f, zs, n, h);
    match FateOf(zs, n, h)
    case Kept =>
      FateKept(f, u, d);
      if GapAt(zs, n, h) {
        GapPair(f, l, r, d);
        FateRevived(f, l, Down(f, zs, n, 2 * h));
        FateZeroed(f, r, Down(f, zs, n, 2 * h + 1));
      } else {
        PairInverse(f, l, r, d);
        FateKept(f, l, Down(f, zs, n, 2 * h));
        FateKept(f, r, Down(f, zs, n, 2 * h + 1));
      }
    case Zeroed =>
      FateZeroed(f, u, d);
      ZeroBelow(f, zs, n, h);
      FateZeroed(f, l, Down(f, zs, n, 2 * h));
      FateZeroed(f, r, Down(f, zs, n, 2 * h + 1));
    case Revived =>
      FateRevived(f, u, d);
      FilledAbove(f, zs, n, h);
      AllZeroBelow(zs, n, h);
      RevivedPair(f, l, r, V(d));
  }

  // Below a zeroed node every node is zeroed; so a non-zero leaf there is lost.
  lemma {:induction false} ZeroedLeaf(zs: seq<nat>, n: nat, i: nat) returns (k: nat)
    requires 0 < i < 2 * n && !AllZero(zs, n, i) && FateOf(zs, n, i) == Zeroed
    ensures k < |zs| && n + k < 2 * n && zs[k] != 0 && FateOf(zs, n, n + k) == Zeroed
    decreases 2 * n - i
  {
    hide FateOf;
    if i >= n {
      k := i - n;
    } else {
      FatePair(zs, n, i);
      AllZeroBelow(zs, n, i);
      k := ZeroedLeaf(zs, n, if AllZero(zs, n, 2 * i) then 2 * i + 1 else 2 * i);
    }
  }

  lemma AllZeroBelow(zs: seq<nat>, n: nat, i: nat)
    requires 0 < i < n
    ensures AllZero(zs, n, i) <==> AllZero(zs, n, 2 * i) && AllZero(zs, n, 2 * i + 1)
  {
  }

  // A zero entry with a non-zero product passes the zero on to some filled leaf.
  lemma {:induction false} ZeroReachesLeaf(f: Field, zs: seq<nat>, n: nat, i: nat) returns (k: nat)
    requires ValidField(f) && Reduced(f, zs) && 0 < i < 2 * n
    requires IsZero(Down(f, zs, n, i)) && !IsZero(Up(f, zs, n, i))
    ensures k < |zs| && n + k < 2 * n && zs[k] != 0 && IsZero(Down(f, zs, n, n + k))
    decreases 2 * n - i
  {
    hide ValidField, FieldMul, Down;
    if i >= n {
      k := i - n;
    } else {
      var l, r := Up(f, zs, n, 2 * i), Up(f, zs, n, 2 * i + 1);
      ZeroBelow(f, zs, n, i);
      k := ZeroReachesLeaf(f, zs, n, if IsZero(r) then 2 * i else 2 * i + 1);
    }
  }

  // ---------- the points ----------

  function Zs(js: seq<Jac>): (zs: seq<nat>)
    ensures |zs| == |js| && forall k :: 0 <= k < |js| ==> zs[k] == js[k].z
  {
    seq(|js|, k requires 0 <= k < |js| => js[k].z)
  }

  /** A point whose Z has been replaced by d: (X, Y, d) becomes (X*d^2, Y*d^3, 1). */
  function Fixed(f: Field, j: Jac, d: nat): Jac
    requires f.p > 0
  {
    if d == 0 then j.(z := 0)
    else
      var d2 := FieldSqr(f, d);
      Jac(FieldMul(f, j.x, d2), FieldMul(f, j.y, FieldMul(f, d2, d)), One(f), true)
  }

  lemma FixedCorrect(c: Curve, j: Jac, d: Slot)
    requires ValidCurve(c) && ValidJac(c, j) && V(d) < c.f.p && Inverse(c.f, Val(j.z), d)
    ensures ValidJac(c, Fixed(c.f, j, V(d))) && ToAffine(c, Fixed(c.f, j, V(d))) == ToAffine(c, j)
    ensures j.z == 0 ==> Fixed(c.f, j, V(d)) == j
    ensures j.z != 0 ==> Fixed(c.f, j, V(d)).z == One(c.f) && Fixed(c.f, j, V(d)).zIsOne
  {
    hide Cong, Decode, FieldMul, Represents;
    if j.z != 0 {
      var f, P := c.f, ToAffine(c, j);
      InverseNonzero(f, j.z, d.v);
      ToAffineElim(c, j);
      FixedRepresents(c, j, d.v, P);
      DecodeOne(f);
      ToAffineIntro(c, Fixed(f, j, d.v), P.x, P.y);
    }
  }

  lemma InverseNonzero(f: Field, z: nat, d: nat)
    requires ValidField(f) && d < f.p && Cong(f.p, Decode(f, z) * Decode(f, d), 1)
    ensures d != 0
  {
    hide Cong, Decode;
    if d == 0 {
      DecodeZero(f, d);
      assert Decode(f, z) * 0 == 0;
      CongResidues(f.p, 0, 1);
    }
  }

  lemma FixedRepresents(c: Curve, j: Jac, d: nat, P: Affine)
    requires ValidCurve(c) && ValidJac(c, j) && P.Aff? && RepresentsJac(c, j, P.x, P.y) && d != 0
    requires Cong(c.f.p, Decode(c.f, j.z) * Decode(c.f, d), 1)
    ensures RepresentsJac(c, Fixed(c.f, j, d), P.x, P.y)
  {
    hide Cong, Decode, FieldMul;
    var f, p := c.f, c.f.p;
    var x: int, y: int, z: int, i: int := Decode(f, j.x), Decode(f, j.y), Decode(f, j.z), Decode(f, d);
    CongRefl(p, x);
    CongRefl(p, y);
    CongRefl(p, i);
    var d2 := FieldSqr(f, d);
    DecodeMul2(f, d, d, i, i);
    DecodeMul2(f, j.x, d2, x, i * i);
    DecodeMul2(f, d2, d, i * i, i);
    DecodeMul2(f, j.y, FieldMul(f, d2, d), y, i * i * i);
    UnscaleX(p, x, z, i, P.x);
    UnscaleY(p, y, z, i, P.y);
    DecodeOne(f);
    assert P.x * (1 * 1) == P.x && P.y * (1 * 1 * 1) == P.y;
    CongTrans(p, Decode(f, FieldMul(f, j.x, d2)), x * (i * i), P.x);
    CongTrans(p, Decode(f, FieldMul(f, j.y, FieldMul(f, d2, d))), y * (i * i * i), P.y);
  }

  lemma UnscaleX(p: nat, x: int, z: int, i: int, ax: int)
    requires p > 0 && Cong(p, x, ax * (z * z)) && Cong(p, z * i, 1)
    ensures Cong(p, x * (i * i), ax)
  {
    hide Cong;
    var m := z * i;
    CongMul(p, m, 1, m, 1);
    ProductPowers(i, z);
    CongScale(p, x, ax * (z * z), i * i);
    Regroup(ax, z * z, i * i, m * m);
    CongScale(p, m * m, 1, ax);
    assert (m * m) * ax == ax * (m * m) && 1 * ax == ax;
    CongTrans(p, x * (i * i), ax * (m * m), ax);
  }

  lemma UnscaleY(p: nat, y: int, z: int, i: int, ay: int)
    requires p > 0 && Cong(p, y, ay * (z * z * z)) && Cong(p, z * i, 1)
    ensures Cong(p, y * (i * i * i), ay)
  {
    hide Cong;
    var m := z * i;
    CongMul(p, m, 1, m, 1);
    CongMul(p, m * m, 1, m, 1);
    ProductPowers(i, z);
    CongScale(p, y, ay * (z * z * z), i * i * i);
    Regroup(ay, z * z * z, i * i * i, m * m * m);
    CongScale(p, m * m * m, 1, ay);
    assert (m * m * m) * ay == ay * (m * m * m) && 1 * ay == ay;
    CongTrans(p, y * (i * i * i), ay * (m * m * m), ay);
  }

  // ---------- the result ----------

  ghost predicate ValidAll(c: Curve, js: seq<Jac>)
    requires c.f.p > 0
  {
    forall k :: 0 <= k < |js| ==> ValidJac(c, js[k])
  }

  /** What the routine leaves in each point object, over a tree with n leaf positions. */
  function AffineResult(c: Curve, js: seq<Jac>, n: nat, k: nat): Jac
    requires k < |js| <= n && Reduced(c.f, Zs(js))
  {
    Fixed(c.f, js[k], V(Down(c.f, Zs(js), n, n + k)))
  }

  ghost predicate ValuesKept(c: Curve, js: seq<Jac>, n: nat)
    requires |js| <= n && Reduced(c.f, Zs(js))
  {
    forall k :: 0 <= k < |js| ==> ToAffine(c, AffineResult(c, js, n, k)) == ToAffine(c, js[k])
  }

  lemma DownRange(f: Field, zs: seq<nat>, n: nat, i: nat)
    requires Reduced(f, zs) && 0 < i < 2 * n
    ensures V(Down(f, zs, n, i)) < f.p
    decreases i
  {
    if i > 1 {
      DownRange(f, zs, n, i / 2);
    }
  }

  /** The value that the coordinates X and Y left in a point at infinity have with Z = 1. */
  function Leftover(c: Curve, j: Jac): Affine
    requires c.f.p > 0
  {
    Aff(Decode(c.f, j.x), Decode(c.f, j.y))
  }

  lemma FixedOne(c: Curve, j: Jac)
    requires ValidCurve(c) && ValidJac(c, j)
    ensures ValidJac(c, Fixed(c.f, j, One(c.f))) && ToAffine(c, Fixed(c.f, j, One(c.f))) == Leftover(c, j)
  {
    hide Cong, Decode, FieldMul, ToAffine, One;
    var f, p, o := c.f, c.f.p, One(c.f);
    DecodeOne(f);
    var x: int, y: int := Decode(f, j.x), Decode(f, j.y);
    CongRefl(p, x);
    CongRefl(p, y);
    CongRefl(p, 1);
    DecodeMul2(f, o, o, 1, 1);
    DecodeMul2(f, j.x, FieldSqr(f, o), x, 1);
    DecodeMul2(f, FieldSqr(f, o), o, 1, 1);
    DecodeMul2(f, j.y, FieldMul(f, FieldSqr(f, o), o), y, 1);
    assert x * 1 == x * (1 * 1) && y * 1 == y * (1 * 1 * 1);
    ToAffineIntro(c, Fixed(f, j, o), x, y);
  }

  /**
   The result for every point and every input: its value is kept if no gap stands above it, lost to
   infinity below the right side of a gap, and leftover coordinates take the place of infinity at
   the leftmost leaf below the left side.
   */
  lemma ResultByFate(c: Curve, js: seq<Jac>, n: nat, k: nat)
    requires ValidCurve(c) && ValidAll(c, js) && k < |js| <= n && Reduced(c.f, Zs(js))
    ensures var r := AffineResult(c, js, n, k);
      && ValidJac(c, r)
      && match FateOf(Zs(js), n, n + k)
        case Kept => ToAffine(c, r) == ToAffine(c, js[k])
        case Zeroed => ToAffine(c, r) == Infinity
        case Revived => js[k].z == 0 && ToAffine(c, r) == Leftover(c, js[k])
    ensures FateOf(Zs(js), n, n + k) == Kept ==> (var r := AffineResult(c, js, n, k);
      if js[k].z == 0 then r == js[k] else r.z == One(c.f) && r.zIsOne)
  {
    hide ValidField, ToAffine, Down, Fixed, Inverse, One, FateOf, HoldsByFate;
    var f, zs := c.f, Zs(js);
    var u, d := Up(f, zs, n, n + k), Down(f, zs, n, n + k);
    DownByFate(f, zs, n, n + k);
    DownRange(f, zs, n, n + k);
    match FateOf(zs, n, n + k)
    case Kept =>
      FateKept(f, u, d);
      FixedCorrect(c, js[k], d);
    case Zeroed =>
      FateZeroed(f, u, d);
      FixedZero(c, js[k]);
    case Revived =>
      FateRevived(f, u, d);
      FixedOne(c, js[k]);
  }

  lemma FixedZero(c: Curve, j: Jac)
    requires ValidCurve(c) && ValidJac(c, j)
    ensures ValidJac(c, Fixed(c.f, j, 0)) && ToAffine(c, Fixed(c.f, j, 0)) == Infinity
  {
  }

  lemma {:induction false} NoGapKeeps(zs: seq<nat>, n: nat, i: nat)
    requires 0 < i < 2 * n && NoGap(zs, n)
    ensures FateOf(zs, n, i) == Kept
    decreases i
  {
    hide AllZero;
    if i > 1 {
      NoGapKeeps(zs, n, i / 2);
    }
  }

  // Without a gap every finite point gets Z one with the same value; infinity is untouched.
  lemma ResultWithoutGap(c: Curve, js: seq<Jac>, n: nat, k: nat)
    requires ValidCurve(c) && ValidAll(c, js) && k < |js| <= n && Reduced(c.f, Zs(js)) && NoGap(Zs(js), n)
    ensures var r := AffineResult(c, js, n, k);
      && ValidJac(c, r) && ToAffine(c, r) == ToAffine(c, js[k])
      && (js[k].z == 0 ==> r == js[k])
      && (js[k].z != 0 ==> r.z == One(c.f) && r.zIsOne)
  {
    hide ToAffine, AffineResult, One, FateOf;
    NoGapKeeps(Zs(js), n, n + k);
    ResultByFate(c, js, n, k);
  }

  /** The routine keeps the value of every point if and only if there is no gap. */
  lemma MakeAffineIff(c: Curve, js: seq<Jac>, n: nat)
    requires ValidCurve(c) && ValidAll(c, js) && 0 < |js| <= n && Reduced(c.f, Zs(js))
    ensures ValuesKept(c, js, n) <==> NoGap(Zs(js), n)
  {
    hide ValidJac, ValidField, ToAffine, Down, AllZero, Fixed, AffineResult;
    if NoGap(Zs(js), n) {
      forall k | 0 <= k < |js|
        ensures ToAffine(c, AffineResult(c, js, n, k)) == ToAffine(c, js[k])
      {
        ResultWithoutGap(c, js, n, k);
      }
    } else {
      var h :| 0 < h < n && GapAt(Zs(js), n, h);
      GapZeroes(c.f, Zs(js), n, h);
      var k := ZeroReachesLeaf(c.f, Zs(js), n, 2 * h + 1);
      LostPoint(c, js, n, k);
    }
  }

  lemma LostPoint(c: Curve, js: seq<Jac>, n: nat, k: nat)
    requires ValidCurve(c) && k < |js| <= n && Reduced(c.f, Zs(js))
    requires js[k].z != 0 && IsZero(Down(c.f, Zs(js), n, n + k))
    ensures ToAffine(c, AffineResult(c, js, n, k)) == Infinity != ToAffine(c, js[k])
  {
    hide Down;
  }

  // ---------- patterns without a gap ----------

  /** The filled leaves at the heap positions from lo up to hi are zero. */
  predicate ZeroFrom(zs: seq<nat>, n: nat, lo: nat, hi: nat) {
    forall t :: 0 <= t < |zs| && lo <= n + t < hi ==> zs[t] == 0
  }

  lemma ZeroJoined(zs: seq<nat>, n: nat, lo: nat, mid: nat, hi: nat)
    requires lo <= mid <= hi
    ensures ZeroFrom(zs, n, lo, hi) <==> ZeroFrom(zs, n, lo, mid) && ZeroFrom(zs, n, mid, hi)
  {
  }

  lemma ZeroLeaf(zs: seq<nat>, n: nat, i: nat)
    requires n <= i < 2 * n
    ensures AllZero(zs, n, i) <==> ZeroFrom(zs, n, i, i + 1)
  {
  }

  // Node i, k levels above the leaves, covers the leaves from i*2^k to (i+1)*2^k.
  lemma {:induction false} Covers(zs: seq<nat>, n: nat, m: nat, k: nat, i: nat)
    requires n == Pow2(m) && k <= m && Pow2(m - k) <= i < 2 * Pow2(m - k)
    ensures 0 < i < 2 * n
    ensures AllZero(zs, n, i) <==> ZeroFrom(zs, n, i * Pow2(k), (i + 1) * Pow2(k))
    decreases k
  {
    hide ZeroFrom;
    Pow2Mono(m - k, m);
    if k == 0 {
      ZeroLeaf(zs, n, i);
    } else {
      Pow2StrictMono(m - k, m);
      Covers(zs, n, m, k - 1, 2 * i);
      Covers(zs, n, m, k - 1, 2 * i + 1);
      CoversPair(zs, n, i, Pow2(k - 1));
    }
  }

  lemma CoversPair(zs: seq<nat>, n: nat, i: nat, h: nat)
    ensures ZeroFrom(zs, n, i * (2 * h), (i + 1) * (2 * h)) <==>
      ZeroFrom(zs, n, (2 * i) * h, (2 * i + 1) * h) && ZeroFrom(zs, n, (2 * i + 1) * h, (2 * i + 2) * h)
  {
    hide ZeroFrom;
    Halves(i, h);
    ZeroJoined(zs, n, (2 * i) * h, (2 * i + 1) * h, (2 * i + 2) * h);
  }

  lemma Halves(i: nat, h: nat)
    ensures i * (2 * h) == (2 * i) * h
    ensures (2 * i + 1) * h == i * (2 * h) + h
    ensures (i + 1) * (2 * h) == (2 * i + 2) * h
  {
  }

  lemma {:induction false} LevelOf(n: nat, m: nat, i: nat) returns (k: nat)
    requires n == Pow2(m) && 0 < i < 2 * n
    ensures k <= m && Pow2(m - k) <= i < 2 * Pow2(m - k)
    decreases m
  {
    if i >= n {
      k := 0;
    } else {
      k := LevelOf(n / 2, m - 1, i);
      k := k + 1;
    }
  }

  /** Points at infinity that form a suffix (or are absent) leave no gap. */
  lemma SuffixHasNoGap(zs: seq<nat>, n: nat, m: nat)
    requires n == Pow2(m) && |zs| <= n
    requires forall i, j :: 0 <= i < j < |zs| && zs[i] == 0 ==> zs[j] == 0
    ensures NoGap(zs, n)
  {
    forall i | 0 < i < n
      ensures !GapAt(zs, n, i)
    {
      var k := LevelOf(n, m, i);
      if k == 0 {
      } else {
        NoGapAt(zs, n, m, k - 1, i);
      }
    }
  }

  lemma NoGapAt(zs: seq<nat>, n: nat, m: nat, k: nat, i: nat)
    requires n == Pow2(m) && |zs| <= n && k < m && 0 < i < n
    requires Pow2(m - k) <= 2 * i && 2 * i + 1 < 2 * Pow2(m - k)
    requires forall s, t :: 0 <= s < t < |zs| && zs[s] == 0 ==> zs[t] == 0
    ensures !GapAt(zs, n, i)
  {
    hide AllZero;
    var h := Pow2(k);
    Covers(zs, n, m, k, 2 * i);
    Covers(zs, n, m, k, 2 * i + 1);
    if AllZero(zs, n, 2 * i) {
      forall t | 0 <= t < |zs| && (2 * i + 1) * h <= n + t < (2 * i + 2) * h
        ensures zs[t] == 0
      {
        LeftNeighbour(n, m, k, i, t);
        assert zs[t - h] == 0;
      }
    }
  }

  // The leaf h positions to the left of t lies under the left sibling.
  lemma LeftNeighbour(n: nat, m: nat, k: nat, i: nat, t: nat)
    requires n == Pow2(m) && k < m && Pow2(m - k) <= 2 * i
    requires (2 * i + 1) * Pow2(k) <= n + t < (2 * i + 2) * Pow2(k)
    ensures t >= Pow2(k)
    ensures (2 * i) * Pow2(k) <= n + (t - Pow2(k)) < (2 * i + 1) * Pow2(k)
  {
    var h := Pow2(k);
    Pow2Add(m - k, k);
    assert (2 * i + 1) * h == (2 * i) * h + h && (2 * i + 2) * h == (2 * i + 1) * h + h;
    assert (2 * i) * h >= Pow2(m - k) * h;
  }

  // ---------- the routine ----------

  /** The smallest power of two from pow2 upwards that holds num leaves. */
  function LeavesFrom(num: nat, pow2: nat): (n: nat)
    requires pow2 > 0
    ensures n >= num && n > 0
    decreases num - pow2
  {
    if num > pow2 then LeavesFrom(num, 2 * pow2) else pow2
  }

  function Leaves(num: nat): (n: nat)
    ensures n >= num && n > 0
  {
    LeavesFrom(num, 1)
  }

  /** The least power of two that is not below the number of points. */
  lemma {:induction false} LeavesAreLeast(num: nat, pow2: nat)
    requires pow2 > 0 && (pow2 == 1 || pow2 < 2 * num)
    ensures LeavesFrom(num, pow2) >= num && (LeavesFrom(num, pow2) == 1 || LeavesFrom(num, pow2) < 2 * num)
    decreases num - pow2
  {
    if num > pow2 {
      LeavesAreLeast(num, 2 * pow2);
    }
  }

  lemma {:induction false} LeavesArePow2(num: nat, k: nat) returns (m: nat)
    ensures LeavesFrom(num, Pow2(k)) == Pow2(m) && m >= k
    decreases num - Pow2(k)
  {
    if num > Pow2(k) {
      assert Pow2(k + 1) == 2 * Pow2(k);
      m := LeavesArePow2(num, k + 1);
    } else {
      m := k;
    }
  }

  function Js(points: seq<EcPoint>): (js: seq<Jac>)
    reads points
    ensures |js| == |points| && forall k :: 0 <= k < |points| ==> js[k] == points[k].J()
  {
    seq(|points|, k requires 0 <= k < |points| reads points => points[k].J())
  }

  ghost predicate Distinct(points: seq<EcPoint>) {
    forall i, j :: 0 <= i < j < |points| ==> points[i] != points[j]
  }

  /** The upward sweep: every inner node becomes the product of its children. */
  method SweepUp(f: Field, heap: array<Slot>, ghost zs: seq<nat>, n: nat)
    requires Reduced(f, zs) && 0 < |zs| <= n && heap.Length == 2 * n
    requires forall i :: n <= i < 2 * n ==> heap[i] == Up(f, zs, n, i)
    modifies heap
    ensures forall i :: 0 < i < 2 * n ==> heap[i] == Up(f, zs, n, i)
  {
    hide FieldMul;
    var i := n - 1;
    while i > 0
      invariant 0 <= i < n
      invariant forall j :: i < j < 2 * n ==> heap[j] == Up(f, zs, n, j)
    {
      assert heap[2 * i] == Up(f, zs, n, 2 * i) && heap[2 * i + 1] == Up(f, zs, n, 2 * i + 1);
      var s := Val(0);
      if heap[2 * i] != Null {
        if heap[2 * i + 1] == Null || V(heap[2 * i + 1]) == 0 {
          s := heap[2 * i];
        } else if V(heap[2 * i]) == 0 {
          s := heap[2 * i + 1];
        } else {
          s := Val(FieldMul(f, heap[2 * i].v, heap[2 * i + 1].v));
        }
      }
      heap[i] := s;
      i := i - 1;
    }
  }

  /** The downward sweep: every other node becomes its inverse. */
  method SweepDown(f: Field, heap: array<Slot>, ghost zs: seq<nat>, n: nat, num: nat)
    requires Reduced(f, zs) && 0 < |zs| == num <= n && heap.Length == 2 * n
    requires heap[1] == Down(f, zs, n, 1)
    requires forall i :: 1 < i < 2 * n ==> heap[i] == Up(f, zs, n, i)
    modifies heap
    ensures forall i :: 0 < i < n + num ==> heap[i] == Down(f, zs, n, i)
  {
    hide Down, Up;
    var i := 2;
    while i < n + num
      invariant 2 <= i <= n + num + 1 && i % 2 == 0
      invariant forall j :: 0 < j < i && j < 2 * n ==> heap[j] == Down(f, zs, n, j)
      invariant forall j :: i <= j < 2 * n ==> heap[j] == Up(f, zs, n, j)
    {
      SweepPair(f, heap, zs, n, i);
      i := i + 2;
    }
  }

  /** One pair of siblings. */
  method SweepPair(f: Field, heap: array<Slot>, ghost zs: seq<nat>, n: nat, i: nat)
    requires Reduced(f, zs) && |zs| <= n && heap.Length == 2 * n && 2 <= i < n + |zs| && i % 2 == 0
    requires heap[i / 2] == Down(f, zs, n, i / 2)
    requires heap[i] == Up(f, zs, n, i) && heap[i + 1] == Up(f, zs, n, i + 1)
    modifies heap
    ensures heap[i] == Down(f, zs, n, i) && heap[i + 1] == Down(f, zs, n, i + 1)
    ensures forall j :: 0 <= j < 2 * n && j != i && j != i + 1 ==> heap[j] == old(heap[j])
  {
    hide FieldMul, Down, Up;
    NodeIsFilled(f, zs, n, i);
    DownPair(f, zs, n, i / 2);
    if V(heap[i + 1]) != 0 {
      var tmp0 := FieldMul(f, V(heap[i / 2]), heap[i + 1].v);
      var tmp1 := FieldMul(f, V(heap[i / 2]), heap[i].v);
      heap[i] := Val(tmp0);
      heap[i + 1] := Val(tmp1);
    } else {
      heap[i] := Val(V(heap[i / 2]));
    }
  }

  lemma DownPair(f: Field, zs: seq<nat>, n: nat, h: nat)
    requires Reduced(f, zs) && 0 < h < n
    ensures var l, r, d := Up(f, zs, n, 2 * h), Up(f, zs, n, 2 * h + 1), V(Down(f, zs, n, h));
      && Down(f, zs, n, 2 * h) == DownLeft(f, l, r, d)
      && Down(f, zs, n, 2 * h + 1) == DownRight(f, l, r, d)
  {
    hide DownLeft, DownRight, InvertedRoot, Up;
    var e, o := 2 * h, 2 * h + 1;
    assert e / 2 == h && o / 2 == h && e / 2 * 2 == e && o / 2 * 2 == e;
  }

  // The downward sweep never meets a NULL entry in an even position.
  lemma NodeIsFilled(f: Field, zs: seq<nat>, n: nat, i: nat)
    requires Reduced(f, zs) && |zs| <= n && 0 < i < n + |zs|
    ensures Up(f, zs, n, i).Val?
  {
    if i < n {
      EmptyPrefix(f, zs, n, i);
    }
  }

  /** The last line of the heap holds the Z coordinates; everything else is NULL. */
  method FillHeap(f: Field, points: seq<EcPoint>, n: nat) returns (heap: array<Slot>)
    requires Reduced(f, Zs(Js(points))) && |points| <= n && n > 0
    ensures fresh(heap) && heap.Length == 2 * n
    ensures forall i :: n <= i < 2 * n ==> heap[i] == Up(f, Zs(Js(points)), n, i)
  {
    var num := |points|;
    heap := new Slot[2 * n](_ => Null);
    for i := 0 to num
      invariant forall j :: n <= j < n + i ==> heap[j] == Val(points[j - n].Z)
      invariant forall j :: n + i <= j < 2 * n ==> heap[j] == Null
    {
      heap[n + i] := Val(points[i].Z);
    }
  }

  /** The single inversion, with the two Montgomery corrections. */
  method InvertRoot(f: Field, heap: array<Slot>, ghost zs: seq<nat>, n: nat)
    requires Reduced(f, zs) && 0 < |zs| <= n && heap.Length == 2 * n
    requires forall i :: 0 < i < 2 * n ==> heap[i] == Up(f, zs, n, i)
    modifies heap
    ensures heap[1] == Down(f, zs, n, 1)
    ensures forall i :: 1 < i < 2 * n ==> heap[i] == Up(f, zs, n, i)
  {
    hide Encode, Up;
    assert heap[1] == Up(f, zs, n, 1);
    var root := V(heap[1]);
    if root != 0 {
      root := Inv(f.p, root);
    }
    root := Encode(f, root);
    root := Encode(f, root);
    heap[1] := Val(root);
  }

  /** The last loop's body: z is what the downward sweep left in the leaf of this point. */
  method FixPoint(f: Field, p: EcPoint, z: nat)
    requires f.p > 0
    modifies p
    ensures p.J() == Fixed(f, old(p.J()), z)
  {
    hide FieldMul, One;
    p.Z := z;
    if p.Z != 0 {
      var tmp1 := FieldSqr(f, p.Z);
      p.X := FieldMul(f, p.X, tmp1);
      tmp1 := FieldMul(f, tmp1, p.Z);
      p.Y := FieldMul(f, p.Y, tmp1);
      p.Z := One(f);
      p.ZIsOne := true;
    }
  }

  method FixPoints(c: Curve, points: seq<EcPoint>, heap: array<Slot>, n: nat)
    requires Distinct(points) && |points| <= n && heap.Length == 2 * n && Reduced(c.f, Zs(Js(points)))
    requires forall i :: 0 < i < n + |points| ==> heap[i] == Down(c.f, Zs(Js(points)), n, i)
    modifies points
    ensures forall k :: 0 <= k < |points| ==> points[k].J() == AffineResult(c, old(Js(points)), n, k)
  {
    hide Fixed, Down;
    ghost var js := Js(points);
    var num := |points|;
    for i := 0 to num
      invariant forall j :: 0 < j < n + num ==> heap[j] == Down(c.f, Zs(js), n, j)
      invariant forall j :: 0 <= j < i ==> points[j].J() == AffineResult(c, js, n, j)
      invariant forall j :: i <= j < num ==> points[j].J() == js[j]
    {
      FixPoint(c.f, points[i], V(heap[n + i]));
    }
  }

  /** ec_GFp_simple_points_make_affine. */
  method PointsMakeAffine(c: Curve, points: seq<EcPoint>)
    requires ValidCurve(c) && Distinct(points) && ValidAll(c, Js(points))
    requires Reduced(c.f, Zs(Js(points)))
    modifies points
    ensures forall k :: 0 <= k < |points| ==>
      points[k].J() == AffineResult(c, old(Js(points)), Leaves(|points|), k)
  {
    hide AffineResult, Up, Down, ValidJac, ValidField;
    var num := |points|;
    if num == 0 {
      return;
    }
    var pow2 := 1;
    while num > pow2
      invariant pow2 > 0 && Leaves(num) == LeavesFrom(num, pow2)
      decreases num - pow2
    {
      pow2 := 2 * pow2;
    }
    var heap := FillHeap(c.f, points, pow2);
    ghost var zs := Zs(Js(points));
    SweepUp(c.f, heap, zs, pow2);
    InvertRoot(c.f, heap, zs, pow2);
    SweepDown(c.f, heap, zs, pow2, num);
    FixPoints(c, points, heap, pow2);
  }
}
