/**
 ECDSA over ec_wNAF_mul (libabi/pssl/ecs_ossl.c).  Random numbers are drawn from a sequence
 that is passed in; running out of it stands for a failing generator.
 */
module Ecdsa {
  import opened Wrappers
  import opened Modular
  import opened Field
  import opened Curve
  import opened Jacobian
  import opened EcPoint
  import opened Power
  import opened Wnaf
  import opened Multiples
  import opened WnafSplit
  import opened EcMult
  import opened PrimeOrder
  import opened Bytes
  import opened Digest

  datatype Signature = Signature(r: int, s: int)

  /** EC_KEY: a group with its generator, a private number and a public point. */
  class EcKey {
    const group: EcGroup
    var privKey: nat
    var pubKey: EcPoint

    constructor (group: EcGroup, privKey: nat, pubKey: EcPoint)
      ensures this.group == group && this.privKey == privKey && this.pubKey == pubKey
    {
      this.group, this.privKey, this.pubKey := group, privKey, pubKey;
    }
  }

  // ---------- the signature equations ----------

  /** kinv and r belong to the nonce k. */
  ghost predicate FromNonce(c: Curve, n: nat, G: Affine, k: nat, kinv: nat, r: int)
    requires ValidCurve(c) && OnCurve(c, G) && n > 0
  {
    && 0 < k < n && kinv < n && Cong(n, k * kinv, 1)
    && Mul(c, k, G).Aff? && r == Mul(c, k, G).x % n && r != 0
  }

  /** The signing equation of section 4.1.3 of SEC 1: s is the non-zero residue of kinv*(m + d*r). */
  ghost predicate Signs(n: nat, d: nat, m: nat, kinv: nat, sig: Signature)
    requires n > 0
  {
    0 < sig.s < n && Cong(n, sig.s, (d * sig.r + m) * kinv)
  }

  ghost predicate IsSignature(c: Curve, n: nat, G: Affine, d: nat, m: nat, k: nat, kinv: nat, sig: Signature)
    requires ValidCurve(c) && OnCurve(c, G) && n > 0
  {
    FromNonce(c, n, G, k, kinv, sig.r) && Signs(n, d, m, kinv, sig)
  }

  /** The verifying equation of section 4.1.4 of SEC 1. */
  ghost predicate InRange(n: nat, sig: Signature) {
    0 < sig.r < n && 0 < sig.s < n
  }

  ghost function VerifyPoint(c: Curve, n: nat, G: Affine, Q: Affine, m: nat, sig: Signature): Affine
    requires ValidCurve(c) && OnCurve(c, G) && OnCurve(c, Q) && InRange(n, sig)
  {
    var w := Inv(n, sig.s);
    AffAdd(c, Mul(c, (sig.r * w) % n, Q), Mul(c, (m * w) % n, G))
  }

  ghost predicate Accepts(c: Curve, n: nat, G: Affine, Q: Affine, m: nat, sig: Signature)
    requires ValidCurve(c) && OnCurve(c, G) && OnCurve(c, Q)
  {
    && InRange(n, sig)
    && VerifyPoint(c, n, G, Q, m, sig).Aff?
    && VerifyPoint(c, n, G, Q, m, sig).x % n == sig.r
  }

  // s*w == 1 turns the signing equation into k == (d*r + m)*w.
  lemma NonceFromSignature(n: nat, k: int, kinv: int, e: int, s: int, w: int)
    requires n > 0 && Cong(n, k * kinv, 1) && Cong(n, s, e * kinv) && Cong(n, s * w, 1)
    ensures Cong(n, e * w, k)
  {
    hide Cong;
    TimesNonce(n, k, kinv, e, s);
    CongScale(n, k * s, e, w);
    CongScale(n, s * w, 1, k);
    assert (k * s) * w == (s * w) * k && 1 * k == k;
    CongSym(n, (s * w) * k, e * w);
    CongSym(n, e * w, (s * w) * k);
    CongTrans(n, e * w, (s * w) * k, k);
  }

  lemma TimesNonce(n: nat, k: int, kinv: int, e: int, s: int)
    requires n > 0 && Cong(n, k * kinv, 1) && Cong(n, s, e * kinv)
    ensures Cong(n, k * s, e)
  {
    hide Cong;
    CongScale(n, s, e * kinv, k);
    assert s * k == k * s;
    CongScale(n, k * kinv, 1, e);
    assert (e * kinv) * k == (k * kinv) * e && 1 * e == e;
    CongTrans(n, k * s, (k * kinv) * e, e);
  }

  // u1 + d*u2 is the nonce.
  lemma NonceFromU(n: nat, k: int, kinv: int, d: int, r: int, m: int, s: int, w: int, u1: int, u2: int)
    requires n > 0 && Cong(n, k * kinv, 1) && Cong(n, s, (d * r + m) * kinv) && Cong(n, s * w, 1)
    requires Cong(n, u1, m * w) && Cong(n, u2, r * w)
    ensures Cong(n, u2 * d + u1, k)
  {
    hide Cong;
    NonceFromSignature(n, k, kinv, d * r + m, s, w);
    CongScale(n, u2, r * w, d);
    CongAdd(n, u2 * d, (r * w) * d, u1, m * w);
    assert (r * w) * d + m * w == (d * r + m) * w by {
      assert (r * w) * d == (d * r) * w;
    }
    CongTrans(n, u2 * d + u1, (d * r + m) * w, k);
  }

  lemma RecombinedPoint(c: Curve, n: nat, G: Affine, d: nat, k: nat, u1: nat, u2: nat)
    requires IsGroup(c) && HasOrder(c, G, n) && Cong(n, u2 * d + u1, k)
    ensures AffAdd(c, Mul(c, u2, Mul(c, d, G)), Mul(c, u1, G)) == Mul(c, k, G)
  {
    hide OnCurve, AffAdd, Associative, Mul, Cong, Prime;
    MulMul(c, u2, d, G);
    MulAdd(c, u2 * d, u1, G);
    MulCong(c, G, n, u2 * d + u1, k);
  }

  /** ECDSA completeness: what the signing equation produces, the verifying equation accepts. */
  lemma SignatureAccepted(c: Curve, n: nat, G: Affine, d: nat, m: nat, k: nat, kinv: nat, sig: Signature)
    requires IsGroup(c) && HasOrder(c, G, n) && IsSignature(c, n, G, d, m, k, kinv, sig)
    ensures Accepts(c, n, G, Mul(c, d, G), m, sig)
  {
    hide OnCurve, AffAdd, Associative, Mul, Cong;
    var w := Inv(n, sig.s);
    InvCorrect(n, sig.s);
    var u1, u2 := (m * w) % n, (sig.r * w) % n;
    CongMod(n, m * w);
    CongMod(n, sig.r * w);
    NonceFromU(n, k, kinv, d, sig.r, m, sig.s, w, u1, u2);
    RecombinedPoint(c, n, G, d, k, u1, u2);
  }

  lemma Associate(a: int, b: int, c: int)
    ensures (a * b) * c == a * (b * c)
  {
  }

  lemma ExchangeFactors(e: int, w: int, s: int, k: int)
    ensures (e * w) * (s * k) == (s * w) * (e * k)
  {
    Associate(e, w, s * k);
    Associate(w, s, k);
    Associate(s, w, e * k);
    Associate(w, e, k);
    Associate(s, e, w * k);
    Associate(e, s, w * k);
    assert w * (s * k) == s * (w * k) by {
      Associate(s, w, k);
      assert w * s == s * w;
    }
    assert w * (e * k) == e * (w * k) by {
      Associate(e, w, k);
      assert w * e == e * w;
    }
    assert s * e == e * s;
  }

  // With k == (d*r + m)*w and s*w == 1 the pair satisfies the signing equation.
  lemma SignatureFromNonce(n: nat, k: int, kinv: int, e: int, s: int, w: int)
    requires n > 0 && Cong(n, k, e * w) && Cong(n, s * w, 1) && Cong(n, k * kinv, 1)
    ensures Cong(n, s, e * kinv)
  {
    hide Cong;
    CongScale(n, k, e * w, s * kinv);
    CongScale(n, s * w, 1, e * kinv);
    CongScale(n, k * kinv, 1, s);
    assert k * (s * kinv) == (k * kinv) * s && 1 * s == s;
    ExchangeFactors(e, w, s, kinv);
    assert 1 * (e * kinv) == e * kinv;
    CongSym(n, (k * kinv) * s, s);
    CongTrans(n, s, (k * kinv) * s, (s * w) * (e * kinv));
    CongTrans(n, s, (s * w) * (e * kinv), e * kinv);
  }

  // The recombined scalar, in the form of the signing equation.
  lemma ScalarOfU(n: nat, k: int, d: int, r: int, m: int, w: int, u1: int, u2: int)
    requires n > 0 && Cong(n, k, u2 * d + u1) && Cong(n, u1, m * w) && Cong(n, u2, r * w)
    ensures Cong(n, k, (d * r + m) * w)
  {
    hide Cong;
    CongScale(n, u2, r * w, d);
    CongAdd(n, u2 * d, (r * w) * d, u1, m * w);
    assert (r * w) * d + m * w == (d * r + m) * w by {
      assert (r * w) * d == (d * r) * w;
    }
    CongTrans(n, k, u2 * d + u1, (d * r + m) * w);
  }

  /** Whatever the verifying equation accepts was produced by the signing equation, from this nonce. */
  lemma AcceptedIsSignature(c: Curve, n: nat, G: Affine, d: nat, m: nat, sig: Signature) returns (k: nat, kinv: nat)
    requires IsGroup(c) && HasOrder(c, G, n) && Accepts(c, n, G, Mul(c, d, G), m, sig)
    ensures IsSignature(c, n, G, d, m, k, kinv, sig)
  {
    hide OnCurve, AffAdd, Associative, Mul, Cong, Prime;
    var w := Inv(n, sig.s);
    InvCorrect(n, sig.s);
    var u1, u2 := (m * w) % n, (sig.r * w) % n;
    CongMod(n, m * w);
    CongMod(n, sig.r * w);
    k := (u2 * d + u1) % n;
    CongMod(n, u2 * d + u1);
    CongSym(n, k, u2 * d + u1);
    RecombinedPoint(c, n, G, d, k, u1, u2);
    MulZero(c, G);
    assert k != 0;
    kinv := Inv(n, k);
    InvCorrect(n, k);
    ScalarOfU(n, k, d, sig.r, m, w, u1, u2);
    SignatureFromNonce(n, k, kinv, d * sig.r + m, sig.s, w);
  }

  /** Verification accepts exactly the signatures. */
  lemma AcceptsIff(c: Curve, n: nat, G: Affine, d: nat, m: nat, sig: Signature)
    requires IsGroup(c) && HasOrder(c, G, n) && n > 0
    ensures Accepts(c, n, G, Mul(c, d, G), m, sig) <==>
      exists k: nat, kinv: nat :: IsSignature(c, n, G, d, m, k, kinv, sig)
  {
    hide OnCurve, Associative, Accepts, IsSignature, Mul, Prime;
    if Accepts(c, n, G, Mul(c, d, G), m, sig) {
      var k, kinv := AcceptedIsSignature(c, n, G, d, m, sig);
    }
    if exists k: nat, kinv: nat :: IsSignature(c, n, G, d, m, k, kinv, sig) {
      var k: nat, kinv: nat :| IsSignature(c, n, G, d, m, k, kinv, sig);
      SignatureAccepted(c, n, G, d, m, k, kinv, sig);
    }
  }

  // ---------- the nonce ----------

  /** k plus the order, or plus twice the order, so that its length is fixed. */
  function Padded(k: nat, n: nat): nat {
    if NumBits(k + n) <= NumBits(n) then k + n + n else k + n
  }

  /** The padded nonce is one bit longer than the order and congruent to the nonce. */
  lemma PaddedNonce(k: nat, n: nat)
    requires k < n
    ensures NumBits(Padded(k, n)) == NumBits(n) + 1
    ensures Cong(n, Padded(k, n), k)
  {
    hide *;
    PaddedBits(k, n);
    PaddedCong(k, n);
  }

  lemma PaddedCong(k: nat, n: nat)
    requires n > 0
    ensures Cong(n, Padded(k, n), k)
  {
    hide Cong, NumBits;
    CongIntro(n, k + n, k, 1);
    CongIntro(n, k + n + n, k, 2);
  }

  lemma PaddedBits(k: nat, n: nat)
    requires k < n
    ensures NumBits(Padded(k, n)) == NumBits(n) + 1
  {
    hide NumBits, Pow2;
    var b := NumBits(n);
    NumBitsBounds(n);
    Doubled(b - 1);
    Doubled(b);
    if k + n >= Pow2(b) {
      NumBitsUnique(k + n, b);
    } else {
      ShortBits(k + n, b);
      NumBitsUnique(k + n + n, b);
    }
  }

  lemma Doubled(b: nat)
    ensures Pow2(b + 1) == 2 * Pow2(b)
  {
  }

  lemma ShortBits(x: nat, b: nat)
    requires x < Pow2(b)
    ensures NumBits(x) <= b
  {
    NumBitsBounds(x);
    if x > 0 && NumBits(x) > b {
      Pow2Mono(b, NumBits(x) - 1);
    }
  }

  // ---------- the methods ----------

  ghost predicate SigningGroup(group: EcGroup)
    reads group, group.generator, group.precomp
    reads if group.precomp == null then [] else group.precomp.points
  {
    GroupOk(group) && group.generator != null && HasOrder(group.c, GeneratorValue(group), group.order)
  }

  lemma NonceMultiple(c: Curve, n: nat, G: Affine, k: nat)
    requires IsGroup(c) && HasOrder(c, G, n) && 0 < k < n
    ensures Mul(c, Padded(k, n), G) == Mul(c, k, G) && Mul(c, k, G) != Infinity
  {
    hide OnCurve, Mul, Cong, Associative, Prime, Padded;
    PaddedNonce(k, n);
    MulCong(c, G, n, Padded(k, n), k);
    SmallMultiple(c, G, n, k);
  }

  lemma NonceInverse(n: nat, k: nat)
    requires Prime(n) && 0 < k < n
    ensures 0 < Padded(k, n) % n < n && Padded(k, n) % n == k
    ensures Cong(n, k * Inv(n, k), 1)
  {
    hide Cong;
    PaddedNonce(k, n);
    CongIsMod(n, Padded(k, n), k);
    InvCorrect(n, k);
  }

  /** r := k*G for a padded nonce; this is EC_POINT_mul without a second point. */
  method NoncePoint(group: EcGroup, tmp: EcPoint, k: nat, ghost k0: nat)
    requires SigningGroup(group) && tmp.Valid(group.c) && (group.precomp != null ==> tmp !in group.precomp.points)
    requires tmp != group.generator && 0 < k0 < group.order && k == Padded(k0, group.order)
    modifies tmp
    ensures tmp.Valid(group.c) && SigningGroup(group)
    ensures tmp.Value(group.c) == Mul(group.c, k0, GeneratorValue(group)) != Infinity
  {
    hide OnCurve, Mul, Associative, Prime, Padded, AffAdd, ToAffine, CleanTables, Total, EcPreComp.WellFormed,
         EcPreComp.Shaped, EcPreComp.Base, ValidField, HasOrder, IsRun, GeneratorRun, Outcome, KeepsEntries, NumBits;
    NonceTotal(group, k, k0);
    var ok, _ := WnafMul(group, tmp, Some(k), [], [], []);
  }

  lemma NonceTotal(group: EcGroup, k: int, k0: nat)
    requires SigningGroup(group) && 0 < k0 < group.order && k == Padded(k0, group.order)
    ensures CleanTables(group.c, Some(k), TableUsed(group, Some(k)), GeneratorValue(group), [], [])
    ensures Total(group.c, Some(k), GeneratorValue(group), [], []) == Mul(group.c, k0, GeneratorValue(group)) != Infinity
  {
    hide OnCurve, Mul, Associative, Prime, Padded, CleanTables, Total, EcPreComp.WellFormed, EcPreComp.Shaped,
         EcPreComp.Base, ValidField, HasOrder, ToAffine, NumBits;
    var c, G, n := group.c, GeneratorValue(group), group.order;
    PaddedNonce(k0, n);
    PrimeOrderIsClean(c, Some(k), TableUsed(group, Some(k)), G, [], [], n);
    NonceMultiple(c, n, G, k0);
    TotalOfOne(c, G, k);
  }

  lemma TotalOfOne(c: Curve, G: Affine, k: int)
    requires ValidCurve(c) && OnCurve(c, G)
    ensures Total(c, Some(k), G, [], []) == Mul(c, k, G)
  {
    hide OnCurve, Mul;
    AddZero(c, Mul(c, k, G));
  }

  // ---------- which draw is used ----------

  /** The r that belongs to a draw; zero for the draw zero. */
  ghost function ROf(c: Curve, n: nat, G: Affine, k: nat): nat
    requires ValidCurve(c) && OnCurve(c, G) && n > 0
  {
    if Mul(c, k, G).Aff? then Mul(c, k, G).x % n else 0
  }

  /** None of the first draws gives an r. */
  ghost predicate NoR(c: Curve, n: nat, G: Affine, draws: seq<nat>, upto: nat)
    requires ValidCurve(c) && OnCurve(c, G) && n > 0
  {
    upto <= |draws| && forall j :: 0 <= j < upto ==> ROf(c, n, G, draws[j]) == 0
  }

  /** The draw gives no signature of m by d: r would be zero, or s. */
  ghost predicate Unfit(c: Curve, n: nat, G: Affine, d: nat, m: nat, k: nat)
    requires ValidCurve(c) && OnCurve(c, G) && n > 0
  {
    ROf(c, n, G, k) == 0 || (d * ROf(c, n, G, k) + m) % n == 0
  }

  /** None of the first draws is fit. */
  ghost predicate NoneFit(c: Curve, n: nat, G: Affine, d: nat, m: nat, draws: seq<nat>, upto: nat)
    requires ValidCurve(c) && OnCurve(c, G) && n > 0
  {
    upto <= |draws| && forall j :: 0 <= j < upto ==> Unfit(c, n, G, d, m, draws[j])
  }

  lemma ROfZero(c: Curve, n: nat, G: Affine)
    requires ValidCurve(c) && OnCurve(c, G) && n > 0
    ensures ROf(c, n, G, 0) == 0
  {
    hide OnCurve, Mul;
    MulZero(c, G);
  }

  // s is zero exactly if the number in front of the inverse nonce is.
  lemma SIsZero(n: nat, k: int, kinv: int, e: int, s: nat)
    requires n > 0 && s < n && Cong(n, s, e * kinv) && Cong(n, k * kinv, 1)
    ensures s == 0 <==> e % n == 0
  {
    hide Cong;
    CongZero(n, e);
    if s == 0 {
      TimesNonce(n, k, kinv, e, s);
      assert k * s == 0;
      CongSym(n, k * s, e);
    }
    if e % n == 0 {
      CongScale(n, e, 0, kinv);
      assert 0 * kinv == 0;
      CongTrans(n, s, e * kinv, 0);
      CongResidues(n, s, 0);
    }
  }

  /** The inner loop of ecdsa_sign_setup: draw until the number is not zero; that is the one at position i. */
  method DrawNonce(order: nat, draws: seq<nat>) returns (ok: bool, k: nat, left: seq<nat>, ghost i: nat)
    requires forall j :: 0 <= j < |draws| ==> draws[j] < order
    ensures ok ==> i < |draws| && k == draws[i] != 0 && left == draws[i + 1..]
    ensures ok ==> forall j :: 0 <= j < i ==> draws[j] == 0
    ensures !ok ==> forall j :: 0 <= j < |draws| ==> draws[j] == 0
  {
    left, k, i := draws, 0, 0;
    ghost var used := 0;
    while k == 0
      invariant used <= |draws| && left == draws[used..]
      invariant k == 0 ==> forall j :: 0 <= j < used ==> draws[j] == 0
      invariant k != 0 ==> used > 0 && k == draws[used - 1] && forall j :: 0 <= j < used - 1 ==> draws[j] == 0
      decreases |left|, k == 0
    {
      if |left| == 0 {
        return false, 0, [], 0;
      }
      k := left[0];
      left := left[1..];
      used := used + 1;
    }
    ok, i := true, used - 1;
  }

  /** r for one nonce: the x coordinate of its multiple of the generator, reduced. */
  method NonceToR(group: EcGroup, tmpPoint: EcPoint, k0: nat) returns (kk: nat, r: nat)
    requires SigningGroup(group) && tmpPoint.Valid(group.c)
    requires (group.precomp != null ==> tmpPoint !in group.precomp.points) && tmpPoint != group.generator
    requires 0 < k0 < group.order
    modifies tmpPoint
    ensures tmpPoint.Valid(group.c) && SigningGroup(group)
    ensures kk == Padded(k0, group.order)
    ensures var R := Mul(group.c, k0, GeneratorValue(group)); R.Aff? && r == R.x % group.order
  {
    hide OnCurve, Mul, Associative, Prime, ToAffine, EcPreComp.WellFormed, EcPreComp.Base, ValidField, NumBits;
    var order := group.order;
    OrderIsPrime(group.c, GeneratorValue(group), order);
    kk := k0 + order;
    if NumBits(kk) <= NumBits(order) {
      kk := kk + order;
    }
    NoncePoint(group, tmpPoint, kk, k0);
    var found, x, _ := GetAffineCoordinates(group.c, tmpPoint);
    if !found {
      assert false;
    }
    r := x % order;
  }

  /** Positions from base on, seen from the start. */
  lemma DrawsFrom(draws: seq<nat>, base: nat, i: nat)
    requires base <= |draws| && i < |draws[base..]|
    ensures base + i < |draws| && draws[base..][i] == draws[base + i] && draws[base..][i + 1..] == draws[base + i + 1..]
  {
  }

  // One more stretch of zeroes.
  lemma Stretch(c: Curve, n: nat, G: Affine, draws: seq<nat>, base: nat, i: nat)
    requires ValidCurve(c) && OnCurve(c, G) && n > 0 && base + i <= |draws| && NoR(c, n, G, draws, base)
    requires forall j :: 0 <= j < i ==> draws[base..][j] == 0
    ensures NoR(c, n, G, draws, base + i)
  {
    hide OnCurve, Mul, ROf;
    forall j | base <= j < base + i
      ensures ROf(c, n, G, draws[j]) == 0
    {
      assert draws[base..][j - base] == draws[j];
      ROfZero(c, n, G);
    }
  }

  lemma OneMoreWithoutR(c: Curve, n: nat, G: Affine, draws: seq<nat>, base: nat)
    requires ValidCurve(c) && OnCurve(c, G) && n > 0 && base < |draws| && NoR(c, n, G, draws, base)
    requires ROf(c, n, G, draws[base]) == 0
    ensures NoR(c, n, G, draws, base + 1)
  {
    hide OnCurve, Mul, ROf;
  }

  lemma NothingDrawn(c: Curve, n: nat, G: Affine, draws: seq<nat>)
    requires ValidCurve(c) && OnCurve(c, G) && n > 0
    ensures NoR(c, n, G, draws, 0)
  {
  }

  /**
   ecdsa_sign_setup: takes the first draw whose r is not zero, at position i; it fails only if there
   is none.
   */
  method SignSetup(group: EcGroup, draws: seq<nat>)
    returns (ok: bool, kinv: nat, r: nat, left: seq<nat>, ghost k: nat, ghost i: nat)
    requires SigningGroup(group) && forall j :: 0 <= j < |draws| ==> draws[j] < group.order
    ensures SigningGroup(group) && GeneratorValue(group) == old(GeneratorValue(group)) && group.order > 0
    ensures ok ==> FromNonce(group.c, group.order, GeneratorValue(group), k, kinv, r)
    ensures ok ==> i < |draws| && k == draws[i] && left == draws[i + 1..] && r == ROf(group.c, group.order, GeneratorValue(group), k)
    ensures ok ==> NoR(group.c, group.order, GeneratorValue(group), draws, i)
    ensures !ok ==> NoR(group.c, group.order, GeneratorValue(group), draws, |draws|)
  {
    hide OnCurve, Mul, Associative, Prime, Padded, ToAffine, EcPreComp.WellFormed, EcPreComp.Base, ValidField, Cong, NoR;
    var order := group.order;
    ghost var c, G := group.c, GeneratorValue(group);
    OrderIsPrime(c, G, order);
    ok, left, kinv, r, k, i := false, draws, 0, 0, 0, 0;
    var tmpPoint := new EcPoint();
    FreshIsValid(c, tmpPoint);
    ghost var base: nat := 0;
    NothingDrawn(c, order, G, draws);
    while true
      invariant base <= |draws| && left == draws[base..]
      invariant tmpPoint.Valid(c) && SigningGroup(group) && GeneratorValue(group) == G
      invariant NoR(c, order, G, draws, base)
      decreases |left|
    {
      var k0, kk;
      ghost var skip;
      ok, k0, left, skip := DrawNonce(order, left);
      if !ok {
        Stretch(c, order, G, draws, base, |draws| - base);
        return;
      }
      DrawsFrom(draws, base, skip);
      Stretch(c, order, G, draws, base, skip);
      kk, r := NonceToR(group, tmpPoint, k0);
      if r != 0 {
        NonceInverse(order, k0) by {
          SigningOrder(group);
        }
        kinv := Inv(order, kk % order);
        k, i := k0, base + skip;
        return;
      }
      OneMoreWithoutR(c, order, G, draws, base + skip);
      base := base + skip + 1;
    }
  }

  lemma SigningOrder(group: EcGroup)
    requires SigningGroup(group)
    ensures Prime(group.order)
  {
  }

  /** The digest as an integer: whole bytes first, then a shift. */
  method DigestToM(dgst: seq<Byte>, order: nat) returns (m: nat)
    ensures m == DigestValue(dgst, NumBits(order))
  {
    var i := NumBits(order);
    var dgstLen := |dgst|;
    if 8 * dgstLen > i {
      dgstLen := (i + 7) / 8;
    }
    m := BigEndian(dgst[..dgstLen]);
    if 8 * dgstLen > i {
      m := Quot(m, 8 - i % 8);
    }
  }

  // tmp + m is only partly reduced when the digest is not below the order.
  lemma SignResidue(n: nat, d: int, r: int, m: int, kinv: int)
    requires n > 0
    ensures Cong(n, (ModAddQuick((d * r) % n, m, n) * kinv) % n, (d * r + m) * kinv)
  {
    hide Cong, ModAddQuick;
    var t := (d * r) % n;
    var s := ModAddQuick(t, m, n);
    QuickCong(n, t, m);
    CongMod(n, d * r);
    CongRefl(n, m);
    CongAdd(n, t, d * r, m, m);
    CongTrans(n, s, t + m, d * r + m);
    CongScale(n, s, d * r + m, kinv);
    CongMod(n, s * kinv);
    CongTrans(n, (s * kinv) % n, s * kinv, (d * r + m) * kinv);
  }

  /** s from r, the digest and the inverse nonce. */
  method ComputeS(order: nat, privKey: nat, r: nat, m: nat, ckinv: nat) returns (s: nat)
    requires order > 0
    ensures s < order && Cong(order, s, (privKey * r + m) * ckinv)
  {
    hide Cong, ModAddQuick;
    SignResidue(order, privKey, r, m, ckinv);
    var tmp := (privKey * r) % order;
    var sum := ModAddQuick(tmp, m, order);
    s := (sum * ckinv) % order;
  }

  // A stretch of draws without r, seen from the start.
  lemma UnfitStretch(c: Curve, n: nat, G: Affine, d: nat, m: nat, draws: seq<nat>, base: nat, i: nat)
    requires ValidCurve(c) && OnCurve(c, G) && n > 0 && base + i <= |draws|
    requires NoneFit(c, n, G, d, m, draws, base) && NoR(c, n, G, draws[base..], i)
    ensures NoneFit(c, n, G, d, m, draws, base + i)
  {
    hide OnCurve, Mul, ROf;
    forall j | base <= j < base + i
      ensures Unfit(c, n, G, d, m, draws[j])
    {
      assert draws[base..][j - base] == draws[j];
    }
  }

  lemma OneMoreUnfit(c: Curve, n: nat, G: Affine, d: nat, m: nat, draws: seq<nat>, base: nat)
    requires ValidCurve(c) && OnCurve(c, G) && n > 0 && base < |draws| && NoneFit(c, n, G, d, m, draws, base)
    requires Unfit(c, n, G, d, m, draws[base])
    ensures NoneFit(c, n, G, d, m, draws, base + 1)
  {
    hide OnCurve, Mul, Unfit;
  }

  lemma NothingUnfit(c: Curve, n: nat, G: Affine, d: nat, m: nat, draws: seq<nat>)
    requires ValidCurve(c) && OnCurve(c, G) && n > 0
    ensures NoneFit(c, n, G, d, m, draws, 0)
  {
  }

  /** The draw at position i is the first that is fit to sign m. */
  ghost predicate FirstFit(c: Curve, n: nat, G: Affine, d: nat, m: nat, draws: seq<nat>, i: nat)
    requires ValidCurve(c) && OnCurve(c, G) && n > 0
  {
    i < |draws| && !Unfit(c, n, G, d, m, draws[i]) && NoneFit(c, n, G, d, m, draws, i)
  }

  // Whether the draw that belongs to r and kinv is fit, by s.
  lemma FitByS(c: Curve, n: nat, G: Affine, d: nat, m: nat, k: nat, kinv: nat, r: nat, s: nat)
    requires ValidCurve(c) && OnCurve(c, G) && n > 0 && FromNonce(c, n, G, k, kinv, r) && r == ROf(c, n, G, k)
    requires s < n && Cong(n, s, (d * r + m) * kinv)
    ensures s == 0 <==> Unfit(c, n, G, d, m, k)
  {
    hide OnCurve, Mul, Cong;
    SIsZero(n, k, kinv, d * r + m, s);
  }

  /**
   ecdsa_do_sign.  Without supplied values the signature belongs to the first draw for which neither r
   nor s is zero, and there is none only if no draw is fit; with them it uses exactly those, and there
   is no signature when s would be zero.
   */
  method DoSign(dgst: seq<Byte>, inKinv: Option<nat>, inR: Option<nat>, key: EcKey, draws: seq<nat>)
    returns (sig: Option<Signature>, ghost k: nat, ghost kinv: nat, ghost i: nat)
    requires SigningGroup(key.group) && forall j :: 0 <= j < |draws| ==> draws[j] < key.group.order
    ensures SigningGroup(key.group) && GeneratorValue(key.group) == old(GeneratorValue(key.group))
    ensures key.group.order > 0
    ensures sig.Some? ==>
      Signs(key.group.order, key.privKey, DigestValue(dgst, NumBits(key.group.order)), kinv, sig.value)
    ensures sig.Some? && (inKinv.None? || inR.None?) ==>
      FromNonce(key.group.c, key.group.order, GeneratorValue(key.group), k, kinv, sig.value.r)
    ensures sig.Some? && (inKinv.None? || inR.None?) ==>
      FirstFit(key.group.c, key.group.order, GeneratorValue(key.group), key.privKey,
               DigestValue(dgst, NumBits(key.group.order)), draws, i) && k == draws[i]
    ensures sig.None? && (inKinv.None? || inR.None?) ==>
      NoneFit(key.group.c, key.group.order, GeneratorValue(key.group), key.privKey,
              DigestValue(dgst, NumBits(key.group.order)), draws, |draws|)
    ensures sig.Some? && inKinv.Some? && inR.Some? ==> kinv == inKinv.value && sig.value.r == inR.value
    ensures sig.None? && inKinv.Some? && inR.Some? ==>
      Cong(key.group.order, (key.privKey * inR.value + DigestValue(dgst, NumBits(key.group.order))) * inKinv.value, 0)
  {
    hide OnCurve, Mul, Associative, Prime, ToAffine, EcPreComp.WellFormed, EcPreComp.Base, ValidField, Cong, NumBits,
         DigestValue, FromNonce, ModAddQuick, ROf, Unfit, NoR, NoneFit;
    var order, privKey := key.group.order, key.privKey;
    ghost var c, G := key.group.c, GeneratorValue(key.group);
    OrderIsPrime(c, G, order);
    var m := DigestToM(dgst, order);
    var left := draws;
    k, kinv, sig, i := 0, 0, None, 0;
    ghost var base: nat := 0;
    NothingUnfit(c, order, G, privKey, m, draws);
    while true
      invariant base <= |draws| && left == draws[base..]
      invariant SigningGroup(key.group) && GeneratorValue(key.group) == G
      invariant inKinv.None? || inR.None? ==> NoneFit(c, order, G, privKey, m, draws, base)
      decreases |left|
    {
      var ckinv, r: nat;
      ghost var skip: nat := 0;
      if inKinv.None? || inR.None? {
        var ok;
        ok, ckinv, r, left, k, skip := SignSetup(key.group, left);
        if !ok {
          UnfitStretch(c, order, G, privKey, m, draws, base, |draws| - base);
          return;
        }
        DrawsFrom(draws, base, skip);
        UnfitStretch(c, order, G, privKey, m, draws, base, skip);
      } else {
        ckinv, r := inKinv.value, inR.value;
      }
      kinv := ckinv;
      var s := ComputeS(order, privKey, r, m, ckinv);
      if inKinv.None? || inR.None? {
        FitByS(c, order, G, privKey, m, k, ckinv, r, s);
      }
      if s != 0 {
        sig := Some(Signature(r, s));
        i := base + skip;
        return;
      }
      if inKinv.Some? && inR.Some? {
        CongSym(order, s, (privKey * r + m) * ckinv);
        return;
      }
      OneMoreUnfit(c, order, G, privKey, m, draws, base + skip);
      base := base + skip + 1;
    }
  }

  lemma TotalOfTwo(c: Curve, G: Affine, Q: Affine, u1: int, u2: int)
    requires ValidCurve(c) && OnCurve(c, G) && OnCurve(c, Q)
    ensures Total(c, Some(u1), G, [u2], [Q]) == AffAdd(c, Mul(c, u2, Q), Mul(c, u1, G))
  {
    hide OnCurve, Mul, AffAdd;
    AddZero(c, Mul(c, u2, Q));
    assert LinComb(c, [u2], [Q], 0) == Infinity;
    assert LinComb(c, [u2], [Q], 1) == AffAdd(c, Infinity, Mul(c, u2, Q));
  }

  /** The tables for u1*G + u2*Q convert cleanly. */
  ghost predicate CleanTerms(group: EcGroup, u1: nat, u2: nat, Q: Affine)
    requires GroupShaped(group) && OnCurve(group.c, Q)
    reads group, group.generator, group.precomp
    reads if group.precomp == null then [] else group.precomp.points
  {
    CleanTables(group.c, Some(u1), TableUsed(group, Some(u1)), GeneratorValue(group), [u2], [Q])
  }

  /** What ec_wNAF_mul makes of u1*G + u2*Q. */
  ghost predicate TermsOutcome(group: EcGroup, u1: nat, u2: nat, Q: Affine, R: Affine, run: Run)
    requires GroupShaped(group) && OnCurve(group.c, Q)
    reads group, group.generator, group.precomp
    reads if group.precomp == null then [] else group.precomp.points
  {
    var used := TableUsed(group, Some(u1));
    && IsRun(group.c, Some(u1), used, GeneratorValue(group), [u2], [Q], run)
    && GeneratorRun(Some(u1), used, TableW(group), TableBs(group), TableEntries(group), run)
    && R == Outcome(group.c, OwnScalars(Some(u1), used, [u2]), run)
  }

  lemma SameTotal(c: Curve, G: Affine, Q: Affine, u1: int, u2: int)
    requires ValidCurve(c) && OnCurve(c, G) && OnCurve(c, Q)
    ensures AllOnCurve(c, [Q])
    ensures Total(c, Some(u1), G, [u2], [Q]) == AffAdd(c, Mul(c, u2, Q), Mul(c, u1, G))
  {
    hide OnCurve, Mul, AffAdd, Total;
    TotalOfTwo(c, G, Q, u1, u2);
  }

  /** u1*G + u2*Q: EC_POINT_mul with both terms. */
  method TwoTerms(group: EcGroup, point: EcPoint, u1: nat, pubKey: EcPoint, u2: nat, ghost Q: Affine)
    returns (ghost run: Run)
    requires SigningGroup(group) && point.Valid(group.c) && (group.precomp != null ==> point !in group.precomp.points)
    requires point != group.generator && point != pubKey
    requires pubKey.Valid(group.c) && pubKey.Value(group.c) == Q && OnCurve(group.c, Q)
    modifies point
    ensures point.Valid(group.c) && SigningGroup(group)
    ensures TermsOutcome(group, u1, u2, Q, point.Value(group.c), run)
    ensures CleanTerms(group, u1, u2, Q) ==>
      point.Value(group.c) == AffAdd(group.c, Mul(group.c, u2, Q), Mul(group.c, u1, GeneratorValue(group)))
  {
    hide OnCurve, Mul, Associative, Prime, AffAdd, ToAffine, CleanTables, Total, EcPreComp.WellFormed,
         EcPreComp.Base, ValidField, NumBits, IsRun, GeneratorRun, Outcome, KeepsEntries, EcPreComp.Shaped;
    SameTotal(group.c, GeneratorValue(group), Q, u1, u2);
    var ok;
    ok, run := WnafMul(group, point, Some(u1), [pubKey], [u2], [Q]);
  }

  /** A public key of the order of the group keeps the tables clean. */
  lemma OrderKeepsClean(group: EcGroup, u1: nat, u2: nat, Q: Affine)
    requires SigningGroup(group) && OnCurve(group.c, Q) && HasOrder(group.c, Q, group.order)
    requires u1 < group.order && u2 < group.order
    ensures CleanTerms(group, u1, u2, Q)
  {
    hide OnCurve, Mul, Associative, Prime, CleanTables, EcPreComp.WellFormed, EcPreComp.Base, ValidField, NumBits;
    NumBitsMono(u1, group.order);
    NumBitsMono(u2, group.order);
    PrimeOrderIsClean(group.c, Some(u1), TableUsed(group, Some(u1)), GeneratorValue(group), [u2], [Q], group.order);
  }

  function U1(n: nat, m: nat, sig: Signature): nat
    requires InRange(n, sig)
  {
    (m * Inv(n, sig.s)) % n
  }

  function U2(n: nat, sig: Signature): nat
    requires InRange(n, sig)
  {
    (sig.r * Inv(n, sig.s)) % n
  }

  /** What both terms make of a pair in range: the point R, and the verdict on its x coordinate. */
  ghost predicate Judged(key: EcKey, sig: Signature, m: nat, Q: Affine, ret: int, R: Affine, run: Run)
    requires SigningGroup(key.group) && key.group.order > 0 && OnCurve(key.group.c, Q) && InRange(key.group.order, sig)
    reads key.group, key.group.generator, key.group.precomp
    reads if key.group.precomp == null then [] else key.group.precomp.points
  {
    var n, u1, u2 := key.group.order, U1(key.group.order, m, sig), U2(key.group.order, sig);
    && TermsOutcome(key.group, u1, u2, Q, R, run)
    && (CleanTerms(key.group, u1, u2, Q) ==> R == VerifyPoint(key.group.c, n, GeneratorValue(key.group), Q, m, sig))
    && ret == if R == Infinity then -1 else if R.x % n == sig.r then 1 else 0
  }

  /** From the inverse w of s on: both scalars, the combined point, and its x coordinate. */
  method CompareX(key: EcKey, sig: Signature, w: nat, m: nat, ghost Q: Affine) returns (ret: int, ghost R: Affine, ghost run: Run)
    requires SigningGroup(key.group) && key.pubKey.Valid(key.group.c) && key.pubKey.Value(key.group.c) == Q
    requires OnCurve(key.group.c, Q) && key.group.order > 0 && InRange(key.group.order, sig) && w == Inv(key.group.order, sig.s)
    ensures SigningGroup(key.group) && Judged(key, sig, m, Q, ret, R, run)
  {
    hide OnCurve, Mul, Associative, Prime, AffAdd, ToAffine, EcPreComp.WellFormed, EcPreComp.Base, ValidField, Cong,
         NumBits, TermsOutcome, CleanTerms, Inv;
    var order := key.group.order;
    var u1 := (m * w) % order;
    var u2 := (sig.r * w) % order;
    var point := new EcPoint();
    FreshIsValid(key.group.c, point);
    run := TwoTerms(key.group, point, u1, key.pubKey, u2, Q);
    R := point.Value(key.group.c);
    var ok, x, _ := GetAffineCoordinates(key.group.c, point);
    if !ok {
      return -1, R, run;
    }
    u1 := x % order;
    ret := if u1 == sig.r then 1 else 0;
  }

  /** With a public key of the order of the group the verdict is the verifying equation's. */
  lemma JudgedIsAccepts(key: EcKey, sig: Signature, m: nat, Q: Affine, ret: int, R: Affine, run: Run)
    requires SigningGroup(key.group) && key.group.order > 0 && InRange(key.group.order, sig)
    requires OnCurve(key.group.c, Q) && HasOrder(key.group.c, Q, key.group.order) && Judged(key, sig, m, Q, ret, R, run)
    ensures ret == 1 <==> Accepts(key.group.c, key.group.order, GeneratorValue(key.group), Q, m, sig)
    ensures ret == -1 <==> VerifyPoint(key.group.c, key.group.order, GeneratorValue(key.group), Q, m, sig) == Infinity
  {
    hide OnCurve, Mul, Associative, Prime, EcPreComp.WellFormed, EcPreComp.Base, ValidField, Inv, TermsOutcome, CleanTerms,
         VerifyPoint, HasOrder;
    OrderKeepsClean(key.group, U1(key.group.order, m, sig), U2(key.group.order, sig), Q);
  }

  /**
   ecdsa_do_verify, for any public point Q of the curve: 1 exactly if the point R that ec_wNAF_mul
   makes of both terms has the right x coordinate, -1 exactly if it is infinity, 0 otherwise.  R is
   the point of the verifying equation if the tables convert cleanly, and they do if Q has the order
   of the group.
   */
  method DoVerify(dgst: seq<Byte>, sig: Signature, key: EcKey, ghost Q: Affine)
    returns (ret: int, ghost R: Affine, ghost run: Run)
    requires SigningGroup(key.group) && key.pubKey.Valid(key.group.c) && key.pubKey.Value(key.group.c) == Q
    requires OnCurve(key.group.c, Q)
    ensures SigningGroup(key.group) && key.group.order > 0
    ensures !(0 < sig.r < key.group.order && 0 < sig.s < key.group.order) ==> ret == 0
    ensures InRange(key.group.order, sig) ==>
      Judged(key, sig, DigestValue(dgst, NumBits(key.group.order)), Q, ret, R, run)
    ensures HasOrder(key.group.c, Q, key.group.order) ==>
      (ret == 1 <==> Accepts(key.group.c, key.group.order, GeneratorValue(key.group), Q,
                             DigestValue(dgst, NumBits(key.group.order)), sig))
  {
    hide OnCurve, Mul, Associative, Prime, ToAffine, EcPreComp.WellFormed, EcPreComp.Base, ValidField,
         NumBits, DigestValue, Judged, VerifyPoint, Inv, HasOrder;
    var order := key.group.order;
    OrderIsPrime(key.group.c, GeneratorValue(key.group), order);
    R, run := Infinity, Run([], [], [], [], 0);
    if sig.r == 0 || sig.r < 0 || sig.r >= order || sig.s == 0 || sig.s < 0 || sig.s >= order {
      return 0, R, run;
    }
    var u2 := Inv(order, sig.s);
    var m := DigestToM(dgst, order);
    ret, R, run := CompareX(key, sig, u2, m, Q);
    if HasOrder(key.group.c, Q, order) {
      JudgedIsAccepts(key, sig, m, Q, ret, R, run);
    }
  }

  /** Whatever a key signs, the same key verifies. */
  method SignThenVerify(dgst: seq<Byte>, key: EcKey, draws: seq<nat>) returns (sig: Option<Signature>, ret: int)
    requires SigningGroup(key.group) && 0 < key.privKey < key.group.order
    requires key.pubKey.Valid(key.group.c)
    requires key.pubKey.Value(key.group.c) == Mul(key.group.c, key.privKey, GeneratorValue(key.group))
    requires forall i :: 0 <= i < |draws| ==> draws[i] < key.group.order
    ensures sig.Some? ==> ret == 1
  {
    hide OnCurve, Mul, Associative, Prime, AffAdd, ToAffine, EcPreComp.WellFormed, EcPreComp.Base, ValidField, Cong,
         NumBits, DigestValue, Accepts, FromNonce, Signs;
    ret := -1;
    ghost var c, n, G, d := key.group.c, key.group.order, GeneratorValue(key.group), key.privKey;
    ghost var k, kinv, i;
    sig, k, kinv, i := DoSign(dgst, None, None, key, draws);
    if sig.Some? {
      MultipleHasOrder(c, G, n, d);
      SignatureAccepted(c, n, G, d, DigestValue(dgst, NumBits(n)), k, kinv, sig.value);
      ghost var R, run;
      ret, R, run := DoVerify(dgst, sig.value, key, Mul(c, d, G));
    }
  }
}
