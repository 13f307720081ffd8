/**
 The prime field in Montgomery form (libabi/pssl/ecp_mont.c).  A field element x is stored
 as x*R modulo p; the operations below are the contracts of the BIGNUM calls.
 */
module Field {
  import opened Modular

  /** `field`, and the Montgomery factor R of field_data1 together with its inverse. */
  datatype Field = Field(p: nat, r: nat, rinv: nat)

  ghost predicate ValidField(f: Field) {
    && f.p > 3
    && f.p % 2 == 1
    && Prime(f.p)
    && Cong(f.p, f.r * f.rinv, 1)
  }

  function Encode(f: Field, a: int): (v: nat)
    requires f.p > 0
    ensures v < f.p
  {
    (a * f.r) % f.p
  }

  function Decode(f: Field, v: int): (a: nat)
    requires f.p > 0
    ensures a < f.p
  {
    (v * f.rinv) % f.p
  }

  /** BN_mod_mul_montgomery: the product with one factor R removed. */
  function FieldMul(f: Field, a: int, b: int): (v: nat)
    requires f.p > 0
    ensures v < f.p
  {
    (a * b * f.rinv) % f.p
  }

  function FieldSqr(f: Field, a: int): (v: nat)
    requires f.p > 0
    ensures v < f.p
  {
    FieldMul(f, a, a)
  }

  /** field_data2, the Montgomery form of one. */
  function One(f: Field): (v: nat)
    requires f.p > 0
    ensures v < f.p
  {
    f.r % f.p
  }

  // ---------- what decoding does to each operation ----------

  lemma DecodeCong(f: Field, v: int)
    requires f.p > 0
    ensures Cong(f.p, Decode(f, v), v * f.rinv)
  {
    CongMod(f.p, v * f.rinv);
  }

  lemma DecodeResidue(f: Field, v: int, w: int)
    requires f.p > 0 && Cong(f.p, v, w)
    ensures Decode(f, v) == Decode(f, w)
  {
    CongScale(f.p, v, w, f.rinv);
    CongSameMod(f.p, v * f.rinv, w * f.rinv);
  }

  lemma DecodeMul(f: Field, a: int, b: int)
    requires f.p > 0
    ensures Cong(f.p, Decode(f, FieldMul(f, a, b)), Decode(f, a) * Decode(f, b))
  {
    hide Cong, Decode;
    var p, t, m := f.p, f.rinv, FieldMul(f, a, b);
    DecodeCong(f, a);
    DecodeCong(f, b);
    DecodeCong(f, m);
    CongMod(p, a * b * t);
    CongScale(p, m, a * b * t, t);
    CongTrans(p, Decode(f, m), m * t, a * b * t * t);
    CongMul(p, Decode(f, a), a * t, Decode(f, b), b * t);
    assert (a * t) * (b * t) == a * b * t * t;
    CongSym(p, Decode(f, a) * Decode(f, b), a * b * t * t);
    CongTrans(p, Decode(f, m), a * b * t * t, Decode(f, a) * Decode(f, b));
  }

  lemma DecodeAdd(f: Field, a: int, b: int)
    requires f.p > 0
    ensures Cong(f.p, Decode(f, ModAddQuick(a, b, f.p)), Decode(f, a) + Decode(f, b))
  {
    hide Cong, Decode, ModAddQuick, ModSubQuick;
    var p, t := f.p, f.rinv;
    QuickCong(p, a, b);
    DecodeResidue(f, ModAddQuick(a, b, p), a + b);
    DecodeCong(f, a + b);
    DecodeCong(f, a);
    DecodeCong(f, b);
    CongAdd(p, Decode(f, a), a * t, Decode(f, b), b * t);
    assert a * t + b * t == (a + b) * t;
    CongSym(p, Decode(f, a) + Decode(f, b), (a + b) * t);
    CongTrans(p, Decode(f, a + b), (a + b) * t, Decode(f, a) + Decode(f, b));
  }

  lemma DecodeSub(f: Field, a: int, b: int)
    requires f.p > 0
    ensures Cong(f.p, Decode(f, ModSubQuick(a, b, f.p)), Decode(f, a) - Decode(f, b))
  {
    hide Cong, Decode, ModAddQuick, ModSubQuick;
    var p, t := f.p, f.rinv;
    QuickCong(p, a, b);
    DecodeResidue(f, ModSubQuick(a, b, p), a - b);
    DecodeCong(f, a - b);
    DecodeCong(f, a);
    DecodeCong(f, b);
    CongSub(p, Decode(f, a), a * t, Decode(f, b), b * t);
    assert a * t - b * t == (a - b) * t;
    CongSym(p, Decode(f, a) - Decode(f, b), (a - b) * t);
    CongTrans(p, Decode(f, a - b), (a - b) * t, Decode(f, a) - Decode(f, b));
  }

  lemma DecodeEncode(f: Field, a: int)
    requires f.p > 0 && Cong(f.p, f.r * f.rinv, 1)
    ensures Decode(f, Encode(f, a)) == a % f.p
  {
    hide Cong;
    var p := f.p;
    CongMod(p, a * f.r);
    DecodeResidue(f, Encode(f, a), a * f.r);
    CongScale(p, f.r * f.rinv, 1, a);
    assert (f.r * f.rinv) * a == (a * f.r) * f.rinv && 1 * a == a;
    CongSameMod(p, a * f.r * f.rinv, a);
  }

  lemma EncodeDecode(f: Field, v: nat)
    requires f.p > 0 && v < f.p && Cong(f.p, f.r * f.rinv, 1)
    ensures Encode(f, Decode(f, v)) == v
  {
    hide Cong;
    var p := f.p;
    DecodeCong(f, v);
    CongScale(p, Decode(f, v), v * f.rinv, f.r);
    CongScale(p, f.r * f.rinv, 1, v);
    assert (f.r * f.rinv) * v == v * f.rinv * f.r && 1 * v == v;
    CongTrans(p, Decode(f, v) * f.r, v * f.rinv * f.r, v);
    CongIsMod(p, Decode(f, v) * f.r, v);
  }

  // Decoding is one-to-one on reduced values.
  lemma DecodeInjective(f: Field, v: nat, w: nat)
    requires f.p > 0 && v < f.p && w < f.p && Cong(f.p, f.r * f.rinv, 1)
    requires Decode(f, v) == Decode(f, w)
    ensures v == w
  {
    hide Cong, Decode;
    EncodeDecode(f, v);
    EncodeDecode(f, w);
  }

  lemma DecodeZero(f: Field, v: nat)
    requires f.p > 0 && v < f.p && Cong(f.p, f.r * f.rinv, 1)
    ensures Decode(f, v) == 0 <==> v == 0
  {
    hide Cong;
    assert 0 * f.rinv == 0;
    DivModUnique(0, f.p, 0, 0);
    assert Decode(f, 0) == 0;
    if Decode(f, v) == 0 {
      DecodeInjective(f, v, 0);
    }
  }

  lemma DecodeOne(f: Field)
    requires f.p > 1 && Cong(f.p, f.r * f.rinv, 1)
    ensures Decode(f, One(f)) == 1 && One(f) != 0
  {
    hide Cong;
    CongMod(f.p, f.r);
    DecodeResidue(f, One(f), f.r);
    CongIsMod(f.p, f.r * f.rinv, 1);
    DecodeZero(f, One(f));
  }

  /** The halving step of ec_GFp_simple_add: add p to an odd value, then shift. */
  function Halve(f: Field, n: nat): (h: nat)
    ensures f.p % 2 == 1 && n < f.p ==> h < f.p
  {
    if n % 2 == 1 then (n + f.p) / 2 else n / 2
  }

  lemma DecodeHalve(f: Field, n: nat)
    requires f.p > 0 && f.p % 2 == 1 && n < f.p
    ensures Cong(f.p, 2 * Decode(f, Halve(f, n)), Decode(f, n))
  {
    hide Cong, Decode;
    var p, h := f.p, Halve(f, n);
    assert 2 * h == n || 2 * h == n + p;
    HalveCong(f, n, h);
  }

  lemma HalveCong(f: Field, n: int, h: int)
    requires f.p > 0 && (2 * h == n || 2 * h == n + f.p)
    ensures Cong(f.p, 2 * Decode(f, h), Decode(f, n))
  {
    hide Cong, Decode;
    var p, t := f.p, f.rinv;
    DecodeCong(f, h);
    CongScale(p, Decode(f, h), h * t, 2);
    CongIntro(p, 2 * h, n, if 2 * h == n then 0 else 1);
    DecodeResidue(f, 2 * h, n);
    DecodeCong(f, 2 * h);
    assert h * t * 2 == (2 * h) * t && Decode(f, h) * 2 == 2 * Decode(f, h);
    CongSym(p, Decode(f, 2 * h), (2 * h) * t);
    CongTrans(p, 2 * Decode(f, h), (2 * h) * t, Decode(f, 2 * h));
  }
}
