/**
 Congruences, primality and modular inverses over unbounded integers.  This is the
 contract of the BIGNUM operations that the elliptic-curve code calls.
 */
module Modular {

  // ---------- division ----------

  lemma MulBig(k: int, p: int)
    requires p > 0
    ensures k >= 1 ==> k * p >= p
    ensures k <= -1 ==> k * p <= -p
  {
    if k >= 1 { assert (k - 1) * p >= 0; }
    if k <= -1 { assert (k + 1) * p <= 0; }
  }

  // Quotient and remainder are determined by the division equation.
  lemma DivModUnique(a: int, p: int, q: int, r: int)
    requires p > 0 && 0 <= r < p && a == q * p + r
    ensures a / p == q && a % p == r
  {
    assert a == (a / p) * p + a % p;
    assert (q - a / p) * p == a % p - r;
    MulBig(q - a / p, p);
  }

  // ---------- congruence ----------

  predicate Cong(p: int, a: int, b: int)
    requires p > 0
  {
    (a - b) % p == 0
  }

  lemma CongIntro(p: int, a: int, b: int, k: int)
    requires p > 0 && a - b == k * p
    ensures Cong(p, a, b)
  {
    DivModUnique(a - b, p, k, 0);
  }

  lemma CongElim(p: int, a: int, b: int) returns (k: int)
    requires p > 0 && Cong(p, a, b)
    ensures a - b == k * p
  {
    k := (a - b) / p;
  }

  lemma CongRefl(p: int, a: int)
    requires p > 0
    ensures Cong(p, a, a)
  {
    CongIntro(p, a, a, 0);
  }

  lemma CongSym(p: int, a: int, b: int)
    requires p > 0 && Cong(p, a, b)
    ensures Cong(p, b, a)
  {
    var k := CongElim(p, a, b);
    assert b - a == (-k) * p;
    CongIntro(p, b, a, -k);
  }

  lemma CongAdd(p: int, a: int, b: int, c: int, d: int)
    requires p > 0 && Cong(p, a, b) && Cong(p, c, d)
    ensures Cong(p, a + c, b + d)
  {
    var k := CongElim(p, a, b);
    var l := CongElim(p, c, d);
    assert (a + c) - (b + d) == (k + l) * p;
    CongIntro(p, a + c, b + d, k + l);
  }

  lemma CongSub(p: int, a: int, b: int, c: int, d: int)
    requires p > 0 && Cong(p, a, b) && Cong(p, c, d)
    ensures Cong(p, a - c, b - d)
  {
    var k := CongElim(p, a, b);
    var l := CongElim(p, c, d);
    assert (a - c) - (b - d) == (k - l) * p;
    CongIntro(p, a - c, b - d, k - l);
  }

  lemma CongTrans(p: int, a: int, b: int, c: int)
    requires p > 0 && Cong(p, a, b) && Cong(p, b, c)
    ensures Cong(p, a, c)
  {
    CongAdd(p, a, b, b, c);
    assert (a + b) - (b + c) == a - c;
  }

  lemma CongScale(p: int, a: int, b: int, c: int)
    requires p > 0 && Cong(p, a, b)
    ensures Cong(p, a * c, b * c)
  {
    var k := CongElim(p, a, b);
    assert a * c - b * c == (a - b) * c == (k * p) * c == (k * c) * p;
    CongIntro(p, a * c, b * c, k * c);
  }

  lemma CongMul(p: int, a: int, b: int, c: int, d: int)
    requires p > 0 && Cong(p, a, b) && Cong(p, c, d)
    ensures Cong(p, a * c, b * d)
  {
    CongScale(p, a, b, c);
    CongScale(p, c, d, b);
    CongTrans(p, a * c, b * c, b * d);
  }

  lemma CongMod(p: int, a: int)
    requires p > 0
    ensures Cong(p, a % p, a) && Cong(p, a, a % p)
  {
    assert a % p - a == (-(a / p)) * p;
    CongIntro(p, a % p, a, -(a / p));
    CongSym(p, a % p, a);
  }

  // Two residues are congruent exactly when they are equal.
  lemma CongResidues(p: int, a: int, b: int)
    requires p > 0 && 0 <= a < p && 0 <= b < p && Cong(p, a, b)
    ensures a == b
  {
    var k := CongElim(p, a, b);
    MulBig(k, p);
  }

  lemma CongIsMod(p: int, a: int, b: int)
    requires p > 0 && 0 <= b < p && Cong(p, a, b)
    ensures a % p == b
  {
    CongMod(p, a);
    CongTrans(p, a % p, a, b);
    CongResidues(p, a % p, b);
  }

  // A congruence that is a combination of one, two or three known ones.
  lemma CongComb1(p: int, a: int, b: int, c1: int, u1: int, v1: int)
    requires p > 0 && Cong(p, u1, v1)
    requires a - b == c1 * (u1 - v1)
    ensures Cong(p, a, b)
  {
    var k := CongElim(p, u1, v1);
    assert c1 * (u1 - v1) == (c1 * k) * p;
    CongIntro(p, a, b, c1 * k);
  }

  lemma CongComb2(p: int, a: int, b: int, c1: int, u1: int, v1: int, c2: int, u2: int, v2: int)
    requires p > 0 && Cong(p, u1, v1) && Cong(p, u2, v2)
    requires a - b == c1 * (u1 - v1) + c2 * (u2 - v2)
    ensures Cong(p, a, b)
  {
    hide Cong;
    var d1, d2 := c1 * (u1 - v1), c2 * (u2 - v2);
    CongComb1(p, d1, 0, c1, u1, v1);
    CongComb1(p, d2, 0, c2, u2, v2);
    CongAdd(p, d1, 0, d2, 0);
    CongComb1(p, a, b, 1, d1 + d2, 0);
  }

  lemma CongComb3(p: int, a: int, b: int, c1: int, u1: int, v1: int, c2: int, u2: int, v2: int,
                  c3: int, u3: int, v3: int)
    requires p > 0 && Cong(p, u1, v1) && Cong(p, u2, v2) && Cong(p, u3, v3)
    requires a - b == c1 * (u1 - v1) + c2 * (u2 - v2) + c3 * (u3 - v3)
    ensures Cong(p, a, b)
  {
    hide Cong;
    var d := c1 * (u1 - v1) + c2 * (u2 - v2);
    CongComb2(p, d, 0, c1, u1, v1, c2, u2, v2);
    CongComb2(p, a, b, 1, d, 0, c3, u3, v3);
  }

  lemma CongZero(p: int, a: int)
    requires p > 0
    ensures Cong(p, a, 0) <==> a % p == 0
  {
  }

  lemma CongSameMod(p: int, a: int, b: int)
    requires p > 0 && Cong(p, a, b)
    ensures a % p == b % p
  {
    CongMod(p, b);
    CongTrans(p, a, b, b % p);
    CongIsMod(p, a, b % p);
  }

  // ---------- primes and inverses ----------

  predicate Divides(d: nat, n: int)
    requires d > 0
  {
    n % d == 0
  }

  ghost predicate Prime(p: nat) {
    p >= 2 && forall d :: 1 < d < p ==> !Divides(d, p)
  }

  /** BN_mod_inverse on a residue, by the Euclidean remainder sequence. */
  function Inv(p: nat, a: nat): (i: nat)
    requires 0 <= a < p
    ensures 0 <= i < p
    ensures a == 0 ==> i == 0
    decreases a
  {
    if a == 0 then 0
    else if a == 1 then 1
    else
      InvBack(p, p / a, Inv(p, p % a))
  }

  // One step back up the remainder sequence.
  function InvBack(p: nat, q: int, j: int): (i: nat)
    requires p > 0
    ensures 0 <= i < p
  {
    (-q * j) % p
  }

  lemma {:induction false} InvCorrect(p: nat, a: nat)
    requires Prime(p) && 0 < a < p
    ensures Cong(p, a * Inv(p, a), 1)
    ensures 0 < Inv(p, a)
    decreases a
  {
    if a == 1 {
      CongRefl(p, 1);
    } else {
      assert !Divides(a, p);
      InvCorrect(p, p % a);
      InvBackCorrect(p, a, p / a, p % a, Inv(p, p % a));
    }
    InvNonzero(p, a, Inv(p, a));
  }

  lemma InvBackCorrect(p: nat, a: nat, q: int, r: int, j: int)
    requires 0 < a < p && q == p / a && r == p % a && Cong(p, r * j, 1)
    ensures Cong(p, a * InvBack(p, q, j), 1)
  {
    InvStep(p, a, q, r, j);
    InvReduce(p, a, -q * j);
  }

  lemma InvReduce(p: nat, a: int, i: int)
    requires p > 0 && Cong(p, a * i, 1)
    ensures Cong(p, a * (i % p), 1)
  {
    CongMod(p, i);
    CongScale(p, i % p, i, a);
    assert (i % p) * a == a * (i % p) && i * a == a * i;
    CongTrans(p, a * (i % p), a * i, 1);
  }

  lemma InvNonzero(p: nat, a: int, i: int)
    requires p > 1 && Cong(p, a * i, 1)
    ensures i != 0
  {
    if i == 0 {
      assert a * i == 0;
      CongSym(p, 0, 1);
      CongResidues(p, 1, 0);
    }
  }

  lemma InvStep(p: nat, a: int, q: int, r: int, j: int)
    requires p > 0 && p == a * q + r && Cong(p, r * j, 1)
    ensures Cong(p, a * (-q * j), 1)
  {
    var k := CongElim(p, r * j, 1);
    assert a * (-q * j) == -(a * q) * j == (r - p) * j == r * j - p * j;
    assert a * (-q * j) - 1 == k * p - j * p == (k - j) * p;
    CongIntro(p, a * (-q * j), 1, k - j);
  }

  // Every value that is not zero modulo a prime has an inverse.
  lemma InverseExists(p: nat, c: int) returns (i: int)
    requires Prime(p) && !Cong(p, c, 0)
    ensures Cong(p, c * i, 1)
  {
    var m := c % p;
    i := Inv(p, m);
    InvCorrect(p, m);
    CongMod(p, c);
    CongScale(p, c, m, i);
    CongTrans(p, c * i, m * i, 1);
  }

  lemma CancelWith(p: nat, a: int, b: int, c: int, i: int)
    requires p > 0 && Cong(p, c * i, 1) && Cong(p, a * c, b * c)
    ensures Cong(p, a, b)
  {
    CongScale(p, a * c, b * c, i);
    CancelSide(p, a, c, i);
    CancelSide(p, b, c, i);
    assert a * c * i == a * (c * i) && b * c * i == b * (c * i);
    CongTrans(p, a, a * (c * i), b * (c * i));
    CongSym(p, b, b * (c * i));
    CongTrans(p, a, b * (c * i), b);
  }

  // A residue that is not zero can be cancelled.
  lemma CongCancel(p: nat, a: int, b: int, c: int)
    requires Prime(p) && !Cong(p, c, 0) && Cong(p, a * c, b * c)
    ensures Cong(p, a, b)
  {
    var i := InverseExists(p, c);
    CancelWith(p, a, b, c, i);
  }

  lemma CancelSide(p: nat, a: int, c: int, i: int)
    requires p > 0 && Cong(p, c * i, 1)
    ensures Cong(p, a, a * (c * i))
  {
    CongScale(p, c * i, 1, a);
    assert (c * i) * a == a * (c * i) && 1 * a == a;
    CongSym(p, a * (c * i), a);
  }

  // A prime that divides a product divides a factor.
  lemma CongProductZero(p: nat, a: int, b: int)
    requires Prime(p) && Cong(p, a * b, 0)
    ensures Cong(p, a, 0) || Cong(p, b, 0)
  {
    if !Cong(p, b, 0) {
      assert 0 * b == 0;
      CongCancel(p, a, 0, b);
    }
  }

  // ---------- the reduced-operand helpers of BIGNUM ----------

  /** BN_mod_add_quick: at most one subtraction of the modulus. */
  function ModAddQuick(a: int, b: int, m: int): (r: int)
    ensures 0 <= a < m && 0 <= b < m ==> 0 <= r < m
  {
    if a + b >= m then a + b - m else a + b
  }

  /** BN_mod_sub_quick: at most one addition of the modulus. */
  function ModSubQuick(a: int, b: int, m: int): (r: int)
    ensures 0 <= a < m && 0 <= b < m ==> 0 <= r < m
  {
    if a - b < 0 then a - b + m else a - b
  }

  /** BN_mod_lshift1_quick. */
  function ModDblQuick(a: int, m: int): (r: int)
    ensures 0 <= a < m ==> 0 <= r < m
  {
    ModAddQuick(a, a, m)
  }

  lemma QuickCong(p: nat, a: int, b: int)
    requires p > 0
    ensures Cong(p, ModAddQuick(a, b, p), a + b)
    ensures Cong(p, ModSubQuick(a, b, p), a - b)
  {
    CongIntro(p, a + b - p, a + b, -1);
    CongIntro(p, a - b + p, a - b, 1);
    CongRefl(p, a + b);
    CongRefl(p, a - b);
  }

  // Two divisions in a row, in terms of the product of the divisors.
  lemma SplitMod(v: int, h: int, p: int, l: int, m: int, q: int, r: int)
    requires v == h * p + l && 0 <= l < p && h == q * m + r && 0 <= r < m
    ensures v == q * (m * p) + (r * p + l) && 0 <= r * p + l < m * p
  {
    PositiveProduct(r, p);
    PositiveProduct(m - 1 - r, p);
    TwoPlaces(q, m, p, r, l);
    assert (m - 1 - r) * p == m * p - p - r * p;
  }

  lemma TwoPlaces(q: int, m: int, p: int, r: int, l: int)
    ensures (q * m + r) * p + l == q * (m * p) + (r * p + l)
  {
  }

  lemma PositiveProduct(a: int, b: int)
    requires a >= 0 && b >= 0
    ensures a * b >= 0
  {
  }
}
