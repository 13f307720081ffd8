/** Powers of two and bit lengths. */
module Power {

  function Pow2(k: nat): (r: nat)
    ensures r > 0
  {
    if k == 0 then 1 else 2 * Pow2(k - 1)
  }

  lemma {:induction false} Pow2Add(i: nat, j: nat)
    ensures Pow2(i + j) == Pow2(i) * Pow2(j)
  {
    if i > 0 {
      Pow2Add(i - 1, j);
      assert Pow2(i + j) == 2 * (Pow2(i - 1) * Pow2(j)) == (2 * Pow2(i - 1)) * Pow2(j);
    }
  }

  lemma {:induction false} Pow2Mono(i: nat, j: nat)
    requires i <= j
    ensures Pow2(i) <= Pow2(j)
    decreases j - i
  {
    if i < j {
      Pow2Mono(i, j - 1);
    }
  }

  lemma Pow2StrictMono(i: nat, j: nat)
    requires i < j
    ensures 2 * Pow2(i) <= Pow2(j)
  {
    Pow2Mono(i + 1, j);
  }

  /** BN_num_bits of a magnitude. */
  function NumBits(n: nat): nat {
    if n == 0 then 0 else 1 + NumBits(n / 2)
  }

  lemma {:induction false} NumBitsBounds(n: nat)
    ensures n < Pow2(NumBits(n))
    ensures n > 0 ==> NumBits(n) > 0 && Pow2(NumBits(n) - 1) <= n
  {
    if n > 0 {
      NumBitsBounds(n / 2);
    }
  }

  lemma NumBitsUnique(n: nat, b: nat)
    requires Pow2(b) <= n < Pow2(b + 1)
    ensures NumBits(n) == b + 1
  {
    NumBitsBounds(n);
    if NumBits(n) < b + 1 {
      Pow2Mono(NumBits(n), b);
    }
    if NumBits(n) > b + 1 {
      Pow2Mono(b + 1, NumBits(n) - 1);
    }
  }

  lemma {:induction false} NumBitsMono(m: nat, n: nat)
    requires m <= n
    ensures NumBits(m) <= NumBits(n)
  {
    if m > 0 {
      NumBitsMono(m / 2, n / 2);
    }
  }

  lemma Pow2Zero()
    ensures Pow2(0) == 1
  {
  }
}
