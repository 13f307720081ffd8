/** The integer that ECDSA takes from a message digest (libabi/pssl/ecs_ossl.c). */
module Digest {
  import opened Modular
  import opened Power
  import opened Wnaf
  import opened Bytes

  /** Whole bytes beyond the bit length of the order are dropped, then the excess bits. */
  function DigestValue(dgst: seq<Byte>, bits: nat): nat {
    var len := if 8 * |dgst| > bits then (bits + 7) / 8 else |dgst|;
    var m := BigEndian(dgst[..len]);
    if 8 * len > bits then Quot(m, 8 - bits % 8) else m
  }

  lemma {:induction false} BigEndianBound(bs: seq<Byte>)
    ensures BigEndian(bs) < Pow2(8 * |bs|)
  {
    if |bs| == 0 {
      assert Pow2(0) == 1;
    } else {
      BigEndianBound(bs[..|bs| - 1]);
      BytePower(|bs| - 1);
    }
  }

  lemma BytePower(k: nat)
    ensures Pow2(8 * (k + 1)) == 256 * Pow2(8 * k)
  {
    Pow2Add(8, 8 * k);
    assert Pow2(4) == 16 && Pow2(8) == 256;
  }

  lemma {:induction false} BigEndianPrefix(bs: seq<Byte>, n: nat)
    requires n <= |bs|
    ensures BigEndian(bs) / Pow2(8 * (|bs| - n)) == BigEndian(bs[..n])
    decreases |bs| - n
  {
    if n == |bs| {
      assert bs[..n] == bs && Pow2(0) == 1;
    } else {
      var init := bs[..|bs| - 1];
      BigEndianPrefix(init, n);
      assert init[..n] == bs[..n];
      BytePower(|bs| - 1 - n);
      var a := Pow2(8 * (|bs| - 1 - n));
      assert (BigEndian(init) * 256 + bs[|bs| - 1]) / 256 == BigEndian(init);
      DivDiv(BigEndian(bs), 256, a);
    }
  }

  lemma DivDiv(x: nat, a: nat, b: nat)
    requires a > 0 && b > 0
    ensures a * b > 0 && x / (a * b) == (x / a) / b
  {
    MulBig(b, a);
    assert b * a == a * b;
    var q := x / a;
    var s := q / b;
    SplitMod(x, q, a, x % a, b, s, q % b);
    DivModUnique(x, a * b, s, (q % b) * a + x % a);
  }

  /** The result is exactly the leftmost `bits` bits of the digest (section 4.1.3 of SEC 1). */
  lemma LeftmostBits(dgst: seq<Byte>, bits: nat)
    ensures DigestValue(dgst, bits) ==
      if 8 * |dgst| > bits then BigEndian(dgst) / Pow2(8 * |dgst| - bits) else BigEndian(dgst)
    ensures DigestValue(dgst, bits) < Pow2(bits)
  {
    hide Pow2, BigEndian;
    if 8 * |dgst| > bits {
      var len := (bits + 7) / 8;
      BigEndianPrefix(dgst, len);
      var cut := 8 * (|dgst| - len);
      if 8 * len > bits {
        var sh := 8 - bits % 8;
        assert 8 * len == bits + sh;
        ModQuot(BigEndian(dgst[..len]), sh);
        Pow2Add(cut, sh);
        DivDiv(BigEndian(dgst), Pow2(cut), Pow2(sh));
      }
      BigEndianBound(dgst);
      QuotientBound(BigEndian(dgst), 8 * |dgst|, 8 * |dgst| - bits);
    } else {
      assert dgst[..|dgst|] == dgst;
      BigEndianBound(dgst);
      Pow2Mono(8 * |dgst|, bits);
    }
  }

  lemma QuotientBound(x: nat, n: nat, k: nat)
    requires x < Pow2(n) && k <= n
    ensures x / Pow2(k) < Pow2(n - k)
  {
    Pow2Add(n - k, k);
    BoundByProduct(x, Pow2(k), Pow2(n - k));
  }

  lemma BoundByProduct(x: nat, a: nat, b: nat)
    requires a > 0 && x < b * a
    ensures x / a < b
  {
    var q := x / a;
    assert q * a <= x;
    var d := b - q;
    MulBig(d, a);
    assert d * a == b * a - q * a;
    MulBig(1 - d, a);
    assert (1 - d) * a == a - d * a;
  }
}
