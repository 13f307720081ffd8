/** Bytes and big-endian numbers, shared by the binary formats. */
module Bytes {

  type Byte = x: int | 0 <= x < 256 witness 0

  function BigEndian(bs: seq<Byte>): nat {
    if |bs| == 0 then 0 else BigEndian(bs[..|bs| - 1]) * 256 + bs[|bs| - 1]
  }

  function Pow256(n: nat): (p: nat)
    ensures p > 0
  {
    if n == 0 then 1 else 256 * Pow256(n - 1)
  }

  lemma {:induction false} BigEndianConcat(a: seq<Byte>, b: seq<Byte>)
    ensures BigEndian(a + b) == BigEndian(a) * Pow256(|b|) + BigEndian(b)
  {
    if |b| == 0 {
      assert a + b == a;
    } else {
      var init, last := b[..|b| - 1], b[|b| - 1];
      assert (a + b)[..|a + b| - 1] == a + init;
      BigEndianConcat(a, init);
      ShiftSum(BigEndian(a), Pow256(|init|), BigEndian(init));
    }
  }

  lemma ShiftSum(x: int, p: int, y: int)
    ensures (x * p + y) * 256 == x * (256 * p) + y * 256
  {
  }

  lemma {:induction false} BigEndianBelow(bs: seq<Byte>)
    ensures BigEndian(bs) < Pow256(|bs|)
  {
    if |bs| > 0 {
      BigEndianBelow(bs[..|bs| - 1]);
    }
  }

  /** The low n bytes of v, most significant first. */
  function LowBytes(v: nat, n: nat): (bs: seq<Byte>)
    ensures |bs| == n
  {
    if n == 0 then [] else LowBytes(v / 256, n - 1) + [v % 256]
  }

  /** v shifted right by n bytes. */
  function ShiftBytes(v: nat, n: nat): nat {
    if n == 0 then v else ShiftBytes(v / 256, n - 1)
  }

  lemma {:induction false} SplitBytes(v: nat, n: nat)
    ensures v == ShiftBytes(v, n) * Pow256(n) + BigEndian(LowBytes(v, n))
  {
    if n > 0 {
      SplitBytes(v / 256, n - 1);
      ShiftSum(ShiftBytes(v, n), Pow256(n - 1), BigEndian(LowBytes(v / 256, n - 1)));
    }
  }

  lemma {:induction false} LowBytesOfBigEndian(bs: seq<Byte>)
    ensures LowBytes(BigEndian(bs), |bs|) == bs
  {
    if |bs| > 0 {
      LowBytesOfBigEndian(bs[..|bs| - 1]);
    }
  }

  /** A number below 256^n is recovered from its n bytes. */
  lemma BigEndianOfLowBytes(v: nat, n: nat)
    requires v < Pow256(n)
    ensures BigEndian(LowBytes(v, n)) == v
  {
    SplitBytes(v, n);
    if ShiftBytes(v, n) > 0 {
      ProductAtLeast(ShiftBytes(v, n), Pow256(n));
    }
  }

  lemma ProductAtLeast(a: nat, p: nat)
    requires a > 0
    ensures a * p >= p
  {
    assert (a - 1) * p >= 0;
  }
}
