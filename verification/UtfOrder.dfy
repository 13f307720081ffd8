/**
 What fixes both encodings of libmmbd/src/ConvertUTF.c without their formulas: they keep the order of
 the characters (RFC 3629, section 1; RFC 2781, section 2).
 */
module UtfOrder {
  import opened Bytes
  import opened Utf

  /** a stands before b, compared unit by unit. */
  predicate Before(a: seq<int>, b: seq<int>) {
    |a| > 0 && |b| > 0 && (a[0] < b[0] || (a[0] == b[0] && Before(a[1..], b[1..])))
  }

  function Ints(bs: seq<Byte>): (ns: seq<int>)
    ensures |ns| == |bs| && forall i :: 0 <= i < |bs| ==> ns[i] == bs[i]
  {
    seq(|bs|, i requires 0 <= i < |bs| => bs[i] as int)
  }

  lemma BeforeAt(a: seq<int>, b: seq<int>, k: nat)
    requires k < |a| && k < |b| && a[..k] == b[..k] && a[k] < b[k]
    ensures Before(a, b)
    decreases k
  {
    if k > 0 {
      assert a[0] == a[..k][0] == b[..k][0] == b[0];
      assert a[1..][..k - 1] == a[..k][1..] == b[..k][1..] == b[1..][..k - 1];
      BeforeAt(a[1..], b[1..], k - 1);
    }
  }

  // Digits in base 64 are compared from the top.
  lemma DigitOrder(a: int, b: int, a3: int, a2: int, a1: int, a0: int, b3: int, b2: int, b1: int, b0: int)
    requires a == 0x4_0000 * a3 + 0x1000 * a2 + 0x40 * a1 + a0 && b == 0x4_0000 * b3 + 0x1000 * b2 + 0x40 * b1 + b0
    requires 0 <= a2 < 0x40 && 0 <= a1 < 0x40 && 0 <= a0 < 0x40 && 0 <= b2 < 0x40 && 0 <= b1 < 0x40 && 0 <= b0 < 0x40
    requires a < b
    ensures a3 < b3 || (a3 == b3 && (a2 < b2 || (a2 == b2 && (a1 < b1 || (a1 == b1 && a0 < b0)))))
  {
  }

  // The bytes for w of them, from the digits.
  function Form(w: nat, d3: int, d2: int, d1: int, d0: int): seq<int> {
    if w == 1 then [0x40 * d1 + d0]
    else if w == 2 then [0xC0 + d1, 0x80 + d0]
    else if w == 3 then [0xE0 + d2, 0x80 + d1, 0x80 + d0]
    else [0xF0 + d3, 0x80 + d2, 0x80 + d1, 0x80 + d0]
  }

  lemma FormOf(ch: int)
    requires 0 <= ch <= 0x10_FFFF
    ensures Ints(Encode8(ch)) == Form(Width8(ch), ch / 0x4_0000, ch / 0x1000 % 0x40, ch / 0x40 % 0x40, ch % 0x40)
  {
    DigitsOf(ch);
    TopDigit(ch);
  }

  // The width shows in the digits.
  lemma WidthOfDigits(ch: int, d3: int, d2: int, d1: int, d0: int)
    requires 0 <= ch <= 0x10_FFFF && ch == 0x4_0000 * d3 + 0x1000 * d2 + 0x40 * d1 + d0
    requires 0 <= d2 < 0x40 && 0 <= d1 < 0x40 && 0 <= d0 < 0x40
    ensures 0 <= d3 <= 4
    ensures Width8(ch) < 4 ==> d3 == 0 && d2 <= 15
    ensures Width8(ch) < 3 ==> d2 == 0 && d1 < 32
    ensures Width8(ch) < 2 ==> d1 < 2
  {
  }

  lemma FormOrder(w: nat, v: nat, a3: int, a2: int, a1: int, a0: int, b3: int, b2: int, b1: int, b0: int)
    requires 1 <= w <= v <= 4 && 0 <= a3 <= 4 && 0 <= b3 <= 4
    requires 0 <= a2 < 0x40 && 0 <= a1 < 0x40 && 0 <= a0 < 0x40 && 0 <= b2 < 0x40 && 0 <= b1 < 0x40 && 0 <= b0 < 0x40
    requires (w < 4 ==> a3 == 0 && a2 <= 15) && (w < 3 ==> a2 == 0 && a1 < 32) && (w < 2 ==> a1 < 2)
    requires (v < 4 ==> b3 == 0 && b2 <= 15) && (v < 3 ==> b2 == 0 && b1 < 32) && (v < 2 ==> b1 < 2)
    requires a3 < b3 || (a3 == b3 && (a2 < b2 || (a2 == b2 && (a1 < b1 || (a1 == b1 && a0 < b0)))))
    ensures Before(Form(w, a3, a2, a1, a0), Form(v, b3, b2, b1, b0))
  {
    hide Before;
    var x, y := Form(w, a3, a2, a1, a0), Form(v, b3, b2, b1, b0);
    var k := if w < v || w == 1 || a3 != b3 then 0
      else if w == 4 then (if a2 != b2 then 1 else if a1 != b1 then 2 else 3)
      else if w == 3 then (if a2 != b2 then 0 else if a1 != b1 then 1 else 2)
      else (if a1 != b1 then 0 else 1);
    BeforeAt(x, y, k);
  }

  /** UTF-8 keeps the order of all code values, surrogates included, in one to four bytes. */
  lemma Order8(a: int, b: int)
    requires 0 <= a < b <= 0x10_FFFF
    ensures Before(Ints(Encode8(a)), Ints(Encode8(b)))
    ensures 1 <= |Encode8(a)| <= |Encode8(b)| <= 4
  {
    hide Before, Encode8, Form;
    FormOf(a);
    FormOf(b);
    var a3, a2, a1, a0 := a / 0x4_0000, a / 0x1000 % 0x40, a / 0x40 % 0x40, a % 0x40;
    var b3, b2, b1, b0 := b / 0x4_0000, b / 0x1000 % 0x40, b / 0x40 % 0x40, b % 0x40;
    DigitsOf(a);
    DigitsOf(b);
    DigitOrder(a, b, a3, a2, a1, a0, b3, b2, b1, b0);
    WidthOfDigits(a, a3, a2, a1, a0);
    WidthOfDigits(b, b3, b2, b1, b0);
    FormOrder(Width8(a), Width8(b), a3, a2, a1, a0, b3, b2, b1, b0);
  }

  /** The first 128 characters stand for themselves, and later bytes cannot be mistaken for them. */
  lemma Ascii8(ch: int)
    requires 0 <= ch <= 0x10_FFFF
    ensures ch < 0x80 ==> Encode8(ch) == [ch]
    ensures ch >= 0x80 ==> Encode8(ch)[0] >= 0xC0 && forall i :: 1 <= i < |Encode8(ch)| ==> IsTail(Encode8(ch)[i])
  {
  }

  /** A character of one unit is that unit; two units are a high and a low surrogate. */
  lemma Units16(ch: int)
    requires IsScalar(ch)
    ensures ch <= 0xFFFF ==> Encode16(ch, true) == [ch]
    ensures ch > 0xFFFF ==> var us := Encode16(ch, true); |us| == 2 && IsHigh(us[0]) && IsLow(us[1])
  {
  }

  function Plain(us: seq<Unit16>): (ns: seq<int>)
    ensures |ns| == |us| && forall i :: 0 <= i < |us| ==> ns[i] == us[i]
  {
    seq(|us|, i requires 0 <= i < |us| => us[i] as int)
  }

  /** Pairs keep the order too; there are as many as characters beyond the first 65536, so they are the only ones. */
  lemma Order16(a: int, b: int)
    requires 0xFFFF < a < b <= 0x10_FFFF
    ensures Before(Plain(Encode16(a, true)), Plain(Encode16(b, true)))
  {
    var x, y := Plain(Encode16(a, true)), Plain(Encode16(b, true));
    QuotientOrder(a - HALF_BASE, b - HALF_BASE);
    if x[0] < y[0] {
      BeforeAt(x, y, 0);
    } else {
      BeforeAt(x, y, 1);
    }
  }

  lemma QuotientOrder(a: int, b: int)
    requires a < b
    ensures a / 0x400 < b / 0x400 || (a / 0x400 == b / 0x400 && a % 0x400 < b % 0x400)
  {
  }

  /** Every pair is read as the character that is written as this pair. */
  lemma PairIsRead(h: Unit16, l: Unit16, strict: bool)
    requires IsHigh(h) && IsLow(l)
    ensures var n := NextOf16([h, l], strict);
      n.Char? && n.len == 2 && IsScalar(n.ch) && n.ch > 0xFFFF && Encode16(n.ch, strict) == [h, l]
  {
    Remainder(h - 0xD800, l - 0xDC00);
  }

  lemma Remainder(q: int, r: int)
    requires 0 <= r < 0x400
    ensures (q * 0x400 + r) / 0x400 == q && (q * 0x400 + r) % 0x400 == r
  {
  }

  /** A unit that is no part of a pair is read as itself. */
  lemma UnitIsRead(src: seq<Unit16>, strict: bool)
    requires |src| > 0 && (IsHigh(src[0]) && |src| > 1 ==> !IsLow(src[1]))
    ensures var n := NextOf16(src, strict);
      if !IsSurrogate(src[0]) then n == Char(src[0], 1)
      else if IsHigh(src[0]) && |src| == 1 then n == Stop(SourceExhausted)
      else if strict then n == Stop(SourceIllegal)
      else n == Char(src[0], 1)
  {
  }

  /** The top k bits of a byte are set. */
  predicate TopSet(b: Byte, k: nat)
    requires 2 <= k <= 6
  {
    match k
    case 2 => b / 64 == 3
    case 3 => b / 32 == 7
    case 4 => b / 16 == 15
    case 5 => b / 8 == 31
    case _ => b / 4 == 63
  }

  /** The bytes announced to follow a byte: one less than its leading ones, and five at most. */
  lemma TrailingCountsOnes(b: Byte, n: nat)
    requires 1 <= n <= 5
    ensures Trailing(b) >= n <==> TopSet(b, n + 1)
  {
    assert n == 1 || n == 2 || n == 3 || n == 4 || n == 5;
  }
}
