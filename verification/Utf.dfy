/**
 What the converters of libmmbd/src/ConvertUTF.c compute between UTF-16 and UTF-8 (RFC 2781 and
 RFC 3629): character by character, with the strict or lenient treatment of unpaired surrogates.
 */
module Utf {
  import opened Bytes

  type Unit16 = x: int | 0 <= x < 0x1_0000 witness 0

  datatype Result = ConversionOK | SourceExhausted | TargetExhausted | SourceIllegal

  const REPLACEMENT: int := 0xFFFD
  const HALF_BASE: int := 0x1_0000

  predicate IsHigh(u: int) {
    0xD800 <= u <= 0xDBFF
  }

  predicate IsLow(u: int) {
    0xDC00 <= u <= 0xDFFF
  }

  predicate IsSurrogate(u: int) {
    0xD800 <= u <= 0xDFFF
  }

  /** A Unicode scalar value. */
  predicate IsScalar(ch: int) {
    0 <= ch <= 0x10_FFFF && !IsSurrogate(ch)
  }

  /** The next character of a source and the units it takes, or the reason why there is none. */
  datatype Next = Char(ch: int, len: nat) | Stop(reason: Result)

  /** The result, the number of source units consumed, and everything written. */
  datatype Outcome<T> = Outcome(result: Result, used: nat, out: seq<T>)

  // ---------- UTF-16 to UTF-8 ----------

  function NextOf16(src: seq<Unit16>, strict: bool): (n: Next)
    requires |src| > 0
    ensures n.Char? ==> 1 <= n.len <= 2 && n.len <= |src| && 0 <= n.ch <= 0x10_FFFF
    ensures n.Stop? ==> n.reason == SourceExhausted || n.reason == SourceIllegal
  {
    var u: int := src[0];
    if IsHigh(u) then
      if |src| == 1 then Stop(SourceExhausted)
      else if IsLow(src[1]) then Char((u - 0xD800) * 0x400 + (src[1] - 0xDC00) + HALF_BASE, 2)
      else if strict then Stop(SourceIllegal)
      else Char(u, 1)
    else if strict && IsLow(u) then Stop(SourceIllegal)
    else Char(u, 1)
  }

  function Width8(ch: int): (n: nat)
    ensures 1 <= n <= 4
  {
    if ch < 0x80 then 1 else if ch < 0x800 then 2 else if ch < 0x1_0000 then 3 else if ch < 0x11_0000 then 4 else 3
  }

  /** The bytes of one character. */
  function Encode8(ch: int): (bs: seq<Byte>)
    requires 0 <= ch <= 0x10_FFFF
    ensures |bs| == Width8(ch)
  {
    if ch < 0x80 then [ch]
    else if ch < 0x800 then [0xC0 + ch / 0x40, 0x80 + ch % 0x40]
    else if ch < 0x1_0000 then [0xE0 + ch / 0x1000, 0x80 + ch / 0x40 % 0x40, 0x80 + ch % 0x40]
    else [0xF0 + ch / 0x4_0000, 0x80 + ch / 0x1000 % 0x40, 0x80 + ch / 0x40 % 0x40, 0x80 + ch % 0x40]
  }

  /** The conversion of src into room bytes; it stops in front of a character, never inside one. */
  function Convert16(src: seq<Unit16>, room: int, strict: bool): (r: Outcome<Byte>)
    ensures r.used <= |src| && (room >= 0 ==> |r.out| <= room)
    decreases |src|
  {
    if |src| == 0 then Outcome(ConversionOK, 0, [])
    else match NextOf16(src, strict)
      case Stop(reason) => Outcome(reason, 0, [])
      case Char(ch, len) =>
        if Width8(ch) > room then Outcome(TargetExhausted, 0, [])
        else
          var r := Convert16(src[len..], room - Width8(ch), strict);
          Outcome(r.result, len + r.used, Encode8(ch) + r.out)
  }

  // ---------- UTF-8 to UTF-16 ----------

  /** trailingBytesForUTF8 */
  function Trailing(b: Byte): (n: nat)
    ensures n <= 5
  {
    if b < 0xC0 then 0 else if b < 0xE0 then 1 else if b < 0xF0 then 2 else if b < 0xF8 then 3
    else if b < 0xFC then 4 else 5
  }

  predicate IsTail(b: Byte) {
    0x80 <= b <= 0xBF
  }

  /** isLegalUTF8.  After 0xED and 0xF4 it has no lower bound for the second byte. */
  predicate IsLegal(bs: seq<Byte>) {
    && 1 <= |bs| <= 4
    && (|bs| >= 4 ==> IsTail(bs[3]))
    && (|bs| >= 3 ==> IsTail(bs[2]))
    && (|bs| >= 2 ==>
      && bs[1] <= 0xBF
      && if bs[0] == 0xE0 then bs[1] >= 0xA0
         else if bs[0] == 0xED then bs[1] <= 0x9F
         else if bs[0] == 0xF0 then bs[1] >= 0x90
         else if bs[0] == 0xF4 then bs[1] <= 0x8F
         else bs[1] >= 0x80)
    && !(0x80 <= bs[0] < 0xC2) && bs[0] <= 0xF4
  }

  /** offsetsFromUTF8 */
  function Offset(extra: nat): int {
    match extra
    case 0 => 0
    case 1 => 0x3080
    case 2 => 0xE2080
    case 3 => 0x3C82080
    case 4 => 0xFA082080
    case _ => 0x82082080
  }

  /** The bytes shifted together, as the fall-through switch does. */
  function Accumulated(bs: seq<Byte>): int {
    if |bs| == 0 then 0 else Accumulated(bs[..|bs| - 1]) * 0x40 + bs[|bs| - 1]
  }

  function Decode8(bs: seq<Byte>): int
    requires 1 <= |bs| <= 4
  {
    Accumulated(bs) - Offset(|bs| - 1)
  }

  function NextOf8(src: seq<Byte>): (n: Next)
    requires |src| > 0
    ensures n.Char? ==> 1 <= n.len <= 4 && n.len <= |src| && n.len == Trailing(src[0]) + 1
    ensures n.Stop? ==> n.reason == SourceExhausted || n.reason == SourceIllegal
  {
    var extra := Trailing(src[0]);
    if extra >= |src| then Stop(SourceExhausted)
    else if !IsLegal(src[..extra + 1]) then Stop(SourceIllegal)
    else Char(Decode8(src[..extra + 1]), extra + 1)
  }

  /** The units of one character; a value that is no scalar is replaced, or in strict mode refused. */
  function Encode16(ch: int, strict: bool): (us: seq<Unit16>)
    requires ch >= 0
    ensures |us| <= 2
  {
    if ch <= 0xFFFF then
      if IsSurrogate(ch) then (if strict then [] else [REPLACEMENT]) else [ch]
    else if ch > 0x10_FFFF then (if strict then [] else [REPLACEMENT])
    else [(ch - HALF_BASE) / 0x400 + 0xD800, (ch - HALF_BASE) % 0x400 + 0xDC00]
  }

  function Convert8(src: seq<Byte>, room: int, strict: bool): (r: Outcome<Unit16>)
    ensures r.used <= |src| && (room >= 0 ==> |r.out| <= room)
    decreases |src|
  {
    if |src| == 0 then Outcome(ConversionOK, 0, [])
    else match NextOf8(src)
      case Stop(reason) => Outcome(reason, 0, [])
      case Char(ch, len) =>
        LegalIsScalar(src[..len]);
        var us := Encode16(ch, strict);
        if |us| > room then Outcome(TargetExhausted, 0, [])
        else
          var r := Convert8(src[len..], room - |us|, strict);
          Outcome(r.result, len + r.used, us + r.out)
  }

  // ---------- the decoder's replacement branches are dead ----------

  lemma AccumulatedIs(bs: seq<Byte>)
    requires 1 <= |bs| <= 4
    ensures |bs| == 1 ==> Accumulated(bs) == bs[0]
    ensures |bs| == 2 ==> Accumulated(bs) == 0x40 * (bs[0] as int) + bs[1] as int
    ensures |bs| == 3 ==> Accumulated(bs) == 0x1000 * (bs[0] as int) + 0x40 * (bs[1] as int) + bs[2] as int
    ensures |bs| == 4 ==>
      Accumulated(bs) == 0x4_0000 * (bs[0] as int) + 0x1000 * (bs[1] as int) + 0x40 * (bs[2] as int) + bs[3] as int
  {
    var a := bs[..|bs| - 1];
    if |a| > 0 {
      AccumulatedIs(a);
    }
  }

  /** Every sequence that isLegalUTF8 accepts, of the length its first byte announces, is a scalar value. */
  lemma LegalIsScalar(bs: seq<Byte>)
    requires IsLegal(bs) && |bs| == Trailing(bs[0]) + 1
    ensures IsScalar(Decode8(bs))
  {
    hide Accumulated;
    AccumulatedIs(bs);
  }

  // ---------- one character there and back ----------

  /** One character of UTF-8 by the grammar of section 4 of RFC 3629. */
  predicate Grammar(bs: seq<Byte>) {
    || (|bs| == 1 && bs[0] <= 0x7F)
    || (|bs| == 2 && 0xC2 <= bs[0] <= 0xDF && IsTail(bs[1]))
    || (|bs| == 3 && IsTail(bs[2]) && (
        || (bs[0] == 0xE0 && 0xA0 <= bs[1] <= 0xBF)
        || (0xE1 <= bs[0] <= 0xEC && IsTail(bs[1]))
        || (bs[0] == 0xED && 0x80 <= bs[1] <= 0x9F)
        || (0xEE <= bs[0] <= 0xEF && IsTail(bs[1]))))
    || (|bs| == 4 && IsTail(bs[2]) && IsTail(bs[3]) && (
        || (bs[0] == 0xF0 && 0x90 <= bs[1] <= 0xBF)
        || (0xF1 <= bs[0] <= 0xF3 && IsTail(bs[1]))
        || (bs[0] == 0xF4 && 0x80 <= bs[1] <= 0x8F)))
  }

  lemma OneDigit(x: int, q: int, r: int)
    requires x == 0x40 * q + r && 0 <= r < 0x40
    ensures x / 0x40 == q && x % 0x40 == r
  {
  }

  lemma Shifted(ch: int)
    ensures ch / 0x40 / 0x40 == ch / 0x1000 && ch / 0x1000 / 0x40 == ch / 0x4_0000
  {
  }

  // A number has these digits in base 64 ...
  lemma Digits(ch: int, a: int, b: int, c: int, d: int)
    requires 0 <= b < 0x40 && 0 <= c < 0x40 && 0 <= d < 0x40
    requires ch == 0x4_0000 * a + 0x1000 * b + 0x40 * c + d
    ensures ch / 0x4_0000 == a && ch / 0x1000 % 0x40 == b && ch / 0x40 % 0x40 == c && ch % 0x40 == d
  {
    Shifted(ch);
    OneDigit(ch, 0x1000 * a + 0x40 * b + c, d);
    OneDigit(ch / 0x40, 0x40 * a + b, c);
    OneDigit(ch / 0x1000, a, b);
  }

  // ... and is their sum.
  lemma DigitsOf(ch: int)
    ensures ch == 0x4_0000 * (ch / 0x4_0000) + 0x1000 * (ch / 0x1000 % 0x40) + 0x40 * (ch / 0x40 % 0x40) + ch % 0x40
  {
    Shifted(ch);
  }

  lemma TopDigit(ch: int)
    ensures 0 <= ch < 0x4_0000 ==> ch / 0x4_0000 == 0 && ch / 0x1000 % 0x40 == ch / 0x1000
    ensures 0 <= ch < 0x1000 ==> ch / 0x1000 == 0 && ch / 0x40 % 0x40 == ch / 0x40
  {
  }

  lemma GrammarRange(ch: int, a: int, b: int, c: int, d: int)
    requires ch == 0x4_0000 * a + 0x1000 * b + 0x40 * c + d && IsScalar(ch)
    requires 0 <= b < 0x40 && 0 <= c < 0x40 && 0 <= d < 0x40
    ensures 0x800 <= ch < 0x1_0000 ==> a == 0 && b <= 15 && (b == 0 ==> c >= 0x20) && (b == 13 ==> c < 0x20)
    ensures 0x1_0000 <= ch ==> a <= 4 && (a == 0 ==> b >= 0x10) && (a == 4 ==> b < 0x10)
  {
  }

  /** The encoder writes the grammar. */
  lemma EncodedIsGrammar(ch: int)
    requires IsScalar(ch)
    ensures Grammar(Encode8(ch))
  {
    DigitsOf(ch);
    TopDigit(ch);
    GrammarRange(ch, ch / 0x4_0000, ch / 0x1000 % 0x40, ch / 0x40 % 0x40, ch % 0x40);
  }

  /** The decoder undoes the encoder. */
  lemma DecodeEncode(ch: int)
    requires IsScalar(ch)
    ensures Decode8(Encode8(ch)) == ch
  {
    hide Accumulated;
    AccumulatedIs(Encode8(ch));
    DigitsOf(ch);
    TopDigit(ch);
  }

  lemma GrammarIsLegal(bs: seq<Byte>)
    requires Grammar(bs)
    ensures IsLegal(bs) && |bs| == Trailing(bs[0]) + 1
  {
  }

  /** The decoder accepts the grammar and, besides, only a second byte below 0x80 after 0xED or 0xF4. */
  lemma LegalIff(bs: seq<Byte>)
    requires |bs| > 0 && |bs| == Trailing(bs[0]) + 1
    ensures IsLegal(bs) <==> Grammar(bs) || LowSecond(bs)
  {
  }

  predicate LowSecond(bs: seq<Byte>) {
    && 3 <= |bs| <= 4 && bs[1] < 0x80 && (bs[0] == 0xED || bs[0] == 0xF4)
    && IsTail(bs[2]) && (|bs| == 4 ==> IsTail(bs[3]))
  }

  /** The encoder undoes the decoder on the grammar. */
  lemma EncodeDecode(bs: seq<Byte>)
    requires Grammar(bs)
    ensures IsScalar(Decode8(bs)) && Encode8(Decode8(bs)) == bs
  {
    hide Accumulated;
    AccumulatedIs(bs);
    GrammarIsLegal(bs);
    LegalIsScalar(bs);
    var ch := Decode8(bs);
    TopDigit(ch);
    if |bs| == 2 {
      Digits(ch, 0, 0, bs[0] - 0xC0, bs[1] - 0x80);
    } else if |bs| == 3 {
      Digits(ch, 0, bs[0] - 0xE0, bs[1] - 0x80, bs[2] - 0x80);
    } else if |bs| == 4 {
      Digits(ch, bs[0] - 0xF0, bs[1] - 0x80, bs[2] - 0x80, bs[3] - 0x80);
    }
  }
}
