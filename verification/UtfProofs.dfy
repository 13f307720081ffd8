/** Round trips between UTF-16 and UTF-8, and what is written when a conversion stops early. */
module UtfProofs {
  import opened Wrappers
  import opened Bytes
  import opened Utf

  // ---------- well-formed strings ----------

  /** Surrogates come in pairs only (section 2 of RFC 2781). */
  predicate WellFormed16(src: seq<Unit16>) {
    && (forall i :: 0 <= i < |src| && IsHigh(src[i]) ==> i + 1 < |src| && IsLow(src[i + 1]))
    && (forall i :: 0 <= i < |src| && IsLow(src[i]) ==> i > 0 && IsHigh(src[i - 1]))
  }

  /** A sequence of characters of the grammar (section 4 of RFC 3629). */
  predicate WellFormed8(bs: seq<Byte>)
    decreases |bs|
  {
    |bs| == 0 ||
    var n := Trailing(bs[0]) + 1;
    n <= |bs| && Grammar(bs[..n]) && WellFormed8(bs[n..])
  }

  // The first character of a well-formed string is a scalar, and the rest is well-formed.
  lemma First16(src: seq<Unit16>, strict: bool)
    requires |src| > 0 && WellFormed16(src)
    ensures var n := NextOf16(src, strict);
      n.Char? && IsScalar(n.ch) && WellFormed16(src[n.len..])
  {
    assert IsHigh(src[0]) ==> IsLow(src[1]);
    assert !IsLow(src[0]);
    var n := NextOf16(src, strict);
    var rest := src[n.len..];
    assert !IsHigh(src[n.len - 1]);
    assert forall i :: 0 <= i < |rest| ==> rest[i] == src[i + n.len];
    forall i | 0 <= i < |rest| && IsLow(rest[i])
      ensures i > 0 && IsHigh(rest[i - 1])
    {
      assert IsHigh(src[i + n.len - 1]);
    }
  }

  /** Sixteen-bit units of a scalar are read back as that scalar, and written by it. */
  lemma Units(ch: int, rest: seq<Unit16>, strict: bool, again: bool)
    requires IsScalar(ch)
    ensures NextOf16(Encode16(ch, strict) + rest, again) == Char(ch, |Encode16(ch, strict)|)
    ensures |Encode16(ch, strict)| > 0
  {
    var us := Encode16(ch, strict) + rest;
    if ch > 0xFFFF {
      assert us[0] == (ch - HALF_BASE) / 0x400 + 0xD800 && us[1] == (ch - HALF_BASE) % 0x400 + 0xDC00;
    } else {
      assert us[0] == ch;
    }
  }

  lemma UnitsBack(src: seq<Unit16>, strict: bool, again: bool)
    requires |src| > 0 && NextOf16(src, strict).Char? && IsScalar(NextOf16(src, strict).ch)
    ensures var n := NextOf16(src, strict); Encode16(n.ch, again) == src[..n.len]
  {
    var n := NextOf16(src, strict);
    if n.len == 2 {
      PairBack(src[0], src[1]);
    }
  }

  lemma PairBack(h: int, l: int)
    requires IsHigh(h) && IsLow(l)
    ensures var v := (h - 0xD800) * 0x400 + (l - 0xDC00); v / 0x400 + 0xD800 == h && v % 0x400 + 0xDC00 == l
  {
  }

  // ---------- one step of a conversion ----------

  function Then<T>(n: nat, out: seq<T>, r: Outcome<T>): Outcome<T> {
    Outcome(r.result, n + r.used, out + r.out)
  }

  lemma Step16(front: seq<Unit16>, rest: seq<Unit16>, room: int, strict: bool, ch: int)
    requires |front| > 0 && NextOf16(front + rest, strict) == Char(ch, |front|) && Width8(ch) <= room
    ensures Convert16(front + rest, room, strict) ==
      Then(|front|, Encode8(ch), Convert16(rest, room - Width8(ch), strict))
  {
    hide NextOf16, Encode8;
    assert (front + rest)[|front|..] == rest;
  }

  lemma Step8(front: seq<Byte>, rest: seq<Byte>, room: int, strict: bool, ch: int)
    requires |front| > 0 && NextOf8(front + rest) == Char(ch, |front|) && ch >= 0 && |Encode16(ch, strict)| <= room
    ensures Convert8(front + rest, room, strict) ==
      Then(|front|, Encode16(ch, strict), Convert8(rest, room - |Encode16(ch, strict)|, strict))
  {
    hide NextOf8, Encode16;
    assert (front + rest)[|front|..] == rest;
  }

  // A conversion that succeeds takes the first character.
  lemma Taken16(src: seq<Unit16>, room: int, strict: bool)
    requires |src| > 0 && (Convert16(src, room, strict).result == ConversionOK || Convert16(src, room, strict).used > 0)
    ensures NextOf16(src, strict).Char? && Width8(NextOf16(src, strict).ch) <= room
    ensures var n := NextOf16(src, strict);
      Convert16(src, room, strict) == Then(n.len, Encode8(n.ch), Convert16(src[n.len..], room - Width8(n.ch), strict))
  {
    hide NextOf16, Encode8;
  }

  lemma Taken8(src: seq<Byte>, room: int, strict: bool)
    requires |src| > 0 && (Convert8(src, room, strict).result == ConversionOK || Convert8(src, room, strict).used > 0)
    ensures NextOf8(src).Char? && NextOf8(src).ch >= 0 && IsScalar(NextOf8(src).ch) && |Encode16(NextOf8(src).ch, strict)| <= room
    ensures var n := NextOf8(src);
      var us := Encode16(n.ch, strict);
      Convert8(src, room, strict) == Then(n.len, us, Convert8(src[n.len..], room - |us|, strict))
  {
    hide NextOf8, Encode16;
    if NextOf8(src).Char? {
      LegalNext(src);
    }
  }

  // ---------- one character of UTF-8 inside a string ----------

  lemma BytesOf(ch: int, rest: seq<Byte>)
    requires IsScalar(ch)
    ensures NextOf8(Encode8(ch) + rest) == Char(ch, Width8(ch))
  {
    hide Decode8, Encode8, Grammar, IsLegal;
    var bs := Encode8(ch);
    EncodedIsGrammar(ch);
    DecodeEncode(ch);
    GrammarIsLegal(bs);
    assert (bs + rest)[..|bs|] == bs;
  }

  // ---------- UTF-16 to UTF-8 and back ----------

  /** Every well-formed UTF-16 string is converted completely, to well-formed UTF-8 of at most three bytes a unit. */
  lemma {:induction false} Converts16(src: seq<Unit16>, room: int, strict: bool)
    requires WellFormed16(src) && room >= 3 * |src|
    ensures var r := Convert16(src, room, strict);
      r.result == ConversionOK && r.used == |src| && WellFormed8(r.out)
    decreases |src|
  {
    hide *;
    if |src| == 0 {
      Nothing(room, strict, 0, strict);
      NothingIsWellFormed();
    } else {
      First16(src, strict);
      var n := NextOf16(src, strict);
      WidthIsShort(src, strict);
      assert src == src[..n.len] + src[n.len..];
      Step16(src[..n.len], src[n.len..], room, strict, n.ch);
      Converts16(src[n.len..], room - Width8(n.ch), strict);
      var rest := Convert16(src[n.len..], room - Width8(n.ch), strict);
      ResultOf(n.len, Encode8(n.ch), rest);
      FrontIsWellFormed(n.ch, rest.out);
    }
  }

  lemma NothingIsWellFormed()
    ensures WellFormed8([]) && WellFormed16([]) && Accepted8([])
  {
  }

  lemma WidthIsShort(src: seq<Unit16>, strict: bool)
    requires |src| > 0 && NextOf16(src, strict).Char?
    ensures var n := NextOf16(src, strict); Width8(n.ch) <= 3 * n.len
  {
  }

  lemma FrontIsWellFormed(ch: int, rest: seq<Byte>)
    requires IsScalar(ch) && WellFormed8(rest)
    ensures WellFormed8(Encode8(ch) + rest)
  {
    hide Encode8, Grammar;
    var bs := Encode8(ch);
    EncodedIsGrammar(ch);
    GrammarIsLegal(bs);
    assert (bs + rest)[..|bs|] == bs && (bs + rest)[|bs|..] == rest;
  }

  /** Decoding what a complete conversion has written gives the string back and consumes all of it. */
  lemma {:induction false} RoundTrip16(src: seq<Unit16>, room: int, strict: bool, back: int, again: bool)
    requires WellFormed16(src) && Convert16(src, room, strict).result == ConversionOK && back >= |src|
    ensures var bs := Convert16(src, room, strict).out;
      Convert8(bs, back, again) == Outcome(ConversionOK, |bs|, src)
    decreases |src|
  {
    hide *;
    if |src| == 0 {
      Nothing(room, strict, back, again);
    } else {
      First16(src, strict);
      Taken16(src, room, strict);
      var n := NextOf16(src, strict);
      var rest := Convert16(src[n.len..], room - Width8(n.ch), strict);
      ResultOf(n.len, Encode8(n.ch), rest);
      UnitsBack(src, strict, again);
      RoundTrip16(src[n.len..], room - Width8(n.ch), strict, back - n.len, again);
      BytesOf(n.ch, rest.out);
      Step8(Encode8(n.ch), rest.out, back, again, n.ch);
      Joined(Encode8(n.ch), rest.out, src, n.len);
    }
  }

  lemma Nothing(room: int, strict: bool, back: int, again: bool)
    ensures Convert16([], room, strict) == Outcome(ConversionOK, 0, [])
    ensures Convert8([], back, again) == Outcome(ConversionOK, 0, [])
  {
  }

  lemma ResultOf<T>(n: nat, out: seq<T>, r: Outcome<T>)
    ensures Then(n, out, r).result == r.result && Then(n, out, r).out == out + r.out && Then(n, out, r).used == n + r.used
  {
  }

  lemma Joined<S, T>(front: seq<S>, rest: seq<S>, src: seq<T>, len: nat)
    requires len <= |src|
    ensures Then(|front|, src[..len], Outcome(ConversionOK, |rest|, src[len..])) == Outcome(ConversionOK, |front + rest|, src)
  {
    assert src[..len] + src[len..] == src;
  }

  // ---------- UTF-8 to UTF-16 and back ----------

  lemma First8(bs: seq<Byte>)
    requires |bs| > 0 && WellFormed8(bs)
    ensures var n := NextOf8(bs);
      n.Char? && n.ch >= 0 && IsScalar(n.ch) && bs[..n.len] == Encode8(n.ch) && WellFormed8(bs[n.len..])
  {
    hide Decode8, Encode8, Grammar, IsLegal;
    var k := Trailing(bs[0]) + 1;
    GrammarIsLegal(bs[..k]);
    EncodeDecode(bs[..k]);
  }

  lemma UnitsAreFew(ch: int, strict: bool)
    requires IsScalar(ch)
    ensures 1 <= |Encode16(ch, strict)| <= Width8(ch)
  {
  }

  /** Every well-formed UTF-8 string is converted completely, to at most as many units as it has bytes. */
  lemma {:induction false} Converts8(bs: seq<Byte>, room: int, strict: bool)
    requires WellFormed8(bs) && room >= |bs|
    ensures var r := Convert8(bs, room, strict); r.result == ConversionOK && r.used == |bs|
    decreases |bs|
  {
    hide WellFormed8, NextOf8, Encode16, Encode8;
    if |bs| > 0 {
      First8(bs);
      var n := NextOf8(bs);
      UnitsAreFew(n.ch, strict);
      Converts8(bs[n.len..], room - |Encode16(n.ch, strict)|, strict);
    }
  }

  /** Encoding what a complete conversion has written gives the bytes back and consumes all of it. */
  lemma {:induction false} RoundTrip8(bs: seq<Byte>, room: int, strict: bool, back: int, again: bool)
    requires WellFormed8(bs) && Convert8(bs, room, strict).result == ConversionOK && back >= |bs|
    ensures var us := Convert8(bs, room, strict).out;
      Convert16(us, back, again) == Outcome(ConversionOK, |us|, bs)
    decreases |bs|
  {
    hide *;
    if |bs| == 0 {
      Nothing(back, again, room, strict);
    } else {
      First8(bs);
      Taken8(bs, room, strict);
      var n := NextOf8(bs);
      var us := Encode16(n.ch, strict);
      var rest := Convert8(bs[n.len..], room - |us|, strict);
      ResultOf(n.len, us, rest);
      RoundTrip8(bs[n.len..], room - |us|, strict, back - n.len, again);
      Units(n.ch, rest.out, strict, again);
      Step16(us, rest.out, back, again, n.ch);
      Joined(us, rest.out, bs, n.len);
    }
  }

  // ---------- exactly the well-formed strings ----------

  lemma Prepend16(front: seq<Unit16>, rest: seq<Unit16>)
    requires WellFormed16(rest)
    requires (|front| == 1 && !IsSurrogate(front[0])) || (|front| == 2 && IsHigh(front[0]) && IsLow(front[1]))
    ensures WellFormed16(front + rest)
  {
    var us := front + rest;
    forall i | 0 <= i < |us| && IsHigh(us[i])
      ensures i + 1 < |us| && IsLow(us[i + 1])
    {
      if i >= |front| {
        assert IsHigh(rest[i - |front|]);
      }
    }
    forall i | 0 <= i < |us| && IsLow(us[i])
      ensures i > 0 && IsHigh(us[i - 1])
    {
      if i >= |front| {
        assert IsLow(rest[i - |front|]);
      }
    }
  }

  lemma StrictFront(src: seq<Unit16>)
    requires |src| > 0 && NextOf16(src, true).Char? && WellFormed16(src[NextOf16(src, true).len..])
    ensures WellFormed16(src)
  {
    hide WellFormed16;
    var n := NextOf16(src, true).len;
    Prepend16(src[..n], src[n..]);
    assert src == src[..n] + src[n..];
  }

  lemma {:induction false} StrictIsWellFormed(src: seq<Unit16>, room: int)
    requires Convert16(src, room, true).result == ConversionOK
    ensures WellFormed16(src)
    decreases |src|
  {
    hide NextOf16, Encode8, Convert16, Then, WellFormed16;
    if |src| == 0 {
      NothingIsWellFormed();
    } else {
      Taken16(src, room, true);
      var n := NextOf16(src, true);
      ResultOf(n.len, Encode8(n.ch), Convert16(src[n.len..], room - Width8(n.ch), true));
      StrictIsWellFormed(src[n.len..], room - Width8(n.ch));
      StrictFront(src);
    }
  }

  /** In strict mode, with room enough, exactly the well-formed strings are converted. */
  lemma Converts16Iff(src: seq<Unit16>, room: int)
    requires room >= 3 * |src|
    ensures Convert16(src, room, true).result == ConversionOK <==> WellFormed16(src)
  {
    hide *;
    if WellFormed16(src) {
      Converts16(src, room, true);
    }
    if Convert16(src, room, true).result == ConversionOK {
      StrictIsWellFormed(src, room);
    }
  }

  lemma EncodedFront(ch: int, rest: seq<Unit16>, strict: bool)
    requires IsScalar(ch) && WellFormed16(rest)
    ensures WellFormed16(Encode16(ch, strict) + rest)
  {
    hide WellFormed16;
    Prepend16(Encode16(ch, strict), rest);
  }

  /** Whatever the decoder writes is well-formed. */
  lemma {:induction false} DecoderWritesWellFormed(bs: seq<Byte>, room: int, strict: bool)
    ensures WellFormed16(Convert8(bs, room, strict).out)
    decreases |bs|
  {
    hide NextOf8, Encode16, Convert8, Then, WellFormed16;
    var r := Convert8(bs, room, strict);
    if r.used == 0 {
      NothingWritten8(bs, room, strict);
      NothingIsWellFormed();
    } else {
      Taken8(bs, room, strict);
      var n := NextOf8(bs);
      var us := Encode16(n.ch, strict);
      var rest := Convert8(bs[n.len..], room - |us|, strict);
      ResultOf(n.len, us, rest);
      DecoderWritesWellFormed(bs[n.len..], room - |us|, strict);
      EncodedFront(n.ch, rest.out, strict);
    }
  }

  lemma NothingWritten8(bs: seq<Byte>, room: int, strict: bool)
    requires Convert8(bs, room, strict).used == 0
    ensures Convert8(bs, room, strict).out == []
  {
    hide NextOf8, Encode16;
  }

  /** There and back, in any modes, restores exactly the well-formed strings. */
  lemma RoundTrip16Iff(src: seq<Unit16>, room: int, strict: bool, back: int, again: bool)
    requires room >= 3 * |src| && back >= |src|
    ensures var r := Convert16(src, room, strict);
      (r.result == ConversionOK && Convert8(r.out, back, again) == Outcome(ConversionOK, |r.out|, src)) <==> WellFormed16(src)
  {
    hide *;
    var r := Convert16(src, room, strict);
    if WellFormed16(src) {
      Converts16(src, room, strict);
      RoundTrip16(src, room, strict, back, again);
    }
    DecoderWritesWellFormed(r.out, back, again);
  }

  /** What the decoder accepts: the grammar, and the low second bytes after 0xED and 0xF4. */
  predicate Accepted8(bs: seq<Byte>)
    decreases |bs|
  {
    |bs| == 0 ||
    var n := Trailing(bs[0]) + 1;
    n <= |bs| && (Grammar(bs[..n]) || LowSecond(bs[..n])) && Accepted8(bs[n..])
  }

  lemma AcceptedNext(bs: seq<Byte>)
    requires |bs| > 0
    ensures Accepted8(bs) <==> NextOf8(bs).Char? && Accepted8(bs[NextOf8(bs).len..])
  {
    hide Grammar, LowSecond, IsLegal, Decode8;
    var n := Trailing(bs[0]) + 1;
    if n <= |bs| {
      LegalIff(bs[..n]);
    }
  }

  /** With room enough, exactly these byte strings are converted, in either mode. */
  lemma {:induction false} Converts8Iff(bs: seq<Byte>, room: int, strict: bool)
    requires room >= |bs|
    ensures Convert8(bs, room, strict).result == ConversionOK <==> Accepted8(bs)
    decreases |bs|
  {
    hide NextOf8, Encode16, Convert8, Then, Accepted8;
    if |bs| == 0 {
      Nothing(0, strict, room, strict);
      NothingIsWellFormed();
    } else {
      AcceptedNext(bs);
      if NextOf8(bs).Char? {
        var n := NextOf8(bs);
        LegalNext(bs);
        UnitsAreFewer(bs, strict);
        var us := Encode16(n.ch, strict);
        assert bs == bs[..n.len] + bs[n.len..];
        Step8(bs[..n.len], bs[n.len..], room, strict, n.ch);
        ResultOf(n.len, us, Convert8(bs[n.len..], room - |us|, strict));
        Converts8Iff(bs[n.len..], room - |us|, strict);
      } else if Convert8(bs, room, strict).result == ConversionOK {
        Taken8(bs, room, strict);
      }
    }
  }

  lemma UnitsAreFewer(bs: seq<Byte>, strict: bool)
    requires |bs| > 0 && NextOf8(bs).Char? && NextOf8(bs).ch >= 0
    ensures |Encode16(NextOf8(bs).ch, strict)| <= NextOf8(bs).len
  {
    hide Accumulated;
    var n := NextOf8(bs);
    AccumulatedIs(bs[..n.len]);
  }

  /** There and back, in any modes, restores exactly the byte strings of the grammar. */
  lemma RoundTrip8Iff(bs: seq<Byte>, room: int, strict: bool, back: int, again: bool)
    requires room >= |bs| && back >= |bs|
    ensures var r := Convert8(bs, room, strict);
      (r.result == ConversionOK && Convert16(r.out, back, again) == Outcome(ConversionOK, |r.out|, bs)) <==> WellFormed8(bs)
  {
    hide *;
    var r := Convert8(bs, room, strict);
    if WellFormed8(bs) {
      Converts8(bs, room, strict);
      RoundTrip8(bs, room, strict, back, again);
    }
    DecoderWritesWellFormed(bs, room, strict);
    if Convert16(r.out, back, again).result == ConversionOK {
      var more := if back < 3 * |r.out| then 3 * |r.out| else back;
      RoomEnough16(r.out, back, again, more);
      Converts16(r.out, more, again);
    }
  }

  /** Three bytes that are accepted against the grammar: there and back they become three others. */
  lemma AcceptedNotRestored(bs: seq<Byte>)
    requires bs == [0xED, 0x41, 0x80]
    ensures IsLegal(bs) && !Grammar(bs)
    ensures Convert8(bs, 3, true) == Outcome(ConversionOK, 3, [0xC040])
    ensures Convert16([0xC040], 3, true) == Outcome(ConversionOK, 1, [0xEC, 0x81, 0x80])
  {
    hide Accumulated;
    AccumulatedIs(bs);
    assert bs[..3] == bs && bs[3..] == [];
    assert Convert8([], 2, true) == Outcome(ConversionOK, 0, []);
    assert Encode8(0xC040) == [0xEC, 0x81, 0x80];
    Single(0xC040);
  }

  lemma Single(u: Unit16)
    requires !IsSurrogate(u) && u >= 0x800
    ensures Convert16([u], 3, true) == Outcome(ConversionOK, 1, Encode8(u))
  {
    hide Encode8;
    assert [u][1..] == [];
    assert Convert16([], 0, true) == Outcome(ConversionOK, 0, []);
  }

  // ---------- where and why a conversion stops ----------

  /** The characters that exactly fill the first n units, if there are such. */
  function Chars16(src: seq<Unit16>, n: nat, strict: bool): Option<seq<int>>
    requires n <= |src|
    decreases n
  {
    if n == 0 then Some([])
    else match NextOf16(src, strict)
      case Stop(_) => None
      case Char(ch, len) =>
        if len > n then None
        else match Chars16(src[len..], n - len, strict)
          case None => None
          case Some(cs) => Some([ch] + cs)
  }

  function EncodeAll8(cs: seq<int>): seq<Byte> {
    if |cs| == 0 then []
    else (if 0 <= cs[0] <= 0x10_FFFF then Encode8(cs[0]) else []) + EncodeAll8(cs[1..])
  }

  /** The reason why nothing more is written, with `left` bytes of room. */
  predicate StopsFor16(src: seq<Unit16>, left: int, strict: bool, result: Result) {
    if |src| == 0 then result == ConversionOK
    else match NextOf16(src, strict)
      case Stop(reason) => result == reason
      case Char(ch, _) => result == TargetExhausted && Width8(ch) > left
  }

  /** Whole characters only: exactly those of the consumed prefix are written, and the stop has its exact reason. */
  lemma {:induction false} StopsBetweenCharacters16(src: seq<Unit16>, room: int, strict: bool)
    ensures var r := Convert16(src, room, strict);
      && Chars16(src, r.used, strict).Some? && r.out == EncodeAll8(Chars16(src, r.used, strict).value)
      && StopsFor16(src[r.used..], room - |r.out|, strict, r.result)
    decreases |src|
  {
    hide NextOf16, Encode8, Convert16, StopsFor16, EncodeAll8;
    var r := Convert16(src, room, strict);
    if r.used == 0 {
      StopsHere(src, room, strict);
    } else {
      Taken16(src, room, strict);
      var n := NextOf16(src, strict);
      var left := room - Width8(n.ch);
      StopsBetweenCharacters16(src[n.len..], left, strict);
      var rest := Convert16(src[n.len..], left, strict);
      assert src[n.len..][rest.used..] == src[r.used..];
      EncodeNext(n.ch, Chars16(src[n.len..], rest.used, strict).value);
    }
  }

  lemma StopsHere(src: seq<Unit16>, room: int, strict: bool)
    requires Convert16(src, room, strict).used == 0
    ensures var r := Convert16(src, room, strict);
      r.out == [] == EncodeAll8([]) && StopsFor16(src[0..], room, strict, r.result)
  {
    hide NextOf16, Encode8;
    assert src[0..] == src;
  }

  lemma EncodeNext(ch: int, cs: seq<int>)
    requires 0 <= ch <= 0x10_FFFF
    ensures EncodeAll8([ch] + cs) == Encode8(ch) + EncodeAll8(cs)
  {
    assert ([ch] + cs)[1..] == cs;
  }

  /** The consumed prefix is a string of its own: converted alone, it gives the same bytes and is used up. */
  predicate Alone(src: seq<Unit16>, room: int, strict: bool) {
    var r := Convert16(src, room, strict);
    Convert16(src[..r.used], room, strict) == Outcome(ConversionOK, r.used, r.out)
  }

  predicate EndsHigh(src: seq<Unit16>, n: nat)
    requires n <= |src|
  {
    n > 0 && IsHigh(src[n - 1])
  }

  /** A high surrogate with a unit behind it that is no low surrogate. */
  predicate LoneHigh(src: seq<Unit16>) {
    exists i :: 0 <= i && i + 1 < |src| && IsHigh(src[i]) && !IsLow(src[i + 1])
  }

  // In one conversion it depends on the last unit consumed.
  lemma {:induction false} AloneAt(src: seq<Unit16>, room: int, strict: bool)
    ensures Alone(src, room, strict) <==> !EndsHigh(src, Convert16(src, room, strict).used)
    decreases |src|
  {
    hide *;
    var r := Convert16(src, room, strict);
    AloneIs(src, room, strict);
    if r.used == 0 {
      NoPrefix(src, room, strict);
    } else {
      Taken16(src, room, strict);
      var n := NextOf16(src, strict);
      var left := room - Width8(n.ch);
      var rest := Convert16(src[n.len..], left, strict);
      ResultOf(n.len, Encode8(n.ch), rest);
      AloneAt(src[n.len..], left, strict);
      AloneIs(src[n.len..], left, strict);
      PrefixNext16(src, r.used, strict);
      EndsTail(src, n.len, rest.used);
      if r.used == 1 && IsHigh(src[0]) {
        StopsAtOnce(src[..1], room, strict);
        EndsIs(src, 1);
      } else {
        var again := Convert16(src[n.len..][..rest.used], left, strict);
        assert src[..n.len] + src[n.len..][..rest.used] == src[..r.used];
        Step16(src[..n.len], src[n.len..][..rest.used], room, strict, n.ch);
        SameFront(Encode8(n.ch), again.out, rest.out);
        SameThen(n.len, Encode8(n.ch), again, rest);
      }
    }
  }

  lemma AloneIs(src: seq<Unit16>, room: int, strict: bool)
    ensures var r := Convert16(src, room, strict);
      Alone(src, room, strict) <==> Convert16(src[..r.used], room, strict) == Outcome(ConversionOK, r.used, r.out)
    ensures !EndsHigh(src, 0)
  {
    hide Convert16;
  }

  lemma EndsIs(src: seq<Unit16>, n: nat)
    requires 0 < n <= |src|
    ensures EndsHigh(src, n) <==> IsHigh(src[n - 1])
  {
  }

  lemma EndsTail(src: seq<Unit16>, len: nat, used: nat)
    requires len + used <= |src|
    ensures used > 0 ==> (EndsHigh(src, len + used) <==> EndsHigh(src[len..], used))
    ensures used == 0 && len > 0 ==> (EndsHigh(src, len + used) <==> IsHigh(src[len - 1]))
    ensures used == 0 ==> !EndsHigh(src[len..], used)
  {
  }

  // A prefix can end in a high surrogate only in lenient mode, in front of a unit that is not low.
  lemma {:induction false} HighEnd(src: seq<Unit16>, room: int, strict: bool)
    requires EndsHigh(src, Convert16(src, room, strict).used)
    ensures var k := Convert16(src, room, strict).used; !strict && k < |src| && !IsLow(src[k])
    decreases |src|
  {
    hide *;
    var r := Convert16(src, room, strict);
    AloneIs(src, room, strict);
    Taken16(src, room, strict);
    var n := NextOf16(src, strict);
    var left := room - Width8(n.ch);
    var rest := Convert16(src[n.len..], left, strict);
    ResultOf(n.len, Encode8(n.ch), rest);
    EndsTail(src, n.len, rest.used);
    if rest.used > 0 {
      HighEnd(src[n.len..], left, strict);
      assert src[n.len..][rest.used] == src[r.used];
    } else {
      LoneNext(src, strict);
    }
  }

  lemma LoneNext(src: seq<Unit16>, strict: bool)
    requires |src| > 0 && NextOf16(src, strict).Char? && IsHigh(src[NextOf16(src, strict).len - 1])
    ensures NextOf16(src, strict).len == 1 && !strict && |src| > 1 && !IsLow(src[1])
  {
  }

  lemma LenientNext(src: seq<Unit16>)
    requires |src| > 1
    ensures NextOf16(src, false).Char? && (NextOf16(src, false).len == 2 ==> IsLow(src[1]) && !IsHigh(src[1]))
    ensures IsHigh(src[0]) && !IsLow(src[1]) ==> NextOf16(src, false) == Char(src[0], 1)
  {
  }

  // The room that a lenient conversion needs to stop right behind a lone high surrogate.
  lemma {:induction false} StopsBehind(src: seq<Unit16>, i: nat) returns (room: int)
    requires i + 1 < |src| && IsHigh(src[i]) && !IsLow(src[i + 1])
    ensures room >= 0 && Convert16(src, room, false).used == i + 1
    decreases |src|
  {
    hide *;
    LenientNext(src);
    var n := NextOf16(src, false);
    assert src == src[..n.len] + src[n.len..];
    if i == 0 {
      room := Width8(n.ch);
      Step16(src[..1], src[1..], room, false, n.ch);
      ResultOf(1, Encode8(n.ch), Convert16(src[1..], 0, false));
      NoRoom(src[1..]);
    } else {
      assert n.len <= i;
      assert src[n.len..][i - n.len] == src[i] && src[n.len..][i - n.len + 1] == src[i + 1];
      var left := StopsBehind(src[n.len..], i - n.len);
      room := left + Width8(n.ch);
      Step16(src[..n.len], src[n.len..], room, false, n.ch);
      ResultOf(n.len, Encode8(n.ch), Convert16(src[n.len..], left, false));
    }
  }

  lemma NoRoom(src: seq<Unit16>)
    ensures Convert16(src, 0, false).used == 0
  {
    hide NextOf16, Encode8;
  }

  /**
   Wherever the target ends, the consumed prefix is a string of its own: exactly in strict mode, or
   if the source has no lone high surrogate in front of another unit.
   */
  lemma PrefixAlone16Iff(src: seq<Unit16>, strict: bool)
    ensures (forall room: int :: Alone(src, room, strict)) <==> strict || !LoneHigh(src)
  {
    hide *;
    if strict || !LoneHigh(src) {
      forall room: int
        ensures Alone(src, room, strict)
      {
        AloneAt(src, room, strict);
        var k := Convert16(src, room, strict).used;
        AloneIs(src, room, strict);
        if EndsHigh(src, k) {
          HighEnd(src, room, strict);
          EndsIs(src, k);
          LoneHighAt(src, k - 1);
        }
      }
    } else {
      var i := LoneHighIndex(src);
      var room := StopsBehind(src, i);
      AloneAt(src, room, strict);
      EndsIs(src, i + 1);
      assert !Alone(src, room, strict);
    }
  }

  lemma LoneHighAt(src: seq<Unit16>, i: nat)
    requires i + 1 < |src| && IsHigh(src[i]) && !IsLow(src[i + 1])
    ensures LoneHigh(src)
  {
  }

  lemma LoneHighIndex(src: seq<Unit16>) returns (i: nat)
    requires LoneHigh(src)
    ensures i + 1 < |src| && IsHigh(src[i]) && !IsLow(src[i + 1])
  {
    i :| i + 1 < |src| && IsHigh(src[i]) && !IsLow(src[i + 1]);
  }

  /** Such a source: with room for three bytes the surrogate is converted, but alone it is not. */
  lemma PrefixNotAlone(src: seq<Unit16>)
    requires src == [0xD800, 0x41]
    ensures !Alone(src, 3, false)
    ensures Convert16(src, 3, false) == Outcome(TargetExhausted, 1, [0xED, 0xA0, 0x80])
    ensures Convert16(src[..1], 3, false) == Outcome(SourceExhausted, 0, [])
  {
    var rest := Convert16(src[1..], 0, false);
    assert rest == Outcome(TargetExhausted, 0, []);
    assert Encode8(0xD800) == [0xED, 0xA0, 0x80];
    assert [0xED, 0xA0, 0x80] + rest.out == [0xED, 0xA0, 0x80];
    assert Convert16(src, 3, false).used == 1;
  }

  lemma NoPrefix(src: seq<Unit16>, room: int, strict: bool)
    requires Convert16(src, room, strict).used == 0
    ensures Convert16(src, room, strict).out == [] && Convert16(src[..0], room, strict) == Outcome(ConversionOK, 0, [])
  {
    hide NextOf16, Encode8;
  }

  lemma StopsAtOnce(src: seq<Unit16>, room: int, strict: bool)
    requires |src| > 0 && NextOf16(src, strict).Stop?
    ensures Convert16(src, room, strict).used == 0
  {
    hide NextOf16, Encode8;
  }

  lemma SameThen(n: nat, out: seq<Byte>, a: Outcome<Byte>, r: Outcome<Byte>)
    requires out + a.out == out + r.out <==> a.out == r.out
    ensures Then(n, out, a) == Outcome(ConversionOK, n + r.used, out + r.out) <==> a == Outcome(ConversionOK, r.used, r.out)
  {
  }

  lemma SameFront(a: seq<Byte>, b: seq<Byte>, c: seq<Byte>)
    ensures a + b == a + c <==> b == c
  {
    assert (a + b)[|a|..] == b && (a + c)[|a|..] == c;
  }

  lemma PrefixNext16(src: seq<Unit16>, n: nat, strict: bool)
    requires 0 < n <= |src| && NextOf16(src, strict).Char? && NextOf16(src, strict).len <= n
    ensures NextOf16(src[..n], strict) ==
      if n == 1 && IsHigh(src[0]) then Stop(SourceExhausted) else NextOf16(src, strict)
    ensures NextOf16(src, strict).len == 2 ==> IsLow(src[1])
    ensures NextOf16(src, strict).len == n ==> (IsHigh(src[n - 1]) <==> n == 1 && IsHigh(src[0]))
  {
  }

  /** For UTF-8 the prefix is always a string of its own. */
  lemma {:induction false} PrefixAlone8(src: seq<Byte>, room: int, strict: bool)
    ensures var r := Convert8(src, room, strict);
      Convert8(src[..r.used], room, strict) == Outcome(ConversionOK, r.used, r.out)
    decreases |src|
  {
    hide *;
    var r := Convert8(src, room, strict);
    if r.used == 0 {
      NothingWritten8(src, room, strict);
      assert src[..0] == [];
      Nothing(0, strict, room, strict);
    } else {
      Taken8(src, room, strict);
      var n := NextOf8(src);
      var us := Encode16(n.ch, strict);
      var rest := Convert8(src[n.len..], room - |us|, strict);
      ResultOf(n.len, us, rest);
      PrefixAlone8(src[n.len..], room - |us|, strict);
      PrefixNext8(src, r.used);
      assert src[..n.len] + src[n.len..][..rest.used] == src[..r.used];
      Step8(src[..n.len], src[n.len..][..rest.used], room, strict, n.ch);
      ResultOf(n.len, us, Convert8(src[n.len..][..rest.used], room - |us|, strict));
    }
  }

  /** The reason why nothing more is written, with `left` units of room. */
  predicate StopsFor8(src: seq<Byte>, left: int, strict: bool, result: Result) {
    if |src| == 0 then result == ConversionOK
    else match NextOf8(src)
      case Stop(reason) => result == reason
      case Char(ch, _) => result == TargetExhausted && ch >= 0 && |Encode16(ch, strict)| > left
  }

  /** And the stop has its exact reason. */
  lemma {:induction false} StopReason8(src: seq<Byte>, room: int, strict: bool)
    ensures var r := Convert8(src, room, strict); StopsFor8(src[r.used..], room - |r.out|, strict, r.result)
    decreases |src|
  {
    hide *;
    var r := Convert8(src, room, strict);
    if r.used == 0 {
      StopsHere8(src, room, strict);
    } else {
      Taken8(src, room, strict);
      var n := NextOf8(src);
      var us := Encode16(n.ch, strict);
      var rest := Convert8(src[n.len..], room - |us|, strict);
      ResultOf(n.len, us, rest);
      StopReason8(src[n.len..], room - |us|, strict);
      assert src[n.len..][rest.used..] == src[r.used..];
    }
  }

  lemma StopsHere8(src: seq<Byte>, room: int, strict: bool)
    requires Convert8(src, room, strict).used == 0
    ensures var r := Convert8(src, room, strict); r.out == [] && StopsFor8(src[0..], room, strict, r.result)
  {
    hide NextOf8, Encode16;
    assert src[0..] == src;
    if |src| > 0 && NextOf8(src).Char? {
      LegalNext(src);
    }
  }

  lemma PrefixNext8(src: seq<Byte>, n: nat)
    requires 0 < n <= |src| && NextOf8(src).Char? && NextOf8(src).len <= n
    ensures NextOf8(src[..n]) == NextOf8(src)
  {
    hide IsLegal, Decode8;
    var k := NextOf8(src).len;
    assert src[..n][..k] == src[..k];
  }

  // ---------- enough room is enough ----------

  /** A conversion that did not run out of room is the same in any room that holds its output. */
  lemma {:induction false} RoomEnough16(src: seq<Unit16>, room: int, strict: bool, other: int)
    requires Convert16(src, room, strict).result != TargetExhausted && other >= |Convert16(src, room, strict).out|
    ensures Convert16(src, other, strict) == Convert16(src, room, strict)
    decreases |src|
  {
    hide NextOf16, Encode8;
    if |src| > 0 && NextOf16(src, strict).Char? {
      var n := NextOf16(src, strict);
      RoomEnough16(src[n.len..], room - Width8(n.ch), strict, other - Width8(n.ch));
    }
  }

  lemma {:induction false} RoomEnough8(src: seq<Byte>, room: int, strict: bool, other: int)
    requires Convert8(src, room, strict).result != TargetExhausted && other >= |Convert8(src, room, strict).out|
    ensures Convert8(src, other, strict) == Convert8(src, room, strict)
    decreases |src|
  {
    hide NextOf8, Encode16;
    if |src| > 0 && NextOf8(src).Char? {
      var n := NextOf8(src);
      LegalNext(src);
      var k := |Encode16(n.ch, strict)|;
      RoomEnough8(src[n.len..], room - k, strict, other - k);
    }
  }

  lemma LegalNext(src: seq<Byte>)
    requires |src| > 0 && NextOf8(src).Char?
    ensures IsScalar(NextOf8(src).ch)
  {
    hide IsLegal, Decode8;
    LegalIsScalar(src[..NextOf8(src).len]);
  }
}
