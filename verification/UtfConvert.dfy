/**
 The two converters of libmmbd/src/ConvertUTF.c as loops over buffers, with their dry-run mode, and
 the callers in libmmbd/src/utf8.cpp.
 */
module UtfConvert {
  import opened Bytes
  import opened Utf
  import opened UtfProofs

  // ---------- UTF-16 to UTF-8 ----------

  /** The bytes of a character, stored from the last to the first, in front of `at`. */
  method StoreBackwards(ch: int, target: array<Byte>, at: nat)
    requires 0 <= ch <= 0x10_FFFF && Width8(ch) <= at <= target.Length
    modifies target
    ensures target[at - Width8(ch)..at] == Encode8(ch)
    ensures target[..at - Width8(ch)] == old(target[..at - Width8(ch)]) && target[at..] == old(target[at..])
  {
    var n := Width8(ch);
    var c, t := ch, at;
    if n >= 4 {
      t := t - 1;
      target[t] := 0x80 + c % 0x40;
      c := c / 0x40;
    }
    if n >= 3 {
      t := t - 1;
      target[t] := 0x80 + c % 0x40;
      c := c / 0x40;
    }
    if n >= 2 {
      t := t - 1;
      target[t] := 0x80 + c % 0x40;
      c := c / 0x40;
    }
    t := t - 1;
    Shifted(ch);
    target[t] := c + if n == 1 then 0 else if n == 2 then 0xC0 else if n == 3 then 0xE0 else 0xF0;
  }

  /** done lies at start..t, and nothing else has changed. */
  ghost predicate Wrote<T>(before: seq<T>, now: seq<T>, start: nat, t: nat, done: seq<T>) {
    && |now| == |before| && start <= t <= |now|
    && now[start..t] == done && now[..start] == before[..start] && now[t..] == before[t..]
  }

  lemma WroteNothing<T>(before: seq<T>, start: nat)
    requires start <= |before|
    ensures Wrote(before, before, start, start, [])
  {
  }

  lemma WroteMore<T>(before: seq<T>, now: seq<T>, next: seq<T>, start: nat, t: nat, done: seq<T>, more: seq<T>)
    requires Wrote(before, now, start, t, done) && t + |more| <= |now| == |next|
    requires next[t..t + |more|] == more && next[..t] == now[..t] && next[t + |more|..] == now[t + |more|..]
    ensures Wrote(before, next, start, t + |more|, done + more)
  {
    assert next[start..t] == next[..t][start..] == now[..t][start..] == now[start..t];
    assert next[start..t + |more|] == next[start..t] + next[t..t + |more|];
    assert next[..start] == next[..t][..start] == now[..t][..start] == now[..start];
    assert now[t + |more|..] == now[t..][|more|..] == before[t..][|more|..] == before[t + |more|..];
  }

  lemma Advance16(src: seq<Unit16>, s: nat, done: seq<Byte>, room: int, strict: bool)
    requires s < |src| && NextOf16(src[s..], strict).Char? && Width8(NextOf16(src[s..], strict).ch) <= room
    ensures var n := NextOf16(src[s..], strict);
      && s + n.len <= |src|
      && Then(s, done, Convert16(src[s..], room, strict)) ==
         Then(s + n.len, done + Encode8(n.ch), Convert16(src[s + n.len..], room - Width8(n.ch), strict))
  {
    hide NextOf16, Encode8;
    var n := NextOf16(src[s..], strict);
    assert src[s..][n.len..] == src[s + n.len..];
    var r := Convert16(src[s + n.len..], room - Width8(n.ch), strict);
    assert done + (Encode8(n.ch) + r.out) == done + Encode8(n.ch) + r.out;
  }

  lemma Stopped16(src: seq<Unit16>, s: nat, done: seq<Byte>, room: int, strict: bool)
    requires s <= |src|
    ensures s == |src| ==> Then(s, done, Convert16(src[s..], room, strict)) == Outcome(ConversionOK, s, done)
    ensures s < |src| ==> var n := NextOf16(src[s..], strict);
      && (n.Stop? ==> Then(s, done, Convert16(src[s..], room, strict)) == Outcome(n.reason, s, done))
      && (n.Char? && Width8(n.ch) > room ==>
        Then(s, done, Convert16(src[s..], room, strict)) == Outcome(TargetExhausted, s, done))
  {
    hide NextOf16, Encode8;
    assert done + [] == done;
  }

  lemma Start16(src: seq<Unit16>, room: int, strict: bool)
    ensures Convert16(src, room, strict) == Then(0, [], Convert16(src[0..], room, strict))
  {
    assert src[0..] == src;
  }

  /** The next character; on failure s is backed up to where it began. */
  method TakeUnit(src: seq<Unit16>, start: nat, strict: bool) returns (result: Result, ch: int, s: nat)
    requires start < |src|
    ensures match NextOf16(src[start..], strict)
            case Stop(reason) => result == reason && s == start
            case Char(c, len) => result == ConversionOK && ch == c && s == start + len
  {
    result, s := ConversionOK, start;
    ch := src[s];
    s := s + 1;
    if 0xD800 <= ch <= 0xDBFF {
      if s < |src| {
        var ch2: int := src[s];
        if 0xDC00 <= ch2 <= 0xDFFF {
          ch := (ch - 0xD800) * 0x400 + (ch2 - 0xDC00) + HALF_BASE;
          s := s + 1;
        } else if strict {
          s := s - 1;
          result := SourceIllegal;
        }
      } else {
        s := s - 1;
        result := SourceExhausted;
      }
    } else if strict {
      if 0xDC00 <= ch <= 0xDFFF {
        s := s - 1;
        result := SourceIllegal;
      }
    }
  }

  /**
   ConvertUTF16toUTF8 from the start of src into target[start..end], or only counting.  Both modes
   advance both pointers alike: the outcome does not depend on writeTarget.
   */
  method ConvertUTF16toUTF8(src: seq<Unit16>, target: array<Byte>, start: nat, end: nat, strict: bool, writeTarget: bool)
    returns (result: Result, s: nat, t: nat)
    requires start <= end && (writeTarget ==> end <= target.Length)
    modifies target
    ensures var r := Convert16(src, end - start, strict); result == r.result && s == r.used && t == start + |r.out|
    ensures writeTarget ==> Wrote(old(target[..]), target[..], start, t, Convert16(src, end - start, strict).out)
    ensures !writeTarget ==> target[..] == old(target[..])
  {
    hide Convert16, Then, NextOf16, Encode8, Wrote;
    result, s, t := ConversionOK, 0, start;
    ghost var done: seq<Byte> := [];
    Start16(src, end - start, strict);
    if writeTarget {
      WroteNothing(target[..], start);
    }
    while s < |src|
      invariant s <= |src| && start <= t <= end && |done| == t - start && result == ConversionOK
      invariant Convert16(src, end - start, strict) == Then(s, done, Convert16(src[s..], end - t, strict))
      invariant writeTarget ==> Wrote(old(target[..]), target[..], start, t, done)
      invariant !writeTarget ==> target[..] == old(target[..])
    {
      var oldSource := s;
      Stopped16(src, s, done, end - t, strict);
      var ch;
      result, ch, s := TakeUnit(src, s, strict);
      if result != ConversionOK {
        break;
      }
      var bytesToWrite := Width8(ch);
      t := t + bytesToWrite;
      if t > end {
        s := oldSource;
        t := t - bytesToWrite;
        result := TargetExhausted;
        break;
      }
      Advance16(src, oldSource, done, end - (t - bytesToWrite), strict);
      if writeTarget {
        ghost var now := target[..];
        StoreBackwards(ch, target, t);
        WroteMore(old(target[..]), now, target[..], start, t - bytesToWrite, done, Encode8(ch));
      }
      done := done + Encode8(ch);
    }
    if result == ConversionOK {
      Stopped16(src, s, done, end - t, strict);
    }
  }

  // ---------- UTF-8 to UTF-16 ----------

  lemma Advance8(src: seq<Byte>, s: nat, done: seq<Unit16>, room: int, strict: bool, ch: int, len: nat)
    requires s < |src| && NextOf8(src[s..]) == Char(ch, len) && ch >= 0 && |Encode16(ch, strict)| <= room
    ensures s + len <= |src|
    ensures Then(s, done, Convert8(src[s..], room, strict)) ==
      Then(s + len, done + Encode16(ch, strict), Convert8(src[s + len..], room - |Encode16(ch, strict)|, strict))
  {
    hide NextOf8, Encode16;
    assert src[s..][len..] == src[s + len..];
    var us := Encode16(ch, strict);
    var r := Convert8(src[s + len..], room - |us|, strict);
    assert done + (us + r.out) == done + us + r.out;
  }

  lemma Stopped8(src: seq<Byte>, s: nat, done: seq<Unit16>, room: int, strict: bool)
    requires s < |src|
    ensures var n := NextOf8(src[s..]);
      && (n.Stop? ==> Then(s, done, Convert8(src[s..], room, strict)) == Outcome(n.reason, s, done))
      && (n.Char? ==> IsScalar(n.ch))
      && (n.Char? && n.ch >= 0 && |Encode16(n.ch, strict)| > room ==>
        Then(s, done, Convert8(src[s..], room, strict)) == Outcome(TargetExhausted, s, done))
  {
    hide NextOf8, Encode16, IsScalar;
    assert done + [] == done;
    if NextOf8(src[s..]).Char? {
      LegalNext(src[s..]);
    }
  }

  lemma Finished8(src: seq<Byte>, done: seq<Unit16>, room: int, strict: bool)
    ensures Then(|src|, done, Convert8(src[|src|..], room, strict)) == Outcome(ConversionOK, |src|, done)
  {
    assert done + [] == done;
  }

  lemma Start8(src: seq<Byte>, room: int, strict: bool)
    ensures Convert8(src, room, strict) == Then(0, [], Convert8(src[0..], room, strict))
  {
    assert src[0..] == src;
  }

  /** The bytes of one character shifted together; the lengths 5 and 6 are never legal. */
  method TakeBytes(src: seq<Byte>, start: nat, extra: nat) returns (ch: int, s: nat)
    requires extra <= 3 && start + extra < |src|
    ensures ch == Accumulated(src[start..start + extra + 1]) && s == start + extra + 1
  {
    ch, s := 0, start;
    if extra >= 3 {
      ch := (ch + src[s]) * 0x40;
      s := s + 1;
    }
    if extra >= 2 {
      ch := (ch + src[s]) * 0x40;
      s := s + 1;
    }
    if extra >= 1 {
      ch := (ch + src[s]) * 0x40;
      s := s + 1;
    }
    ch := ch + src[s];
    s := s + 1;
    AccumulatedIs(src[start..start + extra + 1]);
  }

  /** The next character; on failure s stays where it began. */
  method TakeCharacter(src: seq<Byte>, start: nat) returns (result: Result, ch: int, s: nat)
    requires start < |src|
    ensures match NextOf8(src[start..])
            case Stop(reason) => result == reason && s == start
            case Char(c, len) => result == ConversionOK && ch == c && s == start + len
  {
    hide IsLegal, Accumulated;
    result, ch, s := ConversionOK, 0, start;
    var extra := Trailing(src[s]);
    if s + extra >= |src| {
      result := SourceExhausted;
      return;
    }
    assert src[start..][..extra + 1] == src[start..start + extra + 1];
    if !IsLegal(src[s..s + extra + 1]) {
      result := SourceIllegal;
      return;
    }
    ShortIfLegal(src[s..s + extra + 1]);
    ch, s := TakeBytes(src, s, extra);
    ch := ch - Offset(extra);
  }

  lemma ShortIfLegal(bs: seq<Byte>)
    requires IsLegal(bs)
    ensures |bs| <= 4
  {
  }

  method Put(target: array<Unit16>, at: nat, u: Unit16, writeTarget: bool) returns (t: nat)
    requires writeTarget ==> at < target.Length
    modifies target
    ensures t == at + 1
    ensures target[..] == if writeTarget then old(target[..][at := u]) else old(target[..])
  {
    if writeTarget {
      target[at] := u;
    }
    t := at + 1;
  }

  /** Stores one character, or says why it cannot; a surrogate or too large value is replaced or refused. */
  method EmitUnits(ch: int, target: array<Unit16>, at: nat, end: nat, strict: bool, writeTarget: bool)
    returns (result: Result, t: nat)
    requires ch >= 0 && at <= end && (writeTarget ==> end <= target.Length)
    modifies target
    ensures result == if at >= end then TargetExhausted
                      else if Encode16(ch, strict) == [] then SourceIllegal
                      else if at + |Encode16(ch, strict)| > end then TargetExhausted
                      else ConversionOK
    ensures t == at + if result == ConversionOK then |Encode16(ch, strict)| else 0
    ensures target[..] == if writeTarget && result == ConversionOK then Stored(old(target[..]), at, Encode16(ch, strict))
                          else old(target[..])
  {
    result, t := ConversionOK, at;
    StoredIs(target[..], at, Encode16(ch, strict));
    if t >= end {
      result := TargetExhausted;
      return;
    }
    if ch <= 0xFFFF {
      if IsSurrogate(ch) {
        if strict {
          result := SourceIllegal;
        } else {
          t := Put(target, t, REPLACEMENT, writeTarget);
        }
      } else {
        t := Put(target, t, ch, writeTarget);
      }
    } else if ch > 0x10_FFFF {
      if strict {
        result := SourceIllegal;
      } else {
        t := Put(target, t, REPLACEMENT, writeTarget);
      }
    } else {
      if t + 1 >= end {
        result := TargetExhausted;
        return;
      }
      t := Put(target, t, (ch - HALF_BASE) / 0x400 + 0xD800, writeTarget);
      t := Put(target, t, (ch - HALF_BASE) % 0x400 + 0xDC00, writeTarget);
    }
  }

  function Stored(data: seq<Unit16>, at: nat, us: seq<Unit16>): (r: seq<Unit16>)
    ensures |r| == |data|
  {
    seq(|data|, i requires 0 <= i < |data| => if at <= i < at + |us| then us[i - at] else data[i])
  }

  lemma StoredIs(data: seq<Unit16>, at: nat, us: seq<Unit16>)
    ensures |us| == 1 && at < |data| ==> Stored(data, at, us) == data[at := us[0]]
    ensures |us| == 2 && at + 1 < |data| ==> Stored(data, at, us) == data[at := us[0]][at + 1 := us[1]]
  {
  }

  lemma WroteUnits(before: seq<Unit16>, now: seq<Unit16>, start: nat, t: nat, done: seq<Unit16>, us: seq<Unit16>)
    requires Wrote(before, now, start, t, done) && t + |us| <= |now|
    ensures Wrote(before, Stored(now, t, us), start, t + |us|, done + us)
  {
    hide Wrote;
    var next := Stored(now, t, us);
    assert next[t..t + |us|] == us && next[..t] == now[..t] && next[t + |us|..] == now[t + |us|..];
    WroteMore(before, now, next, start, t, done, us);
  }

  /** ConvertUTF8toUTF16 from the start of src into target[start..end], or only counting. */
  method ConvertUTF8toUTF16(src: seq<Byte>, target: array<Unit16>, start: nat, end: nat, strict: bool, writeTarget: bool)
    returns (result: Result, s: nat, t: nat)
    requires start <= end && (writeTarget ==> end <= target.Length)
    modifies target
    ensures var r := Convert8(src, end - start, strict); result == r.result && s == r.used && t == start + |r.out|
    ensures writeTarget ==> Wrote(old(target[..]), target[..], start, t, Convert8(src, end - start, strict).out)
    ensures !writeTarget ==> target[..] == old(target[..])
  {
    hide Convert8, Then, NextOf8, Encode16, Wrote;
    result, s, t := ConversionOK, 0, start;
    ghost var done: seq<Unit16> := [];
    Start8(src, end - start, strict);
    if writeTarget {
      WroteNothing(target[..], start);
    }
    while s < |src|
      invariant s <= |src| && start <= t <= end && |done| == t - start && result == ConversionOK
      invariant Convert8(src, end - start, strict) == Then(s, done, Convert8(src[s..], end - t, strict))
      invariant writeTarget ==> Wrote(old(target[..]), target[..], start, t, done)
      invariant !writeTarget ==> target[..] == old(target[..])
    {
      var oldSource := s;
      Stopped8(src, s, done, end - t, strict);
      var ch;
      result, ch, s := TakeCharacter(src, s);
      if result != ConversionOK {
        break;
      }
      UnitsAreFew(ch, strict);
      ghost var now := target[..];
      var next;
      result, next := EmitUnits(ch, target, t, end, strict, writeTarget);
      if result != ConversionOK {
        s := oldSource;
        break;
      }
      Advance8(src, oldSource, done, end - t, strict, ch, s - oldSource);
      if writeTarget {
        WroteUnits(old(target[..]), now, start, t, done, Encode16(ch, strict));
      }
      done, t := done + Encode16(ch, strict), next;
    }
    if result == ConversionOK {
      Finished8(src, done, end - t, strict);
    }
  }

  // ---------- utf8.cpp ----------

  const NO_LIMIT: nat := 0x0FFF_FFFF

  /** The length pass: a dry run without a buffer. */
  method Utf16ToUtf8Len(src: seq<Unit16>) returns (n: nat)
    ensures var r := Convert16(src, NO_LIMIT, false); n == if r.result == ConversionOK then |r.out| else 0
  {
    var none := new Byte[0];
    var r, s, d := ConvertUTF16toUTF8(src, none, 0, NO_LIMIT, false, false);
    n := if r != ConversionOK then 0 else d;
  }

  /** The writing pass: on failure the first byte becomes the terminator. */
  method Utf16ToUtf8(dst: array<Byte>, src: seq<Unit16>)
    requires dst.Length > 0 || Convert16(src, 0, false).result == ConversionOK
    modifies dst
    ensures var r := Convert16(src, dst.Length, false);
      if r.result == ConversionOK then dst[..] == r.out + old(dst[|r.out|..]) else dst[0] == 0
  {
    var r, s, t := ConvertUTF16toUTF8(src, dst, 0, dst.Length, false, true);
    if r != ConversionOK {
      dst[0] := 0;
    } else {
      assert dst[..] == dst[0..t] + dst[t..];
    }
  }

  /** A buffer of the length that the length pass has found is filled completely and never exhausted. */
  lemma LengthIsExact16(src: seq<Unit16>)
    requires Convert16(src, NO_LIMIT, false).result == ConversionOK
    ensures var n := |Convert16(src, NO_LIMIT, false).out|;
      forall room :: n <= room ==> Convert16(src, room, false) == Convert16(src, NO_LIMIT, false)
  {
    forall room | |Convert16(src, NO_LIMIT, false).out| <= room
      ensures Convert16(src, room, false) == Convert16(src, NO_LIMIT, false)
    {
      RoomEnough16(src, NO_LIMIT, false, room);
    }
  }

  method Utf8ToUtf16Len(src: seq<Byte>) returns (n: nat)
    ensures var r := Convert8(src, NO_LIMIT, false); n == if r.result == ConversionOK then |r.out| else 0
  {
    var none := new Unit16[0];
    var r, s, d := ConvertUTF8toUTF16(src, none, 0, NO_LIMIT, false, false);
    n := if r != ConversionOK then 0 else d;
  }

  method Utf8ToUtf16(dst: array<Unit16>, src: seq<Byte>)
    modifies dst
    ensures dst.Length > 0 ==>
      var r := Convert8(src, dst.Length, false);
      if r.result == ConversionOK then dst[..] == r.out + old(dst[|r.out|..]) else dst[0] == 0
  {
    if dst.Length == 0 {
      return;
    }
    var r, s, t := ConvertUTF8toUTF16(src, dst, 0, dst.Length, false, true);
    if r != ConversionOK {
      dst[0] := 0;
    } else {
      assert dst[..] == dst[0..t] + dst[t..];
    }
  }

  lemma LengthIsExact8(src: seq<Byte>)
    requires Convert8(src, NO_LIMIT, false).result == ConversionOK
    ensures var n := |Convert8(src, NO_LIMIT, false).out|;
      forall room :: n <= room ==> Convert8(src, room, false) == Convert8(src, NO_LIMIT, false)
  {
    forall room | |Convert8(src, NO_LIMIT, false).out| <= room
      ensures Convert8(src, room, false) == Convert8(src, NO_LIMIT, false)
    {
      RoomEnough8(src, NO_LIMIT, false, room);
    }
  }

  /** Through both passes and back a well-formed string is restored. */
  lemma BothPasses(src: seq<Unit16>, room: nat, back: nat)
    requires WellFormed16(src) && 3 * |src| <= NO_LIMIT
    requires room >= |Convert16(src, NO_LIMIT, false).out| && back >= |src|
    ensures var bs := Convert16(src, room, false).out; Convert8(bs, back, false) == Outcome(ConversionOK, |bs|, src)
  {
    Converts16(src, NO_LIMIT, false);
    LengthIsExact16(src);
    RoundTrip16(src, room, false, back, false);
  }
}
