/**
 Characters in UTF-16 and UTF-8.
 */
module Utf {
  import opened Options
  import opened Hex

  type Rune = x: int | 0 <= x < 0x11_0000

  predicate Surrogate(r: Rune) {
    0xD800 <= r < 0xE000
  }

  /** A character, which no surrogate is. */
  predicate IsScalar(r: Rune) {
    !Surrogate(r)
  }

  ghost predicate AllScalar(rs: seq<Rune>) {
    forall i :: 0 <= i < |rs| ==> IsScalar(rs[i])
  }

  // ---------------------------------------------------------------------------------------
  // UTF-16

  function Utf16Unit(r: Rune): (u: seq<Unit>)
    ensures 1 <= |u| <= 2
  {
    if r < 0x1_0000 then [r] else [0xD800 + (r - 0x1_0000) / 0x400, 0xDC00 + (r - 0x1_0000) % 0x400]
  }

  function Utf16(rs: seq<Rune>): seq<Unit> {
    if rs == [] then [] else Utf16Unit(rs[0]) + Utf16(rs[1..])
  }

  /** The first character of a string and the units it takes, unless that is a surrogate by itself. */
  function ReadRune(s: seq<Unit>): (r: Option<(Rune, nat)>)
    requires s != []
    ensures r.Some? ==> 1 <= r.value.1 <= |s| && IsScalar(r.value.0)
  {
    var c := s[0];
    if 0xD800 <= c < 0xDC00 then
      if |s| > 1
        && 0xDC00 <= s[1] < 0xE000 then Some(((c as int - 0xD800) * 0x400 + (s[1] as int - 0xDC00) + 0x1_0000, 2))
          else None
    else if 0xDC00 <= c < 0xE000 then None
    else Some((c, 1))
  }

  /** The characters of a string without lone surrogates. */
  function Runes(s: seq<Unit>): (r: Option<seq<Rune>>) {
    if s == [] then Some([])
    else
      var head := ReadRune(s);
      if head.None? then None
      else
        var rest := Runes(s[head.value.1..]);
        if rest.None? then None else Some([head.value.0] + rest.value)
  }

  lemma ReadsWhatIsWritten(r: Rune, rest: seq<Unit>)
    requires IsScalar(r)
    ensures ReadRune(Utf16Unit(r) + rest) == Some((r, |Utf16Unit(r)|))
  {
  }

  lemma WritesWhatIsRead(s: seq<Unit>)
    requires s != [] && ReadRune(s).Some?
    ensures var (r, n) := ReadRune(s).value; Utf16Unit(r) == s[..n]
  {
    var (r, n) := ReadRune(s).value;
    if n == 2 {
      var h, l := s[0] as int - 0xD800, s[1] as int - 0xDC00;
      assert (h * 0x400 + l) / 0x400 == h && (h * 0x400 + l) % 0x400 == l;
      assert Utf16Unit(r) == [s[0], s[1]];
    }
  }

  lemma {:induction false} RunesOfUtf16(rs: seq<Rune>)
    requires AllScalar(rs)
    ensures Runes(Utf16(rs)) == Some(rs)
    decreases |rs|
  {
    hide ReadRune, Utf16Unit;
    if rs != [] {
      var s, u := Utf16(rs), Utf16Unit(rs[0]);
      ReadsWhatIsWritten(rs[0], Utf16(rs[1..]));
      assert s[|u|..] == Utf16(rs[1..]);
      RunesOfUtf16(rs[1..]);
      assert [rs[0]] + rs[1..] == rs;
    }
  }

  /** Strings without lone surrogates are the UTF-16 forms of their characters. */
  lemma {:induction false} Utf16OfRunes(s: seq<Unit>)
    requires Runes(s).Some?
    ensures Utf16(Runes(s).value) == s && AllScalar(Runes(s).value)
    decreases |s|
  {
    hide ReadRune, Utf16Unit;
    if s != [] {
      var (r, n) := ReadRune(s).value;
      WritesWhatIsRead(s);
      Utf16OfRunes(s[n..]);
      assert s == s[..n] + s[n..];
    }
  }

  // ---------------------------------------------------------------------------------------
  // UTF-8

  function EncodeRune(r: Rune): (b: seq<Byte>)
    ensures 1 <= |b| <= 4
  {
    if r < 0x80 then [r]
    else if r < 0x800 then [0xC0 + r / 0x40, 0x80 + r % 0x40]
    else if r < 0x1_0000 then [0xE0 + r / 0x1000, 0x80 + r / 0x40 % 0x40, 0x80 + r % 0x40]
    else [0xF0 + r / 0x4_0000, 0x80 + r / 0x1000 % 0x40, 0x80 + r / 0x40 % 0x40, 0x80 + r % 0x40]
  }

  function Utf8(rs: seq<Rune>): seq<Byte> {
    if rs == [] then [] else EncodeRune(rs[0]) + Utf8(rs[1..])
  }

  const RUNE_ERROR: Rune := 0xFFFD

  predicate Continues(t: seq<Byte>, i: nat, low: int, high: int) {
    i < |t| && low <= t[i] <= high
  }

  /** The six bits of a byte that continues a character. */
  function Low(b: Byte): int {
    b as int - 0x80
  }

  /** The character the bytes begin with and its size, or the replacement character and 1 where they are not UTF-8. */
  function DecodeRune(t: seq<Byte>): (r: (Rune, nat))
    requires t != []
    ensures 1 <= r.1 <= |t|
  {
    var b := t[0] as int;
    if b < 0x80 then (b, 1)
    else if 0xC2 <= b <= 0xDF && Continues(t, 1, 0x80, 0xBF) then ((b - 0xC0) * 0x40 + Low(t[1]), 2)
    else if 0xE0 <= b <= 0xEF && Continues(t, 1, if b == 0xE0 then 0xA0 else 0x80, if b == 0xED then 0x9F else 0xBF)
      && Continues(t, 2, 0x80, 0xBF) then
      ((b - 0xE0) * 0x1000 + Low(t[1]) * 0x40 + Low(t[2]), 3)
    else if 0xF0 <= b <= 0xF4 && Continues(t, 1, if b == 0xF0 then 0x90 else 0x80, if b == 0xF4 then 0x8F else 0xBF)
      && Continues(t, 2, 0x80, 0xBF) && Continues(t, 3, 0x80, 0xBF) then
      ((b - 0xF0) * 0x4_0000 + Low(t[1]) * 0x1000 + Low(t[2]) * 0x40 + Low(t[3]), 4)
    else (RUNE_ERROR, 1)
  }

  /** Whether the replacement character was not read as such. */
  predicate Malformed(t: seq<Byte>)
    requires t != []
  {
    var (r, size) := DecodeRune(t);
    r == RUNE_ERROR && !(size == 3 && t[0] == 0xEF && t[1] == 0xBF && t[2] == 0xBD)
  }

  function RunesOfBytes(t: seq<Byte>): (r: Option<seq<Rune>>) {
    if t == [] then Some([])
    else if Malformed(t) then None
    else
      var (r, size) := DecodeRune(t);
      var rest := RunesOfBytes(t[size..]);
      if rest.None? then None else Some([r] + rest.value)
  }

  lemma Parts(r: Rune)
    ensures r / 0x40 * 0x40 + r % 0x40 == r
    ensures r / 0x1000 * 0x1000 + r / 0x40 % 0x40 * 0x40 + r % 0x40 == r
    ensures r / 0x4_0000 * 0x4_0000 + r / 0x1000 % 0x40 * 0x1000 + r / 0x40 % 0x40 * 0x40 + r % 0x40 == r
  {
    assert r / 0x40 == r / 0x1000 * 0x40 + r / 0x40 % 0x40;
    assert r / 0x1000 == r / 0x4_0000 * 0x40 + r / 0x1000 % 0x40;
  }

  lemma DecodesTwo(r: Rune, t: seq<Byte>)
    requires 0x80 <= r < 0x800 && |t| >= 2 && t[0] == 0xC0 + r / 0x40 && t[1] == 0x80 + r % 0x40
    ensures DecodeRune(t) == (r, 2)
  {
    Parts(r);
  }

  lemma DecodesThree(r: Rune, t: seq<Byte>)
    requires 0x800 <= r < 0x1_0000 && IsScalar(r)
    requires |t| >= 3 && t[0] == 0xE0 + r / 0x1000 && t[1] == 0x80 + r / 0x40 % 0x40 && t[2] == 0x80 + r % 0x40
    ensures DecodeRune(t) == (r, 3) && (r == RUNE_ERROR ==> t[0] == 0xEF && t[1] == 0xBF && t[2] == 0xBD)
  {
    Parts(r);
  }

  lemma DecodesFour(r: Rune, t: seq<Byte>)
    requires 0x1_0000 <= r && |t| >= 4 && t[0] == 0xF0 + r / 0x4_0000 && t[1] == 0x80 + r / 0x1000 % 0x40
    requires t[2] == 0x80 + r / 0x40 % 0x40 && t[3] == 0x80 + r % 0x40
    ensures DecodeRune(t) == (r, 4)
  {
    Parts(r);
  }

  lemma DecodesWhatIsEncoded(r: Rune, rest: seq<Byte>)
    requires IsScalar(r)
    ensures DecodeRune(EncodeRune(r) + rest) == (r, |EncodeRune(r)|) && !Malformed(EncodeRune(r) + rest)
  {
    var t := EncodeRune(r) + rest;
    if r >= 0x80 {
      hide DecodeRune;
      if r < 0x800 { DecodesTwo(r, t); } else if r < 0x1_0000 { DecodesThree(r, t); } else { DecodesFour(r, t); }
    }
  }

  lemma {:induction false} RunesOfUtf8(rs: seq<Rune>)
    requires AllScalar(rs)
    ensures RunesOfBytes(Utf8(rs)) == Some(rs)
    decreases |rs|
  {
    hide DecodeRune, EncodeRune, Malformed;
    if rs != [] {
      var t, b := Utf8(rs), EncodeRune(rs[0]);
      DecodesWhatIsEncoded(rs[0], Utf8(rs[1..]));
      assert t[|b|..] == Utf8(rs[1..]);
      RunesOfUtf8(rs[1..]);
      assert [rs[0]] + rs[1..] == rs;
    }
  }

  lemma Split(high: nat, low: nat)
    requires low < 0x40
    ensures (high * 0x40 + low) / 0x40 == high && (high * 0x40 + low) % 0x40 == low
  {
  }

  lemma EncodesTwo(t: seq<Byte>)
    requires |t| >= 2 && 0xC2 <= t[0] <= 0xDF && Continues(t, 1, 0x80, 0xBF)
    ensures var r := (t[0] as int - 0xC0) * 0x40 + Low(t[1]); 0x80 <= r < 0x800 && EncodeRune(r) == t[..2]
  {
    Split(t[0] as int - 0xC0, Low(t[1]));
  }

  lemma EncodesThree(t: seq<Byte>)
    requires |t| >= 3 && 0xE0 <= t[0] <= 0xEF && Continues(t, 2, 0x80, 0xBF)
    requires Continues(t, 1, if t[0] == 0xE0 then 0xA0 else 0x80, if t[0] == 0xED then 0x9F else 0xBF)
    ensures var r := (t[0] as int - 0xE0) * 0x1000 + Low(t[1]) * 0x40 + Low(t[2]);
      0x800 <= r < 0x1_0000 && IsScalar(r) && EncodeRune(r) == t[..3]
  {
    var a, b, c := t[0] as int - 0xE0, Low(t[1]), Low(t[2]);
    Split(a * 0x40 + b, c);
    Split(a, b);
    var r := a * 0x1000 + b * 0x40 + c;
    assert r == (a * 0x40 + b) * 0x40 + c && r / 0x1000 == r / 0x40 / 0x40;
  }

  lemma EncodesFour(t: seq<Byte>)
    requires |t| >= 4 && 0xF0 <= t[0] <= 0xF4 && Continues(t, 2, 0x80, 0xBF) && Continues(t, 3, 0x80, 0xBF)
    requires Continues(t, 1, if t[0] == 0xF0 then 0x90 else 0x80, if t[0] == 0xF4 then 0x8F else 0xBF)
    ensures var r := (t[0] as int - 0xF0) * 0x4_0000 + Low(t[1]) * 0x1000 + Low(t[2]) * 0x40 + Low(t[3]);
      0x1_0000 <= r < 0x11_0000 && EncodeRune(r) == t[..4]
  {
    var a, b, c, d := t[0] as int - 0xF0, Low(t[1]), Low(t[2]), Low(t[3]);
    Split((a * 0x40 + b) * 0x40 + c, d);
    Split(a * 0x40 + b, c);
    Split(a, b);
    var r := a * 0x4_0000 + b * 0x1000 + c * 0x40 + d;
    assert r == ((a * 0x40 + b) * 0x40 + c) * 0x40 + d;
    assert r / 0x1000 == r / 0x40 / 0x40 && r / 0x4_0000 == r / 0x40 / 0x40 / 0x40;
  }

  lemma EncodesWhatIsDecoded(t: seq<Byte>)
    requires t != [] && !Malformed(t)
    ensures var (r, size) := DecodeRune(t); IsScalar(r) && EncodeRune(r) == t[..size]
  {
    hide EncodeRune;
    var b := t[0];
    if b < 0x80 {
      AsciiEncodes(t);
    } else if b <= 0xDF {
      EncodesTwo(t);
    } else if b <= 0xEF {
      EncodesThree(t);
    } else {
      EncodesFour(t);
    }
  }

  lemma AsciiEncodes(t: seq<Byte>)
    requires t != [] && t[0] < 0x80
    ensures EncodeRune(t[0]) == t[..1]
  {
  }

  /** Bytes that are read as characters are the UTF-8 form of just those: none is overlong, and none a surrogate. */
  lemma {:induction false} Utf8OfRunes(t: seq<Byte>)
    requires RunesOfBytes(t).Some?
    ensures AllScalar(RunesOfBytes(t).value) && Utf8(RunesOfBytes(t).value) == t
    decreases |t|
  {
    hide DecodeRune, EncodeRune, Malformed;
    if t != [] {
      var (r, size) := DecodeRune(t);
      EncodesWhatIsDecoded(t);
      Utf8OfRunes(t[size..]);
      assert t == t[..size] + t[size..];
    }
  }
}
