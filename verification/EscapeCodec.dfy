/**
 The global functions `escape` and `unescape`, on strings as sequences of 16-bit units.
 */
module EscapeCodec {
  import opened Hex

  /** A string as the engine holds it: in bytes if it is ASCII, else in 16-bit units. */
  datatype Text = Ascii(bytes: seq<Byte>) | Unicode(units: seq<Unit>)

  function Units(t: Text): seq<Unit> {
    match t
    case Ascii(bytes) => seq(|bytes|, i requires 0 <= i < |bytes| => bytes[i] as int as Unit)
    case Unicode(units) => units
  }

  ghost predicate AllAscii(units: seq<Unit>) {
    forall i :: 0 <= i < |units| ==> units[i] < 0x80
  }

  /** The bytes are ASCII; a string in units is not. */
  ghost predicate Canonical(t: Text) {
    t.Ascii? <==> AllAscii(Units(t))
  }

  // ---------------------------------------------------------------------------------------

  predicate Plain(c: Unit) {
    || 0x41 <= c <= 0x5a || 0x61 <= c <= 0x7a || 0x30 <= c <= 0x39
    || c == 0x40 || c == 0x2a || c == 0x5f || c == 0x2b || c == 0x2d || c == 0x2e || c == 0x2f
  }

  /** Letters, digits and a few marks stand for themselves. */
  lemma PlainTells(c: Unit)
    ensures Plain(c) <==> c < 0x80 && (AlphaNumeric(c as char) || c as char in "@*_+-./")
  {
  }

  /** Others take three bytes, or six from 256 on. */
  lemma EscapeForms(c: Unit)
    ensures |EscapeUnit(c)| == if Plain(c) then 1 else if c < 0x100 then 3 else 6
    ensures !Plain(c) ==> EscapeUnit(c)[0] as char == '%' && (c >= 0x100 <==> EscapeUnit(c)[1] as char == 'u')
  {
  }

  function EscapeUnit(c: Unit): (r: seq<Byte>) {
    if Plain(c) then [c]
    else if c <= 0xff then [PERCENT, Upper(c / 16), Upper(c % 16)]
    else [PERCENT, 0x75, Upper(c / 0x1000), Upper(c / 0x100 % 16), Upper(c / 16 % 16), Upper(c % 16)]
  }

  function Escaped(s: seq<Unit>): (r: seq<Byte>) {
    if s == [] then [] else EscapeUnit(s[0]) + Escaped(s[1..])
  }

  predicate HexAt(s: seq<Unit>, i: nat) {
    i < |s| && s[i] <= 0xff && IsHex(s[i])
  }

  function DigitAt(s: seq<Unit>, i: nat): (r: int)
    requires i < |s| && s[i] <= 0xff
    ensures 0 <= r < 16
  {
    UnHex(s[i])
  }

  predicate LongEscape(s: seq<Unit>) {
    |s| >= 6 && s[1] == 0x75 && HexAt(s, 2) && HexAt(s, 3) && HexAt(s, 4) && HexAt(s, 5)
  }

  predicate ShortEscape(s: seq<Unit>) {
    |s| >= 3 && HexAt(s, 1) && HexAt(s, 2)
  }

  /** The unit a string begins with once unescaped, and how much of the string it takes up. */
  function Head(s: seq<Unit>): (r: (Unit, nat))
    requires s != []
    ensures 1 <= r.1 <= |s|
  {
    if s[0] == PERCENT && LongEscape(s) then
      (DigitAt(s, 2) * 0x1000 + DigitAt(s, 3) * 0x100 + DigitAt(s, 4) * 16 + DigitAt(s, 5), 6)
    else if s[0] == PERCENT && ShortEscape(s) then (DigitAt(s, 1) * 16 + DigitAt(s, 2), 3)
    else (s[0], 1)
  }

  function Unescaped(s: seq<Unit>): (r: seq<Unit>) {
    if s == [] then [] else var (c, n) := Head(s); [c] + Unescaped(s[n..])
  }

  /** A percent sign that begins an escape, with four digits after `u` or with two. */
  predicate EscapeAt(s: seq<Unit>, i: nat)
    requires i < |s|
  {
    && s[i] == 0x25
    && ((|s| >= i + 6 && s[i + 1] == 0x75 && HexAt(s, i + 2) && HexAt(s, i + 3) && HexAt(s, i + 4) && HexAt(s, i + 5))
        || (HexAt(s, i + 1) && HexAt(s, i + 2)))
  }

  /** A string without escapes, malformed ones included, is left as it is. */
  lemma {:induction false} NothingToUnescape(s: seq<Unit>)
    requires forall i :: 0 <= i < |s| ==> !EscapeAt(s, i)
    ensures Unescaped(s) == s
  {
    if s != [] {
      assert !EscapeAt(s, 0);
      var rest := s[1..];
      forall i | 0 <= i < |rest| ensures !EscapeAt(rest, i) {
        assert !EscapeAt(s, i + 1);
      }
      NothingToUnescape(rest);
    }
  }

  // ---------------------------------------------------------------------------------------

  lemma HeadOfLong(s: seq<Unit>, a: int, b: int, c: int, d: int)
    requires 0 <= a < 16 && 0 <= b < 16 && 0 <= c < 16 && 0 <= d < 16
    requires |s| >= 6 && s[0] == PERCENT && s[1] == 0x75 && s[2] == Upper(a) && s[3] == Upper(b) && s[4] == Upper(c)
    requires s[5] == Upper(d)
    ensures Head(s) == (a * 0x1000 + b * 0x100 + c * 16 + d, 6)
  {
    UpperIsHex(a);
    UpperIsHex(b);
    UpperIsHex(c);
    UpperIsHex(d);
    hide Upper, IsHex, UnHex;
  }

  lemma HeadOfShort(s: seq<Unit>, a: int, b: int)
    requires 0 <= a < 16 && 0 <= b < 16
    requires |s| >= 3 && s[0] == PERCENT && s[1] == Upper(a) && s[2] == Upper(b)
    ensures Head(s) == (a * 16 + b, 3)
  {
    UpperIsHex(a);
    UpperIsHex(b);
    hide Upper, IsHex, UnHex;
  }

  lemma FourDigits(c: Unit)
    ensures c / 0x1000 < 16 && c / 0x1000 * 0x1000 + c / 0x100 % 16 * 0x100 + c / 16 % 16 * 16 + c % 16 == c
  {
    assert c / 16 == c / 0x100 * 16 + c / 16 % 16;
    assert c / 0x100 == c / 0x1000 * 16 + c / 0x100 % 16;
  }

  lemma HeadOfEscape(c: Unit, rest: seq<Unit>)
    ensures Head(Units(Ascii(EscapeUnit(c))) + rest) == (c, |EscapeUnit(c)|)
  {
    var s := Units(Ascii(EscapeUnit(c))) + rest;
    if !Plain(c) {
      hide Head;
      if c <= 0xff {
        HeadOfShort(s, c / 16, c % 16);
      } else {
        FourDigits(c);
        HeadOfLong(s, c / 0x1000, c / 0x100 % 16, c / 16 % 16, c % 16);
      }
    }
  }

  /** Unescaping undoes escaping, for every string of units. */
  lemma {:induction false} UnescapeEscape(s: seq<Unit>)
    ensures Unescaped(Units(Ascii(Escaped(s)))) == s
    decreases |s|
  {
    if s != [] {
      var e := EscapeUnit(s[0]);
      var all, rest := Units(Ascii(Escaped(s))), Units(Ascii(Escaped(s[1..])));
      assert all == Units(Ascii(e)) + rest;
      HeadOfEscape(s[0], rest);
      assert all[|e|..] == rest;
      UnescapeEscape(s[1..]);
    }
  }

  lemma {:induction false} EscapedIsAscii(s: seq<Unit>)
    ensures AllAscii(Units(Ascii(Escaped(s))))
    decreases |s|
  {
    if s != [] {
      EscapedIsAscii(s[1..]);
      var e, rest := EscapeUnit(s[0]), Escaped(s[1..]);
      assert forall i :: 0 <= i < |e| ==> e[i] < 0x80;
      forall i | 0 <= i < |e + rest| ensures (e + rest)[i] < 0x80 {
        if i >= |e| { assert Units(Ascii(rest))[i - |e|] < 0x80; }
      }
    }
  }

  lemma EscapedNothing()
    ensures Escaped([]) == []
  {
  }

  lemma EscapedConcat(s: seq<Unit>, c: Unit)
    ensures Escaped(s + [c]) == Escaped(s) + EscapeUnit(c)
    decreases |s|
  {
    if s == [] {
      assert Escaped([c]) == EscapeUnit(c) + Escaped([]);
    } else {
      assert (s + [c])[1..] == s[1..] + [c];
      EscapedConcat(s[1..], c);
    }
  }

  method Escape(s: seq<Unit>) returns (r: seq<Byte>)
    ensures r == Escaped(s) && Unescaped(Units(Ascii(r))) == s && Canonical(Ascii(r))
  {
    hide Escaped, Unescaped, Upper;
    EscapedNothing();
    r := [];
    for i := 0 to |s|
      invariant r == Escaped(s[..i])
    {
      var c := s[i];
      EscapedConcat(s[..i], c);
      assert s[..i + 1] == s[..i] + [c];
      if Plain(c) {
        r := r + [c];
      } else if c <= 0xff {
        r := r + [PERCENT];
        r := r + [Upper(c / 16)];
        r := r + [Upper(c % 16)];
      } else {
        r := r + [PERCENT, 0x75];
        r := r + [Upper(c / 0x1000)];
        r := r + [Upper(c / 0x100 % 16)];
        r := r + [Upper(c / 16 % 16)];
        r := r + [Upper(c % 16)];
      }
    }
    assert s[..|s|] == s;
    UnescapeEscape(s);
    EscapedIsAscii(s);
  }

  /** What has been written, in bytes as long as it is ASCII. */
  ghost predicate Written(unicode: bool, asciiBuf: seq<Byte>, unicodeBuf: seq<Unit>, units: seq<Unit>) {
    if unicode then unicodeBuf == units else Units(Ascii(asciiBuf)) == units && AllAscii(units)
  }

  method Widen(bytes: seq<Byte>) returns (r: seq<Unit>)
    ensures r == Units(Ascii(bytes))
  {
    r := [];
    for k := 0 to |bytes|
      invariant r == Units(Ascii(bytes))[..k]
    {
      r := r + [bytes[k] as int as Unit];
    }
  }

  lemma WriteByte(bytes: seq<Byte>, units: seq<Unit>, c: Unit)
    requires Written(false, bytes, [], units) && c < 0x80
    ensures Written(false, bytes + [c], [], units + [c])
  {
    var more := bytes + [c];
    forall i | 0 <= i < |more| ensures more[i] == (units + [c])[i] {
      if i < |bytes| { assert Units(Ascii(bytes))[i] == units[i]; }
    }
    assert Units(Ascii(more)) == units + [c];
  }

  lemma UnescapedStep(s: seq<Unit>, i: nat)
    requires i < |s|
    ensures var (c, n) := Head(s[i..]);
      && i + n <= |s| && Unescaped(s[i..]) == [c] + Unescaped(s[i + n..])
      && s[i..][n..] == s[i + n..]
  {
    hide Head;
    var n := Head(s[i..]).1;
    assert s[i..][n..] == s[i + n..];
  }

  method Unescape(text: Text) returns (r: Text)
    requires Canonical(text)
    ensures Units(r) == Unescaped(Units(text)) && Canonical(r)
  {
    hide Head, Unescaped;
    var s := Units(text);
    var asciiBuf: seq<Byte>, unicodeBuf: seq<Unit> := [], [];
    var unicode := text.Unicode?;
    ghost var done: seq<Unit> := [];
    var i := 0;
    assert s[0..] == s;
    while i < |s|
      invariant 0 <= i <= |s|
      invariant Unescaped(s) == done + Unescaped(s[i..])
      invariant Written(unicode, asciiBuf, unicodeBuf, done) && (!unicode ==> unicodeBuf == [])
      invariant unicode ==> !AllAscii(done) || !AllAscii(s[i..])
    {
      hide Units, AllAscii, Canonical;
      var c, n := NextUnit(s, i);
      UnescapedStep(s, i);
      KeepsNonAscii(s[i..], done);
      if c >= 0x80 && !unicode {
        unicodeBuf := Widen(asciiBuf);
        unicode := true;
        NowNonAscii(done, c);
      }
      if unicode {
        unicodeBuf := unicodeBuf + [c];
      } else {
        WriteByte(asciiBuf, done, c);
        asciiBuf := asciiBuf + [c];
      }
      done := done + [c];
      i := i + n;
    }
    assert s[i..] == [];
    UnescapedNothing();
    r := if unicode then Unicode(unicodeBuf) else Ascii(asciiBuf);
    WrittenText(unicode, asciiBuf, unicodeBuf, done);
  }

  lemma WrittenText(unicode: bool, asciiBuf: seq<Byte>, unicodeBuf: seq<Unit>, units: seq<Unit>)
    requires Written(unicode, asciiBuf, unicodeBuf, units) && (unicode ==> !AllAscii(units) || !AllAscii([]))
    ensures var r := if unicode then Unicode(unicodeBuf) else Ascii(asciiBuf); Units(r) == units && Canonical(r)
  {
  }

  lemma NowNonAscii(done: seq<Unit>, c: Unit)
    requires c >= 0x80
    ensures !AllAscii(done + [c])
  {
    assert (done + [c])[|done|] == c;
  }

  lemma UnescapedNothing()
    ensures Unescaped([]) == []
  {
  }

  /** A unit that is not ASCII is not lost. */
  lemma KeepsNonAscii(rest: seq<Unit>, done: seq<Unit>)
    requires rest != []
    ensures !AllAscii(done) || !AllAscii(rest) ==> !AllAscii(done + [Head(rest).0]) || !AllAscii(rest[Head(rest).1..])
  {
    var (c, n) := Head(rest);
    var more := done + [c];
    if !AllAscii(done) {
      var k :| 0 <= k < |done| && done[k] >= 0x80;
      assert more[k] == done[k];
    } else if !AllAscii(rest) {
      var k :| 0 <= k < |rest| && rest[k] >= 0x80;
      if k >= n {
        assert rest[n..][k - n] >= 0x80;
      } else {
        assert n == 1 && k == 0;
        assert more[|done|] >= 0x80;
      }
    }
  }

  method NextUnit(s: seq<Unit>, i: nat) returns (c: Unit, n: nat)
    requires i < |s|
    ensures (c, n) == Head(s[i..])
  {
    var l := |s|;
    c, n := s[i], 1;
    ghost var rest := s[i..];
    if c == PERCENT {
      if i <= l - 6 && s[i + 1] == 0x75 {
        var c0, c1, c2, c3 := s[i + 2], s[i + 3], s[i + 4], s[i + 5];
        assert rest[2] == c0 && rest[3] == c1 && rest[4] == c2 && rest[5] == c3;
        if c0 <= 0xff && IsHex(c0) && c1 <= 0xff && IsHex(c1) && c2 <= 0xff && IsHex(c2) && c3 <= 0xff && IsHex(c3) {
          c, n := UnHex(c0) * 0x1000 + UnHex(c1) * 0x100 + UnHex(c2) * 16 + UnHex(c3), 6;
          return;
        }
      }
      if i <= l - 3 {
        var c0, c1 := s[i + 1], s[i + 2];
        assert rest[1] == c0 && rest[2] == c1;
        if c0 <= 0xff && IsHex(c0) && c1 <= 0xff && IsHex(c1) {
          c, n := UnHex(c0) * 16 + UnHex(c1), 3;
        }
      }
    }
  }
}
