/**
 `encodeURI`, `decodeURI` and the two functions for components, with the sets of characters they
 leave alone as parameters.
 */
module UriCodec {
  import opened Options
  import opened Hex
  import opened Utf

  type Charset = Byte -> bool

  // ---------------------------------------------------------------------------------------
  // Encoding

  function PercentByte(b: Byte): (r: seq<Byte>)
    ensures |r| == 3
  {
    [PERCENT, Upper(b / 16), Upper(b % 16)]
  }

  function PercentAll(bs: seq<Byte>): (r: seq<Byte>)
    ensures |r| == 3 * |bs|
  {
    if bs == [] then [] else PercentByte(bs[0]) + PercentAll(bs[1..])
  }

  function EncodeOne(r: Rune, unescaped: Charset): (b: seq<Byte>)
    ensures |b| >= 1
  {
    if r >= 0x80 then PercentAll(EncodeRune(r)) else if !unescaped(r) then PercentByte(r) else [r]
  }

  function Encoded(rs: seq<Rune>, unescaped: Charset): seq<Byte> {
    if rs == [] then [] else EncodeOne(rs[0], unescaped) + Encoded(rs[1..], unescaped)
  }

  // ---------------------------------------------------------------------------------------
  // Decoding

  predicate HexPair(s: seq<Byte>) {
    |s| >= 3 && IsHex(s[1]) && IsHex(s[2])
  }

  function PairValue(s: seq<Byte>): Byte
    requires |s| >= 3
  {
    UnHex(s[1]) * 16 + UnHex(s[2])
  }

  /** The bytes with escapes replaced, but for those of reserved characters; or nothing if an escape is malformed. */
  function Unpercent(s: seq<Byte>, reserved: Charset): (r: Option<seq<Byte>>) {
    if s == [] then Some([])
    else if s[0] == PERCENT then
      if !HexPair(s) then None
      else
        var rest := Unpercent(s[3..], reserved);
        if rest.None? then None
        else if reserved(PairValue(s)) then Some(s[..3] + rest.value)
        else Some([PairValue(s)] + rest.value)
    else
      var rest := Unpercent(s[1..], reserved);
      if rest.None? then None else Some([s[0]] + rest.value)
  }

  function Decoded(s: seq<Byte>, reserved: Charset): Option<seq<Rune>> {
    var t := Unpercent(s, reserved);
    if t.None? then None else RunesOfBytes(t.value)
  }

  /** Two hexadecimal digits after a percent sign are replaced by their byte unless that is reserved, and then stay. */
  lemma EscapesTell(h: Byte, l: Byte, rest: seq<Byte>, reserved: Charset)
    requires IsHex(h) && IsHex(l)
    ensures var b, after := UnHex(h) * 16 + UnHex(l), Unpercent(rest, reserved);
      Unpercent([0x25, h, l] + rest, reserved) ==
        if after.None? then None
        else if reserved(b) then Some([0x25, h, l] + after.value)
        else Some([b] + after.value)
  {
    hide IsHex, UnHex;
    var s := [0x25, h, l] + rest;
    assert s[0] == 0x25 && s[1] == h && s[2] == l && s[3..] == rest && s[..3] == [0x25, h, l];
  }

  /** A percent sign without them is refused, and all other bytes stay. */
  lemma OthersTell(c: Byte, rest: seq<Byte>, reserved: Charset)
    ensures c == 0x25 && !(|rest| >= 2 && IsHex(rest[0]) && IsHex(rest[1])) ==>
      Unpercent([c] + rest, reserved) == None
    ensures c != 0x25 ==>
      Unpercent([c] + rest, reserved) ==
        if Unpercent(rest, reserved).None? then None else Some([c] + Unpercent(rest, reserved).value)
  {
    hide IsHex, UnHex;
    var s := [c] + rest;
    assert s[0] == c && s[1..] == rest;
  }

  // ---------------------------------------------------------------------------------------
  // Round trips

  /** The characters left alone when encoding include those reserved when decoding, and not the percent sign. */
  ghost predicate Matching(unescaped: Charset, reserved: Charset) {
    !unescaped(PERCENT) && forall c: Byte :: reserved(c) ==> c < 0x80 && unescaped(c)
  }

  lemma UnpercentByte(b: Byte, rest: seq<Byte>, reserved: Charset)
    requires !reserved(b) && Unpercent(rest, reserved).Some?
    ensures Unpercent(PercentByte(b) + rest, reserved) == Some([b] + Unpercent(rest, reserved).value)
  {
    var s := PercentByte(b) + rest;
    UpperIsHex(b / 16);
    UpperIsHex(b % 16);
    assert s[1] == Upper(b / 16) && s[2] == Upper(b % 16) && s[3..] == rest;
    assert PairValue(s) == b;
  }

  lemma {:induction false} UnpercentAll(bs: seq<Byte>, rest: seq<Byte>, reserved: Charset)
    requires (forall i :: 0 <= i < |bs| ==> !reserved(bs[i])) && Unpercent(rest, reserved).Some?
    ensures Unpercent(PercentAll(bs) + rest, reserved) == Some(bs + Unpercent(rest, reserved).value)
    decreases |bs|
  {
    hide Unpercent;
    if bs == [] {
      assert PercentAll(bs) + rest == rest;
      assert bs + Unpercent(rest, reserved).value == Unpercent(rest, reserved).value;
    } else {
      UnpercentAll(bs[1..], rest, reserved);
      UnpercentByte(bs[0], PercentAll(bs[1..]) + rest, reserved);
      assert PercentAll(bs) + rest == PercentByte(bs[0]) + (PercentAll(bs[1..]) + rest);
      assert bs + Unpercent(rest, reserved).value == [bs[0]] + (bs[1..] + Unpercent(rest, reserved).value);
    }
  }

  lemma BytesAreHigh(r: Rune)
    requires r >= 0x80
    ensures forall i :: 0 <= i < |EncodeRune(r)| ==> EncodeRune(r)[i] >= 0x80
  {
  }

  lemma UnpercentOne(r: Rune, rest: seq<Byte>, unescaped: Charset, reserved: Charset)
    requires Matching(unescaped, reserved) && Unpercent(rest, reserved).Some?
    ensures Unpercent(EncodeOne(r, unescaped) + rest, reserved) == Some(EncodeRune(r) + Unpercent(rest, reserved).value)
  {
    if r >= 0x80 {
      hide Unpercent;
      BytesAreHigh(r);
      UnpercentAll(EncodeRune(r), rest, reserved);
    } else if !unescaped(r) {
      hide Unpercent;
      UnpercentByte(r, rest, reserved);
    } else {
      assert ([r] + rest)[1..] == rest;
    }
  }

  lemma {:induction false} UnpercentEncoded(rs: seq<Rune>, unescaped: Charset, reserved: Charset)
    requires Matching(unescaped, reserved)
    ensures Unpercent(Encoded(rs, unescaped), reserved) == Some(Utf8(rs))
    decreases |rs|
  {
    if rs != [] {
      UnpercentEncoded(rs[1..], unescaped, reserved);
      UnpercentOne(rs[0], Encoded(rs[1..], unescaped), unescaped, reserved);
    }
  }

  /** Decoding undoes encoding, for every string of characters. */
  lemma DecodeEncode(rs: seq<Rune>, unescaped: Charset, reserved: Charset)
    requires Matching(unescaped, reserved) && AllScalar(rs)
    ensures Decoded(Encoded(rs, unescaped), reserved) == Some(rs)
  {
    UnpercentEncoded(rs, unescaped, reserved);
    RunesOfUtf8(rs);
  }

  predicate UriUnescaped(c: Byte) {
    || 0x61 <= c <= 0x7a || 0x41 <= c <= 0x5a || 0x30 <= c <= 0x39
    || c == 0x2d || c == 0x5f || c == 0x2e || c == 0x21 || c == 0x7e || c == 0x2a || c == 0x27 || c == 0x28 || c == 0x29
  }

  predicate UriReserved(c: Byte) {
    c == 0x3b || c == 0x2f || c == 0x3f || c == 0x3a || c == 0x40 || c == 0x26 || c == 0x3d || c == 0x2b || c == 0x24
      || c == 0x2c
  }

  predicate UriReservedHash(c: Byte) {
    UriReserved(c) || c == 0x23
  }

  predicate UriReservedUnescapedHash(c: Byte) {
    UriUnescaped(c) || UriReserved(c) || c == 0x23
  }

  /** The characters that each of the functions leaves as they are. */
  lemma CharsetsTell(c: Byte)
    ensures UriUnescaped(c) <==> AlphaNumeric(c as char) || c as char in "-_.!~*'()"
    ensures UriReservedHash(c) <==> c as char in ";/?:@&=+$,#"
    ensures UriReservedUnescapedHash(c) <==> AlphaNumeric(c as char) || c as char in "-_.!~*'();/?:@&=+$,#"
  {
  }

  predicate NothingReserved(c: Byte) {
    false
  }

  /** `decodeURI(encodeURI(s))` and `decodeURIComponent(encodeURIComponent(s))` are `s` if it has no lone surrogates. */
  lemma RoundTrips(s: seq<Unit>)
    requires Runes(s).Some?
    ensures var rs := Runes(s).value;
      && Decoded(Encoded(rs, UriReservedUnescapedHash), UriReservedHash) == Some(rs)
      && Decoded(Encoded(rs, UriUnescaped), NothingReserved) == Some(rs)
      && Utf16(rs) == s
  {
    Utf16OfRunes(s);
    DecodeEncode(Runes(s).value, UriReservedUnescapedHash, UriReservedHash);
    DecodeEncode(Runes(s).value, UriUnescaped, NothingReserved);
  }

  // ---------------------------------------------------------------------------------------
  // The implementation of encoding

  lemma {:induction false} EncodedConcat(a: seq<Rune>, b: seq<Rune>, unescaped: Charset)
    ensures Encoded(a + b, unescaped) == Encoded(a, unescaped) + Encoded(b, unescaped)
    decreases |a|
  {
    hide EncodeOne;
    if a == [] {
      assert a + b == b;
    } else {
      EncodedConcat(a[1..], b, unescaped);
      assert (a + b)[1..] == a[1..] + b;
    }
  }

  /** Reading on from position `p`, where `done` has been read. */
  ghost predicate ReadUpTo(s: seq<Unit>, p: nat, done: seq<Rune>) {
    p <= |s| && Runes(s) == (var rest := Runes(s[p..]); if rest.None? then None else Some(done + rest.value))
  }

  lemma ReadOn(s: seq<Unit>, p: nat, done: seq<Rune>)
    requires p < |s| && ReadUpTo(s, p, done)
    ensures ReadRune(s[p..]).None? ==> Runes(s).None?
    ensures ReadRune(s[p..]).Some? ==> var (r, n) := ReadRune(s[p..]).value; ReadUpTo(s, p + n, done + [r])
  {
    hide ReadRune;
    if ReadRune(s[p..]).Some? {
      var (r, n) := ReadRune(s[p..]).value;
      assert s[p..][n..] == s[p + n..];
      var rest := Runes(s[p + n..]);
      if rest.Some? { assert done + ([r] + rest.value) == (done + [r]) + rest.value; }
    }
  }

  /** Whether a character is left as it is. */
  predicate Kept(r: Rune, unescaped: Charset) {
    r < 0x80 && unescaped(r)
  }

  /** The units of a string all of whose characters are left alone. */
  ghost predicate AllKept(s: seq<Unit>, p: nat, done: seq<Rune>, unescaped: Charset) {
    p == |done| && p <= |s| && forall i :: 0 <= i < p ==> s[i] == done[i] && Kept(done[i], unescaped)
  }

  lemma {:induction false} KeptIsEncoded(rs: seq<Rune>, unescaped: Charset)
    requires forall i :: 0 <= i < |rs| ==> Kept(rs[i], unescaped)
    ensures |Encoded(rs, unescaped)| == |rs| && forall i :: 0 <= i < |rs| ==> Encoded(rs, unescaped)[i] == rs[i]
    decreases |rs|
  {
    if rs != [] {
      KeptIsEncoded(rs[1..], unescaped);
      assert Encoded(rs, unescaped) == [rs[0] as int as Byte] + Encoded(rs[1..], unescaped);
    }
  }

  lemma EncodedNext(done: seq<Rune>, r: Rune, unescaped: Charset)
    ensures Encoded(done + [r], unescaped) == Encoded(done, unescaped) + EncodeOne(r, unescaped)
  {
    EncodedConcat(done, [r], unescaped);
    assert Encoded([r], unescaped) == EncodeOne(r, unescaped) + Encoded([], unescaped);
  }

  /** The first pass: the length of the result, and whether anything is to be escaped; nothing for a lone surrogate. */
  method Measure(s: seq<Unit>, unescaped: Charset) returns (r: Option<(nat, bool)>)
    ensures r.None? <==> Runes(s).None?
    ensures r.Some? ==> r.value.0 == |Encoded(Runes(s).value, unescaped)|
    ensures r.Some? && !r.value.1 ==> AllKept(s, |s|, Runes(s).value, unescaped)
  {
    hide Encoded, Runes, ReadRune;
    var p, l, needed := 0, 0, false;
    ghost var done: seq<Rune> := [];
    StartReading(s, unescaped);
    while p < |s|
      invariant ReadUpTo(s, p, done) && l == |Encoded(done, unescaped)| && (!needed ==> AllKept(s, p, done, unescaped))
    {
      ReadOn(s, p, done);
      var next := ReadRune(s[p..]);
      if next.None? { return None; }
      var (rn, n) := next.value;
      ReadsUnit(s, p);
      EncodedNext(done, rn, unescaped);
      if rn >= 0x80 {
        needed := true;
        l := l + |EncodeRune(rn)| * 3;
      } else if !unescaped(rn) {
        needed := true;
        l := l + 3;
      } else {
        l := l + 1;
      }
      done := done + [rn];
      p := p + n;
    }
    ReadAll(s, p, done);
    return Some((l, needed));
  }

  lemma StartReading(s: seq<Unit>, unescaped: Charset)
    ensures ReadUpTo(s, 0, []) && Encoded([], unescaped) == []
  {
    assert s[0..] == s;
    if Runes(s).Some? { assert [] + Runes(s).value == Runes(s).value; }
  }

  lemma ReadAll(s: seq<Unit>, p: nat, done: seq<Rune>)
    requires ReadUpTo(s, p, done) && p == |s|
    ensures Runes(s) == Some(done)
  {
    assert s[p..] == [] && done + [] == done;
  }

  lemma ReadsUnit(s: seq<Unit>, p: nat)
    requires p < |s| && ReadRune(s[p..]).Some?
    ensures var (r, n) := ReadRune(s[p..]).value; p + n <= |s| && (r < 0x80 ==> n == 1 && s[p] == r)
  {
  }

  method WritePercent(buf: array<Byte>, i: nat, b: Byte)
    requires i + 3 <= buf.Length
    modifies buf
    ensures buf[..i + 3] == old(buf[..i]) + PercentByte(b)
  {
    buf[i] := PERCENT;
    buf[i + 1] := Upper(b / 16);
    buf[i + 2] := Upper(b % 16);
  }

  /** The second pass: fills a buffer of just that length. */
  method Fill(s: seq<Unit>, unescaped: Charset, buf: array<Byte>)
    requires Runes(s).Some? && buf.Length == |Encoded(Runes(s).value, unescaped)|
    modifies buf
    ensures buf[..] == Encoded(Runes(s).value, unescaped)
  {
    hide Encoded, Runes, ReadRune;
    ghost var all := Encoded(Runes(s).value, unescaped);
    var p: nat, i: nat := 0, 0;
    ghost var done: seq<Rune> := [];
    StartReading(s, unescaped);
    while p < |s|
      invariant ReadUpTo(s, p, done) && i <= buf.Length
      invariant buf[..i] == Encoded(done, unescaped)
    {
      ReadOn(s, p, done);
      var (rn, n) := ReadRune(s[p..]).value;
      ReadsUnit(s, p);
      EncodedNext(done, rn, unescaped);
      FitsIn(s, p + n, done + [rn], unescaped);
      i := WriteOne(buf, i, rn, unescaped);
      done := done + [rn];
      p := p + n;
    }
    ReadAll(s, p, done);
    assert i == buf.Length;
  }

  lemma FitsIn(s: seq<Unit>, p: nat, done: seq<Rune>, unescaped: Charset)
    requires ReadUpTo(s, p, done) && Runes(s).Some?
    ensures |Encoded(done, unescaped)| <= |Encoded(Runes(s).value, unescaped)|
  {
    hide Encoded;
    EncodedConcat(done, Runes(s[p..]).value, unescaped);
  }

  method WriteBytes(buf: array<Byte>, i: nat, bs: seq<Byte>)
    requires i + 3 * |bs| <= buf.Length
    modifies buf
    ensures buf[..i + 3 * |bs|] == old(buf[..i]) + PercentAll(bs)
  {
    hide PercentByte;
    assert bs[0..] == bs;
    for k := 0 to |bs|
      invariant buf[..i + 3 * k] + PercentAll(bs[k..]) == old(buf[..i]) + PercentAll(bs)
    {
      assert bs[k..][1..] == bs[k + 1..];
      ghost var before := buf[..i + 3 * k];
      WritePercent(buf, i + 3 * k, bs[k]);
      assert before + (PercentByte(bs[k]) + PercentAll(bs[k + 1..])) ==
        (before + PercentByte(bs[k])) + PercentAll(bs[k + 1..]);
    }
  }

  method WriteOne(buf: array<Byte>, i: nat, rn: Rune, unescaped: Charset) returns (j: nat)
    requires i + |EncodeOne(rn, unescaped)| <= buf.Length
    modifies buf
    ensures j == i + |EncodeOne(rn, unescaped)| && buf[..j] == old(buf[..i]) + EncodeOne(rn, unescaped)
  {
    hide EncodeRune, PercentByte, PercentAll;
    j := i;
    if rn >= 0x80 {
      var utf8Buf := EncodeRune(rn);
      WriteBytes(buf, j, utf8Buf);
      j := j + 3 * |utf8Buf|;
    } else if !unescaped(rn) {
      WritePercent(buf, j, rn);
      j := j + 3;
    } else {
      buf[j] := rn;
      j := j + 1;
    }
  }

  /** Encodes a string; a lone surrogate is an error. */
  method Encode(s: seq<Unit>, unescaped: Charset) returns (r: Option<seq<Byte>>)
    ensures r == if Runes(s).None? then None else Some(Encoded(Runes(s).value, unescaped))
  {
    hide Encoded, Runes;
    var m := Measure(s, unescaped);
    if m.None? { return None; }
    if !m.value.1 {
      KeptIsEncoded(Runes(s).value, unescaped);
      assert forall i :: 0 <= i < |s| ==> s[i] < 0x80;
      var same := seq(|s|, i requires 0 <= i < |s| && s[i] < 0x80 => s[i] as int as Byte);
      assert same == Encoded(Runes(s).value, unescaped);
      return Some(same);
    }
    var buf := new Byte[m.value.0](_ => 0);
    Fill(s, unescaped, buf);
    return Some(buf[..]);
  }

  // ---------------------------------------------------------------------------------------
  // The implementation of decoding

  /** The number of escapes that are replaced. */
  function Replaced(s: seq<Byte>, reserved: Charset): nat {
    if s == [] then 0
    else if s[0] == PERCENT && HexPair(s) then (if reserved(PairValue(s)) then 0 else 1) + Replaced(s[3..], reserved)
    else Replaced(s[1..], reserved)
  }

  lemma {:induction false} UnpercentLength(s: seq<Byte>, reserved: Charset)
    requires Unpercent(s, reserved).Some?
    ensures |Unpercent(s, reserved).value| == |s| - 2 * Replaced(s, reserved)
    ensures Replaced(s, reserved) == 0 ==> Unpercent(s, reserved).value == s
    decreases |s|
  {
    if s != [] {
      if s[0] == PERCENT {
        UnpercentLength(s[3..], reserved);
        assert s == s[..3] + s[3..];
      } else {
        UnpercentLength(s[1..], reserved);
        assert s == [s[0]] + s[1..];
      }
    }
  }

  /** What the bytes from `i` on come to, after what those before came to. */
  ghost predicate ReplacedUpTo(s: seq<Byte>, i: nat, done: seq<Byte>, reserved: Charset) {
    i <= |s| && Unpercent(s, reserved) ==
      (var rest := Unpercent(s[i..], reserved); if rest.None? then None else Some(done + rest.value))
  }

  function StepSize(s: seq<Byte>): nat
    requires s != []
  {
    if s[0] == PERCENT then 3 else 1
  }

  function StepBytes(s: seq<Byte>, reserved: Charset): (r: seq<Byte>)
    requires s != [] && (s[0] == PERCENT ==> HexPair(s))
  {
    if s[0] != PERCENT then [s[0]] else if reserved(PairValue(s)) then s[..3] else [PairValue(s)]
  }

  /** One step of replacement. */
  lemma UnpercentStep(t: seq<Byte>, reserved: Charset)
    requires t != []
    ensures t[0] == PERCENT && !HexPair(t) ==> Unpercent(t, reserved).None?
    ensures t[0] != PERCENT || HexPair(t) ==>
      Unpercent(t, reserved) ==
        (var rest := Unpercent(t[StepSize(t)..], reserved); if rest.None? then None
          else Some(StepBytes(t, reserved) + rest.value))
  {
  }

  lemma ReplaceOn(s: seq<Byte>, i: nat, done: seq<Byte>, reserved: Charset)
    requires i < |s| && ReplacedUpTo(s, i, done, reserved)
    ensures s[i] == PERCENT && !HexPair(s[i..]) ==> Unpercent(s, reserved).None?
    ensures s[i] != PERCENT || HexPair(s[i..]) ==>
      ReplacedUpTo(s, i + StepSize(s[i..]), done + StepBytes(s[i..], reserved), reserved)
  {
    var t := s[i..];
    UnpercentStep(t, reserved);
    if s[i] != PERCENT || HexPair(t) {
      var n, step := StepSize(t), StepBytes(t, reserved);
      SuffixOfSuffix(s, i, n);
      hide Unpercent, StepBytes, StepSize;
      var rest := Unpercent(s[i + n..], reserved);
      if rest.Some? { Associates(done, step, rest.value); }
    }
  }

  lemma SuffixOfSuffix(s: seq<Byte>, i: nat, n: nat)
    requires i + n <= |s|
    ensures s[i..][n..] == s[i + n..]
  {
  }

  lemma Associates(a: seq<Byte>, b: seq<Byte>, c: seq<Byte>)
    ensures a + (b + c) == (a + b) + c
  {
  }

  lemma CountOn(s: seq<Byte>, i: nat, reserved: Charset)
    requires i < |s| && (s[i] == PERCENT ==> HexPair(s[i..]))
    ensures Replaced(s[i..], reserved)
      == (if s[i] == PERCENT && !reserved(PairValue(s[i..])) then 1 else 0)
        + Replaced(s[i + StepSize(s[i..])..], reserved)
  {
    SuffixOfSuffix(s, i, StepSize(s[i..]));
  }

  /** The first pass: counts the escapes to replace; nothing if one is malformed. */
  method CountEscapes(s: seq<Byte>, reserved: Charset) returns (r: Option<nat>)
    ensures r.None? <==> Unpercent(s, reserved).None?
    ensures r.Some? ==> r.value == Replaced(s, reserved)
  {
    hide Unpercent, Replaced;
    var i: nat, hexCount: nat := 0, 0;
    ghost var done: seq<Byte> := [];
    StartReplacing(s, reserved);
    while i < |s|
      invariant ReplacedUpTo(s, i, done, reserved) && hexCount + Replaced(s[i..], reserved) == Replaced(s, reserved)
    {
      ReplaceOn(s, i, done, reserved);
      ghost var t := s[i..];
      if s[i] == PERCENT {
        if i + 2 >= |s| || !IsHex(s[i + 1]) || !IsHex(s[i + 2]) { return None; }
        assert t[1] == s[i + 1] && t[2] == s[i + 2];
        CountOn(s, i, reserved);
        done := done + StepBytes(t, reserved);
        var c := UnHex(s[i + 1]) * 16 + UnHex(s[i + 2]);
        if !reserved(c) { hexCount := hexCount + 1; }
        i := i + 3;
      } else {
        CountOn(s, i, reserved);
        done := done + StepBytes(t, reserved);
        i := i + 1;
      }
    }
    FinishReplacing(s, i, done, reserved);
    return Some(hexCount);
  }

  lemma StartReplacing(s: seq<Byte>, reserved: Charset)
    ensures ReplacedUpTo(s, 0, [], reserved) && s[0..] == s
  {
    assert s[0..] == s;
    if Unpercent(s, reserved).Some? { assert [] + Unpercent(s, reserved).value == Unpercent(s, reserved).value; }
  }

  lemma FinishReplacing(s: seq<Byte>, i: nat, done: seq<Byte>, reserved: Charset)
    requires ReplacedUpTo(s, i, done, reserved) && i == |s|
    ensures Unpercent(s, reserved) == Some(done) && Replaced(s[i..], reserved) == 0
  {
    assert s[i..] == [] && done + [] == done;
  }

  ghost predicate AllAscii(t: seq<Byte>) {
    forall i :: 0 <= i < |t| ==> t[i] < 0x80
  }

  lemma HexIsAscii(s: seq<Byte>)
    requires HexPair(s) && s[0] == PERCENT
    ensures AllAscii(s[..3])
  {
  }

  lemma AsciiConcat(a: seq<Byte>, b: seq<Byte>)
    ensures AllAscii(a + b) <==> AllAscii(a) && AllAscii(b)
  {
    assert forall i :: 0 <= i < |a| ==> (a + b)[i] == a[i];
    assert forall i :: 0 <= i < |b| ==> (a + b)[|a| + i] == b[i];
  }

  /** The second pass: fills a buffer of just the length left, and notes whether all of it is ASCII. */
  method Replace(s: seq<Byte>, reserved: Charset, t: array<Byte>) returns (isUnicode: bool)
    requires Unpercent(s, reserved).Some? && t.Length == |Unpercent(s, reserved).value|
    modifies t
    ensures t[..] == Unpercent(s, reserved).value && isUnicode == !AllAscii(t[..])
  {
    hide Unpercent, AllAscii;
    var i: nat, j: nat := 0, 0;
    isUnicode := false;
    StartReplacing(s, reserved);
    NothingIsAscii();
    while i < |s|
      invariant i <= |s| && j <= t.Length
      invariant ReplacedUpTo(s, i, t[..j], reserved) && isUnicode == !AllAscii(t[..j])
    {
      ghost var done := t[..j];
      ReplaceOn(s, i, done, reserved);
      ghost var step := StepBytes(s[i..], reserved);
      StepFits(s, i + StepSize(s[i..]), done + step, reserved);
      StepIsAscii(s[i..], reserved);
      AsciiConcat(done, step);
      var ch := s[i];
      if ch == PERCENT {
        assert s[i..][1] == s[i + 1] && s[i..][2] == s[i + 2];
        var c := UnHex(s[i + 1]) * 16 + UnHex(s[i + 2]);
        if reserved(c) {
          t[j] := s[i];
          t[j + 1] := s[i + 1];
          t[j + 2] := s[i + 2];
          j := j + 3;
        } else {
          t[j] := c;
          if c >= 0x80 { isUnicode := true; }
          j := j + 1;
        }
        i := i + 3;
      } else {
        if ch >= 0x80 { isUnicode := true; }
        t[j] := ch;
        j := j + 1;
        i := i + 1;
      }
      assert t[..j] == done + step;
    }
    FinishReplacing(s, i, t[..j], reserved);
    assert t[..] == t[..j];
  }

  lemma NothingIsAscii()
    ensures AllAscii([])
  {
  }

  lemma StepIsAscii(s: seq<Byte>, reserved: Charset)
    requires s != [] && (s[0] == PERCENT ==> HexPair(s))
    ensures var r := StepBytes(s, reserved);
      AllAscii(r) <==> if s[0] != PERCENT then s[0] < 0x80 else reserved(PairValue(s)) || PairValue(s) < 0x80
  {
    if s[0] == PERCENT { HexIsAscii(s); }
  }

  lemma StepFits(s: seq<Byte>, i: nat, done: seq<Byte>, reserved: Charset)
    requires ReplacedUpTo(s, i, done, reserved) && Unpercent(s, reserved).Some?
    ensures |done| <= |Unpercent(s, reserved).value|
  {
  }

  function Widened(t: seq<Byte>): (r: seq<Rune>) {
    seq(|t|, i requires 0 <= i < |t| => t[i] as int as Rune)
  }

  lemma {:induction false} AsciiRunes(t: seq<Byte>)
    requires AllAscii(t)
    ensures RunesOfBytes(t) == Some(Widened(t))
    decreases |t|
  {
    if t != [] {
      AsciiRunes(t[1..]);
      assert Widened(t) == [t[0] as int as Rune] + Widened(t[1..]);
    }
  }

  /** The third pass: reads the bytes as UTF-8. */
  method ReadRunes(t: seq<Byte>) returns (r: Option<seq<Rune>>)
    ensures r == RunesOfBytes(t)
  {
    hide DecodeRune, Malformed;
    var us: seq<Rune> := [];
    var rest := t;
    assert RunesOfBytes(t).Some? ==> us + RunesOfBytes(t).value == RunesOfBytes(t).value;
    while |rest| > 0
      invariant RunesOfBytes(t) == (var more := RunesOfBytes(rest); if more.None? then None else Some(us + more.value))
      decreases |rest|
    {
      if Malformed(rest) { return None; }
      var (rn, size) := DecodeRune(rest);
      ghost var more := RunesOfBytes(rest[size..]);
      assert more.Some? ==> us + ([rn] + more.value) == (us + [rn]) + more.value;
      us := us + [rn];
      rest := rest[size..];
    }
    assert us + [] == us;
    return Some(us);
  }

  /** Decodes a string of characters, whose bytes are looked at in UTF-8. */
  method Decode(text: seq<Rune>, reserved: Charset) returns (r: Option<seq<Rune>>)
    requires AllScalar(text)
    ensures r == Decoded(Utf8(text), reserved)
  {
    hide Unpercent, RunesOfBytes, Utf8, Replaced;
    var s := Utf8(text);
    var n := CountEscapes(s, reserved);
    if n.None? { return None; }
    UnpercentLength(s, reserved);
    if n.value == 0 {
      RunesOfUtf8(text);
      return Some(text);
    }
    var t := new Byte[|s| - n.value * 2](_ => 0);
    var isUnicode := Replace(s, reserved, t);
    if !isUnicode {
      AsciiRunes(t[..]);
      return Some(Widened(t[..]));
    }
    r := ReadRunes(t[..]);
  }

  // ---------------------------------------------------------------------------------------
  // The two composed

  lemma {:induction false} Utf8OfAscii(t: seq<Byte>)
    requires AllAscii(t)
    ensures Utf8(Widened(t)) == t && AllScalar(Widened(t))
    decreases |t|
  {
    if t != [] {
      Utf8OfAscii(t[1..]);
      assert Widened(t)[1..] == Widened(t[1..]);
      assert t == [t[0]] + t[1..];
    }
  }

  lemma {:induction false} PercentIsAscii(bs: seq<Byte>)
    ensures AllAscii(PercentAll(bs))
    decreases |bs|
  {
    if bs != [] {
      PercentIsAscii(bs[1..]);
      ByteIsAscii(bs[0]);
      AsciiConcat(PercentByte(bs[0]), PercentAll(bs[1..]));
    }
  }

  lemma ByteIsAscii(b: Byte)
    ensures AllAscii(PercentByte(b))
  {
    UpperIsHex(b / 16);
    UpperIsHex(b % 16);
  }

  lemma {:induction false} EncodedIsAscii(rs: seq<Rune>, unescaped: Charset)
    ensures AllAscii(Encoded(rs, unescaped))
    decreases |rs|
  {
    if rs != [] {
      EncodedIsAscii(rs[1..], unescaped);
      if rs[0] >= 0x80 {
        PercentIsAscii(EncodeRune(rs[0]));
      } else {
        ByteIsAscii(rs[0]);
      }
      AsciiConcat(EncodeOne(rs[0], unescaped), Encoded(rs[1..], unescaped));
    }
  }

  /** Encoding and then decoding gives the string back, or the error of encoding for a lone surrogate. */
  method EncodeAndDecode(s: seq<Unit>, unescaped: Charset, reserved: Charset) returns (r: Option<seq<Unit>>)
    requires Matching(unescaped, reserved)
    ensures r == if Runes(s).None? then None else Some(s)
  {
    hide Encoded, Runes, Utf8, Matching, Decoded, AllAscii, AllScalar, Utf16;
    var encoded := Encode(s, unescaped);
    if encoded.None? { return None; }
    EncodedIsAscii(Runes(s).value, unescaped);
    Utf8OfAscii(encoded.value);
    Utf16OfRunes(s);
    DecodeEncode(Runes(s).value, unescaped, reserved);
    var decoded := Decode(Widened(encoded.value), reserved);
    return Some(Utf16(decoded.value));
  }

  /** The sets of `encodeURI` and `decodeURI` match, and so do those of the functions for components. */
  lemma SetsMatch()
    ensures Matching(UriReservedUnescapedHash, UriReservedHash) && Matching(UriUnescaped, NothingReserved)
  {
  }
}
