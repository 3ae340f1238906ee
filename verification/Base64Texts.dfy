/**
 What the base64 decoder accepts: white space apart, exactly the encodings of section 4 and 5 of
 RFC 4648, with the freedom each mode leaves in padding and in the bits after the last byte.
 */
module Base64Texts {
  import opened Options
  import opened Base64

  // ---------------------------------------------------------------------------------------
  // White space

  /** The text without tabs, line feeds, form feeds, carriage returns and spaces. */
  function Strip(s: seq<Unit>): (r: seq<Unit>)
    ensures |r| <= |s|
  {
    if s == [] then []
    else if s[0] == 9 || s[0] == 10 || s[0] == 12 || s[0] == 13 || s[0] == 32 then Strip(s[1..])
    else [s[0]] + Strip(s[1..])
  }

  /** What the decoder takes for white space is what is stripped. */
  lemma StripOne(s: seq<Unit>, i: nat)
    requires i < |s|
    ensures Strip(s[i..]) == if Whitespace(s[i]) then Strip(s[i + 1..]) else [s[i]] + Strip(s[i + 1..])
  {
    assert s[i..][1..] == s[i + 1..];
  }

  lemma {:induction false} SkipStrips(s: seq<Unit>, i: nat)
    requires i <= |s|
    ensures var k := SkipWhitespace(s, i);
            && Strip(s[i..]) == (if k < |s| then [s[k]] + Strip(s[k + 1..]) else [])
            && Strip(s[k..]) == Strip(s[i..])
    decreases |s| - i
  {
    hide Strip, Whitespace;
    if i == |s| {
      NothingLeft(s);
    } else {
      StripOne(s, i);
      if Whitespace(s[i]) { SkipStrips(s, i + 1); }
    }
  }

  /** Within one text and within the same text stripped: where decoding stands in each. */
  ghost predicate Abreast(s: seq<Unit>, i: nat, t: seq<Unit>, j: nat) {
    i <= |s| && j <= |t| && Strip(s[i..]) == t[j..]
  }

  lemma SkipAbreast(s: seq<Unit>, i: nat, t: seq<Unit>, j: nat)
    requires Abreast(s, i, t, j)
    ensures var k := SkipWhitespace(s, i);
            && SkipWhitespace(t, j) == j && (k == |s| <==> j == |t|) && Abreast(s, k, t, j)
            && (k < |s| ==> s[k] == t[j] && Abreast(s, k + 1, t, j + 1))
  {
    hide Strip, Whitespace;
    SkipStrips(s, i);
    var k := SkipWhitespace(s, i);
    if k < |s| {
      FirstAndRest(t, j, s[k], Strip(s[k + 1..]));
      SkipsNothing(t, j);
    }
  }

  lemma FirstAndRest(t: seq<Unit>, j: nat, c: Unit, rest: seq<Unit>)
    requires j <= |t| && t[j..] == [c] + rest
    ensures j < |t| && t[j] == c && t[j + 1..] == rest
  {
    assert t[j] == t[j..][0];
    assert t[j + 1..] == t[j..][1..];
  }

  lemma SkipsNothing(t: seq<Unit>, j: nat)
    requires j < |t| && !Whitespace(t[j])
    ensures SkipWhitespace(t, j) == j
  {
  }

  /** Chunks that differ at most in how far they were read, and that by white space. */
  ghost predicate SameChunk(s: seq<Unit>, c: Chunk, t: seq<Unit>, d: Chunk) {
    c.bytes == d.bytes && c.eof == d.eof && c.error == d.error && Abreast(s, c.read, t, d.read)
  }

  lemma EndsAbreast(s: seq<Unit>, t: seq<Unit>)
    ensures Abreast(s, |s|, t, |t|)
  {
  }

  lemma PaddedStrips(mode: Mode, s: seq<Unit>, t: seq<Unit>, room: nat, start: nat, start': nat, i: nat, j: nat,
                     ds: seq<Byte>)
    requires start <= i && start' <= j && 2 <= |ds| < 4 && Abreast(s, start, t, start') && Abreast(s, i, t, j)
    ensures SameChunk(s, Padded(mode, s, room, start, i, ds), t, Padded(mode, t, room, start', j, ds))
  {
    hide Abreast, Strip, Whitespace, FinalBytes, SkipWhitespace, Fit;
    AbreastBounds(s, i, t, j);
    SkipAbreast(s, i, t, j);
    EndsAbreast(s, t);
    var k := SkipWhitespace(s, i);
    if k < |s| { SkipAbreast(s, k + 1, t, j + 1); }
  }

  /** A chunk that has come to a digit it goes on with. */
  ghost predicate GoesOn(url: bool, s: seq<Unit>, room: nat, k: nat, ds: seq<Byte>) {
    && k < |s| && s[k] != PAD && Digit(url, s[k]) != INVALID && |ds| < 3
    && !(room == 1 && |ds| == 2)
  }

  lemma ChunkGoesOn(url: bool, mode: Mode, s: seq<Unit>, room: nat, start: nat, i: nat, ds: seq<Byte>)
    requires start <= i <= |s| && |ds| < 4 && GoesOn(url, s, room, SkipWhitespace(s, i), ds)
    ensures var k := SkipWhitespace(s, i);
            ChunkFrom(url, mode, s, room, start, i, ds)
              == ChunkFrom(url, mode, s, room, start, k + 1, ds + [Digit(url, s[k])])
  {
  }

  lemma ChunkEndsAlike(url: bool, mode: Mode, s: seq<Unit>, t: seq<Unit>, room: nat, start: nat, start': nat, i: nat,
                       j: nat, ds: seq<Byte>)
    requires start <= i && start' <= j && |ds| < 4 && Abreast(s, start, t, start') && Abreast(s, i, t, j)
    requires !GoesOn(url, s, room, SkipWhitespace(s, i), ds)
    ensures SameChunk(s, ChunkFrom(url, mode, s, room, start, i, ds),
                      t, ChunkFrom(url, mode, t, room, start', j, ds))
  {
    hide Abreast, Strip, Whitespace, FinalBytes, SkipWhitespace, Digit, Three, Padded, Fit;
    AbreastBounds(s, i, t, j);
    SkipAbreast(s, i, t, j);
    EndsAbreast(s, t);
    var k := SkipWhitespace(s, i);
    if k < |s| && s[k] == PAD && |ds| >= 2 { PaddedStrips(mode, s, t, room, start, start', k + 1, j + 1, ds); }
  }

  lemma {:induction false} ChunkStrips(url: bool, mode: Mode, s: seq<Unit>, t: seq<Unit>, room: nat, start: nat,
                                       start': nat, i: nat, j: nat, ds: seq<Byte>)
    requires start <= i && start' <= j && |ds| < 4 && Abreast(s, start, t, start') && Abreast(s, i, t, j)
    ensures SameChunk(s, ChunkFrom(url, mode, s, room, start, i, ds),
                      t, ChunkFrom(url, mode, t, room, start', j, ds))
    decreases |s| - i
  {
    hide Abreast, Strip, Whitespace, SkipWhitespace, Digit, ChunkFrom, SameChunk;
    AbreastBounds(s, i, t, j);
    SkipAbreast(s, i, t, j);
    var k := SkipWhitespace(s, i);
    if GoesOn(url, s, room, k, ds) {
      ChunkGoesOn(url, mode, s, room, start, i, ds);
      ChunkGoesOn(url, mode, t, room, start', j, ds);
      ChunkStrips(url, mode, s, t, room, start, start', k + 1, j + 1, ds + [Digit(url, s[k])]);
    } else {
      ChunkEndsAlike(url, mode, s, t, room, start, start', i, j, ds);
    }
  }

  /** Decoding a text and the same text without white space, into buffers of the same size, comes to the same. */
  lemma {:induction false} DecodeStrips(url: bool, mode: Mode, s: seq<Unit>, t: seq<Unit>, cap: nat, read: nat,
                                        read': nat, out: seq<Byte>)
    requires Abreast(s, read, t, read') && |out| <= cap
    ensures var r, r' := DecodeFrom(url, mode, s, cap, read, out), DecodeFrom(url, mode, t, cap, read', out);
            r.bytes == r'.bytes && r.error == r'.error && Abreast(s, r.read, t, r'.read)
    decreases |s| - read
  {
    hide Abreast, ChunkFrom;
    AbreastBounds(s, read, t, read');
    if |out| < cap {
      ChunkStrips(url, mode, s, t, cap - |out|, read, read', read, read', []);
      var c := ChunkFrom(url, mode, s, cap - |out|, read, read, []);
      if c.error.None? && !c.eof {
        var c' := ChunkFrom(url, mode, t, cap - |out|, read', read', []);
        DecodeStrips(url, mode, s, t, cap, c.read, c'.read, out + c.bytes);
      }
    }
  }

  lemma AbreastBounds(s: seq<Unit>, i: nat, t: seq<Unit>, j: nat)
    requires Abreast(s, i, t, j)
    ensures i <= |s| && j <= |t|
  {
  }

  /** White space anywhere in a text changes neither the bytes nor the error, whatever the size of the buffer. */
  lemma WhitespaceDoesNotMatter(url: bool, mode: Mode, s: seq<Unit>, s': seq<Unit>, cap: nat)
    requires Strip(s) == Strip(s')
    ensures var r, r' := DecodeFrom(url, mode, s, cap, 0, []), DecodeFrom(url, mode, s', cap, 0, []);
            r.bytes == r'.bytes && r.error == r'.error && Strip(s[r.read..]) == Strip(s'[r'.read..])
  {
    var t := Strip(s);
    assert s[0..] == s && s'[0..] == s' && t[0..] == t;
    DecodeStrips(url, mode, s, t, cap, 0, 0, []);
    DecodeStrips(url, mode, s', t, cap, 0, 0, []);
    hide DecodeFrom;
  }

  // ---------------------------------------------------------------------------------------
  // Reading a text without white space

  /** How a text ends: with its bytes complete, before a partial chunk, or with an error. */
  datatype Ending = Complete | Partial | Broken(e: Error)

  datatype Reading = Reading(bytes: seq<Byte>, ending: Ending)

  /** The number of digits the text starts with, up to four. */
  function Lead(url: bool, t: seq<Unit>): (n: nat)
    ensures n <= 4 && n <= |t| && forall k :: 0 <= k < n ==> Digit(url, t[k]) != INVALID
    ensures n < 4 && n < |t| ==> Digit(url, t[n]) == INVALID
  {
    if |t| == 0 || Digit(url, t[0]) == INVALID then 0
    else if |t| == 1 || Digit(url, t[1]) == INVALID then 1
    else if |t| == 2 || Digit(url, t[2]) == INVALID then 2
    else if |t| == 3 || Digit(url, t[3]) == INVALID then 3
    else 4
  }

  function DigitsOf(url: bool, t: seq<Unit>, n: nat): (ds: seq<Byte>)
    requires n <= |t|
    ensures |ds| == n
  {
    seq(n, k requires 0 <= k < n => Digit(url, t[k]))
  }

  /** A last chunk: its digits, fewer than four, and what comes after them. */
  function Last(mode: Mode, ds: seq<Byte>, v: seq<Unit>): Reading
    requires |ds| < 4
  {
    if v == [] then
      if |ds| == 0 then Reading([], Complete)
      else if mode.StopBeforePartial? then Reading([], Partial)
      else if mode.Strict? then Reading([], Broken(MissingPadding))
      else if |ds| == 1 then Reading([], Broken(SingleCharacter))
      else Reading(FinalBytes(ds, false).value, Complete)
    else if v[0] != PAD then Reading([], Broken(InvalidCharacter))
    else if |ds| < 2 then Reading([], Broken(UnexpectedPadding))
    else if |ds| == 2 && v == [PAD] then
      if mode.StopBeforePartial? then Reading([], Partial) else Reading([], Broken(PaddingIncomplete))
    else if v != (if |ds| == 2 then [PAD, PAD] else [PAD]) then Reading([], Broken(AfterPadding))
    else if mode.Strict? && FinalBytes(ds, true).None? then Reading([], Broken(ExtraBits))
    else Reading(FinalBytes(ds, false).value, Complete)
  }

  function Read(url: bool, mode: Mode, t: seq<Unit>): Reading {
    var n := Lead(url, t);
    if n == 4 then
      var r := Read(url, mode, t[4..]);
      Reading(Three(Digit(url, t[0]), Digit(url, t[1]), Digit(url, t[2]), Digit(url, t[3])) + r.bytes, r.ending)
    else Last(mode, DigitsOf(url, t, n), t[n..])
  }

  ghost predicate Bare(t: seq<Unit>) {
    forall k :: 0 <= k < |t| ==> !Whitespace(t[k])
  }

  lemma {:induction false} StripIsBare(s: seq<Unit>)
    ensures Bare(Strip(s))
  {
    if s != [] { StripIsBare(s[1..]); }
  }

  /** A chunk of a bare text goes through its leading digits. */
  lemma {:induction false} ThroughDigits(url: bool, mode: Mode, t: seq<Unit>, room: nat, start: nat, n: nat)
    requires Bare(t) && start + n <= |t| && n < 4 && room >= 1 && (room == 1 ==> n <= 2)
    requires forall k :: 0 <= k < n ==> Digit(url, t[start..][k]) != INVALID
    ensures ChunkFrom(url, mode, t, room, start, start, [])
      == ChunkFrom(url, mode, t, room, start, start + n, DigitsOf(url, t[start..], n))
  {
    hide Digit, Whitespace, ChunkFrom;
    if n == 0 {
      assert DigitsOf(url, t[start..], 0) == [];
    } else {
      ThroughDigits(url, mode, t, room, start, n - 1);
      var ds := DigitsOf(url, t[start..], n - 1);
      assert t[start..][n - 1] == t[start + n - 1];
      DigitIsPlain(url, t[start + n - 1]);
      ChunkStep(url, mode, t, room, start, start + n - 1, ds);
      assert ds + [Digit(url, t[start + n - 1])] == DigitsOf(url, t[start..], n);
    }
  }

  lemma BareSkips(t: seq<Unit>, i: nat)
    requires Bare(t) && i <= |t|
    ensures SkipWhitespace(t, i) == i
  {
  }

  /** A chunk that was read as the last one. */
  ghost predicate ChunkAs(c: Chunk, l: Reading, start: nat, length: nat) {
    && c.bytes == l.bytes
    && (l.ending.Broken? ==> c.error == Some(l.ending.e))
    && (l.ending.Complete? ==> c == Chunk(length, l.bytes, true, None))
    && (l.ending.Partial? ==> c == Chunk(start, [], true, None))
  }

  /** A chunk that is not complete, once its digits have been read. */
  lemma ChunkIsLast(url: bool, mode: Mode, t: seq<Unit>, room: nat, start: nat, i: nat, ds: seq<Byte>)
    requires Bare(t) && start <= i <= |t| && |ds| < 4 && room >= |ds| - 1
    requires i < |t| ==> Digit(url, t[i]) == INVALID
    ensures var c, l := ChunkFrom(url, mode, t, room, start, i, ds), Last(mode, ds, t[i..]);
            ChunkAs(c, l, start, |t|)
  {
    hide Bare, Digit, Whitespace, Three, SkipWhitespace;
    BareSkips(t, i);
    if |ds| >= 2 { assert FinalBytes(ds, false).Some? && |FinalBytes(ds, false).value| == |ds| - 1; }
    if i < |t| && t[i] == PAD && |ds| >= 2 {
      PaddedIsLast(mode, t, room, start, i, ds);
      hide Padded, Last, FinalBytes;
    } else {
      hide FinalBytes;
    }
  }

  lemma PaddedIsLast(mode: Mode, t: seq<Unit>, room: nat, start: nat, i: nat, ds: seq<Byte>)
    requires Bare(t) && start <= i < |t| && 2 <= |ds| < 4 && room >= |ds| - 1 && t[i] == PAD
    ensures var c, l := Padded(mode, t, room, start, i + 1, ds), Last(mode, ds, t[i..]);
            ChunkAs(c, l, start, |t|)
  {
    hide Bare, Whitespace, SkipWhitespace, Three;
    BareSkips(t, i + 1);
    if i + 1 < |t| { BareSkips(t, i + 2); }
    assert t[i..] == [PAD] + t[i + 1..];
    assert |t[i..]| == 2 ==> t[i..] == [PAD, t[i + 1]];
  }

  /** Decoding came to what reading gives, after `out`. */
  ghost predicate ReadAs(d: Decoded, out: seq<Byte>, r: Reading, length: nat) {
    && d.bytes == out + r.bytes
    && (r.ending.Complete? ==> d.read == length && d.error.None?)
    && (r.ending.Partial? ==> d.read < length && d.error.None?)
    && (r.ending.Broken? ==> d.error == Some(r.ending.e))
  }

  lemma SuffixOf(t: seq<Unit>, j: nat, n: nat)
    requires j + n <= |t|
    ensures t[j..][n..] == t[j + n..] && (n < |t[j..]| ==> t[j..][n] == t[j + n])
  {
  }

  lemma LastRead(url: bool, mode: Mode, u: seq<Unit>)
    requires Lead(url, u) < 4
    ensures Read(url, mode, u) == Last(mode, DigitsOf(url, u, Lead(url, u)), u[Lead(url, u)..])
  {
    hide Lead;
  }

  /** The last chunk of a bare text is decoded as it is read, if there is room for it. */
  lemma LastDecodes(url: bool, mode: Mode, t: seq<Unit>, cap: nat, j: nat, out: seq<Byte>)
    requires Bare(t) && j <= |t| && |out| < cap && Lead(url, t[j..]) < 4 && Lead(url, t[j..]) <= cap - |out| + 1
    ensures ReadAs(DecodeFrom(url, mode, t, cap, j, out), out, Read(url, mode, t[j..]), |t|)
    ensures |Read(url, mode, t[j..]).bytes| <= cap - |out|
  {
    hide Bare, Digit, Three, ChunkFrom, Last, Lead, DigitsOf, DecodeFrom, Read;
    var u, n, room := t[j..], Lead(url, t[j..]), cap - |out|;
    ThroughDigits(url, mode, t, room, j, n);
    SuffixOf(t, j, n);
    ChunkIsLast(url, mode, t, room, j, j + n, DigitsOf(url, u, n));
    PartialIsNotEmpty(mode, DigitsOf(url, u, n), u[n..]);
    LastIsShort(mode, DigitsOf(url, u, n), u[n..]);
    NextChunk(url, mode, t, cap, j, out);
    LastRead(url, mode, u);
    hide ChunkAs, ReadAs;
    ChunkToReading(ChunkFrom(url, mode, t, room, j, j, []), DecodeFrom(url, mode, t, cap, j, out),
                   Read(url, mode, u), j, |t|, out);
  }

  lemma ChunkToReading(c: Chunk, d: Decoded, l: Reading, start: nat, length: nat, out: seq<Byte>)
    requires ChunkAs(c, l, start, length) && (l.ending.Partial? ==> start < length)
    requires l.ending.Broken? ==> l.bytes == []
    requires c.error.Some? ==> d == Decoded(c.read, out, c.error)
    requires c.error.None? && c.eof ==> d == Decoded(c.read, out + c.bytes, None)
    ensures ReadAs(d, out, l, length)
  {
  }

  lemma FourAreRead(url: bool, t: seq<Unit>, mode: Mode)
    requires Lead(url, t) == 4
    ensures var three := Three(Digit(url, t[0]), Digit(url, t[1]), Digit(url, t[2]), Digit(url, t[3]));
            Read(url, mode, t) == Reading(three + Read(url, mode, t[4..]).bytes, Read(url, mode, t[4..]).ending)
  {
  }

  /** With ample room a bare text is decoded as it is read. */
  lemma {:induction false} DecodeReads(url: bool, mode: Mode, t: seq<Unit>, cap: nat, j: nat, out: seq<Byte>)
    requires Bare(t) && j <= |t| && cap >= |out| + |t| - j + 4
    ensures ReadAs(DecodeFrom(url, mode, t, cap, j, out), out, Read(url, mode, t[j..]), |t|)
    decreases |t| - j
  {
    hide Bare, Digit, Three, DecodeFrom, Read, Lead;
    var u := t[j..];
    if Lead(url, u) == 4 {
      assert u[0] == t[j] && u[1] == t[j + 1] && u[2] == t[j + 2] && u[3] == t[j + 3] && u[4..] == t[j + 4..];
      FourDigits(url, mode, t, cap, j, out);
      FourAreRead(url, u, mode);
      var three := Three(Digit(url, u[0]), Digit(url, u[1]), Digit(url, u[2]), Digit(url, u[3]));
      DecodeReads(url, mode, t, cap, j + 4, out + three);
      assert out + three + Read(url, mode, u[4..]).bytes == out + Read(url, mode, u).bytes;
    } else {
      LastDecodes(url, mode, t, cap, j, out);
    }
  }

  lemma PartialIsNotEmpty(mode: Mode, ds: seq<Byte>, v: seq<Unit>)
    requires |ds| < 4
    ensures Last(mode, ds, v).ending.Partial? ==> |ds| + |v| > 0
  {
  }

  // ---------------------------------------------------------------------------------------
  // Buffers that are too small

  /**
   What is decoded with little room: everything, to the end, if it fits, else as many whole chunks as
   do; an error that is reported is that of the text, and it is if there is room for one more chunk.
   */
  ghost predicate CutTo(whole: bool, d: Decoded, out: seq<Byte>, r: Reading, room: nat) {
    && d.bytes == out + (if |r.bytes| <= room then r.bytes else r.bytes[..room / 3 * 3])
    && (r.ending.Complete? && |r.bytes| <= room ==> whole)
    && (d.error.Some? ==> r.ending == Broken(d.error.value))
    && (r.ending.Broken? && |r.bytes| + 3 <= room ==> d.error.Some?)
  }

  /** A digit that would make one byte too many ends the decoding. */
  lemma NoRoomForDigit(url: bool, mode: Mode, t: seq<Unit>, room: nat, start: nat)
    requires Bare(t) && 1 <= room <= 2 && start <= |t| && Lead(url, t[start..]) > room + 1
    ensures ChunkFrom(url, mode, t, room, start, start, []) == Chunk(start, [], true, None)
  {
    hide Digit, Whitespace, ChunkFrom;
    var n := room + 1;
    ThroughDigits(url, mode, t, room, start, n);
    assert t[start..][n] == t[start + n];
    DigitIsPlain(url, t[start + n]);
    SkipsNothing(t, start + n);
    DigitStops(url, mode, t, room, start, start + n, DigitsOf(url, t[start..], n));
  }

  lemma DigitStops(url: bool, mode: Mode, t: seq<Unit>, room: nat, start: nat, i: nat, ds: seq<Byte>)
    requires 1 <= room <= 2 && |ds| == room + 1 && start <= i < |t| && SkipWhitespace(t, i) == i
    requires t[i] != PAD && Digit(url, t[i]) != INVALID
    ensures ChunkFrom(url, mode, t, room, start, i, ds) == Chunk(start, [], true, None)
  {
    hide Digit;
  }

  /** A text whose first chunk makes more bytes than there is room for. */
  lemma NothingFits(url: bool, mode: Mode, t: seq<Unit>, cap: nat, j: nat, out: seq<Byte>)
    requires Bare(t) && j <= |t| && 1 <= cap - |out| <= 2 && Lead(url, t[j..]) > cap - |out| + 1
    ensures DecodeFrom(url, mode, t, cap, j, out) == Decoded(j, out, None)
    ensures var r := Read(url, mode, t[j..]); |r.bytes| > cap - |out| || (r.bytes == [] && !r.ending.Complete?)
  {
    hide Bare, Digit, ChunkFrom, Last, Lead, DigitsOf, DecodeFrom, Read;
    var u, n, room := t[j..], Lead(url, t[j..]), cap - |out|;
    NoRoomForDigit(url, mode, t, room, j);
    NextChunk(url, mode, t, cap, j, out);
    assert out + [] == out;
    if n == 4 {
      FourAreRead(url, u, mode);
    } else {
      LastRead(url, mode, u);
      LastIsShort(mode, DigitsOf(url, u, n), u[n..]);
    }
  }

  lemma CutShifts(whole: bool, d: Decoded, out: seq<Byte>, three: seq<Byte>, r: Reading, room: nat)
    requires |three| == 3 <= room && CutTo(whole, d, out + three, r, room - 3)
    ensures CutTo(whole, d, out, Reading(three + r.bytes, r.ending), room)
  {
    CutAfter(out, three, r.bytes, room);
  }

  lemma LastIsShort(mode: Mode, ds: seq<Byte>, v: seq<Unit>)
    requires |ds| < 4
    ensures var l := Last(mode, ds, v);
            if l.ending.Complete? && |ds| + |v| > 0 then |ds| >= 2 && |l.bytes| == |ds| - 1 else l.bytes == []
  {
    hide Three;
  }

  lemma FitsIsCut(d: Decoded, out: seq<Byte>, r: Reading, length: nat, room: nat)
    requires ReadAs(d, out, r, length) && |r.bytes| <= room
    ensures CutTo(d.read == length, d, out, r, room)
  {
  }

  lemma NothingIsCut(d: Decoded, out: seq<Byte>, r: Reading, whole: bool, room: nat)
    requires d.bytes == out && d.error.None? && room <= 2
    requires |r.bytes| > room || (r.bytes == [] && (r.ending.Complete? ==> whole))
    ensures CutTo(whole, d, out, r, room)
  {
    assert room / 3 == 0;
  }

  lemma FullStops(url: bool, mode: Mode, t: seq<Unit>, cap: nat, j: nat, out: seq<Byte>)
    requires j <= |t| && |out| == cap
    ensures DecodeFrom(url, mode, t, cap, j, out) == Decoded(j, out, None)
  {
  }

  lemma {:induction false} DecodeCuts(url: bool, mode: Mode, t: seq<Unit>, cap: nat, j: nat, out: seq<Byte>)
    requires Bare(t) && j <= |t| && |out| <= cap
    ensures var d := DecodeFrom(url, mode, t, cap, j, out);
            CutTo(d.read == |t|, d, out, Read(url, mode, t[j..]), cap - |out|)
    decreases |t| - j
  {
    hide Bare, Digit, Three, Read, Lead, DecodeFrom, CutTo;
    var u, room, d := t[j..], cap - |out|, DecodeFrom(url, mode, t, cap, j, out);
    if room == 0 {
      FullStops(url, mode, t, cap, j, out);
      if Read(url, mode, u).ending.Complete? && Read(url, mode, u).bytes == [] { NothingToRead(url, mode, u); }
      NothingIsCut(d, out, Read(url, mode, u), d.read == |t|, room);
    } else if Lead(url, u) == 4 && room >= 3 {
      assert u[0] == t[j] && u[1] == t[j + 1] && u[2] == t[j + 2] && u[3] == t[j + 3] && u[4..] == t[j + 4..];
      FourDigits(url, mode, t, cap, j, out);
      FourAreRead(url, u, mode);
      var three := Three(Digit(url, u[0]), Digit(url, u[1]), Digit(url, u[2]), Digit(url, u[3]));
      DecodeCuts(url, mode, t, cap, j + 4, out + three);
      CutShifts(d.read == |t|, d, out, three, Read(url, mode, u[4..]), room);
    } else if Lead(url, u) > room + 1 {
      NothingFits(url, mode, t, cap, j, out);
      NothingIsCut(d, out, Read(url, mode, u), d.read == |t|, room);
    } else {
      LastDecodes(url, mode, t, cap, j, out);
      FitsIsCut(d, out, Read(url, mode, u), |t|, room);
    }
  }

  lemma NothingToRead(url: bool, mode: Mode, u: seq<Unit>)
    requires Read(url, mode, u).ending.Complete? && Read(url, mode, u).bytes == []
    ensures u == []
  {
    hide Digit, Three, Lead, Last, DigitsOf;
    var n := Lead(url, u);
    if n == 4 { FourAreRead(url, u, mode); } else { LastIsShort(mode, DigitsOf(url, u, n), u[n..]); }
  }

  lemma CutAfter(out: seq<Byte>, three: seq<Byte>, b: seq<Byte>, room: nat)
    requires |three| == 3 <= room
    ensures var more := room - 3;
            out + three + (if |b| <= more then b else b[..more / 3 * 3])
              == out + (if |three + b| <= room then three + b else (three + b)[..room / 3 * 3])
  {
    var more := room - 3;
    assert room / 3 * 3 == 3 + more / 3 * 3;
  }

  /** Into a buffer of any size go the bytes that fit, in whole chunks where they do not all fit. */
  lemma SmallBufferCuts(url: bool, mode: Mode, s: seq<Unit>, cap: nat)
    ensures var d := DecodeFrom(url, mode, s, cap, 0, []);
            CutTo(Strip(s[d.read..]) == [], d, [], Read(url, mode, Strip(s)), cap)
  {
    hide DecodeFrom, Read, Strip;
    var t := Strip(s);
    assert s[0..] == s && t[0..] == t;
    StripIsBare(s);
    DecodeStrips(url, mode, s, t, cap, 0, 0, []);
    DecodeCuts(url, mode, t, cap, 0, []);
  }

  // ---------------------------------------------------------------------------------------
  // Buffers that are large enough

  /** With ample room a chunk that ends the decoding was read to the end, or there is more than white space left. */
  lemma {:induction false} ChunkReadsOn(url: bool, mode: Mode, s: seq<Unit>, room: nat, start: nat, i: nat,
                                        ds: seq<Byte>)
    requires start <= i <= |s| && |ds| < 4 && room > 3 && (|ds| > 0 ==> Strip(s[start..]) != [])
    requires |ds| == 0 ==> i == start
    ensures var c := ChunkFrom(url, mode, s, room, start, i, ds);
            c.eof && c.error.None? && c.read < |s| ==> Strip(s[c.read..]) != []
    decreases |s| - i
  {
    hide Strip, Digit, SkipWhitespace, ChunkFrom;
    SkipStrips(s, i);
    var k := SkipWhitespace(s, i);
    if GoesOn(url, s, room, k, ds) {
      ChunkGoesOn(url, mode, s, room, start, i, ds);
      ChunkReadsOn(url, mode, s, room, start, k + 1, ds + [Digit(url, s[k])]);
    } else {
      ChunkEnds(url, mode, s, room, start, i, ds);
    }
  }

  lemma ChunkEnds(url: bool, mode: Mode, s: seq<Unit>, room: nat, start: nat, i: nat, ds: seq<Byte>)
    requires start <= i <= |s| && |ds| < 4 && room > 3 && !GoesOn(url, s, room, SkipWhitespace(s, i), ds)
    ensures var c := ChunkFrom(url, mode, s, room, start, i, ds);
            c.eof && c.error.None? && c.read < |s| ==> c.read == start && |ds| > 0
  {
    hide Digit, Three, SkipWhitespace, FinalBytes, Fit;
  }

  lemma {:induction false} ReadsToEnd(url: bool, mode: Mode, s: seq<Unit>, cap: nat, read: nat, out: seq<Byte>)
    requires read <= |s| && cap >= |out| + |s| - read + 4
    ensures var d := DecodeFrom(url, mode, s, cap, read, out);
            d.error.None? && Strip(s[d.read..]) == [] ==> d.read == |s|
    decreases |s| - read
  {
    hide ChunkFrom, Strip;
    var c := ChunkFrom(url, mode, s, cap - |out|, read, read, []);
    ChunkReadsOn(url, mode, s, cap - |out|, read, read, []);
    if c.error.None? && !c.eof {
      ChunkIsLong(url, mode, s, cap - |out|, read, read, []);
      ReadsToEnd(url, mode, s, cap, c.read, out + c.bytes);
    }
  }

  /** Any text, with a buffer of the upper-bound size or more, is decoded as its stripped text is read. */
  lemma DecodesAsRead(url: bool, mode: Mode, s: seq<Unit>, cap: nat)
    requires cap >= Bound(|s|)
    ensures ReadAs(DecodeFrom(url, mode, s, cap, 0, []), [], Read(url, mode, Strip(s)), |s|)
  {
    hide DecodeFrom, Read, Strip;
    var t, large := Strip(s), Bound(|s|) + |s| + 4;
    assert s[0..] == s && t[0..] == t;
    CapacityDoesNotMatter(url, mode, s, cap, large, 0, []);
    StripIsBare(s);
    DecodeStrips(url, mode, s, t, large, 0, 0, []);
    DecodeReads(url, mode, t, large, 0, []);
    ReadsToEnd(url, mode, s, large, 0, []);
    NothingLeft(s);
  }

  lemma NothingLeft(s: seq<Unit>)
    ensures Strip(s[|s|..]) == []
  {
  }

  // ---------------------------------------------------------------------------------------
  // Encodings

  /** What is left over in the last digit of `n` bytes: four bits, two bits or none. */
  function Spare(n: nat): Byte {
    if n % 3 == 1 then 15 else if n % 3 == 2 then 3 else 0
  }

  /** The last chunk of an encoding of one byte or two, with `x` in the bits that its last digit does not need. */
  function TailOfOne(url: bool, pad: bool, x: Byte, p: Byte): (t: seq<Unit>)
    requires x <= 15
    ensures |t| == if pad then 4 else 2
  {
    var d := Digits(p, 0, 0);
    TailDigits(p, 0, x);
    [Character(url, d[0]), Character(url, d[1] | x)] + if pad then [PAD, PAD] else []
  }

  function TailOfTwo(url: bool, pad: bool, x: Byte, p: Byte, q: Byte): (t: seq<Unit>)
    requires x <= 3
    ensures |t| == if pad then 4 else 3
  {
    var d := Digits(p, q, 0);
    TailDigits(p, q, x);
    [Character(url, d[0]), Character(url, d[1]), Character(url, d[2] | x)] + if pad then [PAD] else []
  }

  /** An encoding that may have something in those bits. */
  function Spelling(url: bool, pad: bool, x: Byte, b: seq<Byte>): seq<Unit>
    requires x <= Spare(|b|)
  {
    if |b| == 0 then []
    else if |b| == 1 then TailOfOne(url, pad, x, b[0])
    else if |b| == 2 then TailOfTwo(url, pad, x, b[0], b[1])
    else FourCharacters(url, b[0], b[1], b[2]) + Spelling(url, pad, x, b[3..])
  }

  /** With nothing there, this is the encoding. */
  lemma {:induction false} SpellingIsEncoded(url: bool, pad: bool, b: seq<Byte>)
    ensures Spelling(url, pad, 0, b) == Encoded(url, pad, b)
  {
    hide Character;
    if |b| >= 3 {
      hide Digits;
      SpellingIsEncoded(url, pad, b[3..]);
    } else if |b| > 0 {
      var d := Digits(b[0], if |b| == 2 then b[1] else 0, 0);
      assert d[1] | 0 == d[1] && d[2] | 0 == d[2];
    }
  }

  // Bits

  lemma TailDigits(p: Byte, q: Byte, x: Byte)
    ensures q == 0 && x <= 15 ==> Digits(p, q, 0)[1] | x < 64
    ensures x <= 3 ==> Digits(p, q, 0)[2] | x < 64
  {
  }

  lemma DigitsOfThree(a: Byte, b: Byte, c: Byte, d: Byte)
    requires a < 64 && b < 64 && c < 64 && d < 64
    ensures var t := Three(a, b, c, d); Digits(t[0], t[1], t[2]) == [a, b, c, d]
  {
  }

  lemma CharacterOfDigit(url: bool, c: Unit)
    requires Digit(url, c) != INVALID
    ensures Character(url, Digit(url, c)) == c
  {
  }

  /** Two or three digits are those of their bytes, with what is left over in the last one. */
  lemma OneByte(a: Byte, b: Byte)
    requires a < 64 && b < 64
    ensures var t, x := Three(a, b, 0, 0), b & 15;
            && x <= 15 && Digits(t[0], 0, 0)[0] == a && Digits(t[0], 0, 0)[1] | x == b && (t[1] == 0 <==> x == 0)
  {
  }

  lemma TwoBytes(a: Byte, b: Byte, c: Byte)
    requires a < 64 && b < 64 && c < 64
    ensures var t, x := Three(a, b, c, 0), c & 3;
            && x <= 3 && Digits(t[0], t[1], 0)[0] == a && Digits(t[0], t[1], 0)[1] == b
            && Digits(t[0], t[1], 0)[2] | x == c && (t[2] == 0 <==> x == 0)
  {
  }

  lemma BackToOneByte(p: Byte, x: Byte)
    requires x <= 15
    ensures var d := Digits(p, 0, 0); Three(d[0], d[1] | x, 0, 0)[0] == p && (d[1] | x) & 15 == x
  {
  }

  lemma BackToTwoBytes(p: Byte, q: Byte, x: Byte)
    requires x <= 3
    ensures var d := Digits(p, q, 0);
            Three(d[0], d[1], d[2] | x, 0)[..2] == [p, q] && (d[2] | x) & 3 == x
  {
  }

  // ---------------------------------------------------------------------------------------
  // The texts of a byte string

  /**
   What a mode allows of `n` bytes: the strict mode wants padding and nothing in the spare bits, the
   one that stops before partial chunks wants padding, and the loose mode wants neither.
   */
  predicate Allowed(mode: Mode, pad: bool, x: Byte, n: nat) {
    x <= Spare(n) && (n % 3 == 0 || mode.Loose? || (pad && (mode.Strict? ==> x == 0)))
  }

  /** White space apart, `s` is a text of `b` that the mode allows. */
  ghost predicate Spells(url: bool, mode: Mode, s: seq<Unit>, b: seq<Byte>) {
    exists pad: bool, x: Byte :: Allowed(mode, pad, x, |b|) && Strip(s) == Spelling(url, pad, x, b)
  }

  /** The padding that `n` bytes take. */
  function Padding(n: nat): seq<Unit> {
    if n == 1 then [PAD, PAD] else [PAD]
  }

  /** A last chunk that is accepted has two or three digits, and its padding or nothing. */
  lemma CompleteTells(mode: Mode, ds: seq<Byte>, v: seq<Unit>)
    requires 0 < |ds| + |v| && |ds| < 4 && Last(mode, ds, v).ending.Complete?
    ensures 2 <= |ds| && |Last(mode, ds, v).bytes| == |ds| - 1
    ensures Last(mode, ds, v).bytes == Three(ds[0], ds[1], DigitAt(ds, 2), 0)[..|ds| - 1]
    ensures (v == [] && mode.Loose?)
         || (v == Padding(|ds| - 1) && (mode.Strict? ==> Three(ds[0], ds[1], DigitAt(ds, 2), 0)[|ds| - 1] == 0))
  {
    hide Three;
  }

  /** And is the text of its bytes. */
  lemma LastOfOne(url: bool, mode: Mode, t: seq<Unit>) returns (pad: bool, x: Byte)
    requires 2 <= |t| && Digit(url, t[0]) != INVALID && Digit(url, t[1]) != INVALID
    requires Last(mode, DigitsOf(url, t, 2), t[2..]).ending.Complete?
    ensures var b := Last(mode, DigitsOf(url, t, 2), t[2..]).bytes;
            |b| == 1 && Allowed(mode, pad, x, |b|) && t == TailOfOne(url, pad, x, b[0])
  {
    hide Digit, Three, Last, Digits, Character;
    var ds, v := DigitsOf(url, t, 2), t[2..];
    CompleteTells(mode, ds, v);
    CharacterOfDigit(url, t[0]);
    CharacterOfDigit(url, t[1]);
    OneByte(ds[0], ds[1]);
    pad, x := v != [], ds[1] & 15;
    assert t == [t[0], t[1]] + v;
  }

  lemma LastOfTwo(url: bool, mode: Mode, t: seq<Unit>) returns (pad: bool, x: Byte)
    requires 3 <= |t| && forall k :: 0 <= k < 3 ==> Digit(url, t[k]) != INVALID
    requires Last(mode, DigitsOf(url, t, 3), t[3..]).ending.Complete?
    ensures var b := Last(mode, DigitsOf(url, t, 3), t[3..]).bytes;
            |b| == 2 && Allowed(mode, pad, x, |b|) && t == TailOfTwo(url, pad, x, b[0], b[1])
  {
    hide Digit, Three, Last, Digits, Character;
    var ds, v := DigitsOf(url, t, 3), t[3..];
    CompleteTells(mode, ds, v);
    CharacterOfDigit(url, t[0]);
    CharacterOfDigit(url, t[1]);
    CharacterOfDigit(url, t[2]);
    TwoBytes(ds[0], ds[1], ds[2]);
    pad, x := v != [], ds[2] & 3;
    assert t == [t[0], t[1], t[2]] + v;
  }

  lemma LastSpells(url: bool, mode: Mode, t: seq<Unit>) returns (pad: bool, x: Byte)
    requires Lead(url, t) < 4 && Read(url, mode, t).ending.Complete?
    ensures var b := Read(url, mode, t).bytes; Allowed(mode, pad, x, |b|) && t == Spelling(url, pad, x, b)
  {
    hide Digit, Three, Last, TailOfOne, TailOfTwo, DigitsOf, Lead;
    var n := Lead(url, t);
    if t == [] {
      pad, x := true, 0;
      EmptyIsComplete(mode, DigitsOf(url, t, n), t[n..]);
    } else {
      CompleteTells(mode, DigitsOf(url, t, n), t[n..]);
      if n == 2 {
        pad, x := LastOfOne(url, mode, t);
      } else {
        pad, x := LastOfTwo(url, mode, t);
      }
    }
  }

  /** A text that is read to its end is a text of its bytes. */
  lemma {:induction false} ReadSpells(url: bool, mode: Mode, t: seq<Unit>) returns (pad: bool, x: Byte)
    requires Read(url, mode, t).ending.Complete?
    ensures var b := Read(url, mode, t).bytes; Allowed(mode, pad, x, |b|) && t == Spelling(url, pad, x, b)
  {
    hide Digit, Three, Last, FourCharacters, Lead, Read, Spelling;
    if Lead(url, t) == 4 {
      FourAreRead(url, t, mode);
      pad, x := ReadSpells(url, mode, t[4..]);
      FourSpell(url, t);
      var three := Three(Digit(url, t[0]), Digit(url, t[1]), Digit(url, t[2]), Digit(url, t[3]));
      SpellingOfFour(url, pad, x, three, Read(url, mode, t[4..]).bytes);
    } else {
      pad, x := LastSpells(url, mode, t);
    }
  }

  lemma SpellingOfFour(url: bool, pad: bool, x: Byte, three: seq<Byte>, b: seq<Byte>)
    requires |three| == 3 && x <= Spare(|b|)
    ensures Spelling(url, pad, x, three + b)
      == FourCharacters(url, three[0], three[1], three[2]) + Spelling(url, pad, x, b)
  {
    hide FourCharacters;
    assert (three + b)[3..] == b;
  }

  lemma EmptyIsComplete(mode: Mode, ds: seq<Byte>, v: seq<Unit>)
    requires ds == [] && v == []
    ensures Last(mode, ds, v) == Reading([], Complete)
  {
  }

  lemma FourSpell(url: bool, t: seq<Unit>)
    requires Lead(url, t) == 4
    ensures var three := Three(Digit(url, t[0]), Digit(url, t[1]), Digit(url, t[2]), Digit(url, t[3]));
            t == FourCharacters(url, three[0], three[1], three[2]) + t[4..]
  {
    hide Digit, Three, Digits, Character, Lead;
    DigitsOfThree(Digit(url, t[0]), Digit(url, t[1]), Digit(url, t[2]), Digit(url, t[3]));
    CharacterOfDigit(url, t[0]);
    CharacterOfDigit(url, t[1]);
    CharacterOfDigit(url, t[2]);
    CharacterOfDigit(url, t[3]);
    assert t == [t[0], t[1], t[2], t[3]] + t[4..];
  }

  lemma PadIsNoDigit(url: bool)
    ensures Digit(url, PAD) == INVALID
  {
  }

  /** A text of one byte, or of two, is read to its end. */
  lemma OneReads(url: bool, mode: Mode, pad: bool, x: Byte, p: Byte)
    requires Allowed(mode, pad, x, 1)
    ensures Read(url, mode, TailOfOne(url, pad, x, p)) == Reading([p], Complete)
  {
    hide Digit, Three, Digits, Character;
    var t := TailOfOne(url, pad, x, p);
    PadIsNoDigit(url);
    TailDigits(p, 0, x);
    BackToOneByte(p, x);
    var ds := DigitsOf(url, t, 2);
    OneByte(ds[0], ds[1]);
    assert t[2..] == (if pad then [PAD, PAD] else []) && Lead(url, t) == 2;
    assert Three(ds[0], ds[1], 0, 0)[..1] == [p];
  }

  lemma TwoRead(url: bool, mode: Mode, pad: bool, x: Byte, p: Byte, q: Byte)
    requires Allowed(mode, pad, x, 2)
    ensures Read(url, mode, TailOfTwo(url, pad, x, p, q)) == Reading([p, q], Complete)
  {
    hide Digit, Three, Digits, Character;
    var t := TailOfTwo(url, pad, x, p, q);
    PadIsNoDigit(url);
    TailDigits(p, q, x);
    BackToTwoBytes(p, q, x);
    var ds := DigitsOf(url, t, 3);
    TwoBytes(ds[0], ds[1], ds[2]);
    assert t[3..] == (if pad then [PAD] else []) && Lead(url, t) == 3;
  }

  lemma {:induction false} SpellingReads(url: bool, mode: Mode, pad: bool, x: Byte, b: seq<Byte>)
    requires Allowed(mode, pad, x, |b|)
    ensures Read(url, mode, Spelling(url, pad, x, b)) == Reading(b, Complete)
  {
    hide FourCharacters, TailOfOne, TailOfTwo, Read, Last, DigitsOf;
    if |b| == 0 {
      EmptyReads(url, mode);
    } else if |b| == 1 {
      OneReads(url, mode, pad, x, b[0]);
    } else if |b| == 2 {
      TwoRead(url, mode, pad, x, b[0], b[1]);
    } else {
      FourCharactersRead(url, mode, b[0], b[1], b[2], Spelling(url, pad, x, b[3..]));
      SpellingReads(url, mode, pad, x, b[3..]);
      assert b == [b[0], b[1], b[2]] + b[3..];
    }
  }

  lemma EmptyReads(url: bool, mode: Mode)
    ensures Read(url, mode, []) == Reading([], Complete)
  {
  }

  lemma FourCharactersRead(url: bool, mode: Mode, p: Byte, q: Byte, r: Byte, v: seq<Unit>)
    ensures var rest := Read(url, mode, v);
            Read(url, mode, FourCharacters(url, p, q, r) + v) == Reading([p, q, r] + rest.bytes, rest.ending)
  {
    hide Digit, Three, Digits, Character, Last, Read;
    var t, d := FourCharacters(url, p, q, r) + v, Digits(p, q, r);
    ThreeOfDigits(p, q, r);
    assert t[0] == Character(url, d[0]) && t[1] == Character(url, d[1]);
    assert t[2] == Character(url, d[2]) && t[3] == Character(url, d[3]) && t[4..] == v;
    FourAreRead(url, t, mode);
  }

  /**
   With a buffer of the upper-bound size or more, a text is decoded to `b`, to its end and without an
   error, exactly if, white space apart, it is one of the texts of `b` that the mode allows.
   */
  lemma DecodesIffSpells(url: bool, mode: Mode, s: seq<Unit>, b: seq<Byte>, cap: nat)
    requires cap >= Bound(|s|)
    ensures DecodeFrom(url, mode, s, cap, 0, []) == Decoded(|s|, b, None) <==> Spells(url, mode, s, b)
  {
    DecodesAsRead(url, mode, s, cap);
    hide DecodeFrom, Read, Strip, Spelling, Allowed;
    var t := Strip(s);
    if Read(url, mode, t) == Reading(b, Complete) {
      var pad, x := ReadSpells(url, mode, t);
    }
    forall pad: bool, x: Byte | Allowed(mode, pad, x, |b|) && t == Spelling(url, pad, x, b)
      ensures Read(url, mode, t) == Reading(b, Complete)
    {
      SpellingReads(url, mode, pad, x, b);
    }
  }

  /** In strict mode that is the one padded encoding. */
  lemma StrictDecodesIff(url: bool, s: seq<Unit>, b: seq<Byte>, cap: nat)
    requires cap >= Bound(|s|)
    ensures DecodeFrom(url, Strict, s, cap, 0, []) == Decoded(|s|, b, None) <==> Strip(s) == Encoded(url, true, b)
  {
    DecodesIffSpells(url, Strict, s, b, cap);
    SpellingIsEncoded(url, true, b);
    hide DecodeFrom, Strip, Encoded, Spelling;
    assert Allowed(Strict, true, 0, |b|);
    if Spells(url, Strict, s, b) {
      var pad: bool, x: Byte :| Allowed(Strict, pad, x, |b|) && Strip(s) == Spelling(url, pad, x, b);
      if !pad { PaddingOfWholeChunks(url, x, b); }
    }
  }

  /** Whole chunks have no padding. */
  lemma {:induction false} PaddingOfWholeChunks(url: bool, x: Byte, b: seq<Byte>)
    requires |b| % 3 == 0 && x <= Spare(|b|)
    ensures Spelling(url, false, x, b) == Spelling(url, true, x, b)
  {
    hide FourCharacters;
    if |b| >= 3 { PaddingOfWholeChunks(url, x, b[3..]); }
  }

  lemma {:induction false} EncodedIsBare(url: bool, pad: bool, b: seq<Byte>)
    ensures Bare(Encoded(url, pad, b))
  {
    hide Digits, Encode, Digit, Whitespace;
    forall d: Byte | d < 64 ensures !Whitespace(Character(url, d)) {
      DigitIsPlain(url, Character(url, d));
    }
    assert !Whitespace(PAD) by { PadIsNoSpace(); }
    if |b| >= 3 { EncodedIsBare(url, pad, b[3..]); }
  }

  lemma PadIsNoSpace()
    ensures !Whitespace(PAD)
  {
  }

  /** Decoding inverts encoding, for every byte string, alphabet and large enough buffer. */
  lemma RoundTrip(url: bool, mode: Mode, pad: bool, b: seq<Byte>, cap: nat)
    requires cap >= |b| && (pad || mode.Loose? || |b| % 3 == 0)
    ensures DecodeFrom(url, mode, Encoded(url, pad, b), cap, 0, []) == Decoded(|Encoded(url, pad, b)|, b, None)
  {
    hide DecodeFrom, Read, Encoded, Spelling, Bare;
    var t := Encoded(url, pad, b);
    EncodedIsBare(url, pad, b);
    SpellingIsEncoded(url, pad, b);
    SpellingReads(url, mode, pad, 0, b);
    assert t[0..] == t;
    DecodeCuts(url, mode, t, cap, 0, []);
  }

  /** `fromBase64`: the result is the one for any buffer that is large enough. */
  method FromBase64(url: bool, mode: Mode, s: seq<Unit>, ascii: bool)
    returns (read: nat, bytes: seq<Byte>, error: Option<Error>)
    requires ascii ==> forall i :: 0 <= i < |s| ==> s[i] < 128
    ensures forall cap :: cap >= Bound(|s|) ==> Decoded(read, bytes, error) == DecodeFrom(url, mode, s, cap, 0, [])
    ensures read == |s| && error == None <==> Spells(url, mode, s, bytes)
    ensures forall b :: Spells(url, mode, s, b) ==> bytes == b
  {
    hide DecodeFrom, Spells;
    var dst := new Byte[Bound(|s|)];
    var written;
    if ascii {
      read, written, error := DecodeAscii(url, mode, s, dst);
    } else {
      read, written, error := DecodeUnicode(url, mode, s, dst);
    }
    bytes := dst[..written];
    forall cap: nat | cap >= Bound(|s|)
      ensures Decoded(read, bytes, error) == DecodeFrom(url, mode, s, cap, 0, [])
    {
      CapacityDoesNotMatter(url, mode, s, dst.Length, cap, 0, []);
    }
    forall b ensures Spells(url, mode, s, b) <==> read == |s| && bytes == b && error == None {
      DecodesIffSpells(url, mode, s, b, dst.Length);
    }
  }
}
