/**
 The base64 decoder: eight-character and four-character fast paths over a careful decoder of
 one chunk, writing into a buffer of limited size.
 */
module Base64 {
  import opened Options

  type Byte = bv8
  type Unit = bv16   // a UTF-16 code unit

  datatype Mode = Loose | Strict | StopBeforePartial

  datatype Error =
    | MissingPadding        // the last chunk is not padded
    | SingleCharacter       // a single extra character in the last chunk
    | UnexpectedPadding     // a padding character too early
    | PaddingIncomplete     // one of two padding characters is missing
    | AfterPadding          // something follows the padding
    | InvalidCharacter
    | ExtraBits             // non-zero bits after the last byte

  // ---------------------------------------------------------------------------------------
  // Alphabets

  const INVALID: Byte := 0xff

  /** The decoding tables of sections 4 and 5 of RFC 4648. */
  function Decode(url: bool, c: Byte): (d: Byte)
    ensures d < 64 || d == INVALID
  {
    if 65 <= c <= 90 then c - 65
    else if 97 <= c <= 122 then c - 71
    else if 48 <= c <= 57 then c + 4
    else if c == (if url then 45 else 43) then 62
    else if c == (if url then 95 else 47) then 63
    else INVALID
  }

  /** The character of a six-bit digit. */
  function Encode(url: bool, d: Byte): (c: Byte)
    requires d < 64
    ensures Decode(url, c) == d
  {
    if d < 26 then d + 65
    else if d < 52 then d + 71
    else if d < 62 then d - 4
    else if d == 62 then if url then 45 else 43
    else if url then 95 else 47
  }

  const PAD: Unit := 61

  predicate Whitespace(c: Unit) {
    c == 9 || c == 10 || c == 12 || c == 13 || c == 32
  }

  /** The low byte of a code unit. */
  function LowByte(c: Unit): Byte {
    (c & 0xff) as Byte
  }

  /** The digit of a code unit: no unit above 127 is one. */
  function Digit(url: bool, c: Unit): (d: Byte)
    ensures d < 64 || d == INVALID
  {
    if c >= 128 then INVALID else Decode(url, LowByte(c))
  }

  /** The table lookup of the fast paths, for a unit that fits a byte, finds the same digit. */
  lemma DigitIsLookup(url: bool, c: Unit)
    requires c <= 0xff
    ensures Decode(url, LowByte(c)) == Digit(url, c)
  {
  }

  lemma DigitIsPlain(url: bool, c: Unit)
    requires Digit(url, c) != INVALID
    ensures c < 128 && c != PAD && !Whitespace(c)
  {
  }

  // ---------------------------------------------------------------------------------------
  // Bits

  function Assemble32(a: Byte, b: Byte, c: Byte, d: Byte): bv32 {
    ((a as bv32) << 18) | ((b as bv32) << 12) | ((c as bv32) << 6) | (d as bv32)
  }

  function Assemble64(a: Byte, b: Byte, c: Byte, d: Byte, e: Byte, f: Byte, g: Byte, h: Byte): bv64 {
    ((a as bv64) << 42) | ((b as bv64) << 36) | ((c as bv64) << 30) | ((d as bv64) << 24)
    | ((e as bv64) << 18) | ((f as bv64) << 12) | ((g as bv64) << 6) | (h as bv64)
  }

  function Low32(v: bv32): Byte { (v & 0xff) as Byte }

  function Low64(v: bv64): Byte { (v & 0xff) as Byte }

  /** The three bytes of four digits. */
  function Three(a: Byte, b: Byte, c: Byte, d: Byte): (r: seq<Byte>)
    ensures |r| == 3
  {
    var v := Assemble32(a, b, c, d);
    [Low32(v >> 16), Low32(v >> 8), Low32(v)]
  }

  /** The six bytes of eight digits. */
  function Six(a: Byte, b: Byte, c: Byte, d: Byte, e: Byte, f: Byte, g: Byte, h: Byte): (r: seq<Byte>)
    ensures |r| == 6
  {
    var v := Assemble64(a, b, c, d, e, f, g, h);
    [Low64(v >> 40), Low64(v >> 32), Low64(v >> 24), Low64(v >> 16), Low64(v >> 8), Low64(v)]
  }

  function Or4(a: Byte, b: Byte, c: Byte, d: Byte): Byte {
    a | b | c | d
  }

  function Or8(a: Byte, b: Byte, c: Byte, d: Byte, e: Byte, f: Byte, g: Byte, h: Byte): Byte {
    a | b | c | d | e | f | g | h
  }

  /** A bitwise or of digits shows whether one of them is invalid. */
  lemma OrOfDigits(a: Byte, b: Byte, c: Byte, d: Byte)
    requires (a < 64 || a == INVALID) && (b < 64 || b == INVALID) && (c < 64 || c == INVALID)
    requires (d < 64 || d == INVALID)
    ensures Or4(a, b, c, d) == INVALID <==> a == INVALID || b == INVALID || c == INVALID || d == INVALID
  {
  }

  /** Six bytes at once are twice three bytes. */
  lemma SixIsTwiceThree(a: Byte, b: Byte, c: Byte, d: Byte, e: Byte, f: Byte, g: Byte, h: Byte)
    requires a < 64 && b < 64 && c < 64 && d < 64 && e < 64 && f < 64 && g < 64 && h < 64
    ensures Six(a, b, c, d, e, f, g, h) == Three(a, b, c, d) + Three(e, f, g, h)
  {
    SixBits(a, b, c, d, e, f, g, h);
    hide Assemble32, Assemble64, Low32, Low64;
  }

  lemma SixBits(a: Byte, b: Byte, c: Byte, d: Byte, e: Byte, f: Byte, g: Byte, h: Byte)
    requires a < 64 && b < 64 && c < 64 && d < 64 && e < 64 && f < 64 && g < 64 && h < 64
    ensures var v, x, y := Assemble64(a, b, c, d, e, f, g, h), Assemble32(a, b, c, d), Assemble32(e, f, g, h);
            && Low64(v >> 40) == Low32(x >> 16) && Low64(v >> 32) == Low32(x >> 8) && Low64(v >> 24) == Low32(x)
            && Low64(v >> 16) == Low32(y >> 16) && Low64(v >> 8) == Low32(y >> 8) && Low64(v) == Low32(y)
  {
  }

  /** A bitwise or of code units shows whether all of them fit a byte. */
  lemma OrOfUnits(a: Unit, b: Unit, c: Unit, d: Unit)
    ensures (a | b | c | d) & 0xff00 == 0 <==> a <= 0xff && b <= 0xff && c <= 0xff && d <= 0xff
  {
  }

  lemma OrOfEightUnits(a: Unit, b: Unit, c: Unit, d: Unit, e: Unit, f: Unit, g: Unit, h: Unit)
    ensures (a | b | c | d | e | f | g | h) & 0xff00 == 0
       <==> a <= 0xff && b <= 0xff && c <= 0xff && d <= 0xff && e <= 0xff && f <= 0xff && g <= 0xff && h <= 0xff
  {
  }

  // ---------------------------------------------------------------------------------------
  // One chunk

  function SkipWhitespace(s: seq<Unit>, i: nat): (r: nat)
    requires i <= |s|
    ensures i <= r <= |s| && (r < |s| ==> !Whitespace(s[r]))
    decreases |s| - i
  {
    if i < |s| && Whitespace(s[i]) then SkipWhitespace(s, i + 1) else i
  }

  /** What decoding one chunk yields: how far was read, the bytes, whether to stop, and an error. */
  datatype Chunk = Chunk(read: nat, bytes: seq<Byte>, eof: bool, error: Option<Error>)

  function DigitAt(ds: seq<Byte>, k: nat): Byte {
    if k < |ds| then ds[k] else 0
  }

  /** The bytes of a last chunk of two or three digits, or none if there are forbidden extra bits. */
  function FinalBytes(ds: seq<Byte>, throwOnExtraBits: bool): (r: Option<seq<Byte>>)
    requires 2 <= |ds| <= 3
    ensures r.Some? ==> |r.value| == |ds| - 1
  {
    var b := Three(ds[0], ds[1], DigitAt(ds, 2), 0);
    var n := |ds| - 1;
    if throwOnExtraBits && b[n] != 0 then None else Some(b[..n])
  }

  function Fit(b: seq<Byte>, room: nat): (r: seq<Byte>)
    ensures |r| <= room && r <= b
  {
    if |b| <= room then b else b[..room]
  }

  /** Decodes on from `i` with digits `ds` already read of the chunk that starts at `start`. */
  function ChunkFrom(url: bool, mode: Mode, s: seq<Unit>, room: nat, start: nat, i: nat, ds: seq<Byte>): (r: Chunk)
    requires start <= i <= |s| && |ds| < 4
    ensures r.read <= |s| && |r.bytes| <= room
    ensures !r.eof && r.error.None? ==> r.read > i && |r.bytes| == 3 < room
    decreases |s| - i
  {
    var k := SkipWhitespace(s, i);
    var stop := Chunk(start, [], true, None);
    if k == |s| then
      if |ds| == 0 then Chunk(|s|, [], true, None)
      else if mode.StopBeforePartial? then stop
      else if mode.Strict? then stop.(error := Some(MissingPadding))
      else if |ds| == 1 then stop.(error := Some(SingleCharacter))
      else Chunk(|s|, Fit(FinalBytes(ds, false).value, room), true, None)
    else if s[k] == PAD then
      if |ds| < 2 then Fail(start, UnexpectedPadding) else Padded(mode, s, room, start, k + 1, ds)
    else if Digit(url, s[k]) == INVALID then Fail(start, InvalidCharacter)
    else if (room == 1 && |ds| == 2) || (room == 2 && |ds| == 3) then stop
    else if |ds| == 3 then
      Chunk(k + 1, Fit(Three(ds[0], ds[1], ds[2], Digit(url, s[k])), room), room <= 3, None)
    else ChunkFrom(url, mode, s, room, start, k + 1, ds + [Digit(url, s[k])])
  }

  function Fail(start: nat, e: Error): Chunk {
    Chunk(start, [], false, Some(e))
  }

  /** After the first padding character. */
  function Padded(mode: Mode, s: seq<Unit>, room: nat, start: nat, i: nat, ds: seq<Byte>): (r: Chunk)
    requires start <= i <= |s| && 2 <= |ds| < 4
    ensures r.read <= |s| && |r.bytes| <= room && (r.eof || r.error.Some?)
  {
    var k := SkipWhitespace(s, i);
    if |ds| == 2 && k == |s| then
      if mode.StopBeforePartial? then Chunk(start, [], true, None) else Fail(start, PaddingIncomplete)
    else
      var k2 := if |ds| == 2 && s[k] == PAD then SkipWhitespace(s, k + 1) else k;
      if k2 < |s| then Fail(start, AfterPadding)
      else
        match FinalBytes(ds, mode.Strict?)
        case None => Fail(start, ExtraBits)
        case Some(b) => Chunk(|s|, Fit(b, room), true, None)
  }

  // ---------------------------------------------------------------------------------------
  // The whole input, chunk by chunk: the reference for the fast decoders

  datatype Decoded = Decoded(read: nat, bytes: seq<Byte>, error: Option<Error>)

  /** Decodes on from `read` with `out` already written, into a buffer of `cap` bytes. */
  function DecodeFrom(url: bool, mode: Mode, s: seq<Unit>, cap: nat, read: nat, out: seq<Byte>): (r: Decoded)
    requires read <= |s| && |out| <= cap
    ensures r.read <= |s| && |r.bytes| <= cap && out <= r.bytes
    decreases |s| - read
  {
    if |out| == cap then Decoded(read, out, None)
    else
      var c := ChunkFrom(url, mode, s, cap - |out|, read, read, []);
      if c.error.Some? then Decoded(c.read, out, c.error)
      else if c.eof then Decoded(c.read, out + c.bytes, None)
      else DecodeFrom(url, mode, s, cap, c.read, out + c.bytes)
  }

  /** Decoding by its next chunk. */
  lemma NextChunk(url: bool, mode: Mode, s: seq<Unit>, cap: nat, read: nat, out: seq<Byte>)
    requires read <= |s| && |out| < cap
    ensures var c, d := ChunkFrom(url, mode, s, cap - |out|, read, read, []), DecodeFrom(url, mode, s, cap, read, out);
            && (c.error.Some? ==> d == Decoded(c.read, out, c.error))
            && (c.error.None? && c.eof ==> d == Decoded(c.read, out + c.bytes, None))
            && (c.error.None? && !c.eof ==> d == DecodeFrom(url, mode, s, cap, c.read, out + c.bytes))
  {
    hide ChunkFrom;
  }

  /** Four consecutive digits with room for three bytes: one chunk, however it is decoded. */
  lemma FourDigits(url: bool, mode: Mode, s: seq<Unit>, cap: nat, read: nat, out: seq<Byte>)
    requires read + 4 <= |s| && |out| + 3 <= cap
    requires Digit(url, s[read]) != INVALID && Digit(url, s[read + 1]) != INVALID
    requires Digit(url, s[read + 2]) != INVALID && Digit(url, s[read + 3]) != INVALID
    ensures DecodeFrom(url, mode, s, cap, read, out)
         == DecodeFrom(url, mode, s, cap, read + 4,
                       out + Three(Digit(url, s[read]), Digit(url, s[read + 1]), Digit(url, s[read + 2]),
                         Digit(url, s[read + 3])))
  {
    hide Digit, Three, Whitespace, ChunkFrom;
    var room := cap - |out|;
    var d := [Digit(url, s[read]), Digit(url, s[read + 1]), Digit(url, s[read + 2]), Digit(url, s[read + 3])];
    DigitIsPlain(url, s[read]);
    DigitIsPlain(url, s[read + 1]);
    DigitIsPlain(url, s[read + 2]);
    DigitIsPlain(url, s[read + 3]);
    ChunkStep(url, mode, s, room, read, read, []);
    assert [] + [d[0]] == d[..1];
    ChunkStep(url, mode, s, room, read, read + 1, d[..1]);
    assert d[..1] + [d[1]] == d[..2];
    ChunkStep(url, mode, s, room, read, read + 2, d[..2]);
    assert d[..2] + [d[2]] == d[..3];
    ChunkStep(url, mode, s, room, read, read + 3, d[..3]);
  }

  /** One digit, with no white space before it and no want of room. */
  lemma ChunkStep(url: bool, mode: Mode, s: seq<Unit>, room: nat, start: nat, i: nat, ds: seq<Byte>)
    requires start <= i < |s| && |ds| < 4 && Digit(url, s[i]) != INVALID && s[i] != PAD && !Whitespace(s[i])
    requires (room == 1 ==> |ds| != 2) && (room == 2 ==> |ds| != 3) && (|ds| == 3 ==> room >= 3)
    ensures ChunkFrom(url, mode, s, room, start, i, ds)
         == if |ds| == 3 then Chunk(i + 1, Three(ds[0], ds[1], ds[2], Digit(url, s[i])), room <= 3, None)
            else ChunkFrom(url, mode, s, room, start, i + 1, ds + [Digit(url, s[i])])
  {
    hide Digit, Three, Whitespace;
    assert SkipWhitespace(s, i) == i;
  }

  // ---------------------------------------------------------------------------------------
  // The decoders as they are written

  /** Writes `b` at `at`. */
  method Put(dst: array<Byte>, at: nat, b: seq<Byte>)
    requires at + |b| <= dst.Length
    modifies dst
    ensures dst[..at + |b|] == old(dst[..at]) + b && forall k :: at + |b| <= k < dst.Length ==> dst[k] == old(dst[k])
  {
    forall k | 0 <= k < |b| {
      dst[at + k] := b[k];
    }
  }

  /** `newDstIndex` bytes are in place, the first of them as before, and nothing after them has been touched. */
  twostate predicate Wrote(dst: array<Byte>, from: nat, b: seq<Byte>, to: nat)
    requires from <= dst.Length
    reads dst
  {
    to == from + |b| <= dst.Length && dst[..to] == old(dst[..from]) + b && forall k :: to <= k < dst.Length ==>
      dst[k] == old(dst[k])
  }

  method DecodeChunk(url: bool, mode: Mode, s: seq<Unit>, index: nat, dst: array<Byte>, dstIndex: nat)
    returns (newIndex: nat, newDstIndex: nat, eof: bool, error: Option<Error>)
    requires index <= |s| && dstIndex <= dst.Length
    modifies dst
    ensures var c := ChunkFrom(url, mode, s, dst.Length - dstIndex, index, index, []);
            && newIndex == c.read && eof == c.eof && error == c.error
            && Wrote(dst, dstIndex, c.bytes, newDstIndex)
  {
    hide Digit, Three, Whitespace, SkipWhitespace, Padded, Fail;
    newIndex, newDstIndex, eof, error := index, dstIndex, false, None;
    var chunk: seq<Byte> := [];
    var i := index;
    var room := dst.Length - dstIndex;
    while true
      invariant index <= i <= |s| && |chunk| < 4
      invariant newIndex == index && newDstIndex == dstIndex && !eof && error == None
      invariant dst[..] == old(dst[..])
      invariant ChunkFrom(url, mode, s, room, index, i, chunk) == ChunkFrom(url, mode, s, room, index, index, [])
      decreases |s| - i
    {
      i := SkipWhitespace(s, i);
      if i == |s| {
        eof := true;
        if |chunk| > 0 {
          if mode.StopBeforePartial? {
            return;
          }
          if mode.Strict? {
            error := Some(MissingPadding);
            return;
          }
          if |chunk| == 1 {
            error := Some(SingleCharacter);
            return;
          }
          var dec := FinalBytes(chunk, false);
          Put(dst, dstIndex, Fit(dec.value, room));
          newDstIndex := dstIndex + |Fit(dec.value, room)|;
        }
        newIndex := |s|;
        return;
      }
      var unit := s[i];
      i := i + 1;
      if unit == PAD {
        if |chunk| < 2 {
          error := Some(UnexpectedPadding);
          assert ChunkFrom(url, mode, s, room, index, index, []) == Fail(index, UnexpectedPadding);
          FailIs(index, UnexpectedPadding);
          return;
        }
        newIndex, newDstIndex, eof, error := FinishPadded(mode, s, index, i, chunk, dst, dstIndex);
        return;
      }
      var b := Digit(url, unit);
      if b == INVALID {
        error := Some(InvalidCharacter);
        FailIs(index, InvalidCharacter);
        return;
      }
      if (room == 1 && |chunk| == 2) || (room == 2 && |chunk| == 3) {
        eof := true;
        return;
      }
      if |chunk| == 3 {
        var three := Three(chunk[0], chunk[1], chunk[2], b);
        Put(dst, dstIndex, Fit(three, room));
        newDstIndex := dstIndex + |Fit(three, room)|;
        eof := room <= 3;
        newIndex := i;
        return;
      }
      chunk := chunk + [b];
    }
  }

  lemma FailIs(start: nat, e: Error)
    ensures Fail(start, e) == Chunk(start, [], false, Some(e))
  {
  }

  method FinishPadded(mode: Mode, s: seq<Unit>, start: nat, i: nat, chunk: seq<Byte>, dst: array<Byte>, dstIndex: nat)
    returns (newIndex: nat, newDstIndex: nat, eof: bool, error: Option<Error>)
    requires start <= i <= |s| && 2 <= |chunk| < 4 && dstIndex <= dst.Length
    modifies dst
    ensures var c := Padded(mode, s, dst.Length - dstIndex, start, i, chunk);
            && newIndex == c.read && eof == c.eof && error == c.error
            && Wrote(dst, dstIndex, c.bytes, newDstIndex)
  {
    hide Whitespace, SkipWhitespace, Three;
    newIndex, newDstIndex, eof, error := start, dstIndex, false, None;
    var index := SkipWhitespace(s, i);
    if |chunk| == 2 {
      if index == |s| {
        if mode.StopBeforePartial? {
          eof := true;
          return;
        }
        error := Some(PaddingIncomplete);
        return;
      }
      if s[index] == PAD {
        index := SkipWhitespace(s, index + 1);
      }
    }
    if index < |s| {
      error := Some(AfterPadding);
      return;
    }
    var dec := FinalBytes(chunk, mode.Strict?);
    if dec.None? {
      error := Some(ExtraBits);
      return;
    }
    var b := Fit(dec.value, dst.Length - dstIndex);
    Put(dst, dstIndex, b);
    newIndex, newDstIndex, eof := |s|, dstIndex + |b|, true;
  }

  /** What remains to be decoded after `read` units and `written` bytes is all of it. */
  ghost predicate OnTrack(url: bool, mode: Mode, s: seq<Unit>, cap: nat, read: nat, out: seq<Byte>) {
    read <= |s| && |out| <= cap && DecodeFrom(url, mode, s, cap, read, out) == DecodeFrom(url, mode, s, cap, 0, [])
  }

  /** After a chunk: either all is done, or decoding goes on from there. */
  lemma AfterChunk(url: bool, mode: Mode, s: seq<Unit>, cap: nat, read: nat, out: seq<Byte>, c: Chunk)
    requires OnTrack(url, mode, s, cap, read, out) && |out| < cap
    requires c == ChunkFrom(url, mode, s, cap - |out|, read, read, [])
    ensures c.error.Some? ==> Decoded(c.read, out, c.error) == DecodeFrom(url, mode, s, cap, 0, []) && c.bytes == []
    ensures c.error.None? && c.eof ==> Decoded(c.read, out + c.bytes, None) == DecodeFrom(url, mode, s, cap, 0, [])
    ensures c.error.None? && !c.eof ==>
      OnTrack(url, mode, s, cap, c.read, out + c.bytes) && c.read > read && |out + c.bytes| < cap
  {
    ErrorsWriteNothing(url, mode, s, cap - |out|, read, read, []);
    hide ChunkFrom;
  }

  lemma {:induction false} ErrorsWriteNothing(url: bool, mode: Mode, s: seq<Unit>, room: nat, start: nat, i: nat,
                                              ds: seq<Byte>)
    requires start <= i <= |s| && |ds| < 4
    ensures ChunkFrom(url, mode, s, room, start, i, ds).error.Some? ==>
      ChunkFrom(url, mode, s, room, start, i, ds).bytes == []
    decreases |s| - i
  {
    hide Digit, Three, Whitespace;
    var k := SkipWhitespace(s, i);
    if k < |s| && s[k] != PAD && Digit(url, s[k]) != INVALID && |ds| < 3 {
      ErrorsWriteNothing(url, mode, s, room, start, k + 1, ds + [Digit(url, s[k])]);
    }
  }


  // The fast paths

  /** Four units through the decoding table, or nothing if one of them is no digit. */
  function Lookup4(url: bool, u: seq<Unit>): (r: Option<seq<Byte>>)
    requires |u| == 4
  {
    var a, b, c, d := Decode(url, LowByte(u[0])), Decode(url, LowByte(u[1])), Decode(url, LowByte(u[2])),
      Decode(url, LowByte(u[3]));
    if Or4(a, b, c, d) == INVALID then None else Some(Three(a, b, c, d))
  }

  /** Eight units at once. */
  function Lookup8(url: bool, u: seq<Unit>): (r: Option<seq<Byte>>)
    requires |u| == 8
  {
    var a, b, c, d := Decode(url, LowByte(u[0])), Decode(url, LowByte(u[1])), Decode(url, LowByte(u[2])),
      Decode(url, LowByte(u[3]));
    var e, f, g, h := Decode(url, LowByte(u[4])), Decode(url, LowByte(u[5])), Decode(url, LowByte(u[6])),
      Decode(url, LowByte(u[7]));
    if Or8(a, b, c, d, e, f, g, h) == INVALID then None else Some(Six(a, b, c, d, e, f, g, h))
  }

  predicate Narrow(u: seq<Unit>) {
    forall i :: 0 <= i < |u| ==> u[i] <= 0xff
  }

  lemma Lookup4Is(url: bool, u: seq<Unit>)
    requires |u| == 4 && Narrow(u) && Lookup4(url, u).Some?
    ensures Digit(url, u[0]) != INVALID && Digit(url, u[1]) != INVALID && Digit(url, u[2]) != INVALID
    ensures Digit(url, u[3]) != INVALID
    ensures Lookup4(url, u).value == Three(Digit(url, u[0]), Digit(url, u[1]), Digit(url, u[2]), Digit(url, u[3]))
  {
    hide Digit, Three, Decode, Or4;
    var a, b, c, d := Decode(url, LowByte(u[0])), Decode(url, LowByte(u[1])), Decode(url, LowByte(u[2])),
      Decode(url, LowByte(u[3]));
    OrOfDigits(a, b, c, d);
    DigitIsLookup(url, u[0]);
    DigitIsLookup(url, u[1]);
    DigitIsLookup(url, u[2]);
    DigitIsLookup(url, u[3]);
  }

  lemma Lookup8Is(url: bool, u: seq<Unit>)
    requires |u| == 8 && Lookup8(url, u).Some?
    ensures Lookup4(url, u[..4]).Some? && Lookup4(url, u[4..]).Some?
    ensures Lookup8(url, u).value == Lookup4(url, u[..4]).value + Lookup4(url, u[4..]).value
  {
    hide Decode, LowByte, Or4, Or8, Three, Six;
    var a, b, c, d := Decode(url, LowByte(u[0])), Decode(url, LowByte(u[1])), Decode(url, LowByte(u[2])),
      Decode(url, LowByte(u[3]));
    var e, f, g, h := Decode(url, LowByte(u[4])), Decode(url, LowByte(u[5])), Decode(url, LowByte(u[6])),
      Decode(url, LowByte(u[7]));
    assert u[..4][0] == u[0] && u[..4][1] == u[1] && u[..4][2] == u[2] && u[..4][3] == u[3];
    assert u[4..][0] == u[4] && u[4..][1] == u[5] && u[4..][2] == u[6] && u[4..][3] == u[7];
    EightValid(a, b, c, d, e, f, g, h);
    SixIsTwiceThree(a, b, c, d, e, f, g, h);
  }

  lemma EightValid(a: Byte, b: Byte, c: Byte, d: Byte, e: Byte, f: Byte, g: Byte, h: Byte)
    requires (a < 64 || a == INVALID) && (b < 64 || b == INVALID) && (c < 64 || c == INVALID)
    requires (d < 64 || d == INVALID)
    requires (e < 64 || e == INVALID) && (f < 64 || f == INVALID) && (g < 64 || g == INVALID)
    requires (h < 64 || h == INVALID)
    requires Or8(a, b, c, d, e, f, g, h) != INVALID
    ensures a < 64 && b < 64 && c < 64 && d < 64 && e < 64 && f < 64 && g < 64 && h < 64
    ensures Or4(a, b, c, d) != INVALID && Or4(e, f, g, h) != INVALID
  {
  }

  lemma FastFour(url: bool, mode: Mode, s: seq<Unit>, cap: nat, read: nat, out: seq<Byte>)
    requires read + 4 <= |s| && |out| + 3 <= cap && OnTrack(url, mode, s, cap, read, out)
    requires Narrow(s[read..read + 4]) && Lookup4(url, s[read..read + 4]).Some?
    ensures |Lookup4(url, s[read..read + 4]).value| == 3
    ensures OnTrack(url, mode, s, cap, read + 4, out + Lookup4(url, s[read..read + 4]).value)
  {
    hide Digit, Three, DecodeFrom;
    var u := s[read..read + 4];
    assert u[0] == s[read] && u[1] == s[read + 1] && u[2] == s[read + 2] && u[3] == s[read + 3];
    Lookup4Is(url, u);
    FourDigits(url, mode, s, cap, read, out);
    hide Lookup4;
  }

  lemma FastEight(url: bool, mode: Mode, s: seq<Unit>, cap: nat, read: nat, out: seq<Byte>)
    requires read + 8 <= |s| && |out| + 6 <= cap && OnTrack(url, mode, s, cap, read, out)
    requires Narrow(s[read..read + 8]) && Lookup8(url, s[read..read + 8]).Some?
    ensures |Lookup8(url, s[read..read + 8]).value| == 6
    ensures OnTrack(url, mode, s, cap, read + 8, out + Lookup8(url, s[read..read + 8]).value)
  {
    hide OnTrack, Lookup4;
    var u := s[read..read + 8];
    Lookup8Is(url, u);
    assert u[..4] == s[read..read + 4] && u[4..] == s[read + 4..read + 8];
    assert Narrow(u[..4]) && Narrow(u[4..]);
    FastFour(url, mode, s, cap, read, out);
    var out1 := out + Lookup4(url, u[..4]).value;
    FastFour(url, mode, s, cap, read + 4, out1);
    assert out + (Lookup4(url, u[..4]).value + Lookup4(url, u[4..]).value) == out1 + Lookup4(url, u[4..]).value;
  }

  /** The call of the chunk decoder from within the loops.  `done` says that the whole result is there. */
  method Careful(url: bool, mode: Mode, s: seq<Unit>, read: nat, dst: array<Byte>, written: nat)
    returns (read': nat, written': nat, done: bool, error: Option<Error>)
    requires written < dst.Length && OnTrack(url, mode, s, dst.Length, read, dst[..written])
    modifies dst
    ensures written <= written' <= dst.Length && forall k :: written' <= k < dst.Length ==> dst[k] == old(dst[k])
    ensures done ==> Decoded(read', dst[..written'], error) == DecodeFrom(url, mode, s, dst.Length, 0, [])
    ensures !done ==>
      error.None? && read' > read && written' < dst.Length && OnTrack(url, mode, s, dst.Length, read', dst[..written'])
  {
    hide OnTrack, ChunkFrom, DecodeFrom;
    ghost var out, cap := dst[..written], dst.Length;
    OnTrackBounds(url, mode, s, cap, read, out);
    ghost var c := ChunkFrom(url, mode, s, cap - written, read, read, []);
    AfterChunk(url, mode, s, cap, read, out, c);
    var eof;
    read', written', eof, error := DecodeChunk(url, mode, s, read, dst, written);
    assert dst[..written'] == out + c.bytes;
    assert error.Some? ==> out + c.bytes == out;
    done := eof || error.Some?;
  }

  lemma OnTrackBounds(url: bool, mode: Mode, s: seq<Unit>, cap: nat, read: nat, out: seq<Byte>)
    requires OnTrack(url, mode, s, cap, read, out)
    ensures read <= |s| && |out| <= cap
  {
  }

  /** The rest of both decoders: done if the buffer is full, else chunk by chunk to the end. */
  method Finish(url: bool, mode: Mode, s: seq<Unit>, read0: nat, dst: array<Byte>, written0: nat)
    returns (read: nat, written: nat, error: Option<Error>)
    requires written0 <= dst.Length && OnTrack(url, mode, s, dst.Length, read0, dst[..written0])
    modifies dst
    ensures written <= dst.Length && forall k :: written <= k < dst.Length ==> dst[k] == old(dst[k])
    ensures Decoded(read, dst[..written], error) == DecodeFrom(url, mode, s, dst.Length, 0, [])
  {
    read, written, error := read0, written0, None;
    if written == dst.Length {
      return;
    }
    hide OnTrack, DecodeFrom;
    var done := false;
    while !done
      invariant written <= dst.Length && forall k :: written <= k < dst.Length ==> dst[k] == old(dst[k])
      invariant !done ==>
        written < dst.Length && error.None? && read <= |s| && OnTrack(url, mode, s, dst.Length, read, dst[..written])
      invariant done ==> Decoded(read, dst[..written], error) == DecodeFrom(url, mode, s, dst.Length, 0, [])
      decreases !done, |s| - read
    {
      ghost var before := written;
      read, written, done, error := Careful(url, mode, s, read, dst, written);
      if !done { OnTrackBounds(url, mode, s, dst.Length, read, dst[..written]); }
    }
  }

  /** `base64DecodeAscii`: the units are below 128. */
  method DecodeAscii(url: bool, mode: Mode, s: seq<Unit>, dst: array<Byte>)
    returns (read: nat, written: nat, error: Option<Error>)
    requires forall i :: 0 <= i < |s| ==> s[i] < 128
    modifies dst
    ensures written <= dst.Length && forall k :: written <= k < dst.Length ==> dst[k] == old(dst[k])
    ensures Decoded(read, dst[..written], error) == DecodeFrom(url, mode, s, dst.Length, 0, [])
  {
    hide DecodeFrom, Lookup4, Lookup8;
    read, written, error := 0, 0, None;
    assert dst[..0] == [];
    while |s| - read >= 8 && dst.Length - written >= 6
      invariant read <= |s| && written <= dst.Length && OnTrack(url, mode, s, dst.Length, read, dst[..written])
      invariant forall k :: written <= k < dst.Length ==> dst[k] == old(dst[k])
      decreases |s| - read
    {
      var six := Lookup8(url, s[read..read + 8]);
      if six.Some? {
        FastEight(url, mode, s, dst.Length, read, dst[..written]);
        Put(dst, written, six.value);
        written, read := written + 6, read + 8;
      } else {
        var done;
        read, written, done, error := Careful(url, mode, s, read, dst, written);
        if done {
          return;
        }
      }
    }
    while |s| - read >= 4 && dst.Length - written >= 3
      invariant read <= |s| && written <= dst.Length && OnTrack(url, mode, s, dst.Length, read, dst[..written])
      invariant forall k :: written <= k < dst.Length ==> dst[k] == old(dst[k])
      decreases |s| - read
    {
      var three := Lookup4(url, s[read..read + 4]);
      if three.Some? {
        FastFour(url, mode, s, dst.Length, read, dst[..written]);
        Put(dst, written, three.value);
        written, read := written + 3, read + 4;
      } else {
        var done;
        read, written, done, error := Careful(url, mode, s, read, dst, written);
        if done {
          return;
        }
      }
    }
    read, written, error := Finish(url, mode, s, read, dst, written);
  }

  /** `base64DecodeUnicode`: any units; the fast paths are taken only when all fit a byte. */
  method DecodeUnicode(url: bool, mode: Mode, s: seq<Unit>, dst: array<Byte>)
    returns (read: nat, written: nat, error: Option<Error>)
    modifies dst
    ensures written <= dst.Length && forall k :: written <= k < dst.Length ==> dst[k] == old(dst[k])
    ensures Decoded(read, dst[..written], error) == DecodeFrom(url, mode, s, dst.Length, 0, [])
  {
    hide DecodeFrom, Lookup4, Lookup8;
    read, written, error := 0, 0, None;
    assert dst[..0] == [];
    while |s| - read >= 8 && dst.Length - written >= 6
      invariant read <= |s| && written <= dst.Length && OnTrack(url, mode, s, dst.Length, read, dst[..written])
      invariant forall k :: written <= k < dst.Length ==> dst[k] == old(dst[k])
      decreases |s| - read
    {
      var u := s[read..read + 8];
      if (u[0] | u[1] | u[2] | u[3] | u[4] | u[5] | u[6] | u[7]) & 0xff00 == 0 {
        var six := Lookup8(url, u);
        if six.Some? {
          OrOfEightUnits(u[0], u[1], u[2], u[3], u[4], u[5], u[6], u[7]);
          FastEight(url, mode, s, dst.Length, read, dst[..written]);
          Put(dst, written, six.value);
          written, read := written + 6, read + 8;
          continue;
        }
      }
      var done;
      read, written, done, error := Careful(url, mode, s, read, dst, written);
      if done {
        return;
      }
    }
    while |s| - read >= 4 && dst.Length - written >= 3
      invariant read <= |s| && written <= dst.Length && OnTrack(url, mode, s, dst.Length, read, dst[..written])
      invariant forall k :: written <= k < dst.Length ==> dst[k] == old(dst[k])
      decreases |s| - read
    {
      var u := s[read..read + 4];
      if (u[0] | u[1] | u[2] | u[3]) & 0xff00 == 0 {
        var three := Lookup4(url, u);
        if three.Some? {
          OrOfUnits(u[0], u[1], u[2], u[3]);
          FastFour(url, mode, s, dst.Length, read, dst[..written]);
          Put(dst, written, three.value);
          written, read := written + 3, read + 4;
          continue;
        }
      }
      var done;
      read, written, done, error := Careful(url, mode, s, read, dst, written);
      if done {
        return;
      }
    }
    read, written, error := Finish(url, mode, s, read, dst, written);
  }

  // ---------------------------------------------------------------------------------------
  // A buffer of the upper-bound size never makes the decoder stop early

  /** The size of the buffer that `fromBase64` allocates for `n` units. */
  function Bound(n: nat): nat {
    (n + 3) / 4 * 3
  }

  /** Room for whatever `n` more units can yield in one chunk. */
  ghost predicate Ample(room: nat, n: nat) {
    (n >= 1 ==> room >= 3) && (n >= 5 ==> room > 3)
  }

  lemma BoundIsAmple(n: nat, m: nat)
    ensures Ample(Bound(n), n)
    ensures m + 4 <= n ==> Bound(m) + 3 <= Bound(n)
  {
  }

  /** With ample room, one chunk does not depend on the room. */
  lemma {:induction false} ChunkIgnoresRoom(url: bool, mode: Mode, s: seq<Unit>, room: nat, room': nat, start: nat,
                                            i: nat, ds: seq<Byte>)
    requires start <= i <= |s| && |ds| < 4 && Ample(room, |ds| + |s| - i) && Ample(room', |ds| + |s| - i)
    ensures var c, c' := ChunkFrom(url, mode, s, room, start, i, ds), ChunkFrom(url, mode, s, room', start, i, ds);
            && c.read == c'.read && c.bytes == c'.bytes && c.error == c'.error
            && (c.eof != c'.eof ==> c.read == |s| && c.error.None?)
    decreases |s| - i
  {
    hide Digit, Three, Whitespace, SkipWhitespace, FinalBytes, Padded;
    var k := SkipWhitespace(s, i);
    if k == |s| {
      if |ds| >= 2 { LooseFinal(ds); }
    } else if s[k] == PAD {
      if |ds| >= 2 { PaddedIgnoresRoom(mode, s, room, room', start, k + 1, ds); }
    } else if Digit(url, s[k]) != INVALID && |ds| < 3 {
      ChunkIgnoresRoom(url, mode, s, room, room', start, k + 1, ds + [Digit(url, s[k])]);
    }
  }

  lemma LooseFinal(ds: seq<Byte>)
    requires 2 <= |ds| <= 3
    ensures FinalBytes(ds, false).Some? && |FinalBytes(ds, false).value| <= 2
  {
  }

  lemma PaddedIgnoresRoom(mode: Mode, s: seq<Unit>, room: nat, room': nat, start: nat, i: nat, ds: seq<Byte>)
    requires start <= i <= |s| && 2 <= |ds| < 4 && room >= 3 && room' >= 3
    ensures Padded(mode, s, room, start, i, ds) == Padded(mode, s, room', start, i, ds)
  {
    hide FinalBytes;
  }

  lemma {:induction false} CapacityDoesNotMatter(url: bool, mode: Mode, s: seq<Unit>, cap: nat, cap': nat, read: nat,
                                                 out: seq<Byte>)
    requires read <= |s| && cap >= |out| + Bound(|s| - read) && cap' >= |out| + Bound(|s| - read)
    ensures DecodeFrom(url, mode, s, cap, read, out) == DecodeFrom(url, mode, s, cap', read, out)
    decreases |s| - read
  {
    hide ChunkFrom, Bound, DecodeFrom;
    AtTheEnd(url, mode, s, cap, out);
    AtTheEnd(url, mode, s, cap', out);
    if read < |s| {
      BoundIsAmple(|s| - read, 0);
      NextChunk(url, mode, s, cap, read, out);
      NextChunk(url, mode, s, cap', read, out);
      ChunkIgnoresRoom(url, mode, s, cap - |out|, cap' - |out|, read, read, []);
      var c := ChunkFrom(url, mode, s, cap - |out|, read, read, []);
      var c' := ChunkFrom(url, mode, s, cap' - |out|, read, read, []);
      if c.error.None? {
        var out1 := out + c.bytes;
        if !c.eof && !c'.eof {
          ChunkIsLong(url, mode, s, cap - |out|, read, read, []);
          BoundIsAmple(|s| - read, |s| - c.read);
          CapacityDoesNotMatter(url, mode, s, cap, cap', c.read, out1);
        } else if c.eof != c'.eof {
          AtTheEnd(url, mode, s, cap, out1);
          AtTheEnd(url, mode, s, cap', out1);
        }
      }
    }
  }

  /** At the end of the input nothing more comes. */
  lemma AtTheEnd(url: bool, mode: Mode, s: seq<Unit>, cap: nat, out: seq<Byte>)
    requires |out| <= cap
    ensures DecodeFrom(url, mode, s, cap, |s|, out) == Decoded(|s|, out, None)
  {
    assert out + [] == out;
  }

  /** A complete chunk takes four units for its three bytes. */
  lemma {:induction false} ChunkIsLong(url: bool, mode: Mode, s: seq<Unit>, room: nat, start: nat, i: nat,
                                       ds: seq<Byte>)
    requires start <= i <= |s| && |ds| < 4
    ensures var c := ChunkFrom(url, mode, s, room, start, i, ds); !c.eof && c.error.None? ==>
      c.read >= i + 4 - |ds| && |c.bytes| == 3
    decreases |s| - i
  {
    hide Digit, Three, Whitespace;
    var k := SkipWhitespace(s, i);
    if k < |s| && s[k] != PAD && Digit(url, s[k]) != INVALID && |ds| < 3 {
      ChunkIsLong(url, mode, s, room, start, k + 1, ds + [Digit(url, s[k])]);
    }
  }

  // ---------------------------------------------------------------------------------------
  // Encoding

  /** The digits of three bytes, in order; missing bytes count as zero. */
  function Digits(p: Byte, q: Byte, r: Byte): (ds: seq<Byte>)
    ensures |ds| == 4 && forall i :: 0 <= i < 4 ==> ds[i] < 64
  {
    [p >> 2, ((p & 3) << 4) | (q >> 4), ((q & 15) << 2) | (r >> 6), r & 63]
  }

  function Character(url: bool, d: Byte): (c: Unit)
    requires d < 64
    ensures Digit(url, c) == d
  {
    EncodedIsNarrow(url, d);
    Encode(url, d) as Unit
  }

  lemma EncodedIsNarrow(url: bool, d: Byte)
    requires d < 64
    ensures (Encode(url, d) as Unit) < 128 && LowByte(Encode(url, d) as Unit) == Encode(url, d)
  {
  }

  /** The encoding of RFC 4648, with padding or without. */
  function Encoded(url: bool, pad: bool, b: seq<Byte>): seq<Unit> {
    if |b| == 0 then []
    else if |b| == 1 then
      var d := Digits(b[0], 0, 0);
      [Character(url, d[0]), Character(url, d[1])] + if pad then [PAD, PAD] else []
    else if |b| == 2 then
      var d := Digits(b[0], b[1], 0);
      [Character(url, d[0]), Character(url, d[1]), Character(url, d[2])] + if pad then [PAD] else []
    else
      var d := Digits(b[0], b[1], b[2]);
      [Character(url, d[0]), Character(url, d[1]), Character(url, d[2]), Character(url, d[3])]
        + Encoded(url, pad, b[3..])
  }

  /** Four digits are the 24 bits of three bytes, the first byte foremost. */
  lemma SameBits(p: Byte, q: Byte, r: Byte)
    ensures var d := Digits(p, q, r);
            ((p as bv32) << 16) | ((q as bv32) << 8) | (r as bv32)
              == ((d[0] as bv32) << 18) | ((d[1] as bv32) << 12) | ((d[2] as bv32) << 6) | (d[3] as bv32)
  {
  }

  lemma ThreeOfDigits(p: Byte, q: Byte, r: Byte)
    ensures var d := Digits(p, q, r); Three(d[0], d[1], d[2], d[3]) == [p, q, r]
  {
  }

  function FourCharacters(url: bool, p: Byte, q: Byte, r: Byte): (cs: seq<Unit>)
    ensures |cs| == 4
  {
    var d := Digits(p, q, r);
    [Character(url, d[0]), Character(url, d[1]), Character(url, d[2]), Character(url, d[3])]
  }
}
