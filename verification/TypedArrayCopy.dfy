/**
 TypedArray.prototype.set with a typed array as source, and the overlap branch of
 TypedArray.prototype.slice.

 A typed array is a window onto a byte buffer.  `set` converts elements of one size into
 elements of another size, and both windows may lie in the same buffer.  Instead of copying
 the source aside, the engine chooses a pivot and copies the two halves in opposite
 directions.  What it must compute is the simple thing: take a snapshot of the source
 elements, convert each, and store them one after the other.
 */
module TypedArrayCopy {

  type Byte = bv8

  // ---------------------------------------------------------------------------------------
  // Byte geometry

  /** First byte of element `i` of a window that starts at byte `start`. */
  function At(start: int, i: int, size: int): int {
    start + i * size
  }

  /** `n` elements of `srcSize` bytes at `src` are stored as `n` elements of `dstSize` bytes at `dst`. */
  datatype Plan = Plan(src: nat, srcSize: nat, dst: nat, dstSize: nat, n: nat) {
    predicate Fits(srcLen: nat, dstLen: nat) {
      srcSize > 0 && dstSize > 0 && At(src, n, srcSize) <= srcLen && At(dst, n, dstSize) <= dstLen
    }

    /** The store to element `j` leaves the bytes of source element `k` alone. */
    predicate Clear(j: int, k: int) {
      || At(dst, j, dstSize) + dstSize <= At(src, k, srcSize)
      || At(src, k, srcSize) + srcSize <= At(dst, j, dstSize)
    }
  }

  lemma AtMonotone(start: int, i: int, j: int, size: int)
    requires i < j && size >= 0
    ensures At(start, i, size) + size <= At(start, j, size)
  {
    var d := j - (i + 1);
    assert j * size == (i + 1) * size + d * size;
    assert d * size >= 0;
  }

  lemma InWindow(start: int, i: int, n: int, size: int)
    requires 0 <= i < n && size >= 0
    ensures start <= At(start, i, size) && At(start, i, size) + size <= At(start, n, size)
  {
    AtMonotone(start, i, n, size);
    assert i * size >= 0;
  }

  // ---------------------------------------------------------------------------------------
  // The reference meaning: snapshot, convert, then store in order

  function Overwrite(buf: seq<Byte>, at: nat, bytes: seq<Byte>): (r: seq<Byte>)
    requires at + |bytes| <= |buf|
    ensures |r| == |buf|
  {
    seq(|buf|, x requires 0 <= x < |buf| => if at <= x < at + |bytes| then bytes[x - at] else buf[x])
  }

  /** The converted source elements, all read from one fixed buffer. */
  ghost function Snapshot(p: Plan, srcBuf: seq<Byte>, convert: seq<Byte> -> seq<Byte>): (r: seq<seq<Byte>>)
    requires p.Fits(|srcBuf|, At(p.dst, p.n, p.dstSize))
    ensures |r| == p.n
  {
    seq(p.n, i requires 0 <= i < p.n =>
      InWindow(p.src, i, p.n, p.srcSize);
      convert(srcBuf[At(p.src, i, p.srcSize)..At(p.src, i, p.srcSize) + p.srcSize]))
  }

  ghost predicate Sized(p: Plan, out: seq<seq<Byte>>) {
    |out| == p.n && forall i :: 0 <= i < |out| ==> |out[i]| == p.dstSize
  }

  /** The first `k` elements of `out` stored in order, element 0 first. */
  ghost function StoreInOrder(p: Plan, buf: seq<Byte>, out: seq<seq<Byte>>, k: nat): (r: seq<Byte>)
    requires p.Fits(At(p.src, p.n, p.srcSize), |buf|) && Sized(p, out) && k <= p.n
    ensures |r| == |buf|
  {
    if k == 0 then buf
    else
      InWindow(p.dst, k - 1, p.n, p.dstSize);
      Overwrite(StoreInOrder(p, buf, out, k - 1), At(p.dst, k - 1, p.dstSize), out[k - 1])
  }

  /** Element `i` of the destination window holds `bytes`. */
  ghost predicate Holds(p: Plan, buf: seq<Byte>, i: int, bytes: seq<Byte>) {
    && 0 <= At(p.dst, i, p.dstSize) && At(p.dst, i, p.dstSize) + p.dstSize <= |buf|
    && buf[At(p.dst, i, p.dstSize)..At(p.dst, i, p.dstSize) + p.dstSize] == bytes
  }

  /** Nothing outside the destination window differs. */
  ghost predicate SameOutside(p: Plan, buf0: seq<Byte>, buf: seq<Byte>) {
    && |buf| == |buf0|
    && forall x :: 0 <= x < |buf| && !(p.dst <= x < At(p.dst, p.n, p.dstSize)) ==> buf[x] == buf0[x]
  }

  lemma OverwriteDisjoint(buf: seq<Byte>, at: nat, bytes: seq<Byte>, lo: nat, hi: nat)
    requires at + |bytes| <= |buf| && lo <= hi <= |buf|
    requires hi <= at || at + |bytes| <= lo
    ensures Overwrite(buf, at, bytes)[lo..hi] == buf[lo..hi]
  {
  }

  lemma OverwriteWithin(buf: seq<Byte>, at: nat, bytes: seq<Byte>, lo: nat, hi: nat)
    requires at + |bytes| <= |buf| && at <= lo <= hi <= at + |bytes|
    ensures Overwrite(buf, at, bytes)[lo..hi] == bytes[lo - at..hi - at]
  {
  }

  /** One element stored: it holds its bytes, the other elements and the surroundings are as before. */
  lemma StoreOne(p: Plan, buf: seq<Byte>, j: int, bytes: seq<Byte>)
    requires p.Fits(At(p.src, p.n, p.srcSize), |buf|) && 0 <= j < p.n && |bytes| == p.dstSize
    ensures 0 <= At(p.dst, j, p.dstSize) && At(p.dst, j, p.dstSize) + p.dstSize <= |buf|
    ensures var next := Overwrite(buf, At(p.dst, j, p.dstSize), bytes);
            && Holds(p, next, j, bytes)
            && SameOutside(p, buf, next)
            && forall i, b :: 0 <= i < p.n && i != j && Holds(p, buf, i, b) ==> Holds(p, next, i, b)
  {
    InWindow(p.dst, j, p.n, p.dstSize);
    var s := At(p.dst, j, p.dstSize);
    OverwriteWithin(buf, s, bytes, s, s + p.dstSize);
    forall i, b | 0 <= i < p.n && i != j && Holds(p, buf, i, b) ensures Holds(p, Overwrite(buf, s, bytes), i, b) {
      if i < j { AtMonotone(p.dst, i, j, p.dstSize); } else { AtMonotone(p.dst, j, i, p.dstSize); }
      OverwriteDisjoint(buf, s, bytes, At(p.dst, i, p.dstSize), At(p.dst, i, p.dstSize) + p.dstSize);
    }
  }

  lemma {:induction false} StoreInOrderHolds(p: Plan, buf: seq<Byte>, out: seq<seq<Byte>>, k: nat)
    requires p.Fits(At(p.src, p.n, p.srcSize), |buf|) && Sized(p, out) && k <= p.n
    ensures SameOutside(p, buf, StoreInOrder(p, buf, out, k))
    ensures forall i :: 0 <= i < k ==> Holds(p, StoreInOrder(p, buf, out, k), i, out[i])
  {
    if k != 0 {
      StoreInOrderHolds(p, buf, out, k - 1);
      StoreOne(p, StoreInOrder(p, buf, out, k - 1), k - 1, out[k - 1]);
      hide Overwrite, Holds;
      assert forall i :: 0 <= i < k - 1 ==> Holds(p, StoreInOrder(p, buf, out, k), i, out[i]);
    }
  }

  /** A buffer is determined by what its destination elements hold and what surrounds them. */
  lemma DeterminedByElements(p: Plan, buf0: seq<Byte>, a: seq<Byte>, b: seq<Byte>, out: seq<seq<Byte>>)
    requires p.Fits(At(p.src, p.n, p.srcSize), |buf0|) && Sized(p, out)
    requires SameOutside(p, buf0, a) && SameOutside(p, buf0, b)
    requires forall i :: 0 <= i < p.n ==> Holds(p, a, i, out[i]) && Holds(p, b, i, out[i])
    ensures a == b
  {
    forall x | 0 <= x < |a| ensures a[x] == b[x] {
      if p.dst <= x < At(p.dst, p.n, p.dstSize) {
        var i, o := ElementOf(x - p.dst, p.n, p.dstSize);
        var s := At(p.dst, i, p.dstSize);
        assert Holds(p, a, i, out[i]) && Holds(p, b, i, out[i]);
        assert a[s..s + p.dstSize][o] == b[s..s + p.dstSize][o];
      }
    }
  }

  lemma {:induction false} ElementOf(x: int, n: int, size: int) returns (i: int, o: int)
    requires size > 0 && n >= 0 && 0 <= x < At(0, n, size)
    ensures 0 <= i < n && 0 <= o < size && x == At(0, i, size) + o
  {
    if x >= At(0, n - 1, size) {
      i, o := n - 1, x - At(0, n - 1, size);
    } else {
      i, o := ElementOf(x, n - 1, size);
    }
  }

  // ---------------------------------------------------------------------------------------
  // What is known while elements are copied in some order

  /** The elements in `done` have been stored, and the source bytes of every other element are still as they were. */
  ghost predicate Progress(p: Plan, src0: seq<Byte>, dst0: seq<Byte>, srcNow: seq<Byte>, dstNow: seq<Byte>,
                           out: seq<seq<Byte>>, done: set<int>)
  {
    && |srcNow| == |src0| && p.Fits(|src0|, |dst0|) && Sized(p, out)
    && SameOutside(p, dst0, dstNow)
    && (forall i :: i in done ==> 0 <= i < p.n && Holds(p, dstNow, i, out[i]))
    && (forall i :: 0 <= i < p.n && i !in done ==> SameSource(p, src0, srcNow, i))
  }

  ghost predicate SameSource(p: Plan, src0: seq<Byte>, src: seq<Byte>, i: int) {
    && 0 <= At(p.src, i, p.srcSize) && At(p.src, i, p.srcSize) + p.srcSize <= |src0| == |src|
    && src[At(p.src, i, p.srcSize)..At(p.src, i, p.srcSize) + p.srcSize]
       == src0[At(p.src, i, p.srcSize)..At(p.src, i, p.srcSize) + p.srcSize]
  }

  /** Storing element `j` of a copy in progress, when no source element still to be read is touched. */
  lemma StoreKeepsProgress(p: Plan, src0: seq<Byte>, dst0: seq<Byte>, srcNow: seq<Byte>, dstNow: seq<Byte>,
                           srcNext: seq<Byte>, dstNext: seq<Byte>,
                           out: seq<seq<Byte>>, done: set<int>, j: int)
    requires Progress(p, src0, dst0, srcNow, dstNow, out, done)
    requires 0 <= j < p.n && j !in done
    requires 0 <= At(p.dst, j, p.dstSize) && At(p.dst, j, p.dstSize) + p.dstSize <= |dst0|
    requires dstNext == Overwrite(dstNow, At(p.dst, j, p.dstSize), out[j])
    requires srcNext == srcNow
             || (srcNow == dstNow && srcNext == dstNext
                 && forall k :: 0 <= k < p.n && k != j && k !in done ==> p.Clear(j, k))
    ensures Progress(p, src0, dst0, srcNext, dstNext, out, done + {j})
  {
    StoreOne(p, dstNow, j, out[j]);
    forall i | 0 <= i < p.n && i !in done + {j} ensures SameSource(p, src0, srcNext, i) {
      assert SameSource(p, src0, srcNow, i);
      if srcNext != srcNow {
        assert p.Clear(j, i);
        OverwriteDisjoint(dstNow, At(p.dst, j, p.dstSize), out[j], At(p.src, i, p.srcSize),
          At(p.src, i, p.srcSize) + p.srcSize);
      }
    }
  }

  lemma AllDone(p: Plan, src0: seq<Byte>, dst0: seq<Byte>, srcNow: seq<Byte>, dstNow: seq<Byte>,
                out: seq<seq<Byte>>, done: set<int>)
    requires Progress(p, src0, dst0, srcNow, dstNow, out, done)
    requires forall i :: 0 <= i < p.n ==> i in done
    ensures dstNow == StoreInOrder(p, dst0, out, p.n)
  {
    StoreInOrderHolds(p, dst0, out, p.n);
    DeterminedByElements(p, dst0, dstNow, StoreInOrder(p, dst0, out, p.n), out);
  }

  // ---------------------------------------------------------------------------------------
  // The pivot

  /** Go's integer division truncates toward zero. */
  function TruncDiv(a: int, b: int): int
    requires b != 0
  {
    if a >= 0 then if b > 0 then Quotient(a, b) else -Quotient(a, -b)
    else if b > 0 then -Quotient(-a, b) else Quotient(-a, -b)
  }

  function Quotient(d: int, g: int): (q: int)
    requires d >= 0 && g > 0
    ensures q >= 0 && q * g <= d && d < q * g + g
  {
    QuotientBounds(d, g);
    d / g
  }

  lemma QuotientBounds(d: int, g: int)
    requires d >= 0 && g > 0
    ensures d / g >= 0 && d / g * g <= d && d < d / g * g + g
  {
  }

  /** The pivot, clamped to 0..n as in the source. */
  function Pivot(p: Plan, delta: int): (x: nat)
    requires p.srcSize != p.dstSize
    ensures x <= p.n
  {
    var x := TruncDiv(delta, p.srcSize - p.dstSize);
    if x < 0 then 0 else if x > p.n then p.n else x
  }

  lemma Scale(a: int, b: int, g: int)
    requires a <= b && g >= 0
    ensures a * g <= b * g
  {
    assert b * g == a * g + (b - a) * g;
    assert (b - a) * g >= 0;
  }

  /**
   When elements shrink: from the pivot on a store ends before the next source element; up to it, it
   starts at or after its own.
   */
  lemma PivotShrinking(p: Plan, j: int)
    requires 0 < p.dstSize < p.srcSize && 0 <= j < p.n
    ensures j >= Pivot(p, p.dst - p.src) ==> At(p.dst, j + 1, p.dstSize) <= At(p.src, j + 1, p.srcSize)
    ensures j <= Pivot(p, p.dst - p.src) && Pivot(p, p.dst - p.src) > 0 ==>
      At(p.dst, j, p.dstSize) >= At(p.src, j, p.srcSize)
  {
    var delta, g := p.dst - p.src, p.srcSize - p.dstSize;
    Distribute(j, p.dstSize, g);
    Distribute(j + 1, p.dstSize, g);
    if delta >= 0 {
      var q := Quotient(delta, g);
      if j >= q { NextMultiple(q, g); Scale(q + 1, j + 1, g); }
      if j <= q { Scale(j, q, g); }
    } else {
      Scale(0, j + 1, g);
    }
  }

  lemma Distribute(j: int, a: int, b: int)
    ensures j * (a + b) == j * a + j * b
  {
  }

  lemma NextMultiple(q: int, g: int)
    ensures (q + 1) * g == q * g + g
  {
  }

  /**
   When elements grow: below the pivot a store ends before the next source element; above it, it
   starts at or after its own.
   */
  lemma PivotGrowing(p: Plan, j: int)
    requires 0 < p.srcSize < p.dstSize && 0 <= j < p.n
    ensures j < Pivot(p, p.dst - p.src) ==> At(p.dst, j + 1, p.dstSize) <= At(p.src, j + 1, p.srcSize)
    ensures j > Pivot(p, p.dst - p.src) ==> At(p.dst, j, p.dstSize) >= At(p.src, j, p.srcSize)
  {
    var delta, g := p.src - p.dst, p.dstSize - p.srcSize;
    Distribute(j, p.srcSize, g);
    Distribute(j + 1, p.srcSize, g);
    if delta > 0 {
      var q := Quotient(delta, g);
      if j < q { Scale(j + 1, q, g); }
      if j > q { NextMultiple(q, g); Scale(q + 1, j, g); }
    } else {
      Scale(0, j, g);
    }
  }

  /** A store that ends where its next source element starts, or earlier, spares all later source elements. */
  lemma SparesLater(p: Plan, j: int, k: int)
    requires 0 <= j < k && At(p.dst, j + 1, p.dstSize) <= At(p.src, j + 1, p.srcSize)
    ensures p.Clear(j, k)
  {
    if j + 1 < k { AtMonotone(p.src, j + 1, k, p.srcSize); }
  }

  /** A store at `j` spares source element `k < x` when element `x <= j` is stored at or after its own source. */
  lemma SparesEarlier(p: Plan, j: int, k: int, x: int)
    requires 0 <= k < x <= j && At(p.dst, x, p.dstSize) >= At(p.src, x, p.srcSize)
    ensures p.Clear(j, k)
  {
    AtMonotone(p.src, k, x, p.srcSize);
    if x < j { AtMonotone(p.dst, x, j, p.dstSize); }
  }

  // ---------------------------------------------------------------------------------------
  // The copying loops

  /** One element store, `typedArray.set` of a converted value: all its bytes at once. */
  method Put(buf: array<Byte>, at: nat, bytes: seq<Byte>)
    requires at + |bytes| <= buf.Length
    modifies buf
    ensures buf[..] == Overwrite(old(buf[..]), at, bytes)
  {
    forall b | 0 <= b < |bytes| {
      buf[at + b] := bytes[b];
    }
  }

  /** Every conversion of one element yields one element of the destination's size. */
  ghost predicate Converts(p: Plan, convert: seq<Byte> -> seq<Byte>) {
    forall s :: |s| == p.srcSize ==> |convert(s)| == p.dstSize
  }

  /** No source element that is still to be read is touched by the store to element `j`. */
  ghost predicate Safe(p: Plan, done: set<int>, j: int) {
    forall k :: 0 <= k < p.n && k != j && k !in done ==> p.Clear(j, k)
  }

  method CopyElement(p: Plan, srcBuf: array<Byte>, dstBuf: array<Byte>, convert: seq<Byte> -> seq<Byte>, j: nat,
                     ghost src0: seq<Byte>, ghost dst0: seq<Byte>, ghost done: set<int>)
    requires p.Fits(|src0|, |dst0|) && Converts(p, convert) && j < p.n && j !in done
    requires Progress(p, src0, dst0, srcBuf[..], dstBuf[..], Snapshot(p, src0, convert), done)
    requires srcBuf == dstBuf ==> Safe(p, done, j)
    modifies dstBuf
    ensures Progress(p, src0, dst0, srcBuf[..], dstBuf[..], Snapshot(p, src0, convert), done + {j})
  {
    InWindow(p.src, j, p.n, p.srcSize);
    InWindow(p.dst, j, p.n, p.dstSize);
    ghost var out := Snapshot(p, src0, convert);
    ghost var srcNow, dstNow := srcBuf[..], dstBuf[..];
    var s := At(p.src, j, p.srcSize);
    var bytes := srcBuf[s..s + p.srcSize];
    assert bytes == src0[s..s + p.srcSize] by {
      assert SameSource(p, src0, srcNow, j);
      assert srcBuf[s..s + p.srcSize] == srcNow[s..s + p.srcSize];
    }
    assert convert(bytes) == out[j];
    Put(dstBuf, At(p.dst, j, p.dstSize), convert(bytes));
    StoreKeepsProgress(p, src0, dst0, srcNow, dstNow, srcBuf[..], dstBuf[..], out, done, j);
  }

  /** Elements lo..hi in ascending order. */
  method CopyUp(p: Plan, srcBuf: array<Byte>, dstBuf: array<Byte>, convert: seq<Byte> -> seq<Byte>, lo: nat, hi: nat,
                ghost src0: seq<Byte>, ghost dst0: seq<Byte>, ghost before: set<int>) returns (ghost done: set<int>)
    requires p.Fits(|src0|, |dst0|) && Converts(p, convert) && lo <= hi <= p.n
    requires Progress(p, src0, dst0, srcBuf[..], dstBuf[..], Snapshot(p, src0, convert), before)
    requires forall i :: lo <= i < hi ==> i !in before
    requires srcBuf == dstBuf ==> SafeUp(p, before, lo, hi)
    modifies dstBuf
    ensures done == before + Range(lo, hi)
    ensures Progress(p, src0, dst0, srcBuf[..], dstBuf[..], Snapshot(p, src0, convert), done)
  {
    done := before;
    for i := lo to hi
      invariant done == before + Range(lo, i)
      invariant Progress(p, src0, dst0, srcBuf[..], dstBuf[..], Snapshot(p, src0, convert), done)
    {
      if srcBuf == dstBuf { SafeUpStep(p, before, lo, hi, i); }
      CopyElement(p, srcBuf, dstBuf, convert, i, src0, dst0, done);
      done := done + {i};
    }
  }

  /** Elements hi-1 down to lo. */
  method CopyDown(p: Plan, srcBuf: array<Byte>, dstBuf: array<Byte>, convert: seq<Byte> -> seq<Byte>, lo: nat, hi: nat,
                  ghost src0: seq<Byte>, ghost dst0: seq<Byte>, ghost before: set<int>) returns (ghost done: set<int>)
    requires p.Fits(|src0|, |dst0|) && Converts(p, convert) && lo <= hi <= p.n
    requires Progress(p, src0, dst0, srcBuf[..], dstBuf[..], Snapshot(p, src0, convert), before)
    requires forall i :: lo <= i < hi ==> i !in before
    requires srcBuf == dstBuf ==> SafeDown(p, before, lo, hi)
    modifies dstBuf
    ensures done == before + Range(lo, hi)
    ensures Progress(p, src0, dst0, srcBuf[..], dstBuf[..], Snapshot(p, src0, convert), done)
  {
    done := before;
    for i := hi downto lo
      invariant done == before + Range(i, hi)
      invariant Progress(p, src0, dst0, srcBuf[..], dstBuf[..], Snapshot(p, src0, convert), done)
    {
      if srcBuf == dstBuf { SafeDownStep(p, before, lo, hi, i); }
      CopyElement(p, srcBuf, dstBuf, convert, i, src0, dst0, done);
      RangeBelow(i, hi);
      done := done + {i};
    }
  }

  ghost function Range(lo: int, hi: int): (r: set<int>)
    ensures forall i :: i in r <==> lo <= i < hi
    decreases hi - lo
  {
    if lo >= hi then {} else Range(lo, hi - 1) + {hi - 1}
  }

  /** Copying lo..hi upward is safe at every step, with `before` already stored. */
  ghost predicate SafeUp(p: Plan, before: set<int>, lo: int, hi: int) {
    forall j, k :: lo <= j < hi && 0 <= k < p.n && k !in before && (k < lo || j < k) ==> p.Clear(j, k)
  }

  /** Copying hi-1 down to lo is safe at every step, with `before` already stored. */
  ghost predicate SafeDown(p: Plan, before: set<int>, lo: int, hi: int) {
    forall j, k :: lo <= j < hi && 0 <= k < p.n && k !in before && (k < j || hi <= k) ==> p.Clear(j, k)
  }

  lemma RangeBelow(i: int, hi: int)
    requires i < hi
    ensures Range(i, hi) == Range(i + 1, hi) + {i}
  {
  }

  lemma SafeUpStep(p: Plan, before: set<int>, lo: int, hi: int, j: int)
    requires SafeUp(p, before, lo, hi) && lo <= j < hi
    ensures Safe(p, before + Range(lo, j), j)
  {
  }

  lemma SafeDownStep(p: Plan, before: set<int>, lo: int, hi: int, j: int)
    requires SafeDown(p, before, lo, hi) && lo <= j < hi
    ensures Safe(p, before + Range(j + 1, hi), j)
  {
  }

  // ---------------------------------------------------------------------------------------
  // Machine integers and addresses

  const TWO63 := 0x8000_0000_0000_0000
  const TWO64 := 0x1_0000_0000_0000_0000

  /** The value of `int(x)` for a 64-bit word. */
  function Int64(x: int): int {
    (x + TWO63) % TWO64 - TWO63
  }

  method CopySameSize(p: Plan, srcBuf: array<Byte>, dstBuf: array<Byte>, curSrc: nat, curDst: nat,
                      convert: seq<Byte> -> seq<Byte>)
    requires p.Fits(srcBuf.Length, dstBuf.Length) && Converts(p, convert) && p.srcSize == p.dstSize
    requires srcBuf == dstBuf ==> curDst - curSrc == p.dst - p.src
    modifies dstBuf
    ensures Stored(p, old(srcBuf[..]), old(dstBuf[..]), dstBuf[..], convert)
  {
    ghost var src0, dst0 := srcBuf[..], dstBuf[..];
    StartsInProgress(p, src0, dst0, convert);
    ghost var done;
    if curDst <= curSrc || curDst >= curSrc + p.n * p.srcSize {
      if srcBuf == dstBuf { SameSizeUpSafe(p); }
      done := CopyUp(p, srcBuf, dstBuf, convert, 0, p.n, src0, dst0, {});
    } else {
      if srcBuf == dstBuf { SameSizeDownSafe(p); }
      done := CopyDown(p, srcBuf, dstBuf, convert, 0, p.n, src0, dst0, {});
    }
    AllDone(p, src0, dst0, srcBuf[..], dstBuf[..], Snapshot(p, src0, convert), done);
  }

  method CopyPivoted(p: Plan, srcBuf: array<Byte>, dstBuf: array<Byte>, delta: int, convert: seq<Byte> -> seq<Byte>)
    requires p.Fits(srcBuf.Length, dstBuf.Length) && Converts(p, convert) && p.srcSize != p.dstSize
    requires srcBuf == dstBuf ==> delta == p.dst - p.src
    modifies dstBuf
    ensures Stored(p, old(srcBuf[..]), old(dstBuf[..]), dstBuf[..], convert)
  {
    hide SafeUp, SafeDown, Progress, Converts;
    ghost var src0, dst0 := srcBuf[..], dstBuf[..];
    StartsInProgress(p, src0, dst0, convert);
    ghost var done;
    var x := Pivot(p, delta);
    if p.dstSize < p.srcSize {
      if srcBuf == dstBuf { ShrinkingSafe(p); }
      done := CopyUp(p, srcBuf, dstBuf, convert, x, p.n, src0, dst0, {});
      done := CopyDown(p, srcBuf, dstBuf, convert, 0, x, src0, dst0, done);
    } else {
      if srcBuf == dstBuf { GrowingSafe(p); }
      done := CopyUp(p, srcBuf, dstBuf, convert, 0, x, src0, dst0, {});
      done := CopyDown(p, srcBuf, dstBuf, convert, x, p.n, src0, dst0, done);
    }
    AllDone(p, src0, dst0, srcBuf[..], dstBuf[..], Snapshot(p, src0, convert), done);
  }

  /** The destination buffer is what snapshotting, converting and storing in order gives. */
  ghost predicate Stored(p: Plan, src0: seq<Byte>, dst0: seq<Byte>, dst: seq<Byte>, convert: seq<Byte> -> seq<Byte>)
    requires p.Fits(|src0|, |dst0|)
  {
    Sized(p, Snapshot(p, src0, convert)) && dst == StoreInOrder(p, dst0, Snapshot(p, src0, convert), p.n)
  }

  lemma StartsInProgress(p: Plan, src0: seq<Byte>, dst0: seq<Byte>, convert: seq<Byte> -> seq<Byte>)
    requires p.Fits(|src0|, |dst0|) && Converts(p, convert)
    ensures Progress(p, src0, dst0, src0, dst0, Snapshot(p, src0, convert), {})
  {
    forall i | 0 <= i < p.n
      ensures SameSource(p, src0, src0, i) && |Snapshot(p, src0, convert)[i]| == p.dstSize
    {
      InWindow(p.src, i, p.n, p.srcSize);
    }
  }

  lemma SameSizeUpSafe(p: Plan)
    requires 0 < p.srcSize == p.dstSize && (p.dst <= p.src || p.dst >= At(p.src, p.n, p.srcSize))
    ensures SafeUp(p, {}, 0, p.n)
  {
    forall j, k | 0 <= j < k < p.n ensures p.Clear(j, k) {
      InWindow(p.src, k, p.n, p.srcSize);
      InWindow(p.dst, j, p.n, p.dstSize);
      if p.dst <= p.src { SparesLater(p, j, k); }
    }
  }

  lemma SameSizeDownSafe(p: Plan)
    requires 0 < p.srcSize == p.dstSize && p.dst > p.src
    ensures SafeDown(p, {}, 0, p.n)
  {
    forall j, k | 0 <= k < j < p.n ensures p.Clear(j, k) {
      SparesEarlier(p, j, k, j);
    }
  }

  lemma ShrinkingSafe(p: Plan)
    requires 0 < p.dstSize < p.srcSize
    ensures SafeUp(p, {}, Pivot(p, p.dst - p.src), p.n)
    ensures SafeDown(p, {} + Range(Pivot(p, p.dst - p.src), p.n), 0, Pivot(p, p.dst - p.src))
  {
    var x := Pivot(p, p.dst - p.src);
    forall j, k | x <= j < p.n && 0 <= k < p.n && (k < x || j < k) ensures p.Clear(j, k) {
      if j < k {
        PivotShrinking(p, j);
        SparesLater(p, j, k);
      } else {
        PivotShrinking(p, x);
        SparesEarlier(p, j, k, x);
      }
    }
    forall j, k | 0 <= j < x && 0 <= k < j ensures p.Clear(j, k) {
      PivotShrinking(p, j);
      SparesEarlier(p, j, k, j);
    }
  }

  lemma GrowingSafe(p: Plan)
    requires 0 < p.srcSize < p.dstSize
    ensures SafeUp(p, {}, 0, Pivot(p, p.dst - p.src))
    ensures SafeDown(p, {} + Range(0, Pivot(p, p.dst - p.src)), Pivot(p, p.dst - p.src), p.n)
  {
    var x := Pivot(p, p.dst - p.src);
    forall j, k | 0 <= j < x && j < k < p.n ensures p.Clear(j, k) {
      PivotGrowing(p, j);
      SparesLater(p, j, k);
    }
    forall j, k | x <= k < j < p.n ensures p.Clear(j, k) {
      PivotGrowing(p, j);
      SparesEarlier(p, j, k, j);
    }
  }

  // ---------------------------------------------------------------------------------------
  // The whole operation

  /**
   A typed array: a window of `length` elements, `offset` elements into its buffer. `addr` is the
   buffer's address.
   */
  datatype View = View(data: array<Byte>, addr: nat, detached: bool, offset: nat, length: nat, elemSize: nat,
    kind: nat, bigInt: bool) {
    predicate Valid() {
      && elemSize > 0
      && addr < TWO64 && data.Length < TWO63 && length < TWO63
      && At(0, offset + length, elemSize) <= data.Length
    }
  }

  datatype Outcome = Undefined | RangeError | TypeError

  function SetPlan(ta: View, src: View, targetOffset: nat): Plan {
    Plan(src.offset * src.elemSize, src.elemSize, (ta.offset + targetOffset) * ta.elemSize, ta.elemSize, src.length)
  }

  lemma SetPlanFits(ta: View, src: View, targetOffset: nat)
    requires ta.Valid() && src.Valid() && src.length + targetOffset <= ta.length
    ensures SetPlan(ta, src, targetOffset).Fits(src.data.Length, ta.data.Length)
  {
    var p := SetPlan(ta, src, targetOffset);
    assert (src.offset + src.length) * src.elemSize == p.src + p.n * p.srcSize;
    assert (ta.offset + targetOffset + src.length) * ta.elemSize == p.dst + p.n * p.dstSize;
    Scale(ta.offset + targetOffset + src.length, ta.offset + ta.length, ta.elemSize);
  }

  /** Elements of one type are copied byte for byte; all others go through `convert`. */
  function ElementConversion(ta: View, src: View, convert: seq<Byte> -> seq<Byte>): seq<Byte> -> seq<Byte> {
    if src.kind == ta.kind then s => s else convert
  }

  /**
   Element `targetOffset + i` of the target holds element `i` of the source: its bytes where the two
   arrays have one element type, and their conversion otherwise.
   */
  ghost predicate ElementSet(ta: View, src: View, targetOffset: nat, i: nat, src0: seq<Byte>, now: seq<Byte>,
    convert: seq<Byte> -> seq<Byte>)
  {
    var from, to := (src.offset + i) * src.elemSize, (ta.offset + targetOffset + i) * ta.elemSize;
    && from + src.elemSize <= |src0| && to + ta.elemSize <= |now|
    && now[to..to + ta.elemSize] == if src.kind == ta.kind then src0[from..from + src.elemSize]
                                    else convert(src0[from..from + src.elemSize])
  }

  /** No byte outside the elements `targetOffset` to `targetOffset + count` of the target differs. */
  ghost predicate OthersKept(ta: View, targetOffset: nat, count: nat, before: seq<Byte>, now: seq<Byte>) {
    && |now| == |before|
    && forall x :: 0 <= x < |now|
        && !((ta.offset + targetOffset) * ta.elemSize <= x < (ta.offset + targetOffset + count) * ta.elemSize)
        ==> now[x] == before[x]
  }

  /** An element index within a window is an element index of the buffer. */
  lemma FromBufferStart(first: nat, i: nat, size: nat)
    ensures (first + i) * size == At(first * size, i, size)
  {
  }

  lemma SetPlanElement(ta: View, src: View, targetOffset: nat, i: nat, src0: seq<Byte>, now: seq<Byte>,
    convert: seq<Byte> -> seq<Byte>)
    requires SetPlan(ta, src, targetOffset).Fits(|src0|, |now|) && i < src.length
    requires Holds(SetPlan(ta, src, targetOffset), now, i,
                   Snapshot(SetPlan(ta, src, targetOffset), src0, ElementConversion(ta, src, convert))[i])
    ensures ElementSet(ta, src, targetOffset, i, src0, now, convert)
  {
    FromBufferStart(src.offset, i, src.elemSize);
    FromBufferStart(ta.offset + targetOffset, i, ta.elemSize);
    var p := SetPlan(ta, src, targetOffset);
    InWindow(p.src, i, p.n, p.srcSize);
    hide At, SetPlan;
  }

  /** Storing as `SetPlan` says stores every element at the target offset and nothing elsewhere. */
  lemma SetPlanStores(ta: View, src: View, targetOffset: nat, src0: seq<Byte>, dst0: seq<Byte>, now: seq<Byte>,
    convert: seq<Byte> -> seq<Byte>)
    requires SetPlan(ta, src, targetOffset).Fits(|src0|, |dst0|)
    requires Stored(SetPlan(ta, src, targetOffset), src0, dst0, now, ElementConversion(ta, src, convert))
    ensures forall i: nat :: i < src.length ==> ElementSet(ta, src, targetOffset, i, src0, now, convert)
    ensures OthersKept(ta, targetOffset, src.length, dst0, now)
  {
    hide Holds, ElementSet, Snapshot, StoreInOrder, At;
    var p := SetPlan(ta, src, targetOffset);
    StoreInOrderHolds(p, dst0, Snapshot(p, src0, ElementConversion(ta, src, convert)), p.n);
    forall i: nat | i < src.length ensures ElementSet(ta, src, targetOffset, i, src0, now, convert) {
      SetPlanElement(ta, src, targetOffset, i, src0, now, convert);
    }
    FromBufferStart(ta.offset + targetOffset, src.length, ta.elemSize);
  }

  method Set(ta: View, src: View, targetOffset: int, convert: seq<Byte> -> seq<Byte>) returns (r: Outcome)
    requires ta.Valid() && src.Valid() && targetOffset < TWO63
    requires src.data == ta.data ==> src.addr == ta.addr
    requires src.kind == ta.kind ==> src.elemSize == ta.elemSize
    requires forall s :: |s| == src.elemSize ==> |convert(s)| == ta.elemSize
    modifies ta.data
    ensures r != Undefined ==> ta.data[..] == old(ta.data[..])
    ensures r == RangeError <==>
      targetOffset < 0 || (!ta.detached && !src.detached && targetOffset + src.length > ta.length)
    ensures r == TypeError <==>
      && targetOffset >= 0
      && (ta.detached || src.detached
          || (targetOffset + src.length <= ta.length && src.kind != ta.kind && src.bigInt != ta.bigInt))
    ensures r == Undefined ==>
      && (forall i: nat :: i < src.length ==>
          ElementSet(ta, src, targetOffset, i, old(src.data[..]), ta.data[..], convert))
      && OthersKept(ta, targetOffset, src.length, old(ta.data[..]), ta.data[..])
  {
    hide ElementSet, Stored, Snapshot, At;
    if targetOffset < 0 {
      return RangeError;
    }
    if ta.detached {
      return TypeError;
    }
    if src.detached {
      return TypeError;
    }
    var x := Int64(src.length + targetOffset);
    if x < 0 || x > ta.length {
      return RangeError;
    }
    SetPlanFits(ta, src, targetOffset);
    var p := SetPlan(ta, src, targetOffset);
    if src.kind == ta.kind {
      MoveBytes(p, src.data, ta.data);
      SetPlanStores(ta, src, targetOffset, old(src.data[..]), old(ta.data[..]), ta.data[..], convert);
      return Undefined;
    }
    if src.bigInt != ta.bigInt {
      return TypeError;
    }
    if src.length == 0 {
      return Undefined;
    }
    var curSrc, curDst := src.addr + p.src, ta.addr + p.dst;
    if ta.elemSize == src.elemSize {
      CopySameSize(p, src.data, ta.data, curSrc, curDst, convert);
    } else {
      if src.data == ta.data { AddressDifference(p, src.data.Length, src.addr); }
      CopyPivoted(p, src.data, ta.data, Int64((curDst - curSrc) % TWO64), convert);
    }
    SetPlanStores(ta, src, targetOffset, old(src.data[..]), old(ta.data[..]), ta.data[..], convert);
    return Undefined;
  }

  /** Within one buffer the wrapped difference of two addresses is the difference of the offsets. */
  lemma AddressDifference(p: Plan, length: nat, addr: nat)
    requires p.Fits(length, length) && length < TWO63
    ensures Int64((addr + p.dst - (addr + p.src)) % TWO64) == p.dst - p.src
  {
    if p.n > 0 {
      InWindow(p.src, 0, p.n, p.srcSize);
      InWindow(p.dst, 0, p.n, p.dstSize);
    }
  }

  /** Go's `copy` between two slices, which may overlap: the source bytes as they were end up in the destination. */
  method MoveBytes(p: Plan, srcBuf: array<Byte>, dstBuf: array<Byte>)
    requires p.Fits(srcBuf.Length, dstBuf.Length) && p.srcSize == p.dstSize
    modifies dstBuf
    ensures Stored(p, old(srcBuf[..]), old(dstBuf[..]), dstBuf[..], s => s)
  {
    if p.n > 0 { InWindow(p.src, 0, p.n, p.srcSize); }
    MoveStores(p, srcBuf[..], dstBuf[..]);
    var bytes := srcBuf[..][p.src..At(p.src, p.n, p.srcSize)];
    Put(dstBuf, p.dst, bytes);
  }

  /** Element `i` of a block move holds the bytes of source element `i`. */
  lemma MovedElement(p: Plan, src0: seq<Byte>, dst0: seq<Byte>, i: int)
    requires p.Fits(|src0|, |dst0|) && p.srcSize == p.dstSize && 0 <= i < p.n && At(0, p.n, p.srcSize) >= 0
    requires At(p.src, p.n, p.srcSize) - p.src == At(p.dst, p.n, p.dstSize) - p.dst == At(0, p.n, p.srcSize)
    ensures 0 <= At(p.src, i, p.srcSize) && At(p.src, i, p.srcSize) + p.srcSize <= |src0|
    ensures Holds(p, Overwrite(dst0, p.dst, src0[p.src..At(p.src, p.n, p.srcSize)]), i,
                  src0[At(p.src, i, p.srcSize)..At(p.src, i, p.srcSize) + p.srcSize])
  {
    InWindow(p.src, i, p.n, p.srcSize);
    InWindow(p.dst, i, p.n, p.dstSize);
    var s, d := At(p.src, i, p.srcSize), At(p.dst, i, p.dstSize);
    var bytes := src0[p.src..At(p.src, p.n, p.srcSize)];
    OverwriteWithin(dst0, p.dst, bytes, d, d + p.dstSize);
    assert bytes[d - p.dst..d + p.dstSize - p.dst] == src0[s..s + p.srcSize];
  }

  lemma MoveStores(p: Plan, src0: seq<Byte>, dst0: seq<Byte>)
    requires p.Fits(|src0|, |dst0|) && p.srcSize == p.dstSize && At(0, p.n, p.srcSize) >= 0
    requires At(p.src, p.n, p.srcSize) - p.src == At(p.dst, p.n, p.dstSize) - p.dst == At(0, p.n, p.srcSize)
    ensures Stored(p, src0, dst0, Overwrite(dst0, p.dst, src0[p.src..At(p.src, p.n, p.srcSize)]), s => s)
  {
    var out := Snapshot(p, src0, s => s);
    var moved := Overwrite(dst0, p.dst, src0[p.src..At(p.src, p.n, p.srcSize)]);
    StartsInProgress(p, src0, dst0, s => s);
    StoreInOrderHolds(p, dst0, out, p.n);
    forall i | 0 <= i < p.n ensures Holds(p, moved, i, out[i]) {
      MovedElement(p, src0, dst0, i);
    }
    DeterminedByElements(p, dst0, moved, StoreInOrder(p, dst0, out, p.n), out);
  }

  // ---------------------------------------------------------------------------------------
  // slice, same element type: the bytes are copied one by one in ascending order

  /** The first `k` bytes copied one at a time, each read from the buffer as it then is. */
  ghost function BytesForward(buf: seq<Byte>, src: nat, dst: nat, k: nat): (r: seq<Byte>)
    requires src + k <= |buf| && dst + k <= |buf|
    ensures |r| == |buf|
  {
    if k == 0 then buf
    else
      var prev := BytesForward(buf, src, dst, k - 1);
      prev[dst + k - 1 := prev[src + k - 1]]
  }

  /** With no source byte ahead of the write position, copying byte by byte is the same as a block move. */
  lemma {:induction false} ForwardIsMove(buf: seq<Byte>, src: nat, dst: nat, k: nat, n: nat)
    requires k <= n && src + n <= |buf| && dst + n <= |buf|
    requires dst <= src || dst >= src + n
    ensures BytesForward(buf, src, dst, k) == Overwrite(buf, dst, buf[src..src + k])
  {
    if k != 0 {
      ForwardIsMove(buf, src, dst, k - 1, n);
    }
  }

  method SliceWithinBuffer(buf: array<Byte>, src: nat, dst: nat, byteCount: nat, addr: nat)
    requires src + byteCount <= buf.Length && dst + byteCount <= buf.Length
    modifies buf
    ensures buf[..] == BytesForward(old(buf[..]), src, dst, byteCount)
  {
    ghost var buf0 := buf[..];
    if byteCount > 0 {
      var dstStart, srcStart := addr + dst, addr + src;
      if dstStart <= srcStart || dstStart >= srcStart + byteCount {
        ForwardIsMove(buf0, src, dst, byteCount, byteCount);
        Put(buf, dst, buf[src..src + byteCount]);
      } else {
        for i := 0 to byteCount
          invariant buf[..] == BytesForward(buf0, src, dst, i)
        {
          buf[dst + i] := buf[src + i];
        }
      }
    }
  }
}
