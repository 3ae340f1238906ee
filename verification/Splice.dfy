/**
 `Array.prototype.splice`: a fast path that moves the cells of a slice, and the generic loops
 that get, set and delete one index at a time, on either representation of arrays.
 */
module Splice {
  import opened Options
  import opened ArrayModel
  import opened ArrayObjects

  /** An index relative to the end if negative, within the length. */
  function RelToIdx(rel: int, l: nat): (r: nat)
    ensures r <= l
  {
    if rel >= 0 then (if rel < l then rel else l) else if l + rel > 0 then l + rel else 0
  }

  datatype Arguments<V> = NoArguments | StartOnly(start: int) | Full(start: int, deleteCount: int, items: seq<V>)

  function Start<V>(args: Arguments<V>, length: nat): (r: nat)
    ensures r <= length
  {
    if args.NoArguments? then 0 else RelToIdx(args.start, length)
  }

  function DeleteCount<V>(args: Arguments<V>, length: nat): (r: nat)
    ensures Start(args, length) + r <= length
  {
    match args
    case NoArguments => 0
    case StartOnly(_) => length - Start(args, length)
    case Full(_, n, _) =>
      var most := length - Start(args, length);
      if n < 0 then 0 else if n < most then n else most
  }

  function Items<V>(args: Arguments<V>): seq<V> {
    if args.Full? then args.items else []
  }

  // ---------------------------------------------------------------------------------------
  // The generic loops, on the array as a length and a map

  /** Copies an element, or its absence. */
  ghost function CopyCell<V>(a: Array<V>, from: nat, to: nat): Result<V> {
    if from in a.elements then Assigned(a, to, a.elements[from].value) else Deleted(a, to)
  }

  ghost function MoveDown<V>(a: Array<V>, k: nat, end: nat, dc: nat, ic: nat): Result<V>
    decreases end - k
  {
    if k >= end then Result(a, true)
    else
      var r := CopyCell(a, k + dc, k + ic);
      if r.ok then MoveDown(r.after, k + 1, end, dc, ic) else r
  }

  ghost function DeleteDown<V>(a: Array<V>, k: nat, low: nat): Result<V>
    decreases k
  {
    if k <= low then Result(a, true)
    else
      var r := Deleted(a, k - 1);
      if r.ok then DeleteDown(r.after, k - 1, low) else r
  }

  ghost function MoveUp<V>(a: Array<V>, k: nat, start: nat, dc: nat, ic: nat): Result<V>
    decreases k
  {
    if k <= start then Result(a, true)
    else
      var r := CopyCell(a, k + dc - 1, k + ic - 1);
      if r.ok then MoveUp(r.after, k - 1, start, dc, ic) else r
  }

  ghost function WriteItems<V>(a: Array<V>, start: nat, items: seq<V>): Result<V>
    decreases |items|
  {
    if items == [] then Result(a, true)
    else
      var r := Assigned(a, start, items[0]);
      if r.ok then WriteItems(r.after, start + 1, items[1..]) else r
  }

  /** The elements moved, before the new items are written. */
  ghost function Moved<V>(a: Array<V>, start: nat, dc: nat, ic: nat): Result<V>
    requires start + dc <= a.length
  {
    if ic < dc then
      var r := MoveDown(a, start, a.length - dc, dc, ic);
      if r.ok then DeleteDown(r.after, a.length, a.length - dc + ic) else r
    else if ic > dc then MoveUp(a, a.length - dc, start, dc, ic)
    else Result(a, true)
  }

  ghost function Generic<V>(a: Array<V>, start: nat, dc: nat, items: seq<V>): Result<V>
    requires start + dc <= a.length
  {
    var r := Moved(a, start, dc, |items|);
    if !r.ok then r
    else
      var w := WriteItems(r.after, start, items);
      if w.ok then Resized(w.after, a.length - dc + |items|) else w
  }

  // ---------------------------------------------------------------------------------------
  // What it should come to: prefix, new items, suffix

  ghost predicate InSplice<V>(a: Array<V>, start: nat, dc: nat, ic: nat, i: nat)
    requires start + dc <= a.length
  {
    if i < start then i in a.elements
    else if i < start + ic then true
    else i - ic + dc in a.elements
  }

  ghost function AfterSplice<V>(a: Array<V>, start: nat, dc: nat, items: seq<V>): map<nat, Cell<V>>
    requires start + dc <= a.length
  {
    map i: nat | i < a.length - dc + |items| && InSplice(a, start, dc, |items|, i) ::
      if i < start then a.elements[i]
      else if i < start + |items| then Plain(items[i - start])
      else a.elements[i - |items| + dc]
  }

  /** The fast path: the cells are moved whatever the array allows, and then its length is set. */
  ghost function Fast<V>(a: Array<V>, start: nat, dc: nat, items: seq<V>): Result<V>
    requires start + dc <= a.length
  {
    var b := a.(elements := AfterSplice(a, start, dc, items));
    var n := a.length - dc + |items|;
    if a.lengthWritable && n <= MAX_LENGTH then Result(b.(length := n), true)
    else Result(b, false)
  }

  ghost predicate AllPlain<V>(a: Array<V>) {
    forall i :: i in a.elements ==> a.elements[i].Plain?
  }

  ghost predicate NoHoles<V>(a: Array<V>) {
    forall i :: 0 <= i < a.length ==> i in a.elements
  }

  // ---------------------------------------------------------------------------------------
  // The generic loops, step by step

  ghost function At<V>(m: map<nat, Cell<V>>, i: int): Option<Cell<V>> {
    if i in m then Some(m[i]) else None
  }

  ghost predicate SameFlags<V>(a: Array<V>, b: Array<V>) {
    a.extensible == b.extensible && a.lengthWritable == b.lengthWritable && a.others == b.others
  }

  /** Whether an index can be written: it is there, or may be added. */
  ghost predicate CanWrite<V>(a: Array<V>, i: nat) {
    i < MAX_LENGTH && (i in a.elements || (a.extensible && (i < a.length || a.lengthWritable)))
  }

  /** `b` is `a` with one cell changed, and longer if the cell is beyond its length. */
  ghost predicate Changed<V>(a: Array<V>, b: Array<V>, i: nat, c: Option<Cell<V>>) {
    && SameFlags(a, b) && AllPlain(b) && (forall j: nat :: At(b.elements, j) == if j == i then c else At(a.elements, j))
    && a.length <= b.length && (b.length == a.length || b.length == i + 1)
  }

  lemma AssignStep<V>(a: Array<V>, i: nat, v: V)
    requires AllPlain(a) && CanWrite(a, i)
    ensures Assigned(a, i, v).ok && Changed(a, Assigned(a, i, v).after, i, Some(Plain(v)))
  {
  }

  lemma DeleteStep<V>(a: Array<V>, i: nat)
    requires AllPlain(a) && i < MAX_LENGTH
    ensures Deleted(a, i).ok && Changed(a, Deleted(a, i).after, i, None) && Deleted(a, i).after.length == a.length
  {
  }

  lemma CopyStep<V>(a: Array<V>, from: nat, to: nat)
    requires AllPlain(a) && to < MAX_LENGTH && (from in a.elements ==> CanWrite(a, to))
    ensures CopyCell(a, from, to).ok && Changed(a, CopyCell(a, from, to).after, to, At(a.elements, from))
  {
    if from in a.elements {
      AssignStep(a, to, a.elements[from].value);
    } else {
      DeleteStep(a, to);
    }
  }

  /** The cells from `start + dc` to `k + dc` moved down by `dc - ic`. */
  ghost predicate MovedDownTo<V>(a: Array<V>, b: Array<V>, start: nat, dc: nat, ic: nat, k: nat) {
    && SameFlags(a, b) && AllPlain(b) && b.length == a.length
    && forall i: nat :: At(b.elements, i) == At(a.elements, if start + ic <= i < k + ic then i - ic + dc else i)
  }

  lemma MovedDownOne<V>(a: Array<V>, b: Array<V>, c: Array<V>, start: nat, dc: nat, ic: nat, k: nat)
    requires ic < dc && start <= k < a.length - dc && MovedDownTo(a, b, start, dc, ic, k)
    requires Changed(b, c, k + ic, At(b.elements, k + dc))
    ensures MovedDownTo(a, c, start, dc, ic, k + 1)
  {
  }

  lemma MovedDownAt<V>(a: Array<V>, b: Array<V>, start: nat, dc: nat, ic: nat, k: nat)
    requires WellFormed(a) && ic < dc && start <= k < a.length - dc && (a.extensible || NoHoles(a))
    requires MovedDownTo(a, b, start, dc, ic, k)
    ensures AllPlain(b) && CanWrite(b, k + ic)
  {
    assert At(b.elements, k + ic) == At(a.elements, k + ic);
  }

  lemma {:induction false} MoveDownIs<V>(a: Array<V>, b: Array<V>, start: nat, dc: nat, ic: nat, k: nat)
    requires WellFormed(a) && ic < dc && start <= k <= a.length - dc && (a.extensible || NoHoles(a))
    requires MovedDownTo(a, b, start, dc, ic, k)
    ensures var r := MoveDown(b, k, a.length - dc, dc, ic);
      && r.ok
      && MovedDownTo(a, r.after, start, dc, ic, a.length - dc)
    decreases a.length - dc - k
  {
    hide MovedDownTo, Changed, CopyCell, AllPlain;
    if k < a.length - dc {
      MovedDownAt(a, b, start, dc, ic, k);
      CopyStep(b, k + dc, k + ic);
      var c := CopyCell(b, k + dc, k + ic).after;
      MovedDownOne(a, b, c, start, dc, ic, k);
      MoveDownIs(a, c, start, dc, ic, k + 1);
    }
  }

  lemma {:induction false} DeleteDownIs<V>(b: Array<V>, k: nat, low: nat)
    requires AllPlain(b) && k <= MAX_LENGTH
    ensures var r := DeleteDown(b, k, low);
      && r.ok && SameFlags(b, r.after) && AllPlain(r.after) && r.after.length == b.length
      && forall i: nat :: At(r.after.elements, i) == if low <= i < k then None else At(b.elements, i)
    decreases k
  {
    if k > low {
      DeleteStep(b, k - 1);
      hide Deleted;
      DeleteDownIs(Deleted(b, k - 1).after, k - 1, low);
    }
  }

  /** The cells from `k + dc` on moved up by `ic - dc`. */
  ghost predicate MovedUpTo<V>(a: Array<V>, b: Array<V>, dc: nat, ic: nat, k: nat) {
    && SameFlags(a, b) && AllPlain(b) && a.length <= b.length <= a.length - dc + ic
    && forall i: nat :: At(b.elements, i) == At(a.elements, if k + ic <= i then i - ic + dc else i)
  }

  lemma MovedUpOne<V>(a: Array<V>, b: Array<V>, c: Array<V>, dc: nat, ic: nat, k: nat)
    requires ic > dc && 0 < k <= a.length - dc && MovedUpTo(a, b, dc, ic, k)
    requires Changed(b, c, k + ic - 1, At(b.elements, k + dc - 1))
    ensures MovedUpTo(a, c, dc, ic, k - 1)
  {
  }

  lemma MovedUpAt<V>(a: Array<V>, b: Array<V>, dc: nat, ic: nat, k: nat)
    requires a.extensible && a.lengthWritable && MovedUpTo(a, b, dc, ic, k)
    ensures AllPlain(b) && forall i: nat :: i < MAX_LENGTH ==> CanWrite(b, i)
  {
  }

  lemma {:induction false} MoveUpIs<V>(a: Array<V>, b: Array<V>, start: nat, dc: nat, ic: nat, k: nat)
    requires WellFormed(a) && ic > dc && start <= k <= a.length - dc && MovedUpTo(a, b, dc, ic, k)
    requires a.extensible && a.lengthWritable && a.length - dc + ic <= MAX_LENGTH
    ensures var r := MoveUp(b, k, start, dc, ic); r.ok && MovedUpTo(a, r.after, dc, ic, start)
    decreases k
  {
    hide MovedUpTo, Changed, CopyCell, AllPlain;
    if k > start {
      MovedUpAt(a, b, dc, ic, k);
      CopyStep(b, k + dc - 1, k + ic - 1);
      var c := CopyCell(b, k + dc - 1, k + ic - 1).after;
      MovedUpOne(a, b, c, dc, ic, k);
      MoveUpIs(a, c, start, dc, ic, k - 1);
    }
  }

  lemma {:induction false} WriteItemsIs<V>(b: Array<V>, start: nat, items: seq<V>)
    requires AllPlain(b) && forall i :: start <= i < start + |items| ==> CanWrite(b, i)
    ensures var r := WriteItems(b, start, items);
      && r.ok && SameFlags(b, r.after) && AllPlain(r.after)
      && b.length <= r.after.length && (r.after.length <= b.length || r.after.length <= start + |items|)
      && forall i: nat ::
        At(r.after.elements, i) == if start <= i < start + |items| then Some(Plain(items[i - start]))
          else At(b.elements, i)
    decreases |items|
  {
    if items != [] {
      assert CanWrite(b, start);
      AssignStep(b, start, items[0]);
      hide Assigned;
      var c := Assigned(b, start, items[0]).after;
      forall i | start + 1 <= i < start + |items| ensures CanWrite(c, i) {
        assert CanWrite(b, i) && At(c.elements, i) == At(b.elements, i);
      }
      WriteItemsIs(c, start + 1, items[1..]);
    }
  }

  /** Nothing is added that the array does not allow. */
  ghost predicate Allowed<V>(a: Array<V>, dc: nat, ic: nat)
    requires dc <= a.length
  {
    if ic <= dc then a.extensible || NoHoles(a)
    else a.extensible && a.lengthWritable && a.length - dc + ic <= MAX_LENGTH
  }

  /** The cells as they should be before the new items are written. */
  ghost predicate RoomMade<V>(a: Array<V>, b: Array<V>, start: nat, dc: nat, ic: nat) {
    && SameFlags(a, b) && AllPlain(b) && a.length <= b.length && (ic <= dc ==> b.length == a.length)
      && (ic > dc ==> b.length <= a.length - dc + ic)
    && (forall i: nat :: i < start ==> At(b.elements, i) == At(a.elements, i))
    && (forall i: nat :: start + ic <= i ==> At(b.elements, i) == At(a.elements, i - ic + dc))
    && (forall i: nat :: start <= i < start + ic && ic <= dc ==> At(b.elements, i) == At(a.elements, i))
  }

  lemma TailDeleted<V>(a: Array<V>, b: Array<V>, c: Array<V>, start: nat, dc: nat, ic: nat)
    requires WellFormed(a) && start + dc <= a.length && ic < dc && MovedDownTo(a, b, start, dc, ic, a.length - dc)
    requires SameFlags(b, c) && AllPlain(c) && c.length == b.length
    requires forall i: nat ::
      At(c.elements, i) == if a.length - dc + ic <= i < a.length then None else At(b.elements, i)
    ensures RoomMade(a, c, start, dc, ic)
  {
  }

  lemma MovedIs<V>(a: Array<V>, start: nat, dc: nat, ic: nat)
    requires WellFormed(a) && start + dc <= a.length && AllPlain(a) && Allowed(a, dc, ic)
    ensures Moved(a, start, dc, ic).ok && RoomMade(a, Moved(a, start, dc, ic).after, start, dc, ic)
  {
    hide MoveDown, MoveUp, DeleteDown;
    if ic < dc {
      MoveDownIs(a, a, start, dc, ic, start);
      var b := MoveDown(a, start, a.length - dc, dc, ic).after;
      DeleteDownIs(b, a.length, a.length - dc + ic);
      TailDeleted(a, b, DeleteDown(b, a.length, a.length - dc + ic).after, start, dc, ic);
    } else if ic > dc {
      MoveUpIs(a, a, start, dc, ic, a.length - dc);
    }
  }

  /**
   Allowed, the generic loops give the prefix, the new items and the suffix, holes included, as the
   fast path does.
   */
  lemma GenericIsSplice<V>(a: Array<V>, start: nat, dc: nat, items: seq<V>)
    requires WellFormed(a) && start + dc <= a.length && AllPlain(a) && Allowed(a, dc, |items|)
    ensures Generic(a, start, dc, items) == Fast(a, start, dc, items)
  {
    var ic := |items|;
    MovedIs(a, start, dc, ic);
    var b := Moved(a, start, dc, ic).after;
    hide Moved;
    forall i | start <= i < start + ic ensures CanWrite(b, i) {
      if ic <= dc { assert At(b.elements, i) == At(a.elements, i); }
    }
    WriteItemsIs(b, start, items);
    var w := WriteItems(b, start, items).after;
    hide WriteItems;
    ElementsOf(a, b, w, start, dc, items);
    var n := a.length - dc + ic;
    KeptIs(w.elements, n, w.length, n);
    BelowAll(w.elements, n);
  }

  lemma ElementsOf<V>(a: Array<V>, b: Array<V>, w: Array<V>, start: nat, dc: nat, items: seq<V>)
    requires WellFormed(a) && start + dc <= a.length && RoomMade(a, b, start, dc, |items|)
    requires forall i: nat ::
      At(w.elements, i) == if start <= i < start + |items| then Some(Plain(items[i - start])) else At(b.elements, i)
    ensures w.elements == AfterSplice(a, start, dc, items)
  {
    var m := AfterSplice(a, start, dc, items);
    forall i: nat ensures At(w.elements, i) == At(m, i) {
    }
    SameMap(w.elements, m);
  }

  lemma SameMap<V>(m: map<nat, Cell<V>>, n: map<nat, Cell<V>>)
    requires forall i: nat :: At(m, i) == At(n, i)
    ensures m == n
  {
    forall i | i in m ensures i in n && m[i] == n[i] { assert At(m, i) == At(n, i); }
    forall i | i in n ensures i in m { assert At(m, i) == At(n, i); }
  }

  // ---------------------------------------------------------------------------------------
  // Where the fast path is not the generic one

  lemma {:induction false} MoveUpKeeps<V>(a: Array<V>, k: nat, start: nat, dc: nat, ic: nat)
    requires WellFormed(a)
    ensures WellFormed(MoveUp(a, k, start, dc, ic).after)
    decreases k
  {
    if k > start && k + ic > 0 { MoveUpKeeps(CopyCell(a, k + dc - 1, k + ic - 1).after, k - 1, start, dc, ic); }
  }

  lemma {:induction false} WriteItemsKeeps<V>(a: Array<V>, start: nat, items: seq<V>)
    requires WellFormed(a)
    ensures WellFormed(WriteItems(a, start, items).after)
    decreases |items|
  {
    if items != [] { WriteItemsKeeps(Assigned(a, start, items[0]).after, start + 1, items[1..]); }
  }

  /** Without leave to add elements, writing stops at the end of the array. */
  lemma {:induction false} WriteItemsStops<V>(a: Array<V>, start: nat, items: seq<V>)
    requires WellFormed(a) && AllPlain(a) && NoHoles(a) && !a.extensible && start <= a.length < start + |items|
    requires a.length < MAX_LENGTH
    ensures !WriteItems(a, start, items).ok
    decreases |items|
  {
    if start < a.length { WriteItemsStops(Assigned(a, start, items[0]).after, start + 1, items[1..]); }
  }

  lemma GrowthIsRefused<V>(a: Array<V>, start: nat, dc: nat, items: seq<V>)
    requires WellFormed(a) && start + dc <= a.length && AllPlain(a) && NoHoles(a) && |items| > dc && !a.extensible
    requires a.length - dc + |items| <= MAX_LENGTH
    ensures !Generic(a, start, dc, items).ok
  {
    if start + dc == a.length { WriteItemsStops(a, start, items); }
  }

  lemma GenericKeeps<V>(a: Array<V>, start: nat, dc: nat, items: seq<V>)
    requires WellFormed(a) && start + dc <= a.length && |items| > dc
    ensures WellFormed(Generic(a, start, dc, items).after)
  {
    hide MoveUp, WriteItems;
    MoveUpKeeps(a, a.length - dc, start, dc, |items|);
    var b := Moved(a, start, dc, |items|).after;
    WriteItemsKeeps(b, start, items);
    var w := WriteItems(b, start, items).after;
    KeptTells(w.elements, a.length - dc + |items|, w.length);
  }

  /**
   On an array of plain values without holes, the fast path does what the generic loops do exactly
   when the array does not grow, or may take new elements and a new length, and this is not too large.
   */
  lemma FastIsGenericIff<V>(a: Array<V>, start: nat, dc: nat, items: seq<V>)
    requires WellFormed(a) && start + dc <= a.length && AllPlain(a) && NoHoles(a)
    ensures Fast(a, start, dc, items) == Generic(a, start, dc, items)
        <==> |items| <= dc || (a.extensible && a.lengthWritable && a.length - dc + |items| <= MAX_LENGTH)
  {
    hide Generic;
    if |items| <= dc || (a.extensible && a.lengthWritable && a.length - dc + |items| <= MAX_LENGTH) {
      GenericIsSplice(a, start, dc, items);
    } else if a.lengthWritable && a.length - dc + |items| <= MAX_LENGTH {
      GrowthIsRefused(a, start, dc, items);
    } else {
      GenericKeeps(a, start, dc, items);
      var last := a.length - dc + |items| - 1;
      assert InSplice(a, start, dc, |items|, last);
      assert last in Fast(a, start, dc, items).after.elements;
    }
  }

  /** For instance: an array of one element that takes no others takes one all the same. */
  lemma NonExtensibleGrowth<V>(x: V, y: V)
    ensures var a := Array(1, map[0 := Plain(x)], map[], false, true);
      && Fast(a, 0, 0, [y]).ok && Fast(a, 0, 0, [y]).after.length == 2
      && Fast(a, 0, 0, [y]).after.elements == map[0 := Plain(y), 1 := Plain(x)]
      && !Generic(a, 0, 0, [y]).ok && Generic(a, 0, 0, [y]).after == a
  {
    var a := Array(1, map[0 := Plain(x)], map[], false, true);
    assert InSplice(a, 0, 0, 1, 0) && InSplice(a, 0, 0, 1, 1);
    assert AfterSplice(a, 0, 0, [y]) == map[0 := Plain(y), 1 := Plain(x)];
    assert MoveUp(a, 1, 0, 0, 1) == Result(a, false);
  }

  // ---------------------------------------------------------------------------------------
  // The elements taken out

  /** What the generic loop copies out. */
  ghost function Taken<V>(a: Array<V>, start: nat, dc: nat): (r: seq<Option<V>>) {
    seq(dc, k requires 0 <= k < dc => if start + k in a.elements then Some(a.elements[start + k].value) else None)
  }

  /** What the fast path copies out: it has no holes. */
  ghost function TakenFast<V>(a: Array<V>, start: nat, dc: nat, undefined: V): (r: seq<Option<V>>) {
    seq(dc, k requires 0 <= k < dc => if start + k in a.elements then Some(a.elements[start + k].value)
      else Some(undefined))
  }

  lemma TakenAlikeIff<V>(a: Array<V>, start: nat, dc: nat, undefined: V)
    ensures Taken(a, start, dc) == TakenFast(a, start, dc, undefined) <==>
      forall k :: start <= k < start + dc ==> k in a.elements
  {
    var t, f := Taken(a, start, dc), TakenFast(a, start, dc, undefined);
    if t == f {
      forall k | start <= k < start + dc ensures k in a.elements {
        assert t[k - start] == f[k - start];
      }
    }
  }

  // ---------------------------------------------------------------------------------------
  // On sequences

  /** Which part an argument list means, of `length` elements: counted from the end if negative, and never beyond. */
  lemma ArgumentsTell<V>(args: Arguments<V>, length: nat)
    ensures var st, end := Start(args, length), Start(args, length) + DeleteCount(args, length);
      && (args.NoArguments? ==> st == end == 0)
      && (!args.NoArguments? && 0 <= args.start <= length ==> st == args.start)
      && (!args.NoArguments? && args.start > length ==> st == length)
      && (!args.NoArguments? && 0 <= args.start + length < length ==> st == args.start + length)
      && (!args.NoArguments? && args.start + length < 0 ==> st == 0)
      && (args.StartOnly? ==> end == length)
      && (args.Full? && args.deleteCount <= 0 ==> end == st)
      && (args.Full? && args.deleteCount >= 0 && st + args.deleteCount <= length ==> end - st == args.deleteCount)
      && (args.Full? && st + args.deleteCount >= length ==> end == length)
  {
  }

  /** The array holds the values of `s`, each a plain element, and nothing else. */
  ghost predicate HoldsValues<V>(a: Array<V>, s: seq<V>) {
    a.length == |s| && forall i: nat :: At(a.elements, i) == if i < |s| then Some(Plain(s[i])) else None
  }

  ghost function SplicedSeq<V>(s: seq<V>, start: nat, dc: nat, items: seq<V>): seq<V>
    requires start + dc <= |s|
  {
    s[..start] + items + s[start + dc..]
  }

  /** Both paths replace a part of the sequence where the array may change in length, and give back that part. */
  lemma SpliceOfValues<V>(a: Array<V>, s: seq<V>, start: nat, dc: nat, items: seq<V>)
    requires HoldsValues(a, s) && |s| <= MAX_LENGTH && start + dc <= |s|
    requires a.extensible && a.lengthWritable && |s| - dc + |items| <= MAX_LENGTH
    ensures Generic(a, start, dc, items) == Fast(a, start, dc, items)
    ensures Fast(a, start, dc, items).ok
    ensures HoldsValues(Fast(a, start, dc, items).after, SplicedSeq(s, start, dc, items))
    ensures forall undefined: V :: TakenFast(a, start, dc, undefined) == Taken(a, start, dc)
    ensures Taken(a, start, dc) == seq(dc, k requires 0 <= k < dc => Some(s[start + k]))
  {
    hide Generic;
    ValuesArePlain(a, s);
    GenericIsSplice(a, start, dc, items);
    var b, t := Fast(a, start, dc, items).after, SplicedSeq(s, start, dc, items);
    forall i: nat ensures At(b.elements, i) == if i < |t| then Some(Plain(t[i])) else None {
      AfterSpliceAt(a, s, start, dc, items, i);
    }
    forall i | 0 <= i < |s| ensures i in a.elements && a.elements[i] == Plain(s[i]) {
      assert At(a.elements, i) == Some(Plain(s[i]));
    }
  }

  lemma ValuesArePlain<V>(a: Array<V>, s: seq<V>)
    requires HoldsValues(a, s) && |s| <= MAX_LENGTH
    ensures WellFormed(a) && AllPlain(a) && NoHoles(a)
  {
    forall i: nat ensures i in a.elements <==> i < |s| {
      assert At(a.elements, i) == if i < |s| then Some(Plain(s[i])) else None;
    }
    forall i | i in a.elements ensures a.elements[i].Plain? {
      assert At(a.elements, i) == Some(a.elements[i]);
    }
  }

  lemma AfterSpliceAt<V>(a: Array<V>, s: seq<V>, start: nat, dc: nat, items: seq<V>, i: nat)
    requires HoldsValues(a, s) && start + dc <= |s|
    ensures var t := SplicedSeq(s, start, dc, items);
      At(AfterSplice(a, start, dc, items), i) == if i < |t| then Some(Plain(t[i])) else None
  {
    var from: int := if i < start + |items| then i else i - |items| + dc;
    if from < |s| { assert At(a.elements, from) == Some(Plain(s[from])); }
  }

  /** Putting back what was taken, for what was put there, leaves the array as it was. */
  lemma SpliceUndone<V>(a: Array<V>, s: seq<V>, start: nat, dc: nat, items: seq<V>)
    requires HoldsValues(a, s) && |s| <= MAX_LENGTH && start + dc <= |s|
    requires a.extensible && a.lengthWritable && |s| - dc + |items| <= MAX_LENGTH
    ensures var b := Generic(a, start, dc, items).after;
      start + |items| <= b.length && Generic(b, start, |items|, s[start..start + dc]).after == a
  {
    hide Generic, Taken, TakenFast, HoldsValues, AfterSplice;
    ValuesCount(a, s);
    var b, t, back := Generic(a, start, dc, items).after, SplicedSeq(s, start, dc, items), s[start..start + dc];
    SpliceOfValues(a, s, start, dc, items);
    ValuesCount(b, t);
    SpliceOfValues(b, t, start, |items|, back);
    assert SplicedSeq(t, start, |items|, back) == s;
    SameValues(a, Generic(b, start, |items|, back).after, s);
  }

  lemma ValuesCount<V>(a: Array<V>, s: seq<V>)
    requires HoldsValues(a, s)
    ensures a.length == |s|
  {
  }

  lemma SameValues<V>(a: Array<V>, b: Array<V>, s: seq<V>)
    requires HoldsValues(a, s) && HoldsValues(b, s) && SameFlags(a, b)
    ensures a == b
  {
    forall i: nat ensures At(a.elements, i) == At(b.elements, i) {
    }
    SameMap(a.elements, b.elements);
  }

  // ---------------------------------------------------------------------------------------
  // The implementation

  datatype SpliceResult<V> = Finished(deleted: seq<Option<V>>) | Throws | Panicked

  /** Copying within or between slices, as if through a copy of the source. */
  function Copy<T>(dst: seq<T>, at: nat, src: seq<T>): (r: seq<T>)
    requires at + |src| <= |dst|
    ensures |r| == |dst|
    ensures forall i :: 0 <= i < |r| ==> r[i] == if at <= i < at + |src| then src[i - at] else dst[i]
  {
    dst[..at] + src + dst[at + |src|..]
  }

  function Cells<V>(items: seq<V>): (r: seq<Option<Cell<V>>>)
    ensures |r| == |items| && forall i :: 0 <= i < |r| ==> r[i] == Some(Plain(items[i]))
  {
    seq(|items|, k requires 0 <= k < |items| => Some(Plain(items[k])))
  }

  /** Empties the cells from `n` to `len`. */
  method Emptied<V>(cells: seq<Option<Cell<V>>>, n: nat, len: nat) returns (r: seq<Option<Cell<V>>>)
    requires n <= len <= |cells|
    ensures |r| == |cells| && forall i :: 0 <= i < |r| ==> r[i] == if n <= i < len then None else cells[i]
  {
    r := cells;
    for k := n to len
      invariant |r| == |cells| && forall i :: 0 <= i < |r| ==> r[i] == if n <= i < k then None else cells[i]
    {
      r := r[k := None];
    }
  }

  /** Moves the cells after those taken out to where they belong, in the backing array or in a new one. */
  method MakeRoom<V>(store: seq<Option<Cell<V>>>, len: nat, start: nat, dc: nat, ic: nat)
    returns (r: seq<Option<Cell<V>>>)
    requires len <= |store| && start + dc <= len && AllNone(store, len)
    ensures len - dc + ic <= |r| && AllNone(r, len - dc + ic)
    ensures forall i :: 0 <= i < start ==> r[i] == store[i]
    ensures forall i :: start + ic <= i < len - dc + ic ==> r[i] == store[i - ic + dc]
  {
    hide Copy, Nils;
    var n := len - dc + ic;
    var suffix := store[start + dc..len];
    r := store;
    if ic < dc {
      r := Copy(r, start + ic, suffix);
      r := Emptied(r, n, len);
    } else if ic > dc {
      if |store| >= n {
        r := Copy(r, start + ic, suffix);
      } else {
        r := Copy(Nils(n), 0, store[..start]);
        r := Copy(r, start + ic, suffix);
      }
    }
  }

  /** The slice the fast path ends with, in its backing array. */
  method MoveCells<V>(store: seq<Option<Cell<V>>>, len: nat, start: nat, dc: nat, items: seq<V>)
    returns (r: seq<Option<Cell<V>>>, n: nat)
    requires len <= |store| && start + dc <= len && AllNone(store, len)
    ensures n == len - dc + |items| <= |r| && AllNone(r, n)
    ensures r[..n] == store[..start] + Cells(items) + store[start + dc..len]
  {
    hide Copy, Cells;
    var ic := |items|;
    n := len - dc + ic;
    r := MakeRoom(store, len, start, dc, ic);
    if ic > 0 {
      r := Copy(r, start, Cells(items));
    }
    ghost var joined := store[..start] + Cells(items) + store[start + dc..len];
    forall i | 0 <= i < n ensures r[i] == joined[i] {
    }
  }

  /** The cells of the slice, put together again, are the elements wanted. */
  lemma CellsAreSplice<V>(a: Array<V>, cells: seq<Option<Cell<V>>>, start: nat, dc: nat, items: seq<V>)
    requires start + dc <= a.length == |cells| && a.elements == Dense(cells)
    ensures Dense(cells[..start] + Cells(items) + cells[start + dc..]) == AfterSplice(a, start, dc, items)
  {
    var joined := cells[..start] + Cells(items) + cells[start + dc..];
    forall i: nat ensures At(Dense(joined), i) == At(AfterSplice(a, start, dc, items), i) {
      if start + |items| <= i < |joined| { assert joined[i] == cells[i - |items| + dc]; }
    }
    SameMap(Dense(joined), AfterSplice(a, start, dc, items));
  }

  predicate IsStandard<V>(a: ArrayObject<V>)
    reads a
  {
    a.propValueCount == 0 && a.length == a.len && a.objCount % 0x1_0000_0000 == a.length
  }

  lemma FastTells<V>(a: Array<V>, start: nat, dc: nat, items: seq<V>)
    requires start + dc <= a.length
    ensures var n, after := a.length - dc + |items|, AfterSplice(a, start, dc, items);
      var ok := a.lengthWritable && n <= MAX_LENGTH;
      Fast(a, start, dc, items) ==
        Result(Array(if ok then n else a.length, after, a.others, a.extensible, a.lengthWritable), ok)
  {
  }

  method TakeOut<V>(a: ArrayObject<V>, start: nat, dc: nat, undefined: V) returns (deleted: seq<Option<V>>)
    requires a.Valid() && start + dc <= a.len
    ensures deleted == TakenFast(a.Value(), start, dc, undefined)
  {
    deleted := [];
    for k := 0 to dc
      invariant deleted == TakenFast(a.Value(), start, dc, undefined)[..k]
    {
      var c := a.store[start + k];
      deleted := deleted + [if c.Some? then Some(c.value.value) else Some(undefined)];
    }
  }

  method SpliceStandard<V>(a: ArrayObject<V>, start: nat, dc: nat, items: seq<V>, undefined: V)
    returns (r: SpliceResult<V>)
    requires a.Valid() && IsStandard(a) && start + dc <= a.length
    modifies a
    ensures a.Stored()
    ensures ((a.lengthWritable && old(a.length) - dc + |items| <= MAX_LENGTH) || |items| <= dc ==> a.Valid())
    ensures r == if Fast(old(a.Value()), start, dc, items).ok
      then Finished(TakenFast(old(a.Value()), start, dc, undefined)) else Throws
    ensures a.Value() == Fast(old(a.Value()), start, dc, items).after
  {
    hide Fast, TakenFast;
    var deleted := TakeOut(a, start, dc, undefined);
    ghost var before := a.Value();
    NoProps(before.elements, 0);
    var store, n := MoveCells(a.store, a.len, start, dc, items);
    ghost var cells := a.store[..a.len];
    assert a.store[..start] == cells[..start] && a.store[start + dc..a.len] == cells[start + dc..];
    CellsAreSplice(before, cells, start, dc, items);
    assert Props(AfterSplice(before, start, dc, items)) == {};
    DenseSize(store[..n]);
    a.store, a.len, a.objCount := store, n, n;
    assert a.Elements() == AfterSplice(before, start, dc, items);
    var ok := a.SetLength(n);
    BelowAll(AfterSplice(before, start, dc, items), n);
    FastTells(before, start, dc, items);
    r := if ok then Finished(deleted) else Throws;
  }

  method CopyIdx<V>(o: Object<V>, from: nat, to: nat) returns (r: Outcome)
    requires o.Valid() && from < MAX_LENGTH
    modifies o, o.Rep()
    ensures fresh(o.Rep() - old(o.Rep())) && (r.Panics? ==> o.CounterWrapped())
    ensures r.Returned? ==> o.Valid() && Result(o.Value(), r.ok) == CopyCell(old(o.Value()), from, to)
  {
    hide Object.Valid, Object.Value, Assigned, Deleted;
    var c := o.GetOwnPropIdx(from);
    if c.Some? {
      r := o.SetOwnIdx(to, c.value.value);
    } else {
      var ok := o.DeleteIdx(to);
      r := Returned(ok);
    }
  }

  method LoopDown<V>(o: Object<V>, start: nat, end: nat, dc: nat, ic: nat) returns (r: Outcome)
    requires o.Valid() && end + dc <= MAX_LENGTH
    modifies o, o.Rep()
    ensures fresh(o.Rep() - old(o.Rep())) && (r.Panics? ==> o.CounterWrapped())
    ensures r.Returned? ==> o.Valid() && Result(o.Value(), r.ok) == MoveDown(old(o.Value()), start, end, dc, ic)
  {
    hide CopyCell, Object.Valid, Object.Value;
    var k: nat := start;
    while k < end
      invariant o.Valid() && fresh(o.Rep() - old(o.Rep()))
      invariant MoveDown(o.Value(), k, end, dc, ic) == MoveDown(old(o.Value()), start, end, dc, ic)
    {
      r := CopyIdx(o, k + dc, k + ic);
      if r != Returned(true) { return; }
      k := k + 1;
    }
    return Returned(true);
  }

  method LoopDelete<V>(o: Object<V>, length: nat, newLength: nat) returns (ok: bool)
    requires o.Valid()
    modifies o`others, o.Rep()
    ensures o.Valid() && o.self == old(o.self) && Result(o.Value(), ok) == DeleteDown(old(o.Value()), length, newLength)
  {
    hide Deleted, Object.Valid, Object.Value;
    var k: nat := length;
    while k > newLength
      invariant o.Valid() && o.self == old(o.self)
      invariant DeleteDown(o.Value(), k, newLength) == DeleteDown(old(o.Value()), length, newLength)
    {
      ok := o.DeleteIdx(k - 1);
      if !ok { return; }
      k := k - 1;
    }
    return true;
  }

  method LoopUp<V>(o: Object<V>, end: nat, start: nat, dc: nat, ic: nat) returns (r: Outcome)
    requires o.Valid() && end + dc <= MAX_LENGTH
    modifies o, o.Rep()
    ensures fresh(o.Rep() - old(o.Rep())) && (r.Panics? ==> o.CounterWrapped())
    ensures r.Returned? ==> o.Valid() && Result(o.Value(), r.ok) == MoveUp(old(o.Value()), end, start, dc, ic)
  {
    hide CopyCell, Object.Valid, Object.Value;
    var k: nat := end;
    while k > start
      invariant k <= end && o.Valid() && fresh(o.Rep() - old(o.Rep()))
      invariant MoveUp(o.Value(), k, start, dc, ic) == MoveUp(old(o.Value()), end, start, dc, ic)
    {
      r := CopyIdx(o, k + dc - 1, k + ic - 1);
      if r != Returned(true) { return; }
      k := k - 1;
    }
    return Returned(true);
  }

  method LoopWrite<V>(o: Object<V>, start: nat, items: seq<V>) returns (r: Outcome)
    requires o.Valid()
    modifies o, o.Rep()
    ensures fresh(o.Rep() - old(o.Rep())) && (r.Panics? ==> o.CounterWrapped())
    ensures r.Returned? ==> o.Valid() && Result(o.Value(), r.ok) == WriteItems(old(o.Value()), start, items)
  {
    hide Assigned, Object.Valid, Object.Value;
    for i := 0 to |items|
      invariant o.Valid() && fresh(o.Rep() - old(o.Rep()))
      invariant WriteItems(o.Value(), start + i, items[i..]) == WriteItems(old(o.Value()), start, items)
    {
      assert items[i..][1..] == items[i + 1..];
      r := o.SetOwnIdx(start + i, items[i]);
      if r != Returned(true) { return; }
    }
    return Returned(true);
  }

  method LoopTake<V>(o: Object<V>, start: nat, dc: nat) returns (deleted: seq<Option<V>>)
    requires o.Valid() && start + dc <= MAX_LENGTH
    ensures deleted == Taken(o.Value(), start, dc)
  {
    hide Object.Valid, Object.Value;
    deleted := [];
    for k := 0 to dc
      invariant o.Valid() && o.Value() == old(o.Value())
      invariant deleted == Taken(o.Value(), start, dc)[..k]
    {
      var c := o.GetOwnPropIdx(start + k);
      deleted := deleted + [if c.Some? then Some(c.value.value) else None];
    }
  }

  method LoopMove<V>(o: Object<V>, length: nat, start: nat, dc: nat, ic: nat) returns (r: Outcome)
    requires o.Valid() && length == o.Value().length && start + dc <= length
    modifies o, o.Rep()
    ensures fresh(o.Rep() - old(o.Rep())) && (r.Panics? ==> o.CounterWrapped())
    ensures r.Returned? ==> o.Valid() && Result(o.Value(), r.ok) == Moved(old(o.Value()), start, dc, ic)
  {
    hide MoveDown, MoveUp, DeleteDown, Object.Valid, Object.Value;
    if ic < dc {
      r := LoopDown(o, start, length - dc, dc, ic);
      if r != Returned(true) { return; }
      var ok := LoopDelete(o, length, length - dc + ic);
      r := Returned(ok);
    } else if ic > dc {
      r := LoopUp(o, length - dc, start, dc, ic);
    } else {
      r := Returned(true);
    }
  }

  method SpliceGeneric<V>(o: Object<V>, length: nat, start: nat, dc: nat, items: seq<V>) returns (r: SpliceResult<V>)
    requires o.Valid() && length == o.Value().length && start + dc <= length
    modifies o, o.Rep()
    ensures r.Panicked? ==> o.CounterWrapped()
    ensures !r.Panicked? ==> o.Valid() && o.Value() == Generic(old(o.Value()), start, dc, items).after
    ensures !r.Panicked? ==>
      r == if Generic(old(o.Value()), start, dc, items).ok then Finished(Taken(old(o.Value()), start, dc)) else Throws
  {
    hide Moved, WriteItems, Resized, Taken, Object.Valid, Object.Value;
    var deleted := LoopTake(o, start, dc);
    var m := LoopMove(o, length, start, dc, |items|);
    if m != Returned(true) { return if m.Panics? then Panicked else Throws; }
    var w := LoopWrite(o, start, items);
    if w != Returned(true) { return if w.Panics? then Panicked else Throws; }
    var ok := o.SetLength(length - dc + |items|);
    r := if ok then Finished(deleted) else Throws;
  }

  /** Which of the two an array gets. */
  ghost predicate TakesFastPath<V>(o: Object<V>)
    reads o, o.Rep()
  {
    o.self.Standard? && IsStandard(o.self.a)
  }

  /** The largest length of an array-like object, plus one. */
  const MAX_INT: nat := 0x20_0000_0000_0000

  method Splice<V>(o: Object<V>, args: Arguments<V>, undefined: V) returns (r: SpliceResult<V>)
    requires o.Valid()
    modifies o, o.Rep()
    ensures var a, start, dc := old(o.Value()), old(Start(args, o.Value().length)),
      old(DeleteCount(args, o.Value().length));
      var fast, tooLong := old(TakesFastPath(o)), a.length - dc + |Items(args)| >= MAX_INT;
      var result := if tooLong then Result(a, false) else if fast then Fast(a, start, dc, Items(args))
        else Generic(a, start, dc, Items(args));
      var taken := if fast then TakenFast(a, start, dc, undefined) else Taken(a, start, dc);
      && (!r.Panicked? ==> r == if result.ok then Finished(taken) else Throws)
      && (!r.Panicked? && !fast ==> o.Valid() && o.Value() == result.after)
      && (fast ==> !r.Panicked? && o.self == old(o.self) && o.self.a.Stored() && o.self.a.Value() == result.after)
      && (r.Panicked? ==> o.CounterWrapped())
  {
    hide Fast, Generic, Taken, TakenFast;
    var length := match o.self case Unset => 0 case Standard(a) => a.length case Sparse(s) => s.length;
    var start, dc := Start(args, length), DeleteCount(args, length);
    if length - dc + |Items(args)| >= MAX_INT { return Throws; }
    if o.self.Standard? && IsStandard(o.self.a) {
      r := SpliceStandard(o.self.a, start, dc, Items(args), undefined);
    } else {
      r := SpliceGeneric(o, length, start, dc, Items(args));
    }
  }

  /** Shortening an array leaves its element counter as it was. */
  method Shortened<V>(x: V) returns (o: Object<V>)
    ensures fresh(o) && fresh(o.Rep()) && o.Valid() && o.self.Standard? && o.self.a.objCount == 3
    ensures o.self.a.propValueCount == 0
    ensures o.Value().length == 2 && o.Value().extensible && o.Value().lengthWritable
  {
    hide Resized, Dense, CountsProps, Props, Below;
    o := new Object([x, x, x]);
    var a := o.self.a;
    var ok := a.SetLength(2);
  }

  /** An element past the end of such an array is counted, and fills up the counter. */
  method Regrown<V>(o: Object<V>, x: V)
    requires o.Valid() && o.self.Standard? && o.self.a.objCount == 3 && o.self.a.propValueCount == 0
    requires o.Value().length == 2 && o.Value().extensible && o.Value().lengthWritable
    modifies o, o.Rep()
    ensures o.Valid() && o.self == old(o.self) && o.self.a.len == 4 && o.self.a.objCount == 4
    ensures o.self.a.propValueCount == 0
    ensures Result(o.Value(), true) == Assigned(old(o.Value()), 3, x)
    ensures 3 !in old(o.Value()).elements && 2 !in old(o.Value()).elements
  {
    hide Dense, CountsProps, Props, Below, Assigned, Kept;
    var a := o.self.a;
    ghost var before := o.Value();
    assert a.len <= 2 && 2 !in before.elements && 3 !in before.elements;
    AddedAtEnd(before, 3, x);
    var r := a.SetOwnIdx(3, x);
  }

  /** So `[x, x, x]` with its length set to 2 and then given an element 3 takes the fast path with a hole at 2. */
  method FastPathWithHole<V>(x: V) returns (o: Object<V>)
    ensures fresh(o) && o.Valid() && TakesFastPath(o) && 2 !in o.Value().elements && o.Value().length == 4
  {
    hide Object.Valid, Object.Value, Assigned;
    o := Shortened(x);
    ghost var before := o.Value();
    Regrown(o, x);
    AddedAtEnd(before, 3, x);
    CountsAsStandard(o);
  }

  lemma CountsAsStandard<V>(o: Object<V>)
    requires o.Valid() && o.self.Standard? && o.self.a.propValueCount == 0
    requires o.Value().length == o.self.a.len == o.self.a.objCount == 4
    ensures TakesFastPath(o)
  {
  }

  lemma AddedAtEnd<V>(a: Array<V>, i: nat, v: V)
    requires i !in a.elements && a.length <= i < MAX_LENGTH && a.extensible && a.lengthWritable
    ensures Assigned(a, i, v) == Result(a.(length := i + 1, elements := a.elements[i := Plain(v)]), true)
  {
  }
}
