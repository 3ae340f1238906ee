/**
 The two representations of arrays, `arrayObject` (a slice with spare capacity) and
 `sparseArrayObject` (items sorted by index), which an array changes between in the middle of
 an assignment.  Every operation on an array value is proved to be the operation on a length and
 a map of elements, in either representation and across the changes.
 */
module ArrayObjects {
  import opened Options
  import opened ArrayModel

  // ---------------------------------------------------------------------------------------
  // The elements held

  ghost function Dense<V>(values: seq<Option<Cell<V>>>): (m: map<nat, Cell<V>>)
    ensures forall i :: i in m ==> i < |values|
  {
    map i: nat | i < |values| && values[i].Some? :: values[i].value
  }

  datatype Item<V> = Item(idx: nat, value: Cell<V>)

  ghost predicate Sorted<V>(items: seq<Item<V>>) {
    forall j, k :: 0 <= j < k < |items| ==> items[j].idx < items[k].idx
  }

  ghost function Listed<V>(items: seq<Item<V>>): map<nat, Cell<V>>
    requires Sorted(items)
  {
    map k | 0 <= k < |items| :: items[k].idx := items[k].value
  }

  ghost predicate AllNone<V>(cells: seq<Option<Cell<V>>>, from: nat) {
    forall i :: from <= i < |cells| ==> cells[i].None?
  }

  /** Where an index is, or belongs, among the items. */
  ghost predicate Position<V>(items: seq<Item<V>>, idx: nat, p: nat) {
    && p <= |items|
    && (forall k :: 0 <= k < p ==> items[k].idx < idx)
    && (forall k :: p <= k < |items| ==> idx <= items[k].idx)
  }

  predicate Found<V>(items: seq<Item<V>>, idx: nat, p: nat) {
    p < |items| && items[p].idx == idx
  }

  /** The items hold what the map does. */
  ghost predicate Lists<V>(items: seq<Item<V>>, m: map<nat, Cell<V>>) {
    && (forall k :: 0 <= k < |items| ==> items[k].idx in m && m[items[k].idx] == items[k].value)
    && (forall i :: i in m ==> Has(items, i))
  }

  ghost predicate Has<V>(items: seq<Item<V>>, i: nat) {
    exists k :: 0 <= k < |items| && items[k].idx == i
  }

  lemma ListsItself<V>(items: seq<Item<V>>)
    requires Sorted(items)
    ensures Lists(items, Listed(items))
  {
    var m := Listed(items);
    assert forall k :: 0 <= k < |items| ==> items[k].idx in m && m[items[k].idx] == items[k].value;
    forall i | i in m ensures Has(items, i) {
    }
  }

  lemma ListsOnly<V>(items: seq<Item<V>>, m: map<nat, Cell<V>>)
    requires Sorted(items) && Lists(items, m)
    ensures Listed(items) == m
  {
    hide Listed;
    ListsItself(items);
    var n := Listed(items);
    forall i | i in m ensures i in n && n[i] == m[i] {
      assert Has(items, i);
    }
    forall i | i in n ensures i in m {
      assert Has(items, i);
    }
  }

  lemma FoundIff<V>(items: seq<Item<V>>, idx: nat, p: nat)
    requires Sorted(items) && Position(items, idx, p)
    ensures Found(items, idx, p) <==> idx in Listed(items)
    ensures Found(items, idx, p) ==> Listed(items)[idx] == items[p].value
  {
    hide Listed;
    ListsItself(items);
    if idx in Listed(items) {
      assert Has(items, idx);
      var k :| 0 <= k < |items| && items[k].idx == idx;
      assert k >= p;
    }
  }

  lemma SortedInsert<V>(items: seq<Item<V>>, idx: nat, c: Cell<V>, p: nat)
    requires Sorted(items) && Position(items, idx, p) && !Found(items, idx, p)
    ensures Sorted(items[..p] + [Item(idx, c)] + items[p..])
    ensures forall k :: 0 <= k < |items| ==> items[k].idx != idx
  {
  }

  lemma CellsInserted<V>(items: seq<Item<V>>, idx: nat, c: Cell<V>, p: nat, m: map<nat, Cell<V>>)
    requires p <= |items| && Lists(items, m) && forall k :: 0 <= k < |items| ==> items[k].idx != idx
    ensures Lists(items[..p] + [Item(idx, c)] + items[p..], m[idx := c])
  {
    var more, n := items[..p] + [Item(idx, c)] + items[p..], m[idx := c];
    forall k | 0 <= k < |more| ensures more[k].idx in n && n[more[k].idx] == more[k].value {
      if k != p {
        var j := if k < p then k else k - 1;
        assert more[k] == items[j];
      }
    }
    forall i | i in n ensures Has(more, i) {
      if i == idx {
        assert more[p].idx == i;
      } else {
        assert Has(items, i);
        var k :| 0 <= k < |items| && items[k].idx == i;
        var j := if k < p then k else k + 1;
        assert more[j] == items[k];
      }
    }
  }

  lemma ListedInsert<V>(items: seq<Item<V>>, idx: nat, c: Cell<V>, p: nat)
    requires Sorted(items) && Position(items, idx, p) && !Found(items, idx, p)
    ensures var more := items[..p] + [Item(idx, c)] + items[p..];
      && Sorted(more)
      && Listed(more) == Listed(items)[idx := c]
  {
    hide Listed, Lists;
    ListsItself(items);
    SortedInsert(items, idx, c, p);
    CellsInserted(items, idx, c, p, Listed(items));
    ListsOnly(items[..p] + [Item(idx, c)] + items[p..], Listed(items)[idx := c]);
  }

  lemma ListedUpdate<V>(items: seq<Item<V>>, p: nat, c: Cell<V>)
    requires Sorted(items) && p < |items|
    ensures var changed := items[p := Item(items[p].idx, c)];
      && Sorted(changed)
      && Listed(changed) == Listed(items)[items[p].idx := c]
  {
    hide Listed;
    ListsItself(items);
    var changed, m := items[p := Item(items[p].idx, c)], Listed(items)[items[p].idx := c];
    assert forall k :: 0 <= k < |items| ==> changed[k].idx == items[k].idx;
    forall i | i in m ensures Has(changed, i) {
      assert Has(items, i);
      var k :| 0 <= k < |items| && items[k].idx == i;
      assert changed[k].idx == i;
    }
    ListsOnly(changed, m);
  }

  lemma SortedRemove<V>(items: seq<Item<V>>, p: nat)
    requires Sorted(items) && p < |items|
    ensures Sorted(items[..p] + items[p + 1..])
    ensures forall k :: 0 <= k < |items| && k != p ==> items[k].idx != items[p].idx
  {
  }

  lemma ListedRemove<V>(items: seq<Item<V>>, p: nat)
    requires Sorted(items) && p < |items|
    ensures var fewer := items[..p] + items[p + 1..]; Sorted(fewer) && Listed(fewer) == Listed(items) - {items[p].idx}
  {
    hide Listed;
    ListsItself(items);
    var fewer, m := items[..p] + items[p + 1..], Listed(items) - {items[p].idx};
    SortedRemove(items, p);
    hide Sorted;
    forall k | 0 <= k < |fewer| ensures fewer[k].idx in m && m[fewer[k].idx] == fewer[k].value {
      var j := if k < p then k else k + 1;
      assert fewer[k] == items[j];
    }
    forall i | i in m ensures Has(fewer, i) {
      assert Has(items, i);
      var k :| 0 <= k < |items| && items[k].idx == i;
      var j := if k < p then k else k - 1;
      assert fewer[j] == items[k];
    }
    ListsOnly(fewer, m);
  }

  lemma ListedBelow<V>(items: seq<Item<V>>, l: nat, p: nat)
    requires Sorted(items) && Position(items, l, p)
    ensures Sorted(items[..p]) && Listed(items[..p]) == Below(Listed(items), l)
  {
    hide Listed;
    ListsItself(items);
    var fewer, m := items[..p], Below(Listed(items), l);
    assert Sorted(fewer);
    forall i | i in m ensures Has(fewer, i) {
      assert Has(items, i);
      var k :| 0 <= k < |items| && items[k].idx == i;
      assert k < p && fewer[k].idx == i;
    }
    ListsOnly(fewer, m);
  }

  lemma ListedAppend<V>(items: seq<Item<V>>, idx: nat, c: Cell<V>)
    requires Sorted(items) && forall k :: 0 <= k < |items| ==> items[k].idx < idx
    ensures Sorted(items + [Item(idx, c)]) && Listed(items + [Item(idx, c)]) == Listed(items)[idx := c]
    ensures idx !in Listed(items)
  {
    hide Listed;
    ListsItself(items);
    assert !Has(items, idx);
    ListedInsert(items, idx, c, |items|);
    assert items[..|items|] + [Item(idx, c)] + items[|items|..] == items + [Item(idx, c)];
  }

  // ---------------------------------------------------------------------------------------

  /** Capacity for `newSize` elements, as Go's slices grow. */
  method GrowCap(newSize: nat, oldSize: nat, oldCap: nat) returns (r: nat)
    requires oldSize <= oldCap
    ensures r >= newSize && (oldSize < 1024 ==> r == newSize || r == 2 * oldCap)
  {
    var doublecap := oldCap + oldCap;
    if newSize > doublecap {
      return newSize;
    } else if oldSize < 1024 {
      return doublecap;
    }
    r := oldCap;
    while r < newSize
      invariant r >= oldCap
      decreases newSize - r
    {
      r := r + r / 4;
    }
  }

  /** Cells that hold nothing. */
  function Nils<V>(n: nat): (r: seq<Option<Cell<V>>>)
    ensures |r| == n && forall i :: 0 <= i < n ==> r[i].None?
  {
    if n == 0 then [] else Nils(n - 1) + [None]
  }

  datatype Impl<V> = Unset | Standard(a: ArrayObject<V>) | Sparse(s: SparseArrayObject<V>)

  datatype Outcome = Returned(ok: bool) | Panics

  datatype Expansion = Expanded | Switched | DivideByZero

  class ArrayObject<V> {
    const val: Object<V>
    /** The array behind the slice `values`: the slice is its first `len` cells, its capacity the whole. */
    var store: seq<Option<Cell<V>>>
    var len: nat
    var length: nat
    var objCount: int
    var propValueCount: int
    var lengthWritable: bool
    var extensible: bool

    constructor (val: Object<V>, values: seq<Option<Cell<V>>>, length: nat, objCount: int, propValueCount: int,
                 lengthWritable: bool, extensible: bool)
      ensures this.val == val && store == values && len == |values| && this.length == length
      ensures this.objCount == objCount && this.propValueCount == propValueCount
      ensures this.lengthWritable == lengthWritable && this.extensible == extensible
    {
      this.val, this.store, this.len, this.length := val, values, |values|, length;
      this.objCount, this.propValueCount := objCount, propValueCount;
      this.lengthWritable, this.extensible := lengthWritable, extensible;
    }

    ghost function Elements(): map<nat, Cell<V>>
      requires len <= |store|
      reads this`store, this`len
    {
      Dense(store[..len])
    }

    /** Spare capacity holds nothing and the counters are not too low. */
    ghost predicate Stored()
      reads this
    {
      && len <= |store| && length <= MAX_LENGTH && AllNone(store, len)
      && CountsProps(propValueCount, Elements()) && objCount >= |Elements()|
    }

    /** ... and elements are below the length. */
    ghost predicate Valid()
      reads this
    {
      Stored() && len <= length
    }

    ghost function Value(): Array<V>
      requires len <= |store|
      reads this, val`others
    {
      Array(length, Elements(), val.others, extensible, lengthWritable)
    }

    /** Looks, from the top, for a cell at or above `l` that cannot be removed. */
    method KeepFixed(l: nat) returns (k: nat)
      requires Stored()
      modifies this`propValueCount
      ensures k >= l && CountsProps(propValueCount, Below(Elements(), k))
      ensures len <= length ==> k == Kept(Elements(), l, length)
      ensures old(propValueCount) <= 0 ==> k == l && propValueCount == old(propValueCount)
    {
      k := l;
      ghost var e := Elements();
      if l <= length && propValueCount > 0 {
        assert Below(e, len) == e;
        if l < len {
          for i := len downto l
            invariant k == l && CountsProps(propValueCount, Below(e, i))
            invariant forall j :: j in e && j >= i ==> !Fixed(e[j])
          {
            if store[i].Some? && store[i].value.Prop? {
              if !store[i].value.configurable {
                k := i + 1;
                break;
              }
              CountBelow(propValueCount, e, i);
              propValueCount := propValueCount - 1;
            } else {
              CountBelow(propValueCount, e, i);
            }
          }
        } else {
          assert Below(e, l) == e;
        }
      } else {
        if propValueCount <= 0 { NoProps(e, propValueCount); }
        CountOfFewer(propValueCount, e, l);
      }
      if len <= length { KeptIs(e, l, length, k); }
    }

    /** Drops the cells from `l` on, leaving nothing behind in the spare capacity. */
    method Truncate(l: nat)
      requires len <= |store| && AllNone(store, len)
      modifies this`store, this`len
      ensures len <= l && len <= |store| && AllNone(store, len) && Elements() == Below(old(Elements()), l)
      ensures |store| <= old(|store|) && (l > old(len) ==> store == old(store) && len == old(len))
    {
      ghost var before := store;
      if l <= len {
        assert Dense(store[..l]) == Below(Elements(), l);
        if l >= 16 && l < (|store| % 0x1_0000_0000) / 4 {
          store := store[..l];
        } else {
          for i := l to len
            invariant |store| == |before| && store[..l] == before[..l]
            invariant forall j :: l <= j < i ==> store[j].None?
            invariant forall j :: i <= j < |store| ==> store[j] == before[j]
          {
            store := store[i := None];
          }
        }
        len := l;
        assert store[..l] == before[..l];
      } else {
        assert Below(Elements(), l) == Elements();
      }
    }

    method SetLengthUnchecked(l: nat) returns (ret: bool)
      requires Stored() && l <= MAX_LENGTH && lengthWritable && (len <= length || propValueCount <= 0)
      modifies this
      ensures Valid()
      ensures old(len <= length) ==> Result(Value(), ret) == Resized(old(Value()), l)
      ensures old(propValueCount) <= 0 ==>
        ret && Value() == old(Value()).(length := l, elements := Below(old(Elements()), l))
      ensures objCount == old(objCount)
      ensures (l > old(length) && old(len <= length) ==> store == old(store) && len == old(len))
      ensures |store| <= old(|store|) && (old(propValueCount) <= 0 ==> propValueCount == old(propValueCount))
    {
      KeptTells(Elements(), l, length);
      var k := KeepFixed(l);
      FewerElements(Elements(), k);
      Truncate(k);
      length := k;
      ret := k == l;
    }

    method SetLengthInt(l: nat) returns (ret: bool)
      requires Valid() && l <= MAX_LENGTH
      modifies this
      ensures Valid()
      ensures if l == old(length) then ret && Value() == old(Value())
              else Result(Value(), ret) == Resized(old(Value()), l)
      ensures objCount == old(objCount)
      ensures (l > old(length) && old(len <= length) ==> store == old(store) && len == old(len))
      ensures |store| <= old(|store|) && (old(propValueCount) <= 0 ==> propValueCount == old(propValueCount))
    {
      if l == length { return true; }
      if !lengthWritable { return false; }
      ret := SetLengthUnchecked(l);
    }

    method SetLength(l: nat) returns (ret: bool)
      requires Stored() && (len <= length || propValueCount <= 0)
      modifies this
      ensures Stored() && ((lengthWritable && l <= MAX_LENGTH) || old(len <= length) ==> Valid())
      ensures old(len <= length) ==> Result(Value(), ret) == Resized(old(Value()), l)
      ensures old(propValueCount) <= 0 && lengthWritable && l <= MAX_LENGTH ==>
        ret && Value() == old(Value()).(length := l, elements := Below(old(Elements()), l))
      ensures !lengthWritable || l > MAX_LENGTH ==>
        !ret && len == old(len) && store == old(store) && Value() == old(Value())
      ensures objCount == old(objCount) && |store| <= old(|store|)
      ensures (old(propValueCount) <= 0 ==> propValueCount == old(propValueCount))
    {
      if l > MAX_LENGTH || !lengthWritable { return false; }
      ret := SetLengthUnchecked(l);
    }

    /** Whether making room for `idx` goes as far as dividing by a counter that has wrapped around to 0. */
    predicate DividesByZero(idx: nat)
      reads this`store, this`objCount
    {
      idx + 1 >= |store| % 0x1_0000_0000 && idx > 4096 && objCount > 0 && objCount % 0x1_0000_0000 == 0
    }

    /** An assignment to `idx` that gets as far as that. */
    ghost predicate WouldPanic(idx: nat)
      requires len <= |store|
      reads this
    {
      idx !in Elements() && extensible && (idx < length || lengthWritable) && idx >= len && DividesByZero(idx)
    }

    /** Makes room for `idx`, or moves the elements to the sparse representation instead. */
    method Expand(idx: nat) returns (r: Expansion)
      requires Valid() && val.self == Standard(this) && len <= idx < length
      modifies this`store, this`len, val`self
      ensures r.DivideByZero? <==> old(DividesByZero(idx))
      ensures r.DivideByZero? ==> val.self == Standard(this)
      ensures r.Expanded? ==>
        val.self == Standard(this) && Valid() && len == idx + 1 && Value() == old(Value()) && store[idx].None?
      ensures idx <= 4096 ==> r.Expanded?
      ensures old(len < 1024 && |store| < 0x1_0000_0000) && r.Expanded? ==>
        |store| <= old(|store|) || |store| <= 2 * (idx + 1)
      ensures r.Switched? ==>
        val.self.Sparse? && fresh(val.self.s) && val.self.s.val == val && val.self.s.Valid()
          && val.self.s.Value() == old(Value())
    {
      assert objCount >= 0;
      hide Valid, Value;
      var targetLen := idx + 1;
      if targetLen < |store| % 0x1_0000_0000 {
        Reslice(targetLen);
      } else if idx > 4096 && objCount > 0 && objCount % 0x1_0000_0000 == 0 {
        return DivideByZero;
      } else if idx > 4096 && (objCount == 0 || idx / (objCount % 0x1_0000_0000) > 10) {
        MoveToSparse();
        return Switched;
      } else {
        Reallocate(targetLen);
      }
      return Expanded;
    }

    /** Uses more of the slice that is there. */
    method Reslice(targetLen: nat)
      requires Valid() && len < targetLen <= length && targetLen <= |store|
      modifies this`len
      ensures Valid() && len == targetLen && Value() == old(Value()) && store[targetLen - 1].None?
    {
      hide ArrayModel.CountsProps, Dense;
      DenseGrow(store, len, targetLen);
      len := targetLen;
    }

    method MoveToSparse()
      requires Valid()
      modifies val`self
      ensures val.self.Sparse? && fresh(val.self.s) && val.self.s.val == val && val.self.s.Valid()
      ensures val.self.s.Value() == old(Value())
    {
      hide ArrayModel.CountsProps, Listed, Dense;
      var items := SparseItems(store[..len]);
      var sa := new SparseArrayObject(val, items, length, propValueCount, lengthWritable, extensible);
      val.self := Sparse(sa);
    }

    /** Moves the elements to a longer slice. */
    method Reallocate(targetLen: nat)
      requires Valid() && len < targetLen <= length
      modifies this`store, this`len
      ensures Valid() && len == targetLen && Value() == old(Value()) && store[targetLen - 1].None?
      ensures old(len < 1024) ==> |store| == targetLen || |store| == 2 * old(|store|)
    {
      hide ArrayModel.CountsProps, Dense;
      var capacity := GrowCap(targetLen, len, |store|);
      var newValues := store[..len] + Nils(capacity - len);
      assert newValues[..len] == store[..len];
      DenseGrow(newValues, len, targetLen);
      store := newValues;
      len := targetLen;
    }

    method SetOwnIdx(idx: nat, v: V) returns (r: Outcome)
      requires Valid() && val.self == Standard(this) && idx < MAX_LENGTH
      modifies this, val`self
      ensures r.Panics? <==> old(WouldPanic(idx))
      ensures r.Panics? ==> objCount == old(objCount) && val.self == Standard(this)
      ensures idx <= 4096 ==> val.self == Standard(this)
      ensures old(len < 1024 && |store| < 0x1_0000_0000) && idx <= 4096 ==>
        |store| <= old(|store|) || |store| <= 2 * (idx + 1)
      ensures idx <= 4096 && r == Returned(true) && old(idx >= len) ==>
        len == idx + 1 && objCount == old(objCount) + 1
          && (old(propValueCount) <= 0 ==> propValueCount == old(propValueCount))
      ensures r.Returned? ==> val.Valid() && Result(val.Value(), r.ok) == Assigned(old(Value()), idx, v)
      ensures val.self == Standard(this) || (val.self.Sparse? && fresh(val.self.s))
    {
      hide ArrayModel.CountsProps, Kept;
      ghost var before := Elements();
      if idx < len && store[idx].Some? {
        assert idx in before;
        match store[idx].value {
          case Plain(_) => Put(idx, Plain(v));
          case Prop(_, writable, configurable) =>
            if !writable { return Returned(false); }
            Put(idx, Prop(v, writable, configurable));
        }
        return Returned(true);
      }
      r := AddOwnIdx(idx, v);
    }

    /** Adds an element that was not there. */
    method AddOwnIdx(idx: nat, v: V) returns (r: Outcome)
      requires Valid() && val.self == Standard(this) && idx < MAX_LENGTH && idx !in Elements()
      modifies this, val`self
      ensures r.Panics? <==> old(WouldPanic(idx))
      ensures r.Panics? ==> objCount == old(objCount) && val.self == Standard(this)
      ensures idx <= 4096 ==> val.self == Standard(this)
      ensures old(len < 1024 && |store| < 0x1_0000_0000) && idx <= 4096 ==>
        |store| <= old(|store|) || |store| <= 2 * (idx + 1)
      ensures idx <= 4096 && r == Returned(true) && old(idx >= len) ==>
        len == idx + 1 && objCount == old(objCount) + 1
          && (old(propValueCount) <= 0 ==> propValueCount == old(propValueCount))
      ensures r.Returned? ==> val.Valid() && Result(val.Value(), r.ok) == Assigned(old(Value()), idx, v)
      ensures val.self == Standard(this) || (val.self.Sparse? && fresh(val.self.s))
    {
      hide ArrayModel.CountsProps, Dense, Kept;
      ghost var before := Elements();
      if !extensible { return Returned(false); }
      if idx >= length {
        var ok := SetLengthInt(idx + 1);
        KeptIs(before, idx + 1, old(length), idx + 1);
        BelowAll(before, idx + 1);
        if !ok { return Returned(false); }
      }
      r := Fill(idx, v);
    }

    /** Gives an index below the length its element. */
    method Fill(idx: nat, v: V) returns (r: Outcome)
      requires Valid() && val.self == Standard(this) && idx < length && idx !in Elements()
      modifies this, val`self
      ensures r == if old(idx >= len && DividesByZero(idx)) then Panics else Returned(true)
      ensures r.Panics? ==> objCount == old(objCount) && val.self == Standard(this)
      ensures idx <= 4096 ==> val.self == Standard(this)
      ensures old(len < 1024 && |store| < 0x1_0000_0000) && idx <= 4096 ==>
        |store| <= old(|store|) || |store| <= 2 * (idx + 1)
      ensures idx <= 4096 && r.Returned? && old(idx >= len) ==>
        len == idx + 1 && objCount == old(objCount) + 1 && propValueCount == old(propValueCount)
      ensures r.Returned? ==>
        val.Valid() && val.Value() == old(Value()).(elements := old(Elements())[idx := Plain(v)])
      ensures val.self == Standard(this) || (val.self.Sparse? && fresh(val.self.s))
    {
      hide ArrayModel.CountsProps, Dense, Kept;
      if idx >= len {
        var e := Expand(idx);
        if e.DivideByZero? { return Panics; }
        if e.Switched? {
          val.self.s.Add(idx, Plain(v));
          return Returned(true);
        }
      }
      objCount := objCount + 1;
      AddedElement(Elements(), idx, Plain(v));
      Put(idx, Plain(v));
      return Returned(true);
    }

    /** Writes a cell of the slice. */
    method Put(idx: nat, c: Cell<V>)
      requires len <= |store| && len <= length <= MAX_LENGTH && AllNone(store, len)
      requires CountsProps(propValueCount, Elements())
      requires idx < len && objCount >= |Elements()[idx := c]|
      requires (c.Plain? || (store[idx].Some? && store[idx].value.Prop?))
      modifies this`store
      ensures Valid() && Value() == old(Value()).(elements := old(Elements())[idx := c]) && |store| == old(|store|)
    {
      CountAfterSet(propValueCount, Elements(), idx, c);
      DensePut(store[..len], idx, c);
      assert store[idx := Some(c)][..len] == store[..len][idx := Some(c)];
      store := store[idx := Some(c)];
    }

    method DeleteIdx(idx: nat) returns (ok: bool)
      requires Valid() && idx < MAX_LENGTH
      modifies this
      ensures Valid() && Result(Value(), ok) == Deleted(old(Value()), idx)
    {
      ghost var before := Elements();
      if idx < len && store[idx].Some? {
        var c := store[idx].value;
        assert idx in before && before[idx] == c;
        CountAfterDelete(propValueCount, before, idx);
        if c.Prop? {
          if !c.configurable { return false; }
          propValueCount := propValueCount - 1;
        }
        DenseClear(store[..len], idx);
        assert store[idx := None][..len] == store[..len][idx := None];
        store := store[idx := None];
        objCount := objCount - 1;
        RemovedElement(before, idx);
      } else {
        assert before - {idx} == before;
      }
      return true;
    }

    method GetOwnPropIdx(idx: nat) returns (r: Option<Cell<V>>)
      requires Valid()
      ensures r.Some? <==> idx in Value().elements
      ensures r.Some? ==> r.value == Value().elements[idx]
    {
      return if idx < len then store[idx] else None;
    }
  }

  lemma BelowAll<V>(elements: map<nat, Cell<V>>, l: nat)
    requires forall i :: i in elements ==> i < l
    ensures Below(elements, l) == elements
  {
  }

  lemma FewerElements<V>(elements: map<nat, Cell<V>>, l: nat)
    ensures |Below(elements, l)| <= |elements|
  {
    assert Below(elements, l).Keys <= elements.Keys;
    SubsetSize(Below(elements, l).Keys, elements.Keys);
  }

  lemma AddedElement<V>(elements: map<nat, Cell<V>>, i: nat, c: Cell<V>)
    ensures |elements[i := c]| == if i in elements then |elements| else |elements| + 1
  {
    assert elements[i := c].Keys == elements.Keys + {i};
  }

  lemma RemovedElement<V>(elements: map<nat, Cell<V>>, i: nat)
    requires i in elements
    ensures |elements - {i}| == |elements| - 1
  {
    assert (elements - {i}).Keys == elements.Keys - {i};
  }

  /** The items of a slice, holes left out. */
  method SparseItems<V>(values: seq<Option<Cell<V>>>) returns (items: seq<Item<V>>)
    ensures Sorted(items) && Listed(items) == Dense(values)
    ensures forall k :: 0 <= k < |items| ==> items[k].idx < |values|
  {
    items := [];
    for i := 0 to |values|
      invariant Sorted(items) && Listed(items) == Dense(values[..i])
      invariant forall k :: 0 <= k < |items| ==> items[k].idx < i
    {
      DenseNext(values, i);
      if values[i].Some? {
        ListedAppend(items, i, values[i].value);
        items := items + [Item(i, values[i].value)];
      }
    }
    assert values[..|values|] == values;
  }

  /** Cells that hold nothing can be taken in. */
  lemma DenseGrow<V>(store: seq<Option<Cell<V>>>, len: nat, more: nat)
    requires len <= more <= |store| && AllNone(store, len)
    ensures Dense(store[..more]) == Dense(store[..len])
  {
  }

  lemma DensePut<V>(values: seq<Option<Cell<V>>>, i: nat, c: Cell<V>)
    requires i < |values|
    ensures Dense(values[i := Some(c)]) == Dense(values)[i := c]
  {
  }

  lemma DenseClear<V>(values: seq<Option<Cell<V>>>, i: nat)
    requires i < |values|
    ensures Dense(values[i := None]) == Dense(values) - {i}
  {
  }

  lemma DenseNext<V>(values: seq<Option<Cell<V>>>, i: nat)
    requires i < |values|
    ensures Dense(values[..i + 1]) == if values[i].Some? then Dense(values[..i])[i := values[i].value]
      else Dense(values[..i])
  {
    var shorter, longer := values[..i], values[..i + 1];
    assert forall k :: 0 <= k < i ==> shorter[k] == longer[k];
  }

  class SparseArrayObject<V> {
    const val: Object<V>
    var items: seq<Item<V>>
    var length: nat
    var propValueCount: int
    var lengthWritable: bool
    var extensible: bool

    constructor (val: Object<V>, items: seq<Item<V>>, length: nat, propValueCount: int, lengthWritable: bool,
                 extensible: bool)
      ensures this.val == val && this.items == items && this.length == length && this.propValueCount == propValueCount
      ensures this.lengthWritable == lengthWritable && this.extensible == extensible
    {
      this.val, this.items, this.length, this.propValueCount := val, items, length, propValueCount;
      this.lengthWritable, this.extensible := lengthWritable, extensible;
    }

    ghost function Elements(): map<nat, Cell<V>>
      requires Sorted(items)
      reads this`items
    {
      Listed(items)
    }

    /** Items are in order of their indices, which are below the length, and the counter is not too low. */
    ghost predicate Valid()
      reads this
    {
      && Sorted(items) && length <= MAX_LENGTH && (forall k :: 0 <= k < |items| ==> items[k].idx < length)
      && CountsProps(propValueCount, Elements())
    }

    ghost function Value(): Array<V>
      requires Sorted(items)
      reads this, val`others
    {
      Array(length, Elements(), val.others, extensible, lengthWritable)
    }

    method FindIdx(idx: nat) returns (p: nat)
      requires Sorted(items)
      ensures Position(items, idx, p)
    {
      p := 0;
      var high := |items|;
      while p < high
        invariant p <= high <= |items|
        invariant forall k :: 0 <= k < p ==> items[k].idx < idx
        invariant forall k :: high <= k < |items| ==> idx <= items[k].idx
      {
        var mid := (p + high) / 2;
        if items[mid].idx >= idx { high := mid; } else { p := mid + 1; }
      }
    }

    /** Looks, from the top, for a cell at or above `l` that cannot be removed. */
    method KeepFixed(l: nat) returns (k: nat)
      requires Valid()
      modifies this`propValueCount
      ensures k == Kept(Elements(), l, length) && CountsProps(propValueCount, Below(Elements(), k))
    {
      hide ArrayModel.CountsProps, Listed;
      k := l;
      if l <= length && propValueCount > 0 {
        var i := |items|;
        assert items[..i] == items;
        while i > 0
          invariant 0 <= i <= |items| && k == l && CountsProps(propValueCount, Listed(items[..i]))
          invariant forall j :: i <= j < |items| ==> l <= items[j].idx && !Fixed(items[j].value)
        {
          var item := items[i - 1];
          if item.idx < l { break; }
          CountWithoutLast(propValueCount, items[..i]);
          assert items[..i][..i - 1] == items[..i - 1];
          if item.value.Prop? {
            if !item.value.configurable {
              k := item.idx + 1;
              break;
            }
            propValueCount := propValueCount - 1;
          }
          i := i - 1;
        }
        KeptItems(items, l, length, i, k);
      } else {
        if propValueCount <= 0 { NoProps(Elements(), propValueCount); }
        CountOfFewer(propValueCount, Elements(), l);
        KeptIs(Elements(), l, length, l);
      }
    }

    method SetLengthUnchecked(l: nat) returns (ret: bool)
      requires Valid() && l <= MAX_LENGTH && lengthWritable
      modifies this
      ensures Valid() && Result(Value(), ret) == Resized(old(Value()), l)
      ensures l > old(length) ==> items == old(items)
    {
      hide Listed, ArrayModel.CountsProps, Kept;
      KeptTells(Elements(), l, length);
      var k := KeepFixed(l);
      var p := FindIdx(k);
      ListedBelow(items, k, p);
      assert p < |items| ==> items[p].idx >= k;
      items := items[..p];
      length := k;
      ret := k == l;
    }

    method SetLengthInt(l: nat) returns (ret: bool)
      requires Valid() && l <= MAX_LENGTH
      modifies this
      ensures Valid()
      ensures if l == old(length) then ret
        && Value() == old(Value()) else Result(Value(), ret) == Resized(old(Value()), l)
      ensures l > old(length) ==> items == old(items)
    {
      if l == length { return true; }
      if !lengthWritable { return false; }
      ret := SetLengthUnchecked(l);
    }

    method SetLength(l: nat) returns (ret: bool)
      requires Valid()
      modifies this
      ensures Valid() && Result(Value(), ret) == Resized(old(Value()), l)
    {
      if l > MAX_LENGTH || !lengthWritable { return false; }
      ret := SetLengthUnchecked(l);
    }

    method Add(idx: nat, c: Cell<V>)
      requires Valid() && idx < length && idx !in Elements() && c.Plain?
      modifies this`items
      ensures Valid() && Value() == old(Value()).(elements := old(Elements())[idx := c])
    {
      var p := FindIdx(idx);
      FoundIff(items, idx, p);
      InsertAt(p, idx, c);
    }

    method InsertAt(p: nat, idx: nat, c: Cell<V>)
      requires Valid() && idx < length && Position(items, idx, p) && !Found(items, idx, p) && c.Plain?
      modifies this`items
      ensures Valid() && Value() == old(Value()).(elements := old(Elements())[idx := c])
    {
      ListedInsert(items, idx, c, p);
      CountAfterSet(propValueCount, Elements(), idx, c);
      items := items[..p] + [Item(idx, c)] + items[p..];
    }

    method UpdateAt(p: nat, c: Cell<V>)
      requires Valid() && p < |items| && (c.Plain? || items[p].value.Prop?)
      modifies this`items
      ensures Valid() && Value() == old(Value()).(elements := old(Elements())[old(items[p].idx) := c])
    {
      ListedUpdate(items, p, c);
      CountAfterSet(propValueCount, Elements(), items[p].idx, c);
      items := items[p := items[p].(value := c)];
    }

    /** Whether the items stay sparse with one more at `idx`; if not, they move to a slice with room for it. */
    method Expand(idx0: nat) returns (stays: bool)
      requires Valid() && val.self == Sparse(this) && idx0 < length && idx0 !in Elements()
      modifies val`self
      ensures stays ==> val.self == Sparse(this)
      ensures !stays ==> val.self.Standard? && fresh(val.self.a) && val.self.a.val == val && val.self.a.Valid()
      ensures !stays ==> idx0 < val.self.a.len && val.self.a.Value() == Value()
    {
      hide ArrayModel.CountsProps;
      var idx := idx0;
      var l := |items|;
      if l >= 1024 {
        if items[l - 1].idx > idx { idx := items[l - 1].idx; }
        if idx / 8 < l {
          var values := DenseValues(items, idx);
          ListedSize(items);
          var ar := new ArrayObject(val, values, length, |items|, propValueCount, lengthWritable, extensible);
          assert values[..|values|] == values;
          val.self := Standard(ar);
          return false;
        }
      }
      return true;
    }

    method SetOwnIdx(idx: nat, v: V) returns (ok: bool)
      requires Valid() && val.self == Sparse(this) && idx < MAX_LENGTH
      modifies this, val`self
      ensures val.Valid() && Result(val.Value(), ok) == Assigned(old(Value()), idx, v)
      ensures val.self == Sparse(this) || (val.self.Standard? && fresh(val.self.a))
    {
      hide ArrayModel.CountsProps;
      ghost var before := Elements();
      var p := FindIdx(idx);
      FoundIff(items, idx, p);
      if p < |items| && items[p].idx == idx {
        match items[p].value {
          case Plain(_) => UpdateAt(p, Plain(v));
          case Prop(_, writable, configurable) =>
            if !writable { return false; }
            UpdateAt(p, Prop(v, writable, configurable));
        }
        return true;
      }
      if !extensible { return false; }
      if idx >= length {
        ok := SetLengthInt(idx + 1);
        if !ok { return; }
      }
      Fill(p, idx, v);
      return true;
    }

    /** Gives an index below the length its element, before item `p`. */
    method Fill(p: nat, idx: nat, v: V)
      requires Valid() && val.self == Sparse(this) && idx < length
      requires Position(items, idx, p) && !Found(items, idx, p) && idx !in Elements()
      modifies this, val`self
      ensures val.Valid() && val.Value() == old(Value()).(elements := old(Elements())[idx := Plain(v)])
      ensures val.self == Sparse(this) || (val.self.Standard? && fresh(val.self.a))
    {
      hide ArrayModel.CountsProps, Listed, Dense;
      var stays := Expand(idx);
      if stays {
        InsertAt(p, idx, Plain(v));
      } else {
        var ar := val.self.a;
        AddedElement(ar.Elements(), idx, Plain(v));
        ar.objCount := ar.objCount + 1;
        ar.Put(idx, Plain(v));
      }
    }

    method DeleteIdx(idx: nat) returns (ok: bool)
      requires Valid() && idx < MAX_LENGTH
      modifies this
      ensures Valid() && Result(Value(), ok) == Deleted(old(Value()), idx)
    {
      hide ArrayModel.CountsProps, Listed;
      var p := FindIdx(idx);
      FoundIff(items, idx, p);
      if p < |items| && items[p].idx == idx {
        CountAfterDelete(propValueCount, Elements(), idx);
        if items[p].value.Prop? {
          if !items[p].value.configurable { return false; }
          propValueCount := propValueCount - 1;
        }
        ListedRemove(items, p);
        items := items[..p] + items[p + 1..];
      } else {
        assert Elements() - {idx} == Elements();
      }
      return true;
    }

    method GetOwnPropIdx(idx: nat) returns (r: Option<Cell<V>>)
      requires Valid()
      ensures r.Some? <==> idx in Value().elements
      ensures r.Some? ==> r.value == Value().elements[idx]
    {
      var p := FindIdx(idx);
      FoundIff(items, idx, p);
      return if p < |items| && items[p].idx == idx then Some(items[p].value) else None;
    }
  }

  /** The last item, no longer counted. */
  lemma CountWithoutLast<V>(n: int, items: seq<Item<V>>)
    requires Sorted(items) && |items| > 0 && CountsProps(n, Listed(items))
    ensures CountsProps(if items[|items| - 1].value.Prop? then n - 1 else n, Listed(items[..|items| - 1]))
  {
    hide ArrayModel.CountsProps, Listed;
    var last := |items| - 1;
    ListsItself(items);
    ListedRemove(items, last);
    assert items[..last] + items[last + 1..] == items[..last];
    CountAfterDelete(n, Listed(items), items[last].idx);
  }

  /** Where a scan from the last item stops is the length that is kept. */
  lemma KeptItems<V>(items: seq<Item<V>>, l: nat, length: nat, i: nat, k: nat)
    requires Sorted(items) && i <= |items| && forall j :: 0 <= j < |items| ==> items[j].idx < length
    requires forall j :: i <= j < |items| ==> l <= items[j].idx && !Fixed(items[j].value)
    requires k == l ==> i == 0 || items[i - 1].idx < l
    requires k != l ==> i > 0 && l <= items[i - 1].idx == k - 1 && Fixed(items[i - 1].value)
    ensures Kept(Listed(items), l, length) == k && Below(Listed(items), k) == Listed(items[..i])
  {
    hide Listed;
    ListsItself(items);
    assert Position(items, k, i);
    ListedBelow(items, k, i);
    forall x | x in Listed(items) && k <= x ensures !Fixed(Listed(items)[x]) {
      assert Has(items, x);
    }
    KeptIs(Listed(items), l, length, k);
  }

  /** A slice holding the items, up to index `newMaxIdx`. */
  lemma NilsListNothing<V>(items: seq<Item<V>>, n: nat)
    ensures Sorted(items[..0]) && Dense(Nils<V>(n)) == Listed(items[..0])
  {
    assert Dense(Nils<V>(n)) == map[] && Listed(items[..0]) == map[];
  }

  lemma ListedNext<V>(items: seq<Item<V>>, n: nat)
    requires Sorted(items) && n < |items|
    ensures Sorted(items[..n]) && Sorted(items[..n + 1])
    ensures Listed(items[..n + 1]) == Listed(items[..n])[items[n].idx := items[n].value]
  {
    ListedAppend(items[..n], items[n].idx, items[n].value);
    assert items[..n + 1] == items[..n] + [Item(items[n].idx, items[n].value)];
  }

  method DenseValues<V>(items: seq<Item<V>>, newMaxIdx: nat) returns (values: seq<Option<Cell<V>>>)
    requires Sorted(items) && forall k :: 0 <= k < |items| ==> items[k].idx <= newMaxIdx
    ensures |values| == newMaxIdx + 1 && Dense(values) == Listed(items)
  {
    hide Listed, Dense, Nils, Sorted;
    values := Nils(newMaxIdx + 1);
    NilsListNothing(items, newMaxIdx + 1);
    for n := 0 to |items|
      invariant |values| == newMaxIdx + 1 && Sorted(items[..n]) && Dense(values) == Listed(items[..n])
    {
      var item := items[n];
      ListedNext(items, n);
      ghost var before := values;
      values := values[item.idx := Some(item.value)];
      DensePut(before, item.idx, item.value);
    }
    assert items[..|items|] == items;
  }

  lemma {:induction false} ListedSize<V>(items: seq<Item<V>>)
    requires Sorted(items)
    ensures |Listed(items)| == |items|
    decreases |items|
  {
    if items == [] {
      assert Listed(items) == map[];
    } else {
      hide Listed;
      var n := |items| - 1;
      assert items == items[..n] + [Item(items[n].idx, items[n].value)];
      assert Sorted(items[..n]) && forall k :: 0 <= k < n ==> items[k].idx < items[n].idx;
      hide Sorted;
      ListedSize(items[..n]);
      ListedAppend(items[..n], items[n].idx, items[n].value);
      AddedElement(Listed(items[..n]), items[n].idx, items[n].value);
    }
  }

  // ---------------------------------------------------------------------------------------
  // The array value

  class Object<V> {
    var self: Impl<V>
    /** Properties named by integers that are not indices. */
    var others: map<nat, V>

    ghost function Rep(): (r: set<object>)
      reads this
      ensures this !in r
    {
      match self
      case Unset => {}
      case Standard(a) => {a}
      case Sparse(s) => {s}
    }

    ghost predicate Valid()
      reads this, Rep()
    {
      match self
      case Unset => false
      case Standard(a) => a.val == this && a.Valid()
      case Sparse(s) => s.val == this && s.Valid()
    }

    ghost function Value(): (r: Array<V>)
      requires Valid()
      reads this, Rep()
      ensures WellFormed(r)
    {
      if self.Standard? then self.a.Value() else self.s.Value()
    }

    /** A new array with the given elements. */
    constructor (values: seq<V>)
      requires |values| <= MAX_LENGTH
      ensures Valid() && fresh(Rep()) && self.Standard?
      ensures self.a.objCount == |self.a.store| == |values| && self.a.propValueCount == 0
      ensures Value() == Array(|values|, map i: nat | i < |values| :: Plain(values[i]), map[], true, true)
    {
      self, others := Unset, map[];
      new;
      var cells := seq(|values|, i requires 0 <= i < |values| => Some(Plain(values[i])));
      var a := new ArrayObject(this, cells, |values|, |values|, 0, true, true);
      self := Standard(a);
      assert cells[..|cells|] == cells;
      assert Dense(cells) == map i: nat | i < |values| :: Plain(values[i]);
      assert Props(Dense(cells)) == {};
      DenseSize(cells);
    }

    /** The counter of elements is 0 in 32 bits, though it is not 0. */
    ghost predicate CounterWrapped()
      reads this, Rep()
    {
      self.Standard? && self.a.objCount > 0 && self.a.objCount % 0x1_0000_0000 == 0
    }

    method SetOwnIdx(idx: nat, v: V) returns (r: Outcome)
      requires Valid()
      modifies this, Rep()
      ensures r.Panics? <==> idx < MAX_LENGTH && old(self.Standard? && self.a.WouldPanic(idx))
      ensures r.Panics? ==> CounterWrapped()
      ensures r.Returned? ==> Valid() && Result(Value(), r.ok) == Assigned(old(Value()), idx, v)
      ensures fresh(Rep() - old(Rep()))
    {
      if idx >= MAX_LENGTH {
        var extensible := match self case Unset => true case Standard(a) => a.extensible case Sparse(s) => s.extensible;
        if idx !in others && !extensible { return Returned(false); }
        others := others[idx := v];
        return Returned(true);
      }
      match self {
        case Standard(a) => r := a.SetOwnIdx(idx, v);
        case Sparse(s) => var ok := s.SetOwnIdx(idx, v); r := Returned(ok);
      }
    }

    method DeleteIdx(idx: nat) returns (ok: bool)
      requires Valid()
      modifies this`others, Rep()
      ensures Valid() && self == old(self) && Result(Value(), ok) == Deleted(old(Value()), idx)
    {
      if idx >= MAX_LENGTH {
        others := others - {idx};
        return true;
      }
      match self {
        case Standard(a) => ok := a.DeleteIdx(idx);
        case Sparse(s) => ok := s.DeleteIdx(idx);
      }
    }

    method SetLength(l: nat) returns (ok: bool)
      requires Valid()
      modifies Rep()
      ensures Valid() && Result(Value(), ok) == Resized(old(Value()), l)
    {
      match self {
        case Standard(a) => ok := a.SetLength(l);
        case Sparse(s) => ok := s.SetLength(l);
      }
    }

    method GetOwnPropIdx(idx: nat) returns (r: Option<Cell<V>>)
      requires Valid()
      ensures Valid() && Value() == old(Value())
      ensures idx < MAX_LENGTH ==>
        (r.Some? <==> idx in Value().elements) && (r.Some? ==> r.value == Value().elements[idx])
      ensures idx >= MAX_LENGTH ==> r == if idx in Value().others then Some(Plain(Value().others[idx])) else None
    {
      if idx >= MAX_LENGTH {
        return if idx in others then Some(Plain(others[idx])) else None;
      }
      match self {
        case Standard(a) => r := a.GetOwnPropIdx(idx);
        case Sparse(s) => r := s.GetOwnPropIdx(idx);
      }
    }
  }

  lemma {:induction false} DenseSize<V>(values: seq<Option<Cell<V>>>)
    ensures |Dense(values)| <= |values|
    decreases |values|
  {
    if values == [] {
      assert Dense(values) == map[];
    } else {
      var n := |values| - 1;
      DenseSize(values[..n]);
      DenseNext(values, n);
      assert values[..n + 1] == values;
      if values[n].Some? { AddedElement(Dense(values[..n]), n, values[n].value); }
    }
  }

  // ---------------------------------------------------------------------------------------
  // An assignment that divides by zero

  /** A small standard array without elements, whose counter stands at `n`. */
  ghost predicate Emptied<V>(o: Object<V>, a: ArrayObject<V>, n: int)
    reads o, a
  {
    && a.val == o && o.self == Standard(a) && a.Valid() && a.length == 0 && a.extensible && a.lengthWritable
    && a.objCount == n && a.propValueCount == 0 && |a.store| <= 2
  }

  /** One element added and removed again by shortening: the counter goes up. */
  method CountOnce<V>(o: Object<V>, a: ArrayObject<V>, x: V, ghost n: nat)
    requires Emptied(o, a, n)
    modifies o, a
    ensures Emptied(o, a, n + 1)
  {
    hide ArrayModel.CountsProps, Dense, Props;
    var r := a.SetOwnIdx(0, x);
    var ok := a.SetLength(0);
  }

  /**
   Done 2^32 times over, this leaves an empty array whose counter is 0 in 32 bits: an assignment
   beyond index 4096 now divides by it.
   */
  method CountsAround<V>(x: V) returns (o: Object<V>)
    ensures fresh(o) && o.Valid() && o.self.Standard? && o.Value().length == 0
    ensures forall i :: 4096 < i < MAX_LENGTH ==> o.self.a.WouldPanic(i)
  {
    o := new Object([]);
    var a := o.self.a;
    hide ArrayModel.CountsProps, Dense, Props;
    for n := 0 to 0x1_0000_0000
      invariant fresh(o) && fresh(a) && Emptied(o, a, n)
    {
      CountOnce(o, a, x, n);
    }
  }
}
