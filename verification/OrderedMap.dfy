/**
 The engine's insertion-ordered hash map and its iterators.

 Every entry sits in a hash chain (`hNext`) and in a doubly linked list in insertion order.
 Removing an entry unlinks it but leaves its own `iterPrev` in place, so that an iterator
 standing on it can walk back to an entry that is still in the map.
 */
module OrderedMap {
  import opened Options
  import opened OrderedLog
  import opened OrderedLinks

  class MapEntry<K, V> {
    var key: Option<K>
    var value: Option<V>
    var iterPrev: MapEntry?<K, V>
    var iterNext: MapEntry?<K, V>
    var hNext: MapEntry?<K, V>

    // The place in the map's list of all entries.
    ghost const slot: nat

    constructor (key: K, value: V, ghost slot: nat)
      ensures this.key == Some(key) && this.value == Some(value) && this.slot == slot
      ensures iterPrev == null && iterNext == null && hNext == null
    {
      this.key, this.value := Some(key), Some(value);
      iterPrev, iterNext, hNext := null, null, null;
      this.slot := slot;
    }
  }

  /** The entry in slot `i`, or null for -1. */
  ghost function At<K, V>(es: seq<MapEntry<K, V>>, i: int): MapEntry?<K, V> {
    if 0 <= i < |es| then es[i] else null
  }

  ghost predicate Slots<K, V>(es: seq<MapEntry<K, V>>) {
    forall i :: 0 <= i < |es| ==> es[i].slot == i
  }

  class Map<K(==), V> {
    const keys: Keys<K>
    var hashTable: map<int, MapEntry<K, V>>
    var iterFirst: MapEntry?<K, V>
    var iterLast: MapEntry?<K, V>
    var size: int

    // Every entry ever inserted, in insertion order; what it holds; the links on slot numbers.
    ghost var entries: seq<MapEntry<K, V>>
    ghost var log: Log<K, V>
    ghost var list: ListLinks
    ghost var hash: HashLinks

    // The fields of the entries and of the map are what the slot numbers say.

    ghost predicate Values(es: seq<MapEntry<K, V>>, log: Log<K, V>)
      reads es`key, es`value
    {
      && |es| == |log|
      && (forall i :: 0 <= i < |es| ==> es[i].key == if log[i].Some? then Some(log[i].value.0) else None)
      && (forall i :: 0 <= i < |es| ==> es[i].value == if log[i].Some? then Some(log[i].value.1) else None)
    }

    ghost predicate Backward(es: seq<MapEntry<K, V>>, prev: seq<int>)
      reads es`iterPrev
    {
      Bounded(prev, |es|) && forall i :: 0 <= i < |es| ==> es[i].iterPrev == At(es, prev[i])
    }

    ghost predicate Forward(es: seq<MapEntry<K, V>>, next: seq<int>)
      reads es`iterNext
    {
      Bounded(next, |es|) && forall i :: 0 <= i < |es| ==> es[i].iterNext == At(es, next[i])
    }

    ghost predicate List(es: seq<MapEntry<K, V>>, g: ListLinks)
      reads this`iterFirst, this`iterLast, es`iterPrev, es`iterNext
    {
      && Backward(es, g.prev) && Forward(es, g.next)
      && -1 <= g.first < |es| && iterFirst == At(es, g.first)
      && -1 <= g.last < |es| && iterLast == At(es, g.last)
    }

    ghost predicate Along(es: seq<MapEntry<K, V>>, hNext: seq<int>)
      reads es`hNext
    {
      Bounded(hNext, |es|) && forall i :: 0 <= i < |es| ==> es[i].hNext == At(es, hNext[i])
    }

    ghost predicate Heads(es: seq<MapEntry<K, V>>, table: map<int, int>)
      reads this`hashTable
    {
      && hashTable.Keys == table.Keys
      && forall h :: h in table ==> 0 <= table[h] < |es| && hashTable[h] == es[table[h]]
    }

    ghost predicate Table(es: seq<MapEntry<K, V>>, g: HashLinks)
      reads this`hashTable, es`hNext
    {
      Along(es, g.hNext) && Heads(es, g.table)
    }

    ghost predicate Mirrors()
      reads this, entries
    {
      Slots(entries) && Values(entries, log) && List(entries, list) && Table(entries, hash)
    }

    ghost predicate Valid()
      reads this, entries
    {
      && keys.Valid()
      && Mirrors()
      && Distinct(keys, log) && ListOk(log, list) && ChainsOk(keys, log, hash)
      && size == LiveCount(log)
    }

    constructor (keys: Keys<K>)
      requires keys.Valid()
      ensures Valid() && this.keys == keys && log == [] && entries == []
    {
      this.keys := keys;
      hashTable := map[];
      iterFirst, iterLast, size := null, null, 0;
      entries, log := [], [];
      list, hash := ListLinks([], [], -1, -1), HashLinks([], map[], map[]);
    }

    // -------------------------------------------------------------------------------------
    // lookup

    /** The entry of the chain's element `d` is live and points to that of the next. */
    ghost predicate Chained(chain: seq<int>, d: int)
      requires 0 <= d < |chain|
      reads this`entries, this`log, entries`key, entries`hNext
    {
      && 0 <= chain[d] < |entries| && chain[d] < |log|
      && log[chain[d]].Some? && entries[chain[d]].key == Some(log[chain[d]].value.0)
      && entries[chain[d]].hNext == if d + 1 < |chain| then At(entries, chain[d + 1]) else null
    }

    /** Follows a chain to the first entry with the key.  `c` is where in the chain the search stopped. */
    method Walk(start: MapEntry?<K, V>, k: K, ghost chain: seq<int>)
      returns (entry: MapEntry?<K, V>, hPrev: MapEntry?<K, V>, ghost c: nat)
      requires start == if chain == [] then null else At(entries, chain[0])
      requires forall d :: 0 <= d < |chain| ==> Chained(chain, d)
      ensures c <= |chain| && (entry == null <==> c == |chain|)
      ensures entry == if c < |chain| then At(entries, chain[c]) else null
      ensures hPrev == if c == 0 then null else At(entries, chain[c - 1])
      ensures forall d :: 0 <= d < c ==> !HoldsKey(keys, log, chain[d], k)
      ensures c < |chain| ==> HoldsKey(keys, log, chain[c], k)
    {
      entry, hPrev, c := start, null, 0;
      assert chain != [] ==> Chained(chain, 0);
      while entry != null && !keys.Same(entry.key.value, k)
        invariant c <= |chain| && (c < |chain| ==> Chained(chain, c))
        invariant entry == if c < |chain| then At(entries, chain[c]) else null
        invariant hPrev == if c == 0 then null else At(entries, chain[c - 1])
        invariant forall d :: 0 <= d < c ==> !HoldsKey(keys, log, chain[d], k)
        decreases |chain| - c
      {
        hPrev, entry, c := entry, entry.hNext, c + 1;
      }
    }

    /** The chain for a hash, as slot numbers. */
    ghost function ChainFor(h: int): seq<int>
      reads this`hash
    {
      if h in hash.chains then hash.chains[h] else []
    }

    lemma ChainIsChained(h: int)
      requires Values(entries, log) && Table(entries, hash) && ChainsOk(keys, log, hash)
      ensures h in hashTable <==> ChainFor(h) != []
      ensures h in hashTable ==> hashTable[h] == At(entries, ChainFor(h)[0])
      ensures forall d :: 0 <= d < |ChainFor(h)| ==> Chained(ChainFor(h), d)
    {
      assert h in hash.chains ==> ChainOk(keys, log, hash, h, hash.chains[h]);
      var chain := ChainFor(h);
      forall d | 0 <= d < |chain| ensures Chained(chain, d) {
        assert InSlot(keys, log, h, chain[d]) && Follows(hash.hNext, chain, d);
        if d + 1 < |chain| { assert InSlot(keys, log, h, chain[d + 1]); }
      }
    }

    method Lookup(key: K) returns (h: int, entry: MapEntry?<K, V>, hPrev: MapEntry?<K, V>, ghost c: nat)
      requires Values(entries, log) && Table(entries, hash) && Distinct(keys, log) && ChainsOk(keys, log, hash)
      ensures h == keys.Hash(keys.Normal(key))
      ensures entry == At(entries, Find(keys, log, keys.Normal(key)))
      ensures entry != null <==> Find(keys, log, keys.Normal(key)) < |log|
      ensures forall i :: IsEntryOf(keys, log, i, key) ==> entry != null && entry == At(entries, i)
      ensures entry != null ==> exists i :: IsEntryOf(keys, log, i, key)
      ensures c <= |ChainFor(h)| && hPrev == if c == 0 then null else At(entries, ChainFor(h)[c - 1])
      ensures entry == null ==> c == |ChainFor(h)|
      ensures entry != null ==> c < |ChainFor(h)| && ChainFor(h)[c] == Find(keys, log, keys.Normal(key))
    {
      hide Values, Table, Distinct, ChainsOk, Chained, IsEntryOf;
      var k := keys.Normal(key);
      FindsEntry(keys, log, key);
      h := keys.Hash(k);
      ChainIsChained(h);
      entry, hPrev, c := Walk(if h in hashTable then hashTable[h] else null, k, ChainFor(h));
      SlotCount();
      if entry != null {
        FindUnique(keys, log, k, ChainFor(h)[c]);
        assert IsEntryOf(keys, log, Find(keys, log, k), key);
      } else {
        NotFound(keys, log, hash, k);
      }
    }

    lemma SlotCount()
      requires Values(entries, log)
      ensures |entries| == |log|
    {
    }

    lemma Sizes()
      requires Valid()
      ensures |entries| == |log|
    {
    }

    lemma LiveEntry(i: int)
      requires Values(entries, log) && 0 <= i < |log| && log[i].Some?
      ensures |entries| == |log| && entries[i].key == Some(log[i].value.0) && entries[i].value == Some(log[i].value.1)
    {
    }

    method Get(key: K) returns (r: Option<V>)
      requires Valid()
      ensures r == ValueOf(keys, log, key)
      ensures forall i :: IsEntryOf(keys, log, i, key) ==> r == Some(log[i].value.1)
      ensures r.Some? ==> exists i :: IsEntryOf(keys, log, i, key)
    {
      hide Values, List, Table, Distinct, ListOk, ChainsOk, LiveCount, IsEntryOf;
      FindsEntry(keys, log, key);
      var h, entry, hPrev, c := Lookup(key);
      if entry != null {
        LiveEntry(Find(keys, log, keys.Normal(key)));
        return entry.value;
      }
      return None;
    }

    method Has(key: K) returns (r: bool)
      requires Valid()
      ensures r <==> exists i :: IsEntryOf(keys, log, i, key)
    {
      hide Values, List, Table, Distinct, ListOk, ChainsOk, LiveCount, IsEntryOf;
      var h, entry, hPrev, c := Lookup(key);
      return entry != null;
    }

    // -------------------------------------------------------------------------------------
    // set

    method AddToTable(entry: MapEntry<K, V>, h: int, hPrev: MapEntry?<K, V>)
      requires Slots(entries + [entry]) && Table(entries, hash) && entry.hNext == null
      requires -1 <= ChainEnd(hash, h) < |entries| && hPrev == At(entries, ChainEnd(hash, h))
      modifies this`hashTable, this`hash, entries`hNext
      ensures |old(hash).hNext| == |entries|
      ensures hash == ChainIn(old(hash), h, |entries|)
      ensures Table(entries + [entry], hash)
    {
      hide ChainEnd, Slots;
      KeepTable(entry);
      if hPrev == null {
        hashTable := hashTable[h := entry];
      } else {
        SetAlong(entry, ChainEnd(hash, h), hPrev);
      }
      hide Along;
      hash := ChainIn(hash, h, |entries|);
    }

    lemma KeepTable(entry: MapEntry<K, V>)
      requires Table(entries, hash) && entry.hNext == null
      ensures |hash.hNext| == |entries| && Along(entries + [entry], hash.hNext + [-1])
      ensures Heads(entries + [entry], hash.table)
    {
    }

    method SetAlong(entry: MapEntry<K, V>, ghost i: int, hPrev: MapEntry<K, V>)
      requires Slots(entries + [entry]) && 0 <= i < |entries| && hPrev == entries[i]
      requires |hash.hNext| == |entries| && Along(entries + [entry], hash.hNext + [-1])
      modifies hPrev`hNext
      ensures Along(entries + [entry], hash.hNext[i := |entries|] + [-1])
    {
      ghost var es := entries + [entry];
      assert es[i] == hPrev && forall j :: 0 <= j < |es| ==> es[j].slot == j;
      assert hash.hNext[i := |entries|] + [-1] == (hash.hNext + [-1])[i := |entries|];
      hPrev.hNext := entry;
    }

    method AddToList(entry: MapEntry<K, V>)
      requires Slots(entries + [entry]) && List(entries, list) && entry.iterPrev == null && entry.iterNext == null
      modifies this`iterFirst, this`iterLast, this`list, entries`iterNext, entry`iterPrev
      ensures list == LinkIn(old(list), |entries|)
      ensures List(entries + [entry], list)
    {
      hide Slots, Backward, Forward;
      ListSizes();
      ghost var n := |entries|;
      if iterLast != null {
        SetBackward(entry, iterLast);
        SetForward(entry, iterLast);
      } else {
        iterFirst := entry;
        KeepBackward(entry);
        KeepForward(entry);
      }
      iterLast := entry;
      list := LinkIn(list, n);
    }

    lemma ListSizes()
      requires List(entries, list)
      ensures |list.prev| == |list.next| == |entries| && Bounded(list.prev, |entries|) && Bounded(list.next, |entries|)
    {
    }

    /** The entries before a new one are in their slots. */
    lemma EarlierSlots(entry: MapEntry<K, V>)
      requires Slots(entries + [entry])
      ensures entry.slot == |entries|
      ensures forall i :: 0 <= i < |entries| ==> (entries + [entry])[i] == entries[i] && entries[i].slot == i
    {
      var es := entries + [entry];
      assert es[|entries|] == entry;
      forall i | 0 <= i < |entries| ensures es[i] == entries[i] && entries[i].slot == i {
      }
    }

    method SetBackward(entry: MapEntry<K, V>, last: MapEntry<K, V>)
      requires Slots(entries + [entry]) && Backward(entries, list.prev) && 0 <= list.last < |entries|
      requires last == entries[list.last]
      modifies entry`iterPrev
      ensures Backward(entries + [entry], list.prev + [list.last])
    {
      EarlierSlots(entry);
      entry.iterPrev := last;
    }

    method SetForward(entry: MapEntry<K, V>, last: MapEntry<K, V>)
      requires Slots(entries + [entry]) && Forward(entries, list.next) && 0 <= list.last < |entries|
      requires last == entries[list.last]
      requires entry.iterNext == null
      modifies last`iterNext
      ensures Forward(entries + [entry], list.next[list.last := |entries|] + [-1])
    {
      EarlierSlots(entry);
      last.iterNext := entry;
    }

    lemma KeepBackward(entry: MapEntry<K, V>)
      requires Backward(entries, list.prev) && entry.iterPrev == null
      ensures Backward(entries + [entry], list.prev + [-1])
    {
    }

    lemma KeepForward(entry: MapEntry<K, V>)
      requires Forward(entries, list.next) && entry.iterNext == null
      ensures Forward(entries + [entry], list.next + [-1])
    {
    }

    /** The new slot of an insertion. */
    ghost function NewSlot(key: K, value: V): (K, V) {
      (keys.Normal(key), value)
    }

    method Insert(key: K, value: V, h: int, hPrev: MapEntry?<K, V>)
      requires Mirrors() && -1 <= ChainEnd(hash, h) < |entries| && hPrev == At(entries, ChainEnd(hash, h))
      modifies this, entries
      ensures |entries| == |old(entries)| + 1 && old(entries) <= entries && fresh(entries[|old(entries)|])
      ensures log == old(log) + [Some(NewSlot(key, value))]
      ensures |old(hash).hNext| == |old(list).next| == |old(log)| && old(list).last < |old(log)|
      ensures list == LinkIn(old(list), |old(log)|) && hash == ChainIn(old(hash), h, |old(log)|)
      ensures Mirrors() && size == old(size) + 1
    {
      hide Bounded, ChainIn, LinkIn, ChainEnd, Values, List, Table;
      var k := keys.Normal(key);
      var entry := new MapEntry(k, value, |entries|);
      AppendValue(entry, (k, value));
      assert Slots(entries + [entry]);
      hide Slots;
      AddToTable(entry, h, hPrev);
      AddToList(entry);
      size := size + 1;
      log := log + [Some((k, value))];
      entries := entries + [entry];
    }

    lemma AppendValue(entry: MapEntry<K, V>, s: (K, V))
      requires Values(entries, log) && List(entries, list) && Table(entries, hash)
      requires entry.key == Some(s.0) && entry.value == Some(s.1)
      ensures |hash.hNext| == |list.next| == |entries| == |log| && list.last < |log|
      ensures Values(entries + [entry], log + [Some(s)])
    {
    }

    /** A new value for a live entry. */
    method Replace(entry: MapEntry<K, V>, value: V, ghost i: int)
      requires Mirrors() && 0 <= i < |entries| && entry == entries[i] && |entries| == |log| && log[i].Some?
      modifies entry`value, this`log
      ensures log == old(log)[i := Some((old(log)[i].value.0, value))]
      ensures Mirrors()
    {
      hide List, Table;
      entry.value := Some(value);
      log := log[i := Some((log[i].value.0, value))];
    }

    method SetPresent(entry: MapEntry<K, V>, key: K, value: V)
      requires Valid() && Find(keys, log, keys.Normal(key)) < |log|
      requires entry == At(entries, Find(keys, log, keys.Normal(key)))
      modifies this, entry
      ensures Valid() && log == Put(keys, old(log), key, value) && entries == old(entries)
    {
      hide ListOk, ChainsOk, Distinct, LiveCount, Values, List, Table;
      SlotCount();
      ghost var i := Find(keys, log, keys.Normal(key));
      ghost var s := (log[i].value.0, value);
      PutDistinct(keys, log, key, value);
      RevalueListOk(log, list, i, s);
      RevalueChainsOk(keys, log, hash, i, s);
      LiveCountUpdate(log, i, Some(s));
      hide Mirrors;
      Replace(entry, value, i);
    }

    method SetAbsent(key: K, value: V, h: int, hPrev: MapEntry?<K, V>)
      requires Valid() && h == keys.Hash(keys.Normal(key)) && Find(keys, log, keys.Normal(key)) == |log|
      requires hPrev == At(entries, ChainEnd(hash, h))
      modifies this, entries
      ensures Valid() && log == Put(keys, old(log), key, value)
      ensures old(entries) <= entries && fresh(entries[|old(entries)|..])
    {
      hide ListOk, ChainsOk, Distinct, LiveCount, Values, List, Table, ChainIn, LinkIn;
      SlotCount();
      ghost var s := NewSlot(key, value);
      PutDistinct(keys, log, key, value);
      EndOfChain(keys, log, hash, h);
      LinkInOk(log, list, s);
      ChainInOk(keys, log, hash, s);
      LiveCountAppend(log, s);
      Insert(key, value, h, hPrev);
    }

    method Set(key: K, value: V)
      requires Valid()
      modifies this, entries
      ensures Valid() && log == Put(keys, old(log), key, value)
      ensures EntrySet(keys, old(log), key, value, log)
      ensures old(entries) <= entries && fresh(entries[|old(entries)|..])
    {
      hide Values, List, Table, Distinct, ListOk, ChainsOk, LiveCount, Slots, Put, EntrySet, IsEntryOf;
      FindsEntry(keys, log, key);
      PutTells(keys, log, key, value);
      var h, entry, hPrev, c := Lookup(key);
      if entry != null {
        SetPresent(entry, key, value);
      } else {
        SetAbsent(key, value, h, hPrev);
      }
    }

    method GetOrInsert(key: K, value: V) returns (r: V)
      requires Valid()
      modifies this, entries
      ensures Valid()
      ensures forall i :: IsEntryOf(keys, old(log), i, key) ==> log == old(log) && r == log[i].value.1
      ensures !(exists i :: IsEntryOf(keys, old(log), i, key)) ==>
                log == Put(keys, old(log), key, value) && EntrySet(keys, old(log), key, value, log) && r == value
      ensures old(entries) <= entries && fresh(entries[|old(entries)|..])
    {
      hide Values, List, Table, Distinct, ListOk, ChainsOk, LiveCount, Slots, Put, EntrySet, IsEntryOf;
      FindsEntry(keys, log, key);
      PutTells(keys, log, key, value);
      var h, entry, hPrev, c := Lookup(key);
      if entry != null {
        LiveEntry(Find(keys, log, keys.Normal(key)));
        return entry.value.value;
      }
      SetAbsent(key, value, h, hPrev);
      return value;
    }

    // -------------------------------------------------------------------------------------
    // remove

    /** The entry before `entry` now leads to the one after it. */
    method SkipForward(entry: MapEntry<K, V>, ghost i: int)
      requires Slots(entries) && List(entries, list) && 0 <= i < |entries| && entry == entries[i]
      modifies this`iterFirst, this`list, entries`iterNext
      ensures list ==
        old(list).(next := if old(list).prev[i] >= 0 then old(list).next[old(list).prev[i] := old(list).next[i]]
          else old(list).next,
                                 first := if old(list).prev[i] >= 0 then old(list).first else old(list).next[i])
      ensures list.next[i] == old(list).next[i]
      ensures List(entries, list)
    {
      if entry.iterPrev != null {
        entry.iterPrev.iterNext := entry.iterNext;
      } else {
        iterFirst := entry.iterNext;
      }
      ghost var p := list.prev[i];
      list := list.(next := if p >= 0 then list.next[p := list.next[i]] else list.next,
                    first := if p >= 0 then list.first else list.next[i]);
    }

    /** The entry after `entry` now leads back to the one before it. */
    method SkipBackward(entry: MapEntry<K, V>, ghost i: int)
      requires Slots(entries) && List(entries, list) && 0 <= i < |entries| && entry == entries[i]
      modifies this`iterLast, this`list, entries`iterPrev
      ensures list ==
        old(list).(prev := if old(list).next[i] >= 0 then old(list).prev[old(list).next[i] := old(list).prev[i]]
          else old(list).prev,
                                 last := if old(list).next[i] >= 0 then old(list).last else old(list).prev[i])
      ensures List(entries, list)
    {
      if entry.iterNext != null {
        entry.iterNext.iterPrev := entry.iterPrev;
      } else {
        iterLast := entry.iterPrev;
      }
      ghost var n := list.next[i];
      list := list.(prev := if n >= 0 then list.prev[n := list.prev[i]] else list.prev,
                    last := if n >= 0 then list.last else list.prev[i]);
    }

    method UnlinkEntry(entry: MapEntry<K, V>, ghost i: int)
      requires Slots(entries) && List(entries, list) && 0 <= i < |entries| && entry == entries[i]
      modifies this`iterFirst, this`iterLast, this`list, entries`iterNext, entries`iterPrev
      ensures |old(list).next| == |entries| && Bounded(old(list).prev, |entries|) && Bounded(old(list).next, |entries|)
      ensures list == Unlink(old(list), i)
      ensures List(entries, list)
    {
      ListSizes();
      hide List, Slots;
      SkipForward(entry, i);
      SkipBackward(entry, i);
    }

    /** The chain skips `entry`, its element `c`. */
    method UnchainEntry(entry: MapEntry<K, V>, h: int, hPrev: MapEntry?<K, V>, ghost c: nat, ghost l: Log<K, V>)
      requires Slots(entries) && Table(entries, hash) && h in hash.chains && c < |hash.chains[h]|
      requires CanUnchain(keys, l, hash, h, c) && |l| == |entries|
      requires entry == entries[hash.chains[h][c]]
      requires hPrev == if c == 0 then null else At(entries, hash.chains[h][c - 1])
      modifies this`hashTable, this`hash, entries`hNext
      ensures |old(hash).hNext| == |entries|
      ensures hash == Unchain(old(hash), h, c)
      ensures Table(entries, hash)
    {
      hide ChainsOk, Slots, Along;
      ChainLinks(entry, h, c, l);
      if hPrev == null {
        if entry.hNext == null {
          hashTable := hashTable - {h};
        } else {
          hashTable := hashTable[h := entry.hNext];
        }
      } else {
        hide Heads;
        SkipAlong(entry, hash.chains[h][c - 1], hash.chains[h][c], hPrev);
      }
      hash := Unchain(hash, h, c);
    }

    lemma ChainLinks(entry: MapEntry<K, V>, h: int, c: int, l: Log<K, V>)
      requires Table(entries, hash) && CanUnchain(keys, l, hash, h, c) && |l| == |entries|
      requires entry == entries[hash.chains[h][c]]
      ensures |hash.hNext| == |entries| && h in hash.table
      ensures entry.hNext == if c + 1 < |hash.chains[h]| then At(entries, hash.chains[h][c + 1]) else null
      ensures c + 1 < |hash.chains[h]| ==> 0 <= hash.chains[h][c + 1] < |entries|
      ensures c > 0 ==> |hash.chains[h]| > 1
    {
      var chain := hash.chains[h];
      assert ChainOk(keys, l, hash, h, chain);
      assert Follows(hash.hNext, chain, c);
      assert c + 1 < |chain| ==> InSlot(keys, l, h, chain[c + 1]);
    }

    method SkipAlong(entry: MapEntry<K, V>, ghost p: int, ghost i: int, hPrev: MapEntry<K, V>)
      requires Slots(entries) && 0 <= p < |entries| && hPrev == entries[p] && 0 <= i < |entries| && entry == entries[i]
      requires Along(entries, hash.hNext) && |hash.hNext| == |entries|
      modifies hPrev`hNext
      ensures Along(entries, hash.hNext[p := hash.hNext[i]])
    {
      hPrev.hNext := entry.hNext;
    }

    method Remove(key: K) returns (removed: bool)
      requires Valid()
      modifies this, entries
      ensures Valid() && log == OrderedLog.Remove(keys, old(log), key) && entries == old(entries)
      ensures EntryRemoved(keys, old(log), key, log)
      ensures removed <==> exists i :: IsEntryOf(keys, old(log), i, key)
    {
      hide Values, List, Table, Distinct, ListOk, ChainsOk, LiveCount, Slots, IsEntryOf, EntryRemoved;
      FindsEntry(keys, log, key);
      RemoveTells(keys, log, key);
      var h, entry, hPrev, c := Lookup(key);
      if entry != null {
        RemoveEntry(entry, key, h, hPrev, c);
        return true;
      }
      return false;
    }

    method RemoveEntry(entry: MapEntry<K, V>, key: K, h: int, hPrev: MapEntry?<K, V>, ghost c: nat)
      requires Valid() && h == keys.Hash(keys.Normal(key)) && c < |ChainFor(h)|
      requires Find(keys, log, keys.Normal(key)) < |log| && entry == At(entries, Find(keys, log, keys.Normal(key)))
      requires ChainFor(h)[c] == Find(keys, log, keys.Normal(key))
      requires hPrev == if c == 0 then null else At(entries, ChainFor(h)[c - 1])
      modifies this, entries
      ensures Valid() && log == OrderedLog.Remove(keys, old(log), key) && entries == old(entries)
    {
      hide Values, List, Table, Distinct, ListOk, ChainsOk, LiveCount, Slots, Chained;
      ghost var i := Find(keys, log, keys.Normal(key));
      SlotCount();
      InChainRange(h, c);
      RemoveDistinct(keys, log, key);
      UnlinkOk(log, list, i);
      UnchainOk(keys, log, hash, h, c);
      LiveCountUpdate(log, i, None);
      hide Unlink, Unchain, Mirrors;
      Detach(entry, i, h, hPrev, c);
    }

    lemma InChainRange(h: int, c: int)
      requires Values(entries, log) && Table(entries, hash) && ChainsOk(keys, log, hash) && 0 <= c < |ChainFor(h)|
      ensures h in hash.chains && CanUnchain(keys, log, hash, h, c)
    {
      ChainIsChained(h);
      assert Chained(ChainFor(h), c) && (c > 0 ==> Chained(ChainFor(h), c - 1));
    }

    /** All the writes of a removal, in the order in which they are made. */
    method Detach(entry: MapEntry<K, V>, ghost i: int, h: int, hPrev: MapEntry?<K, V>, ghost c: nat)
      requires Mirrors() && CanUnchain(keys, log, hash, h, c) && i == hash.chains[h][c]
      requires |entries| == |log| && 0 <= i < |entries| && entry == entries[i]
      requires hPrev == if c == 0 then null else At(entries, hash.chains[h][c - 1])
      modifies this, entries
      ensures entries == old(entries) && log == old(log)[i := None] && size == old(size) - 1
      ensures |old(list).next| == |entries| && Bounded(old(list).prev, |entries|) && Bounded(old(list).next, |entries|)
      ensures |old(hash).hNext| == |entries|
      ensures list == Unlink(old(list), i) && hash == Unchain(old(hash), h, c)
      ensures Mirrors()
    {
      hide Values, List, Table, Slots, ChainsOk, Unlink, Unchain;
      Erase(entry, i);
      UnlinkEntry(entry, i);
      UnchainEntry(entry, h, hPrev, c, old(log));
      size := size - 1;
    }

    method Erase(entry: MapEntry<K, V>, ghost i: int)
      requires Slots(entries) && Values(entries, log) && 0 <= i < |entries| && entry == entries[i]
      modifies entry`key, entry`value, this`log
      ensures |old(log)| == |entries| && log == old(log)[i := None] && Values(entries, log)
    {
      entry.key, entry.value := None, None;
      log := log[i := None];
    }

    // -------------------------------------------------------------------------------------
    // clear

    /** One step of `clear`: the entry is emptied, and the one before it leads nowhere. */
    method ClearEntry(item: MapEntry<K, V>, ghost i: int, ghost next: seq<int>) returns (ghost next': seq<int>)
      requires Slots(entries) && Values(entries, log) && Backward(entries, list.prev) && Forward(entries, next)
      requires 0 <= i < |entries| && item == entries[i] && list.prev[i] < i
      modifies item`key, item`value, entries`iterNext, this`log
      ensures |old(log)| == |entries| && log == old(log)[i := None] && Values(entries, log)
      ensures |next'| == |next| == |entries| && Forward(entries, next') && forall j :: i <= j < |entries| ==>
        next'[j] == next[j]
    {
      item.key, item.value := None, None;
      log := log[i := None];
      next' := next;
      if item.iterPrev != null {
        item.iterPrev.iterNext := null;
        next' := next[list.prev[i] := -1];
      }
    }

    method Clear()
      requires Valid()
      modifies this, entries
      ensures Valid() && log == OrderedLog.Clear(old(log)) && entries == old(entries)
    {
      hide Distinct, ChainsOk, LiveCount, Slots, Along, Heads, Values, Backward, Forward;
      ghost var l, next, i := log, list.next, list.first;
      SlotCount();
      ListSizes();
      var item := iterFirst;
      while item != null
        invariant |l| == |log| == |entries| == |next| && log == ClearedTo(l, i)
        invariant -1 <= i < |entries| && item == At(entries, i) && (i >= 0 ==> l[i].Some?)
        invariant Slots(entries) && Values(entries, log) && Backward(entries, list.prev) && Forward(entries, next)
        invariant Table(entries, hash) && entries == old(entries) && list == old(list) && hash == old(hash)
        invariant |list.next| == |entries| && (i >= 0 ==> forall j :: i <= j < |entries| ==> next[j] == list.next[j])
        decreases if i < 0 then 0 else |entries| - i
      {
        assert Back(l, i, list.prev[i]) && Succ(l, i, list.next[i]);
        next := ClearEntry(item, i, next);
        ClearedStep(l, i, list.next[i]);
        NextEntry(i, next);
        item := item.iterNext;
        i := next[i];
      }
      Reset(l, next);
    }

    method Reset(ghost l: Log<K, V>, ghost next: seq<int>)
      requires keys.Valid() && Slots(entries) && Values(entries, log) && log == ClearedTo(l, -1) && |l| == |entries|
      requires Backward(entries, list.prev) && Forward(entries, next) && Along(entries, hash.hNext) && ListOk(l, list)
      modifies this
      ensures Valid() && log == OrderedLog.Clear(l) && entries == old(entries)
    {
      hide ListOk, ChainsOk, LiveCount, Slots, Values, Along, Backward, Forward, Distinct, Bounded, ClearedTo;
      LinkBounds(next);
      ClearedAll(keys, l);
      ClearedListOk(l, list, next);
      ClearedChainsOk(keys, l, hash);
      iterFirst, iterLast := null, null;
      hashTable := map[];
      size := 0;
      list, hash := ListLinks(list.prev, next, -1, -1), HashLinks(hash.hNext, map[], map[]);
    }

    lemma LinkBounds(next: seq<int>)
      requires Forward(entries, next) && Along(entries, hash.hNext)
      ensures Bounded(next, |entries|) && Bounded(hash.hNext, |entries|)
    {
    }

    lemma NextEntry(i: int, next: seq<int>)
      requires Forward(entries, next) && 0 <= i < |entries|
      ensures |next| == |entries| && -1 <= next[i] < |entries| && entries[i].iterNext == At(entries, next[i])
    {
    }

    /** Where the list leads from slot `p`, or from its start. */
    lemma NextOf(p: int) returns (n: int)
      requires Valid() && -1 <= p < |log| && (p >= 0 ==> log[p].Some?)
      ensures |entries| == |log| && n == NextLive(log, p)
      ensures At(entries, n) == if p >= 0 then entries[p].iterNext else iterFirst
    {
      hide Distinct, ChainsOk, LiveCount, Slots, Along, Heads;
      n := NextLive(log, p);
      if p >= 0 {
        assert Succ(log, p, list.next[p]);
        SuccIsNextLive(log, p, list.next[p]);
      } else {
        SuccIsNextLive(log, -1, list.first);
      }
    }

    lemma BackOf(p: int) returns (b: int)
      requires Valid() && 0 <= p < |log|
      ensures |entries| == |log| && (entries[p].key == None <==> log[p].None?)
      ensures -1 <= b < p && entries[p].iterPrev == At(entries, b) && Dead(log, b, p)
    {
      hide Distinct, ChainsOk, LiveCount, Slots, Along, Heads;
      b := list.prev[p];
      assert Back(log, p, b);
    }
  }

  /** The log with every slot before `i` emptied; -1 stands for the end. */
  ghost function ClearedTo<K, V>(log: Log<K, V>, i: int): Log<K, V> {
    seq(|log|, j requires 0 <= j < |log| => if i < 0 || j < i then None else log[j])
  }

  lemma ClearedAll<K, V>(keys: Keys<K>, l: Log<K, V>)
    ensures ClearedTo(l, -1) == OrderedLog.Clear(l)
    ensures LiveCount(OrderedLog.Clear(l)) == 0 && Distinct(keys, OrderedLog.Clear(l))
  {
    LiveCountAllDead(OrderedLog.Clear(l));
  }

  lemma ClearedStep<K, V>(log: Log<K, V>, i: int, n: int)
    requires 0 <= i < |log| && Succ(log, i, n)
    ensures ClearedTo(log, i)[i := None] == ClearedTo(log, n)
  {
  }

  // ---------------------------------------------------------------------------------------
  // Iterators

  class Iter<K(==), V> {
    var m: Map?<K, V>
    var cur: MapEntry?<K, V>

    // The slot of `cur`, or -1 before the first step, and the slots yielded so far.
    ghost var pos: int
    ghost var yielded: seq<int>

    ghost predicate Valid()
      reads this, m, if m == null then [] else m.entries
    {
      if m == null then cur == null && pos == -1
      else m.Valid() && -1 <= pos < |m.entries| && cur == At(m.entries, pos)
    }

    constructor (m: Map<K, V>)
      requires m.Valid()
      ensures Valid() && this.m == m && pos == -1 && yielded == []
    {
      hide Map.Valid;
      this.m, cur, pos, yielded := m, null, -1, [];
    }

    /** The step of the run model, on the map as it is now. */
    method Next() returns (r: MapEntry?<K, V>)
      requires Valid()
      modifies this
      ensures Valid()
      ensures old(m) == null ==> r == null && m == null && yielded == old(yielded)
      ensures old(m) != null ==>
        && -1 <= old(pos) < |old(m).log|
        && State(old(m).log, pos, m != null, yielded)
           == Step(old(m).keys, State(old(m).log, old(pos), true, old(yielded)), NextOp)
        && (m == null || m == old(m))
        && r == if m == null then null else At(m.entries, pos)
    {
      hide Map.Valid, NextLive, Dead;
      if m == null {
        return null;
      }
      ghost var p;
      r, p := Successor();
      if r == null {
        m, cur, pos := null, null, -1;
      } else {
        cur, pos, yielded := r, p, yielded + [p];
      }
    }

    /** An iterator survives whatever happens to its map, as long as no slot is lost. */
    twostate lemma Survives()
      requires old(Valid()) && old(m) != null && m == old(m) && cur == old(cur) && pos == old(pos)
      requires m.Valid() && old(m.entries) <= m.entries
      ensures Valid()
    {
      hide Map.Valid;
    }

    /** The first live entry after the iterator's position. */
    method Successor() returns (r: MapEntry?<K, V>, ghost p: int)
      requires m != null && m.Valid() && -1 <= pos < |m.entries| && cur == At(m.entries, pos)
      ensures pos < |m.log| == |m.entries| && p == NextLive(m.log, pos) && r == At(m.entries, p)
    {
      hide Map.Valid;
      r, p := BackToLive();
      if r != null {
        p := m.NextOf(p);
        r := r.iterNext;
      } else {
        p := m.NextOf(-1);
        r := m.iterFirst;
      }
    }

    /** From `cur` back through removed entries to one that is still in the map. */
    method BackToLive() returns (r: MapEntry?<K, V>, ghost p: int)
      requires m != null && m.Valid() && -1 <= pos < |m.entries| && cur == At(m.entries, pos)
      ensures -1 <= p <= pos < |m.log| == |m.entries| && r == At(m.entries, p) && (p >= 0 ==> m.log[p].Some?)
      ensures NextLive(m.log, p) == NextLive(m.log, pos)
    {
      hide Distinct, ChainsOk, ListOk, LiveCount, Map.Mirrors;
      m.Sizes();
      r, p := cur, pos;
      ghost var b := -1;
      if r != null { b := m.BackOf(p); }
      while r != null && r.key == None
        invariant -1 <= p <= pos < |m.log| == |m.entries| && r == At(m.entries, p)
        invariant Dead(m.log, p, pos + 1)
        invariant p >= 0 ==> (m.entries[p].key == None <==> m.log[p].None?)
        invariant p >= 0 ==> -1 <= b < p && m.entries[p].iterPrev == At(m.entries, b) && Dead(m.log, b, p)
        decreases p
      {
        r, p := r.iterPrev, b;
        if p >= 0 { b := m.BackOf(p); }
      }
      NextLiveUnique(m.log, p, NextLive(m.log, pos));
    }
  }

  /** A key whose chain holds no equal key is in no slot. */
  lemma NotFound<K, V>(keys: Keys<K>, log: Log<K, V>, g: HashLinks, k: K)
    requires ChainsOk(keys, log, g)
    requires keys.Hash(k) in g.chains ==>
      forall d :: 0 <= d < |g.chains[keys.Hash(k)]| ==> !HoldsKey(keys, log, g.chains[keys.Hash(k)][d], k)
    ensures Find(keys, log, k) == |log|
  {
    var i := Find(keys, log, k);
    assert i < |log| ==> InSlot(keys, log, keys.Hash(k), i) && HoldsKey(keys, log, i, k);
  }
}
