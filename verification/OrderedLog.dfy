/**
 The meaning of an insertion-ordered map with live iterators.

 A map is described by its log: one slot per entry ever inserted, in insertion order.  A slot
 holds the entry's key and value while the entry is in the map and is empty once the entry has
 been removed; slots are never reused.  An iterator is a position in the log.
 */
module OrderedLog {
  import opened Options

  type Log<K, V> = seq<Option<(K, V)>>

  /**
   What the map needs to know about keys.  Two keys are the same when they have the same
   `identity`; the hash is any function of that, so that same keys hash alike; and of the two
   zeroes the first is stored as the second.
   */
  datatype Keys<!K(==)> = Keys(identity: K -> int, hashOf: int -> int, negativeZero: K, zero: K) {
    ghost predicate Valid() {
      negativeZero != zero
    }

    predicate Same(a: K, b: K) {
      identity(a) == identity(b)
    }

    function Hash(k: K): int {
      hashOf(identity(k))
    }

    function Normal(k: K): K {
      if k == negativeZero then zero else k
    }
  }

  /** No two live slots hold the same key, and no slot holds the negative zero. */
  ghost predicate Distinct<K, V>(keys: Keys<K>, log: Log<K, V>) {
    && (forall i :: 0 <= i < |log| && log[i].Some? ==> log[i].value.0 != keys.negativeZero)
    && (forall i, j :: 0 <= i < j < |log| && log[i].Some? && log[j].Some? ==>
      !keys.Same(log[i].value.0, log[j].value.0))
  }

  // ---------------------------------------------------------------------------------------
  // Positions

  /** Every slot strictly between `lo` and `hi` is empty. */
  ghost predicate Dead<K, V>(log: Log<K, V>, lo: int, hi: int) {
    forall i :: lo < i < hi && 0 <= i < |log| ==> log[i].None?
  }

  /** The first live slot after `pos`, or the length of the log. */
  ghost function NextLive<K, V>(log: Log<K, V>, pos: int): (r: int)
    requires -1 <= pos < |log|
    ensures pos < r <= |log| && Dead(log, pos, r) && (r < |log| ==> log[r].Some?)
    decreases |log| - pos
  {
    if pos + 1 == |log| || log[pos + 1].Some? then pos + 1 else NextLive(log, pos + 1)
  }

  lemma NextLiveUnique<K, V>(log: Log<K, V>, pos: int, r: int)
    requires -1 <= pos < |log| && pos < r <= |log| && Dead(log, pos, r) && (r < |log| ==> log[r].Some?)
    ensures NextLive(log, pos) == r
  {
  }

  // ---------------------------------------------------------------------------------------
  // Operations on the log

  /** The slot that holds `k`, or the length of the log. */
  ghost function Find<K, V>(keys: Keys<K>, log: Log<K, V>, k: K): (r: nat)
    ensures r <= |log|
    ensures r < |log| ==> log[r].Some? && keys.Same(log[r].value.0, k)
    ensures forall i :: 0 <= i < r && log[i].Some? ==> !keys.Same(log[i].value.0, k)
  {
    if log == [] then 0
    else
      var r := Find(keys, log[..|log| - 1], k);
      if r < |log| - 1 then r
      else if log[|log| - 1].Some? && keys.Same(log[|log| - 1].value.0, k) then r
      else |log|
  }

  ghost predicate HoldsKey<K, V>(keys: Keys<K>, log: Log<K, V>, i: int, k: K) {
    0 <= i < |log| && log[i].Some? && keys.Same(log[i].value.0, k)
  }

  ghost function Put<K, V>(keys: Keys<K>, log: Log<K, V>, k: K, v: V): Log<K, V> {
    var i := Find(keys, log, keys.Normal(k));
    if i < |log| then log[i := Some((log[i].value.0, v))] else log + [Some((keys.Normal(k), v))]
  }

  ghost function Remove<K, V>(keys: Keys<K>, log: Log<K, V>, k: K): Log<K, V> {
    var i := Find(keys, log, keys.Normal(k));
    if i < |log| then log[i := None] else log
  }

  ghost function Clear<K, V>(log: Log<K, V>): Log<K, V> {
    seq(|log|, i => None)
  }

  ghost function LiveCount<K, V>(log: Log<K, V>): (n: nat) {
    if log == [] then 0 else LiveCount(log[..|log| - 1]) + if log[|log| - 1].Some? then 1 else 0
  }

  lemma FindUnique<K, V>(keys: Keys<K>, log: Log<K, V>, k: K, i: int)
    requires Distinct(keys, log) && HoldsKey(keys, log, i, k)
    ensures Find(keys, log, k) == i
  {
    var r := Find(keys, log, k);
    assert keys.Same(k, log[i].value.0);
    assert keys.Same(log[r].value.0, log[i].value.0);
  }

  // ---------------------------------------------------------------------------------------
  // The laws of a map on keys

  /** Two keys name one entry: they have one identity, the negative zero counted as the other. */
  predicate Alike<K>(keys: Keys<K>, a: K, b: K) {
    && keys.identity(if a == keys.negativeZero then keys.zero else a)
       == keys.identity(if b == keys.negativeZero then keys.zero else b)
  }

  /** Slot `i` is live and holds `k`. */
  ghost predicate IsEntryOf<K, V>(keys: Keys<K>, log: Log<K, V>, i: int, k: K) {
    0 <= i < |log| && log[i].Some? && Alike(keys, log[i].value.0, k)
  }

  /** What the map gives for `k`. */
  ghost function ValueOf<K, V>(keys: Keys<K>, log: Log<K, V>, k: K): Option<V> {
    var i := Find(keys, log, keys.Normal(k));
    if i < |log| then Some(log[i].value.1) else None
  }

  /** A normalised key is found in exactly the slot that holds it. */
  lemma FindsEntry<K, V>(keys: Keys<K>, log: Log<K, V>, k: K)
    requires Distinct(keys, log)
    ensures forall i :: IsEntryOf(keys, log, i, k) <==> i == Find(keys, log, keys.Normal(k)) < |log|
  {
    forall i ensures IsEntryOf(keys, log, i, k) <==> i == Find(keys, log, keys.Normal(k)) < |log| {
      if IsEntryOf(keys, log, i, k) {
        FindUnique(keys, log, keys.Normal(k), i);
      }
    }
  }

  /** The value a map gives is that of the one live slot with the key, and it gives none without one. */
  lemma ValueOfTells<K, V>(keys: Keys<K>, log: Log<K, V>, k: K, i: int)
    requires keys.Valid() && Distinct(keys, log)
    ensures IsEntryOf(keys, log, i, k) ==> ValueOf(keys, log, k) == Some(log[i].value.1)
    ensures ValueOf(keys, log, k).None? <==> forall j :: !IsEntryOf(keys, log, j, k)
  {
    FindsEntry(keys, log, k);
    assert ValueOf(keys, log, k).Some? ==> IsEntryOf(keys, log, Find(keys, log, keys.Normal(k)), k);
  }

  /** From one log to another, the slot of `k` gets the value and keeps its key, or there is a new slot at the end. */
  ghost predicate EntrySet<K, V>(keys: Keys<K>, before: Log<K, V>, k: K, v: V, after: Log<K, V>) {
    && |before| <= |after|
    && (forall i :: 0 <= i < |before| ==>
        after[i] == if IsEntryOf(keys, before, i, k) then Some((before[i].value.0, v)) else before[i])
    && after[|before|..] ==
      if exists i :: IsEntryOf(keys, before, i, k) then []
      else [Some((if k == keys.negativeZero then keys.zero else k, v))]
  }

  /** From one log to another, exactly the slot of `k` is emptied. */
  ghost predicate EntryRemoved<K, V>(keys: Keys<K>, before: Log<K, V>, k: K, after: Log<K, V>) {
    && |after| == |before|
    && forall i :: 0 <= i < |before| ==> after[i] == if IsEntryOf(keys, before, i, k) then None else before[i]
  }

  lemma PutTells<K, V>(keys: Keys<K>, log: Log<K, V>, k: K, v: V)
    requires keys.Valid() && Distinct(keys, log)
    ensures EntrySet(keys, log, k, v, Put(keys, log, k, v))
  {
    FindsEntry(keys, log, k);
    hide IsEntryOf, Distinct;
  }

  lemma RemoveTells<K, V>(keys: Keys<K>, log: Log<K, V>, k: K)
    requires keys.Valid() && Distinct(keys, log)
    ensures EntryRemoved(keys, log, k, Remove(keys, log, k))
  {
    FindsEntry(keys, log, k);
    hide IsEntryOf, Distinct;
  }

  /** `get` after `set`: the value just set under every key like that one, and under the others what was there. */
  lemma GetAfterPut<K, V>(keys: Keys<K>, log: Log<K, V>, k: K, v: V, k': K)
    requires keys.Valid() && Distinct(keys, log)
    ensures ValueOf(keys, Put(keys, log, k, v), k') == if Alike(keys, k, k') then Some(v) else ValueOf(keys, log, k')
  {
    var after := Put(keys, log, k, v);
    PutTells(keys, log, k, v);
    PutDistinct(keys, log, k, v);
    var i := Find(keys, after, keys.Normal(k'));
    FindsEntry(keys, after, k');
    ValueOfTells(keys, log, k', i);
    if !Alike(keys, k, k') {
      forall j ensures IsEntryOf(keys, log, j, k') <==> IsEntryOf(keys, after, j, k') {
      }
      ValueOfTells(keys, after, k', i);
    } else {
      var j := Find(keys, log, keys.Normal(k));
      FindsEntry(keys, log, k);
      ValueOfTells(keys, after, k', j);
    }
  }

  /** `get` after `remove`: nothing under every key like that one, and under the others what was there. */
  lemma GetAfterRemove<K, V>(keys: Keys<K>, log: Log<K, V>, k: K, k': K)
    requires keys.Valid() && Distinct(keys, log)
    ensures ValueOf(keys, Remove(keys, log, k), k') == if Alike(keys, k, k') then None else ValueOf(keys, log, k')
  {
    var after := Remove(keys, log, k);
    RemoveTells(keys, log, k);
    RemoveDistinct(keys, log, k);
    var i := Find(keys, log, keys.Normal(k'));
    FindsEntry(keys, log, k');
    ValueOfTells(keys, after, k', i);
    forall j ensures IsEntryOf(keys, after, j, k') <==> IsEntryOf(keys, log, j, k') && !Alike(keys, k, k') {
    }
  }

  lemma {:induction false} LiveCountUpdate<K, V>(log: Log<K, V>, i: int, s: Option<(K, V)>)
    requires 0 <= i < |log|
    ensures LiveCount(log[i := s]) == LiveCount(log) + (if s.Some? then 1 else 0) - (if log[i].Some? then 1 else 0)
  {
    var n := |log| - 1;
    if i < n {
      assert log[i := s][..n] == log[..n][i := s];
      LiveCountUpdate(log[..n], i, s);
    } else {
      assert log[i := s][..n] == log[..n];
    }
  }

  lemma {:induction false} LiveCountAllDead<K, V>(log: Log<K, V>)
    requires Dead(log, -1, |log|)
    ensures LiveCount(log) == 0
  {
    if log != [] {
      LiveCountAllDead(log[..|log| - 1]);
    }
  }

  lemma LiveCountAppend<K, V>(log: Log<K, V>, s: (K, V))
    ensures LiveCount(log + [Some(s)]) == LiveCount(log) + 1
  {
    assert (log + [Some(s)])[..|log|] == log;
  }

  // ---------------------------------------------------------------------------------------
  // The association list a caller sees

  /** The live entries in insertion order. */
  ghost function Assoc<K, V>(log: Log<K, V>): (r: seq<(K, V)>)
    ensures |r| == LiveCount(log)
  {
    if log == [] then []
    else Assoc(log[..|log| - 1]) + if log[|log| - 1].Some? then [log[|log| - 1].value] else []
  }

  /** Where `k` is in an association list, or its length. */
  ghost function AssocFind<K, V>(keys: Keys<K>, a: seq<(K, V)>, k: K): (r: nat)
    ensures r <= |a| && (r < |a| ==> keys.Same(a[r].0, k))
    ensures forall i :: 0 <= i < r ==> !keys.Same(a[i].0, k)
  {
    if a == [] then 0
    else
      var r := AssocFind(keys, a[..|a| - 1], k);
      if r < |a| - 1 then r else if keys.Same(a[|a| - 1].0, k) then r else |a|
  }

  lemma {:induction false} AssocAppend<K, V>(a: Log<K, V>, b: Log<K, V>)
    ensures Assoc(a + b) == Assoc(a) + Assoc(b)
  {
    if b == [] {
      assert a + b == a;
    } else {
      assert (a + b)[..|a + b| - 1] == a + b[..|b| - 1];
      AssocAppend(a, b[..|b| - 1]);
    }
  }

  /** A log around one of its slots. */
  lemma AssocAround<K, V>(log: Log<K, V>, i: int, s: Option<(K, V)>)
    requires 0 <= i < |log|
    ensures Assoc(log[i := s]) == Assoc(log[..i]) + (if s.Some? then [s.value] else []) + Assoc(log[i + 1..])
  {
    assert log[i := s] == log[..i] + ([s] + log[i + 1..]);
    AssocAppend(log[..i], [s] + log[i + 1..]);
    AssocAppend([s], log[i + 1..]);
    assert [s][..0] == [];
  }

  lemma {:induction false} AssocMembers<K, V>(log: Log<K, V>, x: (K, V))
    ensures x in Assoc(log) <==> Some(x) in log
  {
    if log != [] {
      var n := |log| - 1;
      AssocMembers(log[..n], x);
      assert log == log[..n] + [log[n]];
    }
  }

  /** A key's place in the association list is after exactly the live entries that precede its slot. */
  lemma AssocFindAt<K, V>(keys: Keys<K>, log: Log<K, V>, k: K)
    requires keys.Valid() && Distinct(keys, log)
    ensures var i := Find(keys, log, k);
            AssocFind(keys, Assoc(log), k) == |Assoc(log[..i])|
  {
    var i := Find(keys, log, k);
    var a, before := Assoc(log), Assoc(log[..i]);
    forall x | 0 <= x < |before| ensures !keys.Same(before[x].0, k) {
      AssocMembers(log[..i], before[x]);
    }
    if i < |log| {
      AssocAround(log, i, log[i]);
      assert log[i := log[i]] == log;
      assert a[|before|] == log[i].value;
    } else {
      assert log[..i] == log;
    }
    assert forall x :: 0 <= x < |before| ==> a[x] == before[x];
  }

  /** No two entries of the list have the same key, and none has the negative zero. */
  lemma {:induction false} AssocDistinct<K, V>(keys: Keys<K>, log: Log<K, V>)
    requires Distinct(keys, log)
    ensures forall x :: 0 <= x < |Assoc(log)| ==> Assoc(log)[x].0 != keys.negativeZero
    ensures forall x, y :: 0 <= x < y < |Assoc(log)| ==> !keys.Same(Assoc(log)[x].0, Assoc(log)[y].0)
  {
    if log != [] {
      var n := |log| - 1;
      var a := Assoc(log[..n]);
      AssocDistinct(keys, log[..n]);
      forall x | 0 <= x < |a| && log[n].Some? ensures !keys.Same(a[x].0, log[n].value.0) {
        AssocMembers(log[..n], a[x]);
      }
    }
  }

  /** A normalised key is found at exactly the entry that has it. */
  lemma AssocFindsEntry<K, V>(keys: Keys<K>, log: Log<K, V>, k: K)
    requires Distinct(keys, log)
    ensures var a := Assoc(log);
            forall r :: 0 <= r < |a| ==> (Alike(keys, a[r].0, k) <==> r == AssocFind(keys, a, keys.Normal(k)))
  {
    AssocDistinct(keys, log);
    var a, f := Assoc(log), AssocFind(keys, Assoc(log), keys.Normal(k));
    forall r | 0 <= r < |a| ensures Alike(keys, a[r].0, k) <==> r == f {
      assert Alike(keys, a[r].0, k) <==> keys.Same(a[r].0, keys.Normal(k));
      assert f < r ==> !keys.Same(a[f].0, a[r].0);
    }
  }

  lemma AssocOne<K, V>(s: (K, V))
    ensures Assoc([Some(s)]) == [s]
  {
    assert [Some(s)][..0] == [];
  }

  lemma ReplaceMiddle<T>(b: seq<T>, x: T, y: T, a: seq<T>)
    ensures (b + [x] + a)[|b| := y] == b + [y] + a && (b + [x] + a)[|b|] == x
  {
  }

  /** `set` updates the value in place, keeping the stored key, or appends. */
  lemma PutIsAssoc<K, V>(keys: Keys<K>, log: Log<K, V>, k: K, v: V)
    requires keys.Valid() && Distinct(keys, log)
    ensures var a, now := Assoc(log), Assoc(Put(keys, log, k, v));
            && (forall r :: 0 <= r < |a| && Alike(keys, a[r].0, k) ==> now == a[r := (a[r].0, v)])
            && ((forall r :: 0 <= r < |a| ==> !Alike(keys, a[r].0, k)) ==>
                now == a + [(if k == keys.negativeZero then keys.zero else k, v)])
  {
    hide Assoc, AssocFind, Distinct, Alike;
    AssocFindsEntry(keys, log, k);
    var n := keys.Normal(k);
    var i := Find(keys, log, n);
    AssocFindAt(keys, log, n);
    if i < |log| {
      AssocAround(log, i, log[i]);
      assert log[i := log[i]] == log;
      var x := (log[i].value.0, v);
      AssocAround(log, i, Some(x));
      ReplaceMiddle(Assoc(log[..i]), log[i].value, x, Assoc(log[i + 1..]));
    } else {
      AssocAppend(log, [Some((n, v))]);
      AssocOne((n, v));
      assert log[..i] == log;
    }
  }

  lemma PutDistinct<K, V>(keys: Keys<K>, log: Log<K, V>, k: K, v: V)
    requires keys.Valid() && Distinct(keys, log)
    ensures Distinct(keys, Put(keys, log, k, v))
  {
  }

  /** `remove` takes the entry out of the list and leaves the order of the others. */
  lemma RemoveIsAssoc<K, V>(keys: Keys<K>, log: Log<K, V>, k: K)
    requires keys.Valid() && Distinct(keys, log)
    ensures var a, now := Assoc(log), Assoc(Remove(keys, log, k));
            && (forall r :: 0 <= r < |a| && Alike(keys, a[r].0, k) ==> now == a[..r] + a[r + 1..])
            && ((forall r :: 0 <= r < |a| ==> !Alike(keys, a[r].0, k)) ==> now == a)
  {
    hide Assoc, AssocFind, Distinct, Alike;
    AssocFindsEntry(keys, log, k);
    var n := keys.Normal(k);
    var i := Find(keys, log, n);
    AssocFindAt(keys, log, n);
    if i < |log| {
      AssocAround(log, i, log[i]);
      assert log[i := log[i]] == log;
      AssocAround(log, i, None);
    } else {
      assert log[..i] == log;
    }
  }

  lemma RemoveDistinct<K, V>(keys: Keys<K>, log: Log<K, V>, k: K)
    requires keys.Valid() && Distinct(keys, log)
    ensures Distinct(keys, Remove(keys, log, k))
  {
  }

  /** A removed key is no longer found. */
  lemma RemoveForgets<K, V>(keys: Keys<K>, log: Log<K, V>, k: K)
    requires keys.Valid() && Distinct(keys, log)
    ensures Find(keys, Remove(keys, log, k), keys.Normal(k)) == |log|
  {
    var n := keys.Normal(k);
    var i := Find(keys, log, n);
    forall x | 0 <= x < |log| && x != i && log[x].Some? ensures !keys.Same(log[x].value.0, n) {
      if keys.Same(log[x].value.0, n) {
        FindUnique(keys, log, n, x);
      }
    }
  }

  lemma {:induction false} ClearIsAssoc<K, V>(log: Log<K, V>)
    ensures Assoc(Clear(log)) == []
  {
    LiveCountAllDead(Clear(log));
  }

  // ---------------------------------------------------------------------------------------
  // Runs: any interleaving of map operations with the steps of one iterator

  datatype Op<K, V> = SetOp(k: K, v: V) | RemoveOp(k: K) | ClearOp | NextOp

  /** A map, and an iterator over it with the slots it has yielded so far. */
  datatype State<K, V> = State(log: Log<K, V>, pos: int, open: bool, yielded: seq<int>)

  ghost function Step<K, V>(keys: Keys<K>, s: State<K, V>, op: Op<K, V>): State<K, V>
    requires -1 <= s.pos < |s.log|
  {
    match op
    case SetOp(k, v) => s.(log := Put(keys, s.log, k, v))
    case RemoveOp(k) => s.(log := Remove(keys, s.log, k))
    case ClearOp => s.(log := Clear(s.log))
    case NextOp =>
      if !s.open then s
      else
        var j := NextLive(s.log, s.pos);
        if j < |s.log| then s.(pos := j, yielded := s.yielded + [j]) else s.(open := false, pos := -1)
  }

  /** A map that has entries in any state, and a fresh iterator. */
  ghost predicate Initial<K, V>(keys: Keys<K>, s: State<K, V>) {
    Distinct(keys, s.log) && s.pos == -1 && s.open && s.yielded == []
  }

  /** What every step keeps: the iterator has yielded, in ascending order, every live slot up to its position. */
  ghost predicate IteratorOk<K, V>(keys: Keys<K>, s: State<K, V>) {
    && Distinct(keys, s.log)
    && -1 <= s.pos < |s.log|
    && (forall i :: 0 <= i < |s.yielded| ==> 0 <= s.yielded[i] < |s.log|)
    && (forall i, j :: 0 <= i < j < |s.yielded| ==> s.yielded[i] < s.yielded[j])
    && (s.open ==> forall i :: 0 <= i < |s.yielded| ==> s.yielded[i] <= s.pos)
    && (s.open ==> forall i :: 0 <= i <= s.pos && s.log[i].Some? ==> i in s.yielded)
  }

  lemma InitialOk<K, V>(keys: Keys<K>, s: State<K, V>)
    requires Initial(keys, s) 
    ensures IteratorOk(keys, s)
  {
  }

  lemma NextOk<K, V>(keys: Keys<K>, s: State<K, V>)
    requires keys.Valid() && IteratorOk(keys, s)
    ensures IteratorOk(keys, Step(keys, s, NextOp))
    ensures Grown(s, Step(keys, s, NextOp))
  {
    if s.open {
      var j := NextLive(s.log, s.pos);
      if j < |s.log| {
        var y := s.yielded + [j];
        forall i | 0 <= i <= j && s.log[i].Some? ensures i in y {
          if i == j { assert y[|s.yielded|] == j; } else if i <= s.pos { assert i in s.yielded; }
        }
      }
    }
  }

  lemma StepOk<K, V>(keys: Keys<K>, s: State<K, V>, op: Op<K, V>)
    requires keys.Valid() && IteratorOk(keys, s)
    ensures IteratorOk(keys, Step(keys, s, op))
    ensures Grown(s, Step(keys, s, op))
  {
    match op
    case SetOp(k, v) => PutDistinct(keys, s.log, k, v);
    case RemoveOp(k) => RemoveDistinct(keys, s.log, k);
    case ClearOp =>
    case NextOp => NextOk(keys, s);
  }

  ghost function Run<K, V>(keys: Keys<K>, s: State<K, V>, ops: seq<Op<K, V>>): (t: State<K, V>)
    requires keys.Valid() && IteratorOk(keys, s)
    ensures IteratorOk(keys, t) && Grown(s, t)
    decreases ops
  {
    if ops == [] then s
    else
      StepOk(keys, s, ops[0]);
      Run(keys, Step(keys, s, ops[0]), ops[1..])
  }

  /**
   From one state to a later one: slots stay where they are, an empty one stays empty, and nothing
   yielded is forgotten.
   */
  ghost predicate Grown<K, V>(s: State<K, V>, t: State<K, V>) {
    && |s.log| <= |t.log|
    && s.yielded <= t.yielded
    && (!s.open ==> !t.open && t.yielded == s.yielded)
    && (forall i :: 0 <= i < |s.log| && s.log[i].None? ==> t.log[i].None?)
    && (forall i :: 0 <= i < |s.log| && t.log[i].Some? ==> s.log[i].Some? && t.log[i].value.0 == s.log[i].value.0)
  }

  lemma {:induction false} RunConcat<K, V>(keys: Keys<K>, s: State<K, V>, a: seq<Op<K, V>>, b: seq<Op<K, V>>)
    requires keys.Valid() && IteratorOk(keys, s)
    ensures Run(keys, s, a + b) == Run(keys, Run(keys, s, a), b)
    decreases a
  {
    if a == [] {
      assert a + b == b;
    } else {
      StepOk(keys, s, a[0]);
      assert (a + b)[1..] == a[1..] + b;
      RunConcat(keys, Step(keys, s, a[0]), a[1..], b);
    }
  }

  /**
   Over every run from a fresh iterator: when a step yields, the entry it yields is live at that
   moment and lies after everything yielded before, so none is yielded twice and all come in
   insertion order; when a step ends the iteration, every entry then live has been yielded.
   */
  lemma IterationIsSound<K, V>(keys: Keys<K>, s0: State<K, V>, ops: seq<Op<K, V>>)
    requires keys.Valid() && Initial(keys, s0)
    ensures IteratorOk(keys, s0)
    ensures var s, t := Run(keys, s0, ops), Run(keys, s0, ops + [NextOp]);
            && (s.open && t.open ==>
                 && |t.yielded| == |s.yielded| + 1 && t.yielded[..|s.yielded|] == s.yielded
                 && t.log == s.log && t.log[t.yielded[|s.yielded|]].Some?
                 && forall i :: 0 <= i < |s.yielded| ==> s.yielded[i] < t.yielded[|s.yielded|])
            && (s.open && !t.open ==> forall i :: 0 <= i < |t.log| && t.log[i].Some? ==> i in t.yielded)
            && (!s.open ==> t == s)
  {
    InitialOk(keys, s0);
    RunConcat(keys, s0, ops, [NextOp]);
    var s := Run(keys, s0, ops);
    StepOk(keys, s, NextOp);
    var last: seq<Op<K, V>> := [NextOp];
    assert last[1..] == [];
    assert Run(keys, s, last) == Step(keys, s, NextOp);
  }

  /** An entry that is in the map when the iteration starts and is never removed has been yielded once it ends. */
  lemma SurvivorsAreYielded<K, V>(keys: Keys<K>, s0: State<K, V>, ops: seq<Op<K, V>>, more: seq<Op<K, V>>, i: int)
    requires keys.Valid() && Initial(keys, s0) && IteratorOk(keys, s0)
    requires Run(keys, s0, ops).open && !Run(keys, s0, ops + [NextOp]).open
    requires 0 <= i < |Run(keys, s0, ops + [NextOp]).log| <= |Run(keys, s0, ops + [NextOp] + more).log|
    requires Run(keys, s0, ops + [NextOp] + more).log[i].Some?
    ensures i in Run(keys, s0, ops + [NextOp] + more).yielded
  {
    IterationIsSound(keys, s0, ops);
    RunConcat(keys, s0, ops + [NextOp], more);
    assert Grown(Run(keys, s0, ops + [NextOp]), Run(keys, s0, ops + [NextOp] + more));
  }
}
