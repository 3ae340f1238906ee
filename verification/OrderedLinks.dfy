/**
 The links of the insertion-ordered map, on slot numbers.

 A slot number stands for the entry in that slot and -1 for the null pointer.  The operations
 below change the numbers the way the map's methods change the pointers; the lemmas say that
 the list still runs through the live slots in order, that an empty slot still leads back past
 empty slots only, and that the hash chains still hold exactly the live slots.
 */
module OrderedLinks {
  import opened Options
  import opened OrderedLog

  /** The insertion-order list: `iterPrev` and `iterNext` of every slot, `iterFirst` and `iterLast`. */
  datatype ListLinks = ListLinks(prev: seq<int>, next: seq<int>, first: int, last: int)

  /** The hash table: `hNext` of every slot, the head of each chain, and the chain it heads. */
  datatype HashLinks = HashLinks(hNext: seq<int>, table: map<int, int>, chains: map<int, seq<int>>)

  ghost predicate Bounded(s: seq<int>, n: nat) {
    |s| == n && forall i :: 0 <= i < |s| ==> -1 <= s[i] < n
  }

  // ---------------------------------------------------------------------------------------
  // What the numbers mean

  /** `n` is the first live slot after `i`, or -1. */
  ghost predicate Succ<K, V>(log: Log<K, V>, i: int, n: int) {
    if n == -1 then Dead(log, i, |log|) else 0 <= n < |log| && i < n && log[n].Some? && Dead(log, i, n)
  }

  /** `p` is a slot before `i`, or -1, with nothing live in between. */
  ghost predicate Back<K, V>(log: Log<K, V>, i: int, p: int) {
    -1 <= p < i && Dead(log, p, i)
  }

  ghost predicate ListOk<K, V>(log: Log<K, V>, g: ListLinks) {
    && Bounded(g.prev, |log|) && Bounded(g.next, |log|)
    && (forall i :: 0 <= i < |log| ==> Back(log, i, g.prev[i]))
    && (forall i :: 0 <= i < |log| && log[i].Some? && g.prev[i] >= 0 ==> log[g.prev[i]].Some?)
    && (forall i :: 0 <= i < |log| && log[i].Some? ==> Succ(log, i, g.next[i]))
    && Succ(log, -1, g.first)
    && Back(log, |log|, g.last) && (g.last >= 0 ==> log[g.last].Some?)
  }

  /** Slot `i` is live and its key hashes to `h`. */
  ghost predicate InSlot<K, V>(keys: Keys<K>, log: Log<K, V>, h: int, i: int) {
    0 <= i < |log| && log[i].Some? && keys.Hash(log[i].value.0) == h
  }

  /** The link out of the chain's element `c` leads to the element after it, or nowhere at the end. */
  ghost predicate Follows(hNext: seq<int>, chain: seq<int>, c: int)
    requires 0 <= c < |chain|
  {
    0 <= chain[c] < |hNext| && hNext[chain[c]] == if c + 1 < |chain| then chain[c + 1] else -1
  }

  /** A chain holds distinct live slots of one hash, each linked to the one after it. */
  ghost predicate ChainOk<K, V>(keys: Keys<K>, log: Log<K, V>, g: HashLinks, h: int, chain: seq<int>) {
    && |chain| > 0
    && (forall c :: 0 <= c < |chain| ==> InSlot(keys, log, h, chain[c]))
    && (forall c, d :: 0 <= c < d < |chain| ==> chain[c] != chain[d])
    && h in g.table && g.table[h] == chain[0]
    && (forall c :: 0 <= c < |chain| ==> Follows(g.hNext, chain, c))
  }

  /** The chains hold exactly the live slots, each under its own hash. */
  ghost predicate ChainsOk<K, V>(keys: Keys<K>, log: Log<K, V>, g: HashLinks) {
    && Bounded(g.hNext, |log|)
    && g.table.Keys == g.chains.Keys
    && (forall h :: h in g.chains ==> ChainOk(keys, log, g, h, g.chains[h]))
    && (forall h, i :: InSlot(keys, log, h, i) ==> h in g.chains && i in g.chains[h])
  }

  lemma SuccIsNextLive<K, V>(log: Log<K, V>, i: int, n: int)
    requires -1 <= i < |log| && Succ(log, i, n)
    ensures NextLive(log, i) == if n == -1 then |log| else n
  {
    NextLiveUnique(log, i, if n == -1 then |log| else n);
  }

  // ---------------------------------------------------------------------------------------
  // insert

  /** The new slot `n` is linked in at the end of the list. */
  ghost function LinkIn(g: ListLinks, n: int): ListLinks
    requires g.last < |g.next|
  {
    ListLinks(g.prev + [g.last],
              (if g.last >= 0 then g.next[g.last := n] else g.next) + [-1],
              if g.last >= 0 then g.first else n,
              n)
  }

  lemma LinkInOk<K, V>(log: Log<K, V>, g: ListLinks, s: (K, V))
    requires ListOk(log, g)
    ensures ListOk(log + [Some(s)], LinkIn(g, |log|))
  {
    var g', log', n := LinkIn(g, |log|), log + [Some(s)], |log|;
    forall i | 0 <= i < |log'| ensures Back(log', i, g'.prev[i]) {
      if i < n { assert Back(log, i, g.prev[i]); }
    }
    forall i | 0 <= i < |log'| && log'[i].Some? ensures Succ(log', i, g'.next[i]) {
      if i < n { assert Succ(log, i, g.next[i]); }
    }
  }

  /** The last slot of the chain for `h`, or -1 when there is none. */
  ghost function ChainEnd(g: HashLinks, h: int): int {
    if h in g.chains && |g.chains[h]| > 0 then g.chains[h][|g.chains[h]| - 1] else -1
  }

  /** The new slot `n` is added at the end of the chain for `h`. */
  ghost function ChainIn(g: HashLinks, h: int, n: int): HashLinks
    requires ChainEnd(g, h) < |g.hNext|
  {
    if ChainEnd(g, h) >= 0 then
      HashLinks(g.hNext[ChainEnd(g, h) := n] + [-1], g.table, g.chains[h := g.chains[h] + [n]])
    else
      HashLinks(g.hNext + [-1], g.table[h := n], g.chains[h := [n]])
  }

  lemma EndOfChain<K, V>(keys: Keys<K>, log: Log<K, V>, g: HashLinks, h: int)
    requires ChainsOk(keys, log, g)
    ensures -1 <= ChainEnd(g, h) < |log| && (ChainEnd(g, h) >= 0 <==> h in g.chains)
    ensures h in g.chains ==> InSlot(keys, log, h, ChainEnd(g, h))
  {
    if h in g.chains {
      assert ChainOk(keys, log, g, h, g.chains[h]);
      assert InSlot(keys, log, h, g.chains[h][|g.chains[h]| - 1]);
    }
  }

  lemma ChainGrows<K, V>(keys: Keys<K>, log: Log<K, V>, g: HashLinks, s: (K, V))
    requires ChainsOk(keys, log, g) && keys.Hash(s.0) in g.chains && 0 <= ChainEnd(g, keys.Hash(s.0)) < |log|
    ensures var h := keys.Hash(s.0); ChainOk(keys, log + [Some(s)], ChainIn(g, h, |log|), h, g.chains[h] + [|log|])
  {
    var h := keys.Hash(s.0);
    var chain, g', log' := g.chains[h], ChainIn(g, h, |log|), log + [Some(s)];
    assert ChainOk(keys, log, g, h, chain);
    var longer := chain + [|log|];
    forall c | 0 <= c < |longer| ensures InSlot(keys, log', h, longer[c]) && Follows(g'.hNext, longer, c) {
      if c < |chain| { assert InSlot(keys, log, h, chain[c]) && Follows(g.hNext, chain, c); }
    }
  }

  lemma ChainBesideInsert<K, V>(keys: Keys<K>, log: Log<K, V>, g: HashLinks, s: (K, V), f: int)
    requires ChainsOk(keys, log, g) && f in g.chains && f != keys.Hash(s.0) && ChainEnd(g, keys.Hash(s.0)) < |log|
    ensures ChainOk(keys, log + [Some(s)], ChainIn(g, keys.Hash(s.0), |log|), f, g.chains[f])
  {
    var h := keys.Hash(s.0);
    var chain, g', log' := g.chains[f], ChainIn(g, h, |log|), log + [Some(s)];
    EndOfChain(keys, log, g, h);
    assert ChainOk(keys, log, g, f, chain);
    forall c | 0 <= c < |chain| ensures InSlot(keys, log', f, chain[c]) && Follows(g'.hNext, chain, c) {
      assert InSlot(keys, log, f, chain[c]) && Follows(g.hNext, chain, c);
    }
  }

  lemma ChainInOk<K, V>(keys: Keys<K>, log: Log<K, V>, g: HashLinks, s: (K, V))
    requires ChainsOk(keys, log, g)
    ensures ChainEnd(g, keys.Hash(s.0)) < |log|
    ensures ChainsOk(keys, log + [Some(s)], ChainIn(g, keys.Hash(s.0), |log|))
  {
    var h := keys.Hash(s.0);
    EndOfChain(keys, log, g, h);
    var g', log', n := ChainIn(g, h, |log|), log + [Some(s)], |log|;
    forall f | f in g'.chains ensures ChainOk(keys, log', g', f, g'.chains[f]) {
      if f in g.chains {
        assert ChainOk(keys, log, g, f, g.chains[f]);
        if f == h { ChainGrows(keys, log, g, s); } else { ChainBesideInsert(keys, log, g, s, f); }
      }
    }
    forall f, i | InSlot(keys, log', f, i) ensures f in g'.chains && i in g'.chains[f] {
      if i == n { assert g'.chains[h][|g'.chains[h]| - 1] == n; } else { assert InSlot(keys, log, f, i); }
    }
  }

  // ---------------------------------------------------------------------------------------
  // remove

  ghost function Unlink(g: ListLinks, i: int): ListLinks
    requires Bounded(g.prev, |g.next|) && Bounded(g.next, |g.next|) && 0 <= i < |g.next|
  {
    var p, n := g.prev[i], g.next[i];
    ListLinks(if n >= 0 then g.prev[n := p] else g.prev,
              if p >= 0 then g.next[p := n] else g.next,
              if p >= 0 then g.first else n,
              if n >= 0 then g.last else p)
  }

  /** Emptying slot `i` does not disturb a successor other than `i`, and extends one that was `i`. */
  lemma SuccAfterRemove<K, V>(log: Log<K, V>, i: int, n: int, j: int, m: int)
    requires 0 <= i < |log| && log[i].Some? && Succ(log, i, n) && -1 <= j < |log| && j != i && Succ(log, j, m)
    ensures Succ(log[i := None], j, if m == i then n else m)
  {
  }

  /** The live slot, or -1, whose successor is `i` is the one `i` leads back to. */
  lemma Neighbours<K, V>(log: Log<K, V>, i: int, p: int, j: int)
    requires 0 <= i < |log| && Back(log, i, p) && (p >= 0 ==> log[p].Some?) && log[i].Some?
    requires -1 <= j < |log| && (j >= 0 ==> log[j].Some?)
    ensures Succ(log, j, i) <==> j == p
  {
  }

  lemma UnlinkBack<K, V>(log: Log<K, V>, g: ListLinks, i: int)
    requires ListOk(log, g) && 0 <= i < |log| && log[i].Some?
    ensures forall j :: 0 <= j < |log| ==> Back(log[i := None], j, Unlink(g, i).prev[j])
  {
    assert Back(log, i, g.prev[i]) && Succ(log, i, g.next[i]);
    forall j | 0 <= j < |log| ensures Back(log[i := None], j, Unlink(g, i).prev[j]) {
      assert Back(log, j, g.prev[j]);
    }
  }

  lemma UnlinkSucc<K, V>(log: Log<K, V>, g: ListLinks, i: int)
    requires ListOk(log, g) && 0 <= i < |log| && log[i].Some?
    ensures forall j :: 0 <= j < |log| && log[i := None][j].Some? ==> Succ(log[i := None], j, Unlink(g, i).next[j])
  {
    var p, n := g.prev[i], g.next[i];
    assert Back(log, i, p) && Succ(log, i, n);
    forall j | 0 <= j < |log| && log[i := None][j].Some? ensures Succ(log[i := None], j, Unlink(g, i).next[j]) {
      assert Succ(log, j, g.next[j]);
      SuccAfterRemove(log, i, n, j, g.next[j]);
      Neighbours(log, i, p, j);
    }
  }

  lemma UnlinkOk<K, V>(log: Log<K, V>, g: ListLinks, i: int)
    requires ListOk(log, g) && 0 <= i < |log| && log[i].Some?
    ensures ListOk(log[i := None], Unlink(g, i))
  {
    var g', log' := Unlink(g, i), log[i := None];
    var p, n := g.prev[i], g.next[i];
    assert Back(log, i, p) && Succ(log, i, n);
    UnlinkBack(log, g, i);
    UnlinkSucc(log, g, i);
    SuccAfterRemove(log, i, n, -1, g.first);
    Neighbours(log, i, p, -1);
    UnlinkBackLive(log, g, i);
    hide Succ, Back;
  }

  lemma UnlinkBackLive<K, V>(log: Log<K, V>, g: ListLinks, i: int)
    requires ListOk(log, g) && 0 <= i < |log| && log[i].Some?
    ensures var g', log' := Unlink(g, i), log[i := None];
            && (forall j :: 0 <= j < |log'| && log'[j].Some? && 0 <= g'.prev[j] < |log'| ==> log'[g'.prev[j]].Some?)
            && Back(log', |log'|, g'.last) && (g'.last >= 0 ==> log'[g'.last].Some?)
  {
    var g', log' := Unlink(g, i), log[i := None];
    var n := g.next[i];
    assert Back(log, i, g.prev[i]) && Succ(log, i, n);
    forall j | 0 <= j < |log'| && log'[j].Some? && 0 <= g'.prev[j] < |log'| ensures log'[g'.prev[j]].Some? {
      assert Back(log, j, g.prev[j]);
      if g.prev[j] == i {
        assert Succ(log, i, j);
        assert j == n;
      }
    }
    if g.last == i { assert Dead(log, i, |log|); assert n == -1; }
  }

  /** Position in a chain after the element at `c` has been taken out. */
  ghost function Skip(c: int, d: int): int {
    if d < c then d else d + 1
  }

  ghost function Without(chain: seq<int>, c: int): (r: seq<int>)
    requires 0 <= c < |chain|
    ensures |r| == |chain| - 1 && forall d :: 0 <= d < |r| ==> r[d] == chain[Skip(c, d)]
  {
    chain[..c] + chain[c + 1..]
  }

  /** Element `c` of the chain for `h` is taken out. */
  ghost function Unchain(g: HashLinks, h: int, c: int): HashLinks
    requires h in g.chains && 0 <= c < |g.chains[h]|
    requires 0 <= g.chains[h][c] < |g.hNext| && (c > 0 ==> 0 <= g.chains[h][c - 1] < |g.hNext|)
  {
    var chain := g.chains[h];
    HashLinks(if c > 0 then g.hNext[chain[c - 1] := g.hNext[chain[c]]] else g.hNext,
              if c > 0 then g.table else if |chain| == 1 then g.table - {h} else g.table[h := chain[1]],
              if |chain| == 1 then g.chains - {h} else g.chains[h := Without(chain, c)])
  }

  ghost predicate CanUnchain<K, V>(keys: Keys<K>, log: Log<K, V>, g: HashLinks, h: int, c: int) {
    && ChainsOk(keys, log, g) && h in g.chains && 0 <= c < |g.chains[h]|
    && 0 <= g.chains[h][c] < |log| && (c > 0 ==> 0 <= g.chains[h][c - 1] < |log|)
  }

  lemma ChainShrinks<K, V>(keys: Keys<K>, log: Log<K, V>, g: HashLinks, h: int, c: int)
    requires CanUnchain(keys, log, g, h, c) && |g.chains[h]| > 1
    ensures ChainOk(keys, log[g.chains[h][c] := None], Unchain(g, h, c), h, Without(g.chains[h], c))
  {
    var chain := g.chains[h];
    var g', log', rest := Unchain(g, h, c), log[chain[c] := None], Without(chain, c);
    assert ChainOk(keys, log, g, h, chain);
    forall d | 0 <= d < |rest| ensures InSlot(keys, log', h, rest[d]) {
      assert InSlot(keys, log, h, chain[Skip(c, d)]);
    }
    forall d | 0 <= d < |rest| ensures Follows(g'.hNext, rest, d) {
      assert InSlot(keys, log, h, chain[Skip(c, d)]);
      assert Follows(g.hNext, chain, Skip(c, d)) && Follows(g.hNext, chain, c);
    }
  }

  lemma ChainBesideRemove<K, V>(keys: Keys<K>, log: Log<K, V>, g: HashLinks, h: int, c: int, f: int)
    requires CanUnchain(keys, log, g, h, c) && f in g.chains && f != h
    ensures ChainOk(keys, log[g.chains[h][c] := None], Unchain(g, h, c), f, g.chains[f])
  {
    var g', log' := Unchain(g, h, c), log[g.chains[h][c] := None];
    assert ChainOk(keys, log, g, h, g.chains[h]) && ChainOk(keys, log, g, f, g.chains[f]);
    assert InSlot(keys, log, h, g.chains[h][c]);
    if c > 0 { assert InSlot(keys, log, h, g.chains[h][c - 1]); }
    forall d | 0 <= d < |g.chains[f]|
      ensures InSlot(keys, log', f, g.chains[f][d]) && Follows(g'.hNext, g.chains[f], d)
    {
      assert InSlot(keys, log, f, g.chains[f][d]) && Follows(g.hNext, g.chains[f], d);
    }
  }

  lemma UnchainSlots<K, V>(keys: Keys<K>, log: Log<K, V>, g: HashLinks, h: int, c: int, f: int, i: int)
    requires CanUnchain(keys, log, g, h, c)
    requires InSlot(keys, log[g.chains[h][c] := None], f, i)
    ensures f in Unchain(g, h, c).chains && i in Unchain(g, h, c).chains[f]
  {
    var chain := g.chains[h];
    assert InSlot(keys, log, f, i) && i != chain[c];
    if f == h { StaysIn(chain, c, i); }
  }

  lemma UnchainOk<K, V>(keys: Keys<K>, log: Log<K, V>, g: HashLinks, h: int, c: int)
    requires CanUnchain(keys, log, g, h, c)
    ensures ChainsOk(keys, log[g.chains[h][c] := None], Unchain(g, h, c))
  {
    var g', log' := Unchain(g, h, c), log[g.chains[h][c] := None];
    assert ChainOk(keys, log, g, h, g.chains[h]);
    forall f | f in g'.chains ensures ChainOk(keys, log', g', f, g'.chains[f]) {
      if f == h { ChainShrinks(keys, log, g, h, c); } else { ChainBesideRemove(keys, log, g, h, c, f); }
    }
    forall f, i | InSlot(keys, log', f, i) ensures f in g'.chains && i in g'.chains[f] {
      UnchainSlots(keys, log, g, h, c, f, i);
    }
  }

  lemma StaysIn(chain: seq<int>, c: int, j: int)
    requires 0 <= c < |chain| && j in chain && j != chain[c]
    ensures |chain| > 1 && j in Without(chain, c)
  {
    var d :| 0 <= d < |chain| && chain[d] == j;
    assert Without(chain, c)[if d < c then d else d - 1] == j;
  }

  // ---------------------------------------------------------------------------------------
  // a new value in a live slot, and clear

  lemma RevalueListOk<K, V>(log: Log<K, V>, g: ListLinks, i: int, s: (K, V))
    requires ListOk(log, g) && 0 <= i < |log| && log[i].Some?
    ensures ListOk(log[i := Some(s)], g)
  {
    var l := log[i := Some(s)];
    forall a, b | Dead(log, a, b) ensures Dead(l, a, b) { }
    forall j | 0 <= j < |log| ensures Back(l, j, g.prev[j]) {
      assert Back(log, j, g.prev[j]);
    }
    forall j | 0 <= j < |log| && l[j].Some? ensures Succ(l, j, g.next[j]) {
      assert Succ(log, j, g.next[j]);
    }
  }

  lemma RevalueChainsOk<K, V>(keys: Keys<K>, log: Log<K, V>, g: HashLinks, i: int, s: (K, V))
    requires ChainsOk(keys, log, g) && 0 <= i < |log| && log[i].Some? && s.0 == log[i].value.0
    ensures ChainsOk(keys, log[i := Some(s)], g)
  {
    var l := log[i := Some(s)];
    forall h, j ensures InSlot(keys, l, h, j) <==> InSlot(keys, log, h, j) { }
    forall h | h in g.chains ensures ChainOk(keys, l, g, h, g.chains[h]) {
      assert ChainOk(keys, log, g, h, g.chains[h]);
    }
  }

  lemma ClearedListOk<K, V>(log: Log<K, V>, g: ListLinks, next: seq<int>)
    requires ListOk(log, g) && Bounded(next, |log|)
    ensures ListOk(Clear(log), ListLinks(g.prev, next, -1, -1))
  {
    var l := Clear(log);
    forall i | 0 <= i < |l| ensures Back(l, i, g.prev[i]) {
      assert Back(log, i, g.prev[i]);
    }
  }

  lemma ClearedChainsOk<K, V>(keys: Keys<K>, log: Log<K, V>, g: HashLinks)
    requires Bounded(g.hNext, |log|)
    ensures ChainsOk(keys, Clear(log), HashLinks(g.hNext, map[], map[]))
  {
    forall h, i ensures !InSlot(keys, Clear(log), h, i) { }
  }
}
