/**
 Linking of module graphs, which may be cyclic: the depth-first walk of `innerModuleLinking`.

 The walk keeps a stack of modules being linked, with the index at which each was entered and a
 second, "ancestor" index meant to find cycles.  As written, the ancestor index of a module is
 never lowered, so each module leaves the stack on its own when it has been processed.
 */
module ModuleLinking {

  /**
   A cyclic module with the modules it requests (-1 where the host cannot resolve a request) and
   whether its environment can be initialised; or a module of another kind and whether its own
   `Link` succeeds.
   */
  datatype Module = Cyclic(requests: seq<int>, initialises: bool) | Other(links: bool)

  type Graph = seq<Module>

  predicate WellFormed(g: Graph) {
    forall m, i :: 0 <= m < |g| && g[m].Cyclic? && 0 <= i < |g[m].requests| ==> -1 <= g[m].requests[i] < |g|
  }

  // ---------------------------------------------------------------------------------------
  // The walk: which modules it enters, and in which order it leaves them

  /** The modules entered so far and those left, in order; or an error. */
  datatype Walk = Walk(seen: set<nat>, order: seq<nat>) | Failed

  ghost function All(g: Graph): (r: set<nat>)
    ensures forall m :: m in r <==> 0 <= m < |g|
    ensures |r| == |g|
  {
    Numbers(|g|)
  }

  ghost function Numbers(n: nat): (r: set<nat>)
    ensures forall m :: m in r <==> 0 <= m < n
    ensures |r| == n
  {
    if n == 0 then {} else Numbers(n - 1) + {n - 1}
  }

  /** How many modules have not been entered. */
  ghost function Left(g: Graph, seen: set<nat>): nat {
    |All(g) - seen|
  }

  ghost function Visit(g: Graph, m: nat, seen: set<nat>): (w: Walk)
    requires WellFormed(g) && m < |g| && seen <= All(g)
    ensures w.Walk? ==> seen <= w.seen <= All(g)
    decreases Left(g, seen), 1, 0
  {
    match g[m]
    case Other(links) => if links then Walk(seen, []) else Failed
    case Cyclic(requests, initialises) =>
      if m in seen then Walk(seen, [])
      else
        Shrinks(g, seen, m);
        var w := VisitAll(g, requests, seen + {m});
        if w.Failed? || !initialises then Failed else Walk(w.seen, w.order + [m])
  }

  ghost function VisitAll(g: Graph, ms: seq<int>, seen: set<nat>): (w: Walk)
    requires WellFormed(g) && seen <= All(g) && forall i :: 0 <= i < |ms| ==> -1 <= ms[i] < |g|
    ensures w.Walk? ==> seen <= w.seen <= All(g)
    decreases Left(g, seen), 2, |ms|
  {
    if ms == [] then Walk(seen, [])
    else
      var n := |ms| - 1;
      var w := VisitAll(g, ms[..n], seen);
      if w.Failed? || ms[n] < 0 then Failed
      else
        Subset(g, seen, w.seen);
        var x := Visit(g, ms[n], w.seen);
        if x.Failed? then Failed else Walk(x.seen, w.order + x.order)
  }

  lemma Shrinks(g: Graph, seen: set<nat>, m: nat)
    requires m < |g| && m !in seen
    ensures Left(g, seen + {m}) < Left(g, seen)
  {
    assert All(g) - seen == (All(g) - (seen + {m})) + {m};
  }

  lemma Subset(g: Graph, a: set<nat>, b: set<nat>)
    requires a <= b
    ensures Left(g, b) <= Left(g, a)
  {
    assert All(g) - a == (All(g) - b) + (All(g) * b - a);
  }

  // ---------------------------------------------------------------------------------------
  // What the walk amounts to

  predicate Requests(g: Graph, a: nat, b: nat) {
    a < |g| && g[a].Cyclic? && b in g[a].requests
  }

  /** A path along requests through cyclic modules. */
  ghost predicate Path(g: Graph, path: seq<nat>) {
    && |path| > 0
    && (forall i :: 0 <= i < |path| ==> path[i] < |g| && g[path[i]].Cyclic?)
    && (forall i :: 0 <= i < |path| - 1 ==> Requests(g, path[i], path[i + 1]))
  }

  ghost predicate Reachable(g: Graph, a: nat, b: nat) {
    exists path :: Path(g, path) && path[0] == a && path[|path| - 1] == b
  }

  /** Everything a module in `s` but not in `open` requests, if cyclic, is in `s`. */
  ghost predicate ClosedBut(g: Graph, s: set<nat>, open: set<nat>) {
    forall a: nat, b: nat :: a in s && a !in open && Requests(g, a, b) && b < |g| && g[b].Cyclic? ==> b in s
  }

  ghost predicate NoRepeats(s: seq<nat>) {
    forall i, j :: 0 <= i < j < |s| ==> s[i] != s[j]
  }

  ghost function SetOf(s: seq<nat>): set<nat> {
    set x | x in s
  }

  /** The order lists each module newly entered, once, and they are cyclic. */
  ghost predicate Entered(g: Graph, seen: set<nat>, w: Walk)
    requires w.Walk?
  {
    && w.seen == seen + SetOf(w.order) && NoRepeats(w.order)
    && (forall x :: x in w.order ==> x !in seen && x < |g| && g[x].Cyclic?)
  }

  lemma EnteredConcat(g: Graph, seen: set<nat>, w: Walk, x: Walk)
    requires w.Walk? && x.Walk? && Entered(g, seen, w) && Entered(g, w.seen, x)
    ensures Entered(g, seen, Walk(x.seen, w.order + x.order))
  {
    var o := w.order + x.order;
    forall i, j | 0 <= i < j < |o| ensures o[i] != o[j] {
      if i < |w.order| <= j {
        assert o[i] in w.order && o[j] in x.order;
      }
    }
    assert SetOf(o) == SetOf(w.order) + SetOf(x.order);
  }

  lemma {:induction false} VisitEnters(g: Graph, m: nat, seen: set<nat>)
    requires WellFormed(g) && m < |g| && seen <= All(g) && Visit(g, m, seen).Walk?
    ensures Entered(g, seen, Visit(g, m, seen))
    ensures g[m].Cyclic? ==> m in Visit(g, m, seen).seen
    decreases Left(g, seen), 1, 0
  {
    hide VisitAll, Entered;
    NothingEntered(g, seen);
    if g[m].Cyclic? && m !in seen {
      Shrinks(g, seen, m);
      VisitAllEnters(g, g[m].requests, seen + {m});
      LeaveLast(g, seen, m, VisitAll(g, g[m].requests, seen + {m}));
    }
  }

  lemma NothingEntered(g: Graph, seen: set<nat>)
    ensures Entered(g, seen, Walk(seen, []))
  {
    assert SetOf([]) == {};
  }

  /** The module itself is left after all it requests. */
  lemma LeaveLast(g: Graph, seen: set<nat>, m: nat, w: Walk)
    requires m < |g| && g[m].Cyclic? && m !in seen && w.Walk? && Entered(g, seen + {m}, w)
    ensures Entered(g, seen, Walk(w.seen, w.order + [m])) && m in w.seen
  {
    var o := w.order + [m];
    assert SetOf(o) == SetOf(w.order) + {m};
    forall i, j | 0 <= i < j < |o| ensures o[i] != o[j] {
      if j == |w.order| { assert o[i] in w.order; }
    }
  }

  lemma {:induction false} VisitAllEnters(g: Graph, ms: seq<int>, seen: set<nat>)
    requires WellFormed(g) && seen <= All(g) && (forall i :: 0 <= i < |ms| ==> -1 <= ms[i] < |g|)
    requires VisitAll(g, ms, seen).Walk?
    ensures Entered(g, seen, VisitAll(g, ms, seen))
    ensures forall i :: 0 <= i < |ms| ==> 0 <= ms[i] < |g| && (g[ms[i]].Cyclic? ==> ms[i] in VisitAll(g, ms, seen).seen)
    decreases Left(g, seen), 2, |ms|
  {
    hide Visit, Entered;
    NothingEntered(g, seen);
    if ms != [] {
      var n := |ms| - 1;
      var w := VisitAll(g, ms[..n], seen);
      VisitAllEnters(g, ms[..n], seen);
      Subset(g, seen, w.seen);
      var x := Visit(g, ms[n], w.seen);
      VisitEnters(g, ms[n], w.seen);
      EnteredConcat(g, seen, w, x);
      forall i | 0 <= i < |ms| ensures 0 <= ms[i] < |g| && (g[ms[i]].Cyclic? ==> ms[i] in x.seen) {
        if i < n { assert ms[..n][i] == ms[i]; }
      }
    }
  }

  /** Once left, a module has had all it requests entered. */
  lemma {:induction false} VisitCloses(g: Graph, m: nat, seen: set<nat>, open: set<nat>)
    requires WellFormed(g) && m < |g| && seen <= All(g) && Visit(g, m, seen).Walk? && ClosedBut(g, seen, open)
    ensures ClosedBut(g, Visit(g, m, seen).seen, open)
    decreases Left(g, seen), 1, 0
  {
    hide VisitAll;
    if g[m].Cyclic? && m !in seen {
      Shrinks(g, seen, m);
      var ms := g[m].requests;
      assert ClosedBut(g, seen + {m}, open + {m});
      VisitAllCloses(g, ms, seen + {m}, open + {m});
      VisitAllEnters(g, ms, seen + {m});
      var s := VisitAll(g, ms, seen + {m}).seen;
      hide Visit, Entered;
      forall a: nat, b: nat | a in s && a !in open && Requests(g, a, b) && b < |g| && g[b].Cyclic? ensures b in s {
        if a == m {
          var i :| 0 <= i < |ms| && ms[i] == b;
        }
      }
    }
  }

  lemma {:induction false} VisitAllCloses(g: Graph, ms: seq<int>, seen: set<nat>, open: set<nat>)
    requires WellFormed(g) && seen <= All(g) && (forall i :: 0 <= i < |ms| ==> -1 <= ms[i] < |g|)
    requires VisitAll(g, ms, seen).Walk?
    requires ClosedBut(g, seen, open)
    ensures ClosedBut(g, VisitAll(g, ms, seen).seen, open)
    decreases Left(g, seen), 2, |ms|
  {
    if ms != [] {
      var n := |ms| - 1;
      var w := VisitAll(g, ms[..n], seen);
      VisitAllCloses(g, ms[..n], seen, open);
      Subset(g, seen, w.seen);
      VisitCloses(g, ms[n], w.seen, open);
    }
  }

  /** Whatever the walk enters can be reached. */
  lemma {:induction false} VisitReaches(g: Graph, m: nat, seen: set<nat>, root: nat)
    requires WellFormed(g) && m < |g| && seen <= All(g) && Visit(g, m, seen).Walk?
    requires g[m].Cyclic? ==> Reachable(g, root, m)
    ensures forall x :: x in Visit(g, m, seen).order ==> Reachable(g, root, x)
    decreases Left(g, seen), 1, 0
  {
    if g[m].Cyclic? && m !in seen {
      Shrinks(g, seen, m);
      VisitAllReaches(g, m, g[m].requests, seen + {m}, root);
    }
  }

  lemma {:induction false} VisitAllReaches(g: Graph, m: nat, ms: seq<int>, seen: set<nat>, root: nat)
    requires WellFormed(g) && seen <= All(g) && (forall i :: 0 <= i < |ms| ==> -1 <= ms[i] < |g|)
    requires VisitAll(g, ms, seen).Walk?
    requires m < |g| && g[m].Cyclic? && Reachable(g, root, m) && forall i :: 0 <= i < |ms| ==> ms[i] in g[m].requests
    ensures forall x :: x in VisitAll(g, ms, seen).order ==> Reachable(g, root, x)
    decreases Left(g, seen), 2, |ms|
  {
    if ms != [] {
      var n := |ms| - 1;
      var w := VisitAll(g, ms[..n], seen);
      VisitAllReaches(g, m, ms[..n], seen, root);
      Subset(g, seen, w.seen);
      if g[ms[n]].Cyclic? { ReachableStep(g, root, m, ms[n]); }
      VisitReaches(g, ms[n], w.seen, root);
    }
  }

  lemma ReachableStep(g: Graph, root: nat, a: nat, b: nat)
    requires Reachable(g, root, a) && Requests(g, a, b) && b < |g| && g[b].Cyclic?
    ensures Reachable(g, root, b)
  {
    var path :| Path(g, path) && path[0] == root && path[|path| - 1] == a;
    var longer := path + [b];
    forall i | 0 <= i < |longer| - 1 ensures Requests(g, longer[i], longer[i + 1]) {
      if i < |path| - 1 { assert Requests(g, path[i], path[i + 1]); }
    }
    assert Path(g, longer);
  }

  lemma {:induction false} ClosedContains(g: Graph, s: set<nat>, path: seq<nat>)
    requires ClosedBut(g, s, {}) && Path(g, path) && path[0] in s
    ensures path[|path| - 1] in s
    decreases |path|
  {
    if |path| > 1 {
      assert Requests(g, path[0], path[0 + 1]);
      var tail := path[1..];
      forall i | 0 <= i < |tail| - 1 ensures Requests(g, tail[i], tail[i + 1]) {
        assert Requests(g, path[i + 1], path[i + 1 + 1]);
      }
      ClosedContains(g, s, tail);
    }
  }

  /** A walk from the root that succeeds enters exactly the reachable modules, and leaves each once. */
  lemma WalkIsReachability(g: Graph, root: nat)
    requires WellFormed(g) && root < |g| && g[root].Cyclic? && Visit(g, root, {}).Walk?
    ensures NoRepeats(Visit(g, root, {}).order)
    ensures forall x: nat :: x in Visit(g, root, {}).order <==> Reachable(g, root, x)
  {
    var w := Visit(g, root, {});
    VisitEnters(g, root, {});
    VisitCloses(g, root, {}, {});
    assert Path(g, [root]) && [root][0] == root;
    VisitReaches(g, root, {}, root);
    forall x: nat | Reachable(g, root, x) ensures x in w.order {
      var path :| Path(g, path) && path[0] == root && path[|path| - 1] == x;
      ClosedContains(g, w.seen, path);
    }
  }

  /** A module the walk can leave: its requests resolve, the other kinds of module among them link, it initialises. */
  predicate Fine(g: Graph, x: nat) {
    x < |g| && g[x].Cyclic? && g[x].initialises && RequestsFine(g, g[x].requests)
  }

  predicate RequestsFine(g: Graph, ms: seq<int>) {
    forall i :: 0 <= i < |ms| ==> 0 <= ms[i] < |g| && (g[ms[i]].Other? ==> g[ms[i]].links)
  }

  ghost predicate AllFine(g: Graph, order: seq<nat>) {
    forall x :: x in order ==> Fine(g, x)
  }

  lemma {:induction false} VisitIsFine(g: Graph, m: nat, seen: set<nat>)
    requires WellFormed(g) && m < |g| && seen <= All(g) && Visit(g, m, seen).Walk?
    ensures AllFine(g, Visit(g, m, seen).order) && (g[m].Other? ==> g[m].links)
    decreases Left(g, seen), 1, 0
  {
    hide VisitAll;
    if g[m].Cyclic? && m !in seen {
      Shrinks(g, seen, m);
      VisitAllIsFine(g, g[m].requests, seen + {m});
    }
  }

  lemma {:induction false} VisitAllIsFine(g: Graph, ms: seq<int>, seen: set<nat>)
    requires WellFormed(g) && seen <= All(g) && (forall i :: 0 <= i < |ms| ==> -1 <= ms[i] < |g|)
    requires VisitAll(g, ms, seen).Walk?
    ensures AllFine(g, VisitAll(g, ms, seen).order) && RequestsFine(g, ms)
    decreases Left(g, seen), 2, |ms|
  {
    hide Visit, Fine;
    if ms != [] {
      var n := |ms| - 1;
      var w := VisitAll(g, ms[..n], seen);
      VisitAllIsFine(g, ms[..n], seen);
      Subset(g, seen, w.seen);
      VisitIsFine(g, ms[n], w.seen);
      forall i | 0 <= i < |ms| ensures 0 <= ms[i] < |g| && (g[ms[i]].Other? ==> g[ms[i]].links) {
        if i < n { assert ms[..n][i] == ms[i]; }
      }
    }
  }

  lemma {:induction false} FineIsVisited(g: Graph, m: nat, seen: set<nat>, root: nat)
    requires WellFormed(g) && m < |g| && seen <= All(g)
    requires forall x: nat :: Reachable(g, root, x) ==> Fine(g, x)
    requires if g[m].Cyclic? then Reachable(g, root, m) else g[m].links
    ensures Visit(g, m, seen).Walk?
    decreases Left(g, seen), 1, 0
  {
    hide VisitAll;
    if g[m].Cyclic? && m !in seen {
      Shrinks(g, seen, m);
      assert Fine(g, m);
      FineAreVisited(g, m, g[m].requests, seen + {m}, root);
    }
  }

  lemma {:induction false} FineAreVisited(g: Graph, m: nat, ms: seq<int>, seen: set<nat>, root: nat)
    requires WellFormed(g) && seen <= All(g) && RequestsFine(g, ms)
    requires forall x: nat :: Reachable(g, root, x) ==> Fine(g, x)
    requires m < |g| && g[m].Cyclic? && Reachable(g, root, m) && forall i :: 0 <= i < |ms| ==> ms[i] in g[m].requests
    ensures VisitAll(g, ms, seen).Walk?
    decreases Left(g, seen), 2, |ms|
  {
    hide Visit, Reachable;
    if ms != [] {
      var n := |ms| - 1;
      FineAreVisited(g, m, ms[..n], seen, root);
      var w := VisitAll(g, ms[..n], seen);
      Subset(g, seen, w.seen);
      if g[ms[n]].Cyclic? { ReachableStep(g, root, m, ms[n]); }
      FineIsVisited(g, ms[n], w.seen, root);
    }
  }

  /** Linking succeeds exactly when every reachable module is fine. */
  lemma WalkSucceedsIff(g: Graph, root: nat)
    requires WellFormed(g) && root < |g| && g[root].Cyclic?
    ensures Visit(g, root, {}).Walk? <==> forall x: nat :: Reachable(g, root, x) ==> Fine(g, x)
  {
    if Visit(g, root, {}).Walk? {
      WalkIsReachability(g, root);
      VisitIsFine(g, root, {});
    } else if forall x: nat :: Reachable(g, root, x) ==> Fine(g, x) {
      assert Path(g, [root]) && [root][0] == root;
      FineIsVisited(g, root, {}, root);
    }
  }

  // ---------------------------------------------------------------------------------------
  // The order: dependencies first, except around a cycle

  ghost predicate Before(g: Graph, order: seq<nat>, i: nat, done: set<nat>, y: nat)
    requires i < |order|
  {
    y in done || y in order[..i] || Reachable(g, y, order[i])
  }

  ghost predicate DependenciesFirst(g: Graph, order: seq<nat>, done: set<nat>) {
    forall i: nat, y: nat :: i < |order| && Requests(g, order[i], y) && y < |g| && g[y].Cyclic? ==>
      Before(g, order, i, done, y)
  }

  lemma DependenciesConcat(g: Graph, a: seq<nat>, b: seq<nat>, done: set<nat>)
    requires DependenciesFirst(g, a, done) && DependenciesFirst(g, b, done + SetOf(a))
    ensures DependenciesFirst(g, a + b, done)
  {
    hide Reachable, Requests;
    var o := a + b;
    forall i: nat, y: nat | i < |o| && Requests(g, o[i], y) && y < |g| && g[y].Cyclic?
      ensures Before(g, o, i, done, y)
    {
      if i < |a| {
        assert o[..i] == a[..i] && Before(g, a, i, done, y);
      } else {
        assert Before(g, b, i - |a|, done + SetOf(a), y);
        assert o[..i] == a + b[..i - |a|];
      }
    }
  }

  lemma {:induction false} VisitDependenciesFirst(g: Graph, m: nat, seen: set<nat>, open: set<nat>)
    requires WellFormed(g) && m < |g| && seen <= All(g) && Visit(g, m, seen).Walk? && open <= seen
    requires g[m].Cyclic? ==> forall o :: o in open ==> Reachable(g, o, m)
    ensures DependenciesFirst(g, Visit(g, m, seen).order, seen - open)
    decreases Left(g, seen), 1, 0
  {
    hide VisitAll, Reachable;
    if g[m].Cyclic? && m !in seen {
      Shrinks(g, seen, m);
      ReachesItself(g, m);
      var ms := g[m].requests;
      var w := VisitAll(g, ms, seen + {m});
      VisitAllDependenciesFirst(g, m, ms, seen + {m}, open + {m});
      assert (seen + {m}) - (open + {m}) == seen - open;
      VisitAllEnters(g, ms, seen + {m});
      assert DependenciesFirst(g, [m], seen - open + SetOf(w.order)) by {
        forall y: nat | Requests(g, m, y) && y < |g| && g[y].Cyclic?
          ensures Before(g, [m], 0, seen - open + SetOf(w.order), y)
        {
          var i :| 0 <= i < |ms| && ms[i] == y;
          assert y in w.seen;
        }
      }
      DependenciesConcat(g, w.order, [m], seen - open);
    }
  }

  lemma ReachesItself(g: Graph, m: nat)
    requires m < |g| && g[m].Cyclic?
    ensures Reachable(g, m, m)
  {
    assert Path(g, [m]) && [m][0] == m;
  }

  lemma {:induction false} VisitAllDependenciesFirst(g: Graph, m: nat, ms: seq<int>, seen: set<nat>, open: set<nat>)
    requires WellFormed(g) && seen <= All(g) && (forall i :: 0 <= i < |ms| ==> -1 <= ms[i] < |g|)
    requires VisitAll(g, ms, seen).Walk?
    requires m < |g| && g[m].Cyclic? && forall i :: 0 <= i < |ms| ==> ms[i] in g[m].requests
    requires open <= seen && forall o :: o in open ==> Reachable(g, o, m)
    ensures DependenciesFirst(g, VisitAll(g, ms, seen).order, seen - open)
    decreases Left(g, seen), 2, |ms|
  {
    hide Visit, Reachable, DependenciesFirst, Entered;
    if ms == [] {
      NoDependencies(g, seen - open);
    } else {
      var n := |ms| - 1;
      var w := VisitAll(g, ms[..n], seen);
      VisitAllDependenciesFirst(g, m, ms[..n], seen, open);
      VisitAllEnters(g, ms[..n], seen);
      Subset(g, seen, w.seen);
      if g[ms[n]].Cyclic? {
        forall o | o in open ensures Reachable(g, o, ms[n]) { ReachableStep(g, o, m, ms[n]); }
      }
      VisitDependenciesFirst(g, ms[n], w.seen, open);
      DoneAfter(g, seen, open, w);
      DependenciesConcat(g, w.order, Visit(g, ms[n], w.seen).order, seen - open);
    }
  }

  lemma NoDependencies(g: Graph, done: set<nat>)
    ensures DependenciesFirst(g, [], done)
  {
  }

  lemma DoneAfter(g: Graph, seen: set<nat>, open: set<nat>, w: Walk)
    requires w.Walk? && Entered(g, seen, w) && open <= seen
    ensures w.seen - open == seen - open + SetOf(w.order)
  {
  }

  /** A module is left after every module it requests, unless that one in turn depends on it. */
  lemma WalkOrdersDependencies(g: Graph, root: nat, i: nat, y: nat)
    requires WellFormed(g) && root < |g| && g[root].Cyclic? && Visit(g, root, {}).Walk?
    requires i < |Visit(g, root, {}).order| && Requests(g, Visit(g, root, {}).order[i], y) && y < |g| && g[y].Cyclic?
    ensures y in Visit(g, root, {}).order[..i] || Reachable(g, y, Visit(g, root, {}).order[i])
  {
    VisitDependenciesFirst(g, root, {}, {});
    assert Before(g, Visit(g, root, {}).order, i, {}, y);
  }

  // ---------------------------------------------------------------------------------------
  // The implementation

  datatype Status = Unlinked | Linking | Linked | Evaluating | EvaluatingAsync | Evaluated

  datatype Outcome = Index(index: nat) | Error

  /** From one state to another by a successful walk: its modules are entered, and initialised in its order. */
  ghost predicate After(w: Walk, status0: map<nat, Status>, environments0: seq<nat>, status: map<nat, Status>,
                        environments: seq<nat>)
  {
    && w.Walk? && status.Keys == w.seen && environments == environments0 + w.order
    && forall x :: x in status0 ==> x in status && status[x] == status0[x]
  }

  lemma AfterNothing(status: map<nat, Status>, environments: seq<nat>)
    ensures After(Walk(status.Keys, []), status, environments, status, environments)
  {
  }

  lemma WalkKeys(w: Walk, s0: map<nat, Status>, e0: seq<nat>, s: map<nat, Status>, e: seq<nat>)
    requires After(w, s0, e0, s, e)
    ensures w.Walk? && w.seen == s.Keys && s0.Keys <= s.Keys
  {
  }

  lemma AfterBoth(w: Walk, x: Walk, s0: map<nat, Status>, e0: seq<nat>, s1: map<nat, Status>, e1: seq<nat>,
                  s2: map<nat, Status>, e2: seq<nat>)
    requires After(w, s0, e0, s1, e1) && After(x, s1, e1, s2, e2)
    ensures After(Walk(x.seen, w.order + x.order), s0, e0, s2, e2)
  {
  }

  lemma AfterLeaving(w: Walk, s0: map<nat, Status>, e0: seq<nat>, m: nat, s: map<nat, Status>, e: seq<nat>)
    requires m !in s0 && After(w, s0[m := Linking], e0, s, e)
    ensures After(Walk(w.seen, w.order + [m]), s0, e0, s[m := Linked], e + [m]) && m in s
  {
    assert m in s0[m := Linking];
    assert s[m := Linked].Keys == s.Keys;
    forall x | x in s0 ensures x in s && s[m := Linked][x] == s0[x] {
      assert s0[m := Linking][x] == s0[x];
    }
  }

  class LinkState {
    var status: map<nat, Status>
    var dfsIndex: map<nat, nat>
    var dfsAncestorIndex: map<nat, nat>
    var stack: seq<nat>
    /** The modules whose environment has been initialised, in order. */
    var environments: seq<nat>

    constructor ()
      ensures status == map[] && dfsIndex == map[] && dfsAncestorIndex == map[] && stack == [] && environments == []
    {
      status, dfsIndex, dfsAncestorIndex, stack, environments := map[], map[], map[], [], [];
    }

    function StatusOf(m: nat): Status
      reads this
    {
      if m in status then status[m] else Unlinked
    }

    ghost predicate Valid(g: Graph, index: nat)
      reads this`status, this`dfsIndex, this`dfsAncestorIndex, this`stack
    {
      && status.Keys <= All(g) && dfsIndex.Keys == status.Keys
      && dfsAncestorIndex == dfsIndex
      && (forall m :: m in status ==> status[m] == if m in stack then Linking else Linked)
      && (forall m :: m in status ==> dfsIndex[m] < index)
      && (forall i :: 0 <= i < |stack| ==> stack[i] in status)
      && (forall i, j :: 0 <= i < j < |stack| ==> dfsIndex[stack[i]] < dfsIndex[stack[j]])
    }

    lemma StatusKnown(g: Graph, m: nat, index: nat)
      requires Valid(g, index)
      ensures m in status ==> status[m] == Linking || status[m] == Linked
      ensures status.Keys <= All(g)
    {
    }

    /** Marks the module as being linked and pushes it. */
    method Enter(g: Graph, m: nat, index: nat)
      requires Valid(g, index) && m < |g| && m !in status
      modifies this
      ensures Valid(g, index + 1) && stack == old(stack) + [m] && environments == old(environments)
      ensures status == old(status)[m := Linking]
    {
      status := status[m := Linking];
      dfsIndex := dfsIndex[m := index];
      dfsAncestorIndex := dfsAncestorIndex[m := index];
      stack := stack + [m];
    }

    /**
     The adjustment after a request has been linked.  A module still being linked is on the stack,
     not above the requesting one, so its index is no larger and nothing changes.
     */
    method LowerAncestor(g: Graph, m: nat, required: nat, ghost index: nat)
      requires Valid(g, index) && |stack| > 0 && stack[|stack| - 1] == m && required in status
      modifies this
      ensures dfsAncestorIndex == old(dfsAncestorIndex)
      ensures status == old(status) && dfsIndex == old(dfsIndex) && stack == old(stack)
      ensures environments == old(environments)
    {
      if StatusOf(required) == Linking {
        var ancestorIndex := dfsAncestorIndex[m];
        dfsAncestorIndex := if dfsAncestorIndex[required] > ancestorIndex
          then dfsAncestorIndex[required := ancestorIndex] else dfsAncestorIndex;
        assert dfsAncestorIndex == old(dfsAncestorIndex) by {
          var i :| 0 <= i < |stack| && stack[i] == required;
          assert old(dfsIndex[required]) <= old(dfsIndex[m]);
        }
      }
    }

    /** Pops the stack down to the module, marking what is popped as linked: the module alone. */
    method Leave(g: Graph, m: nat, ghost index: nat)
      requires Valid(g, index) && |stack| > 0 && stack[|stack| - 1] == m
      modifies this
      ensures Valid(g, index) && stack == old(stack[..|stack| - 1]) && environments == old(environments)
      ensures status == old(status)[m := Linked]
    {
      if dfsAncestorIndex[m] == dfsIndex[m] {
        ghost var before := stack[..|stack| - 1];
        var i := |stack| - 1;
        var popping := true;
        while popping && i >= 0
          invariant -1 <= i < |stack| + 1
          invariant popping ==> i == |old(stack)| - 1 && stack == old(stack) && status == old(status)
          invariant !popping ==> stack == before && status == old(status)[m := Linked]
          invariant dfsIndex == old(dfsIndex) && dfsAncestorIndex == old(dfsAncestorIndex)
          invariant environments == old(environments)
          decreases if popping then 1 else 0
        {
          var requiredModule := stack[i];
          stack := stack[..i];
          status := status[requiredModule := Linked];
          if requiredModule == m { popping := false; }
          i := i - 1;
        }
        assert m !in before;
      }
    }

    method InnerModuleLinking(g: Graph, m: nat, index: nat) returns (r: Outcome)
      requires WellFormed(g) && m < |g| && Valid(g, index)
      modifies this
      ensures r.Index? <==> Visit(g, m, old(status.Keys)).Walk?
      ensures r.Index? ==> Valid(g, r.index) && r.index >= index && stack == old(stack)
      ensures r.Index? ==> After(Visit(g, m, old(status.Keys)), old(status), old(environments), status, environments)
      ensures r.Index? && g[m].Cyclic? ==> m in status
      decreases Left(g, status.Keys), 1, 0
    {
      hide VisitAll, LinkState.Valid, All, Left, After;
      StatusKnown(g, m, index);
      AfterNothing(status, environments);
      if g[m].Other? {
        return if g[m].links then Index(index) else Error;
      }
      var current := StatusOf(m);
      if current == Linking || current == Linked || current == Evaluated {
        return Index(index);
      } else if current != Unlinked {
        assert false;
        return Error;
      }
      ghost var seen := status.Keys;
      Shrinks(g, seen, m);
      Enter(g, m, index);
      assert status.Keys == seen + {m};
      r := LinkRequests(g, m, index + 1);
      if r.Error? { return; }
      if !g[m].initialises { return Error; }
      AfterLeaving(VisitAll(g, g[m].requests, seen + {m}), old(status), old(environments), m, status, environments);
      environments := environments + [m];
      Leave(g, m, r.index);
    }

    method LinkRequests(g: Graph, m: nat, start: nat) returns (r: Outcome)
      requires WellFormed(g) && m < |g| && g[m].Cyclic? && Valid(g, start) && |stack| > 0 && stack[|stack| - 1] == m
      modifies this
      ensures r.Index? <==> VisitAll(g, g[m].requests, old(status.Keys)).Walk?
      ensures r.Index? ==> Valid(g, r.index) && r.index >= start && stack == old(stack)
      ensures r.Index? ==>
        After(VisitAll(g, g[m].requests, old(status.Keys)), old(status), old(environments), status, environments)
      decreases Left(g, status.Keys), 2, 0
    {
      hide Visit, LinkState.Valid, All, Left, After;
      var index: nat := start;
      var requests := g[m].requests;
      ghost var seen := status.Keys;
      StatusKnown(g, m, start);
      assert requests[..0] == [];
      AfterNothing(status, environments);
      for i := 0 to |requests|
        invariant Valid(g, index) && index >= start && stack == old(stack)
        invariant After(VisitAll(g, requests[..i], seen), old(status), old(environments), status, environments)
      {
        var required := requests[i];
        ghost var upTo := requests[..i + 1];
        assert upTo[..i] == requests[..i] && upTo[i] == required;
        if required < 0 {
          FailsLater(g, requests, i + 1, seen);
          return Error;
        }
        ghost var w := VisitAll(g, requests[..i], seen);
        ghost var before, log := status, environments;
        WalkKeys(w, old(status), old(environments), status, environments);
        Subset(g, seen, status.Keys);
        r := InnerModuleLinking(g, required, index);
        if r.Error? {
          FailsLater(g, requests, i + 1, seen);
          return;
        }
        index := r.index;
        AfterBoth(w, Visit(g, required, before.Keys), old(status), old(environments), before, log, status,
          environments);
        if g[required].Cyclic? {
          LowerAncestor(g, m, required, index);
        }
      }
      assert requests[..|requests|] == requests;
      WalkKeys(VisitAll(g, requests, seen), old(status), old(environments), status, environments);
      return Index(index);
    }

    /** Linking from a root: exactly the reachable modules end up linked, and each is initialised once. */
    static method ConcreteLink(g: Graph, root: nat) returns (ok: bool, state: LinkState)
      requires WellFormed(g) && root < |g|
      ensures fresh(state)
      ensures g[root].Other? ==> ok == g[root].links
      ensures g[root].Cyclic? ==> (ok <==> forall x: nat :: Reachable(g, root, x) ==> Fine(g, x))
      ensures ok ==> state.stack == [] && forall x :: x in state.status ==> state.status[x] == Linked
      ensures ok && g[root].Cyclic? ==> forall x: nat :: x in state.status <==> Reachable(g, root, x)
      ensures ok && g[root].Cyclic? ==> forall x: nat :: x in state.environments <==> Reachable(g, root, x)
      ensures ok ==> NoRepeats(state.environments) && DependenciesFirst(g, state.environments, {})
    {
      hide Visit, Fine, Reachable, DependenciesFirst, LinkState.Valid, After, NoRepeats;
      state := new LinkState();
      NothingIsValid(state, g);
      var r := state.InnerModuleLinking(g, root, 0);
      ok := r.Index?;
      Summary(g, root);
      if ok { AllLinked(state, g, root, r.index); }
    }
  }

  lemma NothingIsValid(state: LinkState, g: Graph)
    requires state.status == map[] && state.dfsIndex == map[] && state.dfsAncestorIndex == map[] && state.stack == []
    ensures state.Valid(g, 0) && state.status.Keys == {}
  {
  }

  lemma AllLinked(state: LinkState, g: Graph, root: nat, index: nat)
    requires WellFormed(g) && root < |g| && state.Valid(g, index) && state.stack == []
    requires After(Visit(g, root, {}), map[], [], state.status, state.environments)
    ensures forall x :: x in state.status ==> state.status[x] == Linked
    ensures state.environments == Visit(g, root, {}).order && state.status.Keys == Visit(g, root, {}).seen
  {
    hide Visit;
  }

  /** A failure part of the way through the requests is a failure of the whole. */
  lemma {:induction false} FailsLater(g: Graph, ms: seq<int>, n: nat, seen: set<nat>)
    requires WellFormed(g) && seen <= All(g) && (forall i :: 0 <= i < |ms| ==> -1 <= ms[i] < |g|)
    requires n <= |ms| && VisitAll(g, ms[..n], seen).Failed?
    ensures VisitAll(g, ms, seen).Failed?
    decreases |ms|
  {
    if n == |ms| {
      assert ms[..n] == ms;
    } else {
      var shorter := ms[..|ms| - 1];
      assert shorter[..n] == ms[..n];
      FailsLater(g, shorter, n, seen);
    }
  }

  lemma Summary(g: Graph, root: nat)
    requires WellFormed(g) && root < |g|
    ensures var w := Visit(g, root, {});
      && (g[root].Other? ==> w == if g[root].links then Walk({}, []) else Failed)
      && (g[root].Cyclic? ==> (w.Walk? <==> forall x: nat :: Reachable(g, root, x) ==> Fine(g, x)))
      && (w.Walk? ==> NoRepeats(w.order) && DependenciesFirst(g, w.order, {}) && w.seen == SetOf(w.order))
      && (w.Walk? && g[root].Cyclic? ==> forall x: nat :: x in w.order <==> Reachable(g, root, x))
  {
    hide VisitAll, Fine, Reachable, DependenciesFirst;
    var w := Visit(g, root, {});
    if g[root].Cyclic? { WalkSucceedsIff(g, root); }
    if w.Walk? {
      VisitEnters(g, root, {});
      VisitDependenciesFirst(g, root, {}, {});
      var none: set<nat> := {};
      assert none - none == none;
      if g[root].Cyclic? { WalkIsReachability(g, root); }
    }
  }
}
