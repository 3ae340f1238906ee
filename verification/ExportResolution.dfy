/**
 ResolveExport: which binding a module exports under a name.

 Export graphs may be cyclic.  The search follows, for a module and a name, the module's own
 binding, else an explicit re-export, else all `export *`, and gives up on a path that returns to
 where it has been.  What it computes is reachability: nothing, the one binding that can be
 reached, or that two different ones can.
 */
module ExportResolution {
  import opened Options

  // ---------------------------------------------------------------------------------------
  // Module graphs

  /** A module's own binding under an exported name. */
  datatype LocalEntry = LocalEntry(exportName: string, localName: string)

  /** A name taken from another module; `*` stands for that module's namespace. */
  datatype IndirectEntry = IndirectEntry(exportName: string, source: nat, importName: string)

  datatype Module = Module(locals: seq<LocalEntry>, indirects: seq<IndirectEntry>, stars: seq<nat>)

  type Graph = seq<Module>

  /** A module and a name looked up in it. */
  datatype Node = Node(m: nat, name: string)

  datatype Binding = Binding(m: nat, name: string)

  /** Every requested module has been found by the host. */
  predicate WellFormed(g: Graph) {
    forall m :: 0 <= m < |g| ==>
      && (forall i :: 0 <= i < |g[m].indirects| ==> g[m].indirects[i].source < |g|)
      && (forall i :: 0 <= i < |g[m].stars| ==> g[m].stars[i] < |g|)
  }

  /** The first entry for the name, or the length of the list. */
  function FindLocal(es: seq<LocalEntry>, name: string, i: nat): (r: nat)
    requires i <= |es|
    ensures i <= r <= |es| && (r < |es| ==> es[r].exportName == name)
    decreases |es| - i
  {
    if i == |es| || es[i].exportName == name then i else FindLocal(es, name, i + 1)
  }

  function FindIndirect(es: seq<IndirectEntry>, name: string, i: nat): (r: nat)
    requires i <= |es|
    ensures i <= r <= |es| && (r < |es| ==> es[r].exportName == name)
    decreases |es| - i
  {
    if i == |es| || es[i].exportName == name then i else FindIndirect(es, name, i + 1)
  }

  /** What a look-up leads to in one step. */
  datatype Lead = Ends(b: Binding) | Goes(n: Node) | Fans(ms: seq<nat>)

  function LeadOf(g: Graph, n: Node): (l: Lead)
    requires WellFormed(g) && n.m < |g|
    ensures l.Goes? ==> l.n.m < |g|
    ensures l.Fans? ==> forall i :: 0 <= i < |l.ms| ==> l.ms[i] < |g|
  {
    var md := g[n.m];
    var i := FindLocal(md.locals, n.name, 0);
    if i < |md.locals| then Ends(Binding(n.m, md.locals[i].localName))
    else
      var j := FindIndirect(md.indirects, n.name, 0);
      if j < |md.indirects| then
        var e := md.indirects[j];
        if e.importName == "*" then Ends(Binding(e.source, "*namespace*")) else Goes(Node(e.source, e.importName))
      else if n.name == "default" then Fans([])
      else Fans(md.stars)
  }

  predicate Edge(g: Graph, a: Node, b: Node)
    requires WellFormed(g) && a.m < |g|
  {
    match LeadOf(g, a)
    case Ends(_) => false
    case Goes(c) => b == c
    case Fans(ms) => b.m in ms && b.name == a.name
  }

  // ---------------------------------------------------------------------------------------
  // Reachability

  /** A path of look-ups that avoids `seen` and ends at `b`. */
  ghost predicate Leads(g: Graph, path: seq<Node>, seen: set<Node>, b: Binding) {
    && WellFormed(g) && |path| > 0
    && (forall i :: 0 <= i < |path| ==> path[i].m < |g| && path[i] !in seen)
    && (forall i :: 0 <= i < |path| - 1 ==> Edge(g, path[i], path[i + 1]))
    && LeadOf(g, path[|path| - 1]) == Ends(b)
  }

  ghost predicate Reaches(g: Graph, n: Node, seen: set<Node>, b: Binding) {
    exists path :: Leads(g, path, seen, b) && path[0] == n
  }

  /** The path from its first step on. */
  lemma LeadsTail(g: Graph, path: seq<Node>, seen: set<Node>, b: Binding, k: nat)
    requires Leads(g, path, seen, b) && k < |path|
    ensures Leads(g, path[k..], seen, b)
  {
    var tail := path[k..];
    forall i | 0 <= i < |tail| - 1 ensures Edge(g, tail[i], tail[i + 1]) {
      assert Edge(g, path[k + i], path[k + i + 1]);
    }
  }

  /** After its last visit to where it started, a path never comes back. */
  lemma {:induction false} LastVisit(g: Graph, path: seq<Node>, seen: set<Node>, b: Binding) returns (c: Node)
    requires Leads(g, path, seen, b) && |path| > 1
    ensures c.m < |g| && Edge(g, path[0], c) && Reaches(g, c, seen + {path[0]}, b)
    decreases |path|
  {
    if k :| 1 <= k < |path| && path[k] == path[0] {
      LeadsTail(g, path, seen, b, k);
      assert Edge(g, path[0], path[0 + 1]);
      c := LastVisit(g, path[k..], seen, b);
    } else {
      c := path[1];
      LeadsTail(g, path, seen, b, 1);
      assert Leads(g, path[1..], seen + {path[0]}, b);
      assert Edge(g, path[0], path[0 + 1]);
    }
  }

  /** What is reached from a node is what is reached, without coming back to it, from where it leads. */
  lemma ReachesByStep(g: Graph, n: Node, seen: set<Node>, b: Binding)
    requires WellFormed(g) && n.m < |g| && n !in seen
    ensures Reaches(g, n, seen, b)
       <==> LeadOf(g, n) == Ends(b) || exists c: Node :: c.m < |g| && Edge(g, n, c) && Reaches(g, c, seen + {n}, b)
  {
    hide LeadOf;
    if Reaches(g, n, seen, b) {
      var path :| Leads(g, path, seen, b) && path[0] == n;
      if |path| > 1 {
        var c := LastVisit(g, path, seen, b);
      }
    }
    if LeadOf(g, n) == Ends(b) {
      assert Leads(g, [n], seen, b);
    }
    if c: Node :| c.m < |g| && Edge(g, n, c) && Reaches(g, c, seen + {n}, b) {
      StepBefore(g, n, c, seen, b);
    }
  }

  lemma StepBefore(g: Graph, n: Node, c: Node, seen: set<Node>, b: Binding)
    requires WellFormed(g) && n.m < |g| && n !in seen && Edge(g, n, c) && Reaches(g, c, seen + {n}, b)
    ensures Reaches(g, n, seen, b)
  {
    hide LeadOf, Edge;
    var path :| Leads(g, path, seen + {n}, b) && path[0] == c;
    var longer := [n] + path;
    forall i | 0 <= i < |longer| - 1 ensures Edge(g, longer[i], longer[i + 1]) {
      if i > 0 { assert Edge(g, path[i - 1], path[i - 1 + 1]); }
    }
    assert Leads(g, longer, seen, b);
  }

  // ---------------------------------------------------------------------------------------
  // The search

  datatype Resolution = Missing | Found(b: Binding) | Ambiguous

  /** Look-ups stay within `all`: a finite set of nodes closed under the edges. */
  ghost predicate Closed(g: Graph, all: set<Node>) {
    && WellFormed(g)
    && (forall n :: n in all ==> n.m < |g|)
    && (forall n, c: Node :: n in all && c.m < |g| && Edge(g, n, c) ==> c in all)
  }

  lemma EdgeStays(g: Graph, all: set<Node>, n: Node, c: Node)
    requires Closed(g, all) && n in all && c.m < |g| && n.m < |g| && Edge(g, n, c)
    ensures c in all
  {
  }

  ghost function Resolve(g: Graph, all: set<Node>, n: Node, seen: set<Node>): Resolution
    requires Closed(g, all) && n in all && seen <= all
    decreases |all - seen|, 1, 0
  {
    if n in seen then Missing
    else
      Shrinks(all, seen, n);
      match LeadOf(g, n)
      case Ends(b) => Found(b)
      case Goes(c) =>
        assert Edge(g, n, c);
        Resolve(g, all, c, seen + {n})
      case Fans(ms) =>
        FansAreEdges(g, n);
        ResolveStars(g, all, n, ms, seen, Missing)
  }

  lemma Shrinks(all: set<Node>, seen: set<Node>, n: Node)
    requires n in all && n !in seen
    ensures |all - (seen + {n})| < |all - seen|
  {
    assert all - seen == (all - (seen + {n})) + {n};
  }

  /** The star exports from `ms` on, with `acc` found so far. */
  ghost function ResolveStars(g: Graph, all: set<Node>, n: Node, ms: seq<nat>, seen: set<Node>,
                              acc: Resolution): Resolution
    requires Closed(g, all) && n in all && n !in seen && seen <= all
    requires forall i :: 0 <= i < |ms| ==> ms[i] < |g| && Edge(g, n, Node(ms[i], n.name))
    decreases |all - seen|, 0, |ms|
  {
    if ms == [] then acc
    else
      Shrinks(all, seen, n);
      var r := Resolve(g, all, Node(ms[0], n.name), seen + {n});
      if r.Ambiguous? then Ambiguous
      else if r.Found? && acc.Found? && r.b != acc.b then Ambiguous
      else ResolveStars(g, all, n, ms[1..], seen, if r.Found? && acc.Missing? then r else acc)
  }

  /** `r` tells how many bindings there are in `bs`: none, exactly one and which, or more. */
  ghost predicate Tells(r: Resolution, bs: iset<Binding>) {
    match r
    case Missing => bs == iset{}
    case Found(b) => bs == iset{b}
    case Ambiguous => exists a, b :: a in bs && b in bs && a != b
  }

  ghost function Reached(g: Graph, n: Node, seen: set<Node>): iset<Binding> {
    iset b | Reaches(g, n, seen, b)
  }

  ghost function ReachedBy(g: Graph, ms: seq<nat>, name: string, seen: set<Node>): iset<Binding> {
    iset b | AnyReaches(g, ms, name, seen, b)
  }

  ghost predicate AnyReaches(g: Graph, ms: seq<nat>, name: string, seen: set<Node>, b: Binding) {
    exists i :: 0 <= i < |ms| && Reaches(g, Node(ms[i], name), seen, b)
  }

  ghost function Known(acc: Resolution): iset<Binding> {
    if acc.Found? then iset{acc.b} else iset{}
  }

  lemma GoesIsEdge(g: Graph, n: Node)
    requires WellFormed(g) && n.m < |g| && LeadOf(g, n).Goes?
    ensures LeadOf(g, n).n.m < |g| && Edge(g, n, LeadOf(g, n).n)
  {
  }

  lemma FansAreEdges(g: Graph, n: Node)
    requires WellFormed(g) && n.m < |g| && LeadOf(g, n).Fans?
    ensures forall i :: 0 <= i < |LeadOf(g, n).ms| ==>
      LeadOf(g, n).ms[i] < |g| && Edge(g, n, Node(LeadOf(g, n).ms[i], n.name))
  {
  }

  /** The bindings reached from a node, by what it leads to. */
  lemma ReachedStep(g: Graph, n: Node, seen: set<Node>)
    requires WellFormed(g) && n.m < |g| && n !in seen
    ensures match LeadOf(g, n)
            case Ends(b) => Reached(g, n, seen) == iset{b}
            case Goes(c) => Reached(g, n, seen) == Reached(g, c, seen + {n})
            case Fans(ms) => Reached(g, n, seen) == ReachedBy(g, ms, n.name, seen + {n})
  {
    forall b ensures Reaches(g, n, seen, b) <==> OnwardReaches(g, n, seen, b) {
      OnwardIsReach(g, n, seen, b);
    }
  }

  /** Reaching `b` through what the node leads to, without coming back to it. */
  ghost predicate OnwardReaches(g: Graph, n: Node, seen: set<Node>, b: Binding)
    requires WellFormed(g) && n.m < |g|
  {
    match LeadOf(g, n)
    case Ends(e) => b == e
    case Goes(c) => Reaches(g, c, seen + {n}, b)
    case Fans(ms) => AnyReaches(g, ms, n.name, seen + {n}, b)
  }

  lemma OnwardIsReach(g: Graph, n: Node, seen: set<Node>, b: Binding)
    requires WellFormed(g) && n.m < |g| && n !in seen
    ensures Reaches(g, n, seen, b) <==> OnwardReaches(g, n, seen, b)
  {
    ReachesByStep(g, n, seen, b);
    hide Reaches;
    match LeadOf(g, n)
    case Ends(e) =>
    case Goes(c) => assert Edge(g, n, c);
    case Fans(ms) =>
      FansAreEdges(g, n);
      if AnyReaches(g, ms, n.name, seen + {n}, b) {
        var i :| 0 <= i < |ms| && Reaches(g, Node(ms[i], n.name), seen + {n}, b);
        assert Edge(g, n, Node(ms[i], n.name));
      }
      if c: Node :| c.m < |g| && Edge(g, n, c) && Reaches(g, c, seen + {n}, b) {
        var i :| 0 <= i < |ms| && ms[i] == c.m;
        assert c == Node(ms[i], n.name);
      }
  }

  // What is reached, told by the entries of the module

  /** The first of a module's own entries for the name. */
  predicate IsFirstLocal(es: seq<LocalEntry>, name: string, i: nat) {
    i < |es| && es[i].exportName == name && forall j :: 0 <= j < i ==> es[j].exportName != name
  }

  predicate IsFirstIndirect(es: seq<IndirectEntry>, name: string, i: nat) {
    i < |es| && es[i].exportName == name && forall j :: 0 <= j < i ==> es[j].exportName != name
  }

  lemma {:induction false} FindsFirstLocal(es: seq<LocalEntry>, name: string, i: nat, r: nat)
    requires i <= |es| && forall j :: 0 <= j < i ==> es[j].exportName != name
    ensures IsFirstLocal(es, name, r) <==> r == FindLocal(es, name, i) < |es|
    decreases |es| - i
  {
    if i < |es| && es[i].exportName != name { FindsFirstLocal(es, name, i + 1, r); }
  }

  lemma {:induction false} FindsFirstIndirect(es: seq<IndirectEntry>, name: string, i: nat, r: nat)
    requires i <= |es| && forall j :: 0 <= j < i ==> es[j].exportName != name
    ensures IsFirstIndirect(es, name, r) <==> r == FindIndirect(es, name, i) < |es|
    decreases |es| - i
  {
    if i < |es| && es[i].exportName != name { FindsFirstIndirect(es, name, i + 1, r); }
  }

  /** A module's own binding is what its local entry names, whatever else it exports. */
  lemma LocalIsReached(g: Graph, m: nat, name: string, seen: set<Node>, i: nat)
    requires WellFormed(g) && m < |g| && Node(m, name) !in seen && IsFirstLocal(g[m].locals, name, i)
    ensures Reached(g, Node(m, name), seen) == iset{Binding(m, g[m].locals[i].localName)}
  {
    FindsFirstLocal(g[m].locals, name, 0, i);
    hide Reached;
    ReachedStep(g, Node(m, name), seen);
  }

  /** Without one, a re-export is what its source exports under the imported name, or its namespace. */
  lemma IndirectIsReached(g: Graph, m: nat, name: string, seen: set<Node>, i: nat)
    requires WellFormed(g) && m < |g| && Node(m, name) !in seen
    requires (forall j :: 0 <= j < |g[m].locals| ==> g[m].locals[j].exportName != name)
    requires IsFirstIndirect(g[m].indirects, name, i)
    ensures var e := g[m].indirects[i];
      Reached(g, Node(m, name), seen) ==
        if e.importName == "*" then iset{Binding(e.source, "*namespace*")}
        else Reached(g, Node(e.source, e.importName), seen + {Node(m, name)})
  {
    FindsFirstIndirect(g[m].indirects, name, 0, i);
    FindsFirstLocal(g[m].locals, name, 0, FindLocal(g[m].locals, name, 0));
    hide Reached;
    ReachedStep(g, Node(m, name), seen);
  }

  /** Without either, a name is what the star exports have under it, and `default` is nothing. */
  lemma StarsAreReached(g: Graph, m: nat, name: string, seen: set<Node>, b: Binding)
    requires WellFormed(g) && m < |g| && Node(m, name) !in seen
    requires (forall j :: 0 <= j < |g[m].locals| ==> g[m].locals[j].exportName != name)
    requires (forall j :: 0 <= j < |g[m].indirects| ==> g[m].indirects[j].exportName != name)
    ensures b in Reached(g, Node(m, name), seen) <==>
      && name != "default"
      && exists k :: 0 <= k < |g[m].stars| && b in Reached(g, Node(g[m].stars[k], name), seen + {Node(m, name)})
  {
    FindsFirstLocal(g[m].locals, name, 0, FindLocal(g[m].locals, name, 0));
    FindsFirstIndirect(g[m].indirects, name, 0, FindIndirect(g[m].indirects, name, 0));
    hide Reaches;
    ReachedStep(g, Node(m, name), seen);
    var rest := seen + {Node(m, name)};
    if b in Reached(g, Node(m, name), seen) {
      var k :| 0 <= k < |g[m].stars| && Reaches(g, Node(g[m].stars[k], name), rest, b);
      assert b in Reached(g, Node(g[m].stars[k], name), rest);
    }
  }

  lemma {:induction false} ResolveTells(g: Graph, all: set<Node>, n: Node, seen: set<Node>)
    requires Closed(g, all) && n in all && seen <= all
    ensures Tells(Resolve(g, all, n, seen), Reached(g, n, seen))
    decreases |all - seen|, 1, 0
  {
    hide Edge;
    if n !in seen {
      Shrinks(all, seen, n);
      ReachedStep(g, n, seen);
      hide Reached, ReachedBy, LeadOf;
      match LeadOf(g, n)
      case Ends(b) =>
      case Goes(c) =>
        GoesIsEdge(g, n);
        ResolveTells(g, all, c, seen + {n});
      case Fans(ms) =>
        FansAreEdges(g, n);
        StarsTell(g, all, n, ms, seen, Missing);
        assert Known(Missing) + ReachedBy(g, ms, n.name, seen + {n}) == ReachedBy(g, ms, n.name, seen + {n});
    } else {
      assert Reached(g, n, seen) == iset{};
    }
  }

  lemma {:induction false} StarsTell(g: Graph, all: set<Node>, n: Node, ms: seq<nat>, seen: set<Node>, acc: Resolution)
    requires Closed(g, all) && n in all && n !in seen && seen <= all && !acc.Ambiguous?
    requires forall i :: 0 <= i < |ms| ==> ms[i] < |g| && Edge(g, n, Node(ms[i], n.name))
    ensures Tells(ResolveStars(g, all, n, ms, seen, acc), Known(acc) + ReachedBy(g, ms, n.name, seen + {n}))
    decreases |all - seen|, 0, |ms|
  {
    var seen1 := seen + {n};
    if ms == [] {
      assert Known(acc) + ReachedBy(g, ms, n.name, seen1) == Known(acc);
    } else {
      Shrinks(all, seen, n);
      var c := Node(ms[0], n.name);
      EdgeStays(g, all, n, c);
      hide Closed, Edge;
      ResolveTells(g, all, c, seen1);
      var r := Resolve(g, all, c, seen1);
      ReachedBySplit(g, ms, n.name, seen1);
      hide Reached, ReachedBy, Resolve;
      var here, rest := Reached(g, c, seen1), ReachedBy(g, ms[1..], n.name, seen1);
      var acc1 := if r.Found? && acc.Missing? then r else acc;
      if !r.Ambiguous? && !(r.Found? && acc.Found? && r.b != acc.b) {
        StarsTell(g, all, n, ms[1..], seen, acc1);
      }
      Accumulates(acc, r, here, rest);
      hide Tells, Known;
    }
  }

  /** How the bindings of one more star export combine with what was known. */
  lemma Accumulates(acc: Resolution, r: Resolution, here: iset<Binding>, rest: iset<Binding>)
    requires !acc.Ambiguous? && Tells(r, here)
    ensures r.Ambiguous? || (r.Found? && acc.Found? && r.b != acc.b) ==> Tells(Ambiguous, Known(acc) + (here + rest))
    ensures !r.Ambiguous? && !(r.Found? && acc.Found? && r.b != acc.b)
        ==> Known(if r.Found? && acc.Missing? then r else acc) + rest == Known(acc) + (here + rest)
  {
    if r.Found? { assert r.b in here; }
  }

  lemma ReachedBySplit(g: Graph, ms: seq<nat>, name: string, seen: set<Node>)
    requires ms != []
    ensures ReachedBy(g, ms, name, seen) == Reached(g, Node(ms[0], name), seen) + ReachedBy(g, ms[1..], name, seen)
  {
    forall b ensures b in ReachedBy(g, ms, name, seen)
                <==> b in Reached(g, Node(ms[0], name), seen) || b in ReachedBy(g, ms[1..], name, seen)
    {
      if i :| 0 <= i < |ms| && Reaches(g, Node(ms[i], name), seen, b) {
        if i > 0 { assert ms[1..][i - 1] == ms[i]; }
      }
      if i :| 0 <= i < |ms[1..]| && Reaches(g, Node(ms[1..][i], name), seen, b) {
        assert ms[i + 1] == ms[1..][i];
      }
    }
  }

  // ---------------------------------------------------------------------------------------
  // Every graph and every name

  /** All look-ups that can come up: each module with the name asked for or a name some module imports. */
  ghost function AllNodes(g: Graph, name: string): set<Node> {
    set m, x | 0 <= m < |g| && x in Names(g) + {name} :: Node(m, x)
  }

  ghost function Names(g: Graph): set<string> {
    set m, i | 0 <= m < |g| && 0 <= i < |g[m].indirects| :: g[m].indirects[i].importName
  }

  lemma AllNodesClosed(g: Graph, name: string)
    requires WellFormed(g)
    ensures Closed(g, AllNodes(g, name))
  {
    forall n, c: Node | n in AllNodes(g, name) && c.m < |g| && Edge(g, n, c) ensures c in AllNodes(g, name) {
      if LeadOf(g, n).Goes? {
        var j := FindIndirect(g[n.m].indirects, n.name, 0);
        assert g[n.m].indirects[j].importName in Names(g);
      }
    }
  }

  /** The answer is reachability: it says whether no binding, exactly one, or more than one can be reached. */
  lemma ResolutionIsReachability(g: Graph, m: nat, name: string)
    requires WellFormed(g) && m < |g|
    ensures Closed(g, AllNodes(g, name)) && Node(m, name) in AllNodes(g, name)
    ensures Tells(Resolve(g, AllNodes(g, name), Node(m, name), {}), Reached(g, Node(m, name), {}))
  {
    AllNodesClosed(g, name);
    ResolveTells(g, AllNodes(g, name), Node(m, name), {});
  }

  // ---------------------------------------------------------------------------------------
  // ResolveExport as it is written

  /** The method's two results as one. */
  ghost function AsResolution(b: Option<Binding>, ambiguous: bool): Resolution {
    if ambiguous then Ambiguous else if b.Some? then Found(b.value) else Missing
  }

  ghost function SetOf(ns: seq<Node>): set<Node> {
    set n | n in ns
  }

  method ResolveExport(g: Graph, m: nat, exportName: string, resolveset: seq<Node>, ghost all: set<Node>)
    returns (b: Option<Binding>, ambiguous: bool)
    requires Closed(g, all) && m < |g| && Node(m, exportName) in all && SetOf(resolveset) <= all
    ensures AsResolution(b, ambiguous) == Resolve(g, all, Node(m, exportName), SetOf(resolveset))
    ensures ambiguous ==> b.None?
    decreases |all - SetOf(resolveset)|, 2
  {
    hide FindLocal, FindIndirect, Edge;
    ghost var n, seen := Node(m, exportName), SetOf(resolveset);
    var been := Contains(resolveset, m, exportName);
    if been {
      return None, false;
    }
    Shrinks(all, seen, n);
    var set1 := resolveset + [Node(m, exportName)];
    assert SetOf(set1) == seen + {n};
    hide SetOf;

    var i := FirstLocal(g[m].locals, exportName);
    if i < |g[m].locals| {
      return Some(Binding(m, g[m].locals[i].localName)), false;
    }
    i := FirstIndirect(g[m].indirects, exportName);
    if i < |g[m].indirects| {
      var e := g[m].indirects[i];
      if e.importName == "*" {
        return Some(Binding(e.source, "*namespace*")), false;
      }
      GoesIsEdge(g, n);
      EdgeStays(g, all, n, Node(e.source, e.importName));
      hide Closed;
      b, ambiguous := ResolveExport(g, e.source, e.importName, set1, all);
      return;
    }
    if exportName == "default" {
      return None, false;
    }
    FansAreEdges(g, n);
    hide Closed;
    b, ambiguous := ResolveStarEntries(g, m, exportName, set1, all, resolveset);
  }

  /** The call from outside: none, the one or several bindings can be reached. */
  method ResolveExportOf(g: Graph, m: nat, exportName: string) returns (b: Option<Binding>, ambiguous: bool)
    requires WellFormed(g) && m < |g|
    ensures Tells(AsResolution(b, ambiguous), Reached(g, Node(m, exportName), {})) && (ambiguous ==> b.None?)
    ensures forall i :: 0 <= i < |g[m].locals| && IsFirstLocal(g[m].locals, exportName, i) ==>
      b == Some(Binding(m, g[m].locals[i].localName))
  {
    forall i | 0 <= i < |g[m].locals| && IsFirstLocal(g[m].locals, exportName, i)
      ensures Reached(g, Node(m, exportName), {}) == iset{Binding(m, g[m].locals[i].localName)}
    {
      LocalIsReached(g, m, exportName, {}, i);
    }
    hide Resolve, Reached, Closed, AllNodes, IsFirstLocal;
    ResolutionIsReachability(g, m, exportName);
    assert SetOf([]) == {};
    b, ambiguous := ResolveExport(g, m, exportName, [], AllNodes(g, exportName));
  }

  method Contains(resolveset: seq<Node>, m: nat, exportName: string) returns (b: bool)
    ensures b <==> Node(m, exportName) in SetOf(resolveset)
  {
    var i := 0;
    while i < |resolveset|
      invariant i <= |resolveset| && forall k :: 0 <= k < i ==> resolveset[k] != Node(m, exportName)
    {
      if resolveset[i].m == m && exportName == resolveset[i].name {
        return true;
      }
      i := i + 1;
    }
    return false;
  }

  method ResolveStarEntries(g: Graph, m: nat, exportName: string, set1: seq<Node>, ghost all: set<Node>,
                            ghost resolveset: seq<Node>)
    returns (b: Option<Binding>, ambiguous: bool)
    requires Closed(g, all) && m < |g| && Node(m, exportName) in all && SetOf(resolveset) <= all
    requires Node(m, exportName) !in SetOf(resolveset) && SetOf(set1) == SetOf(resolveset) + {Node(m, exportName)}
    requires |all - SetOf(set1)| < |all - SetOf(resolveset)|
    requires forall k :: 0 <= k < |g[m].stars| ==>
      g[m].stars[k] < |g| && Edge(g, Node(m, exportName), Node(g[m].stars[k], exportName))
    ensures AsResolution(b, ambiguous) ==
      ResolveStars(g, all, Node(m, exportName), g[m].stars, SetOf(resolveset), Missing)
    ensures ambiguous ==> b.None?
    decreases |all - SetOf(resolveset)|, 1
  {
    hide Edge, Resolve, SetOf, Closed;
    ghost var n, seen, ms := Node(m, exportName), SetOf(resolveset), g[m].stars;
    var starResolution: Option<Binding> := None;
    var i := 0;
    assert ms[0..] == ms;
    while i < |g[m].stars|
      invariant i <= |ms|
      invariant ResolveStars(g, all, n, ms[i..], seen, AsResolution(starResolution, false))
             == ResolveStars(g, all, n, ms, seen, Missing)
    {
      assert ms[i..][0] == ms[i] && ms[i..][1..] == ms[i + 1..];
      EdgeStays(g, all, n, Node(ms[i], exportName));
      var resolution, amb := ResolveExport(g, g[m].stars[i], exportName, set1, all);
      if amb {
        return None, true;
      }
      if resolution.Some? {
        if starResolution.None? {
          starResolution := resolution;
        } else if resolution.value.m != starResolution.value.m || resolution.value.name != starResolution.value.name {
          return None, true;
        }
      }
      i := i + 1;
    }
    return starResolution, false;
  }

  method FirstLocal(es: seq<LocalEntry>, name: string) returns (i: nat)
    ensures i == FindLocal(es, name, 0)
  {
    i := 0;
    while i < |es| && es[i].exportName != name
      invariant i <= |es| && FindLocal(es, name, i) == FindLocal(es, name, 0)
    {
      i := i + 1;
    }
  }

  method FirstIndirect(es: seq<IndirectEntry>, name: string) returns (i: nat)
    ensures i == FindIndirect(es, name, 0)
  {
    i := 0;
    while i < |es| && es[i].exportName != name
      invariant i <= |es| && FindIndirect(es, name, i) == FindIndirect(es, name, 0)
    {
      i := i + 1;
    }
  }
}
