/**
 Scopes and the places of variables: looking a name up moves what an inner function captures to a
 stash, and when a function is finished every binding gets a stack slot or a place in a stash.

 Scopes are numbered in the order in which they are opened; scope 0 is the top level.
 */
module Scopes {

  datatype FuncType =
    | FuncNone | FuncRegular | FuncArrow | FuncMethod | FuncClsInit | FuncCtor | FuncDerivedCtor | FuncModule

  /** `accesses` are the scopes whose code refers to the binding. */
  datatype Binding = Binding(name: string, isArg: bool, inStash: bool, accesses: set<nat>)

  datatype Scope = Scope(
    outer: int,
    nested: seq<nat>,
    block: bool,
    funcType: FuncType,
    eval: bool,
    strict: bool,
    variable: bool,
    dynamic: bool,
    dynLookup: bool,
    needStash: bool,
    argsInStash: bool,
    argsNeeded: bool,
    numArgs: nat,
    bindings: seq<Binding>,
    boundNames: map<string, nat>)
  {
    predicate IsFunction() {
      funcType != FuncNone && !eval
    }

    predicate IsDynamic() {
      dynLookup || dynamic
    }

    /** Whether the scope has a stash of its own at run time, as the compiler sees it. */
    predicate HasStash() {
      needStash || dynamic || (dynLookup && |bindings| > 0)
    }
  }

  const THIS: string := " this"
  const ARGUMENTS: string := "arguments"

  // ---------------------------------------------------------------------------------------
  // The scope tree

  ghost predicate Rooted(scopes: seq<Scope>) {
    && |scopes| > 0 && scopes[0].outer == -1
    && (forall s :: 0 < s < |scopes| ==> 0 <= scopes[s].outer < s)
  }

  /** The blocks opened directly in each scope are those nested in it. */
  ghost predicate Nested(scopes: seq<Scope>)
    requires Rooted(scopes)
  {
    && !scopes[0].block
    && (forall s, j :: 0 <= s < |scopes| && 0 <= j < |scopes[s].nested| ==> IsBlockIn(scopes, scopes[s].nested[j], s))
    && (forall n :: 0 < n < |scopes| && scopes[n].block ==> n in scopes[scopes[n].outer].nested)
  }

  predicate IsBlockIn(scopes: seq<Scope>, n: nat, s: nat) {
    n < |scopes| && scopes[n].outer == s && scopes[n].block
  }

  ghost predicate Tree(scopes: seq<Scope>) {
    Rooted(scopes) && Nested(scopes)
  }

  ghost predicate SomeInStash(scope: Scope) {
    exists i :: 0 <= i < |scope.bindings| && scope.bindings[i].inStash
  }

  ghost predicate ScopeOk(scope: Scope) {
    && (forall n :: n in scope.boundNames ==>
      scope.boundNames[n] < |scope.bindings| && scope.bindings[scope.boundNames[n]].name == n)
    && (SomeInStash(scope) || scope.argsInStash ==> scope.needStash)
    && (scope.needStash ==> SomeInStash(scope) || scope.argsInStash)
    && (scope.block ==> !scope.argsInStash && scope.numArgs == 0 && scope.funcType == FuncNone && !scope.eval)
    && (scope.block ==> forall i :: 0 <= i < |scope.bindings| ==> !scope.bindings[i].isArg)
    && scope.numArgs <= |scope.bindings|
    && (forall i :: 0 <= i < |scope.bindings| ==> scope.bindings[i].isArg == (i < scope.numArgs))
    && (scope.argsInStash ==> forall i :: 0 <= i < scope.numArgs ==> scope.bindings[i].inStash)
  }

  /** Every scope but the top level is a block or a function. */
  ghost predicate Kinds(scopes: seq<Scope>) {
    forall s :: 0 < s < |scopes| ==> scopes[s].block || scopes[s].IsFunction()
  }

  ghost predicate Valid(scopes: seq<Scope>) {
    Tree(scopes) && Kinds(scopes) && forall s :: 0 <= s < |scopes| ==> ScopeOk(scopes[s])
  }

  /** `t` encloses `s`, or is `s`. */
  predicate Encloses(scopes: seq<Scope>, t: nat, s: nat)
    requires Rooted(scopes) && s < |scopes|
    decreases s
  {
    t == s || (s > 0 && Encloses(scopes, t, scopes[s].outer))
  }

  /** A function begins on the way out from `s` to `t`. */
  predicate Crosses(scopes: seq<Scope>, s: nat, t: nat)
    requires Rooted(scopes) && s < |scopes|
    decreases s
  {
    s > t && (scopes[s].IsFunction() || Crosses(scopes, scopes[s].outer, t))
  }

  // ---------------------------------------------------------------------------------------
  // Looking up names

  datatype Target = At(scope: nat) | Create(scope: nat) | Refused | Unresolved

  /**
   The nearest enclosing scope that binds the name; `arguments` is bound on demand by a function
   that is not an arrow.
   */
  function Search(scopes: seq<Scope>, s: nat, name: string): (t: Target)
    requires Rooted(scopes) && s < |scopes|
    ensures t.At? || t.Create? ==> 0 < t.scope <= s && Encloses(scopes, t.scope, s)
    ensures t.At? ==> name in scopes[t.scope].boundNames
    ensures t.Create? ==> name !in scopes[t.scope].boundNames && scopes[t.scope].funcType != FuncNone
    decreases s
  {
    if s == 0 then Unresolved
    else if name in scopes[s].boundNames then At(s)
    else if name == ARGUMENTS && scopes[s].funcType != FuncNone && scopes[s].funcType != FuncArrow then
      (if scopes[s].funcType == FuncClsInit then Refused else Create(s))
    else Search(scopes, scopes[s].outer, name)
  }

  function MovedToStash(scope: Scope, i: nat): (r: Scope)
    requires i < |scope.bindings|
    ensures |r.bindings| == |scope.bindings| && (scope.argsInStash ==> r.argsInStash)
  {
    if scope.bindings[i].isArg && !scope.argsInStash then ArgsMoved(scope)
    else scope.(bindings := scope.bindings[i := scope.bindings[i].(inStash := true)], needStash := true)
  }

  function ArgsMoved(scope: Scope): Scope {
    scope.(bindings := ArgsInStash(scope.bindings), argsInStash := true, needStash := true)
  }

  /** The bindings with the arguments, which come first, in the stash. */
  function ArgsInStash(bindings: seq<Binding>): (r: seq<Binding>)
    ensures |r| == |bindings|
  {
    if bindings == [] || !bindings[0].isArg then bindings
    else [bindings[0].(inStash := true)] + ArgsInStash(bindings[1..])
  }

  lemma {:induction false} ArgsInStashAt(bindings: seq<Binding>, n: nat)
    requires n <= |bindings| && forall i :: 0 <= i < |bindings| ==> bindings[i].isArg == (i < n)
    ensures forall i :: 0 <= i < |bindings| ==>
      ArgsInStash(bindings)[i] == if i < n then bindings[i].(inStash := true) else bindings[i]
    decreases |bindings|
  {
    if n > 0 {
      ArgsInStashAt(bindings[1..], n - 1);
      forall i | 0 <= i < |bindings|
        ensures ArgsInStash(bindings)[i] == if i < n then bindings[i].(inStash := true) else bindings[i]
      {
        if i > 0 { assert bindings[i] == bindings[1..][i - 1]; }
      }
    }
  }

  function Bound(scope: Scope, name: string): (r: Scope)
    ensures r.argsInStash == scope.argsInStash
  {
    if name in scope.boundNames then scope
    else scope.(bindings := scope.bindings + [Binding(name, false, false, {})],
      boundNames := scope.boundNames[name := |scope.bindings|])
  }

  /** Where `bindName` puts a variable: the nearest function, variable scope or the top level. */
  function VariableScope(scopes: seq<Scope>, s: nat): (r: nat)
    requires Rooted(scopes) && s < |scopes|
    ensures r <= s && Encloses(scopes, r, s)
    decreases s
  {
    if !scopes[s].IsFunction() && !scopes[s].variable && s > 0 then VariableScope(scopes, scopes[s].outer) else s
  }

  datatype Found = Found(scope: nat, index: nat) | NotFound | SyntaxError

  datatype Lookup = Lookup(scopes: seq<Scope>, found: Found)

  function LookedUp(scopes: seq<Scope>, s: nat, name: string): Lookup
    requires Valid(scopes) && s < |scopes|
  {
    match Search(scopes, s, name)
    case Unresolved => Lookup(scopes, NotFound)
    case Refused => Lookup(scopes, SyntaxError)
    case At(t) =>
      var i := scopes[t].boundNames[name];
      Lookup(if Crosses(scopes, s, t)
        && !scopes[t].bindings[i].inStash then scopes[t := MovedToStash(scopes[t], i)] else scopes, Found(t, i))
    case Create(t) =>
      var marked := scopes[t := scopes[t].(argsNeeded := true)];
      var v := VariableScope(scopes, t);
      var bound := Bound(marked[v], name);
      Lookup(marked[v := bound], Found(v, bound.boundNames[name]))
  }

  // ---------------------------------------------------------------------------------------
  // What a lookup keeps

  lemma MovedIsOk(scope: Scope, i: nat)
    requires ScopeOk(scope) && i < |scope.bindings|
    ensures ScopeOk(MovedToStash(scope, i)) && MovedToStash(scope, i).bindings[i].inStash
    ensures SameButStash(scope, MovedToStash(scope, i))
  {
    if scope.bindings[i].isArg && !scope.argsInStash {
      ArgsMovedIsOk(scope);
    } else {
      OneMovedIsOk(scope, i);
    }
  }

  lemma OneMovedIsOk(scope: Scope, i: nat)
    requires ScopeOk(scope) && i < |scope.bindings|
    requires !scope.bindings[i].isArg || scope.argsInStash
    ensures ScopeOk(MovedToStash(scope, i)) && MovedToStash(scope, i).bindings[i].inStash
    ensures SameButStash(scope, MovedToStash(scope, i))
  {
    var moved := MovedToStash(scope, i);
    assert SameButStash(scope, moved);
    assert moved.bindings[i].inStash;
  }

  lemma ArgsMovedIsOk(scope: Scope)
    requires ScopeOk(scope) && !scope.block
    ensures ScopeOk(ArgsMoved(scope)) && SameButStash(scope, ArgsMoved(scope))
    ensures forall i :: 0 <= i < |scope.bindings| && scope.bindings[i].isArg ==> ArgsMoved(scope).bindings[i].inStash
  {
    ArgsInStashAt(scope.bindings, scope.numArgs);
    hide ArgsInStash;
    assert SameButStash(scope, ArgsMoved(scope));
  }

  /** The same scope, but that more of it may be in its stash. */
  ghost predicate SameButStash(a: Scope, b: Scope) {
    && b == a.(bindings := b.bindings, needStash := b.needStash, argsInStash := b.argsInStash)
    && |a.bindings| == |b.bindings|
    && forall i :: 0 <= i < |a.bindings| ==>
      b.bindings[i] == a.bindings[i].(inStash := b.bindings[i].inStash)
        && (a.bindings[i].inStash ==> b.bindings[i].inStash)
  }

  // ---------------------------------------------------------------------------------------
  // The compiler as it goes through a program

  datatype Op =
    | OpenFunction(outer: nat, funcType: FuncType, strict: bool, args: seq<string>)
    | OpenBlock(outer: nat, variable: bool)
    | Declare(s: nat, name: string)
    | Reference(s: nat, name: string)
    | MoveArgs(s: nat)
    | DirectEval(s: nat)

  function ArgBindings(args: seq<string>): (r: seq<Binding>)
    ensures |r| == |args| && forall i :: 0 <= i < |r| ==> r[i] == Binding(args[i], true, false, {})
  {
    seq(|args|, i requires 0 <= i < |args| => Binding(args[i], true, false, {}))
  }

  /** Of two arguments with the same name, the later one is meant. */
  function ArgNames(args: seq<string>): (r: map<string, nat>)
    ensures forall n :: n in r ==> r[n] < |args| && args[r[n]] == n
  {
    if args == [] then map[] else ArgNames(args[..|args| - 1])[args[|args| - 1] := |args| - 1]
  }

  function FunctionScope(outer: int, funcType: FuncType, strict: bool, args: seq<string>): Scope {
    Scope(outer, [], false, funcType, false, strict, false, false, false, false, false, false, |args|,
      ArgBindings(args), ArgNames(args))
  }

  function BlockScope(outer: nat, strict: bool, variable: bool): Scope {
    Scope(outer, [], true, FuncNone, false, strict, variable, false, false, false, false, false, 0, [], map[])
  }

  function WithBlock(scopes: seq<Scope>, outer: nat, x: Scope): (r: seq<Scope>)
    requires outer < |scopes|
    ensures |r| == |scopes| + 1
  {
    scopes[outer := scopes[outer].(nested := scopes[outer].nested + [|scopes|])] + [x]
  }

  predicate SameButDynamic(a: Scope, b: Scope) {
    b == a.(dynamic := b.dynamic, dynLookup := b.dynLookup)
  }

  /** The scopes a direct `eval` in `s` can look into, and the one it can add variables to. */
  function EvalMarked(scopes: seq<Scope>, s: nat, foundVar: bool): (r: seq<Scope>)
    requires Rooted(scopes) && s < |scopes|
    ensures |r| == |scopes| && forall k :: 0 <= k < |r| ==> SameButDynamic(scopes[k], r[k])
    ensures forall k :: s < k < |r| ==> r[k] == scopes[k]
    decreases s
  {
    var here := !foundVar && (scopes[s].variable || scopes[s].IsFunction());
    var marked := scopes[s].(dynamic := scopes[s].dynamic || (here && !scopes[s].strict), dynLookup := true);
    var rest := scopes[s := marked];
    if s == 0 then rest else EvalMarked(rest, scopes[s].outer, foundVar || here)
  }

  function Marked(scopes: seq<Scope>, t: nat, i: nat, s: nat): seq<Scope>
    requires t < |scopes| && i < |scopes[t].bindings|
  {
    var b := scopes[t].bindings[i];
    scopes[t := scopes[t].(bindings := scopes[t].bindings[i := b.(accesses := b.accesses + {s})])]
  }

  function Referenced(scopes: seq<Scope>, s: nat, name: string): seq<Scope>
    requires Valid(scopes) && s < |scopes|
  {
    var l := LookedUp(scopes, s, name);
    if l.found.Found? && l.found.scope < |l.scopes| && l.found.index < |l.scopes[l.found.scope].bindings|
    then Marked(l.scopes, l.found.scope, l.found.index, s) else l.scopes
  }

  predicate Applies(scopes: seq<Scope>, op: Op) {
    match op
    case OpenFunction(outer, funcType, _, _) => outer < |scopes| && funcType != FuncNone
    case OpenBlock(outer, _) => outer < |scopes|
    case Declare(s, _) => s < |scopes|
    case Reference(s, _) => s < |scopes|
    case MoveArgs(s) => s < |scopes| && scopes[s].IsFunction()
    case DirectEval(s) => s < |scopes|
  }

  function Step(scopes: seq<Scope>, op: Op): seq<Scope>
    requires Valid(scopes) && Applies(scopes, op)
  {
    match op
    case OpenFunction(outer, funcType, strict, args) => scopes + [FunctionScope(outer, funcType, strict, args)]
    case OpenBlock(outer, variable) =>
      WithBlock(scopes, outer, BlockScope(outer, scopes[outer].strict, variable))
    case Declare(s, name) => scopes[s := Bound(scopes[s], name)]
    case Reference(s, name) => Referenced(scopes, s, name)
    case MoveArgs(s) => scopes[s := ArgsMoved(scopes[s])]
    case DirectEval(s) => EvalMarked(scopes, s, false)
  }

  // ---------------------------------------------------------------------------------------
  // What the compiler keeps

  /** A reference from inside a function to a binding outside of it has put the binding in a stash. */
  ghost predicate CapturedAt(scopes: seq<Scope>, t: nat, b: Binding)
    requires Rooted(scopes)
  {
    forall s :: s in b.accesses ==> s < |scopes| && Encloses(scopes, t, s) && (Crosses(scopes, s, t) ==> b.inStash)
  }

  ghost predicate Captured(scopes: seq<Scope>)
    requires Rooted(scopes)
  {
    forall t, i :: 0 <= t < |scopes| && 0 <= i < |scopes[t].bindings| ==> CapturedAt(scopes, t, scopes[t].bindings[i])
  }

  /** Scopes may have been added; those there keep their place. */
  ghost predicate SamePlaces(a: seq<Scope>, b: seq<Scope>) {
    |a| <= |b| && forall k :: 0 <= k < |a| ==>
      b[k].outer == a[k].outer && b[k].funcType == a[k].funcType && b[k].eval == a[k].eval
  }

  lemma {:induction false} PlacesTell(a: seq<Scope>, b: seq<Scope>, s: nat, t: nat)
    requires Rooted(a) && Rooted(b) && SamePlaces(a, b) && s < |a|
    ensures Encloses(b, t, s) == Encloses(a, t, s) && Crosses(b, s, t) == Crosses(a, s, t)
    decreases s
  {
    if s > 0 { PlacesTell(a, b, a[s].outer, t); }
  }

  /** Bindings keep their accesses, and stay in the stash. */
  ghost predicate BindingsKept(a: Scope, b: Scope) {
    && |a.bindings| <= |b.bindings|
    && (forall i :: 0 <= i < |a.bindings| ==>
      b.bindings[i].accesses == a.bindings[i].accesses && (a.bindings[i].inStash ==> b.bindings[i].inStash))
    && (forall i :: |a.bindings| <= i < |b.bindings| ==> b.bindings[i].accesses == {})
  }

  lemma KeepsCaptured(a: seq<Scope>, b: seq<Scope>)
    requires Rooted(a) && Rooted(b) && SamePlaces(a, b) && Captured(a)
    requires forall k :: 0 <= k < |a| ==> BindingsKept(a[k], b[k])
    requires forall k, i :: |a| <= k < |b| && 0 <= i < |b[k].bindings| ==> b[k].bindings[i].accesses == {}
    ensures Captured(b)
  {
    forall t, i | 0 <= t < |b| && 0 <= i < |b[t].bindings| ensures CapturedAt(b, t, b[t].bindings[i]) {
      if t < |a| && i < |a[t].bindings| {
        assert CapturedAt(a, t, a[t].bindings[i]) && BindingsKept(a[t], b[t]);
        forall s | s in b[t].bindings[i].accesses
          ensures s < |b| && Encloses(b, t, s) && (Crosses(b, s, t) ==> b[t].bindings[i].inStash)
        {
          PlacesTell(a, b, s, t);
        }
      }
    }
  }

  lemma SamePlacesSameCapture(a: seq<Scope>, b: seq<Scope>, t: nat, x: Binding)
    requires Rooted(a) && Rooted(b) && SamePlaces(a, b) && |a| == |b|
    ensures CapturedAt(a, t, x) == CapturedAt(b, t, x)
  {
    forall s | s in x.accesses && s < |a|
      ensures Encloses(b, t, s) == Encloses(a, t, s) && Crosses(b, s, t) == Crosses(a, s, t)
    {
      PlacesTell(a, b, s, t);
    }
  }

  lemma MarkIsValid(scopes: seq<Scope>, t: nat, i: nat, s: nat)
    requires Valid(scopes) && t < |scopes| && i < |scopes[t].bindings|
    ensures Valid(Marked(scopes, t, i, s)) && SamePlaces(scopes, Marked(scopes, t, i, s))
  {
    hide ScopeOk, Rooted, Nested;
    OkWithAccess(scopes[t], i, s);
    TreeKept(scopes, Marked(scopes, t, i, s));
  }

  lemma MarkKeeps(scopes: seq<Scope>, t: nat, i: nat, s: nat)
    requires Valid(scopes) && Captured(scopes) && t < |scopes| && i < |scopes[t].bindings|
    requires s < |scopes| && Encloses(scopes, t, s)
    ensures Valid(Marked(scopes, t, i, s))
    ensures Captured(Marked(scopes, t, i, s)) <==> (Crosses(scopes, s, t) ==> scopes[t].bindings[i].inStash)
  {
    MarkIsValid(scopes, t, i, s);
    hide ScopeOk, Rooted, Nested, Kinds, SamePlaces;
    var b := Marked(scopes, t, i, s);
    forall u, j | 0 <= u < |b| && 0 <= j < |b[u].bindings|
      ensures CapturedAt(b, u, b[u].bindings[j]) == CapturedAt(scopes, u, b[u].bindings[j])
    {
      SamePlacesSameCapture(scopes, b, u, b[u].bindings[j]);
    }
    forall u, j | 0 <= u < |b| && 0 <= j < |b[u].bindings| && (u != t || j != i)
      ensures CapturedAt(scopes, u, b[u].bindings[j])
    {
      assert b[u].bindings[j] == scopes[u].bindings[j];
    }
    assert CapturedAt(scopes, t, scopes[t].bindings[i]);
    assert CapturedAt(scopes, t, b[t].bindings[i]) <==> (Crosses(scopes, s, t) ==> scopes[t].bindings[i].inStash);
    hide CapturedAt;
  }

  lemma OkWithAccess(scope: Scope, i: nat, s: nat)
    requires ScopeOk(scope) && i < |scope.bindings|
    ensures var b := scope.bindings[i]; ScopeOk(scope.(bindings := scope.bindings[i := b.(accesses := b.accesses
      + {s})]))
  {
    var b := scope.bindings[i];
    var changed := scope.(bindings := scope.bindings[i := b.(accesses := b.accesses + {s})]);
    assert forall k :: 0 <= k < |scope.bindings| ==>
      changed.bindings[k] == scope.bindings[k].(accesses := changed.bindings[k].accesses);
  }

  /** Changes that touch neither the order nor the kind of scopes. */
  lemma TreeKept(a: seq<Scope>, b: seq<Scope>)
    requires Tree(a) && |b| == |a|
    requires forall k :: 0 <= k < |a| ==>
      b[k].outer == a[k].outer && b[k].nested == a[k].nested && b[k].block == a[k].block
    ensures Tree(b)
  {
    forall s, j | 0 <= s < |b| && 0 <= j < |b[s].nested| ensures IsBlockIn(b, b[s].nested[j], s) {
      assert b[s].nested == a[s].nested;
      assert IsBlockIn(a, a[s].nested[j], s);
    }
    forall n | 0 < n < |b| && b[n].block ensures n in b[b[n].outer].nested {
      var o := a[n].outer;
      assert n in a[o].nested && b[o].nested == a[o].nested;
    }
  }

  lemma BoundIsOk(scope: Scope, name: string)
    requires ScopeOk(scope)
    ensures ScopeOk(Bound(scope, name)) && BindingsKept(scope, Bound(scope, name))
    ensures var bound := Bound(scope, name);
      && name in bound.boundNames && bound.boundNames[name] < |bound.bindings|
      && (bound.bindings[bound.boundNames[name]].inStash <==>
        name in scope.boundNames && scope.bindings[scope.boundNames[name]].inStash)
  {
    var bound := Bound(scope, name);
    if name !in scope.boundNames {
      assert forall k :: 0 <= k < |scope.bindings| ==> bound.bindings[k] == scope.bindings[k];
      assert SomeInStash(bound) ==> SomeInStash(scope);
    }
  }

  /** Replacing one scope by another in the same place. */
  lemma ReplaceKeeps(scopes: seq<Scope>, t: nat, x: Scope)
    requires Valid(scopes) && Captured(scopes) && t < |scopes| && ScopeOk(x) && BindingsKept(scopes[t], x)
    requires x.outer == scopes[t].outer && x.nested == scopes[t].nested && x.block == scopes[t].block
    requires x.funcType == scopes[t].funcType && x.eval == scopes[t].eval
    ensures Valid(scopes[t := x]) && Captured(scopes[t := x]) && SamePlaces(scopes, scopes[t := x])
  {
    var b := scopes[t := x];
    hide ScopeOk, Nested;
    TreeKept(scopes, b);
    KeepsCaptured(scopes, b);
  }

  /**
   A lookup for `arguments` from an inner function finds it bound by nobody, and binds it outside of
   that function on the stack.
   */
  predicate Uncaptured(scopes: seq<Scope>, s: nat, name: string)
    requires Valid(scopes) && s < |scopes|
  {
    var t := Search(scopes, s, name);
    t.Create? && Crosses(scopes, s, t.scope)
  }

  ghost predicate FoundWell(scopes: seq<Scope>, s: nat, l: Lookup)
    requires Rooted(l.scopes)
  {
    && |l.scopes| == |scopes| && s < |scopes|
    && (l.found.Found? ==>
      l.found.scope < |scopes| && l.found.index < |l.scopes[l.found.scope].bindings|
        && Encloses(l.scopes, l.found.scope, s))
  }

  lemma LookupAtKeeps(scopes: seq<Scope>, s: nat, name: string)
    requires Valid(scopes) && Captured(scopes) && s < |scopes| && Search(scopes, s, name).At?
    ensures var l := LookedUp(scopes, s, name);
      && Valid(l.scopes) && Captured(l.scopes) && FoundWell(scopes, s, l) && l.found.Found?
      && (Crosses(l.scopes, s, l.found.scope) ==> l.scopes[l.found.scope].bindings[l.found.index].inStash)
  {
    hide Captured;
    var t := Search(scopes, s, name).scope;
    var i := scopes[t].boundNames[name];
    MovedIsOk(scopes[t], i);
    var l := LookedUp(scopes, s, name);
    hide ScopeOk, Search;
    assert BindingsKept(scopes[t], MovedToStash(scopes[t], i));
    ReplaceKeeps(scopes, t, MovedToStash(scopes[t], i));
    PlacesTell(scopes, l.scopes, s, t);
  }

  lemma NeededIsOk(scope: Scope)
    requires ScopeOk(scope)
    ensures ScopeOk(scope.(argsNeeded := true)) && BindingsKept(scope, scope.(argsNeeded := true))
  {
    assert SomeInStash(scope.(argsNeeded := true)) <==> SomeInStash(scope);
  }

  /** A function that `arguments` is looked up in binds it itself. */
  lemma FunctionBinds(scopes: seq<Scope>, t: nat)
    requires Valid(scopes) && 0 < t < |scopes| && scopes[t].funcType != FuncNone
    ensures scopes[t].IsFunction() && VariableScope(scopes, t) == t
  {
    assert ScopeOk(scopes[t]);
  }

  lemma LookupCreates(scopes: seq<Scope>, s: nat, name: string)
    requires Valid(scopes) && Captured(scopes) && s < |scopes| && Search(scopes, s, name).Create?
    ensures var l := LookedUp(scopes, s, name);
      && Valid(l.scopes) && Captured(l.scopes) && FoundWell(scopes, s, l) && l.found.Found?
      && ((Crosses(l.scopes, s, l.found.scope) ==> l.scopes[l.found.scope].bindings[l.found.index].inStash) <==>
        !Uncaptured(scopes, s, name))
  {
    hide Captured, ScopeOk, Nested;
    var t := Search(scopes, s, name).scope;
    var x := scopes[t].(argsNeeded := true);
    NeededIsOk(scopes[t]);
    var v := VariableScope(scopes, t);
    FunctionBinds(scopes, t);
    ReplaceKeeps(scopes, t, x);
    var marked := scopes[t := x];
    BoundIsOk(marked[v], name);
    var l := LookedUp(scopes, s, name);
    ReplaceKeeps(marked, v, Bound(marked[v], name));
    PlacesTell(scopes, l.scopes, s, v);
  }

  /**
   Whatever is referred to from an inner function is in a stash, unless it is an `arguments` bound
   by that very reference.
   */
  lemma ReferenceCapturesIff(scopes: seq<Scope>, s: nat, name: string)
    requires Valid(scopes) && Captured(scopes) && s < |scopes|
    ensures Valid(Referenced(scopes, s, name))
    ensures Captured(Referenced(scopes, s, name)) <==> !Uncaptured(scopes, s, name)
  {
    hide ScopeOk, Captured, Nested;
    var l := LookedUp(scopes, s, name);
    if Search(scopes, s, name).At? {
      LookupAtKeeps(scopes, s, name);
      MarkKeeps(l.scopes, l.found.scope, l.found.index, s);
    } else if Search(scopes, s, name).Create? {
      LookupCreates(scopes, s, name);
      MarkKeeps(l.scopes, l.found.scope, l.found.index, s);
    }
  }

  lemma FunctionKeeps(scopes: seq<Scope>, x: Scope)
    requires Valid(scopes) && Captured(scopes) && ScopeOk(x) && 0 <= x.outer < |scopes| && !x.block && x.IsFunction()
    requires x.nested == []
    requires forall i :: 0 <= i < |x.bindings| ==> x.bindings[i].accesses == {}
    ensures Valid(scopes + [x]) && Captured(scopes + [x])
  {
    hide ScopeOk;
    var b := scopes + [x];
    assert Rooted(b);
    forall s, j | 0 <= s < |b| && 0 <= j < |b[s].nested| ensures IsBlockIn(b, b[s].nested[j], s) {
      assert IsBlockIn(scopes, scopes[s].nested[j], s);
    }
    KeepsCaptured(scopes, b);
  }

  lemma BlockTree(scopes: seq<Scope>, outer: nat, x: Scope)
    requires Tree(scopes) && outer < |scopes| && x.outer == outer && x.block && x.nested == []
    ensures Tree(WithBlock(scopes, outer, x))
  {
    var b := WithBlock(scopes, outer, x);
    forall s, j | 0 <= s < |b| && 0 <= j < |b[s].nested| ensures IsBlockIn(b, b[s].nested[j], s) {
      if s < |scopes| && j < |scopes[s].nested| { assert IsBlockIn(scopes, scopes[s].nested[j], s); }
    }
    forall n | 0 < n < |b| && b[n].block ensures n in b[b[n].outer].nested {
      if n < |scopes| { assert n in scopes[scopes[n].outer].nested; }
    }
  }

  lemma BlockKeeps(scopes: seq<Scope>, outer: nat, x: Scope)
    requires Valid(scopes) && Captured(scopes) && outer < |scopes| && ScopeOk(x) && x.outer == outer && x.block
    requires x.nested == [] && x.bindings == []
    ensures Valid(WithBlock(scopes, outer, x)) && Captured(WithBlock(scopes, outer, x))
  {
    var y := scopes[outer].(nested := scopes[outer].nested + [|scopes|]);
    assert ScopeOk(y) by { assert SomeInStash(y) <==> SomeInStash(scopes[outer]); }
    hide ScopeOk, Nested;
    BlockTree(scopes, outer, x);
    KeepsCaptured(scopes, WithBlock(scopes, outer, x));
  }

  lemma EvalKeeps(scopes: seq<Scope>, s: nat)
    requires Valid(scopes) && Captured(scopes) && s < |scopes|
    ensures Valid(EvalMarked(scopes, s, false)) && Captured(EvalMarked(scopes, s, false))
  {
    var b := EvalMarked(scopes, s, false);
    forall k | 0 <= k < |b| ensures ScopeOk(b[k]) && BindingsKept(scopes[k], b[k]) {
      assert SameButDynamic(scopes[k], b[k]);
      DynamicIsOk(scopes[k], b[k]);
    }
    hide ScopeOk;
    assert forall k :: 0 <= k < |b| ==> SameButDynamic(scopes[k], b[k]);
    TreeKept(scopes, b);
    KeepsCaptured(scopes, b);
  }

  lemma DynamicIsOk(a: Scope, b: Scope)
    requires ScopeOk(a) && SameButDynamic(a, b)
    ensures ScopeOk(b) && BindingsKept(a, b)
  {
    assert SomeInStash(a) <==> SomeInStash(b);
  }

  lemma ArgsKeep(scopes: seq<Scope>, s: nat)
    requires Valid(scopes) && Captured(scopes) && s < |scopes| && !scopes[s].block
    ensures Valid(scopes[s := ArgsMoved(scopes[s])]) && Captured(scopes[s := ArgsMoved(scopes[s])])
  {
    hide Captured, ArgsInStash;
    ArgsMovedIsOk(scopes[s]);
    hide ScopeOk;
    assert BindingsKept(scopes[s], ArgsMoved(scopes[s]));
    ReplaceKeeps(scopes, s, ArgsMoved(scopes[s]));
  }

  /** A step that is not such a reference to `arguments`. */
  predicate Clean(scopes: seq<Scope>, op: Op)
    requires Valid(scopes) && Applies(scopes, op)
  {
    op.Reference? ==> !Uncaptured(scopes, op.s, op.name)
  }

  lemma StepKeeps(scopes: seq<Scope>, op: Op)
    requires Valid(scopes) && Captured(scopes) && Applies(scopes, op)
    ensures Valid(Step(scopes, op))
    ensures Captured(Step(scopes, op)) <==> Clean(scopes, op)
  {
    hide Captured, Nested, EvalMarked, Uncaptured, Referenced;
    match op {
      case OpenFunction(outer, funcType, strict, args) =>
        FunctionIsOk(outer, funcType, strict, args);
        FunctionKeeps(scopes, FunctionScope(outer, funcType, strict, args));
      case OpenBlock(outer, variable) =>
        assert ScopeOk(BlockScope(outer, scopes[outer].strict, variable));
        BlockKeeps(scopes, outer, BlockScope(outer, scopes[outer].strict, variable));
      case Declare(s, name) =>
        BoundIsOk(scopes[s], name);
        ReplaceKeeps(scopes, s, Bound(scopes[s], name));
      case Reference(s, name) => ReferenceCapturesIff(scopes, s, name);
      case MoveArgs(s) => ArgsKeep(scopes, s);
      case DirectEval(s) => EvalKeeps(scopes, s);
    }
  }

  lemma FunctionIsOk(outer: int, funcType: FuncType, strict: bool, args: seq<string>)
    ensures ScopeOk(FunctionScope(outer, funcType, strict, args))
  {
    var x := FunctionScope(outer, funcType, strict, args);
    assert !SomeInStash(x);
  }

  /** The compiler at the top level of a program or of the code given to `eval`. */
  function Initial(strict: bool, eval: bool): seq<Scope> {
    [FunctionScope(-1, FuncNone, strict, []).(dynamic := true, eval := eval)]
  }

  /** The scopes are well formed and what is captured is in a stash. */
  ghost predicate Good(scopes: seq<Scope>) {
    Valid(scopes) && Captured(scopes)
  }

  ghost predicate IsStep(a: seq<Scope>, op: Op, b: seq<Scope>) {
    Valid(a) && Applies(a, op) && b == Step(a, op)
  }

  ghost predicate IsClean(a: seq<Scope>, op: Op) {
    Valid(a) && Applies(a, op) && Clean(a, op)
  }

  /** The scopes after each step. */
  ghost predicate IsRun(states: seq<seq<Scope>>, ops: seq<Op>) {
    && |states| == |ops| + 1
    && (exists strict, eval :: states[0] == Initial(strict, eval))
    && forall k :: 0 <= k < |ops| ==> IsStep(states[k], ops[k], states[k + 1])
  }

  lemma StepIsGoodIff(a: seq<Scope>, op: Op, b: seq<Scope>)
    requires Good(a) && IsStep(a, op, b)
    ensures Good(b) <==> IsClean(a, op)
  {
    hide Step, Clean, ScopeOk, Nested, Rooted;
    StepKeeps(a, op);
  }

  /**
   In every run, up to a first reference to `arguments` of that kind and only so far, what is
   captured is in a stash.
   */
  lemma {:induction false} EveryRunCaptures(states: seq<seq<Scope>>, ops: seq<Op>, n: nat)
    requires IsRun(states, ops) && n <= |ops|
    requires forall k :: 0 <= k < n ==> IsClean(states[k], ops[k])
    ensures Good(states[n])
    ensures n < |ops| ==> (Good(states[n + 1]) <==> IsClean(states[n], ops[n]))
    decreases n
  {
    hide Good, IsStep, IsClean, Initial;
    if n == 0 {
      var strict, eval :| states[0] == Initial(strict, eval);
      InitialIsGood(strict, eval);
    } else {
      EveryRunCaptures(states, ops, n - 1);
      assert IsStep(states[n - 1], ops[n - 1], states[n - 1 + 1]);
      StepIsGoodIff(states[n - 1], ops[n - 1], states[n]);
    }
    if n < |ops| {
      assert IsStep(states[n], ops[n], states[n + 1]);
      StepIsGoodIff(states[n], ops[n], states[n + 1]);
    }
  }

  lemma InitialIsGood(strict: bool, eval: bool)
    ensures Good(Initial(strict, eval))
  {
    assert !SomeInStash(Initial(strict, eval)[0]);
  }

  /**
   For instance `function f() { (() => arguments)() }`, where the arrow refers to a binding of `f`
   that is left on the stack.
   */
  lemma ArgumentsOfArrow(strict: bool, eval: bool)
    ensures var outside := Initial(strict, eval);
      var f, arrow := FunctionScope(0, FuncRegular, strict, []), FunctionScope(1, FuncArrow, strict, []);
      && IsStep(outside, OpenFunction(0, FuncRegular, strict, []), outside + [f])
      && IsStep(outside + [f], OpenFunction(1, FuncArrow, strict, []), outside + [f] + [arrow])
      && Good(outside + [f] + [arrow]) && !IsClean(outside + [f] + [arrow], Reference(2, ARGUMENTS))
  {
    var outside := Initial(strict, eval);
    var f, arrow := FunctionScope(0, FuncRegular, strict, []), FunctionScope(1, FuncArrow, strict, []);
    InitialIsGood(strict, eval);
    FunctionIsOk(0, FuncRegular, strict, []);
    FunctionIsOk(1, FuncArrow, strict, []);
    FunctionKeeps(outside, f);
    FunctionKeeps(outside + [f], arrow);
    ArrowIsUncaptured(outside + [f] + [arrow]);
  }

  lemma ArrowIsUncaptured(scopes: seq<Scope>)
    requires Valid(scopes) && |scopes| == 3 && scopes[2].outer == 1 && scopes[2].funcType == FuncArrow
    requires !scopes[2].eval
    requires scopes[1].outer == 0 && scopes[1].funcType == FuncRegular && !scopes[1].eval
    requires scopes[1].boundNames == map[] && scopes[2].boundNames == map[]
    ensures Uncaptured(scopes, 2, ARGUMENTS)
  {
    hide ScopeOk, Nested;
    assert Search(scopes, 1, ARGUMENTS) == Create(1);
    assert VariableScope(scopes, 1) == 1;
    assert Crosses(scopes, 2, 1);
  }
}
