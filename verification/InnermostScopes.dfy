/**
 Which scope a name, a variable or a direct `eval` is about, told by the scopes around it alone: in
 each case it is the innermost one of a certain kind.
 */
module InnermostScopes {
  import opened Scopes
  import opened SlotAllocation

  /** Of the scopes in `some`, `t` is the innermost that is `s` or around it. */
  ghost predicate Innermost(scopes: seq<Scope>, s: nat, t: nat, some: set<nat>)
    requires Rooted(scopes) && s < |scopes|
  {
    && t in some && t <= s && Encloses(scopes, t, s)
    && forall k: nat :: t < k <= s && Encloses(scopes, k, s) ==> k !in some
  }

  lemma {:induction false} EnclosesBelow(scopes: seq<Scope>, t: nat, s: nat)
    requires Rooted(scopes) && s < |scopes| && Encloses(scopes, t, s)
    ensures t <= s
    decreases s
  {
    if t != s { EnclosesBelow(scopes, t, scopes[s].outer); }
  }

  /** Seen from a scope, the innermost one is that scope, or the innermost seen from the scope around it. */
  lemma InnermostStep(scopes: seq<Scope>, s: nat, some: set<nat>)
    requires Rooted(scopes) && s < |scopes|
    ensures s in some ==> forall t: nat :: Innermost(scopes, s, t, some) <==> t == s
    ensures s !in some && s > 0 ==>
      forall t: nat :: Innermost(scopes, s, t, some) <==> Innermost(scopes, scopes[s].outer, t, some)
    ensures s !in some && s == 0 ==> forall t: nat :: !Innermost(scopes, s, t, some)
  {
    if s !in some && s > 0 {
      var o := scopes[s].outer;
      forall k: nat ensures k != s ==> (Encloses(scopes, k, s) <==> k <= o && Encloses(scopes, k, o)) {
        if k != s && Encloses(scopes, k, s) { EnclosesBelow(scopes, k, o); }
      }
    }
  }

  // ---------------------------------------------------------------------------------------
  // Names

  /** The scopes at which a search for the name ends. */
  ghost function Ends(scopes: seq<Scope>, name: string): set<nat> {
    set k: nat | 0 < k < |scopes|
      && (name in scopes[k].boundNames
          || (name == ARGUMENTS && scopes[k].funcType != FuncNone && scopes[k].funcType != FuncArrow))
  }

  /**
   A name means the innermost scope that binds it; `arguments` is made by the innermost function that
   is no arrow, or refused in a class initialiser; and a name that ends nowhere is unresolved.
   */
  lemma {:induction false} SearchIsInnermost(scopes: seq<Scope>, s: nat, name: string)
    requires Rooted(scopes) && s < |scopes|
    ensures forall t: nat :: Innermost(scopes, s, t, Ends(scopes, name)) ==>
      Search(scopes, s, name) ==
        if name in scopes[t].boundNames then Target.At(t)
        else if scopes[t].funcType == FuncClsInit then Refused
        else Create(t)
    ensures (forall t: nat :: !Innermost(scopes, s, t, Ends(scopes, name))) ==>
      Search(scopes, s, name) == Unresolved
    decreases s
  {
    InnermostStep(scopes, s, Ends(scopes, name));
    hide Innermost;
    if s > 0 && s !in Ends(scopes, name) { SearchIsInnermost(scopes, scopes[s].outer, name); }
  }

  /** No scope passed on the way from `s` to `t` takes variables at run time. */
  ghost predicate NoneDynamicBefore(scopes: seq<Scope>, s: nat, t: nat)
    requires Rooted(scopes) && s < |scopes|
  {
    forall k: nat :: t < k <= s && Encloses(scopes, k, s) ==> !scopes[k].dynamic
  }

  lemma NoneDynamicStep(scopes: seq<Scope>, s: nat, t: nat)
    requires Rooted(scopes) && 0 < s < |scopes| && t < s
    ensures NoneDynamicBefore(scopes, s, t) <==>
      !scopes[s].dynamic && NoneDynamicBefore(scopes, scopes[s].outer, t)
  {
    var o := scopes[s].outer;
    assert Encloses(scopes, s, s);
    forall k: nat ensures k != s ==> (Encloses(scopes, k, s) <==> k <= o && Encloses(scopes, k, o)) {
      if k != s && Encloses(scopes, k, s) { EnclosesBelow(scopes, k, o); }
    }
  }

  /** A name is known not to change its meaning just if no scope passed, or made to bind it, can get variables. */
  lemma {:induction false} NoDynamicsTells(scopes: seq<Scope>, s: nat, name: string)
    requires Rooted(scopes) && s < |scopes|
    ensures forall t: nat :: Innermost(scopes, s, t, Ends(scopes, name)) ==>
      (NoDynamics(scopes, s, name) <==>
        NoneDynamicBefore(scopes, s, t) && (name in scopes[t].boundNames || !scopes[t].dynamic))
    ensures (forall t: nat :: !Innermost(scopes, s, t, Ends(scopes, name))) ==> !NoDynamics(scopes, s, name)
    decreases s
  {
    InnermostStep(scopes, s, Ends(scopes, name));
    if s > 0 && s !in Ends(scopes, name) {
      NoDynamicsTells(scopes, scopes[s].outer, name);
      forall t: nat | Innermost(scopes, s, t, Ends(scopes, name))
        ensures NoneDynamicBefore(scopes, s, t) <==>
          !scopes[s].dynamic && NoneDynamicBefore(scopes, scopes[s].outer, t)
      {
        NoneDynamicStep(scopes, s, t);
      }
      hide Innermost, NoneDynamicBefore;
    }
  }

  // ---------------------------------------------------------------------------------------
  // Variables and `eval`

  ghost function VariableScopes(scopes: seq<Scope>): set<nat> {
    set k: nat | k < |scopes| && (scopes[k].IsFunction() || scopes[k].variable)
  }

  /** A variable goes to the innermost function or variable scope, or to the top level where there is none. */
  lemma {:induction false} VariableGoesInnermost(scopes: seq<Scope>, s: nat)
    requires Rooted(scopes) && s < |scopes|
    ensures Innermost(scopes, s, VariableScope(scopes, s), VariableScopes(scopes) + {0})
    decreases s
  {
    InnermostStep(scopes, s, VariableScopes(scopes) + {0});
    hide Innermost;
    if s !in VariableScopes(scopes) + {0} { VariableGoesInnermost(scopes, scopes[s].outer); }
  }

  /** What a direct `eval` in `s` does to scope `k`. */
  ghost predicate EvalMarks(scopes: seq<Scope>, s: nat, k: nat, r: Scope)
    requires Rooted(scopes) && s < |scopes| && k < |scopes|
  {
    && SameButDynamic(scopes[k], r)
    && (r.dynLookup <==> scopes[k].dynLookup || Encloses(scopes, k, s))
    && (r.dynamic <==>
        scopes[k].dynamic || (!scopes[k].strict && Innermost(scopes, s, k, VariableScopes(scopes))))
  }

  /** It looks into every scope around it, and adds variables to the innermost variable scope unless that is strict. */
  lemma EvalMarksInnermost(scopes: seq<Scope>, s: nat)
    requires Rooted(scopes) && s < |scopes|
    ensures forall k: nat :: k < |scopes| ==> EvalMarks(scopes, s, k, EvalMarked(scopes, s, false)[k])
  {
    forall k: nat | k < |scopes| ensures EvalMarks(scopes, s, k, EvalMarked(scopes, s, false)[k]) {
      EvalMarkedAt(scopes, s, false, k);
    }
  }

  lemma {:induction false} EvalMarkedAt(scopes: seq<Scope>, s: nat, foundVar: bool, k: nat)
    requires Rooted(scopes) && s < |scopes| && k < |scopes|
    ensures var r := EvalMarked(scopes, s, foundVar)[k];
      && (r.dynLookup <==> scopes[k].dynLookup || Encloses(scopes, k, s))
      && (r.dynamic <==>
          scopes[k].dynamic || (!foundVar && !scopes[k].strict && Innermost(scopes, s, k, VariableScopes(scopes))))
    decreases s
  {
    hide EvalMarked, Innermost;
    EvalMarkedStep(scopes, s, foundVar);
    InnermostStep(scopes, s, VariableScopes(scopes));
    if s > 0 {
      var here := !foundVar && (scopes[s].variable || scopes[s].IsFunction());
      var o := scopes[s].outer;
      var marked := scopes[s].(dynamic := scopes[s].dynamic || (here && !scopes[s].strict), dynLookup := true);
      var rest := scopes[s := marked];
      EvalMarkedAt(rest, o, foundVar || here, k);
      SameVariables(scopes, rest, o, k);
      if k == s && Encloses(scopes, k, o) { EnclosesBelow(scopes, k, o); }
    }
  }

  lemma SameVariables(a: seq<Scope>, b: seq<Scope>, s: nat, k: nat)
    requires Rooted(a) && Rooted(b) && |a| == |b| && s < |a| && k < |a|
    requires forall x :: 0 <= x < |a| ==> SameButDynamic(a[x], b[x])
    ensures Encloses(a, k, s) == Encloses(b, k, s)
    ensures Innermost(a, s, k, VariableScopes(a)) == Innermost(b, s, k, VariableScopes(b))
  {
    assert VariableScopes(a) == VariableScopes(b);
    forall t: nat ensures Encloses(a, t, s) == Encloses(b, t, s) {
      PlacesTell(a, b, s, t);
    }
  }
}
