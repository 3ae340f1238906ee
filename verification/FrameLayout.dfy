/**
 What the operands of compiled code mean when it runs: a stack operand is a place in the frame of
 the function, counted from its base, and a stash operand is a number of stashes to go out and a place.
 */
module FrameLayout {
  import opened Scopes
  import opened SlotAllocation
  import opened InnermostScopes

  ghost function Functions(scopes: seq<Scope>): set<nat> {
    set k: nat | k < |scopes| && scopes[k].IsFunction()
  }

  /** The innermost function around `s` has its arguments in its stash. */
  ghost predicate FunctionHasMovedArgs(scopes: seq<Scope>, s: nat)
    requires Rooted(scopes) && s < |scopes|
  {
    exists f: nat :: Innermost(scopes, s, f, Functions(scopes)) && scopes[f].argsInStash
  }

  ghost predicate MarkIn(scopes: seq<Scope>, m: Mark)
    requires Rooted(scopes)
  {
    m.t < |scopes| && m.i < |scopes[m.t].bindings| && m.s < |scopes|
  }

  /** Where a stack operand leads, counted from the base of the frame, with `args` arguments in it. */
  function FramePlace(at: Operand, args: nat): int
    requires !at.AtStash?
  {
    match at
    case AtStack(idx) => if idx <= 0 then -idx else args + idx
    case AtStack1(idx) => idx
  }

  // ---------------------------------------------------------------------------------------
  // Enclosing scopes

  /** Of two scopes around a third, one is around the other. */
  lemma {:induction false} EnclosersNest(scopes: seq<Scope>, t: nat, u: nat, s: nat)
    requires Rooted(scopes) && s < |scopes| && t <= u && Encloses(scopes, t, s) && Encloses(scopes, u, s)
    ensures u <= s && Encloses(scopes, t, u)
    decreases s
  {
    EnclosesBelow(scopes, u, s);
    if u != s { EnclosersNest(scopes, t, u, scopes[s].outer); }
  }

  lemma {:induction false} NotCrossedBetween(scopes: seq<Scope>, t: nat, u: nat, s: nat)
    requires Rooted(scopes) && s < |scopes| && t <= u && Encloses(scopes, u, s) && !Crosses(scopes, s, t)
    ensures u <= s && !Crosses(scopes, u, t)
    decreases s
  {
    EnclosesBelow(scopes, u, s);
    if u != s { NotCrossedBetween(scopes, t, u, scopes[s].outer); }
  }

  /** A scope within which no function begins on the way is in the same function. */
  lemma {:induction false} UncrossedIsWithin(scopes: seq<Scope>, t: nat, s: nat)
    requires Rooted(scopes) && Kinds(scopes) && s < |scopes| && Encloses(scopes, t, s) && !Crosses(scopes, s, t)
    ensures Within(scopes, t, s)
    decreases s
  {
    EnclosesBelow(scopes, t, s);
    if t != s { UncrossedIsWithin(scopes, t, scopes[s].outer); }
  }

  lemma {:induction false} WithinEncloses(scopes: seq<Scope>, t: nat, s: nat)
    requires Rooted(scopes) && s < |scopes| && Within(scopes, t, s)
    ensures Encloses(scopes, t, s)
    decreases s
  {
    if t != s { WithinEncloses(scopes, t, scopes[s].outer); }
  }

  /** Levels add up along the way. */
  lemma {:induction false} LevelsAdd(scopes: seq<Scope>, s: nat, u: nat, t: nat)
    requires Rooted(scopes) && s < |scopes| && t <= u && Encloses(scopes, u, s)
    ensures u <= s && Level(scopes, s, t) == Level(scopes, s, u) + Level(scopes, u, t)
    decreases s
  {
    EnclosesBelow(scopes, u, s);
    if u != s { LevelsAdd(scopes, scopes[s].outer, u, t); }
  }

  // ---------------------------------------------------------------------------------------
  // The form of an operand

  lemma {:induction false} MovedIffInnermost(scopes: seq<Scope>, s: nat)
    requires Rooted(scopes) && s < |scopes|
    ensures ArgsMovedAround(scopes, s) <==> FunctionHasMovedArgs(scopes, s)
    decreases s
  {
    InnermostStep(scopes, s, Functions(scopes));
    hide Innermost;
    if s in Functions(scopes) {
      assert Innermost(scopes, s, s, Functions(scopes));
    } else if s > 0 {
      MovedIffInnermost(scopes, scopes[s].outer);
    }
  }

  /**
   What a rewritten instruction says: it is a stack operand just if the binding is on the stack, with
   the index of its address, in the form for frames without arguments just if the innermost function
   has moved its arguments and the binding is not `this`.
   */
  lemma RightTells(scopes: seq<Scope>, x: Instr, m: Mark)
    requires Rooted(scopes) && MarkIn(scopes, m) && |scopes[m.t].bindings| < 0x100_0000 && Right(scopes, x, m)
    ensures x.at.AtStash? <==> AddressOf(scopes, m.t, m.i).InStash?
    ensures x.at.AtStash? ==>
      && x.at.word / 0x100_0000 == Level(scopes, m.s, m.t)
      && x.at.word % 0x100_0000 == AddressOf(scopes, m.t, m.i).place
    ensures !x.at.AtStash? ==> x.at.idx == AddressOf(scopes, m.t, m.i).idx
    ensures x.at.AtStack1? <==>
      && AddressOf(scopes, m.t, m.i).OnStack? && scopes[m.t].bindings[m.i].name != THIS
      && FunctionHasMovedArgs(scopes, m.t)
  {
    OperandDecodes(scopes, m);
    MovedIffInnermost(scopes, m.t);
    hide FunctionHasMovedArgs, ArgsMovedAround, Level;
  }

  /** The limit on levels is just what lets a stash operand fit into 32 bits. */
  lemma WordFitsIff(scopes: seq<Scope>, x: Instr, m: Mark)
    requires Rooted(scopes) && MarkIn(scopes, m) && |scopes[m.t].bindings| < 0x100_0000 && Right(scopes, x, m)
    requires x.at.AtStash?
    ensures x.at.word < 0x1_0000_0000 <==> Level(scopes, m.s, m.t) <= 255
  {
    OperandDecodes(scopes, m);
    hide OperandOf, Level;
  }

  // ---------------------------------------------------------------------------------------
  // Places in the frame

  /** The arguments of a function that has moved them are not on the stack. */
  lemma ArgumentOnStack(scopes: seq<Scope>, m: Mark)
    requires Valid(scopes) && MarkIn(scopes, m) && m.i < scopes[m.t].numArgs && !Stashed(scopes[m.t], m.i)
    ensures !ArgsMovedAround(scopes, m.t)
  {
    assert ScopeOk(scopes[m.t]);
  }

  /**
   `this` is at the base, argument `i` is where the caller has put it, and everything else is above
   the arguments that are in the frame, within what the function and its blocks have added.
   */
  lemma FrameHolds(scopes: seq<Scope>, x: Instr, m: Mark, args: nat)
    requires Valid(scopes) && MarkIn(scopes, m) && Right(scopes, x, m) && !x.at.AtStash?
    ensures scopes[m.t].bindings[m.i].name == THIS ==> FramePlace(x.at, args) == 0
    ensures scopes[m.t].bindings[m.i].name != THIS && m.i < scopes[m.t].numArgs ==> FramePlace(x.at, args) == 1 + m.i
    ensures scopes[m.t].bindings[m.i].name != THIS && m.i >= scopes[m.t].numArgs ==>
      var above := (if FunctionHasMovedArgs(scopes, m.t) then 0 else args) + Offset(scopes, m.t);
      above < FramePlace(x.at, args) <= above + StackCount(scopes[m.t], |scopes[m.t].bindings|)
  {
    if m.i < scopes[m.t].numArgs { ArgumentOnStack(scopes, m); }
    MovedIffInnermost(scopes, m.t);
    SlotInFrame(scopes[m.t], m.i, Offset(scopes, m.t));
    hide ScopeOk, Nested, ArgsMovedAround, FunctionHasMovedArgs, Offset, StackCount;
  }

  /** Blocks have moved arguments just if their function has. */
  lemma {:induction false} SameFunctionSameForm(scopes: seq<Scope>, t: nat, s: nat)
    requires Valid(scopes) && t < |scopes| && s < |scopes| && Within(scopes, t, s)
    ensures ArgsMovedAround(scopes, t) == ArgsMovedAround(scopes, s)
    decreases s
  {
    hide Nested;
    if t != s {
      SameFunctionSameForm(scopes, t, scopes[s].outer);
      assert ScopeOk(scopes[s]);
    }
  }

  /** Two bindings in use together in one frame are in different places of it. */
  lemma DistinctPlaces(scopes: seq<Scope>, x: Instr, m: Mark, y: Instr, n: Mark, args: nat)
    requires Valid(scopes) && MarkIn(scopes, m) && MarkIn(scopes, n) && Within(scopes, m.t, n.t)
    requires Right(scopes, x, m) && Right(scopes, y, n) && !x.at.AtStash? && !y.at.AtStash?
    requires (m.t, m.i) != (n.t, n.i) && scopes[m.t].numArgs <= args && scopes[n.t].numArgs <= args
    requires scopes[m.t].bindings[m.i].name != THIS || scopes[n.t].bindings[n.i].name != THIS
    ensures FramePlace(x.at, args) != FramePlace(y.at, args)
  {
    FrameHolds(scopes, x, m, args);
    FrameHolds(scopes, y, n, args);
    SameFunctionSameForm(scopes, m.t, n.t);
    MovedIffInnermost(scopes, m.t);
    MovedIffInnermost(scopes, n.t);
    DistinctAddresses(scopes, m.t, m.i, n.t, n.i);
    if m.i < scopes[m.t].numArgs { ArgumentOnStack(scopes, m); }
    if n.i < scopes[n.t].numArgs { ArgumentOnStack(scopes, n); }
    hide ScopeOk, Nested, ArgsMovedAround, FunctionHasMovedArgs, Offset, StackCount;
  }

  // ---------------------------------------------------------------------------------------
  // Different bindings, different operands

  lemma StashedHasStash(scope: Scope, i: nat)
    requires ScopeOk(scope) && i < |scope.bindings| && Stashed(scope, i)
    ensures scope.HasStash()
  {
  }

  lemma DistinctStashOperands(scopes: seq<Scope>, m: Mark, n: Mark)
    requires Valid(scopes) && MarkIn(scopes, m) && MarkIn(scopes, n) && m.s == n.s && m.t <= n.t
    requires Encloses(scopes, m.t, m.s) && Encloses(scopes, n.t, n.s) && (m.t, m.i) != (n.t, n.i)
    requires |scopes[m.t].bindings| < 0x100_0000 && |scopes[n.t].bindings| < 0x100_0000
    requires Stashed(scopes[m.t], m.i) && Stashed(scopes[n.t], n.i)
    ensures OperandOf(scopes, m) != OperandOf(scopes, n)
  {
    OperandDecodes(scopes, m);
    OperandDecodes(scopes, n);
    if m.t == n.t {
      PlacesDiffer(scopes[m.t], m.i, n.i, Offset(scopes, m.t));
    } else {
      LevelsAdd(scopes, m.s, n.t, m.t);
      assert ScopeOk(scopes[n.t]);
      StashedHasStash(scopes[n.t], n.i);
    }
  }

  lemma PlacesDiffer(scope: Scope, i: nat, j: nat, offset: nat)
    requires i < |scope.bindings| && j < |scope.bindings| && i != j && Stashed(scope, i) && Stashed(scope, j)
    ensures SlotAt(scope, i, offset) != SlotAt(scope, j, offset)
  {
    if i < j { CountsGrow(scope, i + 1, j); } else { CountsGrow(scope, j + 1, i); }
  }

  /** Instructions of one scope that refer to different bindings in use together have different operands. */
  lemma DistinctOperands(scopes: seq<Scope>, x: Instr, m: Mark, y: Instr, n: Mark)
    requires Valid(scopes) && MarkIn(scopes, m) && MarkIn(scopes, n) && Within(scopes, m.t, n.t) && m.s == n.s
    requires Encloses(scopes, m.t, m.s) && Encloses(scopes, n.t, n.s)
    requires |scopes[m.t].bindings| < 0x100_0000 && |scopes[n.t].bindings| < 0x100_0000
    requires Right(scopes, x, m) && Right(scopes, y, n) && (m.t, m.i) != (n.t, n.i)
    requires scopes[m.t].bindings[m.i].name != THIS || scopes[n.t].bindings[n.i].name != THIS
    ensures x.at != y.at
  {
    WithinEncloses(scopes, m.t, n.t);
    EnclosesBelow(scopes, m.t, n.t);
    hide ScopeOk, Nested;
    if x.at.AtStash? && y.at.AtStash? {
      DistinctStashOperands(scopes, m, n);
    } else if !x.at.AtStash? && !y.at.AtStash? {
      DistinctPlaces(scopes, x, m, y, n, scopes[m.t].numArgs + scopes[n.t].numArgs);
    }
  }

  /** And so do those that refer to any two bindings, of whatever functions, captured as they must be. */
  lemma CapturedOperandsDiffer(scopes: seq<Scope>, x: Instr, m: Mark, y: Instr, n: Mark)
    requires Good(scopes) && MarkOk(scopes, m) && MarkOk(scopes, n) && m.s == n.s && m.t <= n.t
    requires |scopes[m.t].bindings| < 0x100_0000 && |scopes[n.t].bindings| < 0x100_0000
    requires Right(scopes, x, m) && Right(scopes, y, n) && (m.t, m.i) != (n.t, n.i)
    requires scopes[m.t].bindings[m.i].name != THIS || scopes[n.t].bindings[n.i].name != THIS
    ensures x.at != y.at
  {
    hide ScopeOk, Nested;
    if x.at.AtStash? && y.at.AtStash? {
      DistinctStashOperands(scopes, m, n);
    } else if !x.at.AtStash? && !y.at.AtStash? {
      assert CapturedAt(scopes, m.t, scopes[m.t].bindings[m.i]);
      EnclosersNest(scopes, m.t, n.t, m.s);
      NotCrossedBetween(scopes, m.t, n.t, m.s);
      UncrossedIsWithin(scopes, m.t, n.t);
      DistinctOperands(scopes, x, m, y, n);
    }
  }
}
