/**
 Where bindings live once a function has been compiled: stack slots counted on from block to block,
 places in stashes, and the number of stashes to go out from the code that refers to them.
 */
module SlotAllocation {
  import opened Options
  import opened Scopes

  // ---------------------------------------------------------------------------------------
  // Slots

  predicate Stashed(scope: Scope, i: nat)
    requires i < |scope.bindings|
  {
    scope.IsDynamic() || scope.bindings[i].inStash
  }

  /** A binding that takes up a new slot of the stack frame. */
  predicate TakesSlot(scope: Scope, i: nat)
    requires i < |scope.bindings|
  {
    !Stashed(scope, i) && scope.bindings[i].name != THIS && i >= scope.numArgs
  }

  function StackCount(scope: Scope, n: nat): (r: nat)
    requires n <= |scope.bindings|
  {
    if n == 0 then 0 else StackCount(scope, n - 1) + if TakesSlot(scope, n - 1) then 1 else 0
  }

  function StashCount(scope: Scope, n: nat): (r: nat)
    requires n <= |scope.bindings|
  {
    if n == 0 then 0 else StashCount(scope, n - 1) + if Stashed(scope, n - 1) then 1 else 0
  }

  datatype Slot = Stack(idx: int) | Stash(place: nat)

  /** `this` is at the base of the frame, arguments are below it, and the rest are above. */
  function SlotAt(scope: Scope, i: nat, offset: nat): Slot
    requires i < |scope.bindings|
  {
    if Stashed(scope, i) then Stash(StashCount(scope, i))
    else if scope.bindings[i].name == THIS then Stack(0)
    else if i < scope.numArgs then Stack(-(i + 1))
    else Stack(StackCount(scope, i) + 1 + offset)
  }

  /** The slots taken by the blocks around a block, up to its function. */
  function Offset(scopes: seq<Scope>, s: nat): nat
    requires Rooted(scopes) && s < |scopes|
    decreases s
  {
    if s == 0 || !scopes[s].block then 0
    else Offset(scopes, scopes[s].outer) + StackCount(scopes[scopes[s].outer], |scopes[scopes[s].outer].bindings|)
  }

  /** `s` is `t` or a block in `t`, at any depth but in the same function. */
  predicate Within(scopes: seq<Scope>, t: nat, s: nat)
    requires Rooted(scopes) && s < |scopes|
    decreases s
  {
    s == t || (s > 0 && scopes[s].block && Within(scopes, t, scopes[s].outer))
  }

  lemma {:induction false} CountsGrow(scope: Scope, m: nat, n: nat)
    requires m <= n <= |scope.bindings|
    ensures StackCount(scope, m) <= StackCount(scope, n) && StashCount(scope, m) <= StashCount(scope, n)
    decreases n
  {
    if m < n { CountsGrow(scope, m, n - 1); }
  }

  /** A slot above the base is among those its scope adds to the frame, and a place within its stash. */
  lemma SlotInFrame(scope: Scope, i: nat, offset: nat)
    requires i < |scope.bindings|
    ensures TakesSlot(scope, i) ==>
      offset < SlotAt(scope, i, offset).idx <= offset + StackCount(scope, |scope.bindings|)
    ensures Stashed(scope, i) ==> SlotAt(scope, i, offset).place < StashCount(scope, |scope.bindings|)
  {
    CountsGrow(scope, i + 1, |scope.bindings|);
  }

  lemma DistinctInScope(scope: Scope, i: nat, j: nat, offset: nat)
    requires i < j < |scope.bindings| && (scope.bindings[i].name != THIS || scope.bindings[j].name != THIS)
    ensures SlotAt(scope, i, offset) != SlotAt(scope, j, offset)
  {
    CountsGrow(scope, i + 1, j);
  }

  lemma {:induction false} OffsetsGrow(scopes: seq<Scope>, t: nat, s: nat)
    requires Rooted(scopes) && t < |scopes| && s < |scopes| && Within(scopes, t, s) && s != t
    ensures Offset(scopes, s) >= Offset(scopes, t) + StackCount(scopes[t], |scopes[t].bindings|)
    decreases s
  {
    if scopes[s].outer != t { OffsetsGrow(scopes, t, scopes[s].outer); }
  }

  /** Where a binding is found: in the frame of its function, or in the stash of its scope. */
  datatype Address = OnStack(idx: int) | InStash(scope: nat, place: nat)

  function AddressOf(scopes: seq<Scope>, s: nat, i: nat): Address
    requires Rooted(scopes) && s < |scopes| && i < |scopes[s].bindings|
  {
    match SlotAt(scopes[s], i, Offset(scopes, s))
    case Stack(idx) => OnStack(idx)
    case Stash(place) => InStash(s, place)
  }

  /** Bindings that can be in use together in one function never share a place. */
  lemma DistinctAddresses(scopes: seq<Scope>, t: nat, j: nat, s: nat, i: nat)
    requires Valid(scopes) && t < |scopes| && s < |scopes| && j < |scopes[t].bindings| && i < |scopes[s].bindings|
    requires Within(scopes, t, s) && (t, j) != (s, i)
    requires scopes[t].bindings[j].name != THIS || scopes[s].bindings[i].name != THIS
    ensures AddressOf(scopes, t, j) != AddressOf(scopes, s, i)
  {
    if t == s {
      if i < j {
        DistinctInScope(scopes[s], i, j, Offset(scopes, s));
      } else {
        DistinctInScope(scopes[s], j, i, Offset(scopes, s));
      }
    } else {
      assert ScopeOk(scopes[s]);
      OffsetsGrow(scopes, t, s);
      SlotInFrame(scopes[t], j, Offset(scopes, t));
      SlotInFrame(scopes[s], i, Offset(scopes, s));
    }
  }

  // ---------------------------------------------------------------------------------------
  // Stashes

  function InStashCount(bindings: seq<Binding>): nat {
    if bindings == [] then 0
    else InStashCount(bindings[..|bindings| - 1]) + if bindings[|bindings| - 1].inStash then 1 else 0
  }

  /** The size of the stash that entering a block makes, if any. */
  function EnterStashSize(scope: Scope): nat {
    if scope.dynLookup then |scope.bindings| else InStashCount(scope.bindings)
  }

  /** Whether entering the scope at run time makes a stash. */
  predicate Pushes(scope: Scope) {
    if scope.block then EnterStashSize(scope) > 0 || scope.dynamic
    else StashCount(scope, |scope.bindings|) > 0 || scope.argsInStash
  }

  /** A function that has been compiled: if it can be looked into by name, its arguments are in its stash. */
  predicate Finished(scope: Scope) {
    !scope.block && scope.IsDynamic() ==> scope.argsInStash
  }

  lemma {:induction false} InStashCountTells(bindings: seq<Binding>)
    ensures InStashCount(bindings) > 0 <==> exists i :: 0 <= i < |bindings| && bindings[i].inStash
    decreases |bindings|
  {
    if bindings != [] {
      var n := |bindings| - 1;
      InStashCountTells(bindings[..n]);
      if i :| 0 <= i < |bindings| && bindings[i].inStash && !bindings[n].inStash { assert bindings[..n][i].inStash; }
      if InStashCount(bindings[..n]) > 0 {
        var i :| 0 <= i < n && bindings[..n][i].inStash;
        assert bindings[i].inStash;
      }
    }
  }

  lemma {:induction false} StashCountTells(scope: Scope, n: nat)
    requires n <= |scope.bindings|
    ensures StashCount(scope, n) > 0 <==> exists i :: 0 <= i < n && Stashed(scope, i)
    ensures scope.IsDynamic() ==> StashCount(scope, n) == n
    ensures !scope.IsDynamic() ==> StashCount(scope, n) == InStashCount(scope.bindings[..n])
    decreases n
  {
    if n > 0 {
      StashCountTells(scope, n - 1);
      assert scope.bindings[..n][..n - 1] == scope.bindings[..n - 1];
    }
  }

  /** What the compiler takes for a scope with a stash is one at run time. */
  lemma HasStashIffPushes(scope: Scope)
    requires ScopeOk(scope) && Finished(scope)
    ensures scope.HasStash() <==> Pushes(scope)
  {
    StashCountTells(scope, |scope.bindings|);
    InStashCountTells(scope.bindings);
    assert scope.bindings[..|scope.bindings|] == scope.bindings;
  }

  /** A block that is no place for variables of `eval` and does not bind `this`. */
  predicate PlainBlock(scope: Scope) {
    scope.block && !scope.dynamic && scope.numArgs == 0 && forall i :: 0 <= i < |scope.bindings| ==>
      scope.bindings[i].name != THIS
  }

  /**
   In a plain block, the sizes counted on entry are those of the allocation, and there is a stash
   just if its size is positive.
   */
  lemma {:induction false} EnterSizesAgree(scope: Scope, n: nat)
    requires PlainBlock(scope) && n <= |scope.bindings|
    ensures StashCount(scope, n) == if scope.dynLookup then n else InStashCount(scope.bindings[..n])
    ensures StashCount(scope, n) + StackCount(scope, n) == n
    decreases n
  {
    if n > 0 {
      EnterSizesAgree(scope, n - 1);
      assert scope.bindings[..n][..n - 1] == scope.bindings[..n - 1];
    }
  }

  // ---------------------------------------------------------------------------------------
  // Levels

  /** The scopes whose stashes are there when code of `s` runs, from the innermost outwards. */
  function Chain(scopes: seq<Scope>, s: nat): seq<nat>
    requires Rooted(scopes) && s < |scopes|
    decreases s
  {
    if s == 0 then [] else (if Pushes(scopes[s]) then [s] else []) + Chain(scopes, scopes[s].outer)
  }

  /** The number of stashes the compiler counts from `s` out to `t`. */
  function Level(scopes: seq<Scope>, s: nat, t: nat): nat
    requires Rooted(scopes) && s < |scopes|
    decreases s
  {
    if s == t || s == 0 then 0 else (if scopes[s].HasStash() then 1 else 0) + Level(scopes, scopes[s].outer, t)
  }

  lemma {:induction false} LevelFindsStash(scopes: seq<Scope>, s: nat, t: nat)
    requires Valid(scopes) && s < |scopes| && 0 < t < |scopes| && Encloses(scopes, t, s) && Pushes(scopes[t])
    requires forall k :: 0 < k < |scopes| ==> Finished(scopes[k])
    ensures Level(scopes, s, t) < |Chain(scopes, s)| && Chain(scopes, s)[Level(scopes, s, t)] == t
    decreases s
  {
    hide ScopeOk;
    if s != t {
      LevelFindsStash(scopes, scopes[s].outer, t);
      HasStashIffPushes(scopes[s]);
    }
  }

  /**
   The level leads to the binding's stash and its place is within it, or the binding is in the frame
   of the function that refers to it.
   */
  ghost predicate FindsBinding(scopes: seq<Scope>, t: nat, i: nat, s: nat)
    requires Rooted(scopes) && t < |scopes| && i < |scopes[t].bindings| && s < |scopes|
  {
    match AddressOf(scopes, t, i)
    case InStash(u, place) =>
      && u == t && Level(scopes, s, t) < |Chain(scopes, s)| && Chain(scopes, s)[Level(scopes, s, t)] == t
      && place < StashCount(scopes[t], |scopes[t].bindings|)
    case OnStack(_) => !Crosses(scopes, s, t)
  }

  /** Every recorded reference finds its binding. */
  lemma ReferencesFindBindings(scopes: seq<Scope>, t: nat, i: nat, s: nat)
    requires Good(scopes) && 0 < t < |scopes| && i < |scopes[t].bindings| && s in scopes[t].bindings[i].accesses
    requires forall k :: 0 < k < |scopes| ==> Finished(scopes[k])
    ensures s < |scopes| && FindsBinding(scopes, t, i, s)
  {
    assert CapturedAt(scopes, t, scopes[t].bindings[i]);
    if Stashed(scopes[t], i) {
      hide ScopeOk, Nested;
      StashedPushes(scopes[t], i);
      LevelFindsStash(scopes, s, t);
      SlotInFrame(scopes[t], i, Offset(scopes, t));
    }
  }

  lemma StashedPushes(scope: Scope, i: nat)
    requires ScopeOk(scope) && Finished(scope) && i < |scope.bindings| && Stashed(scope, i)
    ensures Pushes(scope)
  {
    StashCountTells(scope, |scope.bindings|);
    InStashCountTells(scope.bindings);
  }

  /** Arguments in a stash stay there. */
  lemma ArgsStay(a: seq<Scope>, op: Op, b: seq<Scope>, k: nat)
    requires IsStep(a, op, b) && k < |a| && a[k].argsInStash
    ensures k < |b| && b[k].argsInStash
  {
    hide ScopeOk, Nested, Rooted, EvalMarked, Referenced, ArgsInStash, Kinds, Clean;
    match op
    case OpenFunction(_, _, _, _) =>
    case OpenBlock(_, _) =>
    case Declare(_, _) =>
    case Reference(s, name) => LookupLeavesArgs(a, s, name, k);
    case MoveArgs(_) =>
    case DirectEval(s) => assert SameButDynamic(a[k], b[k]);
  }

  lemma LookupLeavesArgs(a: seq<Scope>, s: nat, name: string, k: nat)
    requires Valid(a) && s < |a| && k < |a| && a[k].argsInStash
    ensures k < |Referenced(a, s, name)| && Referenced(a, s, name)[k].argsInStash
  {
    LookedUpLeavesArgs(a, s, name, k);
    hide LookedUp, ScopeOk, Nested, Kinds, Rooted;
    var l := LookedUp(a, s, name);
    if l.found.Found? && l.found.scope < |l.scopes| && l.found.index < |l.scopes[l.found.scope].bindings| {
      MarkLeavesArgs(l.scopes, l.found.scope, l.found.index, s, k);
      hide Marked;
    }
  }

  lemma MarkLeavesArgs(scopes: seq<Scope>, t: nat, i: nat, s: nat, k: nat)
    requires t < |scopes| && i < |scopes[t].bindings| && k < |scopes| && scopes[k].argsInStash
    ensures k < |Marked(scopes, t, i, s)| && Marked(scopes, t, i, s)[k].argsInStash
  {
  }

  lemma LookedUpLeavesArgs(a: seq<Scope>, s: nat, name: string, k: nat)
    requires Valid(a) && s < |a| && k < |a| && a[k].argsInStash
    ensures k < |LookedUp(a, s, name).scopes| && LookedUp(a, s, name).scopes[k].argsInStash
  {
    hide ScopeOk, Nested, Kinds, Search, Crosses, MovedToStash, Bound;
  }

  lemma ArgsAreMoved(a: seq<Scope>, k: nat, b: seq<Scope>)
    requires IsStep(a, MoveArgs(k), b)
    ensures k < |b| && b[k].argsInStash
  {
  }

  lemma {:induction false} MovedInRun(states: seq<seq<Scope>>, ops: seq<Op>, j: nat, n: nat, k: nat)
    requires IsRun(states, ops) && j < n <= |ops| && ops[j] == MoveArgs(k)
    ensures k < |states[n]| && states[n][k].argsInStash
    decreases n
  {
    hide IsStep;
    assert IsStep(states[n - 1], ops[n - 1], states[n - 1 + 1]);
    if n == j + 1 {
      ArgsAreMoved(states[j], k, states[n]);
    } else {
      MovedInRun(states, ops, j, n - 1, k);
      ArgsStay(states[n - 1], ops[n - 1], states[n], k);
    }
  }

  /** Each function that can be looked into by name has been finished, moving its arguments. */
  ghost predicate FunctionsFinished(states: seq<seq<Scope>>, ops: seq<Op>)
    requires IsRun(states, ops)
  {
    var last := states[|ops|];
    forall k :: 0 < k < |last| && last[k].IsFunction() && last[k].IsDynamic() ==> MoveArgs(k) in ops
  }

  lemma AllFinished(states: seq<seq<Scope>>, ops: seq<Op>)
    requires IsRun(states, ops) && FunctionsFinished(states, ops) && Good(states[|ops|])
    ensures forall k :: 0 < k < |states[|ops|]| ==> Finished(states[|ops|][k])
  {
    var last := states[|ops|];
    hide ScopeOk, IsRun, Nested;
    forall k | 0 < k < |last| ensures Finished(last[k]) {
      if last[k].IsFunction() && last[k].IsDynamic() {
        assert MoveArgs(k) in ops;
        var j :| 0 <= j < |ops| && ops[j] == MoveArgs(k);
        MovedInRun(states, ops, j, |ops|, k);
      }
    }
  }

  /** So in every compiled program without such a reference to `arguments`, references find their bindings. */
  lemma CompiledReferencesFindBindings(states: seq<seq<Scope>>, ops: seq<Op>, t: nat, i: nat, s: nat)
    requires IsRun(states, ops) && FunctionsFinished(states, ops) && forall k :: 0 <= k < |ops| ==>
      IsClean(states[k], ops[k])
    requires 0 < t < |states[|ops|]| && i < |states[|ops|][t].bindings| && s in states[|ops|][t].bindings[i].accesses
    ensures Good(states[|ops|]) && s < |states[|ops|]| && FindsBinding(states[|ops|], t, i, s)
  {
    hide IsClean, Good, Finished, FunctionsFinished, FindsBinding, IsStep, Initial;
    EveryRunCaptures(states, ops, |ops|);
    AllFinished(states, ops);
    ReferencesFindBindings(states[|ops|], t, i, s);
  }

  // ---------------------------------------------------------------------------------------
  // The implementation

  /** Whether nothing on the way to the binding can add a variable of that name at run time. */
  function NoDynamics(scopes: seq<Scope>, s: nat, name: string): bool
    requires Rooted(scopes) && s < |scopes|
    decreases s
  {
    if s == 0 then false
    else if name in scopes[s].boundNames then true
    else
      !scopes[s].dynamic
      && ((name == ARGUMENTS && scopes[s].funcType != FuncNone && scopes[s].funcType != FuncArrow)
        || NoDynamics(scopes, scopes[s].outer, name))
  }

  lemma {:induction false} WithinNested(scopes: seq<Scope>, t: nat, s: nat) returns (j: nat)
    requires Tree(scopes) && t < |scopes| && s < |scopes| && Within(scopes, t, s) && s != t
    ensures j < |scopes[t].nested| && Within(scopes, scopes[t].nested[j], s)
    decreases s
  {
    var o := scopes[s].outer;
    if o == t {
      assert s in scopes[t].nested;
      j :| 0 <= j < |scopes[t].nested| && scopes[t].nested[j] == s;
    } else {
      j := WithinNested(scopes, t, o);
    }
  }

  // Instructions that refer to bindings

  datatype Operation = Load | Store | StoreP | LoadLex | StoreLex | StoreLexP | Init | InitP

  /** A slot, counted without or with the arguments on the stack; or the level and the place of a stash in one word. */
  datatype Operand = AtStack(idx: int) | AtStack1(idx: int) | AtStash(word: nat)

  datatype Instr = Access(op: Operation, at: Operand) | OtherInstr

  /** What an instruction refers to: binding `i` of scope `t`, from code of scope `s`. */
  datatype Mark = Mark(t: nat, i: nat, s: nat)

  /** The function around a scope has its arguments in its stash. */
  predicate ArgsMovedAround(scopes: seq<Scope>, s: nat)
    requires Rooted(scopes) && s < |scopes|
    decreases s
  {
    if scopes[s].IsFunction() then scopes[s].argsInStash else s > 0 && ArgsMovedAround(scopes, scopes[s].outer)
  }

  function OperandOf(scopes: seq<Scope>, m: Mark): Operand
    requires Rooted(scopes) && m.t < |scopes| && m.i < |scopes[m.t].bindings| && m.s < |scopes|
  {
    match SlotAt(scopes[m.t], m.i, Offset(scopes, m.t))
    case Stash(place) => AtStash(Level(scopes, m.s, m.t) * 0x100_0000 + place)
    case Stack(idx) =>
      if scopes[m.t].bindings[m.i].name == THIS then AtStack(0)
      else if ArgsMovedAround(scopes, m.t) then AtStack1(idx) else AtStack(idx)
  }

  /** The word of a stash operand gives back the level and the place. */
  lemma OperandDecodes(scopes: seq<Scope>, m: Mark)
    requires Rooted(scopes) && m.t < |scopes| && m.i < |scopes[m.t].bindings| < 0x100_0000 && m.s < |scopes|
    ensures OperandOf(scopes, m).AtStash? <==> AddressOf(scopes, m.t, m.i).InStash?
    ensures OperandOf(scopes, m).AtStash? ==>
      && OperandOf(scopes, m).word / 0x100_0000 == Level(scopes, m.s, m.t)
      && OperandOf(scopes, m).word % 0x100_0000 == AddressOf(scopes, m.t, m.i).place
  {
    SlotInFrame(scopes[m.t], m.i, Offset(scopes, m.t));
    StashCountBound(scopes[m.t], |scopes[m.t].bindings|);
  }

  lemma {:induction false} StashCountBound(scope: Scope, n: nat)
    requires n <= |scope.bindings|
    ensures StashCount(scope, n) <= n
    decreases n
  {
    if n > 0 { StashCountBound(scope, n - 1); }
  }

  type Points = map<(nat, nat), seq<(nat, nat)>>

  ghost predicate MarkOk(scopes: seq<Scope>, m: Mark)
    requires Rooted(scopes)
  {
    && m.t < |scopes| && m.i < |scopes[m.t].bindings| && m.s < |scopes| && Encloses(scopes, m.t, m.s)
    && m.s in scopes[m.t].bindings[m.i].accesses
  }

  /** The access points listed for each binding are the instructions that refer to it. */
  ghost predicate Pointed(scopes: seq<Scope>, code: seq<Instr>, points: Points, marks: seq<Option<Mark>>)
    requires Rooted(scopes)
  {
    && |marks| == |code|
    && (forall b, j :: b in points && 0 <= j < |points[b]| ==>
          points[b][j].1 < |code| && marks[points[b][j].1] == Some(Mark(b.0, b.1, points[b][j].0)))
    && (forall pc :: 0 <= pc < |code| && marks[pc].Some? ==>
          && MarkOk(scopes, marks[pc].value) && code[pc].Access?
          && (marks[pc].value.t, marks[pc].value.i) in points
          && (marks[pc].value.s, pc) in points[(marks[pc].value.t, marks[pc].value.i)])
  }

  /** An instruction has the operand it should have. */
  predicate Right(scopes: seq<Scope>, x: Instr, m: Mark)
    requires Rooted(scopes) && m.t < |scopes| && m.i < |scopes[m.t].bindings| && m.s < |scopes|
  {
    x.Access? && x.at == OperandOf(scopes, m)
  }

  ghost predicate MarksOk(scopes: seq<Scope>, marks: seq<Option<Mark>>)
    requires Rooted(scopes)
  {
    forall pc :: 0 <= pc < |marks| && marks[pc].Some? ==> MarkOk(scopes, marks[pc].value)
  }

  /** Instructions are changed only in their operands, and these only to what they should be. */
  ghost predicate OnlyRighted(scopes: seq<Scope>, marks: seq<Option<Mark>>, before: seq<Instr>, after: seq<Instr>)
    requires Rooted(scopes) && MarksOk(scopes, marks)
  {
    && |after| == |before| == |marks|
    && forall pc :: 0 <= pc < |before| ==>
      after[pc] == before[pc] || RightedAt(scopes, marks[pc], before[pc], after[pc])
  }

  predicate RightedAt(scopes: seq<Scope>, mark: Option<Mark>, before: Instr, after: Instr)
    requires Rooted(scopes) && (mark.Some? ==> MarkOk(scopes, mark.value))
  {
    mark.Some? && before.Access? && after == before.(at := OperandOf(scopes, mark.value))
  }

  /** The instructions that refer to bindings of a scope, or of one of them, have the operands they should have. */
  ghost predicate RightIn(scopes: seq<Scope>, marks: seq<Option<Mark>>, code: seq<Instr>, t: nat, n: nat)
    requires Rooted(scopes) && MarksOk(scopes, marks) && |code| == |marks|
  {
    forall pc :: 0 <= pc < |code| && marks[pc].Some? && marks[pc].value.t == t && marks[pc].value.i < n ==>
      Right(scopes, code[pc], marks[pc].value)
  }

  /** They are not too many levels away. */
  ghost predicate NearIn(scopes: seq<Scope>, marks: seq<Option<Mark>>, t: nat, n: nat)
    requires Rooted(scopes) && MarksOk(scopes, marks)
  {
    forall pc :: 0 <= pc < |marks| && marks[pc].Some? && marks[pc].value.t == t && marks[pc].value.i < n ==>
      Level(scopes, marks[pc].value.s, t) <= 255
  }

  ghost predicate AllRightIn(scopes: seq<Scope>, marks: seq<Option<Mark>>, code: seq<Instr>, t: nat)
    requires Rooted(scopes) && MarksOk(scopes, marks) && |code| == |marks| && t < |scopes|
  {
    RightIn(scopes, marks, code, t, |scopes[t].bindings|)
  }

  ghost predicate AllNearIn(scopes: seq<Scope>, marks: seq<Option<Mark>>, t: nat)
    requires Rooted(scopes) && MarksOk(scopes, marks) && t < |scopes|
  {
    NearIn(scopes, marks, t, |scopes[t].bindings|)
  }

  lemma RightedTwice(scopes: seq<Scope>, marks: seq<Option<Mark>>, a: seq<Instr>, b: seq<Instr>, c: seq<Instr>)
    requires Rooted(scopes) && MarksOk(scopes, marks) && OnlyRighted(scopes, marks, a, b)
    requires OnlyRighted(scopes, marks, b, c)
    ensures OnlyRighted(scopes, marks, a, c)
  {
    hide OperandOf, MarkOk;
    forall pc | 0 <= pc < |a| ensures c[pc] == a[pc] || RightedAt(scopes, marks[pc], a[pc], c[pc]) {
      assert b[pc] == a[pc] || RightedAt(scopes, marks[pc], a[pc], b[pc]);
      assert c[pc] == b[pc] || RightedAt(scopes, marks[pc], b[pc], c[pc]);
    }
  }

  lemma RightStays(scopes: seq<Scope>, marks: seq<Option<Mark>>, a: seq<Instr>, b: seq<Instr>, t: nat, n: nat)
    requires Rooted(scopes) && MarksOk(scopes, marks) && OnlyRighted(scopes, marks, a, b)
    requires RightIn(scopes, marks, a, t, n)
    ensures RightIn(scopes, marks, b, t, n)
  {
    hide OperandOf;
    forall pc | 0 <= pc < |b| && marks[pc].Some? && marks[pc].value.t == t && marks[pc].value.i < n
      ensures Right(scopes, b[pc], marks[pc].value)
    {
      assert Right(scopes, a[pc], marks[pc].value);
      assert RightedAt(scopes, marks[pc], a[pc], b[pc]) || b[pc] == a[pc];
    }
  }

  lemma PointedStays(scopes: seq<Scope>, points: Points, marks: seq<Option<Mark>>, a: seq<Instr>, b: seq<Instr>)
    requires Rooted(scopes) && Pointed(scopes, a, points, marks)
    ensures MarksOk(scopes, marks) && |a| == |marks| && OnlyRighted(scopes, marks, a, a)
    ensures OnlyRighted(scopes, marks, a, b) ==> Pointed(scopes, b, points, marks)
  {
    hide OperandOf, MarkOk;
    if OnlyRighted(scopes, marks, a, b) {
      forall pc | 0 <= pc < |b| && marks[pc].Some? ensures b[pc].Access? {
        assert b[pc] == a[pc] || RightedAt(scopes, marks[pc], a[pc], b[pc]);
      }
    }
  }

  // Recording references

  /** Scopes keep their places and bindings their accesses, or gain some. */
  ghost predicate AccessesKept(a: seq<Scope>, b: seq<Scope>) {
    && SamePlaces(a, b)
    && forall t, i :: 0 <= t < |a| && 0 <= i < |a[t].bindings| ==> KeepsAccesses(a[t], b[t], i)
  }

  ghost predicate KeepsAccesses(a: Scope, b: Scope, i: nat)
    requires i < |a.bindings|
  {
    i < |b.bindings| && a.bindings[i].accesses <= b.bindings[i].accesses
  }

  lemma PointsKept(a: seq<Scope>, b: seq<Scope>, code: seq<Instr>, points: Points, marks: seq<Option<Mark>>)
    requires Rooted(a) && Rooted(b) && AccessesKept(a, b) && Pointed(a, code, points, marks)
    ensures Pointed(b, code, points, marks)
  {
    forall pc | 0 <= pc < |code| && marks[pc].Some? ensures MarkOk(b, marks[pc].value) {
      var m := marks[pc].value;
      assert MarkOk(a, m);
      assert KeepsAccesses(a[m.t], b[m.t], m.i);
      PlacesTell(a, b, m.s, m.t);
    }
  }

  lemma ReplaceKeepsAccesses(scopes: seq<Scope>, t: nat, x: Scope)
    requires Rooted(scopes) && t < |scopes| && BindingsKept(scopes[t], x)
    requires x.outer == scopes[t].outer && x.funcType == scopes[t].funcType && x.eval == scopes[t].eval
    ensures Rooted(scopes[t := x]) && AccessesKept(scopes, scopes[t := x])
  {
    var b := scopes[t := x];
    forall k, i | 0 <= k < |scopes| && 0 <= i < |scopes[k].bindings| ensures KeepsAccesses(scopes[k], b[k], i) {
      assert b[k] == scopes[k] || k == t;
    }
  }

  lemma LookupIsWell(scopes: seq<Scope>, s: nat, name: string)
    requires Valid(scopes) && s < |scopes|
    ensures var l := LookedUp(scopes, s, name);
      && Rooted(l.scopes) && AccessesKept(scopes, l.scopes)
      && FoundWell(scopes, s, l)
  {
    match Search(scopes, s, name)
    case Unresolved =>
    case Refused =>
    case At(t) => LookupAtIsWell(scopes, s, name, t);
    case Create(t) => LookupCreateIsWell(scopes, s, name, t);
  }

  lemma LookupAtIsWell(scopes: seq<Scope>, s: nat, name: string, t: nat)
    requires Valid(scopes) && s < |scopes| && Search(scopes, s, name) == At(t)
    ensures var l := LookedUp(scopes, s, name);
      && Rooted(l.scopes) && AccessesKept(scopes, l.scopes)
      && FoundWell(scopes, s, l)
  {
    var i := scopes[t].boundNames[name];
    MovedIsOk(scopes[t], i);
    hide MovedToStash, ScopeOk, Search, Nested, AccessesKept;
    assert BindingsKept(scopes[t], MovedToStash(scopes[t], i));
    ReplaceKeepsAccesses(scopes, t, MovedToStash(scopes[t], i));
    ReplaceKeepsAccesses(scopes, t, scopes[t]);
    assert scopes[t := scopes[t]] == scopes;
    PlacesTell(scopes, scopes[t := MovedToStash(scopes[t], i)], s, t);
  }

  lemma LookupCreateIsWell(scopes: seq<Scope>, s: nat, name: string, t: nat)
    requires Valid(scopes) && s < |scopes| && Search(scopes, s, name) == Create(t)
    ensures var l := LookedUp(scopes, s, name);
      && Rooted(l.scopes) && AccessesKept(scopes, l.scopes)
      && FoundWell(scopes, s, l)
  {
    FunctionBinds(scopes, t);
    NeededIsOk(scopes[t]);
    BoundIsOk(scopes[t].(argsNeeded := true), name);
    var x := Bound(scopes[t].(argsNeeded := true), name);
    var l := LookedUp(scopes, s, name);
    assert l.scopes == scopes[t := x];
    BoundPlace(scopes[t].(argsNeeded := true), name);
    hide Bound, ScopeOk, Search, Nested, AccessesKept, VariableScope;
    ReplaceKeepsAccesses(scopes, t, x);
    PlacesTell(scopes, l.scopes, s, t);
  }

  lemma BoundPlace(scope: Scope, name: string)
    ensures var x := Bound(scope, name); x.outer == scope.outer && x.funcType == scope.funcType && x.eval == scope.eval
  {
  }

  lemma AddPoint(scopes: seq<Scope>, code: seq<Instr>, points: Points, marks: seq<Option<Mark>>, m: Mark, op: Operation)
    requires Rooted(scopes) && Pointed(scopes, code, points, marks)
    requires m.t < |scopes| && m.i < |scopes[m.t].bindings| && m.s < |scopes| && Encloses(scopes, m.t, m.s)
    ensures var key := (m.t, m.i);
      var more := points[key := (if key in points then points[key] else []) + [(m.s, |code|)]];
      Rooted(Marked(scopes, m.t, m.i, m.s))
      && Pointed(Marked(scopes, m.t, m.i, m.s), code + [Access(op, AtStack(0))], more, marks + [Some(m)])
  {
    var b := Marked(scopes, m.t, m.i, m.s);
    MarkKeepsAccesses(scopes, m);
    PointsKept(scopes, b, code, points, marks);
    var key := (m.t, m.i);
    var more := points[key := (if key in points then points[key] else []) + [(m.s, |code|)]];
    hide Marked, MarkOk, AccessesKept;
    PointAdded(b, code, points, marks, m, op, more);
  }

  lemma MarkKeepsAccesses(scopes: seq<Scope>, m: Mark)
    requires Rooted(scopes) && m.t < |scopes| && m.i < |scopes[m.t].bindings| && m.s < |scopes|
    requires Encloses(scopes, m.t, m.s)
    ensures var b := Marked(scopes, m.t, m.i, m.s); Rooted(b) && AccessesKept(scopes, b) && MarkOk(b, m)
  {
    var b := Marked(scopes, m.t, m.i, m.s);
    forall k, i | 0 <= k < |scopes| && 0 <= i < |scopes[k].bindings| ensures KeepsAccesses(scopes[k], b[k], i) {
      assert b[k] == scopes[k] || k == m.t;
    }
    PlacesTell(scopes, b, m.s, m.t);
  }

  lemma PointAdded(b: seq<Scope>, code: seq<Instr>, points: Points, marks: seq<Option<Mark>>, m: Mark, op: Operation,
                   more: Points)
    requires Rooted(b) && Pointed(b, code, points, marks) && MarkOk(b, m)
    requires more == points[(m.t, m.i) := (if (m.t, m.i) in points then points[(m.t, m.i)] else []) + [(m.s, |code|)]]
    ensures Pointed(b, code + [Access(op, AtStack(0))], more, marks + [Some(m)])
  {
    hide MarkOk;
    var key, code2, marks2 := (m.t, m.i), code + [Access(op, AtStack(0))], marks + [Some(m)];
    forall c, j | c in more && 0 <= j < |more[c]|
      ensures more[c][j].1 < |code2| && marks2[more[c][j].1] == Some(Mark(c.0, c.1, more[c][j].0))
    {
      if c != key || j < |more[c]| - 1 { assert c in points && more[c][j] == points[c][j]; }
    }
    forall pc | 0 <= pc < |code2| && marks2[pc].Some?
      ensures (marks2[pc].value.t, marks2[pc].value.i) in more
      ensures (marks2[pc].value.s, pc) in more[(marks2[pc].value.t, marks2[pc].value.i)]
    {
      if pc == |code| { assert more[key][|more[key]| - 1] == (m.s, |code|); }
    }
  }

  /** The lists of access points stay right through every step of the compiler. */
  lemma StepKeepsPoints(a: seq<Scope>, op: Op, b: seq<Scope>, code: seq<Instr>, points: Points,
                        marks: seq<Option<Mark>>)
    requires IsStep(a, op, b) && Pointed(a, code, points, marks)
    ensures Rooted(b) && Pointed(b, code, points, marks)
  {
    hide ScopeOk, Nested, Pointed, Kinds, Referenced, EvalMarked;
    match op
    case OpenFunction(_, _, _, _) => PointsKept(a, b, code, points, marks);
    case OpenBlock(_, _) => PointsKept(a, b, code, points, marks);
    case Declare(s, name) =>
      BoundIsOk(a[s], name);
      BoundPlace(a[s], name);
      ReplaceKeepsAccesses(a, s, Bound(a[s], name));
      PointsKept(a, b, code, points, marks);
    case Reference(s, name) =>
      ReferenceKeepsAccesses(a, s, name);
      PointsKept(a, b, code, points, marks);
    case MoveArgs(s) =>
      FunctionIsNoBlock(a[s]);
      ArgsMovedIsOk(a[s]);
      assert BindingsKept(a[s], ArgsMoved(a[s]));
      ReplaceKeepsAccesses(a, s, ArgsMoved(a[s]));
      PointsKept(a, b, code, points, marks);
    case DirectEval(s) =>
      assert forall k :: 0 <= k < |a| ==> SameButDynamic(a[k], b[k]);
      PointsKept(a, b, code, points, marks);
  }

  lemma FunctionIsNoBlock(scope: Scope)
    requires ScopeOk(scope) && scope.IsFunction()
    ensures !scope.block
  {
  }

  lemma ReferenceKeepsAccesses(a: seq<Scope>, s: nat, name: string)
    requires Valid(a) && s < |a|
    ensures Rooted(Referenced(a, s, name)) && AccessesKept(a, Referenced(a, s, name))
  {
    LookupIsWell(a, s, name);
    var l := LookedUp(a, s, name);
    hide LookedUp, ScopeOk, Nested, Kinds;
    if l.found.Found? {
      MarkKeepsAccesses(l.scopes, Mark(l.found.scope, l.found.index, s));
      hide Marked, AccessesKept;
      AccessesKeptTwice(a, l.scopes, Referenced(a, s, name));
    }
  }

  lemma AccessesKeptTwice(a: seq<Scope>, b: seq<Scope>, c: seq<Scope>)
    requires AccessesKept(a, b) && AccessesKept(b, c)
    ensures AccessesKept(a, c)
  {
    forall k, i | 0 <= k < |a| && 0 <= i < |a[k].bindings| ensures KeepsAccesses(a[k], c[k], i) {
      assert KeepsAccesses(a[k], b[k], i);
      assert KeepsAccesses(b[k], c[k], i);
    }
  }

  class Compiler {
    var scopes: seq<Scope>
    var code: seq<Instr>
    /** For each binding, the access points: the scopes that refer to it and the instructions that do. */
    var points: Points
    ghost var marks: seq<Option<Mark>>

    constructor (strict: bool, eval: bool)
      ensures scopes == Initial(strict, eval) && Good(scopes) && code == [] && Pointed(scopes, code, points, marks)
    {
      scopes, code, points, marks := Initial(strict, eval), [], map[], [];
      new;
      InitialIsGood(strict, eval);
    }

    method MoveArgsToStash(s: nat)
      requires s < |scopes|
      modifies this`scopes
      ensures scopes == old(scopes)[s := ArgsMoved(old(scopes)[s])]
    {
      var before := scopes[s].bindings;
      var bindings := before;
      var i := 0;
      while i < |bindings| && bindings[i].isArg
        invariant i <= |bindings| == |before|
        invariant forall k :: 0 <= k < |before| ==>
          bindings[k] == if k < i then before[k].(inStash := true) else before[k]
        invariant forall k :: 0 <= k < i ==> before[k].isArg
      {
        bindings := bindings[i := bindings[i].(inStash := true)];
        i := i + 1;
      }
      ArgsInStashIs(before, i, bindings);
      hide ArgsInStash;
      scopes := scopes[s := scopes[s].(bindings := bindings, argsInStash := true, needStash := true)];
    }

    method MoveToStash(s: nat, i: nat)
      requires s < |scopes| && i < |scopes[s].bindings|
      modifies this`scopes
      ensures scopes == old(scopes)[s := MovedToStash(old(scopes)[s], i)]
    {
      var b := scopes[s].bindings[i];
      if b.isArg && !scopes[s].argsInStash {
        MoveArgsToStash(s);
      } else {
        scopes := scopes[s := scopes[s].(bindings := scopes[s].bindings[i := b.(inStash := true)], needStash := true)];
      }
    }

    /** Binds a name as a variable in the nearest scope that can have it. */
    method BindName(s: nat, name: string) returns (v: nat, i: nat)
      requires Rooted(scopes) && s < |scopes|
      modifies this`scopes
      ensures v == VariableScope(old(scopes), s) && scopes == old(scopes)[v := Bound(old(scopes)[v], name)]
      ensures name in scopes[v].boundNames && i == scopes[v].boundNames[name]
      decreases s
    {
      if !scopes[s].IsFunction() && !scopes[s].variable && s > 0 {
        v, i := BindName(scopes[s].outer, name);
      } else {
        v := s;
        if name !in scopes[s].boundNames {
          var b := Binding(name, false, false, {});
          scopes := scopes[s := scopes[s].(bindings := scopes[s].bindings + [b],
            boundNames := scopes[s].boundNames[name := |scopes[s].bindings|])];
        }
        i := scopes[s].boundNames[name];
      }
    }

    /** Has a function bind `arguments`. */
    method BindArguments(s: nat, name: string) returns (v: nat, i: nat)
      requires Rooted(scopes) && s < |scopes|
      modifies this`scopes
      ensures v == VariableScope(old(scopes), s)
      ensures var marked := old(scopes)[s := old(scopes)[s].(argsNeeded := true)];
        scopes == marked[v := Bound(marked[v], name)] && name in Bound(marked[v], name).boundNames
          && i == Bound(marked[v], name).boundNames[name]
    {
      ghost var before := scopes;
      scopes := scopes[s := scopes[s].(argsNeeded := true)];
      SameVariableScope(before, scopes, s);
      v, i := BindName(s, name);
    }

    method LookupName(s: nat, name: string) returns (r: Found, noDynamics: bool)
      requires Valid(scopes) && s < |scopes|
      modifies this`scopes
      ensures Lookup(scopes, r) == LookedUp(old(scopes), s, name)
      ensures !r.SyntaxError? ==> noDynamics == NoDynamics(old(scopes), s, name)
    {
      hide ScopeOk, Nested, MovedToStash, Bound;
      noDynamics := true;
      var toStash := false;
      var cur: nat := s;
      while true
        invariant cur <= s && scopes == old(scopes) && Search(scopes, cur, name) == Search(scopes, s, name)
        invariant NoDynamics(scopes, s, name) == (noDynamics && NoDynamics(scopes, cur, name))
        invariant forall t: nat :: t <= cur ==> Crosses(scopes, s, t) == (toStash || Crosses(scopes, cur, t))
        decreases cur
      {
        var scope := scopes[cur];
        if cur == 0 { return NotFound, false; }
        if name in scope.boundNames {
          assert ScopeOk(scope);
          var i := scope.boundNames[name];
          IndexOk(scope, name);
          if toStash && !scope.bindings[i].inStash { MoveToStash(cur, i); }
          return Found(cur, i), noDynamics;
        }
        if scope.dynamic { noDynamics := false; }
        if name == ARGUMENTS && scope.funcType != FuncNone && scope.funcType != FuncArrow {
          if scope.funcType == FuncClsInit { return SyntaxError, noDynamics; }
          var v, i := BindArguments(cur, name);
          return Found(v, i), noDynamics;
        }
        if scope.IsFunction() { toStash := true; }
        cur := scope.outer;
      }
    }

    /** Marks the scopes that a direct `eval` can look into. */
    method MarkEval(s: nat)
      requires Rooted(scopes) && s < |scopes|
      modifies this`scopes
      ensures scopes == EvalMarked(old(scopes), s, false)
    {
      hide EvalMarked;
      var foundVar := false;
      var sc: int := s;
      while sc >= 0
        invariant sc < |scopes| && Rooted(scopes)
        invariant if sc < 0 then scopes == EvalMarked(old(scopes), s, false)
          else EvalMarked(scopes, sc, foundVar) == EvalMarked(old(scopes), s, false)
      {
        var scope := scopes[sc];
        EvalMarkedStep(scopes, sc, foundVar);
        if !foundVar && (scope.variable || scope.IsFunction()) {
          foundVar := true;
          if !scope.strict { scope := scope.(dynamic := true); }
        }
        scope := scope.(dynLookup := true);
        scopes := scopes[sc := scope];
        sc := scope.outer;
      }
    }

    /** Looks a name up and emits an instruction that refers to the binding. */
    method EmitReference(s: nat, name: string, op: Operation) returns (r: Found)
      requires Valid(scopes) && s < |scopes| && Pointed(scopes, code, points, marks)
      modifies this
      ensures scopes == Referenced(old(scopes), s, name) && r == LookedUp(old(scopes), s, name).found
      ensures r.Found? ==>
        code == old(code) + [Access(op, AtStack(0))] && marks == old(marks) + [Some(Mark(r.scope, r.index, s))]
      ensures !r.Found? ==> code == old(code) && marks == old(marks)
      ensures Rooted(scopes) && Pointed(scopes, code, points, marks)
    {
      hide ScopeOk, Nested, Pointed, LookedUp, Kinds;
      ghost var before := scopes;
      var noDynamics;
      LookupIsWell(before, s, name);
      PointsKept(before, LookedUp(before, s, name).scopes, code, points, marks);
      r, noDynamics := LookupName(s, name);
      if r.Found? {
        AddPoint(scopes, code, points, marks, Mark(r.scope, r.index, s), op);
        var scope := scopes[r.scope];
        var b := scope.bindings[r.index];
        var marked := b.(accesses := b.accesses + {s});
        var key := (r.scope, r.index);
        points := points[key := (if key in points then points[key] else []) + [(s, |code|)]];
        scopes := scopes[r.scope := scope.(bindings := scope.bindings[r.index := marked])];
        code := code + [Access(op, AtStack(0))];
        marks := marks + [Some(Mark(r.scope, r.index, s))];
      }
    }

    method LevelOf(s: nat, t: nat) returns (level: nat)
      requires Rooted(scopes) && s < |scopes| && Encloses(scopes, t, s)
      ensures level == Level(scopes, s, t)
    {
      level := 0;
      var sc: nat := s;
      while sc != t
        invariant sc < |scopes| && Encloses(scopes, t, sc) && level + Level(scopes, sc, t) == Level(scopes, s, t)
        decreases sc
      {
        if scopes[sc].HasStash() { level := level + 1; }
        sc := scopes[sc].outer;
      }
    }

    method ArgsMovedFor(s: nat) returns (r: bool)
      requires Rooted(scopes) && s < |scopes|
      ensures r == ArgsMovedAround(scopes, s)
    {
      var f: nat := s;
      while !scopes[f].IsFunction()
        invariant f < |scopes| && ArgsMovedAround(scopes, f) == ArgsMovedAround(scopes, s)
        decreases f
      {
        if f == 0 { return false; }
        f := scopes[f].outer;
      }
      return scopes[f].argsInStash;
    }

    /** Rewrites the instructions that refer to a binding, which has been given its slot. */
    method PlaceAccesses(s: nat, i: nat, slot: Slot, argsInStash: bool) returns (ok: bool)
      requires Rooted(scopes) && s < |scopes| && i < |scopes[s].bindings| && Pointed(scopes, code, points, marks)
      requires slot == SlotAt(scopes[s], i, Offset(scopes, s)) && argsInStash == ArgsMovedAround(scopes, s)
      modifies this`code
      ensures Pointed(scopes, code, points, marks) && MarksOk(scopes, marks) && |code| == |marks|
      ensures OnlyRighted(scopes, marks, old(code), code)
      ensures ok && RightIn(scopes, marks, old(code), s, i) ==> RightIn(scopes, marks, code, s, i + 1)
      ensures NearIn(scopes, marks, s, i) ==> (ok <==> NearIn(scopes, marks, s, i + 1))
    {
      hide SlotAt, Offset, ArgsMovedAround, Level;
      ghost var before := code;
      PointedStays(scopes, points, marks, before, code);
      if (s, i) !in points {
        NoPoints(scopes, code, points, marks, s, i);
        return true;
      }
      var aps := points[(s, i)];
      for j := 0 to |aps|
        invariant OnlyRighted(scopes, marks, before, code) && Pointed(scopes, code, points, marks)
        invariant PlacedUpTo(scopes, code, aps, s, i, j)
      {
        ghost var last := code;
        var (a, pc) := aps[j];
        PointTells(scopes, code, points, marks, (s, i), j);
        var level := LevelOf(a, s);
        if level > 255 {
          assert !NearIn(scopes, marks, s, i + 1);
          return false;
        }
        var at := match slot
          case Stash(place) => AtStash(level * 0x100_0000 + place)
          case Stack(idx) => if scopes[s].bindings[i].name == THIS then AtStack(0)
            else if argsInStash then AtStack1(idx) else AtStack(idx);
        code := code[pc := code[pc].(at := at)];
        Rewritten(scopes, marks, points, last, code, pc, Mark(s, i, a));
        RightedTwice(scopes, marks, before, last, code);
        PlacedOne(scopes, marks, points, last, code, aps, s, i, j);
      }
      AllPlaced(scopes, code, points, marks, s, i);
      return true;
    }

    /** Places the bindings of a scope and of the blocks in it, or fails where one is too many levels away. */
    method FinaliseVarAlloc(s: nat, stackOffset: nat) returns (ok: bool, stashSize: nat, stackSize: nat)
      requires Tree(scopes) && s < |scopes| && stackOffset == Offset(scopes, s) && Pointed(scopes, code, points, marks)
      modifies this`code
      ensures Pointed(scopes, code, points, marks) && MarksOk(scopes, marks) && |code| == |marks|
      ensures OnlyRighted(scopes, marks, old(code), code)
      ensures ok ==>
        stashSize == StashCount(scopes[s], |scopes[s].bindings|)
          && stackSize == StackCount(scopes[s], |scopes[s].bindings|)
      ensures ok ==> forall d: nat :: d < |scopes| && Within(scopes, s, d) ==> AllRightIn(scopes, marks, code, d)
      ensures ok <==> forall d: nat :: d < |scopes| && Within(scopes, s, d) ==> AllNearIn(scopes, marks, d)
      decreases |scopes| - s
    {
      hide Nested, Pointed, OnlyRighted, MarksOk, AllRightIn, AllNearIn, StackCount, StashCount;
      ok, stashSize, stackSize := PlaceBindings(s, stackOffset);
      if !ok {
        assert Within(scopes, s, s);
        return;
      }
      var nested := scopes[s].nested;
      for j := 0 to |nested|
        invariant Pointed(scopes, code, points, marks) && MarksOk(scopes, marks) && |code| == |marks|
        invariant OnlyRighted(scopes, marks, old(code), code)
        invariant AllRightIn(scopes, marks, code, s) && AllNearIn(scopes, marks, s)
        invariant forall k: nat, d: nat :: k < j && d < |scopes| && Within(scopes, nested[k], d) ==>
          AllRightIn(scopes, marks, code, d) && AllNearIn(scopes, marks, d)
      {
        NestedIsBlock(scopes, s, j);
        ghost var before := code;
        var inner, _, _ := FinaliseVarAlloc(nested[j], stackSize + stackOffset);
        ok := inner;
        RightedTwice(scopes, marks, old(code), before, code);
        if !ok {
          NotAllNear(scopes, marks, s, nested[j]);
          return;
        }
        forall d: nat | d < |scopes| && AllRightIn(scopes, marks, before, d)
          ensures AllRightIn(scopes, marks, code, d)
        {
          AllRightStays(scopes, marks, before, code, d);
        }
      }
      forall d: nat | d < |scopes| && Within(scopes, s, d)
        ensures AllRightIn(scopes, marks, code, d) && AllNearIn(scopes, marks, d)
      {
        if d != s {
          var j := WithinNested(scopes, s, d);
        }
      }
    }

    method PlaceBindings(s: nat, stackOffset: nat) returns (ok: bool, stashIdx: nat, stackIdx: nat)
      requires Rooted(scopes) && s < |scopes| && stackOffset == Offset(scopes, s)
      requires Pointed(scopes, code, points, marks)
      modifies this`code
      ensures Pointed(scopes, code, points, marks) && MarksOk(scopes, marks) && |code| == |marks|
      ensures OnlyRighted(scopes, marks, old(code), code)
      ensures ok ==>
        stashIdx == StashCount(scopes[s], |scopes[s].bindings|)
          && stackIdx == StackCount(scopes[s], |scopes[s].bindings|)
      ensures ok ==> AllRightIn(scopes, marks, code, s)
      ensures ok <==> AllNearIn(scopes, marks, s)
    {
      hide Pointed, OnlyRighted, MarksOk, RightIn, NearIn, Offset, ArgsMovedAround;
      ok, stashIdx, stackIdx := true, 0, 0;
      var scope := scopes[s];
      var argsInStash := ArgsMovedFor(s);
      PointedStays(scopes, points, marks, code, code);
      NothingToRight(scopes, marks, code, s);
      for i := 0 to |scope.bindings|
        invariant Pointed(scopes, code, points, marks) && MarksOk(scopes, marks) && |code| == |marks|
        invariant OnlyRighted(scopes, marks, old(code), code)
        invariant stashIdx == StashCount(scope, i) && stackIdx == StackCount(scope, i)
        invariant RightIn(scopes, marks, code, s, i) && NearIn(scopes, marks, s, i)
      {
        var slot;
        if scope.IsDynamic() || scope.bindings[i].inStash {
          slot := Stash(stashIdx);
          stashIdx := stashIdx + 1;
        } else {
          var idx := 0;
          if scope.bindings[i].name != THIS {
            if i < scope.numArgs {
              idx := -(i + 1);
            } else {
              stackIdx := stackIdx + 1;
              idx := stackIdx + stackOffset;
            }
          }
          slot := Stack(idx);
        }
        ghost var before := code;
        ok := PlaceAccesses(s, i, slot, argsInStash);
        RightedTwice(scopes, marks, old(code), before, code);
        if !ok {
          StillFar(scopes, marks, s, i + 1);
          return;
        }
      }
    }

    /** The sizes of the stash and of the part of the stack that entering a block makes. */
    method UpdateEnterBlock(s: nat) returns (stashSize: nat, stackSize: nat)
      requires Valid(scopes) && s < |scopes|
      ensures stashSize == EnterStashSize(scopes[s])
      ensures PlainBlock(scopes[s]) ==> (scopes[s].HasStash() <==> stashSize > 0)
      ensures PlainBlock(scopes[s]) ==>
        stashSize == StashCount(scopes[s], |scopes[s].bindings|)
          && stackSize == StackCount(scopes[s], |scopes[s].bindings|)
    {
      var scope := scopes[s];
      stashSize, stackSize := 0, 0;
      if scope.dynLookup {
        stashSize := |scope.bindings|;
      } else {
        for i := 0 to |scope.bindings|
          invariant stashSize == InStashCount(scope.bindings[..i]) && stashSize + stackSize == i
        {
          assert scope.bindings[..i + 1][..i] == scope.bindings[..i];
          if scope.bindings[i].inStash { stashSize := stashSize + 1; } else { stackSize := stackSize + 1; }
        }
      }
      assert scope.bindings[..|scope.bindings|] == scope.bindings;
      if PlainBlock(scope) {
        EnterSizesAgree(scope, |scope.bindings|);
        HasStashIffPushes(scope);
      }
    }
  }

  /** The access points of a binding up to `j` have been rewritten, and none was too far away. */
  ghost predicate PlacedUpTo(scopes: seq<Scope>, code: seq<Instr>, aps: seq<(nat, nat)>, t: nat, i: nat, j: nat)
    requires Rooted(scopes) && t < |scopes| && i < |scopes[t].bindings| && j <= |aps|
  {
    forall k :: 0 <= k < j ==> PlacedAt(scopes, code, aps[k], t, i)
  }

  ghost predicate PlacedAt(scopes: seq<Scope>, code: seq<Instr>, ap: (nat, nat), t: nat, i: nat)
    requires Rooted(scopes) && t < |scopes| && i < |scopes[t].bindings|
  {
    ap.0 < |scopes| && ap.1 < |code| && Right(scopes, code[ap.1], Mark(t, i, ap.0)) && Level(scopes, ap.0, t) <= 255
  }

  lemma NoPoints(scopes: seq<Scope>, code: seq<Instr>, points: Points, marks: seq<Option<Mark>>, t: nat, i: nat)
    requires Rooted(scopes) && Pointed(scopes, code, points, marks) && MarksOk(scopes, marks) && (t, i) !in points
    ensures RightIn(scopes, marks, code, t, i) ==> RightIn(scopes, marks, code, t, i + 1)
    ensures NearIn(scopes, marks, t, i) ==> NearIn(scopes, marks, t, i + 1)
  {
    hide MarkOk, OperandOf;
    assert forall pc :: 0 <= pc < |marks| && marks[pc].Some? ==> marks[pc].value.t != t || marks[pc].value.i != i;
  }

  lemma PointTells(scopes: seq<Scope>, code: seq<Instr>, points: Points, marks: seq<Option<Mark>>, b: (nat, nat),
                   j: nat)
    requires Rooted(scopes) && Pointed(scopes, code, points, marks) && b in points && j < |points[b]|
    ensures var (a, pc) := points[b][j];
      && pc < |code| && marks[pc] == Some(Mark(b.0, b.1, a)) && code[pc].Access?
      && a < |scopes| && b.0 < |scopes| && Encloses(scopes, b.0, a)
  {
    var (a, pc) := points[b][j];
    assert MarkOk(scopes, marks[pc].value);
  }

  /** One instruction rewritten as it should be. */
  lemma Rewritten(scopes: seq<Scope>, marks: seq<Option<Mark>>, points: Points, last: seq<Instr>, code: seq<Instr>,
                  pc: nat, m: Mark)
    requires Rooted(scopes) && MarksOk(scopes, marks) && Pointed(scopes, last, points, marks)
    requires pc < |last| && marks[pc] == Some(m) && last[pc].Access? && MarkOk(scopes, m)
    requires code == last[pc := last[pc].(at := OperandOf(scopes, m))]
    ensures OnlyRighted(scopes, marks, last, code) && Pointed(scopes, code, points, marks)
  {
    hide OperandOf, MarkOk;
    PointedStays(scopes, points, marks, last, code);
  }

  lemma PlacedOne(scopes: seq<Scope>, marks: seq<Option<Mark>>, points: Points, last: seq<Instr>, code: seq<Instr>,
                  aps: seq<(nat, nat)>, t: nat, i: nat, j: nat)
    requires Rooted(scopes) && MarksOk(scopes, marks) && t < |scopes| && i < |scopes[t].bindings| && j < |aps|
    requires Pointed(scopes, last, points, marks) && OnlyRighted(scopes, marks, last, code) && (t, i) in points
    requires points[(t, i)] == aps
    requires PlacedUpTo(scopes, last, aps, t, i, j) && PlacedAt(scopes, code, aps[j], t, i)
    ensures PlacedUpTo(scopes, code, aps, t, i, j + 1)
  {
    hide OperandOf, MarkOk, Level;
    forall k | 0 <= k < j ensures PlacedAt(scopes, code, aps[k], t, i) {
      assert PlacedAt(scopes, last, aps[k], t, i);
      PointTells(scopes, last, points, marks, (t, i), k);
      var pc := aps[k].1;
      assert RightedAt(scopes, marks[pc], last[pc], code[pc]);
    }
  }

  lemma AllPlaced(scopes: seq<Scope>, code: seq<Instr>, points: Points, marks: seq<Option<Mark>>, t: nat, i: nat)
    requires Rooted(scopes) && MarksOk(scopes, marks) && Pointed(scopes, code, points, marks) && t < |scopes|
    requires i < |scopes[t].bindings|
    requires (t, i) in points && PlacedUpTo(scopes, code, points[(t, i)], t, i, |points[(t, i)]|)
    ensures RightIn(scopes, marks, code, t, i) ==> RightIn(scopes, marks, code, t, i + 1)
    ensures NearIn(scopes, marks, t, i) ==> NearIn(scopes, marks, t, i + 1)
  {
    hide OperandOf, Level;
    var aps := points[(t, i)];
    forall pc | 0 <= pc < |code| && marks[pc].Some? && marks[pc].value.t == t && marks[pc].value.i == i
      ensures Right(scopes, code[pc], marks[pc].value) && Level(scopes, marks[pc].value.s, t) <= 255
    {
      assert (marks[pc].value.s, pc) in aps;
      var k :| 0 <= k < |aps| && aps[k] == (marks[pc].value.s, pc);
      assert PlacedAt(scopes, code, aps[k], t, i);
    }
  }

  lemma NothingToRight(scopes: seq<Scope>, marks: seq<Option<Mark>>, code: seq<Instr>, t: nat)
    requires Rooted(scopes) && MarksOk(scopes, marks) && |code| == |marks|
    ensures RightIn(scopes, marks, code, t, 0) && NearIn(scopes, marks, t, 0)
  {
  }

  lemma StillFar(scopes: seq<Scope>, marks: seq<Option<Mark>>, t: nat, n: nat)
    requires Rooted(scopes) && MarksOk(scopes, marks) && t < |scopes| && n <= |scopes[t].bindings|
    requires !NearIn(scopes, marks, t, n)
    ensures !AllNearIn(scopes, marks, t)
  {
  }

  /** What is too far away in a nested block is so in the scope. */
  lemma NotAllNear(scopes: seq<Scope>, marks: seq<Option<Mark>>, s: nat, n: nat)
    requires Rooted(scopes) && MarksOk(scopes, marks) && s < n < |scopes| && scopes[n].block && scopes[n].outer == s
    requires !forall d: nat :: d < |scopes| && Within(scopes, n, d) ==> AllNearIn(scopes, marks, d)
    ensures !forall d: nat :: d < |scopes| && Within(scopes, s, d) ==> AllNearIn(scopes, marks, d)
  {
    hide AllNearIn;
    var d: nat :| d < |scopes| && Within(scopes, n, d) && !AllNearIn(scopes, marks, d);
    WithinOuter(scopes, s, n, d);
  }

  lemma {:induction false} WithinOuter(scopes: seq<Scope>, s: nat, n: nat, d: nat)
    requires Rooted(scopes) && s < n < |scopes| && scopes[n].block && scopes[n].outer == s && d < |scopes|
    requires Within(scopes, n, d)
    ensures Within(scopes, s, d)
    decreases d
  {
    if d != n { WithinOuter(scopes, s, n, scopes[d].outer); }
  }

  lemma AllRightStays(scopes: seq<Scope>, marks: seq<Option<Mark>>, a: seq<Instr>, b: seq<Instr>, t: nat)
    requires Rooted(scopes) && MarksOk(scopes, marks) && OnlyRighted(scopes, marks, a, b) && t < |scopes|
    requires AllRightIn(scopes, marks, a, t)
    ensures AllRightIn(scopes, marks, b, t)
  {
    RightStays(scopes, marks, a, b, t, |scopes[t].bindings|);
  }

  lemma {:induction false} ArgsInStashIs(bindings: seq<Binding>, n: nat, r: seq<Binding>)
    requires n <= |bindings| == |r| && (forall k :: 0 <= k < n ==> bindings[k].isArg)
    requires (n < |bindings| ==> !bindings[n].isArg)
    requires forall k :: 0 <= k < |bindings| ==> r[k] == if k < n then bindings[k].(inStash := true) else bindings[k]
    ensures ArgsInStash(bindings) == r
    decreases n
  {
    if n > 0 {
      ArgsInStashIs(bindings[1..], n - 1, r[1..]);
      assert r == [r[0]] + r[1..];
    }
  }

  /** One step of the marking. */
  lemma EvalMarkedStep(scopes: seq<Scope>, s: nat, foundVar: bool)
    requires Rooted(scopes) && s < |scopes|
    ensures var here := !foundVar && (scopes[s].variable || scopes[s].IsFunction());
      var marked := scopes[s].(dynamic := scopes[s].dynamic || (here && !scopes[s].strict), dynLookup := true);
      var rest := scopes[s := marked];
      && Rooted(rest)
      && EvalMarked(scopes, s, foundVar) == if s == 0 then rest else EvalMarked(rest, scopes[s].outer, foundVar || here)
  {
  }

  lemma IndexOk(scope: Scope, name: string)
    requires ScopeOk(scope) && name in scope.boundNames
    ensures scope.boundNames[name] < |scope.bindings|
  {
  }

  lemma {:induction false} SameVariableScope(a: seq<Scope>, b: seq<Scope>, s: nat)
    requires Rooted(a) && Rooted(b) && SamePlaces(a, b) && s < |a| && |a| == |b| && forall k :: 0 <= k < |a| ==>
      a[k].variable == b[k].variable
    ensures VariableScope(a, s) == VariableScope(b, s)
    decreases s
  {
    if s > 0 { SameVariableScope(a, b, a[s].outer); }
  }

  lemma NestedIsBlock(scopes: seq<Scope>, s: nat, j: nat)
    requires Tree(scopes) && s < |scopes| && j < |scopes[s].nested|
    ensures s < scopes[s].nested[j] < |scopes| && scopes[scopes[s].nested[j]].block
    ensures scopes[scopes[s].nested[j]].outer == s
  {
    assert IsBlockIn(scopes, scopes[s].nested[j], s);
  }
}
