/**
 The expression compiler: code emission with constant folding, short-circuit jumps and the
 discipline of `putOnStack`, against the evaluation of expressions.
 */
module ExprCompiler {
  import opened Options

  // ---------------------------------------------------------------------------------------
  // Values and the world

  datatype Value =
    | Undefined
    | Null
    | Bool(b: bool)
    | Other(id: int)                        // numbers, strings, big integers
    | Error(name: string, message: Option<Value>)   // an error object made by one of the engine's own constructors
    | Constructor(name: string)             // such a constructor
    | Object(id: int)

  datatype Outcome = Normal(v: Value) | Throws(v: Value)

  datatype UnaryOp = Not | BitNot | TypeOf | Minus | Plus
  datatype BinaryOp = BinaryOp(token: int)

  predicate Primitive(v: Value) {
    v.Undefined? || v.Null? || v.Bool? || v.Other?
  }

  predicate Nullish(v: Value) {
    v.Undefined? || v.Null?
  }

  /** The errors that code can be emitted for. */
  predicate KnownError(v: Value) {
    v.Error? && (v.name == "TypeError" || v.name == "RangeError")
  }

  /** The errors that the operators throw when they are applied to primitive values. */
  predicate StandardError(v: Value) {
    KnownError(v) && (v.message.Some? ==> Primitive(v.message.value))
  }

  /**
   What the machine's instructions do.  Applied to objects the operators may run user code, so
   they take and return the world; so do the opaque expressions (`call`), the look-up of a global
   name and the construction of an object.
   */
  datatype Machine<!W(!new)> = Machine(
    truthy: Value -> bool,
    unary: (UnaryOp, Value, W) -> (Outcome, W),
    binary: (BinaryOp, Value, Value, W) -> (Outcome, W),
    call: (int, W) -> (Outcome, W),
    global: (string, W) -> (Outcome, W),
    construct: (Value, seq<Value>, W) -> (Outcome, W),
    evalWorld: W)
  {
    /** On primitive values the operators are pure, and what they throw is a standard error. */
    ghost predicate OperatorsOk() {
      && (forall op, v, w :: Primitive(v) ==> unary(op, v, w) == (unary(op, v, evalWorld).0, w))
      && (forall op, a, b, w :: Primitive(a) && Primitive(b) ==>
        binary(op, a, b, w) == (binary(op, a, b, evalWorld).0, w))
      && (forall op, v :: Primitive(v) ==> ConstantOutcome(unary(op, v, evalWorld).0))
      && (forall op, a, b :: Primitive(a) && Primitive(b) ==> ConstantOutcome(binary(op, a, b, evalWorld).0))
    }

    /** The standard error constructors are found under their names and make what they should. */
    ghost predicate ErrorsIntact(w: W) {
      && global("TypeError", w) == (Normal(Constructor("TypeError")), w)
      && global("RangeError", w) == (Normal(Constructor("RangeError")), w)
      && (forall name, m :: construct(Constructor(name), [m], w) == (Normal(Error(name, Some(m))), w))
      && (forall name :: construct(Constructor(name), [], w) == (Normal(Error(name, None)), w))
    }
  }

  predicate ConstantOutcome(o: Outcome) {
    match o
    case Normal(v) => Primitive(v)
    case Throws(v) => StandardError(v)
  }

  // ---------------------------------------------------------------------------------------
  // Expressions and what they mean

  datatype Expr =
    | Literal(v: Value)
    | Call(id: int)                          // an expression that is not folded
    | Unary(op: UnaryOp, e: Expr)
    | Void(e: Expr)
    | Delete(e: Expr)
    | Binary(bop: BinaryOp, left: Expr, right: Expr)
    | Conditional(test: Expr, consequent: Expr, alternate: Expr)
    | LogicalOr(left: Expr, right: Expr)
    | LogicalAnd(left: Expr, right: Expr)
    | Coalesce(left: Expr, right: Expr)
    | Sequence(es: List)

  /** A sequence expression has at least one element. */
  datatype List = Last(e: Expr) | Then(e: Expr, rest: List)

  /** Literals are primitive. */
  predicate WellFormed(e: Expr) {
    match e
    case Literal(v) => Primitive(v)
    case Call(_) => true
    case Unary(_, x) => WellFormed(x)
    case Void(x) => WellFormed(x)
    case Delete(x) => WellFormed(x)
    case Binary(_, l, r) => WellFormed(l) && WellFormed(r)
    case Conditional(t, c, a) => WellFormed(t) && WellFormed(c) && WellFormed(a)
    case LogicalOr(l, r) => WellFormed(l) && WellFormed(r)
    case LogicalAnd(l, r) => WellFormed(l) && WellFormed(r)
    case Coalesce(l, r) => WellFormed(l) && WellFormed(r)
    case Sequence(es) => WellFormedList(es)
  }

  predicate WellFormedList(es: List) {
    match es
    case Last(e) => WellFormed(e)
    case Then(e, rest) => WellFormed(e) && WellFormedList(rest)
  }

  /**
   Evaluation.  With `strict` it is ECMAScript's: `delete` of something that is not a reference
   evaluates its operand first.  Without, such an operand is evaluated only if it is a call.
   */
  function Eval<W(!new)>(m: Machine<W>, strict: bool, e: Expr, w: W): (Outcome, W)
    decreases e
  {
    match e
    case Literal(v) => (Normal(v), w)
    case Call(id) => m.call(id, w)
    case Unary(op, x) =>
      var (o, w1) := Eval(m, strict, x, w);
      if o.Throws? then (o, w1) else m.unary(op, o.v, w1)
    case Void(x) =>
      var (o, w1) := Eval(m, strict, x, w);
      if o.Throws? then (o, w1) else (Normal(Undefined), w1)
    case Delete(x) =>
      if !strict && !x.Call? then (Normal(Bool(true)), w)
      else
        var (o, w1) := Eval(m, strict, x, w);
        if o.Throws? then (o, w1) else (Normal(Bool(true)), w1)
    case Binary(op, l, r) =>
      var (o, w1) := Eval(m, strict, l, w);
      if o.Throws? then (o, w1)
      else
        var (p, w2) := Eval(m, strict, r, w1);
        if p.Throws? then (p, w2) else m.binary(op, o.v, p.v, w2)
    case Conditional(t, c, a) =>
      var (o, w1) := Eval(m, strict, t, w);
      if o.Throws? then (o, w1)
      else if m.truthy(o.v) then Eval(m, strict, c, w1) else Eval(m, strict, a, w1)
    case LogicalOr(l, r) =>
      var (o, w1) := Eval(m, strict, l, w);
      if o.Throws? || m.truthy(o.v) then (o, w1) else Eval(m, strict, r, w1)
    case LogicalAnd(l, r) =>
      var (o, w1) := Eval(m, strict, l, w);
      if o.Throws? || !m.truthy(o.v) then (o, w1) else Eval(m, strict, r, w1)
    case Coalesce(l, r) =>
      var (o, w1) := Eval(m, strict, l, w);
      if o.Throws? || !Nullish(o.v) then (o, w1) else Eval(m, strict, r, w1)
    case Sequence(es) => EvalList(m, strict, es, w)
  }

  function EvalList<W(!new)>(m: Machine<W>, strict: bool, es: List, w: W): (Outcome, W)
    decreases es
  {
    match es
    case Last(e) => Eval(m, strict, e, w)
    case Then(e, rest) =>
      var (o, w1) := Eval(m, strict, e, w);
      if o.Throws? then (o, w1) else EvalList(m, strict, rest, w1)
  }

  /** `??` goes on to its right operand for `undefined` and `null`, and for no other value. */
  lemma CoalesceTells<W(!new)>(m: Machine<W>, strict: bool, l: Expr, r: Expr, w: W)
    ensures var (o, w1) := Eval(m, strict, l, w);
      Eval(m, strict, Coalesce(l, r), w) ==
        if o == Normal(Undefined) || o == Normal(Null) then Eval(m, strict, r, w1) else (o, w1)
  {
  }

  // ---------------------------------------------------------------------------------------
  // The machine

  datatype Instr =
    | LoadVal(v: Value)
    | LoadUndef
    | Pop
    | UnaryInstr(op: UnaryOp)
    | BinaryInstr(bop: BinaryOp)
    | CallInstr(id: int)
    | Jump(n: int)
    | JneP(n: int)       // pops; jumps if the value is false
    | Jeq(n: int)        // jumps if the value is true, else pops
    | Jne(n: int)        // jumps if the value is false, else pops
    | Jcoalesc(n: int)   // jumps unless the value is null or undefined, else pops
    | LoadDynamic(name: string)
    | New(argc: nat)
    | Throw
    | Placeholder        // a slot still to be patched

  /** How a run ends: at the end of the code, with an exception, or in a broken state. */
  datatype Result<+W> = Done(stack: seq<Value>, w: W) | Threw(v: Value, w: W) | Broken

  /** One instruction: how far it moves on, or how the run ends. */
  datatype Effect<+W> = Move(dist: int, st: seq<Value>, w: W) | End(r: Result<W>)

  /** The effect of an operation whose result goes onto `rest`. */
  function Push<W>(rest: seq<Value>, o: (Outcome, W)): Effect<W> {
    match o.0
    case Normal(v) => Move(1, rest + [v], o.1)
    case Throws(v) => End(Threw(v, o.1))
  }

  function Step<W(!new)>(m: Machine<W>, i: Instr, st: seq<Value>, w: W): Effect<W> {
    var n := |st|;
    match i
    case LoadVal(v) => Move(1, st + [v], w)
    case LoadUndef => Move(1, st + [Undefined], w)
    case Pop => if n < 1 then End(Broken) else Move(1, st[..n - 1], w)
    case UnaryInstr(op) => if n < 1 then End(Broken) else Push(st[..n - 1], m.unary(op, st[n - 1], w))
    case BinaryInstr(op) => if n < 2 then End(Broken) else Push(st[..n - 2], m.binary(op, st[n - 2], st[n - 1], w))
    case CallInstr(id) => Push(st, m.call(id, w))
    case Jump(k) => Move(k, st, w)
    case JneP(k) => if n < 1 then End(Broken) else Move(if m.truthy(st[n - 1]) then 1 else k, st[..n - 1], w)
    case Jeq(k) => if n < 1 then End(Broken) else JumpOrPop(m.truthy(st[n - 1]), k, st, w)
    case Jne(k) => if n < 1 then End(Broken) else JumpOrPop(!m.truthy(st[n - 1]), k, st, w)
    case Jcoalesc(k) => if n < 1 then End(Broken) else JumpOrPop(!Nullish(st[n - 1]), k, st, w)
    case LoadDynamic(name) => Push(st, m.global(name, w))
    case New(k) => if n < k + 1 then End(Broken) else Push(st[..n - k - 1], m.construct(st[n - k - 1], st[n - k..], w))
    case Throw => if n < 1 then End(Broken) else End(Threw(st[n - 1], w))
    case Placeholder => End(Broken)
  }

  function JumpOrPop<W>(jump: bool, k: int, st: seq<Value>, w: W): Effect<W>
    requires |st| > 0
  {
    if jump then Move(k, st, w) else Move(1, st[..|st| - 1], w)
  }

  /** Runs to the end of the code.  The code emitted here only jumps forward. */
  function Run<W(!new)>(m: Machine<W>, code: seq<Instr>, pc: nat, st: seq<Value>, w: W): Result<W>
    decreases |code| - pc
  {
    if pc >= |code| then Done(st, w)
    else
      match Step(m, code[pc], st, w)
      case Move(d, st1, w1) => if d <= 0 then Broken else Run(m, code, pc + d, st1, w1)
      case End(r) => r
  }

  // ---------------------------------------------------------------------------------------
  // The code the compiler emits, and the folding that decides it

  function PopUnless(putOnStack: bool): seq<Instr> {
    if putOnStack then [] else [Pop]
  }

  function Load(v: Value, putOnStack: bool): seq<Instr> {
    if putOnStack then [LoadVal(v)] else []
  }

  /** A constant expression that throws is replaced by code that makes the error anew. */
  function ThrowCode(v: Value): seq<Instr> {
    if !KnownError(v) then [Placeholder]
    else if v.message.Some? then [LoadDynamic(v.name), LoadVal(v.message.value), New(1), Throw]
    else [LoadDynamic(v.name), New(0), Throw]
  }

  function Constant<W(!new)>(m: Machine<W>, e: Expr): bool
    decreases e, 0
  {
    match e
    case Literal(_) => true
    case Call(_) => false
    case Unary(_, x) => Constant(m, x)
    case Void(x) => Constant(m, x)
    case Delete(x) => Constant(m, x)
    case Binary(_, l, r) => Constant(m, l) && Constant(m, r)
    case Conditional(_, _, _) => false
    case LogicalOr(l, r) =>
      Constant(m, l) && (var o := EvalConst(m, l); o.Throws? || m.truthy(o.v) || Constant(m, r))
    case LogicalAnd(l, r) =>
      Constant(m, l) && (var o := EvalConst(m, l); o.Throws? || !m.truthy(o.v) || Constant(m, r))
    case Coalesce(l, r) =>
      Constant(m, l) && (var o := EvalConst(m, l); o.Throws? || !Nullish(o.v) || Constant(m, r))
    case Sequence(_) => false
  }

  /** The value of a constant expression: compile it and run the code on a machine of its own. */
  function EvalConst<W(!new)>(m: Machine<W>, e: Expr): Outcome
    decreases e, 1
  {
    if e.Literal? then Normal(e.v)
    else
      match Run(m, Getter(m, e, true), 0, [], m.evalWorld)
      case Done(st, _) => if st == [] then Throws(Undefined) else Normal(st[|st| - 1])
      case Threw(v, _) => Throws(v)
      case Broken => Throws(Undefined)
  }

  function ConstCode(o: Outcome, putOnStack: bool): seq<Instr> {
    match o
    case Normal(v) => Load(v, putOnStack)
    case Throws(v) => ThrowCode(v)
  }

  /** `emitExpr`: folded if constant. */
  function Code<W(!new)>(m: Machine<W>, e: Expr, putOnStack: bool): seq<Instr>
    decreases e, 2
  {
    if Constant(m, e) then ConstCode(EvalConst(m, e), putOnStack) else Getter(m, e, putOnStack)
  }

  /** `emitGetter`. */
  function Getter<W(!new)>(m: Machine<W>, e: Expr, putOnStack: bool): seq<Instr>
    decreases e, 0
  {
    match e
    case Literal(v) => Load(v, putOnStack)
    case Call(id) => [CallInstr(id)] + PopUnless(putOnStack)
    case Unary(op, x) =>
      (if op.Minus? || op.Plus? then Code(m, x, true) else Getter(m, x, true)) + [UnaryInstr(op)]
        + PopUnless(putOnStack)
    case Void(x) => Code(m, x, false) + if putOnStack then [LoadUndef] else []
    case Delete(x) => (if x.Call? then Getter(m, x, false) else []) + Load(Bool(true), putOnStack)
    case Binary(op, l, r) => Code(m, l, true) + Code(m, r, true) + [BinaryInstr(op)] + PopUnless(putOnStack)
    case Conditional(t, c, a) =>
      var cc, ac := Getter(m, c, putOnStack), Getter(m, a, putOnStack);
      Getter(m, t, true) + [JneP(|cc| + 2)] + cc + [Jump(|ac| + 1)] + ac
    case LogicalOr(l, r) =>
      if Constant(m, l) then
        var o := EvalConst(m, l);
        if o.Normal? && !m.truthy(o.v) then Code(m, r, putOnStack) else ConstCode(o, putOnStack)
      else
        var rc := Code(m, r, true);
        Code(m, l, true) + [Jeq(|rc| + 1)] + rc + PopUnless(putOnStack)
    case LogicalAnd(l, r) =>
      if Constant(m, l) then
        var o := EvalConst(m, l);
        if o.Normal? && m.truthy(o.v) then Code(m, r, putOnStack) else ConstCode(o, putOnStack)
      else
        var rc := Code(m, r, true);
        Getter(m, l, true) + [Jne(|rc| + 1)] + rc + PopUnless(putOnStack)
    case Coalesce(l, r) =>
      if Constant(m, l) then
        var o := EvalConst(m, l);
        if o.Normal? && Nullish(o.v) then Code(m, r, putOnStack) else ConstCode(o, putOnStack)
      else
        var rc := Code(m, r, true);
        Code(m, l, true) + [Jcoalesc(|rc| + 1)] + rc + PopUnless(putOnStack)
    case Sequence(es) => ListCode(m, es, putOnStack)
  }

  function ListCode<W(!new)>(m: Machine<W>, es: List, putOnStack: bool): seq<Instr>
    decreases es, 0
  {
    match es
    case Last(e) => Getter(m, e, putOnStack)
    case Then(e, rest) => Getter(m, e, false) + ListCode(m, rest, putOnStack)
  }

  // ---------------------------------------------------------------------------------------
  // What the code comes to

  /** What looking an error's constructor up by name and calling it anew throws, and the world after that. */
  function Rebuilt<W(!new)>(m: Machine<W>, v: Value, w: W): (Value, W)
    requires v.Error?
  {
    var (k, w1) := m.global(v.name, w);
    if k.Throws? then (k.v, w1)
    else
      var (x, w2) := m.construct(k.v, if v.message.Some? then [v.message.value] else [], w1);
      (x.v, w2)
  }

  /** The outcome of the code for a folded expression. */
  function Folded<W(!new)>(m: Machine<W>, o: Outcome, w: W): (Outcome, W) {
    if o.Throws? && KnownError(o.v) then
      var (x, w1) := Rebuilt(m, o.v, w);
      (Throws(x), w1)
    else (o, w)
  }

  /** The outcome of the code that `emitExpr` emits: evaluation, but that folded exceptions are made anew. */
  function CodeOutcome<W(!new)>(m: Machine<W>, e: Expr, w: W): (Outcome, W)
    decreases e, 2
  {
    if Constant(m, e) then Folded(m, EvalConst(m, e), w) else GetterOutcome(m, e, w)
  }

  /** The outcome of the code that `emitGetter` emits. */
  function GetterOutcome<W(!new)>(m: Machine<W>, e: Expr, w: W): (Outcome, W)
    decreases e, 0
  {
    match e
    case Literal(v) => (Normal(v), w)
    case Call(id) => m.call(id, w)
    case Unary(op, x) =>
      var (o, w1) := if op.Minus? || op.Plus? then CodeOutcome(m, x, w) else GetterOutcome(m, x, w);
      if o.Throws? then (o, w1) else m.unary(op, o.v, w1)
    case Void(x) =>
      var (o, w1) := CodeOutcome(m, x, w);
      if o.Throws? then (o, w1) else (Normal(Undefined), w1)
    case Delete(x) =>
      if !x.Call? then (Normal(Bool(true)), w)
      else
        var (o, w1) := GetterOutcome(m, x, w);
        if o.Throws? then (o, w1) else (Normal(Bool(true)), w1)
    case Binary(op, l, r) =>
      var (o, w1) := CodeOutcome(m, l, w);
      if o.Throws? then (o, w1)
      else
        var (p, w2) := CodeOutcome(m, r, w1);
        if p.Throws? then (p, w2) else m.binary(op, o.v, p.v, w2)
    case Conditional(t, c, a) =>
      var (o, w1) := GetterOutcome(m, t, w);
      if o.Throws? then (o, w1)
      else if m.truthy(o.v) then GetterOutcome(m, c, w1) else GetterOutcome(m, a, w1)
    case LogicalOr(l, r) =>
      if Constant(m, l) then
        var o := EvalConst(m, l);
        if o.Normal? && !m.truthy(o.v) then CodeOutcome(m, r, w) else Folded(m, o, w)
      else
        var (o, w1) := CodeOutcome(m, l, w);
        if o.Throws? || m.truthy(o.v) then (o, w1) else CodeOutcome(m, r, w1)
    case LogicalAnd(l, r) =>
      if Constant(m, l) then
        var o := EvalConst(m, l);
        if o.Normal? && m.truthy(o.v) then CodeOutcome(m, r, w) else Folded(m, o, w)
      else
        var (o, w1) := GetterOutcome(m, l, w);
        if o.Throws? || !m.truthy(o.v) then (o, w1) else CodeOutcome(m, r, w1)
    case Coalesce(l, r) =>
      if Constant(m, l) then
        var o := EvalConst(m, l);
        if o.Normal? && Nullish(o.v) then CodeOutcome(m, r, w) else Folded(m, o, w)
      else
        var (o, w1) := CodeOutcome(m, l, w);
        if o.Throws? || !Nullish(o.v) then (o, w1) else CodeOutcome(m, r, w1)
    case Sequence(es) => ListOutcome(m, es, w)
  }

  function ListOutcome<W(!new)>(m: Machine<W>, es: List, w: W): (Outcome, W)
    decreases es, 0
  {
    match es
    case Last(e) => GetterOutcome(m, e, w)
    case Then(e, rest) =>
      var (o, w1) := GetterOutcome(m, e, w);
      if o.Throws? then (o, w1) else ListOutcome(m, rest, w1)
  }

  // ---------------------------------------------------------------------------------------
  // When that is evaluation

  /** A folded exception is made anew just as it was. */
  ghost predicate FoldIntact<W(!new)>(m: Machine<W>, o: Outcome, w: W) {
    Folded(m, o, w) == (o, w)
  }

  /**
   Every folded exception that evaluation comes to in the code of `emitExpr` is intact in the world
   it is reached in.
   */
  ghost predicate CodeIntact<W(!new)>(m: Machine<W>, e: Expr, w: W)
    decreases e, 2
  {
    if Constant(m, e) then FoldIntact(m, EvalConst(m, e), w) else GetterIntact(m, e, w)
  }

  /** The same of the code of `emitGetter`. */
  ghost predicate GetterIntact<W(!new)>(m: Machine<W>, e: Expr, w: W)
    decreases e, 0
  {
    match e
    case Literal(_) => true
    case Call(_) => true
    case Unary(op, x) => if op.Minus? || op.Plus? then CodeIntact(m, x, w) else GetterIntact(m, x, w)
    case Void(x) => CodeIntact(m, x, w)
    case Delete(_) => true
    case Binary(_, l, r) =>
      var (o, w1) := Eval(m, false, l, w);
      CodeIntact(m, l, w) && (o.Normal? ==> CodeIntact(m, r, w1))
    case Conditional(t, c, a) =>
      var (o, w1) := Eval(m, false, t, w);
      GetterIntact(m, t, w) && (o.Normal? ==> if m.truthy(o.v) then GetterIntact(m, c, w1) else GetterIntact(m, a, w1))
    case LogicalOr(l, r) =>
      var (o, w1) := Eval(m, false, l, w);
      CodeIntact(m, l, w) && (o.Normal? && !m.truthy(o.v) ==> CodeIntact(m, r, w1))
    case LogicalAnd(l, r) =>
      var (o, w1) := Eval(m, false, l, w);
      CodeIntact(m, l, w) && (o.Normal? && m.truthy(o.v) ==> CodeIntact(m, r, w1))
    case Coalesce(l, r) =>
      var (o, w1) := Eval(m, false, l, w);
      CodeIntact(m, l, w) && (o.Normal? && Nullish(o.v) ==> CodeIntact(m, r, w1))
    case Sequence(es) => ListIntact(m, es, w)
  }

  ghost predicate ListIntact<W(!new)>(m: Machine<W>, es: List, w: W)
    decreases es, 0
  {
    match es
    case Last(e) => GetterIntact(m, e, w)
    case Then(e, rest) =>
      var (o, w1) := Eval(m, false, e, w);
      GetterIntact(m, e, w) && (o.Normal? ==> ListIntact(m, rest, w1))
  }

  // ---------------------------------------------------------------------------------------
  // Correctness

  /** The code segment `c` lies at `pc`. */
  ghost predicate At(code: seq<Instr>, pc: nat, c: seq<Instr>) {
    pc + |c| <= |code| && code[pc..pc + |c|] == c
  }

  lemma AtSplit(code: seq<Instr>, pc: nat, a: seq<Instr>, b: seq<Instr>)
    requires At(code, pc, a + b)
    ensures At(code, pc, a) && At(code, pc + |a|, b)
  {
    assert code[pc..pc + |a|] == code[pc..pc + |a + b|][..|a|];
    assert code[pc + |a|..pc + |a| + |b|] == code[pc..pc + |a + b|][|a|..];
  }

  lemma AtFirst(code: seq<Instr>, pc: nat, i: Instr, b: seq<Instr>)
    requires At(code, pc, [i] + b)
    ensures pc < |code| && code[pc] == i && At(code, pc + 1, b)
  {
    AtSplit(code, pc, [i], b);
    assert code[pc..pc + 1][0] == code[pc];
  }

  /** What running on from `pc`, after a segment with outcome `o`, comes to. */
  function Onward<W(!new)>(m: Machine<W>, code: seq<Instr>, pc: nat, st: seq<Value>, putOnStack: bool,
                           o: (Outcome, W)): Result<W>
  {
    match o.0
    case Normal(v) => Run(m, code, pc, if putOnStack then st + [v] else st, o.1)
    case Throws(v) => Threw(v, o.1)
  }

  /**
   The `n` instructions at `pc` have outcome `o`: its value is left on the stack, or not, or the
   exception ends the run.
   */
  ghost predicate Does<W(!new)>(m: Machine<W>, code: seq<Instr>, pc: nat, n: nat, st: seq<Value>, w: W,
                                putOnStack: bool, o: (Outcome, W))
  {
    Run(m, code, pc, st, w) == Onward(m, code, pc + n, st, putOnStack, o)
  }

  /** The machine's operators are the engine's own, and so are the error constructors of the machine that folds. */
  ghost predicate Standard<W(!new)>(m: Machine<W>) {
    m.OperatorsOk() && m.ErrorsIntact(m.evalWorld)
  }

  // Segments of code

  lemma PopOk<W(!new)>(m: Machine<W>, code: seq<Instr>, pc: nat, st: seq<Value>, v: Value, w: W, putOnStack: bool)
    requires At(code, pc, PopUnless(putOnStack))
    ensures Run(m, code, pc, st + [v], w) ==
      Run(m, code, pc + |PopUnless(putOnStack)|, if putOnStack then st + [v] else st, w)
  {
    if !putOnStack {
      AtFirst(code, pc, Pop, []);
      assert (st + [v])[..|st|] == st;
    }
  }

  lemma LoadOk<W(!new)>(m: Machine<W>, code: seq<Instr>, pc: nat, st: seq<Value>, v: Value, w: W, putOnStack: bool)
    requires At(code, pc, Load(v, putOnStack))
    ensures Does(m, code, pc, |Load(v, putOnStack)|, st, w, putOnStack, (Normal(v), w))
  {
    if putOnStack {
      AtFirst(code, pc, LoadVal(v), []);
      StepLoads(m, v, st, w);
      hide Step, At;
      assert Run(m, code, pc, st, w) == Run(m, code, pc + 1, st + [v], w);
      hide Run;
    } else {
      hide Run;
    }
  }

  lemma StepLoads<W(!new)>(m: Machine<W>, v: Value, st: seq<Value>, w: W)
    ensures Step(m, LoadVal(v), st, w) == Move(1, st + [v], w)
  {
  }

  /** An operation that pushes its result, followed by the pop that discards it when it is not wanted. */
  lemma OperationOk<W(!new)>(m: Machine<W>, code: seq<Instr>, pc: nat, before: seq<Value>, st: seq<Value>, w: W,
                             i: Instr, putOnStack: bool, o: (Outcome, W))
    requires At(code, pc, [i] + PopUnless(putOnStack)) && Step(m, i, before, w) == Push(st, o)
    ensures Run(m, code, pc, before, w) == Onward(m, code, pc + 1 + |PopUnless(putOnStack)|, st, putOnStack, o)
  {
    hide Step;
    AtFirst(code, pc, i, PopUnless(putOnStack));
    if o.0.Normal? {
      assert Run(m, code, pc, before, w) == Run(m, code, pc + 1, st + [o.0.v], o.1);
      PopOk(m, code, pc + 1, st, o.0.v, o.1, putOnStack);
    }
  }

  lemma UnarySegment<W(!new)>(m: Machine<W>, code: seq<Instr>, pc: nat, xc: seq<Instr>, st: seq<Value>, w: W,
                              op: UnaryOp, putOnStack: bool, x: (Outcome, W))
    requires At(code, pc, xc + ([UnaryInstr(op)] + PopUnless(putOnStack)))
    requires Does(m, code, pc, |xc|, st, w, true, x)
    ensures Does(m, code, pc, |xc| + 1 + |PopUnless(putOnStack)|, st, w, putOnStack,
                 if x.0.Throws? then x else m.unary(op, x.0.v, x.1))
  {
    hide Run;
    AtSplit(code, pc, xc, [UnaryInstr(op)] + PopUnless(putOnStack));
    if x.0.Normal? {
      assert (st + [x.0.v])[..|st|] == st;
      OperationOk(m, code, pc + |xc|, st + [x.0.v], st, x.1, UnaryInstr(op), putOnStack, m.unary(op, x.0.v, x.1));
    }
  }

  lemma BinarySegment<W(!new)>(m: Machine<W>, code: seq<Instr>, pc: nat, lc: seq<Instr>, rc: seq<Instr>, st: seq<Value>,
                               w: W, op: BinaryOp, putOnStack: bool,
                               l: (Outcome, W), r: (Outcome, W))
    requires At(code, pc, lc + (rc + ([BinaryInstr(op)] + PopUnless(putOnStack))))
    requires Does(m, code, pc, |lc|, st, w, true, l)
    requires l.0.Normal? ==> Does(m, code, pc + |lc|, |rc|, st + [l.0.v], l.1, true, r)
    ensures Does(m, code, pc, |lc| + |rc| + 1 + |PopUnless(putOnStack)|, st, w, putOnStack,
                 if l.0.Throws? then l else if r.0.Throws? then r else m.binary(op, l.0.v, r.0.v, r.1))
  {
    hide Run;
    AtSplit(code, pc, lc, rc + ([BinaryInstr(op)] + PopUnless(putOnStack)));
    AtSplit(code, pc + |lc|, rc, [BinaryInstr(op)] + PopUnless(putOnStack));
    if l.0.Normal? && r.0.Normal? {
      var both := st + [l.0.v] + [r.0.v];
      assert both[..|st|] == st;
      OperationOk(m, code, pc + |lc| + |rc|, both, st, r.1, BinaryInstr(op), putOnStack,
        m.binary(op, l.0.v, r.0.v, r.1));
    }
  }

  /** The test, a jump to the alternate, the consequent, a jump to the end, the alternate. */
  lemma ConditionalSegment<W(!new)>(m: Machine<W>, code: seq<Instr>, pc: nat, tc: seq<Instr>, cc: seq<Instr>,
                                    ac: seq<Instr>, st: seq<Value>, w: W, putOnStack: bool,
                                    t: (Outcome, W), o: (Outcome, W))
    requires At(code, pc, tc + ([JneP(|cc| + 2)] + (cc + ([Jump(|ac| + 1)] + ac))))
    requires Does(m, code, pc, |tc|, st, w, true, t)
    requires t.0.Normal? ==>
      if m.truthy(t.0.v) then Does(m, code, pc + |tc| + 1, |cc|, st, t.1, putOnStack, o)
      else Does(m, code, pc + |tc| + 1 + |cc| + 1, |ac|, st, t.1, putOnStack, o)
    ensures Does(m, code, pc, |tc| + 1 + |cc| + 1 + |ac|, st, w, putOnStack, if t.0.Throws? then t else o)
  {
    hide Run, Step, At;
    AtSplit(code, pc, tc, [JneP(|cc| + 2)] + (cc + ([Jump(|ac| + 1)] + ac)));
    AtFirst(code, pc + |tc|, JneP(|cc| + 2), cc + ([Jump(|ac| + 1)] + ac));
    AtSplit(code, pc + |tc| + 1, cc, [Jump(|ac| + 1)] + ac);
    AtFirst(code, pc + |tc| + 1 + |cc|, Jump(|ac| + 1), ac);
    if t.0.Normal? {
      BranchStep(m, |cc| + 2, st, t.0.v, t.1);
      MoveOk(m, code, pc + |tc|, st + [t.0.v], t.1, if m.truthy(t.0.v) then 1 else |cc| + 2, st);
      if m.truthy(t.0.v) && o.0.Normal? {
        var left := if putOnStack then st + [o.0.v] else st;
        JumpAlways(m, |ac| + 1, left, o.1);
        MoveOk(m, code, pc + |tc| + 1 + |cc|, left, o.1, |ac| + 1, left);
      }
    }
  }

  lemma BranchStep<W(!new)>(m: Machine<W>, n: int, st: seq<Value>, v: Value, w: W)
    ensures Step(m, JneP(n), st + [v], w) == Move(if m.truthy(v) then 1 else n, st, w)
  {
    assert (st + [v])[..|st|] == st;
  }

  lemma JumpAlways<W(!new)>(m: Machine<W>, n: int, st: seq<Value>, w: W)
    ensures Step(m, Jump(n), st, w) == Move(n, st, w)
  {
  }

  lemma MoveOk<W(!new)>(m: Machine<W>, code: seq<Instr>, pc: nat, st: seq<Value>, w: W, d: int, after: seq<Value>)
    requires pc < |code| && d > 0 && Step(m, code[pc], st, w) == Move(d, after, w)
    ensures Run(m, code, pc, st, w) == Run(m, code, pc + d, after, w)
  {
    hide Step;
  }

  /** When the short-circuit jump is taken, per operator. */
  ghost predicate JumpsOn<W(!new)>(m: Machine<W>, jump: Instr, n: int, v: Value, taken: bool) {
    || (jump == Jeq(n) && taken == m.truthy(v))
    || (jump == Jne(n) && taken == !m.truthy(v))
    || (jump == Jcoalesc(n) && taken == !Nullish(v))
  }

  lemma JumpStep<W(!new)>(m: Machine<W>, jump: Instr, n: int, st: seq<Value>, v: Value, w: W, taken: bool)
    requires JumpsOn(m, jump, n, v, taken)
    ensures Step(m, jump, st + [v], w) == if taken then Move(n, st + [v], w) else Move(1, st, w)
  {
    assert (st + [v])[..|st|] == st;
  }

  /** The left operand, a jump over the right one, the right operand, and the final pop. */
  lemma ShortCircuitSegment<W(!new)>(m: Machine<W>, code: seq<Instr>, pc: nat, lc: seq<Instr>, jump: Instr,
                                     rc: seq<Instr>, st: seq<Value>, w: W, putOnStack: bool,
                                     l: (Outcome, W), taken: bool, r: (Outcome, W))
    requires At(code, pc, lc + ([jump] + (rc + PopUnless(putOnStack))))
    requires Does(m, code, pc, |lc|, st, w, true, l)
    requires l.0.Normal? ==> JumpsOn(m, jump, |rc| + 1, l.0.v, taken)
    requires l.0.Normal? && !taken ==> Does(m, code, pc + |lc| + 1, |rc|, st, l.1, true, r)
    ensures Does(m, code, pc, |lc| + 1 + |rc| + |PopUnless(putOnStack)|, st, w, putOnStack,
                 if l.0.Throws? || taken then l else r)
  {
    hide Step, JumpsOn, At, Run;
    AtSplit(code, pc, lc, [jump] + (rc + PopUnless(putOnStack)));
    AtFirst(code, pc + |lc|, jump, rc + PopUnless(putOnStack));
    AtSplit(code, pc + |lc| + 1, rc, PopUnless(putOnStack));
    if l.0.Normal? {
      var st1 := st + [l.0.v];
      JumpStep(m, jump, |rc| + 1, st, l.0.v, l.1, taken);
      if taken {
        MoveOk(m, code, pc + |lc|, st1, l.1, |rc| + 1, st1);
        PopOk(m, code, pc + |lc| + 1 + |rc|, st, l.0.v, l.1, putOnStack);
      } else {
        MoveOk(m, code, pc + |lc|, st1, l.1, 1, st);
        if r.0.Normal? { PopOk(m, code, pc + |lc| + 1 + |rc|, st, r.0.v, r.1, putOnStack); }
      }
    }
  }

  /** The code for a folded exception throws what looking its constructor up and calling it gives. */
  lemma ThrowCodeOk<W(!new)>(m: Machine<W>, code: seq<Instr>, pc: nat, st: seq<Value>, v: Value, w: W)
    requires KnownError(v) && At(code, pc, ThrowCode(v))
    ensures var (x, w1) := Rebuilt(m, v, w); Run(m, code, pc, st, w) == Threw(x, w1)
  {
    hide Run, At;
    var args := if v.message.Some? then [LoadVal(v.message.value), New(1), Throw] else [New(0), Throw];
    assert ThrowCode(v) == [LoadDynamic(v.name)] + args;
    AtFirst(code, pc, LoadDynamic(v.name), args);
    var (k, w1) := m.global(v.name, w);
    if k.Throws? {
      EndOk(m, code, pc, st, w, Threw(k.v, w1));
    } else {
      OnwardOk(m, code, pc, st, w, st + [k.v], w1);
      if v.message.Some? {
        ConstructWith(m, code, pc + 1, st, k.v, v.message.value, w1);
      } else {
        ConstructPlain(m, code, pc + 1, st, k.v, w1);
      }
    }
  }

  lemma ConstructWith<W(!new)>(m: Machine<W>, code: seq<Instr>, pc: nat, st: seq<Value>, k: Value, a: Value, w: W)
    requires At(code, pc, [LoadVal(a), New(1), Throw])
    ensures var (x, w1) := m.construct(k, [a], w); Run(m, code, pc, st + [k], w) == Threw(x.v, w1)
  {
    hide Run, At;
    assert [LoadVal(a), New(1), Throw] == [LoadVal(a)] + [New(1), Throw];
    AtFirst(code, pc, LoadVal(a), [New(1), Throw]);
    OnwardOk(m, code, pc, st + [k], w, st + [k] + [a], w);
    NewStep(m, st, k, a, w);
    ThrowsNew(m, code, pc + 1, st, 1, st + [k] + [a], w, m.construct(k, [a], w));
  }

  lemma ConstructPlain<W(!new)>(m: Machine<W>, code: seq<Instr>, pc: nat, st: seq<Value>, k: Value, w: W)
    requires At(code, pc, [New(0), Throw])
    ensures var (x, w1) := m.construct(k, [], w); Run(m, code, pc, st + [k], w) == Threw(x.v, w1)
  {
    hide Run, At;
    var st1 := st + [k];
    assert st1[|st1|..] == [] && st1[..|st1| - 1] == st;
    ThrowsNew(m, code, pc, st, 0, st1, w, m.construct(k, [], w));
  }

  /** What `new` makes is thrown, or what it throws. */
  lemma ThrowsNew<W(!new)>(m: Machine<W>, code: seq<Instr>, pc: nat, st: seq<Value>, n: nat, before: seq<Value>, w: W,
                           o: (Outcome, W))
    requires At(code, pc, [New(n), Throw]) && Step(m, New(n), before, w) == Push(st, o)
    ensures Run(m, code, pc, before, w) == Threw(o.0.v, o.1)
  {
    hide Run, At;
    assert [New(n), Throw] == [New(n)] + [Throw] && [Throw] == [Throw] + [];
    AtFirst(code, pc, New(n), [Throw]);
    AtFirst(code, pc + 1, Throw, []);
    if o.0.Throws? {
      EndOk(m, code, pc, before, w, Threw(o.0.v, o.1));
    } else {
      OnwardOk(m, code, pc, before, w, st + [o.0.v], o.1);
      EndOk(m, code, pc + 1, st + [o.0.v], o.1, Threw(o.0.v, o.1));
    }
  }

  lemma OnwardOk<W(!new)>(m: Machine<W>, code: seq<Instr>, pc: nat, st: seq<Value>, w: W, after: seq<Value>, w1: W)
    requires pc < |code| && Step(m, code[pc], st, w) == Move(1, after, w1)
    ensures Run(m, code, pc, st, w) == Run(m, code, pc + 1, after, w1)
  {
    hide Step;
  }

  lemma NewStep<W(!new)>(m: Machine<W>, st: seq<Value>, k: Value, a: Value, w: W)
    ensures Step(m, New(1), st + [k] + [a], w) == Push(st, m.construct(k, [a], w))
  {
    var st2 := st + [k] + [a];
    assert st2[|st2| - 1..] == [a] && st2[..|st2| - 2] == st;
  }

  lemma EndOk<W(!new)>(m: Machine<W>, code: seq<Instr>, pc: nat, st: seq<Value>, w: W, r: Result<W>)
    requires pc < |code| && Step(m, code[pc], st, w) == End(r)
    ensures Run(m, code, pc, st, w) == r
  {
    hide Step;
  }

  lemma ConstCodeOk<W(!new)>(m: Machine<W>, code: seq<Instr>, pc: nat, st: seq<Value>, o: Outcome, w: W,
                             putOnStack: bool)
    requires ConstantOutcome(o) && At(code, pc, ConstCode(o, putOnStack))
    ensures Does(m, code, pc, |ConstCode(o, putOnStack)|, st, w, putOnStack, Folded(m, o, w))
  {
    match o
    case Normal(v) => LoadOk(m, code, pc, st, v, w, putOnStack);
    case Throws(v) => ThrowCodeOk(m, code, pc, st, v, w);
  }

  // Constant expressions

  /** A constant expression has one outcome, whatever the world, and leaves the world alone. */
  ghost predicate Pure<W(!new)>(m: Machine<W>, e: Expr, o: Outcome) {
    ConstantOutcome(o) && forall w :: Eval(m, false, e, w) == (o, w)
  }

  lemma {:induction false} ConstPure<W(!new)>(m: Machine<W>, e: Expr)
    requires Standard(m) && WellFormed(e) && Constant(m, e)
    ensures Pure(m, e, Eval(m, false, e, m.evalWorld).0)
    decreases e, 0
  {
    hide EvalConst;
    match e
    case Literal(v) =>
    case Call(_) =>
    case Unary(op, x) =>
      ConstPure(m, x);
      var o := Eval(m, false, x, m.evalWorld).0;
      forall w ensures Eval(m, false, e, w) == if o.Throws? then (o, w) else m.unary(op, o.v, w) {
        assert Eval(m, false, x, w) == (o, w);
      }
    case Void(x) =>
      ConstPure(m, x);
      var o := Eval(m, false, x, m.evalWorld).0;
      forall w ensures Eval(m, false, e, w) == if o.Throws? then (o, w) else (Normal(Undefined), w) {
        assert Eval(m, false, x, w) == (o, w);
      }
    case Delete(x) =>
    case Binary(op, l, r) =>
      ConstPure(m, l);
      ConstPure(m, r);
      var o, p := Eval(m, false, l, m.evalWorld).0, Eval(m, false, r, m.evalWorld).0;
      forall w
        ensures Eval(m, false, e, w) == if o.Throws? then (o, w) else if p.Throws? then (p, w)
          else m.binary(op, o.v, p.v, w)
      {
        assert Eval(m, false, l, w) == (o, w) && Eval(m, false, r, w) == (p, w);
      }
    case Conditional(_, _, _) =>
    case LogicalOr(l, r) =>
      ConstOk(m, l);
      var o := EvalConst(m, l);
      if o.Normal? && !m.truthy(o.v) { PureChoice(m, e, l, o, r); } else { PureLeft(m, e, l, o); }
    case LogicalAnd(l, r) =>
      ConstOk(m, l);
      var o := EvalConst(m, l);
      if o.Normal? && m.truthy(o.v) { PureChoice(m, e, l, o, r); } else { PureLeft(m, e, l, o); }
    case Coalesce(l, r) =>
      ConstOk(m, l);
      var o := EvalConst(m, l);
      if o.Normal? && Nullish(o.v) { PureChoice(m, e, l, o, r); } else { PureLeft(m, e, l, o); }
    case Sequence(_) =>
  }

  /** A logical operator that ends with its constant left operand. */
  lemma PureLeft<W(!new)>(m: Machine<W>, e: Expr, l: Expr, o: Outcome)
    requires Pure(m, l, o) && forall w :: Eval(m, false, l, w) == (o, w) ==> Eval(m, false, e, w) == (o, w)
    ensures Pure(m, e, Eval(m, false, e, m.evalWorld).0)
  {
    hide Eval;
    forall w ensures Eval(m, false, e, w) == (o, w) {
      assert Eval(m, false, l, w) == (o, w);
    }
    assert Eval(m, false, e, m.evalWorld).0 == o;
  }

  /** A logical operator that goes on to its constant right operand. */
  lemma {:induction false} PureChoice<W(!new)>(m: Machine<W>, e: Expr, l: Expr, o: Outcome, r: Expr)
    requires Standard(m) && WellFormed(r) && Constant(m, r) && Pure(m, l, o)
    requires forall w :: Eval(m, false, l, w) == (o, w) ==> Eval(m, false, e, w) == Eval(m, false, r, w)
    ensures Pure(m, e, Eval(m, false, e, m.evalWorld).0)
    decreases r, 1
  {
    hide Eval, Constant;
    ConstPure(m, r);
    var p := Eval(m, false, r, m.evalWorld).0;
    forall w ensures Eval(m, false, e, w) == (p, w) {
      assert Eval(m, false, l, w) == (o, w);
      assert Eval(m, false, r, w) == (p, w);
    }
    assert Eval(m, false, e, m.evalWorld).0 == p;
  }

  /** What the folding machine computes for a constant expression is what evaluating it gives. */
  lemma {:induction false} ConstOk<W(!new)>(m: Machine<W>, e: Expr)
    requires Standard(m) && WellFormed(e) && Constant(m, e)
    ensures Pure(m, e, EvalConst(m, e))
    decreases e, 1
  {
    hide Constant, Getter, GetterOutcome, GetterIntact;
    ConstPure(m, e);
    if !e.Literal? {
      var c := Getter(m, e, true);
      assert At(c, 0, c);
      GetterOk(m, e, true, c, 0, [], m.evalWorld);
      ConstIntact(m, e);
      GetterEvaluates(m, e, m.evalWorld);
      AtEnd(m, c, Eval(m, false, e, m.evalWorld));
    }
    hide Eval;
  }

  /** On the machine that folds, exceptions are made anew as they were. */
  lemma {:induction false} ConstIntact<W(!new)>(m: Machine<W>, e: Expr)
    requires Standard(m) && WellFormed(e) && Constant(m, e)
    ensures GetterIntact(m, e, m.evalWorld)
    decreases e, 0
  {
    hide EvalConst, Eval;
    var w := m.evalWorld;
    match e
    case Literal(_) =>
    case Call(_) =>
    case Unary(op, x) => OperandIntact(m, x);
    case Void(x) => OperandIntact(m, x);
    case Delete(_) =>
    case Binary(_, l, r) =>
      OperandIntact(m, l);
      OperandIntact(m, r);
    case Conditional(_, _, _) =>
    case LogicalOr(l, r) =>
      OperandIntact(m, l);
      if Constant(m, r) { OperandIntact(m, r); }
    case LogicalAnd(l, r) =>
      OperandIntact(m, l);
      if Constant(m, r) { OperandIntact(m, r); }
    case Coalesce(l, r) =>
      OperandIntact(m, l);
      if Constant(m, r) { OperandIntact(m, r); }
    case Sequence(_) =>
  }

  lemma {:induction false} OperandIntact<W(!new)>(m: Machine<W>, x: Expr)
    requires Standard(m) && WellFormed(x) && Constant(m, x)
    ensures CodeIntact(m, x, m.evalWorld) && GetterIntact(m, x, m.evalWorld)
    ensures Eval(m, false, x, m.evalWorld) == (EvalConst(m, x), m.evalWorld)
    decreases x, 3
  {
    hide Constant, EvalConst, GetterIntact, Eval, WellFormed;
    ConstOk(m, x);
    ConstIntact(m, x);
    StandardIsIntact(m, EvalConst(m, x), m.evalWorld);
  }

  /** An exception whose constructor is found under its name is made anew as it was. */
  lemma StandardIsIntact<W(!new)>(m: Machine<W>, o: Outcome, w: W)
    requires m.ErrorsIntact(w) && ConstantOutcome(o)
    ensures FoldIntact(m, o, w)
  {
  }

  lemma AtEnd<W(!new)>(m: Machine<W>, c: seq<Instr>, o: (Outcome, W))
    requires Does(m, c, 0, |c|, [], m.evalWorld, true, o)
    ensures Run(m, c, 0, [], m.evalWorld) == match o.0 case Normal(v) => Done([v], o.1) case Throws(v) => Threw(v, o.1)
  {
    assert [] + [o.0.v] == [o.0.v];
  }

  // All expressions

  lemma {:induction false} CodeOk<W(!new)>(m: Machine<W>, e: Expr, putOnStack: bool, code: seq<Instr>, pc: nat,
                                           st: seq<Value>, w: W)
    requires Standard(m) && WellFormed(e) && At(code, pc, Code(m, e, putOnStack))
    ensures Does(m, code, pc, |Code(m, e, putOnStack)|, st, w, putOnStack, CodeOutcome(m, e, w))
    decreases e, 2
  {
    hide Constant, Getter, GetterOutcome, EvalConst, Run, At, WellFormed;
    if Constant(m, e) {
      ConstOk(m, e);
      ConstCodeOk(m, code, pc, st, EvalConst(m, e), w, putOnStack);
    } else {
      GetterOk(m, e, putOnStack, code, pc, st, w);
    }
  }

  lemma {:induction false} GetterOk<W(!new)>(m: Machine<W>, e: Expr, putOnStack: bool, code: seq<Instr>, pc: nat,
                                             st: seq<Value>, w: W)
    requires Standard(m) && WellFormed(e) && At(code, pc, Getter(m, e, putOnStack))
    ensures Does(m, code, pc, |Getter(m, e, putOnStack)|, st, w, putOnStack, GetterOutcome(m, e, w))
    decreases e, 0
  {
    hide Constant, Code, EvalConst, Run, Does, At, Standard;
    match e
    case Literal(v) => LoadOk(m, code, pc, st, v, w, putOnStack);
    case Call(id) => CallOk(m, code, pc, st, w, id, putOnStack);
    case Unary(op, x) => UnaryGetterOk(m, e, putOnStack, code, pc, st, w);
    case Void(x) => VoidGetterOk(m, e, putOnStack, code, pc, st, w);
    case Delete(x) => DeleteGetterOk(m, e, putOnStack, code, pc, st, w);
    case Binary(op, l, r) => BinaryGetterOk(m, e, putOnStack, code, pc, st, w);
    case Conditional(t, c, a) => ConditionalGetterOk(m, e, putOnStack, code, pc, st, w);
    case LogicalOr(l, r) => OrGetterOk(m, e, putOnStack, code, pc, st, w);
    case LogicalAnd(l, r) => AndGetterOk(m, e, putOnStack, code, pc, st, w);
    case Coalesce(l, r) => CoalesceGetterOk(m, e, putOnStack, code, pc, st, w);
    case Sequence(es) => ListOk(m, es, putOnStack, code, pc, st, w);
  }

  lemma CallOk<W(!new)>(m: Machine<W>, code: seq<Instr>, pc: nat, st: seq<Value>, w: W, id: int, putOnStack: bool)
    requires At(code, pc, [CallInstr(id)] + PopUnless(putOnStack))
    ensures Does(m, code, pc, 1 + |PopUnless(putOnStack)|, st, w, putOnStack, m.call(id, w))
  {
    hide Run;
    OperationOk(m, code, pc, st, st, w, CallInstr(id), putOnStack, m.call(id, w));
  }

  lemma {:induction false} UnaryGetterOk<W(!new)>(m: Machine<W>, e: Expr, putOnStack: bool, code: seq<Instr>, pc: nat,
                                                  st: seq<Value>, w: W)
    requires Standard(m) && WellFormed(e) && e.Unary? && At(code, pc, Getter(m, e, putOnStack))
    ensures Does(m, code, pc, |Getter(m, e, putOnStack)|, st, w, putOnStack, GetterOutcome(m, e, w))
    decreases e.e, 3
  {
    hide Code, Constant, EvalConst, Run, Does, At, Standard;
    var op, x := e.op, e.e;
    var xc := if op.Minus? || op.Plus? then Code(m, x, true) else Getter(m, x, true);
    var tail := [UnaryInstr(op)] + PopUnless(putOnStack);
    assert Getter(m, e, putOnStack) == xc + tail;
    AtSplit(code, pc, xc, tail);
    if op.Minus? || op.Plus? { CodeOk(m, x, true, code, pc, st, w); } else { GetterOk(m, x, true, code, pc, st, w); }
    var o := if op.Minus? || op.Plus? then CodeOutcome(m, x, w) else GetterOutcome(m, x, w);
    UnarySegment(m, code, pc, xc, st, w, op, putOnStack, o);
  }

  lemma {:induction false} VoidGetterOk<W(!new)>(m: Machine<W>, e: Expr, putOnStack: bool, code: seq<Instr>, pc: nat,
                                                 st: seq<Value>, w: W)
    requires Standard(m) && WellFormed(e) && e.Void? && At(code, pc, Getter(m, e, putOnStack))
    ensures Does(m, code, pc, |Getter(m, e, putOnStack)|, st, w, putOnStack, GetterOutcome(m, e, w))
    decreases e.e, 3
  {
    hide Code, Constant, EvalConst, At, Standard;
    var xc, tail := Code(m, e.e, false), if putOnStack then [LoadUndef] else [];
    AtSplit(code, pc, xc, tail);
    CodeOk(m, e.e, false, code, pc, st, w);
    var (o, w1) := CodeOutcome(m, e.e, w);
    if putOnStack {
      AtFirst(code, pc + |xc|, LoadUndef, []);
      if o.Normal? { MoveOk(m, code, pc + |xc|, st, w1, 1, st + [Undefined]); }
    }
    hide Run;
  }

  lemma {:induction false} DeleteGetterOk<W(!new)>(m: Machine<W>, e: Expr, putOnStack: bool, code: seq<Instr>, pc: nat,
                                                   st: seq<Value>, w: W)
    requires Standard(m) && WellFormed(e) && e.Delete? && At(code, pc, Getter(m, e, putOnStack))
    ensures Does(m, code, pc, |Getter(m, e, putOnStack)|, st, w, putOnStack, GetterOutcome(m, e, w))
    decreases e.e, 3
  {
    hide Code, Constant, EvalConst, Run, At, Standard;
    var x := e.e;
    var xc, tail := if x.Call? then Getter(m, x, false) else [], Load(Bool(true), putOnStack);
    AtSplit(code, pc, xc, tail);
    if x.Call? {
      GetterOk(m, x, false, code, pc, st, w);
      var (o, w1) := GetterOutcome(m, x, w);
      if o.Normal? { LoadOk(m, code, pc + |xc|, st, Bool(true), w1, putOnStack); }
    } else {
      LoadOk(m, code, pc, st, Bool(true), w, putOnStack);
    }
  }

  lemma {:induction false} BinaryGetterOk<W(!new)>(m: Machine<W>, e: Expr, putOnStack: bool, code: seq<Instr>, pc: nat,
                                                   st: seq<Value>, w: W)
    requires Standard(m) && WellFormed(e) && e.Binary? && At(code, pc, Getter(m, e, putOnStack))
    ensures Does(m, code, pc, |Getter(m, e, putOnStack)|, st, w, putOnStack, GetterOutcome(m, e, w))
    decreases e, -1
  {
    hide Code, Constant, EvalConst, Run, Does, At, Standard;
    var lc, rc, tail := Code(m, e.left, true), Code(m, e.right, true), [BinaryInstr(e.bop)] + PopUnless(putOnStack);
    assert Getter(m, e, putOnStack) == lc + (rc + tail);
    AtSplit(code, pc, lc, rc + tail);
    AtSplit(code, pc + |lc|, rc, tail);
    CodeOk(m, e.left, true, code, pc, st, w);
    var l := CodeOutcome(m, e.left, w);
    var r := CodeOutcome(m, e.right, l.1);
    if l.0.Normal? { CodeOk(m, e.right, true, code, pc + |lc|, st + [l.0.v], l.1); }
    BinarySegment(m, code, pc, lc, rc, st, w, e.bop, putOnStack, l, r);
  }

  lemma {:induction false} ConditionalGetterOk<W(!new)>(m: Machine<W>, e: Expr, putOnStack: bool, code: seq<Instr>,
                                                        pc: nat, st: seq<Value>, w: W)
    requires Standard(m) && WellFormed(e) && e.Conditional? && At(code, pc, Getter(m, e, putOnStack))
    ensures Does(m, code, pc, |Getter(m, e, putOnStack)|, st, w, putOnStack, GetterOutcome(m, e, w))
    decreases e, -1
  {
    hide Code, Constant, EvalConst, Run, Does, At, Standard, Getter, GetterOutcome;
    ConditionalParts(m, e, putOnStack, w);
    var tc, cc, ac := Getter(m, e.test, true), Getter(m, e.consequent, putOnStack), Getter(m, e.alternate, putOnStack);
    var j, k := [JneP(|cc| + 2)], [Jump(|ac| + 1)];
    AtSplit(code, pc, tc, j + (cc + (k + ac)));
    AtSplit(code, pc + |tc|, j, cc + (k + ac));
    AtSplit(code, pc + |tc| + 1, cc, k + ac);
    AtSplit(code, pc + |tc| + 1 + |cc|, k, ac);
    GetterOk(m, e.test, true, code, pc, st, w);
    var t := GetterOutcome(m, e.test, w);
    if t.0.Normal? {
      if m.truthy(t.0.v) {
        GetterOk(m, e.consequent, putOnStack, code, pc + |tc| + 1, st, t.1);
      } else {
        GetterOk(m, e.alternate, putOnStack, code, pc + |tc| + 1 + |cc| + 1, st, t.1);
      }
      ConditionalSegment(m, code, pc, tc, cc, ac, st, w, putOnStack, t,
                         GetterOutcome(m, if m.truthy(t.0.v) then e.consequent else e.alternate, t.1));
    } else {
      ConditionalSegment(m, code, pc, tc, cc, ac, st, w, putOnStack, t, t);
    }
  }

  lemma ConditionalParts<W(!new)>(m: Machine<W>, e: Expr, putOnStack: bool, w: W)
    requires e.Conditional?
    ensures var tc, cc, ac := Getter(m, e.test, true), Getter(m, e.consequent, putOnStack),
      Getter(m, e.alternate, putOnStack);
            Getter(m, e, putOnStack) == tc + ([JneP(|cc| + 2)] + (cc + ([Jump(|ac| + 1)] + ac)))
    ensures GetterOutcome(m, e, w) ==
            (var t := GetterOutcome(m, e.test, w);
             if t.0.Throws? then t else GetterOutcome(m, if m.truthy(t.0.v) then e.consequent else e.alternate, t.1))
  {
  }

  lemma {:induction false} OrGetterOk<W(!new)>(m: Machine<W>, e: Expr, putOnStack: bool, code: seq<Instr>, pc: nat,
                                               st: seq<Value>, w: W)
    requires Standard(m) && WellFormed(e) && e.LogicalOr? && At(code, pc, Getter(m, e, putOnStack))
    ensures Does(m, code, pc, |Getter(m, e, putOnStack)|, st, w, putOnStack, GetterOutcome(m, e, w))
    decreases e, -1
  {
    hide Code, Constant, EvalConst, Run, Does, At;
    if Constant(m, e.left) {
      ConstOk(m, e.left);
      var o := EvalConst(m, e.left);
      if o.Normal? && !m.truthy(o.v) {
        CodeOk(m, e.right, putOnStack, code, pc, st, w);
      } else {
        ConstCodeOk(m, code, pc, st, o, w, putOnStack);
      }
    } else {
      var lc, rc := Code(m, e.left, true), Code(m, e.right, true);
      assert Getter(m, e, putOnStack) == lc + ([Jeq(|rc| + 1)] + (rc + PopUnless(putOnStack)));
      AtShortCircuit(code, pc, lc, Jeq(|rc| + 1), rc, putOnStack);
      CodeOk(m, e.left, true, code, pc, st, w);
      var l := CodeOutcome(m, e.left, w);
      if l.0.Normal? && !m.truthy(l.0.v) { CodeOk(m, e.right, true, code, pc + |lc| + 1, st, l.1); }
      ShortCircuitSegment(m, code, pc, lc, Jeq(|rc| + 1), rc, st, w, putOnStack, l, m.truthy(l.0.v),
        CodeOutcome(m, e.right, l.1));
    }
  }

  lemma {:induction false} AndGetterOk<W(!new)>(m: Machine<W>, e: Expr, putOnStack: bool, code: seq<Instr>, pc: nat,
                                                st: seq<Value>, w: W)
    requires Standard(m) && WellFormed(e) && e.LogicalAnd? && At(code, pc, Getter(m, e, putOnStack))
    ensures Does(m, code, pc, |Getter(m, e, putOnStack)|, st, w, putOnStack, GetterOutcome(m, e, w))
    decreases e, -1
  {
    hide Code, Constant, EvalConst, Run, Does, At;
    if Constant(m, e.left) {
      ConstOk(m, e.left);
      var o := EvalConst(m, e.left);
      if o.Normal? && m.truthy(o.v) {
        CodeOk(m, e.right, putOnStack, code, pc, st, w);
      } else {
        ConstCodeOk(m, code, pc, st, o, w, putOnStack);
      }
    } else {
      var lc, rc := Getter(m, e.left, true), Code(m, e.right, true);
      assert Getter(m, e, putOnStack) == lc + ([Jne(|rc| + 1)] + (rc + PopUnless(putOnStack)));
      AtShortCircuit(code, pc, lc, Jne(|rc| + 1), rc, putOnStack);
      GetterOk(m, e.left, true, code, pc, st, w);
      var l := GetterOutcome(m, e.left, w);
      if l.0.Normal? && m.truthy(l.0.v) { CodeOk(m, e.right, true, code, pc + |lc| + 1, st, l.1); }
      ShortCircuitSegment(m, code, pc, lc, Jne(|rc| + 1), rc, st, w, putOnStack, l, !m.truthy(l.0.v),
        CodeOutcome(m, e.right, l.1));
    }
  }

  lemma {:induction false} CoalesceGetterOk<W(!new)>(m: Machine<W>, e: Expr, putOnStack: bool, code: seq<Instr>,
                                                     pc: nat, st: seq<Value>, w: W)
    requires Standard(m) && WellFormed(e) && e.Coalesce? && At(code, pc, Getter(m, e, putOnStack))
    ensures Does(m, code, pc, |Getter(m, e, putOnStack)|, st, w, putOnStack, GetterOutcome(m, e, w))
    decreases e, -1
  {
    hide Code, Constant, EvalConst, Run, Does, At;
    if Constant(m, e.left) {
      ConstOk(m, e.left);
      var o := EvalConst(m, e.left);
      if o.Normal? && Nullish(o.v) {
        CodeOk(m, e.right, putOnStack, code, pc, st, w);
      } else {
        ConstCodeOk(m, code, pc, st, o, w, putOnStack);
      }
    } else {
      var lc, rc := Code(m, e.left, true), Code(m, e.right, true);
      assert Getter(m, e, putOnStack) == lc + ([Jcoalesc(|rc| + 1)] + (rc + PopUnless(putOnStack)));
      AtShortCircuit(code, pc, lc, Jcoalesc(|rc| + 1), rc, putOnStack);
      CodeOk(m, e.left, true, code, pc, st, w);
      var l := CodeOutcome(m, e.left, w);
      if l.0.Normal? && Nullish(l.0.v) { CodeOk(m, e.right, true, code, pc + |lc| + 1, st, l.1); }
      ShortCircuitSegment(m, code, pc, lc, Jcoalesc(|rc| + 1), rc, st, w, putOnStack, l, !Nullish(l.0.v),
        CodeOutcome(m, e.right, l.1));
    }
  }

  lemma AtShortCircuit(code: seq<Instr>, pc: nat, lc: seq<Instr>, jump: Instr, rc: seq<Instr>, putOnStack: bool)
    requires At(code, pc, lc + ([jump] + (rc + PopUnless(putOnStack))))
    ensures At(code, pc, lc) && At(code, pc + |lc| + 1, rc)
  {
    AtSplit(code, pc, lc, [jump] + (rc + PopUnless(putOnStack)));
    AtSplit(code, pc + |lc|, [jump], rc + PopUnless(putOnStack));
    AtSplit(code, pc + |lc| + 1, rc, PopUnless(putOnStack));
  }

  lemma {:induction false} ListOk<W(!new)>(m: Machine<W>, es: List, putOnStack: bool, code: seq<Instr>, pc: nat,
                                           st: seq<Value>, w: W)
    requires Standard(m) && WellFormedList(es) && At(code, pc, ListCode(m, es, putOnStack))
    ensures Does(m, code, pc, |ListCode(m, es, putOnStack)|, st, w, putOnStack, ListOutcome(m, es, w))
    decreases es, 0
  {
    hide Getter, GetterOutcome, Run, At, Standard;
    match es
    case Last(e) => GetterOk(m, e, putOnStack, code, pc, st, w);
    case Then(e, rest) =>
      var ec := Getter(m, e, false);
      AtSplit(code, pc, ec, ListCode(m, rest, putOnStack));
      GetterOk(m, e, false, code, pc, st, w);
      var (o, w1) := GetterOutcome(m, e, w);
      if o.Normal? { ListOk(m, rest, putOnStack, code, pc + |ec|, st, w1); }
  }

  // ---------------------------------------------------------------------------------------
  // The theorem for a whole expression, folded or not

  /** How a program that only evaluates an expression ends. */
  ghost function Finished<W>(st: seq<Value>, putOnStack: bool, o: (Outcome, W)): Result<W> {
    match o.0
    case Normal(v) => Done(if putOnStack then st + [v] else st, o.1)
    case Throws(v) => Threw(v, o.1)
  }

  /** What compiled code does, folded or not, on every machine and in every world. */
  lemma CompiledCodeRuns<W(!new)>(m: Machine<W>, e: Expr, putOnStack: bool, st: seq<Value>, w: W)
    requires Standard(m) && WellFormed(e)
    ensures Run(m, Code(m, e, putOnStack), 0, st, w) == Finished(st, putOnStack, CodeOutcome(m, e, w))
    ensures Run(m, Getter(m, e, putOnStack), 0, st, w) == Finished(st, putOnStack, GetterOutcome(m, e, w))
  {
    hide Getter, GetterOutcome, Code, CodeOutcome;
    var c, g := Code(m, e, putOnStack), Getter(m, e, putOnStack);
    assert At(c, 0, c) && At(g, 0, g);
    CodeOk(m, e, putOnStack, c, 0, st, w);
    GetterOk(m, e, putOnStack, g, 0, st, w);
  }

  /** The outcomes are the same, or both are exceptions and they differ. */
  ghost predicate SameIff<W>(a: (Outcome, W), b: (Outcome, W), same: bool) {
    if same then a == b else a != b && a.0.Throws? && b.0.Throws?
  }

  lemma {:induction false} CodeEvaluates<W(!new)>(m: Machine<W>, e: Expr, w: W)
    requires Standard(m) && WellFormed(e)
    ensures SameIff(CodeOutcome(m, e, w), Eval(m, false, e, w), CodeIntact(m, e, w))
    decreases e, 2
  {
    hide Constant, EvalConst, Eval, GetterOutcome, GetterIntact, WellFormed;
    if Constant(m, e) {
      ConstOk(m, e);
      assert Eval(m, false, e, w) == (EvalConst(m, e), w);
    } else {
      GetterEvaluates(m, e, w);
    }
  }

  lemma {:induction false} GetterEvaluates<W(!new)>(m: Machine<W>, e: Expr, w: W)
    requires Standard(m) && WellFormed(e)
    ensures SameIff(GetterOutcome(m, e, w), Eval(m, false, e, w), GetterIntact(m, e, w))
    decreases e, 0
  {
    hide Constant, EvalConst, CodeOutcome, CodeIntact, Standard;
    match e
    case Literal(_) =>
    case Call(_) =>
    case Unary(op, x) =>
      if op.Minus? || op.Plus? { CodeEvaluates(m, x, w); } else { GetterEvaluates(m, x, w); }
    case Void(x) => CodeEvaluates(m, x, w);
    case Delete(_) =>
    case Binary(_, l, r) =>
      CodeEvaluates(m, l, w);
      CodeEvaluates(m, r, Eval(m, false, l, w).1);
    case Conditional(t, c, a) =>
      GetterEvaluates(m, t, w);
      GetterEvaluates(m, c, Eval(m, false, t, w).1);
      GetterEvaluates(m, a, Eval(m, false, t, w).1);
    case LogicalOr(l, r) => LogicalEvaluates(m, e, w);
    case LogicalAnd(l, r) => LogicalEvaluates(m, e, w);
    case Coalesce(l, r) => LogicalEvaluates(m, e, w);
    case Sequence(es) => ListEvaluates(m, es, w);
  }

  lemma {:induction false} LogicalEvaluates<W(!new)>(m: Machine<W>, e: Expr, w: W)
    requires Standard(m) && WellFormed(e) && (e.LogicalOr? || e.LogicalAnd? || e.Coalesce?)
    ensures SameIff(GetterOutcome(m, e, w), Eval(m, false, e, w), GetterIntact(m, e, w))
    decreases e, -1
  {
    CodeEvaluates(m, e.left, w);
    var (o, w1) := Eval(m, false, e.left, w);
    CodeEvaluates(m, e.right, w1);
    hide Constant, EvalConst, Pure;
    if Constant(m, e.left) {
      ConstOk(m, e.left);
      ConstantLeft(m, e.left, w);
    }
  }

  lemma ConstantLeft<W(!new)>(m: Machine<W>, l: Expr, w: W)
    requires Pure(m, l, EvalConst(m, l))
    ensures Eval(m, false, l, w) == (EvalConst(m, l), w)
  {
  }

  lemma {:induction false} ListEvaluates<W(!new)>(m: Machine<W>, es: List, w: W)
    requires Standard(m) && WellFormedList(es)
    ensures SameIff(ListOutcome(m, es, w), EvalList(m, false, es, w), ListIntact(m, es, w))
    decreases es, 0
  {
    hide GetterOutcome, Eval, GetterIntact, Standard, WellFormed;
    match es
    case Last(e) => GetterEvaluates(m, e, w);
    case Then(e, rest) =>
      GetterEvaluates(m, e, w);
      ListEvaluates(m, rest, Eval(m, false, e, w).1);
  }

  /**
   Compiled code does what evaluation does if and only if every folded exception it comes to is
   made anew as it was, which its constructor being bound as usual at that point ensures.
   */
  lemma CompiledCodeEvaluatesIff<W(!new)>(m: Machine<W>, e: Expr, putOnStack: bool, st: seq<Value>, w: W)
    requires Standard(m) && WellFormed(e)
    ensures Run(m, Code(m, e, putOnStack), 0, st, w) == Finished(st, putOnStack, Eval(m, false, e, w)) <==>
      CodeIntact(m, e, w)
    ensures Run(m, Getter(m, e, putOnStack), 0, st, w) == Finished(st, putOnStack, Eval(m, false, e, w)) <==>
      GetterIntact(m, e, w)
  {
    hide Getter, Eval, Code, CodeOutcome, GetterOutcome, CodeIntact, GetterIntact, Run, Standard, WellFormed;
    CompiledCodeRuns(m, e, putOnStack, st, w);
    CodeEvaluates(m, e, w);
    GetterEvaluates(m, e, w);
  }

  // Programs in which no exception is folded

  /** No constant subexpression of the code of `emitExpr` throws. */
  predicate CodeCalm<W(!new)>(m: Machine<W>, e: Expr)
    decreases e, 2
  {
    if Constant(m, e) then EvalConst(m, e).Normal? else GetterCalm(m, e)
  }

  predicate GetterCalm<W(!new)>(m: Machine<W>, e: Expr)
    decreases e, 0
  {
    match e
    case Literal(_) => true
    case Call(_) => true
    case Unary(op, x) => if op.Minus? || op.Plus? then CodeCalm(m, x) else GetterCalm(m, x)
    case Void(x) => CodeCalm(m, x)
    case Delete(_) => true
    case Binary(_, l, r) => CodeCalm(m, l) && CodeCalm(m, r)
    case Conditional(t, c, a) => GetterCalm(m, t) && GetterCalm(m, c) && GetterCalm(m, a)
    case LogicalOr(l, r) => CodeCalm(m, l) && CodeCalm(m, r)
    case LogicalAnd(l, r) => CodeCalm(m, l) && CodeCalm(m, r)
    case Coalesce(l, r) => CodeCalm(m, l) && CodeCalm(m, r)
    case Sequence(es) => ListCalm(m, es)
  }

  predicate ListCalm<W(!new)>(m: Machine<W>, es: List)
    decreases es, 0
  {
    match es
    case Last(e) => GetterCalm(m, e)
    case Then(e, rest) => GetterCalm(m, e) && ListCalm(m, rest)
  }

  /** They are compiled correctly whatever the world is like and whatever has been rebound. */
  lemma {:induction false} CalmIsIntact<W(!new)>(m: Machine<W>, e: Expr, w: W)
    requires CodeCalm(m, e)
    ensures CodeIntact(m, e, w)
    decreases e, 2
  {
    hide Constant, EvalConst, GetterCalm, GetterIntact;
    if !Constant(m, e) { CalmGetterIsIntact(m, e, w); }
  }

  lemma {:induction false} CalmGetterIsIntact<W(!new)>(m: Machine<W>, e: Expr, w: W)
    requires GetterCalm(m, e)
    ensures GetterIntact(m, e, w)
    decreases e, 0
  {
    hide CodeCalm, CodeIntact, Eval;
    match e
    case Literal(_) =>
    case Call(_) =>
    case Unary(op, x) => if op.Minus? || op.Plus? { CalmIsIntact(m, x, w); } else { CalmGetterIsIntact(m, x, w); }
    case Void(x) => CalmIsIntact(m, x, w);
    case Delete(_) =>
    case Binary(_, l, r) =>
      CalmIsIntact(m, l, w);
      CalmIsIntact(m, r, Eval(m, false, l, w).1);
    case Conditional(t, c, a) =>
      CalmGetterIsIntact(m, t, w);
      CalmGetterIsIntact(m, c, Eval(m, false, t, w).1);
      CalmGetterIsIntact(m, a, Eval(m, false, t, w).1);
    case LogicalOr(l, r) =>
      CalmIsIntact(m, l, w);
      CalmIsIntact(m, r, Eval(m, false, l, w).1);
    case LogicalAnd(l, r) =>
      CalmIsIntact(m, l, w);
      CalmIsIntact(m, r, Eval(m, false, l, w).1);
    case Coalesce(l, r) =>
      CalmIsIntact(m, l, w);
      CalmIsIntact(m, r, Eval(m, false, l, w).1);
    case Sequence(es) => CalmListIsIntact(m, es, w);
  }

  lemma {:induction false} CalmListIsIntact<W(!new)>(m: Machine<W>, es: List, w: W)
    requires ListCalm(m, es)
    ensures ListIntact(m, es, w)
    decreases es, 0
  {
    hide GetterCalm, GetterIntact, Eval;
    match es
    case Last(e) => CalmGetterIsIntact(m, e, w);
    case Then(e, rest) =>
      CalmGetterIsIntact(m, e, w);
      CalmListIsIntact(m, rest, Eval(m, false, e, w).1);
  }

  // ---------------------------------------------------------------------------------------
  // `delete`

  /**
   The outcome of an expression that comes to no call, by evaluating as ECMAScript has it; none if
   it comes to one.
   */
  function Quiet<W(!new)>(m: Machine<W>, e: Expr): Option<Outcome>
    decreases e
  {
    match e
    case Literal(v) => Some(Normal(v))
    case Call(_) => None
    case Unary(op, x) =>
      var o := Quiet(m, x);
      if o.None? || o.value.Throws? then o else Some(m.unary(op, o.value.v, m.evalWorld).0)
    case Void(x) =>
      var o := Quiet(m, x);
      if o.None? || o.value.Throws? then o else Some(Normal(Undefined))
    case Delete(x) =>
      var o := Quiet(m, x);
      if o.None? || o.value.Throws? then o else Some(Normal(Bool(true)))
    case Binary(op, l, r) =>
      var o := Quiet(m, l);
      if o.None? || o.value.Throws? then o
      else
        var p := Quiet(m, r);
        if p.None? || p.value.Throws? then p else Some(m.binary(op, o.value.v, p.value.v, m.evalWorld).0)
    case Conditional(t, c, a) =>
      var o := Quiet(m, t);
      if o.None? || o.value.Throws? then o
      else if m.truthy(o.value.v) then Quiet(m, c) else Quiet(m, a)
    case LogicalOr(l, r) =>
      var o := Quiet(m, l);
      if o.None? || o.value.Throws? || m.truthy(o.value.v) then o else Quiet(m, r)
    case LogicalAnd(l, r) =>
      var o := Quiet(m, l);
      if o.None? || o.value.Throws? || !m.truthy(o.value.v) then o else Quiet(m, r)
    case Coalesce(l, r) =>
      var o := Quiet(m, l);
      if o.None? || o.value.Throws? || !Nullish(o.value.v) then o else Quiet(m, r)
    case Sequence(es) => QuietList(m, es)
  }

  function QuietList<W(!new)>(m: Machine<W>, es: List): Option<Outcome>
    decreases es
  {
    match es
    case Last(e) => Quiet(m, e)
    case Then(e, rest) =>
      var o := Quiet(m, e);
      if o.None? || o.value.Throws? then o else QuietList(m, rest)
  }

  /** A call that throws and does nothing else. */
  ghost predicate CallsThrow<W(!new)>(m: Machine<W>) {
    forall id, w :: m.call(id, w).0.Throws?
  }

  /** What an expression comes to: its quiet outcome, with the world left alone, or a call. */
  ghost predicate QuietOk<W(!new)>(m: Machine<W>, o: Option<Outcome>, r: (Outcome, W), w: W) {
    match o
    case Some(x) => ConstantOutcome(x) && r == (x, w)
    case None => CallsThrow(m) ==> r.0.Throws?
  }

  lemma {:induction false} QuietEvaluates<W(!new)>(m: Machine<W>, e: Expr, w: W)
    requires m.OperatorsOk() && WellFormed(e)
    ensures QuietOk(m, Quiet(m, e), Eval(m, true, e, w), w)
    decreases e
  {
    match e
    case Literal(_) =>
    case Call(_) =>
    case Unary(_, x) => QuietEvaluates(m, x, w);
    case Void(x) => QuietEvaluates(m, x, w);
    case Delete(x) => QuietEvaluates(m, x, w);
    case Binary(_, l, r) =>
      QuietEvaluates(m, l, w);
      QuietEvaluates(m, r, Eval(m, true, l, w).1);
    case Conditional(t, c, a) =>
      QuietEvaluates(m, t, w);
      QuietEvaluates(m, c, Eval(m, true, t, w).1);
      QuietEvaluates(m, a, Eval(m, true, t, w).1);
    case LogicalOr(l, r) =>
      QuietEvaluates(m, l, w);
      QuietEvaluates(m, r, Eval(m, true, l, w).1);
    case LogicalAnd(l, r) =>
      QuietEvaluates(m, l, w);
      QuietEvaluates(m, r, Eval(m, true, l, w).1);
    case Coalesce(l, r) =>
      QuietEvaluates(m, l, w);
      QuietEvaluates(m, r, Eval(m, true, l, w).1);
    case Sequence(es) => QuietListEvaluates(m, es, w);
  }

  lemma {:induction false} QuietListEvaluates<W(!new)>(m: Machine<W>, es: List, w: W)
    requires m.OperatorsOk() && WellFormedList(es)
    ensures QuietOk(m, QuietList(m, es), EvalList(m, true, es, w), w)
    decreases es
  {
    hide Quiet, Eval, WellFormed;
    match es
    case Last(e) => QuietEvaluates(m, e, w);
    case Then(e, rest) =>
      QuietEvaluates(m, e, w);
      QuietListEvaluates(m, rest, Eval(m, true, e, w).1);
  }

  /** The operand can be left out: it is a call, which is not, or it comes to no call and does not throw. */
  predicate MayDelete<W(!new)>(m: Machine<W>, x: Expr) {
    x.Call? || (Quiet(m, x).Some? && Quiet(m, x).value.Normal?)
  }

  predicate DeletesHarmless<W(!new)>(m: Machine<W>, e: Expr) {
    match e
    case Literal(_) => true
    case Call(_) => true
    case Unary(_, x) => DeletesHarmless(m, x)
    case Void(x) => DeletesHarmless(m, x)
    case Delete(x) => MayDelete(m, x)
    case Binary(_, l, r) => DeletesHarmless(m, l) && DeletesHarmless(m, r)
    case Conditional(t, c, a) => DeletesHarmless(m, t) && DeletesHarmless(m, c) && DeletesHarmless(m, a)
    case LogicalOr(l, r) => DeletesHarmless(m, l) && DeletesHarmless(m, r)
    case LogicalAnd(l, r) => DeletesHarmless(m, l) && DeletesHarmless(m, r)
    case Coalesce(l, r) => DeletesHarmless(m, l) && DeletesHarmless(m, r)
    case Sequence(es) => ListHarmless(m, es)
  }

  predicate ListHarmless<W(!new)>(m: Machine<W>, es: List) {
    match es
    case Last(e) => DeletesHarmless(m, e)
    case Then(e, rest) => DeletesHarmless(m, e) && ListHarmless(m, rest)
  }

  lemma {:induction false} LenientIsStrict<W(!new)>(m: Machine<W>, e: Expr, w: W)
    requires m.OperatorsOk() && WellFormed(e) && DeletesHarmless(m, e)
    ensures Eval(m, false, e, w) == Eval(m, true, e, w)
    decreases e
  {
    hide Quiet;
    match e
    case Literal(_) =>
    case Call(_) =>
    case Unary(_, x) => LenientIsStrict(m, x, w);
    case Void(x) => LenientIsStrict(m, x, w);
    case Delete(x) => QuietEvaluates(m, x, w);
    case Binary(_, l, r) =>
      LenientIsStrict(m, l, w);
      LenientIsStrict(m, r, Eval(m, true, l, w).1);
    case Conditional(t, c, a) =>
      LenientIsStrict(m, t, w);
      LenientIsStrict(m, c, Eval(m, true, t, w).1);
      LenientIsStrict(m, a, Eval(m, true, t, w).1);
    case LogicalOr(l, r) =>
      LenientIsStrict(m, l, w);
      LenientIsStrict(m, r, Eval(m, true, l, w).1);
    case LogicalAnd(l, r) =>
      LenientIsStrict(m, l, w);
      LenientIsStrict(m, r, Eval(m, true, l, w).1);
    case Coalesce(l, r) =>
      LenientIsStrict(m, l, w);
      LenientIsStrict(m, r, Eval(m, true, l, w).1);
    case Sequence(es) => LenientListIsStrict(m, es, w);
  }

  lemma {:induction false} LenientListIsStrict<W(!new)>(m: Machine<W>, es: List, w: W)
    requires m.OperatorsOk() && WellFormedList(es) && ListHarmless(m, es)
    ensures EvalList(m, false, es, w) == EvalList(m, true, es, w)
    decreases es
  {
    hide DeletesHarmless, WellFormed;
    match es
    case Last(e) => LenientIsStrict(m, e, w);
    case Then(e, rest) =>
      LenientIsStrict(m, e, w);
      LenientListIsStrict(m, rest, Eval(m, true, e, w).1);
  }

  /** Where no `delete` leaves out what could be noticed, compiled code does what ECMAScript asks exactly as before. */
  lemma CompiledCodeIsCorrectIff<W(!new)>(m: Machine<W>, e: Expr, putOnStack: bool, st: seq<Value>, w: W)
    requires Standard(m) && WellFormed(e) && DeletesHarmless(m, e)
    ensures Run(m, Code(m, e, putOnStack), 0, st, w) == Finished(st, putOnStack, Eval(m, true, e, w)) <==>
      CodeIntact(m, e, w)
  {
    hide Run, Code, Eval, CodeIntact, DeletesHarmless, Getter;
    CompiledCodeEvaluatesIff(m, e, putOnStack, st, w);
    LenientIsStrict(m, e, w);
  }

  /** The machine with other calls. */
  function WithCalls<W(!new)>(m: Machine<W>, call: (int, W) -> (Outcome, W)): Machine<W> {
    m.(call := call)
  }

  /** The code of an expression does what ECMAScript asks. */
  ghost predicate RunsRight<W(!new)>(m: Machine<W>, e: Expr, putOnStack: bool, st: seq<Value>, w: W) {
    Run(m, Code(m, e, putOnStack), 0, st, w) == Finished(st, putOnStack, Eval(m, true, e, w))
  }

  /** In one run: the operand is a call, or evaluating it ends normally and leaves the world as it was. */
  lemma DeleteRuns<W(!new)>(m: Machine<W>, x: Expr, putOnStack: bool, st: seq<Value>, w: W)
    requires Standard(m) && WellFormed(x)
    ensures RunsRight(m, Delete(x), putOnStack, st, w) <==>
      x.Call? || (Eval(m, true, x, w).0.Normal? && Eval(m, true, x, w).1 == w)
  {
    hide Code, Getter, Run;
    CompiledCodeEvaluatesIff(m, Delete(x), putOnStack, st, w);
    DeleteIsIntact(m, x, w);
    if x.Call? {
      assert Eval(m, false, x, w) == Eval(m, true, x, w);
    } else {
      assert Eval(m, false, Delete(x), w) == (Normal(Bool(true)), w);
    }
    hide Eval, CodeIntact;
  }

  lemma DeleteIsIntact<W(!new)>(m: Machine<W>, x: Expr, w: W)
    requires Standard(m) && WellFormed(x)
    ensures CodeIntact(m, Delete(x), w)
  {
    if Constant(m, Delete(x)) { ConstOk(m, Delete(x)); }
  }

  lemma {:induction false} QuietWithCalls<W(!new)>(m: Machine<W>, call: (int, W) -> (Outcome, W), e: Expr)
    ensures Quiet(WithCalls(m, call), e) == Quiet(m, e)
    decreases e
  {
    match e
    case Literal(_) =>
    case Call(_) =>
    case Unary(_, x) => QuietWithCalls(m, call, x);
    case Void(x) => QuietWithCalls(m, call, x);
    case Delete(x) => QuietWithCalls(m, call, x);
    case Binary(_, l, r) => QuietWithCalls(m, call, l); QuietWithCalls(m, call, r);
    case Conditional(t, c, a) => QuietWithCalls(m, call, t); QuietWithCalls(m, call, c); QuietWithCalls(m, call, a);
    case LogicalOr(l, r) => QuietWithCalls(m, call, l); QuietWithCalls(m, call, r);
    case LogicalAnd(l, r) => QuietWithCalls(m, call, l); QuietWithCalls(m, call, r);
    case Coalesce(l, r) => QuietWithCalls(m, call, l); QuietWithCalls(m, call, r);
    case Sequence(es) => QuietListWithCalls(m, call, es);
  }

  lemma {:induction false} QuietListWithCalls<W(!new)>(m: Machine<W>, call: (int, W) -> (Outcome, W), es: List)
    ensures QuietList(WithCalls(m, call), es) == QuietList(m, es)
    decreases es
  {
    hide Quiet;
    match es
    case Last(e) => QuietWithCalls(m, call, e);
    case Then(e, rest) => QuietWithCalls(m, call, e); QuietListWithCalls(m, call, rest);
  }

  /**
   The code of `delete x` is right in every world, whatever calls do, if and only if `x` is a call or
   comes to none and does not throw, which can be told without running anything.
   */
  lemma DeleteIsCorrectIff<W(!new)>(m: Machine<W>, x: Expr, putOnStack: bool, st: seq<Value>)
    requires Standard(m) && WellFormed(x)
    ensures (forall call: (int, W) -> (Outcome, W), w: W ::
      RunsRight(WithCalls(m, call), Delete(x), putOnStack, st, w)) <==> MayDelete(m, x)
  {
    hide RunsRight, Quiet, Eval;
    if MayDelete(m, x) {
      forall call: (int, W) -> (Outcome, W), w: W ensures RunsRight(WithCalls(m, call), Delete(x), putOnStack, st, w) {
        var n := WithCalls(m, call);
        QuietWithCalls(m, call, x);
        QuietEvaluates(n, x, w);
        DeleteRuns(n, x, putOnStack, st, w);
      }
    } else {
      var call := (id: int, w: W) => (Throws(Undefined), w);
      var n, w := WithCalls(m, call), m.evalWorld;
      QuietWithCalls(m, call, x);
      QuietEvaluates(n, x, w);
      assert CallsThrow(n);
      DeleteRuns(n, x, putOnStack, st, w);
      assert !RunsRight(WithCalls(m, call), Delete(x), putOnStack, st, w);
    }
  }

  // ---------------------------------------------------------------------------------------
  // Two programs that go wrong

  /** A machine that counts the calls it makes. */
  function CountingMachine(): Machine<int> {
    Machine(v => v == Bool(true),
            (op, v, w) => (Normal(Undefined), w),
            (op, a, b, w) => (Throws(Error("TypeError", None)), w),
            (id, w) => (Normal(Undefined), w + 1),
            (name, w) => (Normal(Constructor(name)), w),
            (f: Value, args: seq<Value>, w) => (Made(f, args), w),
            0)
  }

  function Made(f: Value, args: seq<Value>): Outcome {
    if f.Constructor? && |args| <= 1 then Normal(Error(f.name, if args == [] then None else Some(args[0])))
    else Throws(Undefined)
  }

  /** `delete (f(), 1)` does not call `f`. */
  lemma DeleteLosesACall()
    ensures Standard(CountingMachine())
    ensures var e := Delete(Sequence(Then(Call(0), Last(Literal(Other(1))))));
            && WellFormed(e) && !MayDelete(CountingMachine(), e.e)
            && Run(CountingMachine(), Code(CountingMachine(), e, true), 0, [], 0) == Done([Bool(true)], 0)
            && Eval(CountingMachine(), true, e, 0) == (Normal(Bool(true)), 1)
  {
    var e := Delete(Sequence(Then(Call(0), Last(Literal(Other(1))))));
    var m := CountingMachine();
    CountingIsStandard();
    ComesToACall(m);
    hide Run, Code, Getter, Standard, CountingMachine, Quiet, CodeIntact;
    CompiledCodeEvaluatesIff(m, e, true, [], 0);
    DeleteIsIntact(m, e.e, 0);
    CountsTheCall();
    assert WellFormedList(Last(Literal(Other(1))));
  }

  lemma ComesToACall(m: Machine<int>)
    ensures Quiet(m, Sequence(Then(Call(0), Last(Literal(Other(1)))))) == None
  {
    assert Quiet(m, Call(0)) == None;
  }

  lemma CountingIsStandard()
    ensures Standard(CountingMachine())
  {
  }

  lemma CountsTheCall()
    ensures Eval(CountingMachine(), true, Sequence(Then(Call(0), Last(Literal(Other(1))))), 0) == (Normal(Other(1)), 1)
  {
    var m := CountingMachine();
    assert Eval(m, true, Call(0), 0) == (Normal(Undefined), 1);
    assert Eval(m, true, Literal(Other(1)), 1) == (Normal(Other(1)), 1);
    assert EvalList(m, true, Last(Literal(Other(1))), 1) == (Normal(Other(1)), 1);
  }

  /** A machine with two worlds: in world 1 every error constructor has been rebound. */
  function ReboundMachine(): Machine<int> {
    CountingMachine().(global := (name: string, w: int) => (Normal(Constructor(if w == 1 then "Other" else name)), w))
  }

  /** With `TypeError` rebound, the code of an expression that throws one throws something else. */
  lemma ReboundErrorIsVisible()
    ensures var m, e := ReboundMachine(), Binary(BinaryOp(0), Literal(Other(1)), Literal(Other(2)));
            && Standard(m) && WellFormed(e) && CodeIntact(m, e, 0) && !CodeIntact(m, e, 1)
            && Eval(m, true, e, 1) == (Throws(Error("TypeError", None)), 1)
            && Run(m, Code(m, e, true), 0, [], 1) ==
              Threw(Error("Other", None), 1) != Finished([], true, Eval(m, true, e, 1))
  {
    var m, e := ReboundMachine(), Binary(BinaryOp(0), Literal(Other(1)), Literal(Other(2)));
    ReboundIsStandard();
    FoldsToTypeError();
    CompiledCodeRuns(m, e, true, [], 1);
    hide Run, Getter, Code, EvalConst;
  }

  lemma ReboundIsStandard()
    ensures Standard(ReboundMachine())
  {
  }

  lemma FoldsToTypeError()
    ensures var m, e := ReboundMachine(), Binary(BinaryOp(0), Literal(Other(1)), Literal(Other(2)));
            Constant(m, e) && EvalConst(m, e) == Throws(Error("TypeError", None))
            && Eval(m, false, e, 0).0 == Throws(Error("TypeError", None))
              && Eval(m, true, e, 1) == (Throws(Error("TypeError", None)), 1)
  {
    var m, e := ReboundMachine(), Binary(BinaryOp(0), Literal(Other(1)), Literal(Other(2)));
    ReboundIsStandard();
    assert Constant(m, Literal(Other(1))) && Constant(m, Literal(Other(2)));
    ConstOk(m, e);
    hide EvalConst;
    assert Eval(m, false, e, 0) == (EvalConst(m, e), 0);
  }

  // ---------------------------------------------------------------------------------------
  // The compiler itself: it appends to the program and patches the jumps afterwards

  /** Code runs the same wherever it lies. */
  lemma {:induction false} RunShift<W(!new)>(m: Machine<W>, pre: seq<Instr>, c: seq<Instr>, pc: nat, st: seq<Value>,
                                             w: W)
    ensures Run(m, pre + c, |pre| + pc, st, w) == Run(m, c, pc, st, w)
    decreases |c| - pc
  {
    hide Step;
    if pc < |c| {
      var i := c[pc];
      assert (pre + c)[|pre| + pc] == i;
      match Step(m, i, st, w)
      case Move(d, st1, w1) =>
        if d > 0 { RunShift(m, pre, c, pc + d, st1, w1); }
      case End(_) =>
    }
  }

  /** The jump of a logical operator. */
  function ShortCircuit(e: Expr, n: int): Instr
    requires e.LogicalOr? || e.LogicalAnd? || e.Coalesce?
  {
    match e
    case LogicalOr(_, _) => Jeq(n)
    case LogicalAnd(_, _) => Jne(n)
    case Coalesce(_, _) => Jcoalesc(n)
  }

  /** The code of a logical operator: its left side decided at compile time, or code with a jump. */
  lemma LogicalGetter<W(!new)>(m: Machine<W>, e: Expr, putOnStack: bool, before: seq<Instr>)
    requires e.LogicalOr? || e.LogicalAnd? || e.Coalesce?
    ensures Constant(m, e.left) ==>
      var o := EvalConst(m, e.left);
      Getter(m, e, putOnStack) ==
      if o.Normal? && (if e.LogicalOr? then !m.truthy(o.v) else if e.LogicalAnd? then m.truthy(o.v) else Nullish(o.v))
      then Code(m, e.right, putOnStack) else ConstCode(o, putOnStack)
    ensures !Constant(m, e.left) ==>
      var lc, rc := if e.LogicalAnd? then Getter(m, e.left, true) else Code(m, e.left, true), Code(m, e.right, true);
      before + Getter(m, e, putOnStack) == before + lc + [ShortCircuit(e, |rc| + 1)] + rc + PopUnless(putOnStack)
  {
    hide Constant, EvalConst, Code, ConstCode, PopUnless;
    if !Constant(m, e.left) {
      var lc, rc := if e.LogicalAnd? then Getter(m, e.left, true) else Code(m, e.left, true), Code(m, e.right, true);
      var jump := [ShortCircuit(e, |rc| + 1)];
      assert Getter(m, e, putOnStack) == lc + jump + rc + PopUnless(putOnStack);
      hide Getter;
      assert before + (lc + jump + rc + PopUnless(putOnStack)) == before + lc + jump + rc + PopUnless(putOnStack);
    }
  }

  class Compiler<W(!new)> {
    const m: Machine<W>

    // The program under construction, and whether it is the one of the machine that folds constants.
    var code: seq<Instr>
    var folding: bool

    constructor (m: Machine<W>)
      ensures this.m == m && code == [] && !folding
    {
      this.m, code, folding := m, [], false;
    }

    method Emit(i: Instr)
      modifies this`code
      ensures code == old(code) + [i]
    {
      code := code + [i];
    }

    method EmitPopUnless(putOnStack: bool)
      modifies this`code
      ensures code == old(code) + PopUnless(putOnStack)
    {
      if !putOnStack {
        Emit(Pop);
      }
    }

    method EmitConst(o: Outcome, putOnStack: bool)
      modifies this`code
      ensures code == old(code) + ConstCode(o, putOnStack)
    {
      match o
      case Normal(v) =>
        if putOnStack {
          Emit(LoadVal(v));
        }
      case Throws(v) =>
        if KnownError(v) {
          Emit(LoadDynamic(v.name));
          if v.message.Some? {
            Emit(LoadVal(v.message.value));
            Emit(New(1));
          } else {
            Emit(New(0));
          }
          Emit(Throw);
        } else {
          Emit(Placeholder);
        }
    }

    method IsConstant(e: Expr) returns (b: bool)
      modifies this
      ensures b == Constant(m, e) && code == old(code) && folding == old(folding)
      decreases e, 0
    {
      match e
      case Literal(_) => b := true;
      case Call(_) => b := false;
      case Unary(_, x) => b := IsConstant(x);
      case Void(x) => b := IsConstant(x);
      case Delete(x) => b := IsConstant(x);
      case Binary(_, l, r) =>
        b := IsConstant(l);
        if b { b := IsConstant(r); }
      case Conditional(_, _, _) => b := false;
      case LogicalOr(l, r) =>
        b := IsConstant(l);
        if b {
          var o := Fold(l);
          if o.Normal? && !m.truthy(o.v) { b := IsConstant(r); }
        }
      case LogicalAnd(l, r) =>
        b := IsConstant(l);
        if b {
          var o := Fold(l);
          if o.Normal? && m.truthy(o.v) { b := IsConstant(r); }
        }
      case Coalesce(l, r) =>
        b := IsConstant(l);
        if b {
          var o := Fold(l);
          if o.Normal? && Nullish(o.v) { b := IsConstant(r); }
        }
      case Sequence(_) => b := false;
    }

    /** Emits the expression at the end of the folding machine's program, runs it from there, and takes it off again. */
    method Fold(e: Expr) returns (o: Outcome)
      modifies this
      ensures o == EvalConst(m, e) && code == old(code) && folding == old(folding)
      decreases e, 1
    {
      hide Run, Getter;
      if e.Literal? {
        return Normal(e.v);
      }
      var saved, created := code, !folding;
      if created {
        code, folding := [], true;
      }
      var savedPc := |code|;
      EmitGetter(e, true);
      RunShift(m, code[..savedPc], Getter(m, e, true), 0, [], m.evalWorld);
      assert code == code[..savedPc] + Getter(m, e, true);
      var r := Run(m, code, savedPc, [], m.evalWorld);
      if created {
        code, folding := saved, false;
      } else {
        code := code[..savedPc];
      }
      match r
      case Done(st, _) => o := if st == [] then Throws(Undefined) else Normal(st[|st| - 1]);
      case Threw(v, _) => o := Throws(v);
      case Broken => o := Throws(Undefined);
    }

    method EmitExpr(e: Expr, putOnStack: bool)
      modifies this
      ensures code == old(code) + Code(m, e, putOnStack) && folding == old(folding)
      decreases e, 2
    {
      var b := IsConstant(e);
      if b {
        var o := Fold(e);
        EmitConst(o, putOnStack);
      } else {
        EmitGetter(e, putOnStack);
      }
    }

    method EmitGetter(e: Expr, putOnStack: bool)
      modifies this
      ensures code == old(code) + Getter(m, e, putOnStack) && folding == old(folding)
      decreases e, 0
    {
      hide Code, Constant, EvalConst, ConstCode, PopUnless;
      match e
      case Literal(v) =>
        if putOnStack { Emit(LoadVal(v)); }
      case Call(id) =>
        Emit(CallInstr(id));
        EmitPopUnless(putOnStack);
      case Unary(_, _) =>
        EmitUnary(e, putOnStack);
      case Void(x) =>
        EmitExpr(x, false);
        if putOnStack { Emit(LoadUndef); }
      case Delete(x) =>
        if x.Call? { EmitGetter(x, false); }
        if putOnStack { Emit(LoadVal(Bool(true))); }
      case Binary(_, _, _) =>
        EmitBinary(e, putOnStack);
      case Conditional(t, c, a) =>
        EmitConditional(e, putOnStack);
      case LogicalOr(l, r) =>
        EmitOr(e, putOnStack);
      case LogicalAnd(l, r) =>
        EmitAnd(e, putOnStack);
      case Coalesce(l, r) =>
        EmitCoalesce(e, putOnStack);
      case Sequence(es) =>
        EmitList(es, putOnStack);
    }

    method EmitUnary(e: Expr, putOnStack: bool)
      requires e.Unary?
      modifies this
      ensures code == old(code) + Getter(m, e, putOnStack) && folding == old(folding)
      decreases e, -1
    {
      hide Code, PopUnless;
      var op, x := e.op, e.e;
      if op.Minus? || op.Plus? { EmitExpr(x, true); } else { EmitGetter(x, true); }
      Emit(UnaryInstr(op));
      EmitPopUnless(putOnStack);
    }

    method EmitBinary(e: Expr, putOnStack: bool)
      requires e.Binary?
      modifies this
      ensures code == old(code) + Getter(m, e, putOnStack) && folding == old(folding)
      decreases e, -1
    {
      hide Code, PopUnless;
      EmitExpr(e.left, true);
      EmitExpr(e.right, true);
      Emit(BinaryInstr(e.bop));
      EmitPopUnless(putOnStack);
    }

    method EmitOr(e: Expr, putOnStack: bool)
      requires e.LogicalOr?
      modifies this
      ensures code == old(code) + Getter(m, e, putOnStack) && folding == old(folding)
      decreases e, -1
    {
      hide Code, Constant, EvalConst, ConstCode, PopUnless, Getter, ShortCircuit;
      LogicalGetter(m, e, putOnStack, code);
      var b := IsConstant(e.left);
      if b {
        var o := Fold(e.left);
        if o.Normal? && !m.truthy(o.v) { EmitExpr(e.right, putOnStack); } else { EmitConst(o, putOnStack); }
      } else {
        EmitExpr(e.left, true);
        EmitRight(e, putOnStack);
      }
    }

    method EmitAnd(e: Expr, putOnStack: bool)
      requires e.LogicalAnd?
      modifies this
      ensures code == old(code) + Getter(m, e, putOnStack) && folding == old(folding)
      decreases e, -1
    {
      hide Code, Constant, EvalConst, ConstCode, PopUnless, Getter, ShortCircuit;
      LogicalGetter(m, e, putOnStack, code);
      var b := IsConstant(e.left);
      if b {
        var o := Fold(e.left);
        if o.Normal? && m.truthy(o.v) { EmitExpr(e.right, putOnStack); } else { EmitConst(o, putOnStack); }
      } else {
        EmitGetter(e.left, true);
        EmitRight(e, putOnStack);
      }
    }

    method EmitCoalesce(e: Expr, putOnStack: bool)
      requires e.Coalesce?
      modifies this
      ensures code == old(code) + Getter(m, e, putOnStack) && folding == old(folding)
      decreases e, -1
    {
      hide Code, Constant, EvalConst, ConstCode, PopUnless, Getter, ShortCircuit;
      LogicalGetter(m, e, putOnStack, code);
      var b := IsConstant(e.left);
      if b {
        var o := Fold(e.left);
        if o.Normal? && Nullish(o.v) { EmitExpr(e.right, putOnStack); } else { EmitConst(o, putOnStack); }
      } else {
        EmitExpr(e.left, true);
        EmitRight(e, putOnStack);
      }
    }

    method EmitList(es: List, putOnStack: bool)
      modifies this
      ensures code == old(code) + ListCode(m, es, putOnStack) && folding == old(folding)
      decreases es, 0
    {
      hide Getter;
      match es
      case Last(e) => EmitGetter(e, putOnStack);
      case Then(e, rest) =>
        EmitGetter(e, false);
        EmitList(rest, putOnStack);
    }

    /** The right operand of a logical operator, behind a slot that is patched once its length is known. */
    method EmitRight(e: Expr, putOnStack: bool)
      requires e.LogicalOr? || e.LogicalAnd? || e.Coalesce?
      modifies this
      ensures var rc := Code(m, e.right, true);
              code == old(code) + [ShortCircuit(e, |rc| + 1)] + rc + PopUnless(putOnStack)
      ensures folding == old(folding)
      decreases e.right, 3
    {
      hide Code;
      var j := |code|;
      Emit(Placeholder);
      EmitExpr(e.right, true);
      code := code[j := ShortCircuit(e, |code| - j)];
      EmitPopUnless(putOnStack);
    }

    method EmitConditional(e: Expr, putOnStack: bool)
      requires e.Conditional?
      modifies this
      ensures code == old(code) + Getter(m, e, putOnStack) && folding == old(folding)
      decreases e, -1
    {
      ghost var start := code;
      hide Getter;
      EmitGetter(e.test, true);
      var j := |code|;
      Emit(Placeholder);
      EmitGetter(e.consequent, putOnStack);
      var j1 := |code|;
      Emit(Placeholder);
      code := code[j := JneP(|code| - j)];
      EmitGetter(e.alternate, putOnStack);
      code := code[j1 := Jump(|code| - j1)];
      ConditionalParts(m, e, putOnStack, m.evalWorld);
    }
  }
}
