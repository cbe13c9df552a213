/** The lowering of structured lines to labelled blocks, as a function of the compiler's state. */
module CompilerSpec {
  import opened Wrappers
  import opened Machine
  import opened Ir
  import opened SimpleLang

  /** Variables and their offsets from fp, innermost scope first. */
  datatype Scopes =
    | Outermost(vars: map<Var, nat>)
    | Nested(vars: map<Var, nat>, outer: Scopes)

  predicate InScope(s: Scopes, x: Var) {
    x in s.vars || (s.Nested? && InScope(s.outer, x))
  }

  function Offset(s: Scopes, x: Var): nat
    requires InScope(s, x)
  {
    if x in s.vars then s.vars[x] else Offset(s.outer, x)
  }

  function Push(s: Scopes): Scopes { Nested(map[], s) }

  function Pop(s: Scopes): Scopes { if s.Nested? then s.outer else s }

  /** What stays fixed while a function is compiled. */
  datatype Context = Context(isMain: bool, argsCount: nat, dead: set<Var>, coalesced: set<Var>)

  /** What changes. Blocks are added to `bytecode`, arms to `matchBlocks`; the counters make labels. */
  datatype CState = CState(
    scopes: Scopes,
    stackPos: nat,
    stackSize: nat,
    ifCounter: nat,
    callCounter: nat,
    matchCounter: nat,
    bytecode: map<Label, seq<Instr>>,
    matchBlocks: seq<seq<seq<Instr>>>)

  function Max(a: nat, b: nat): (r: nat)
    ensures r >= a && r >= b && (r == a || r == b)
  {
    if a < b then b else a
  }

  function ValueOf(o: Operand, s: Scopes): Value {
    match o
    case Literal(v) => Const(Scalar(v))
    case Variable(x) => if InScope(s, x) then Mem(Offset(s, x)) else Unresolved
  }

  function Declare(st: CState, x: Var): CState {
    st.(scopes := st.scopes.(vars := st.scopes.vars[x := st.stackPos]), stackPos := st.stackPos + 1)
  }

  /** The cells of an array, one after another from pos on. */
  function PlaceCells(id: nat, size: nat, pos: nat): map<Var, nat> {
    map k | 0 <= k < size :: Cell(id, k) := pos + k
  }

  function Allocate(st: CState, id: nat, size: nat): CState {
    st.(scopes := st.scopes.(vars := st.scopes.vars + PlaceCells(id, size, st.stackPos)),
        stackPos := st.stackPos + size)
  }

  function RegisterIfNeeded(st: CState, o: Operand): CState {
    if o.Literal? || o.name.Cell? || InScope(st.scopes, o.name) then st else Declare(st, o.name)
  }

  function RegisterAll(st: CState, xs: seq<Var>): CState
    decreases |xs|
  {
    if xs == [] then st else RegisterAll(RegisterIfNeeded(st, Variable(xs[0])), xs[1..])
  }

  function LabelValue(l: Label): Value { Const(LabelPc(l)) }

  /** Subtraction and division are the addition and product they invert. */
  function Equation(op: MathOp, a: Value, b: Value, res: Value): Instr {
    match op
    case Plus => Instr.Computation(Add, a, b, res)
    case Times => Instr.Computation(Mul, a, b, res)
    case Minus => Instr.Computation(Add, res, b, a)
    case Over => Instr.Computation(Mul, res, b, a)
  }

  function Equality(left: Value, right: Value): Instr {
    Instr.Computation(Add, left, Const(Scalar(0)), right)
  }

  function JumpTo(l: Option<Label>): seq<Instr> {
    if l.None? then [] else [Instr.Jump(LabelValue(l.value), None)]
  }

  /** inverse; c * inverse; 1 - c * inverse; c * (1 - c * inverse) == 0; two jumps. */
  function Gadget(c: Value, pos: nat, id: nat): seq<Instr> {
    [Instr.Inverse(c, pos)] + ([Instr.Computation(Mul, c, Mem(pos), Mem(pos + 1))] +
    ([Instr.Computation(Add, Mem(pos + 2), Mem(pos + 1), Const(Scalar(1)))] +
    ([Instr.Computation(Mul, Mem(pos + 2), c, Const(Scalar(0)))] +
    ([JumpIfNotZero(Mem(pos + 1), LabelValue(If(id)), None)] +
    [Instr.Jump(LabelValue(Else(id)), None)]))))
  }

  /** value * size; + (first - offset * size); jump there. */
  function MatchJump(v: Value, pos: nat, index: nat, offset: nat): seq<Instr> {
    [Instr.Computation(Mul, v, Const(MatchBlockSize(index)), Mem(pos))] +
    ([Instr.Computation(Add, Mem(pos),
        Const(ConstExpr.Minus(MatchFirstBlockStart(index),
        ConstExpr.Times(Scalar(FromUsize(offset)), MatchBlockSize(index)))), Mem(pos + 1))] +
    [Instr.Jump(Mem(pos + 1), None)])
  }

  function CopyArguments(args: seq<Operand>, i: nat, pos: nat, s: Scopes): seq<Instr>
    requires i <= |args|
    decreases |args| - i
  {
    if i == |args| then [] else [Instr.Deref(pos, 2 + i, ValueOf(args[i], s))] + CopyArguments(args, i + 1, pos, s)
  }

  function CallSetup(callee: string, args: seq<Operand>, pos: nat, back: Label, s: Scopes): seq<Instr> {
    [Instr.RequestMemory(pos, Const(FunctionSize(callee)))] +
    ([Instr.Deref(pos, 0, LabelValue(back))] +
    ([Instr.Deref(pos, 1, Fp(0))] +
    (CopyArguments(args, 0, pos, s) +
    [Instr.Jump(LabelValue(Label.Function(callee)), Some(Mem(pos)))])))
  }

  function CopyResults(results: seq<Var>, i: nat, pos: nat, nArgs: nat, s: Scopes): seq<Instr>
    requires i <= |results|
    decreases |results| - i
  {
    if i == |results| then []
    else
      [Instr.Deref(pos, 2 + nArgs + i, ValueOf(Variable(results[i]), s))] + CopyResults(results, i + 1, pos, nArgs, s)
  }

  /** A returned variable that is coalesced is taken to be in its slot already. */
  function StoreReturns(c: Context, data: seq<Operand>, i: nat, s: Scopes): seq<Instr>
    requires i <= |data|
    decreases |data| - i
  {
    if i == |data| then []
    else
      var rest := StoreReturns(c, data, i + 1, s);
      if data[i].Variable? && data[i].name in c.coalesced then rest
      else [Equality(Mem(2 + c.argsCount + i), ValueOf(data[i], s))] + rest
  }

  function Return(c: Context, data: seq<Operand>, pos: nat, s: Scopes): seq<Instr> {
    if c.isMain then
      [Instr.Computation(Add, Const(Scalar(0)), Const(Scalar(0)), Mem(pos))]
          + [Instr.Jump(LabelValue(EndProgram), Some(Mem(pos)))]
    else StoreReturns(c, data, 0, s) + [Instr.Jump(Mem(0), Some(Mem(1)))]
  }

  /** The instructions of a block that continues at `next`, and the state after compiling it. */
  function Compile(c: Context, block: Block, st: CState, next: Option<Label>): (seq<Instr>, CState)
    decreases block
  {
    match block
    case Done => (JumpTo(next), st.(stackSize := Max(st.stackSize, st.stackPos)))
    case Then(line, rest) =>
      match line
      case ForwardDeclaration(x) =>
        Compile(c, rest, if x in c.dead || x in c.coalesced then st else Declare(st, x), next)
      case ConstMalloc(id, size) => Compile(c, rest, Allocate(st, id, size), next)
      case Assignment(target, op, a, b) =>
        if target.Variable? && target.name in c.dead then Compile(c, rest, st, next)
        else
          var st1 := RegisterIfNeeded(st, target);
          var r := Compile(c, rest, st1, next);
          ([Equation(op, ValueOf(a, st1.scopes), ValueOf(b, st1.scopes), ValueOf(target, st1.scopes))] + r.0, r.1)
      case AssertEq(left, right) =>
        var st1 := RegisterIfNeeded(RegisterIfNeeded(st, left), right);
        var r := Compile(c, rest, st1, next);
        ([Equality(ValueOf(left, st1.scopes), ValueOf(right, st1.scopes))] + r.0, r.1)
      case IfNotZero(condition, thenBranch, elseBranch) =>
        var id := st.ifCounter;
        var t := Compile(c, thenBranch, EnterThen(st), Some(IfElseEnd(id)));
        var e := Compile(c, elseBranch, EnterElse(st, t.1), Some(IfElseEnd(id)));
        var r := Compile(c, rest, AfterIf(id, t.0, t.1, e.0, e.1), next);
        (Gadget(ValueOf(condition, st.scopes), st.stackPos, id), r.1.(bytecode := r.1.bytecode[IfElseEnd(id) := r.0]))
      case Match(value, arms, offset) =>
        var id := st.matchCounter;
        var st0 := EnterMatch(st);
        var a := CompileArms(c, arms, st0, st0.stackPos, st0.stackPos, MatchEnd(id));
        var r := Compile(c, rest, AfterArms(a.0, a.1), next);
        (MatchJump(ValueOf(value, st0.scopes), a.1.stackPos, |a.1.matchBlocks|, offset),
         r.1.(bytecode := r.1.bytecode[MatchEnd(id) := r.0], scopes := Pop(r.1.scopes)))
      case FunctionCall(callee, args, results) =>
        var back := ReturnFromCall(st.callCounter);
        var st0 := EnterCall(st);
        var st1 := RegisterAll(st0, results);
        var r := Compile(c, rest, st1, next);
        (CallSetup(callee, args, st.stackPos, back, st0.scopes),
         r.1.(bytecode := r.1.bytecode[back := CopyResults(results, 0, st.stackPos, |args|, st1.scopes) + r.0]))
      case FunctionRet(data) =>
        var st1 := if c.isMain then st.(stackPos := st.stackPos + 1) else st;
        var r := Compile(c, rest, st1, next);
        (Return(c, data, st.stackPos, st.scopes) + r.0, r.1)
      case Abort =>
        var r := Compile(c, rest, st, next);
        ([PanicHint] + ([Instr.Panic] + r.0), r.1)
  }

  /** Arms share the offsets from `saved` on; the state after them stands past the deepest one. */
  function CompileArms(c: Context, arms: Arms, st: CState, saved: nat, deepest: nat, end: Label): (seq<seq<Instr>>,
      CState)
    decreases arms
  {
    if arms.NoArms? then ([], st.(stackPos := deepest))
    else
      var r := Compile(c, arms.body, st.(stackPos := saved, scopes := Push(st.scopes)), Some(end));
      var m := CompileArms(c, arms.others, r.1.(scopes := Pop(r.1.scopes)), saved, Max(deepest, r.1.stackPos), end);
      ([r.0] + m.0, m.1)
  }

  function EnterThen(st: CState): CState {
    st.(ifCounter := st.ifCounter + 1, stackPos := st.stackPos + 3, scopes := Push(st.scopes))
  }

  /** The other branch starts again at the offset where the first one started, in a scope of its own. */
  function EnterElse(st: CState, t: CState): CState {
    t.(stackPos := st.stackPos + 3, scopes := Push(Pop(t.scopes)))
  }

  function AfterIf(id: nat, thenCode: seq<Instr>, t: CState, elseCode: seq<Instr>, e: CState): CState {
    e.(bytecode := e.bytecode[If(id) := thenCode][Else(id) := elseCode], scopes := Pop(e.scopes),
        stackPos := Max(e.stackPos, t.stackPos))
  }

  function EnterMatch(st: CState): CState {
    st.(matchCounter := st.matchCounter + 1, scopes := Push(st.scopes))
  }

  function EnterCall(st: CState): CState {
    st.(callCounter := st.callCounter + 1, stackPos := st.stackPos + 1)
  }

  function AfterArms(blocks: seq<seq<Instr>>, a: CState): CState {
    a.(matchBlocks := a.matchBlocks + [blocks], stackPos := a.stackPos + 2)
  }

  // -- Functions ----------------------------------------------------------------

  /** What walk_returns has seen of each return slot: its variable so far, or a conflict. */
  datatype Slot = Unseen | Only(x: Var) | Conflict

  function SeeReturn(slots: seq<Slot>, data: seq<Operand>): seq<Slot>
    requires |data| <= |slots|
  {
    seq(|slots|, i requires 0 <= i < |slots| =>
      if i >= |data| || slots[i].Conflict? then slots[i]
      else if data[i].Variable? && data[i].name.Name? && (slots[i].Unseen? || slots[i].x == data[i].name) then
          Only(data[i].name)
      else Conflict)
  }

  /** Every return of the block has as many values as the function promises. */
  predicate ReturnsFit(block: Block, n: nat) {
    match block
    case Done => true
    case Then(line, rest) =>
      ReturnsFit(rest, n) &&
      match line
      case FunctionRet(data) => |data| == n
      case IfNotZero(_, a, b) => ReturnsFit(a, n) && ReturnsFit(b, n)
      case Match(_, arms, _) => ArmsFit(arms, n)
      case _ => true
  }

  predicate ArmsFit(arms: Arms, n: nat) {
    arms.NoArms? || (ReturnsFit(arms.body, n) && ArmsFit(arms.others, n))
  }

  function WalkReturns(block: Block, slots: seq<Slot>): (r: seq<Slot>)
    requires ReturnsFit(block, |slots|)
    ensures |r| == |slots|
    decreases block
  {
    match block
    case Done => slots
    case Then(line, rest) =>
      var s :=
        match line
        case FunctionRet(data) => SeeReturn(slots, data)
        case IfNotZero(_, a, b) => WalkReturns(b, WalkReturns(a, slots))
        case Match(_, arms, _) => WalkArms(arms, slots)
        case _ => slots;
      WalkReturns(rest, s)
  }

  function WalkArms(arms: Arms, slots: seq<Slot>): (r: seq<Slot>)
    requires ArmsFit(arms, |slots|)
    ensures |r| == |slots|
    decreases arms
  {
    if arms.NoArms? then slots else WalkArms(arms.others, WalkReturns(arms.body, slots))
  }

  /** A slot keeps its variable unless that is an argument or the variable of an earlier slot. */
  function Homes(slots: seq<Slot>, arguments: seq<Var>): (r: seq<Option<Var>>)
    ensures |r| == |slots|
  {
    if slots == [] then []
    else
      var init := Homes(slots[..|slots| - 1], arguments);
      var s := slots[|slots| - 1];
      init + [if s.Only? && s.x !in arguments && Some(s.x) !in init then Some(s.x) else None]
  }

  function CollectReturnCoalescings(f: Function): (r: seq<Option<Var>>)
    requires ReturnsFit(f.body, f.nReturned)
    ensures |r| == f.nReturned
  {
    Homes(WalkReturns(f.body, seq(f.nReturned, i => Unseen)), f.arguments)
  }

  function PlaceArguments(xs: seq<Var>): map<Var, nat> {
    if xs == [] then map[] else PlaceArguments(xs[..|xs| - 1])[xs[|xs| - 1] := 2 + |xs| - 1]
  }

  function PlaceHomes(homes: seq<Option<Var>>, start: nat, vars: map<Var, nat>): map<Var, nat> {
    if homes == [] then vars
    else
      var init := PlaceHomes(homes[..|homes| - 1], start, vars);
      var h := homes[|homes| - 1];
      if h.Some? then init[h.value := start + |homes| - 1] else init
  }

  function CoalescedVars(homes: seq<Option<Var>>): set<Var> {
    set h | h in homes && h.Some? :: h.value
  }

  function ContextOf(f: Function): Context
    requires ReturnsFit(f.body, f.nReturned)
  {
    Context(f.name == "main", |f.arguments|, DeadStores(f.body), CoalescedVars(CollectReturnCoalescings(f)))
  }

  /** Frame layout: return pc, caller's fp, arguments, returned values, everything else. */
  function EnterFunction(f: Function, st: CState): CState
    requires ReturnsFit(f.body, f.nReturned)
  {
    var pos := 2 + |f.arguments| + f.nReturned;
    st.(scopes := Outermost(PlaceHomes(CollectReturnCoalescings(f), 2 + |f.arguments|, PlaceArguments(f.arguments))),
        stackPos := pos, stackSize := pos)
  }

  function CompileFunction(f: Function, st: CState): (seq<Instr>, CState)
    requires ReturnsFit(f.body, f.nReturned)
  {
    Compile(ContextOf(f), f.body, EnterFunction(f, st), None)
  }

  /** Functions compiled one after another into the same bytecode, and the frame size of each. */
  function CompileFunctions(fs: seq<Function>, st: CState): (CState, map<string, nat>)
    requires forall f :: f in fs ==> ReturnsFit(f.body, f.nReturned)
  {
    if fs == [] then (st, map[])
    else
      var last := fs[|fs| - 1];
      var done := CompileFunctions(fs[..|fs| - 1], st);
      var r := CompileFunction(last, done.0);
      (r.1.(bytecode := r.1.bytecode[Label.Function(last.name) := r.0]), done.1[last.name := r.1.stackSize])
  }
}
