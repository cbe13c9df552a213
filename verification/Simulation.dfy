/** Compiled code, laid out and run by the machine, does what the structured lines mean. */
module Simulation {
  import opened Wrappers
  import opened KoalaBear
  import opened Machine
  import opened Ir
  import opened SimpleLang
  import opened CompilerSpec
  import opened CompilerInvariants
  import opened Frames
  import opened LineSteps

  /**
   * A program, the blocks compiled for it and the code they were laid out in; `starts` holds the state each function
   * was compiled in.
   */
  datatype World = World(p: Program, code: seq<Entry>, L: Layout, blocks: map<Label, seq<Instr>>,
      arms: seq<seq<seq<Instr>>>, starts: map<string, CState>)

  /** Every block begins at the pc of its label. */
  ghost predicate BlocksLinked(w: World) {
    && (forall l :: l in w.blocks ==>
        l in w.L.pcs && 0 < w.L.pcs[l] < P && Placed(w.code, w.L, w.blocks[l], w.L.pcs[l], 0))
    && EndProgram in w.L.pcs && w.L.pcs[EndProgram] == ENDING_PC
  }

  function ArmPc(L: Layout, index: nat, k: nat): nat
    requires index < |L.matchStarts| && index < |L.matchSizes|
  {
    L.matchStarts[index] + k * L.matchSizes[index]
  }

  /** Arm k of a match begins k block sizes after the first. */
  ghost predicate ArmsLinked(w: World) {
    && |w.arms| == |w.L.matchStarts| == |w.L.matchSizes|
    && (forall m, k {:trigger w.arms[m][k]} :: 0 <= m < |w.arms| && 0 <= k < |w.arms[m]| ==>
         0 < ArmPc(w.L, m, k) < P && Placed(w.code, w.L, w.arms[m][k], ArmPc(w.L, m, k), 0))
  }

  ghost predicate StoredIn(w: World, st: CState) {
    && (forall l :: l in st.bytecode ==> l in w.blocks && w.blocks[l] == st.bytecode[l])
    && st.matchBlocks <= w.arms
  }

  lemma ContainedIsStored(w: World, st: CState, st': CState)
    requires Contains(st, st') && StoredIn(w, st')
    ensures StoredIn(w, st)
  {
  }

  // -- Reaching an outcome -----------------------------------------------------------

  /** The frames of a finished run take exactly these cells, those of an unfinished one at most these. */
  predicate Taken(outcome: Outcome, cells: nat, ap: nat, ap': nat) {
    if outcome.Falls? || outcome.Returns? then ap' == ap + cells else ap' <= ap + cells
  }

  /**
   * After n steps from s the machine stands in s' as the outcome demands, having taken `cells` cells for new frames, or
   * it has run out of memory because that many do not fit.
   */
  ghost predicate Reaches(w: World, a: Activation, slots: map<Var, nat>, pos: nat, next: Option<Label>,
      outcome: Outcome, fuel: nat, cells: nat, s: State, n: nat, s': State)
    requires s.Running?
  {
    && s' == Run(w.code, s, n) && (s'.Running? ==> Taken(outcome, cells, s.ap, s'.ap)) &&
    (Exhausted(s', s.ap + cells) ||
     match outcome
     case Undefined | OutsideArms => true
     case Panics => s'.Failed?
     case OutOfFuel => n >= fuel && s'.Running? && s'.pc != ENDING_PC
     case Falls(env) => next.Some? ==>
         ArrivesAt(w, a.size, next.value, s, s') && Holding(a, slots, pos, env, s.fp, s'.ap, s'.mem)
     case Returns(values) =>
       if a.c.isMain then s'.Running? && s'.pc == ENDING_PC
       else ReturnsTo(a.size, s, s') && Delivered(values, s.fp + 2 + a.c.argsCount, s'.mem))
  }

  predicate Delivered(values: seq<F>, base: nat, mem: Memory) {
    forall i {:trigger values[i]} :: 0 <= i < |values| ==> Has(mem, base + i, values[i])
  }

  predicate Has(mem: Memory, address: nat, v: F) {
    address in mem && mem[address] == v
  }

  ghost predicate ArrivesAt(w: World, top: nat, l: Label, s: State, s': State)
    requires s.Running?
  {
    && l in w.L.pcs && s'.Running? && s'.pc == w.L.pcs[l] && s'.h == 0 && s'.fp == s.fp && s.ap <= s'.ap
    && Kept(s.fp, top, s.ap, s.mem, s'.mem)
  }

  /** Control and fp go back to what the header of the frame says; everything from the new ap on is still free. */
  ghost predicate ReturnsTo(top: nat, s: State, s': State)
    requires s.Running?
  {
    && s.fp in s.mem && s.fp + 1 in s.mem
    && s'.Running? && s'.pc == s.mem[s.fp] && s'.h == 0 && s'.fp == s.mem[s.fp + 1] && s.ap <= s'.ap < P
    && Kept(s.fp, top, s.ap, s.mem, s'.mem)
    && FreeFrom(s'.ap, s'.mem)
  }

  ghost predicate FreeFrom(ap: nat, mem: Memory) {
    forall address :: address in mem ==> address < ap
  }

  ghost predicate Moves(top: nat, s: State, s1: State) {
    s.Running? && s1.Running? && s1.fp == s.fp && s.ap <= s1.ap && Kept(s.fp, top, s.ap, s.mem, s1.mem)
  }

  lemma ReachesLater(w: World, a: Activation, slots: map<Var, nat>, slots1: map<Var, nat>, pos: nat, pos1: nat,
      next: Option<Label>, outcome: Outcome, fuel: nat,
                     cells: nat, cells1: nat, s: State, n1: nat, s1: State, n2: nat, s': State)
    requires Moves(a.size, s, s1) && s1 == Run(w.code, s, n1) && Taken(outcome, cells, s.ap, s1.ap + cells1)
    requires a.c.isMain || (s.fp in s.mem && s.fp + 1 in s.mem)
    requires Grown(slots, slots1) && pos1 <= pos
    requires Reaches(w, a, slots1, pos1, next, outcome, fuel, cells1, s1, n2, s')
    ensures Reaches(w, a, slots, pos, next, outcome, fuel, cells, s, n1 + n2, s')
  {
    RunAdd(w.code, s, n1, n2);
    if s'.Running? && Kept(s1.fp, a.size, s1.ap, s1.mem, s'.mem) {
      KeptTransitive(s.fp, a.size, s.ap, s1.ap, s.mem, s1.mem, s'.mem);
    }
    match outcome
    case Falls(env) =>
      if s'.Running? && Holding(a, slots1, pos1, env, s.fp, s'.ap, s'.mem) {
        HoldingLater(a, slots, pos1, slots1, pos, env, s.fp, s'.ap, s'.mem);
      }
    case Returns(values) =>
      if s' != Failed(OutOfMemory) && !a.c.isMain {
        assert ReturnsTo(a.size, s1, s');
        assert ReturnsTo(a.size, s, s');
      }
    case _ =>
  }

  lemma ReachesFailure(w: World, a: Activation, slots: map<Var, nat>, pos: nat, next: Option<Label>, outcome: Outcome,
      fuel: nat, cells: nat, s: State, n: nat)
    requires s.Running? && Run(w.code, s, n).Failed?
    requires outcome.Panics? || outcome.Undefined? || outcome.OutsideArms? || Exhausted(Run(w.code, s, n), s.ap + cells)
    ensures Reaches(w, a, slots, pos, next, outcome, fuel, cells, s, n, Run(w.code, s, n))
  {
  }

  lemma RunOne(code: seq<Entry>, s: State)
    ensures Run(code, s, 1) == Step(code, s)
  {
    assert Run(code, Step(code, s), 0) == Step(code, s);
  }

  // -- The conditional -----------------------------------------------------------------

  lemma GadgetArithmetic(c: F)
    ensures var product := FMul(c, FInv(c)); product == (if c == 0 then 0 else 1) && FMul(FSub(1, product), c) == 0
  {
  }

  /** One more temporary holds v, and the machine is ready for the rest of the block. */
  ghost predicate Stashed(w: World, a: Activation, slots: map<Var, nat>, pos: nat, env: Env, v: F, rest: seq<Instr>,
      s: State, s1: State)
    requires s.Running?
  {
    && At(w.code, w.L, rest, s1) && s1.fp == s.fp && s1.ap == s.ap && s1.mem == s.mem[s.fp + pos := v]
    && Holding(a, slots, pos + 1, env, s.fp, s1.ap, s1.mem) && Kept(s.fp, a.size, s.ap, s.mem, s1.mem)
  }

  lemma StashComputation(w: World, a: Activation, slots: map<Var, nat>, pos: nat, l: Local, op: Operation, x: Value,
      y: Value, res: Value, v: F, rest: seq<Instr>, s: State)
    requires At(w.code, w.L, [Instr.Computation(op, x, y, res)] + rest, s)
    requires Plain(x) && Plain(y) && Plain(res)
    requires Fits(a, slots, pos, l.scope) && pos < a.size && Holding(a, slots, pos, l.env, s.fp, s.ap, s.mem)
    requires Solve(op, x, y, res, w.L, s.mem, s.fp) == Set(s.mem, s.fp + pos, v)
    ensures Exhausted(Step(w.code, s), s.ap) || Stashed(w, a, slots, pos, l.env, v, rest, s, Step(w.code, s))
  {
    hide Fits, Placed, Holding, Kept, Solve;
    TemporaryCell(a, slots, pos, l, v, s.fp, s.ap, s.mem);
    StepComputation(w.code, w.L, op, x, y, res, rest, s);
  }

  lemma StashInverse(w: World, a: Activation, slots: map<Var, nat>, pos: nat, l: Local, x: Value, rest: seq<Instr>,
      s: State)
    requires At(w.code, w.L, [Instr.Inverse(x, pos)] + rest, s)
    requires Plain(x) && ReadValue(x, w.L, s.mem, s.fp).Some?
    requires Fits(a, slots, pos, l.scope) && pos < a.size && Holding(a, slots, pos, l.env, s.fp, s.ap, s.mem)
    ensures Exhausted(Step(w.code, s), s.ap) ||
            Stashed(w, a, slots, pos, l.env, FInv(ReadValue(x, w.L, s.mem, s.fp).value), rest, s, Step(w.code, s))
  {
    hide Fits, Placed, Holding, Kept, FInv;
    TemporaryCell(a, slots, pos, l, FInv(ReadValue(x, w.L, s.mem, s.fp).value), s.fp, s.ap, s.mem);
    StepInverse(w.code, w.L, x, pos, rest, s);
  }

  lemma VacantOffset(a: Activation, slots: map<Var, nat>, pos: nat, env: Env, fp: nat, ap: nat, mem: Memory, o: nat)
    requires Holding(a, slots, pos, env, fp, ap, mem) && pos <= o < a.size
    ensures fp + o !in mem
  {
    assert Vacant(a, pos, fp, ap, fp + o);
  }

  /** After one step: out of memory, or at `rest` with v in the temporary at pos and everything else as before. */
  ghost predicate Advanced(w: World, a: Activation, slots: map<Var, nat>, pos: nat, env: Env, v: F, rest: seq<Instr>,
      s: State, s': State)
    requires s.Running?
  {
    Exhausted(s', s.ap) ||
    (At(w.code, w.L, rest, s') && Moves(a.size, s, s') && s'.ap == s.ap
        && Holding(a, slots, pos + 1, env, s'.fp, s'.ap, s'.mem)
     && s'.mem == s.mem[s.fp + pos := v])
  }

  lemma InverseStep(w: World, a: Activation, s: State, scopes: Scopes, pos: nat, l: Local, condition: Operand,
      rest: seq<Instr>)
    requires At(w.code, w.L, [Instr.Inverse(ValueOf(condition, scopes), pos)] + rest, s)
    requires Fits(a, Slots(scopes), pos, l.scope) && pos < a.size
        && Holding(a, Slots(scopes), pos, l.env, s.fp, s.ap, s.mem)
    requires Lookup(condition, l.scope, l.env).Some?
    ensures Advanced(w, a, Slots(scopes), pos, l.env, FInv(Lookup(condition, l.scope, l.env).value), rest, s,
        Step(w.code, s))
  {
    hide Fits, Placed, Holding, FInv;
    ValueReads(a, scopes, pos, l, condition, w.L, s.fp, s.ap, s.mem);
    StashInverse(w, a, Slots(scopes), pos, l, ValueOf(condition, scopes), rest, s);
  }

  lemma ProductStep(w: World, a: Activation, s: State, scopes: Scopes, pos: nat, l: Local, condition: Operand,
      inverse: F, rest: seq<Instr>)
    requires At(w.code, w.L, [Instr.Computation(Mul, ValueOf(condition, scopes), Mem(pos), Mem(pos + 1))] + rest, s)
    requires Fits(a, Slots(scopes), pos, l.scope) && pos + 1 < a.size
        && Holding(a, Slots(scopes), pos + 1, l.env, s.fp, s.ap, s.mem)
    requires Lookup(condition, l.scope, l.env).Some? && ReadValue(Mem(pos), w.L, s.mem, s.fp) == Some(inverse)
    ensures Advanced(w, a, Slots(scopes), pos + 1, l.env,
        Compute(Mul, Lookup(condition, l.scope, l.env).value, inverse), rest, s, Step(w.code, s))
  {
    hide Fits, Placed, Holding, Step, FMul, FAdd, FNeg, FInv, Slots;
    HoldingBounds(a, Slots(scopes), pos + 1, l.env, s.fp, s.ap, s.mem);
    FitsLater(a, Slots(scopes), pos, pos + 1, l.scope);
    ValueReads(a, scopes, pos + 1, l, condition, w.L, s.fp, s.ap, s.mem);
    VacantOffset(a, Slots(scopes), pos + 1, l.env, s.fp, s.ap, s.mem, pos + 1);
    StashComputation(w, a, Slots(scopes), pos + 1, l, Mul, ValueOf(condition, scopes), Mem(pos), Mem(pos + 1),
                     Compute(Mul, Lookup(condition, l.scope, l.env).value, inverse), rest, s);
  }

  lemma ComplementStep(w: World, a: Activation, s: State, slots: map<Var, nat>, pos: nat, l: Local, product: F,
      rest: seq<Instr>)
    requires At(w.code, w.L, [Instr.Computation(Add, Mem(pos + 2), Mem(pos + 1), Const(Scalar(1)))] + rest, s)
    requires Fits(a, slots, pos, l.scope) && pos + 2 < a.size && Holding(a, slots, pos + 2, l.env, s.fp, s.ap, s.mem)
    requires ReadValue(Mem(pos + 1), w.L, s.mem, s.fp) == Some(product)
    ensures Advanced(w, a, slots, pos + 2, l.env, FSub(1, product), rest, s, Step(w.code, s))
  {
    hide Fits, Placed, Holding, Step, FMul, FAdd, FNeg, FInv;
    HoldingBounds(a, slots, pos + 2, l.env, s.fp, s.ap, s.mem);
    FitsLater(a, slots, pos, pos + 2, l.scope);
    VacantOffset(a, slots, pos + 2, l.env, s.fp, s.ap, s.mem, pos + 2);
    StashComputation(w, a, slots, pos + 2, l, Add, Mem(pos + 2), Mem(pos + 1), Const(Scalar(1)), FSub(1, product),
        rest, s);
  }

  /** The check c * (1 - product) == 0 passes and the two jumps choose the branch. */
  lemma CheckAndBranch(w: World, a: Activation, s: State, scopes: Scopes, pos: nat, l: Local, condition: Operand,
      id: nat) returns (n: nat)
    requires At(w.code, w.L, [Instr.Computation(Mul, Mem(pos + 2), ValueOf(condition, scopes), Const(Scalar(0)))] +
               ([JumpIfNotZero(Mem(pos + 1), LabelValue(If(id)), None)] + [Instr.Jump(LabelValue(Else(id)), None)]), s)
    requires BlocksLinked(w) && If(id) in w.blocks && Else(id) in w.blocks
    requires Fits(a, Slots(scopes), pos, l.scope) && pos + 3 <= a.size
        && Holding(a, Slots(scopes), pos + 3, l.env, s.fp, s.ap, s.mem)
    requires Lookup(condition, l.scope, l.env).Some?
    requires var c := Lookup(condition, l.scope, l.env).value; var product := if c == 0 then 0 else 1;
             ReadValue(Mem(pos + 1), w.L, s.mem, s.fp) == Some(product)
                 && ReadValue(Mem(pos + 2), w.L, s.mem, s.fp) == Some(FSub(1, product))
    ensures Run(w.code, s, n)
        == Running(w.L.pcs[if Lookup(condition, l.scope, l.env).value == 0 then Else(id) else If(id)], 0, s.fp, s.ap,
        s.mem)
  {
    var c := Lookup(condition, l.scope, l.env).value;
    var jumps := [JumpIfNotZero(Mem(pos + 1), LabelValue(If(id)), None)] + [Instr.Jump(LabelValue(Else(id)), None)];
    FitsLater(a, Slots(scopes), pos, pos + 3, l.scope);
    ValueReads(a, scopes, pos + 3, l, condition, w.L, s.fp, s.ap, s.mem);
    GadgetArithmetic(c);
    StepComputation(w.code, w.L, Mul, Mem(pos + 2), ValueOf(condition, scopes), Const(Scalar(0)), jumps, s);
    var s1 := Step(w.code, s);
    RunOne(w.code, s);
    n := TakeBranch(w, s1, pos, id, if c == 0 then 0 else 1);
    RunAdd(w.code, s, 1, n);
    n := 1 + n;
  }

  lemma TakeBranch(w: World, s: State, pos: nat, id: nat, product: F) returns (n: nat)
    requires At(w.code, w.L, [JumpIfNotZero(Mem(pos + 1), LabelValue(If(id)), None)]
        + [Instr.Jump(LabelValue(Else(id)), None)], s)
    requires BlocksLinked(w) && If(id) in w.blocks && Else(id) in w.blocks && s.fp < P && pos + 1 < P
    requires product <= 1 && ReadValue(Mem(pos + 1), w.L, s.mem, s.fp) == Some(product)
    ensures Run(w.code, s, n) == Running(w.L.pcs[if product == 0 then Else(id) else If(id)], 0, s.fp, s.ap, s.mem)
  {
    hide Placed, Step, Run, Fits, Holding, FMul, FAdd, FNeg, FInv;
    StepJumpIfNotZero(w.code, w.L, Mem(pos + 1), LabelValue(If(id)), [Instr.Jump(LabelValue(Else(id)), None)], s);
    RunOne(w.code, s);
    n := 1;
    if product == 0 {
      var s1 := Step(w.code, s);
      assert [Instr.Jump(LabelValue(Else(id)), None)] == [Instr.Jump(LabelValue(Else(id)), None)] + [];
      StepJump(w.code, w.L, LabelValue(Else(id)), None, [], s1);
      RunOne(w.code, s1);
      RunAdd(w.code, s, 1, 1);
      n := 2;
    }
  }

  lemma MovesTransitive(top: nat, s: State, s1: State, s2: State)
    requires Moves(top, s, s1) && Moves(top, s1, s2)
    ensures Moves(top, s, s2)
  {
    KeptTransitive(s.fp, top, s.ap, s1.ap, s.mem, s1.mem, s2.mem);
  }

  /** The inverse hint and its checks send control to the branch the condition asks for. */
  lemma GadgetBranches(w: World, a: Activation, s: State, scopes: Scopes, pos: nat, l: Local, condition: Operand,
      id: nat) returns (n: nat, s': State)
    requires At(w.code, w.L, Gadget(ValueOf(condition, scopes), pos, id), s)
    requires BlocksLinked(w) && If(id) in w.blocks && Else(id) in w.blocks
    requires Fits(a, Slots(scopes), pos, l.scope) && pos + 3 <= a.size
        && Holding(a, Slots(scopes), pos, l.env, s.fp, s.ap, s.mem)
    requires Lookup(condition, l.scope, l.env).Some?
    ensures s' == Run(w.code, s, n)
    ensures Exhausted(s', s.ap) ||
            (Moves(a.size, s, s') && s'.ap == s.ap
                && s'.pc == w.L.pcs[if Lookup(condition, l.scope, l.env).value == 0 then Else(id) else If(id)]
                && s'.h == 0
             && Holding(a, Slots(scopes), pos + 3, l.env, s'.fp, s'.ap, s'.mem))
  {
    hide Fits, Holding, BlocksLinked, Placed, Kept, FInv;
    var v := ValueOf(condition, scopes);
    var c := Lookup(condition, l.scope, l.env).value;
    var i3 := [Instr.Computation(Mul, Mem(pos + 2), v, Const(Scalar(0)))]
        + ([JumpIfNotZero(Mem(pos + 1), LabelValue(If(id)), None)] + [Instr.Jump(LabelValue(Else(id)), None)]);
    var i2 := [Instr.Computation(Add, Mem(pos + 2), Mem(pos + 1), Const(Scalar(1)))] + i3;
    var i1 := [Instr.Computation(Mul, v, Mem(pos), Mem(pos + 1))] + i2;
    assert Gadget(v, pos, id) == [Instr.Inverse(v, pos)] + i1;
    InverseStep(w, a, s, scopes, pos, l, condition, i1);
    var s1 := Step(w.code, s);
    RunOne(w.code, s);
    n, s' := 1, s1;
    if s1.Running? {
      ProductStep(w, a, s1, scopes, pos, l, condition, FInv(c), i2);
      var s2 := Step(w.code, s1);
      RunOne(w.code, s1);
      RunAdd(w.code, s, 1, 1);
      n, s' := 2, s2;
      if s2.Running? {
        GadgetArithmetic(c);
        var m;
        MovesTransitive(a.size, s, s1, s2);
        m, s' := GadgetFinishes(w, a, s2, scopes, pos, l, condition, id, i3);
        RunAdd(w.code, s, 2, m);
        n := 2 + m;
        if s'.Running? { MovesTransitive(a.size, s, s2, s'); }
      }
    }
  }

  lemma GadgetFinishes(w: World, a: Activation, s: State, scopes: Scopes, pos: nat, l: Local, condition: Operand,
      id: nat, i3: seq<Instr>) returns (n: nat, s': State)
    requires i3 == [Instr.Computation(Mul, Mem(pos + 2), ValueOf(condition, scopes), Const(Scalar(0)))]
        + ([JumpIfNotZero(Mem(pos + 1), LabelValue(If(id)), None)] + [Instr.Jump(LabelValue(Else(id)), None)])
    requires At(w.code, w.L, [Instr.Computation(Add, Mem(pos + 2), Mem(pos + 1), Const(Scalar(1)))] + i3, s)
    requires BlocksLinked(w) && If(id) in w.blocks && Else(id) in w.blocks
    requires Fits(a, Slots(scopes), pos, l.scope) && pos + 3 <= a.size
        && Holding(a, Slots(scopes), pos + 2, l.env, s.fp, s.ap, s.mem)
    requires Lookup(condition, l.scope, l.env).Some?
    requires ReadValue(Mem(pos + 1), w.L, s.mem, s.fp)
        == Some(if Lookup(condition, l.scope, l.env).value == 0 then 0 else 1)
    ensures s' == Run(w.code, s, n)
    ensures Exhausted(s', s.ap) ||
            (Moves(a.size, s, s') && s'.ap == s.ap
                && s'.pc == w.L.pcs[if Lookup(condition, l.scope, l.env).value == 0 then Else(id) else If(id)]
                && s'.h == 0
             && Holding(a, Slots(scopes), pos + 3, l.env, s'.fp, s'.ap, s'.mem))
  {
    hide Fits, Placed, Holding, BlocksLinked;
    var product: F := if Lookup(condition, l.scope, l.env).value == 0 then 0 else 1;
    ComplementStep(w, a, s, Slots(scopes), pos, l, product, i3);
    var s1 := Step(w.code, s);
    RunOne(w.code, s);
    n, s' := 1, s1;
    if s1.Running? {
      ReadKept(Mem(pos + 1), w.L, s.fp, s.fp, a.size, s.ap, s.mem, s1.mem);
      var m := CheckAndBranch(w, a, s1, scopes, pos, l, condition, id);
      RunAdd(w.code, s, 1, m);
      n, s' := 1 + m, Run(w.code, s1, m);
    }
  }

  // -- One line at a time -----------------------------------------------------------------

  /** A returned variable that is coalesced is returned in its own slot, and every other value goes to a free slot. */
  predicate ReturnOk(c: Context, homes: map<Var, nat>, free: set<nat>, data: seq<Operand>) {
    forall i {:trigger data[i]} :: 0 <= i < |data| ==>
      if data[i].Variable? && data[i].name in homes then homes[data[i].name] == 2 + c.argsCount + i
      else 2 + c.argsCount + i in free
  }

  predicate ReturnsOk(c: Context, homes: map<Var, nat>, free: set<nat>, block: Block) {
    match block
    case Done => true
    case Then(line, rest) =>
      ReturnsOk(c, homes, free, rest) &&
      match line
      case FunctionRet(data) => c.isMain || ReturnOk(c, homes, free, data)
      case IfNotZero(_, x, y) => ReturnsOk(c, homes, free, x) && ReturnsOk(c, homes, free, y)
      case Match(_, arms, _) => ArmsOk(c, homes, free, arms)
      case _ => true
  }

  predicate ArmsOk(c: Context, homes: map<Var, nat>, free: set<nat>, arms: Arms) {
    arms.NoArms? || (ReturnsOk(c, homes, free, arms.body) && ArmsOk(c, homes, free, arms.others))
  }

  /** The machine stands at the code of the block, and the frame holds the values of l. */
  ghost predicate Ready(w: World, a: Activation, block: Block, st: CState, next: Option<Label>, l: Local, s: State) {
    var r := Compile(a.c, block, st, next);
    && Tidy(st) && 2 <= st.stackPos && StoredIn(w, r.1) && r.1.stackPos <= a.size
    && (next.Some? ==> next.value in w.blocks)
    && ReturnsOk(a.c, a.homes, a.free, block)
    && Fits(a, Slots(st.scopes), st.stackPos, l.scope)
    && At(w.code, w.L, r.0, s) && Holding(a, Slots(st.scopes), st.stackPos, l.env, s.fp, s.ap, s.mem)
  }

  /**
   * After the line, which took `cells` cells for new frames, the machine is ready for the rest of the block.
   */
  ghost predicate Onward(w: World, a: Activation, block: Block, st: CState, next: Option<Label>, cells: nat, s: State,
      st1: CState, l1: Local, s1: State)
    requires block.Then? && s.Running?
  {
    Exhausted(s1, s.ap + cells) ||
    (Moves(a.size, s, s1) && s1.ap == s.ap + cells && Grown(Slots(st.scopes), Slots(st1.scopes))
        && Ready(w, a, block.rest, st1, next, l1, s1)
     && Compile(a.c, block.rest, st1, next).1.stackPos <= Compile(a.c, block, st, next).1.stackPos)
  }

  lemma DeclareOnward(w: World, a: Activation, block: Block, st: CState, next: Option<Label>, l: Local, s: State)
    requires Ready(w, a, block, st, next, l, s) && block.Then? && block.line.ForwardDeclaration?
    requires block.line.x !in a.c.dead && block.line.x !in l.scope && block.line.x !in l.env
    ensures var x := block.line.x;
            Onward(w, a, block, st, next, 0, s, if x in a.c.coalesced then st else Declare(st, x),
                l.(scope := l.scope + {x}), s)
  {
    hide Fits, Holding, Placed, StoredIn;
    var x, slots := block.line.x, Slots(st.scopes);
    if x in a.c.coalesced {
      CoalescedFits(a, slots, st.stackPos, x, l.scope);
    } else {
      CompileKeepsScopes(a.c, block.rest, Declare(st, x), next);
      SlotsOfDeclare(st, x);
      NotVisible(a, slots, st.stackPos, l.scope, x);
      DeclareHolds(a, slots, st.stackPos, x, l.env, s.fp, s.ap, s.mem);
      DeclareFits(a, slots, st.stackPos, x, l.scope);
      assert l.env - {x} == l.env;
    }
  }

  lemma AllocateOnward(w: World, a: Activation, block: Block, st: CState, next: Option<Label>, l: Local, s: State)
    requires Ready(w, a, block, st, next, l, s) && block.Then? && block.line.ConstMalloc?
    requires CellsOf(block.line.id, block.line.size) !! l.scope + l.env.Keys
    ensures var ConstMalloc(id, size) := block.line;
            Onward(w, a, block, st, next, 0, s, Allocate(st, id, size), l.(scope := l.scope + CellsOf(id, size)), s)
  {
    hide Fits, Holding, Placed, StoredIn;
    var ConstMalloc(id, size) := block.line;
    CompileKeepsScopes(a.c, block.rest, Allocate(st, id, size), next);
    ArrayCells(a, st, id, size, l, s.fp, s.ap, s.mem);
  }

  lemma NotVisible(a: Activation, slots: map<Var, nat>, pos: nat, scope: set<Var>, x: Var)
    requires Fits(a, slots, pos, scope) && x !in scope && x !in a.c.coalesced
    ensures x !in slots
  {
    assert x !in slots.Keys;
  }

  lemma AssignOnward(w: World, a: Activation, block: Block, st: CState, next: Option<Label>, l: Local, s: State)
    requires Ready(w, a, block, st, next, l, s) && block.Then? && block.line.Assignment?
    requires !(block.line.target.Variable? && block.line.target.name in a.c.dead)
    requires Assign(l, block.line.target, block.line.op, block.line.arg0, block.line.arg1, a.c.dead) != Stops(Undefined)
    ensures var r := Assign(l, block.line.target, block.line.op, block.line.arg0, block.line.arg1, a.c.dead);
            match r
            case Stops(outcome) => outcome.Panics? && Step(w.code, s).Failed?
            case Continues(l1) => Onward(w, a, block, st, next, 0, s, RegisterIfNeeded(st, block.line.target), l1,
                Step(w.code, s))
  {
    hide Fits, Holding, Placed, StoredIn, Kept, Assign, Solve;
    var Assignment(target, op, x, y) := block.line;
    var st1 := RegisterIfNeeded(st, target);
    CompileKeepsScopes(a.c, block.rest, st1, next);
    AssignFollows(a, st, l, target, op, x, y, w.L, s.fp, s.ap, s.mem);
    var i := Equation(op, ValueOf(x, st1.scopes), ValueOf(y, st1.scopes), ValueOf(target, st1.scopes));
    StepComputation(w.code, w.L, i.op, i.a, i.b, i.res, Compile(a.c, block.rest, st1, next).0, s);
  }

  lemma EquateOnward(w: World, a: Activation, block: Block, st: CState, next: Option<Label>, l: Local, s: State)
    requires Ready(w, a, block, st, next, l, s) && block.Then? && block.line.AssertEq?
    requires Equate(l, block.line.left, block.line.right, a.c.dead) != Stops(Undefined)
    ensures var r := Equate(l, block.line.left, block.line.right, a.c.dead);
            match r
            case Stops(outcome) => outcome.Panics? && Step(w.code, s).Failed?
            case Continues(l1) => Onward(w, a, block, st, next, 0, s,
                RegisterIfNeeded(RegisterIfNeeded(st, block.line.left), block.line.right), l1, Step(w.code, s))
  {
    hide Fits, Holding, Placed, StoredIn, Kept, Equate, Solve;
    var AssertEq(left, right) := block.line;
    var st1 := RegisterIfNeeded(RegisterIfNeeded(st, left), right);
    CompileKeepsScopes(a.c, block.rest, st1, next);
    EquateFollows(a, st, l, left, right, w.L, s.fp, s.ap, s.mem);
    var i := Equality(ValueOf(left, st1.scopes), ValueOf(right, st1.scopes));
    StepComputation(w.code, w.L, i.op, i.a, i.b, i.res, Compile(a.c, block.rest, st1, next).0, s);
  }

  // -- Conditionals -------------------------------------------------------------------------

  function ThenPart(c: Context, block: Block, st: CState): (seq<Instr>, CState)
    requires block.Then? && block.line.IfNotZero?
  {
    Compile(c, block.line.thenBranch, EnterThen(st), Some(IfElseEnd(st.ifCounter)))
  }

  function ElsePart(c: Context, block: Block, st: CState): (seq<Instr>, CState)
    requires block.Then? && block.line.IfNotZero?
  {
    Compile(c, block.line.elseBranch, EnterElse(st, ThenPart(c, block, st).1), Some(IfElseEnd(st.ifCounter)))
  }

  function IfDone(c: Context, block: Block, st: CState): CState
    requires block.Then? && block.line.IfNotZero?
  {
    var t, e := ThenPart(c, block, st), ElsePart(c, block, st);
    AfterIf(st.ifCounter, t.0, t.1, e.0, e.1)
  }

  function Branch(block: Block, taken: bool): Block
    requires block.Then? && block.line.IfNotZero?
  {
    if taken then block.line.thenBranch else block.line.elseBranch
  }

  function BranchStart(c: Context, block: Block, st: CState, taken: bool): CState
    requires block.Then? && block.line.IfNotZero?
  {
    if taken then EnterThen(st) else EnterElse(st, ThenPart(c, block, st).1)
  }

  function BranchPart(c: Context, block: Block, st: CState, taken: bool): (seq<Instr>, CState)
    requires block.Then? && block.line.IfNotZero?
  {
    if taken then ThenPart(c, block, st) else ElsePart(c, block, st)
  }

  lemma IfOffsets(c: Context, block: Block, st: CState, next: Option<Label>, taken: bool)
    requires block.Then? && block.line.IfNotZero?
    ensures var start, part, after := BranchStart(c, block, st, taken), BranchPart(c, block, st, taken),
        IfDone(c, block, st);
            && start.scopes == Push(st.scopes) && start.stackPos == st.stackPos + 3 && after.scopes == st.scopes
            && st.stackPos + 3 <= part.1.stackPos <= after.stackPos <= Compile(c, block, st, next).1.stackPos
            && Compile(c, block.rest, after, next).1.stackPos == Compile(c, block, st, next).1.stackPos
            && part == Compile(c, Branch(block, taken), start, Some(IfElseEnd(st.ifCounter)))
  {
    IfKeepsScopes(c, block, st, next);
  }

  lemma IfCode(w: World, c: Context, block: Block, st: CState, next: Option<Label>, taken: bool)
    requires block.Then? && block.line.IfNotZero? && Tidy(st) && StoredIn(w, Compile(c, block, st, next).1)
    ensures var id, part, after := st.ifCounter, BranchPart(c, block, st, taken), IfDone(c, block, st);
            var r, entry := Compile(c, block.rest, after, next), if taken then If(id) else Else(id);
            && Tidy(BranchStart(c, block, st, taken)) && Tidy(after) && StoredIn(w, part.1) && StoredIn(w, r.1)
            && entry in w.blocks && w.blocks[entry] == part.0
            && IfElseEnd(id) in w.blocks && w.blocks[IfElseEnd(id)] == r.0
  {
    IfExtends(c, block, st, next);
    var done := Compile(c, block, st, next).1;
    ContainedIsStored(w, BranchPart(c, block, st, taken).1, done);
    ContainedIsStored(w, Compile(c, block.rest, IfDone(c, block, st), next).1, done);
  }

  lemma BlockAt(w: World, l: Label, s: State)
    requires BlocksLinked(w) && l in w.blocks && s.Running? && s.pc == w.L.pcs[l] && s.h == 0
    ensures At(w.code, w.L, w.blocks[l], s)
  {
  }

  /** The gadget leads to the code of the branch that the condition selects. */
  lemma IfEnters(w: World, a: Activation, block: Block, st: CState, next: Option<Label>, l: Local, s: State)
    returns (n: nat, s1: State)
    requires BlocksLinked(w) && Ready(w, a, block, st, next, l, s) && block.Then? && block.line.IfNotZero?
    requires Lookup(block.line.condition, l.scope, l.env).Some?
    ensures var taken := Lookup(block.line.condition, l.scope, l.env).value != 0;
            s1 == Run(w.code, s, n) &&
            (Exhausted(s1, s.ap) ||
             (Moves(a.size, s, s1) && s1.ap == s.ap
                 && Ready(w, a, Branch(block, taken), BranchStart(a.c, block, st, taken), Some(IfElseEnd(st.ifCounter)),
                 l, s1)))
  {
    hide Fits, Holding, Placed, StoredIn, Kept, BlocksLinked, Tidy, AfterIf, EnterThen, EnterElse;
    var taken := Lookup(block.line.condition, l.scope, l.env).value != 0;
    IfOffsets(a.c, block, st, next, true);
    IfOffsets(a.c, block, st, next, false);
    IfCode(w, a.c, block, st, next, true);
    IfCode(w, a.c, block, st, next, false);
    n, s1 := GadgetBranches(w, a, s, st.scopes, st.stackPos, l, block.line.condition, st.ifCounter);
    if s1.Running? {
      BlockAt(w, if taken then If(st.ifCounter) else Else(st.ifCounter), s1);
      SlotsOfPush(st.scopes);
      FitsLater(a, Slots(st.scopes), st.stackPos, st.stackPos + 3, l.scope);
    }
  }

  /** A branch that ends brings the machine to the code after the conditional, with the scopes it had before. */
  lemma IfLeaves(w: World, a: Activation, block: Block, st: CState, next: Option<Label>, l: Local, s: State,
      taken: bool, env: Env, s1: State, s2: State)
    requires BlocksLinked(w) && Ready(w, a, block, st, next, l, s) && block.Then? && block.line.IfNotZero?
    requires s1.Running? && ArrivesAt(w, a.size, IfElseEnd(st.ifCounter), s1, s2)
    requires Holding(a, Slots(BranchStart(a.c, block, st, taken).scopes), BranchPart(a.c, block, st, taken).1.stackPos,
        env, s2.fp, s2.ap, s2.mem)
    ensures Ready(w, a, block.rest, IfDone(a.c, block, st), next, l.(env := env), s2)
  {
    hide Fits, Holding, Placed, StoredIn, Kept, BlocksLinked, Tidy, AfterIf, EnterThen, EnterElse;
    IfOffsets(a.c, block, st, next, taken);
    IfCode(w, a.c, block, st, next, taken);
    BlockAt(w, IfElseEnd(st.ifCounter), s2);
    SlotsOfPush(st.scopes);
    var slots, after := Slots(st.scopes), IfDone(a.c, block, st);
    GrownReflexive(slots);
    HoldingLater(a, slots, BranchPart(a.c, block, st, taken).1.stackPos, slots, after.stackPos, env, s2.fp, s2.ap,
        s2.mem);
    FitsLater(a, slots, st.stackPos, after.stackPos, l.scope);
  }

  lemma GrownReflexive(slots: map<Var, nat>)
    ensures Grown(slots, slots)
  {
  }
}
