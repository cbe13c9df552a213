/** What the two passes together establish: the laid-out code of a compiled program is linked. */
module Linking {
  import opened Wrappers
  import opened KoalaBear
  import opened Machine
  import opened Ir
  import opened SimpleLang
  import opened Occurrences
  import opened CompilerSpec
  import opened CompilerInvariants
  import opened Simulation
  import opened CallSimulation
  import opened ReturnSlots
  import opened Assembly

  // -- Every block ends in a real instruction -------------------------------------------------

  /** Every match has at least one arm. */
  predicate HasArms(block: Block) {
    match block
    case Done => true
    case Then(line, rest) =>
      HasArms(rest) &&
      match line
      case IfNotZero(_, a, b) => HasArms(a) && HasArms(b)
      case Match(_, arms, _) => arms.Arm? && AllHaveArms(arms)
      case _ => true
  }

  predicate AllHaveArms(arms: Arms) {
    arms.NoArms? || (HasArms(arms.body) && AllHaveArms(arms.others))
  }

  /** Every match at any depth has an arm. */
  lemma {:induction false} HasArmsExactly(block: Block)
    ensures HasArms(block) <==>
      forall value, arms, offset :: Occurs(Match(value, arms, offset), block) ==> arms.Arm?
  {
    if block.Then? {
      HasArmsExactly(block.rest);
      match block.line {
        case IfNotZero(_, a, b) =>
          HasArmsExactly(a);
          HasArmsExactly(b);
        case Match(_, arms, _) => AllHaveArmsExactly(arms);
        case _ =>
      }
      assert block.line.Match? ==> Occurs(Match(block.line.value, block.line.arms, block.line.offset), block);
      forall value, arms, offset | Occurs(Match(value, arms, offset), block)
        ensures Match(value, arms, offset) == block.line || OccursInside(Match(value, arms, offset), block.line)
            || Occurs(Match(value, arms, offset), block.rest)
      {
      }
    }
  }

  lemma {:induction false} AllHaveArmsExactly(arms: Arms)
    ensures AllHaveArms(arms) <==>
      forall value, inner, offset :: OccursInArms(Match(value, inner, offset), arms) ==> inner.Arm?
  {
    if arms.Arm? {
      HasArmsExactly(arms.body);
      AllHaveArmsExactly(arms.others);
    }
  }

  predicate BlocksEndReal(blocks: seq<seq<Instr>>) {
    forall k {:trigger blocks[k]} :: 0 <= k < |blocks| ==> EndsReal(blocks[k])
  }

  /** No stored block or arm ends in a hint, and no stored match is empty. */
  ghost predicate CodeOk(bytecode: map<Label, seq<Instr>>, matchBlocks: seq<seq<seq<Instr>>>) {
    && (forall l {:trigger bytecode[l]} :: l in bytecode ==> EndsReal(bytecode[l]))
    && (forall m {:trigger matchBlocks[m]} :: 0 <= m < |matchBlocks| ==>
        matchBlocks[m] != [] && BlocksEndReal(matchBlocks[m]))
  }

  ghost predicate StateOk(st: CState) { CodeOk(st.bytecode, st.matchBlocks) }

  lemma AppendEndsReal(xs: seq<Instr>, ys: seq<Instr>)
    requires EndsReal(xs) && EndsReal(ys)
    ensures EndsReal(xs + ys)
  {
    if ys == [] { assert xs + ys == xs; } else { assert (xs + ys)[|xs + ys| - 1] == ys[|ys| - 1]; }
  }

  lemma StoreOk(bytecode: map<Label, seq<Instr>>, matchBlocks: seq<seq<seq<Instr>>>, l: Label, code: seq<Instr>)
    requires CodeOk(bytecode, matchBlocks) && EndsReal(code)
    ensures CodeOk(bytecode[l := code], matchBlocks)
  {
    var more := bytecode[l := code];
    forall k {:trigger more[k]} | k in more ensures EndsReal(more[k]) {
      if k != l { assert bytecode[k] == more[k]; }
    }
  }

  lemma StoreMatchOk(bytecode: map<Label, seq<Instr>>, matchBlocks: seq<seq<seq<Instr>>>, cases: seq<seq<Instr>>)
    requires CodeOk(bytecode, matchBlocks) && cases != [] && BlocksEndReal(cases)
    ensures CodeOk(bytecode, matchBlocks + [cases])
  {
  }

  lemma {:induction false} CopiesEndReal(args: seq<Operand>, results: seq<Var>, c: Context, i: nat, pos: nat,
      nArgs: nat, s: Scopes)
    ensures i <= |args| ==> EndsReal(CopyArguments(args, i, pos, s)) && EndsReal(StoreReturns(c, args, i, s))
    ensures i <= |results| ==> EndsReal(CopyResults(results, i, pos, nArgs, s))
    decreases if |args| + |results| >= i then |args| + |results| - i else 0
  {
    if i < |args| || i < |results| {
      CopiesEndReal(args, results, c, i + 1, pos, nArgs, s);
    }
    if i < |args| {
      AppendEndsReal([Instr.Deref(pos, 2 + i, ValueOf(args[i], s))], CopyArguments(args, i + 1, pos, s));
      AppendEndsReal([Equality(Mem(2 + c.argsCount + i), ValueOf(args[i], s))], StoreReturns(c, args, i + 1, s));
    }
    if i < |results| {
      AppendEndsReal([Instr.Deref(pos, 2 + nArgs + i, ValueOf(Variable(results[i]), s))],
          CopyResults(results, i + 1, pos, nArgs, s));
    }
  }

  lemma ReturnEndsReal(c: Context, data: seq<Operand>, pos: nat, s: Scopes)
    ensures EndsReal(Return(c, data, pos, s))
  {
    if !c.isMain {
      CopiesEndReal(data, [], c, 0, pos, 0, s);
      AppendEndsReal(StoreReturns(c, data, 0, s), [Instr.Jump(Mem(0), Some(Mem(1)))]);
    }
  }

  lemma SetupEndsReal(callee: string, args: seq<Operand>, pos: nat, back: Label, s: Scopes)
    ensures EndsReal(CallSetup(callee, args, pos, back, s))
  {
    var setup := CallSetup(callee, args, pos, back, s);
    assert setup[|setup| - 1] == Instr.Jump(LabelValue(Label.Function(callee)), Some(Mem(pos)));
  }

  lemma {:induction false} CompileEndsReal(c: Context, block: Block, st: CState, next: Option<Label>)
    requires StateOk(st) && HasArms(block)
    ensures EndsReal(Compile(c, block, st, next).0) && StateOk(Compile(c, block, st, next).1)
    decreases block, 1
  {
    hide CodeOk, CopyArguments, CopyResults, StoreReturns, RegisterAll, Return, CallSetup;
    match block
    case Done =>
    case Then(line, rest) =>
      match line
      case ForwardDeclaration(x) =>
        CompileEndsReal(c, rest, if x in c.dead || x in c.coalesced then st else Declare(st, x), next);
      case ConstMalloc(id, size) => CompileEndsReal(c, rest, Allocate(st, id, size), next);
      case Assignment(target, op, a, b) =>
        if target.Variable? && target.name in c.dead {
          CompileEndsReal(c, rest, st, next);
        } else {
          var st1 := RegisterIfNeeded(st, target);
          CompileEndsReal(c, rest, st1, next);
          AppendEndsReal([Equation(op, ValueOf(a, st1.scopes), ValueOf(b, st1.scopes), ValueOf(target, st1.scopes))],
              Compile(c, rest, st1, next).0);
        }
      case AssertEq(left, right) =>
        var st1 := RegisterIfNeeded(RegisterIfNeeded(st, left), right);
        CompileEndsReal(c, rest, st1, next);
        AppendEndsReal([Equality(ValueOf(left, st1.scopes), ValueOf(right, st1.scopes))],
            Compile(c, rest, st1, next).0);
      case IfNotZero(_, _, _) => IfEndsReal(c, block, st, next);
      case Match(_, _, _) => MatchEndsReal(c, block, st, next);
      case FunctionCall(callee, args, results) =>
        var st0 := EnterCall(st);
        var st1 := RegisterAll(st0, results);
        RegisterAllQuiet(st0, results);
        CompileEndsReal(c, rest, st1, next);
        var r := Compile(c, rest, st1, next);
        CopiesEndReal([], results, c, 0, st.stackPos, |args|, st1.scopes);
        AppendEndsReal(CopyResults(results, 0, st.stackPos, |args|, st1.scopes), r.0);
        StoreOk(r.1.bytecode, r.1.matchBlocks, ReturnFromCall(st.callCounter),
            CopyResults(results, 0, st.stackPos, |args|, st1.scopes) + r.0);
        SetupEndsReal(callee, args, st.stackPos, ReturnFromCall(st.callCounter), st0.scopes);
      case FunctionRet(data) =>
        var st1 := if c.isMain then st.(stackPos := st.stackPos + 1) else st;
        CompileEndsReal(c, rest, st1, next);
        ReturnEndsReal(c, data, st.stackPos, st.scopes);
        AppendEndsReal(Return(c, data, st.stackPos, st.scopes), Compile(c, rest, st1, next).0);
      case Abort =>
        CompileEndsReal(c, rest, st, next);
        AppendEndsReal([Instr.Panic], Compile(c, rest, st, next).0);
        assert ([PanicHint] + ([Instr.Panic] + Compile(c, rest, st, next).0)) == [PanicHint, Instr.Panic]
            + Compile(c, rest, st, next).0;
        AppendEndsReal([PanicHint, Instr.Panic], Compile(c, rest, st, next).0);
  }

  lemma IfEndsReal(c: Context, block: Block, st: CState, next: Option<Label>)
    requires block.Then? && block.line.IfNotZero? && StateOk(st) && HasArms(block)
    ensures EndsReal(Compile(c, block, st, next).0) && StateOk(Compile(c, block, st, next).1)
    decreases block, 0
  {
    hide CodeOk;
    var IfNotZero(condition, thenBranch, elseBranch) := block.line;
    var id := st.ifCounter;
    CompileEndsReal(c, thenBranch, EnterThen(st), Some(IfElseEnd(id)));
    var t := Compile(c, thenBranch, EnterThen(st), Some(IfElseEnd(id)));
    CompileEndsReal(c, elseBranch, EnterElse(st, t.1), Some(IfElseEnd(id)));
    var e := Compile(c, elseBranch, EnterElse(st, t.1), Some(IfElseEnd(id)));
    StoreOk(e.1.bytecode, e.1.matchBlocks, If(id), t.0);
    StoreOk(e.1.bytecode[If(id) := t.0], e.1.matchBlocks, Else(id), e.0);
    CompileEndsReal(c, block.rest, AfterIf(id, t.0, t.1, e.0, e.1), next);
    var r := Compile(c, block.rest, AfterIf(id, t.0, t.1, e.0, e.1), next);
    StoreOk(r.1.bytecode, r.1.matchBlocks, IfElseEnd(id), r.0);
  }

  lemma MatchEndsReal(c: Context, block: Block, st: CState, next: Option<Label>)
    requires block.Then? && block.line.Match? && StateOk(st) && HasArms(block)
    ensures EndsReal(Compile(c, block, st, next).0) && StateOk(Compile(c, block, st, next).1)
    decreases block, 0
  {
    hide CodeOk;
    var id, st0, arms := st.matchCounter, EnterMatch(st), block.line.arms;
    ArmsEndReal(c, arms, st0, st0.stackPos, st0.stackPos, MatchEnd(id));
    ArmsKeepScopes(c, arms, st0, st0.stackPos, st0.stackPos, MatchEnd(id));
    var a := CompileArms(c, arms, st0, st0.stackPos, st0.stackPos, MatchEnd(id));
    StoreMatchOk(a.1.bytecode, a.1.matchBlocks, a.0);
    CompileEndsReal(c, block.rest, AfterArms(a.0, a.1), next);
    var r := Compile(c, block.rest, AfterArms(a.0, a.1), next);
    StoreOk(r.1.bytecode, r.1.matchBlocks, MatchEnd(id), r.0);
  }

  lemma {:induction false} ArmsEndReal(c: Context, arms: Arms, st: CState, saved: nat, deepest: nat, end: Label)
    requires StateOk(st) && AllHaveArms(arms)
    ensures BlocksEndReal(CompileArms(c, arms, st, saved, deepest, end).0)
        && StateOk(CompileArms(c, arms, st, saved, deepest, end).1)
    decreases arms, 1
  {
    if arms.Arm? {
      var inner := st.(stackPos := saved, scopes := Push(st.scopes));
      CompileEndsReal(c, arms.body, inner, Some(end));
      var r := Compile(c, arms.body, inner, Some(end));
      ArmsEndReal(c, arms.others, r.1.(scopes := Pop(r.1.scopes)), saved, Max(deepest, r.1.stackPos), end);
    }
  }

  // -- Several functions ----------------------------------------------------------------------

  const EMPTY: CState := CState(Outermost(map[]), 0, 0, 0, 0, 0, map[], [])

  /**
   * What the first pass asks of its input: distinct names, returns
   * with the promised number of values, matches with arms.
   */
  predicate Compilable(fs: seq<SimpleLang.Function>) {
    && (forall i, j {:trigger fs[i], fs[j]} :: 0 <= i < j < |fs| ==> fs[i].name != fs[j].name)
    && (forall f :: f in fs ==> ReturnsFit(f.body, f.nReturned))
    && (forall f :: f in fs ==> HasArms(f.body))
  }

  function ProgramOf(fs: seq<SimpleLang.Function>): Program {
    if fs == [] then map[] else ProgramOf(fs[..|fs| - 1])[fs[|fs| - 1].name := fs[|fs| - 1]]
  }

  /** The state in which each function is compiled. */
  function StartsOf(fs: seq<SimpleLang.Function>): map<string, CState>
    requires forall f :: f in fs ==> ReturnsFit(f.body, f.nReturned)
  {
    if fs == [] then map[] else StartsOf(fs[..|fs| - 1])[fs[|fs| - 1].name := CompileFunctions(fs[..|fs| - 1], EMPTY).0]
  }

  /** Labels of functions that are not compiled yet are not in use. */
  ghost predicate NamesIn(st: CState, fs: seq<SimpleLang.Function>) {
    EndProgram !in st.bytecode && forall l :: l in st.bytecode && l.Function? ==>
        exists f :: f in fs && f.name == l.name
  }

  lemma PrefixCompilable(fs: seq<SimpleLang.Function>)
    requires fs != [] && Compilable(fs)
    ensures Compilable(fs[..|fs| - 1])
    ensures forall g :: g in fs[..|fs| - 1] ==> g.name != fs[|fs| - 1].name
  {
    var init := fs[..|fs| - 1];
    forall g | g in init ensures g.name != fs[|fs| - 1].name {
      var i :| 0 <= i < |init| && init[i] == g;
      assert fs[i] == g;
    }
  }

  lemma NewFunctionContains(fs: seq<SimpleLang.Function>, st: CState, f: SimpleLang.Function)
    requires Tidy(st) && StateOk(st) && NamesIn(st, fs) && ReturnsFit(f.body, f.nReturned) && HasArms(f.body)
    requires forall g :: g in fs ==> g.name != f.name
    ensures var r := CompileFunction(f, st); var done := r.1.(bytecode := r.1.bytecode[Label.Function(f.name) := r.0]);
            Tidy(done) && StateOk(done) && NamesIn(done, fs + [f]) && Contains(st, done) && Contains(r.1, done)
  {
    var st0 := EnterFunction(f, st);
    TidyStart(f, st);
    CompileExtends(ContextOf(f), f.body, st0, None);
    CompileEndsReal(ContextOf(f), f.body, st0, None);
    var r := CompileFunction(f, st);
    TidyExtends(st0, r.1);
    StoreOk(r.1.bytecode, r.1.matchBlocks, Label.Function(f.name), r.0);
    var done := r.1.(bytecode := r.1.bytecode[Label.Function(f.name) := r.0]);
    forall l | l in done.bytecode ensures Below(l, done) { assert l.Function? || Below(l, r.1); }
    forall l | l in done.bytecode && l.Function? ensures exists g :: g in fs + [f] && g.name == l.name {
      if l != Label.Function(f.name) {
        assert l in st.bytecode;
        var g :| g in fs && g.name == l.name;
        assert g in fs + [f];
      } else {
        assert f in fs + [f];
      }
    }
  }

  lemma {:induction false} FunctionsState(fs: seq<SimpleLang.Function>)
    requires Compilable(fs)
    ensures var st := CompileFunctions(fs, EMPTY).0; Tidy(st) && StateOk(st) && NamesIn(st, fs)
  {
    if fs != [] {
      PrefixCompilable(fs);
      var init, f := fs[..|fs| - 1], fs[|fs| - 1];
      FunctionsState(init);
      NewFunctionContains(init, CompileFunctions(init, EMPTY).0, f);
      assert init + [f] == fs;
    } else {
      assert StateOk(EMPTY);
    }
  }

  /** Function `name` of fs: compiled from a tidy state, and its code is in the result. */
  ghost predicate FunctionKept(fs: seq<SimpleLang.Function>, name: string, done: CState, sizes: map<string, nat>)
    requires forall f :: f in fs ==> ReturnsFit(f.body, f.nReturned)
  {
    && name in ProgramOf(fs) && name in StartsOf(fs)
    && var f, st := ProgramOf(fs)[name], StartsOf(fs)[name];
    && f.name == name && f in fs && Tidy(st)
    && var r := CompileFunction(f, st);
    && Contains(r.1, done) && Label.Function(name) in done.bytecode && done.bytecode[Label.Function(name)] == r.0
    && name in sizes && sizes[name] == r.1.stackSize
  }

  lemma {:induction false} FunctionsKept(fs: seq<SimpleLang.Function>, name: string)
    requires Compilable(fs) && name in ProgramOf(fs)
    ensures var done := CompileFunctions(fs, EMPTY); FunctionKept(fs, name, done.0, done.1)
  {
    hide Tidy, StateOk, NamesIn, Compile, Contains, EnterFunction, ReturnsFit, HasArms, ContextOf;
    PrefixCompilable(fs);
    var init, f := fs[..|fs| - 1], fs[|fs| - 1];
    var before := CompileFunctions(init, EMPTY);
    FunctionsState(init);
    NewFunctionContains(init, before.0, f);
    if name != f.name {
      FunctionsKept(init, name);
      ContainsTransitive(CompileFunction(ProgramOf(init)[name], StartsOf(init)[name]).1, before.0,
          CompileFunctions(fs, EMPTY).0);
    }
  }

  // -- Linked ------------------------------------------------------------------------------------

  function IrOf(fs: seq<SimpleLang.Function>): IrProgram
    requires forall f :: f in fs ==> ReturnsFit(f.body, f.nReturned)
  {
    var done := CompileFunctions(fs, EMPTY);
    IrProgram(done.0.bytecode, done.0.matchBlocks, done.1)
  }

  function WorldOf(fs: seq<SimpleLang.Function>, code: seq<Entry>, L: Layout): World
    requires forall f :: f in fs ==> ReturnsFit(f.body, f.nReturned)
  {
    World(ProgramOf(fs), code, L, IrOf(fs).bytecode, IrOf(fs).matchBlocks, StartsOf(fs))
  }

  /**
   * Frames leave room for every address below p, pcs are below p,
   * and no return leaves a coalesced variable out of its slot.
   */
  predicate Fitting(fs: seq<SimpleLang.Function>, code: seq<Entry>)
    requires forall f :: f in fs ==> ReturnsFit(f.body, f.nReturned)
  {
    && |code| < P
    && (forall name :: name in IrOf(fs).sizes ==> IrOf(fs).sizes[name] <= P - MEMORY_LIMIT)
    && (forall f :: f in fs && f.name != "main" ==> ReturnsInPlace(CollectReturnCoalescings(f), f.body))
  }

  /** The first pass meets what the second asks for. */
  lemma CompiledIsWellFormed(fs: seq<SimpleLang.Function>)
    requires Compilable(fs)
    ensures WellFormed(IrOf(fs))
  {
    FunctionsState(fs);
    var ir := IrOf(fs);
    forall m, k {:trigger ir.matchBlocks[m][k]} | 0 <= m < |ir.matchBlocks| && 0 <= k < |ir.matchBlocks[m]|
        ensures EndsReal(ir.matchBlocks[m][k]) {
      assert BlocksEndReal(ir.matchBlocks[m]);
    }
  }

  lemma BlockLinks(code: seq<Entry>, L: Layout, block: seq<Instr>, pc: nat)
    requires Begins(code, L, block, pc) && EndsReal(block)
    ensures 0 < pc <= |code| && Placed(code, L, block, pc, 0)
  {
    FlattenPlaces(code, L, block, [], pc);
  }

  lemma ArmLinks(code: seq<Entry>, L: Layout, block: seq<Instr>, size: nat, pc: nat)
    requires CountReal(block) <= size && Begins(code, L, Padded(block, size), pc) && EndsReal(block)
    ensures 0 < pc <= |code| && Placed(code, L, block, pc, 0)
  {
    PaddedCounts(block, size);
    FlattenPlaces(code, L, Padded(block, size), [], pc);
    PlacedPrefix(code, L, block, Assembly.Panics(size - CountReal(block)), pc, 0);
  }

  lemma LayoutLinks(fs: seq<SimpleLang.Function>, code: seq<Entry>, L: Layout)
    requires Compilable(fs) && LaidOut(IrOf(fs), code, L) && |code| < P
    ensures BlocksLinked(WorldOf(fs, code, L)) && ArmsLinked(WorldOf(fs, code, L))
  {
    hide Begins, EndsReal, Placed, Padded, CompileFunctions, ArmsLinked;
    var w, ir := WorldOf(fs, code, L), IrOf(fs);
    CompiledIsWellFormed(fs);
    FunctionsState(fs);
    forall l | l in w.blocks ensures l in L.pcs && 0 < L.pcs[l] < P && Placed(code, L, w.blocks[l], L.pcs[l], 0) {
      BlockLinks(code, L, ir.bytecode[l], L.pcs[l]);
    }
    ArmsLink(ir, w);
  }

  lemma ArmPcIsAddress(L: Layout, m: nat, k: nat)
    requires m < |L.matchStarts| && m < |L.matchSizes|
    ensures ArmPc(L, m, k) == ArmAddress(L.matchStarts[m], k, L.matchSizes[m])
  {
  }

  lemma ArmsLink(ir: IrProgram, w: World)
    requires LaidOut(ir, w.code, w.L) && WellFormed(ir) && |w.code| < P && w.arms == ir.matchBlocks
    ensures ArmsLinked(w)
  {
    hide Begins, EndsReal, Placed, Padded, ArmPc, ArmAddress, CountReal;
    forall m, k {:trigger w.arms[m][k]} {:trigger ArmPc(w.L, m, k)} | 0 <= m < |w.arms| && 0 <= k < |w.arms[m]|
      ensures 0 < ArmPc(w.L, m, k) < P && Placed(w.code, w.L, w.arms[m][k], ArmPc(w.L, m, k), 0)
    {
      ArmPcIsAddress(w.L, m, k);
      ArmLinks(w.code, w.L, ir.matchBlocks[m][k], w.L.matchSizes[m],
          ArmAddress(w.L.matchStarts[m], k, w.L.matchSizes[m]));
    }
  }

  lemma FunctionLinks(fs: seq<SimpleLang.Function>, code: seq<Entry>, L: Layout, name: string)
    requires Compilable(fs) && L.sizes == IrOf(fs).sizes && Fitting(fs, code) && name in ProgramOf(fs)
    ensures FunctionLinked(WorldOf(fs, code, L), name)
  {
    FunctionsKept(fs, name);
    var w := WorldOf(fs, code, L);
    ContainedIsStored(w, CompileFunction(ProgramOf(fs)[name], StartsOf(fs)[name]).1, CompileFunctions(fs, EMPTY).0);
  }

  /** A program that went through both passes is linked. */
  lemma CompiledIsLinked(fs: seq<SimpleLang.Function>, code: seq<Entry>, L: Layout)
    requires Compilable(fs) && LaidOut(IrOf(fs), code, L) && Fitting(fs, code)
    ensures Linked(WorldOf(fs, code, L))
  {
    hide LaidOut, FunctionLinked, BlocksLinked, ArmsLinked, CompileFunctions;
    LayoutLinks(fs, code, L);
    assert L.sizes == IrOf(fs).sizes by { LayoutSizes(IrOf(fs), code, L); }
    forall name | name in ProgramOf(fs) ensures FunctionLinked(WorldOf(fs, code, L), name) {
      FunctionLinks(fs, code, L, name);
    }
  }

  lemma LayoutSizes(ir: IrProgram, code: seq<Entry>, L: Layout)
    requires LaidOut(ir, code, L)
    ensures L.sizes == ir.sizes
  {
  }
}
