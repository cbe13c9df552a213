/** The first compiler pass as it works: fields that change while the lines are walked. */
module CompilerPass {
  import opened Wrappers
  import opened Machine
  import opened Ir
  import opened SimpleLang
  import Spec = CompilerSpec
  import opened Assembly
  import opened Linking

  type Scopes = Spec.Scopes

  class Compiler {
    var bytecode: map<Label, seq<Instr>>
    var matchBlocks: seq<seq<seq<Instr>>>
    var ifCounter: nat
    var callCounter: nat
    var matchCounter: nat
    var funcName: string
    var scopes: Scopes
    var argsCount: nat
    var stackSize: nat
    var stackPos: nat
    var deadStoreVars: set<Var>
    var coalescedRetVars: set<Var>

    constructor ()
      ensures State() == EMPTY
    {
      bytecode, matchBlocks, ifCounter, callCounter, matchCounter := map[], [], 0, 0, 0;
      funcName, scopes, argsCount, stackSize, stackPos := "", Spec.Outermost(map[]), 0, 0, 0;
      deadStoreVars, coalescedRetVars := {}, {};
    }

    /** The fields that the lines of a function change. */
    function State(): Spec.CState
      reads this
    {
      Spec.CState(scopes, stackPos, stackSize, ifCounter, callCounter, matchCounter, bytecode, matchBlocks)
    }

    /** The fields that are set once for each function. */
    function Context(): Spec.Context
      reads this
    {
      Spec.Context(funcName == "main", argsCount, deadStoreVars, coalescedRetVars)
    }

    /** Looks through the scopes from the innermost one outwards. */
    method IsInScope(x: Var) returns (found: bool)
      ensures found == Spec.InScope(scopes, x)
    {
      var s := scopes;
      while s.Nested? && x !in s.vars
        invariant Spec.InScope(s, x) == Spec.InScope(scopes, x)
        decreases s
      {
        s := s.outer;
      }
      found := x in s.vars;
    }

    method RegisterIfNeeded(o: Operand)
      modifies `scopes, `stackPos
      ensures State() == Spec.RegisterIfNeeded(old(State()), o)
    {
      if o.Variable? && o.name.Name? {
        var known := IsInScope(o.name);
        if !known {
          scopes := scopes.(vars := scopes.vars[o.name := stackPos]);
          stackPos := stackPos + 1;
        }
      }
    }

    /** An array of constant size takes the next offsets of the frame; no instruction is emitted. */
    method HandleConstMalloc(id: nat, size: nat)
      modifies `scopes, `stackPos
      ensures State() == Spec.Allocate(old(State()), id, size)
    {
      scopes := scopes.(vars := scopes.vars + Spec.PlaceCells(id, size, stackPos));
      stackPos := stackPos + size;
    }

    method RegisterAll(xs: seq<Var>)
      modifies `scopes, `stackPos
      ensures State() == Spec.RegisterAll(old(State()), xs)
    {
      var i := 0;
      while i < |xs|
        invariant 0 <= i <= |xs|
        invariant Spec.RegisterAll(State(), xs[i..]) == Spec.RegisterAll(old(State()), xs)
      {
        assert xs[i..][0] == xs[i] && xs[i..][1..] == xs[i + 1..];
        RegisterIfNeeded(Variable(xs[i]));
        i := i + 1;
      }
    }

    /**
     * The operand as an intermediate value: a constant, or the offset of the name in the innermost scope that has it.
     */
    method FromSimpleExpr(o: Operand) returns (v: Value)
      ensures v == Spec.ValueOf(o, scopes)
    {
      match o
      case Literal(c) => v := Const(Scalar(c));
      case Variable(x) =>
        var s := scopes;
        while s.Nested? && x !in s.vars
          invariant Spec.InScope(s, x) == Spec.InScope(scopes, x)
          invariant Spec.InScope(s, x) ==> Spec.Offset(s, x) == Spec.Offset(scopes, x)
          decreases s
        {
          s := s.outer;
        }
        v := if x in s.vars then Mem(s.vars[x]) else Unresolved;
    }

    method SetupFunctionCall(callee: string, args: seq<Operand>, newFpPos: nat, back: Label) returns (code: seq<Instr>)
      ensures code == Spec.CallSetup(callee, args, newFpPos, back, scopes)
    {
      code := [Instr.RequestMemory(newFpPos, Const(FunctionSize(callee))),
          Instr.Deref(newFpPos, 0, Spec.LabelValue(back)), Instr.Deref(newFpPos, 1, Fp(0))];
      ghost var header := code;
      var i := 0;
      while i < |args|
        invariant 0 <= i <= |args|
        invariant code + Spec.CopyArguments(args, i, newFpPos, scopes) == header
            + Spec.CopyArguments(args, 0, newFpPos, scopes)
      {
        var v := FromSimpleExpr(args[i]);
        code := code + [Instr.Deref(newFpPos, 2 + i, v)];
        i := i + 1;
      }
      ghost var copies, jump := Spec.CopyArguments(args, 0, newFpPos, scopes),
          [Instr.Jump(Spec.LabelValue(Label.Function(callee)), Some(Mem(newFpPos)))];
      assert code == header + copies;
      code := code + [Instr.Jump(Spec.LabelValue(Label.Function(callee)), Some(Mem(newFpPos)))];
      assert header + copies + jump == [header[0]] + ([header[1]] + ([header[2]] + (copies + jump)));
    }

    method CopyReturnValues(results: seq<Var>, newFpPos: nat, nArgs: nat) returns (code: seq<Instr>)
      ensures code == Spec.CopyResults(results, 0, newFpPos, nArgs, scopes)
    {
      code := [];
      var i := 0;
      while i < |results|
        invariant 0 <= i <= |results|
        invariant code + Spec.CopyResults(results, i, newFpPos, nArgs, scopes)
            == Spec.CopyResults(results, 0, newFpPos, nArgs, scopes)
      {
        var v := FromSimpleExpr(Variable(results[i]));
        code := code + [Instr.Deref(newFpPos, 2 + nArgs + i, v)];
        i := i + 1;
      }
    }

    method CompileFunctionRet(data: seq<Operand>) returns (code: seq<Instr>)
      requires funcName != "main"
      ensures code == Spec.Return(Context(), data, stackPos, scopes)
    {
      code := [];
      var i := 0;
      while i < |data|
        invariant 0 <= i <= |data|
        invariant code + Spec.StoreReturns(Context(), data, i, scopes) == Spec.StoreReturns(Context(), data, 0, scopes)
      {
        if !(data[i].Variable? && data[i].name in coalescedRetVars) {
          var v := FromSimpleExpr(data[i]);
          code := code + [Spec.Equality(Mem(2 + argsCount + i), v)];
        }
        i := i + 1;
      }
      code := code + [Instr.Jump(Mem(0), Some(Mem(1)))];
    }

    /** Walks the lines, pushing instructions; a construct with blocks of its own takes over the rest of the lines. */
    method CompileLines(lines: Block, next: Option<Label>) returns (code: seq<Instr>)
      modifies this
      ensures Context() == old(Context()) && funcName == old(funcName)
      ensures (code, State()) == Spec.Compile(Context(), lines, old(State()), next)
      decreases lines, 1
    {
      hide Spec.Compile;
      ghost var c, st0 := Context(), State();
      code := [];
      var rest := lines;
      assert code + Spec.Compile(c, rest, st0, next).0 == Spec.Compile(c, rest, st0, next).0;
      while rest.Then?
        invariant Context() == c && funcName == old(funcName)
        invariant rest == lines || (lines decreases to rest)
        invariant var r := Spec.Compile(c, rest, State(), next); Spec.Compile(c, lines, st0, next) == (code + r.0, r.1)
        decreases rest
      {
        var line := rest.line;
        if line.IfNotZero? {
          var more := CompileIf(rest, next);
          return code + more;
        } else if line.Match? {
          var more := CompileMatch(rest, next);
          return code + more;
        } else if line.FunctionCall? {
          var more := CompileCall(rest, next);
          return code + more;
        }
        ghost var before, done := code, rest;
        var emitted := CompileSimpleLine(rest, next);
        code := code + emitted;
        rest := rest.rest;
        assert (before + emitted) + Spec.Compile(c, rest, State(), next).0 == before
            + (emitted + Spec.Compile(c, rest, State(), next).0);
      }
      CompileDone(c, State(), next);
      stackSize := Spec.Max(stackSize, stackPos);
      assert code + [] == code;
      if next.Some? {
        code := code + [Instr.Jump(Spec.LabelValue(next.value), None)];
      }
    }

    /** A line without blocks of its own: its instructions, with the state the next line starts from. */
    method CompileSimpleLine(block: Block, ghost next: Option<Label>) returns (code: seq<Instr>)
      requires block.Then? && !block.line.IfNotZero? && !block.line.Match? && !block.line.FunctionCall?
      modifies this
      ensures Context() == old(Context()) && funcName == old(funcName)
      ensures var r := Spec.Compile(Context(), block.rest, State(), next);
          Spec.Compile(Context(), block, old(State()), next) == (code + r.0, r.1)
      decreases block, 0
    {
      hide Spec.Gadget, Spec.MatchJump, Spec.CallSetup, Spec.CopyResults, Spec.Return, Spec.Equation, Spec.Equality,
          Spec.JumpTo, Spec.CompileArms;
      code := [];
      match block.line {
        case ConstMalloc(id, size) =>
          HandleConstMalloc(id, size);
          assert [] + Spec.Compile(Context(), block.rest, State(), next).0
              == Spec.Compile(Context(), block.rest, State(), next).0;
        case ForwardDeclaration(x) =>
          if x !in deadStoreVars && x !in coalescedRetVars {
            scopes := scopes.(vars := scopes.vars[x := stackPos]);
            stackPos := stackPos + 1;
          }
          assert [] + Spec.Compile(Context(), block.rest, State(), next).0
              == Spec.Compile(Context(), block.rest, State(), next).0;
        case Assignment(target, op, a, b) =>
          if target.Variable? && target.name in deadStoreVars {
            assert [] + Spec.Compile(Context(), block.rest, State(), next).0
                == Spec.Compile(Context(), block.rest, State(), next).0;
          } else {
            code := CompileAssignment(target, op, a, b);
          }
        case AssertEq(left, right) => code := CompileAssertEq(left, right);
        case FunctionRet(data) => code := CompileReturn(data);
        case Abort =>
          code := [PanicHint, Instr.Panic];
          ghost var r := Spec.Compile(Context(), block.rest, State(), next).0;
          assert [PanicHint] + ([Instr.Panic] + r) == code + r;
      }
    }

    method CompileAssignment(target: Operand, op: MathOp, a: Operand, b: Operand) returns (code: seq<Instr>)
      modifies `scopes, `stackPos
      ensures State() == Spec.RegisterIfNeeded(old(State()), target)
      ensures code == [Spec.Equation(op, Spec.ValueOf(a, scopes), Spec.ValueOf(b, scopes),
          Spec.ValueOf(target, scopes))]
    {
      RegisterIfNeeded(target);
      var va := FromSimpleExpr(a);
      var vb := FromSimpleExpr(b);
      var vt := FromSimpleExpr(target);
      code := [Spec.Equation(op, va, vb, vt)];
    }

    method CompileAssertEq(left: Operand, right: Operand) returns (code: seq<Instr>)
      modifies `scopes, `stackPos
      ensures State() == Spec.RegisterIfNeeded(Spec.RegisterIfNeeded(old(State()), left), right)
      ensures code == [Spec.Equality(Spec.ValueOf(left, scopes), Spec.ValueOf(right, scopes))]
    {
      RegisterIfNeeded(left);
      RegisterIfNeeded(right);
      var vl := FromSimpleExpr(left);
      var vr := FromSimpleExpr(right);
      code := [Spec.Equality(vl, vr)];
    }

    /** In main a temporary holding zero becomes the last fp; elsewhere the header says where to go. */
    method CompileReturn(data: seq<Operand>) returns (code: seq<Instr>)
      modifies `stackPos
      ensures State() == old(State()).(stackPos := if funcName == "main" then old(stackPos) + 1 else old(stackPos))
      ensures code == Spec.Return(Context(), data, old(stackPos), scopes)
    {
      if funcName == "main" {
        var zero := Mem(stackPos);
        stackPos := stackPos + 1;
        code := [Instr.Computation(Add, Const(Scalar(0)), Const(Scalar(0)), zero)]
            + [Instr.Jump(Spec.LabelValue(EndProgram), Some(zero))];
      } else {
        code := CompileFunctionRet(data);
      }
    }

    /** The gadget, both branches in scopes of their own, and the rest of the lines under the end label. */
    method CompileIf(block: Block, next: Option<Label>) returns (code: seq<Instr>)
      requires block.Then? && block.line.IfNotZero?
      modifies this
      ensures Context() == old(Context()) && funcName == old(funcName)
      ensures (code, State()) == Spec.Compile(Context(), block, old(State()), next)
      decreases block, 0
    {
      hide Spec.Compile, Spec.Gadget, Spec.MatchJump, Spec.CallSetup, Spec.CopyResults, Spec.Return, Spec.Equation,
          Spec.Equality, Spec.JumpTo;
      ghost var c, st := Context(), State();
      SpecOfIf(c, block, st, next);
      var id := ifCounter;
      ifCounter := ifCounter + 1;
      var condition := FromSimpleExpr(block.line.condition);
      code := Spec.Gadget(condition, stackPos, id);
      stackPos := stackPos + 3;
      var savedStackPos := stackPos;

      scopes := Spec.Push(scopes);
      assert State() == Spec.EnterThen(st);
      var thenCode := CompileLines(block.line.thenBranch, Some(IfElseEnd(id)));
      ghost var t := State();
      var thenStackPos := stackPos;
      stackPos := savedStackPos;
      scopes := Spec.Push(Spec.Pop(scopes));
      assert State() == Spec.EnterElse(st, t);
      var elseCode := CompileLines(block.line.elseBranch, Some(IfElseEnd(id)));
      ghost var e := State();

      bytecode := bytecode[If(id) := thenCode][Else(id) := elseCode];
      scopes := Spec.Pop(scopes);
      stackPos := Spec.Max(stackPos, thenStackPos);
      assert State() == Spec.AfterIf(id, thenCode, t, elseCode, e);

      var remaining := CompileLines(block.rest, next);
      bytecode := bytecode[IfElseEnd(id) := remaining];
    }

    /** Every arm starts at the same offset, in a scope of its own. */
    method CompileArms(first: Arms, end: Label) returns (compiledArms: seq<seq<Instr>>)
      modifies this
      ensures Context() == old(Context()) && funcName == old(funcName)
      ensures (compiledArms, State())
          == Spec.CompileArms(Context(), first, old(State()), old(stackPos), old(stackPos), end)
      decreases first, 2
    {
      hide Spec.Compile, Spec.CompileArms;
      ghost var c, st := Context(), State();
      var arms, savedStackPos, newStackPos := first, stackPos, stackPos;
      compiledArms := [];
      ghost var all := Spec.CompileArms(c, arms, State(), savedStackPos, newStackPos, end);
      assert [] + all.0 == all.0;
      while arms.Arm?
        invariant Context() == c && funcName == old(funcName)
        invariant arms == first || (first decreases to arms)
        invariant var m := Spec.CompileArms(c, arms, State(), savedStackPos, newStackPos, end);
            all == (compiledArms + m.0, m.1)
        decreases arms
      {
        SpecOfArm(c, arms, State(), savedStackPos, newStackPos, end, compiledArms);
        stackPos := savedStackPos;
        scopes := Spec.Push(scopes);
        var armCode := CompileLines(arms.body, Some(end));
        compiledArms := compiledArms + [armCode];
        scopes := Spec.Pop(scopes);
        newStackPos := Spec.Max(newStackPos, stackPos);
        arms := arms.others;
      }
      SpecOfNoArms(c, State(), savedStackPos, newStackPos, end);
      stackPos := newStackPos;
      assert compiledArms + [] == compiledArms;
    }

    /**
     * The temporaries of the jump come after the deepest arm; nested matches have stored their arms before this one.
     */
    method CompileMatch(block: Block, next: Option<Label>) returns (code: seq<Instr>)
      requires block.Then? && block.line.Match?
      modifies this
      ensures Context() == old(Context()) && funcName == old(funcName)
      ensures (code, State()) == Spec.Compile(Context(), block, old(State()), next)
      decreases block, 0
    {
      hide Spec.ValueOf, Spec.Compile, Spec.CompileArms, Spec.Gadget, Spec.MatchJump, Spec.CallSetup, Spec.CopyResults,
          Spec.Return, Spec.Equation, Spec.Equality, Spec.JumpTo;
      ghost var st := State();
      SpecOfMatch(Context(), block, st, next);
      scopes := Spec.Push(scopes);
      var id := matchCounter;
      matchCounter := matchCounter + 1;
      var value := FromSimpleExpr(block.line.value);
      assert State() == Spec.EnterMatch(st);
      var compiledArms := CompileArms(block.line.arms, MatchEnd(id));
      ghost var a := State();
      code := Spec.MatchJump(value, stackPos, |matchBlocks|, block.line.offset);
      matchBlocks := matchBlocks + [compiledArms];
      stackPos := stackPos + 2;
      assert State() == Spec.AfterArms(compiledArms, a);
      var remaining := CompileLines(block.rest, next);
      bytecode := bytecode[MatchEnd(id) := remaining];
      scopes := Spec.Pop(scopes);
    }

    /** The caller's half of a call; the rest of the lines runs after the results are copied. */
    method CompileCall(block: Block, next: Option<Label>) returns (code: seq<Instr>)
      requires block.Then? && block.line.FunctionCall?
      modifies this
      ensures Context() == old(Context()) && funcName == old(funcName)
      ensures (code, State()) == Spec.Compile(Context(), block, old(State()), next)
      decreases block, 0
    {
      var FunctionCall(callee, args, results) := block.line;
      var back, newFpPos := ReturnFromCall(callCounter), stackPos;
      callCounter := callCounter + 1;
      stackPos := stackPos + 1;
      code := SetupFunctionCall(callee, args, newFpPos, back);
      RegisterAll(results);
      var afterCall := CopyReturnValues(results, newFpPos, |args|);
      var remaining := CompileLines(block.rest, next);
      bytecode := bytecode[back := afterCall + remaining];
    }

    /** The frame starts with header and arguments. */
    method PlaceArguments(arguments: seq<Var>) returns (vars: map<Var, nat>)
      ensures vars == Spec.PlaceArguments(arguments)
    {
      vars := map[];
      var i := 0;
      while i < |arguments|
        invariant 0 <= i <= |arguments|
        invariant vars == Spec.PlaceArguments(arguments[..i])
      {
        vars := vars[arguments[i] := 2 + i];
        assert arguments[..i + 1][..i] == arguments[..i];
        i := i + 1;
      }
      assert arguments[..i] == arguments;
    }

    /** Coalesced variables get their return slots. */
    method PlaceHomes(homes: seq<Option<Var>>, start: nat, arguments: map<Var, nat>)
      returns (vars: map<Var, nat>, coalesced: set<Var>)
      ensures vars == Spec.PlaceHomes(homes, start, arguments) && coalesced == Spec.CoalescedVars(homes)
    {
      vars, coalesced := arguments, {};
      var i := 0;
      while i < |homes|
        invariant 0 <= i <= |homes|
        invariant vars == Spec.PlaceHomes(homes[..i], start, arguments)
        invariant coalesced == Spec.CoalescedVars(homes[..i])
      {
        assert homes[..i + 1] == homes[..i] + [homes[i]];
        assert homes[..i + 1][..i] == homes[..i];
        if homes[i].Some? {
          vars := vars[homes[i].value := start + i];
          coalesced := coalesced + {homes[i].value};
        }
        i := i + 1;
      }
      assert homes[..i] == homes;
    }

    method CompileFunction(f: SimpleLang.Function) returns (code: seq<Instr>)
      requires Spec.ReturnsFit(f.body, f.nReturned)
      modifies this
      ensures (code, State()) == Spec.CompileFunction(f, old(State()))
    {
      var vars := PlaceArguments(f.arguments);
      var homes := CollectReturnCoalescings(f);
      var coalesced;
      vars, coalesced := PlaceHomes(homes, 2 + |f.arguments|, vars);
      var pos := 2 + |f.arguments| + f.nReturned;
      scopes := Spec.Outermost(vars);
      funcName, stackPos, stackSize, argsCount, coalescedRetVars := f.name, pos, pos, |f.arguments|, coalesced;
      deadStoreVars := DeadStores(f.body);
      assert State() == Spec.EnterFunction(f, old(State())) && Context() == Spec.ContextOf(f);
      code := CompileLines(f.body, None);
    }

    /** The variable every return has in a slot, unless it is an argument or an earlier slot has it. */
    method CollectReturnCoalescings(f: SimpleLang.Function) returns (homes: seq<Option<Var>>)
      requires Spec.ReturnsFit(f.body, f.nReturned)
      ensures homes == Spec.CollectReturnCoalescings(f)
    {
      var found := new Option<Var>[f.nReturned](_ => None);
      var conflict := new bool[f.nReturned](_ => false);
      assert Slots(found[..], conflict[..]) == seq(f.nReturned, i => Spec.Unseen);
      WalkReturns(f.body, found, conflict);
      ghost var slots := Slots(found[..], conflict[..]);
      homes := [];
      var i := 0;
      while i < f.nReturned
        invariant 0 <= i <= f.nReturned && |homes| == i
        invariant slots == Slots(found[..], conflict[..])
        invariant homes == Spec.Homes(slots[..i], f.arguments)
      {
        assert slots[..i + 1][..i] == slots[..i];
        assert slots[i] == SlotOf(found[i], conflict[i]);
        var keep := found[i].Some? && !conflict[i] && found[i].value !in f.arguments && found[i] !in homes;
        homes := homes + [if keep then found[i] else None];
        i := i + 1;
      }
      assert slots[..i] == slots;
    }

    method WalkReturns(lines: Block, found: array<Option<Var>>, conflict: array<bool>)
      requires found.Length == conflict.Length && Spec.ReturnsFit(lines, found.Length)
      modifies found, conflict
      ensures Slots(found[..], conflict[..]) == Spec.WalkReturns(lines, old(Slots(found[..], conflict[..])))
      decreases lines
    {
      if lines.Then? {
        match lines.line {
          case FunctionRet(data) => SeeReturn(data, found, conflict);
          case IfNotZero(_, a, b) =>
            WalkReturns(a, found, conflict);
            WalkReturns(b, found, conflict);
          case Match(_, arms, _) => WalkArms(arms, found, conflict);
          case _ =>
        }
        WalkReturns(lines.rest, found, conflict);
      }
    }

    method WalkArms(arms: Arms, found: array<Option<Var>>, conflict: array<bool>)
      requires found.Length == conflict.Length && Spec.ArmsFit(arms, found.Length)
      modifies found, conflict
      ensures Slots(found[..], conflict[..]) == Spec.WalkArms(arms, old(Slots(found[..], conflict[..])))
      decreases arms
    {
      if arms.Arm? {
        WalkReturns(arms.body, found, conflict);
        WalkArms(arms.others, found, conflict);
      }
    }

    method SeeReturn(data: seq<Operand>, found: array<Option<Var>>, conflict: array<bool>)
      requires found.Length == conflict.Length == |data|
      modifies found, conflict
      ensures Slots(found[..], conflict[..]) == Spec.SeeReturn(old(Slots(found[..], conflict[..])), data)
    {
      ghost var goal := Spec.SeeReturn(Slots(found[..], conflict[..]), data);
      var i := 0;
      while i < |data|
        invariant 0 <= i <= |data|
        invariant forall j :: 0 <= j < i ==> SlotOf(found[j], conflict[j]) == goal[j]
        invariant forall j :: i <= j < |data| ==> found[j] == old(found[j]) && conflict[j] == old(conflict[j])
      {
        if !conflict[i] {
          if data[i].Variable? && data[i].name.Name? && (found[i].None? || found[i].value == data[i].name) {
            found[i] := Some(data[i].name);
          } else {
            conflict[i] := true;
            found[i] := None;
          }
        }
        i := i + 1;
      }
      assert Slots(found[..], conflict[..]) == goal;
    }

    /** All functions in order, each under its label, with the size of its frame. */
    method CompileToIntermediateBytecode(fs: seq<SimpleLang.Function>) returns (ir: IrProgram)
      requires Compilable(fs) && State() == EMPTY
      modifies this
      ensures ir == IrOf(fs)
    {
      hide Spec.CompileFunction;
      var sizes: map<string, nat> := map[];
      var i := 0;
      while i < |fs|
        invariant 0 <= i <= |fs|
        invariant (State(), sizes) == Spec.CompileFunctions(fs[..i], EMPTY)
      {
        assert fs[..i + 1][..i] == fs[..i];
        var code := CompileFunction(fs[i]);
        bytecode := bytecode[Label.Function(fs[i].name) := code];
        sizes := sizes[fs[i].name := stackSize];
        i := i + 1;
      }
      assert fs[..i] == fs;
      ir := IrProgram(bytecode, matchBlocks, sizes);
    }
  }

  /** Both passes; `order` is the order in which the label map is walked. */
  method CompileProgram(fs: seq<SimpleLang.Function>, order: seq<Label>) returns (r: Option<(seq<Entry>, Layout)>)
    requires Compilable(fs) && Enumerates(order, IrOf(fs).bytecode)
    ensures r.Some? ==>
        LaidOut(IrOf(fs), r.value.0, r.value.1) && Assembled(IrOf(fs), order, r.value.0, r.value.1)
    ensures r.None? <==> "main" !in IrOf(fs).sizes || Label.Function("main") !in IrOf(fs).bytecode
  {
    var compiler := new Compiler();
    var ir := compiler.CompileToIntermediateBytecode(fs);
    CompiledIsWellFormed(fs);
    r := CompileToLowLevelBytecode(ir, order);
  }

  /** One more arm of the specification, appended to what has been compiled. */
  lemma SpecOfArm(c: Spec.Context, arms: Arms, st: Spec.CState, saved: nat, deepest: nat, end: Label,
      done: seq<seq<Instr>>)
    requires arms.Arm?
    ensures var r := Spec.Compile(c, arms.body, st.(stackPos := saved, scopes := Spec.Push(st.scopes)), Some(end));
            var m := Spec.CompileArms(c, arms.others, r.1.(scopes := Spec.Pop(r.1.scopes)), saved,
                Spec.Max(deepest, r.1.stackPos), end);
            var all := Spec.CompileArms(c, arms, st, saved, deepest, end);
            (done + all.0, all.1) == ((done + [r.0]) + m.0, m.1)
  {
    hide Spec.Compile;
    var r := Spec.Compile(c, arms.body, st.(stackPos := saved, scopes := Spec.Push(st.scopes)), Some(end));
    var m := Spec.CompileArms(c, arms.others, r.1.(scopes := Spec.Pop(r.1.scopes)), saved,
        Spec.Max(deepest, r.1.stackPos), end);
    assert done + ([r.0] + m.0) == (done + [r.0]) + m.0;
  }

  lemma SpecOfNoArms(c: Spec.Context, st: Spec.CState, saved: nat, deepest: nat, end: Label)
    ensures Spec.CompileArms(c, NoArms, st, saved, deepest, end) == ([], st.(stackPos := deepest))
  {
  }

  lemma SpecOfIf(c: Spec.Context, block: Block, st: Spec.CState, next: Option<Label>)
    requires block.Then? && block.line.IfNotZero?
    ensures var id := st.ifCounter;
            var t := Spec.Compile(c, block.line.thenBranch, Spec.EnterThen(st), Some(IfElseEnd(id)));
            var e := Spec.Compile(c, block.line.elseBranch, Spec.EnterElse(st, t.1), Some(IfElseEnd(id)));
            var r := Spec.Compile(c, block.rest, Spec.AfterIf(id, t.0, t.1, e.0, e.1), next);
            Spec.Compile(c, block, st, next)
                == (Spec.Gadget(Spec.ValueOf(block.line.condition, st.scopes), st.stackPos, id),
                r.1.(bytecode := r.1.bytecode[IfElseEnd(id) := r.0]))
  {
    hide Spec.Gadget;
  }

  lemma SpecOfMatch(c: Spec.Context, block: Block, st: Spec.CState, next: Option<Label>)
    requires block.Then? && block.line.Match?
    ensures var id, st0 := st.matchCounter, Spec.EnterMatch(st);
            var a := Spec.CompileArms(c, block.line.arms, st0, st0.stackPos, st0.stackPos, MatchEnd(id));
            var r := Spec.Compile(c, block.rest, Spec.AfterArms(a.0, a.1), next);
            Spec.Compile(c, block, st, next) ==
              (Spec.MatchJump(Spec.ValueOf(block.line.value, st0.scopes), a.1.stackPos, |a.1.matchBlocks|,
                  block.line.offset),
               r.1.(bytecode := r.1.bytecode[MatchEnd(id) := r.0], scopes := Spec.Pop(r.1.scopes)))
  {
    hide Spec.MatchJump, Spec.CompileArms;
  }

  lemma CompileDone(c: Spec.Context, st: Spec.CState, next: Option<Label>)
    ensures Spec.Compile(c, Done, st, next)
        == (Spec.JumpTo(next), st.(stackSize := Spec.Max(st.stackSize, st.stackPos)))
  {
  }

  function SlotOf(found: Option<Var>, conflict: bool): Spec.Slot {
    if conflict then Spec.Conflict else if found.Some? then Spec.Only(found.value) else Spec.Unseen
  }

  function Slots(found: seq<Option<Var>>, conflict: seq<bool>): (r: seq<Spec.Slot>)
    requires |found| == |conflict|
    ensures |r| == |found|
  {
    seq(|found|, i requires 0 <= i < |found| => SlotOf(found[i], conflict[i]))
  }
}
