/** Compilation preserves meaning: the machine reaches the outcome of the structured lines. */
module Preservation {
  import opened Wrappers
  import opened KoalaBear
  import opened Machine
  import opened Ir
  import opened SimpleLang
  import opened CompilerSpec
  import opened CompilerInvariants
  import opened Frames
  import opened Simulation
  import opened FrameSpace
  import opened MatchSimulation
  import opened CallSimulation
  import opened ReturnSimulation
  import opened ReturnSlots

  // -- Putting runs together ---------------------------------------------------------------

  lemma MemoryExhausted(w: World, a: Activation, slots: map<Var, nat>, pos: nat, next: Option<Label>, outcome: Outcome,
      fuel: nat, cells: nat, s: State, n: nat)
    requires s.Running? && Exhausted(Run(w.code, s, n), s.ap + cells)
    ensures Reaches(w, a, slots, pos, next, outcome, fuel, cells, s, n, Run(w.code, s, n))
  {
  }

  lemma NoMeaning(w: World, a: Activation, slots: map<Var, nat>, pos: nat, next: Option<Label>, fuel: nat, cells: nat,
      s: State)
    requires s.Running?
    ensures Reaches(w, a, slots, pos, next, Undefined, fuel, cells, s, 0, s)
    ensures Reaches(w, a, slots, pos, next, OutsideArms, fuel, cells, s, 0, s)
  {
  }

  /** An outcome that ends the whole block is reached wherever the inner block was. */
  lemma Ends(w: World, a: Activation, size: nat, slots: map<Var, nat>, pos: nat, next: Option<Label>,
      slots': map<Var, nat>, pos': nat, next': Option<Label>,
             outcome: Outcome, fuel: nat, cells: nat, s: State, n: nat, s': State)
    requires s.Running? && size <= a.size && !outcome.Falls?
    requires Reaches(w, Shrunk(a, size), slots', pos', next', outcome, fuel, cells, s, n, s')
    ensures Reaches(w, a, slots, pos, next, outcome, fuel, cells, s, n, s')
  {
    if s'.Running? && ReturnsTo(size, s, s') {
      KeptMore(s.fp, size, a.size, s.ap, s.mem, s'.mem);
    }
  }

  lemma KeptMore(fp: nat, size: nat, top: nat, ap: nat, mem: Memory, mem': Memory)
    requires Kept(fp, size, ap, mem, mem') && size <= top
    ensures Kept(fp, top, ap, mem, mem')
  {
  }

  lemma ReadyHeader(w: World, a: Activation, block: Block, st: CState, next: Option<Label>, l: Local, s: State)
    requires Ready(w, a, block, st, next, l, s)
    ensures s.Running? && (a.c.isMain || (s.fp in s.mem && s.fp + 1 in s.mem))
        && Compile(a.c, block, st, next).1.stackPos <= a.size
  {
  }

  lemma ShrunkSame(a: Activation)
    ensures Shrunk(a, a.size) == a
  {
  }

  // -- The theorem for blocks ------------------------------------------------------------------

  /**
   * From the first instruction of a compiled block the machine reaches the outcome of the block: the code after it
   * with the names in their cells, the caller with the returned values in their slots, a failure for a panic, or at
   * least `fuel` steps without failing for a run that is not finished.
   */
  lemma {:induction false} Simulate(w: World, a: Activation, block: Block, st: CState, next: Option<Label>, l: Local,
      fuel: nat, s: State) returns (n: nat, s': State)
    requires Linked(w) && Ready(w, a, block, st, next, l, s)
    ensures Reaches(w, a, Slots(st.scopes), Compile(a.c, block, st, next).1.stackPos, next,
        Execute(w.p, true, a.c.dead, block, l, fuel), fuel, SpaceOf(w, a, block, l, fuel), s, n, s')
    decreases fuel, block, 4
  {
    match block
    case Done => n, s' := SimulateEnd(w, a, st, next, l, fuel, s);
    case Then(line, rest) =>
      match line
      case ForwardDeclaration(x) => n, s' := SimulateDeclaration(w, a, block, st, next, l, fuel, s);
      case ConstMalloc(_, _) => n, s' := SimulateConstMalloc(w, a, block, st, next, l, fuel, s);
      case Assignment(_, _, _, _) => n, s' := SimulateAssignment(w, a, block, st, next, l, fuel, s);
      case AssertEq(_, _) => n, s' := SimulateAssert(w, a, block, st, next, l, fuel, s);
      case IfNotZero(_, _, _) => n, s' := SimulateIf(w, a, block, st, next, l, fuel, s);
      case Match(_, _, _) => n, s' := SimulateMatch(w, a, block, st, next, l, fuel, s);
      case FunctionCall(_, _, _) => n, s' := SimulateCall(w, a, block, st, next, l, fuel, s);
      case FunctionRet(_) => n, s' := SimulateReturn(w, a, block, st, next, l, fuel, s);
      case Abort => n, s' := SimulateAbort(w, a, block, st, next, l, fuel, s);
  }

  lemma SimulateEnd(w: World, a: Activation, st: CState, next: Option<Label>, l: Local, fuel: nat, s: State)
    returns (n: nat, s': State)
    requires Linked(w) && Ready(w, a, Done, st, next, l, s)
    ensures Reaches(w, a, Slots(st.scopes), st.stackPos, next, Falls(l.env), fuel, 0, s, n, s')
  {
    hide Placed, Fits, Holding, ArmsLinked, FunctionLinked;
    n, s' := 0, s;
    if next.Some? {
      var jump := [Instr.Jump(LabelValue(next.value), None)];
      assert jump == jump + [];
      HoldingBounds(a, Slots(st.scopes), st.stackPos, l.env, s.fp, s.ap, s.mem);
      StepJump(w.code, w.L, LabelValue(next.value), None, [], s);
      RunOne(w.code, s);
      n, s' := 1, Step(w.code, s);
    }
  }

  /** The cells a run takes for new frames. */
  function SpaceOf(w: World, a: Activation, block: Block, l: Local, fuel: nat): nat {
    Space(w.p, w.L.sizes, a.c.dead, block, l, fuel)
  }

  /** The rest of the block runs from where the first line has brought the machine. */
  lemma Resume(w: World, a: Activation, block: Block, st: CState, next: Option<Label>, l: Local, fuel: nat, cells: nat,
      s: State, n1: nat, s1: State, st1: CState, l1: Local) returns (n: nat, s': State)
    requires Linked(w) && Ready(w, a, block, st, next, l, s) && block.Then?
    requires s1 == Run(w.code, s, n1) && Onward(w, a, block, st, next, cells, s, st1, l1, s1)
    ensures Reaches(w, a, Slots(st.scopes), Compile(a.c, block, st, next).1.stackPos, next,
        Execute(w.p, true, a.c.dead, block.rest, l1, fuel), fuel, cells + SpaceOf(w, a, block.rest, l1, fuel), s, n, s')
    decreases fuel, block, 0
  {
    hide Ready, Linked, Reaches, Execute, Compile, SpaceOf;
    ReadyHeader(w, a, block, st, next, l, s);
    var all := cells + SpaceOf(w, a, block.rest, l1, fuel);
    if s1 == Failed(OutOfMemory) {
      n, s' := n1, s1;
      MemoryExhausted(w, a, Slots(st.scopes), Compile(a.c, block, st, next).1.stackPos, next,
          Execute(w.p, true, a.c.dead, block.rest, l1, fuel), fuel, all, s, n1);
    } else {
      var n2;
      n2, s' := Simulate(w, a, block.rest, st1, next, l1, fuel, s1);
      n := n1 + n2;
      ReachesLater(w, a, Slots(st.scopes), Slots(st1.scopes), Compile(a.c, block, st, next).1.stackPos,
          Compile(a.c, block.rest, st1, next).1.stackPos, next,
                   Execute(w.p, true, a.c.dead, block.rest, l1, fuel), fuel, all, SpaceOf(w, a, block.rest, l1, fuel),
                       s, n1, s1, n2, s');
    }
  }

  lemma SimulateDeclaration(w: World, a: Activation, block: Block, st: CState, next: Option<Label>, l: Local, fuel: nat,
      s: State) returns (n: nat, s': State)
    requires Linked(w) && Ready(w, a, block, st, next, l, s) && block.Then? && block.line.ForwardDeclaration?
    ensures Reaches(w, a, Slots(st.scopes), Compile(a.c, block, st, next).1.stackPos, next,
        Execute(w.p, true, a.c.dead, block, l, fuel), fuel, SpaceOf(w, a, block, l, fuel), s, n, s')
    decreases fuel, block, 3
  {
    hide Linked, Reaches, Placed, Fits, Holding;
    var x := block.line.x;
    if x in a.c.dead {
      n, s' := Simulate(w, a, block.rest, st, next, l, fuel, s);
    } else if x in l.scope || x in l.env {
      NoMeaning(w, a, Slots(st.scopes), Compile(a.c, block, st, next).1.stackPos, next, fuel,
          SpaceOf(w, a, block, l, fuel), s);
      n, s' := 0, s;
    } else {
      DeclareOnward(w, a, block, st, next, l, s);
      n, s' := Resume(w, a, block, st, next, l, fuel, 0, s, 0, s, if x in a.c.coalesced then st else Declare(st, x),
          l.(scope := l.scope + {x}));
    }
  }

  lemma SimulateConstMalloc(w: World, a: Activation, block: Block, st: CState, next: Option<Label>, l: Local, fuel: nat,
      s: State) returns (n: nat, s': State)
    requires Linked(w) && Ready(w, a, block, st, next, l, s) && block.Then? && block.line.ConstMalloc?
    ensures Reaches(w, a, Slots(st.scopes), Compile(a.c, block, st, next).1.stackPos, next,
        Execute(w.p, true, a.c.dead, block, l, fuel), fuel, SpaceOf(w, a, block, l, fuel), s, n, s')
    decreases fuel, block, 3
  {
    hide Linked, Reaches, Placed, Fits, Holding, CellsOf;
    var ConstMalloc(id, size) := block.line;
    if CellsOf(id, size) !! l.scope + l.env.Keys {
      AllocateOnward(w, a, block, st, next, l, s);
      n, s' := Resume(w, a, block, st, next, l, fuel, 0, s, 0, s, Allocate(st, id, size),
          l.(scope := l.scope + CellsOf(id, size)));
    } else {
      NoMeaning(w, a, Slots(st.scopes), Compile(a.c, block, st, next).1.stackPos, next, fuel,
          SpaceOf(w, a, block, l, fuel), s);
      n, s' := 0, s;
    }
  }

  lemma SimulateAssignment(w: World, a: Activation, block: Block, st: CState, next: Option<Label>, l: Local, fuel: nat,
      s: State) returns (n: nat, s': State)
    requires Linked(w) && Ready(w, a, block, st, next, l, s) && block.Then? && block.line.Assignment?
    ensures Reaches(w, a, Slots(st.scopes), Compile(a.c, block, st, next).1.stackPos, next,
        Execute(w.p, true, a.c.dead, block, l, fuel), fuel, SpaceOf(w, a, block, l, fuel), s, n, s')
    decreases fuel, block, 3
  {
    hide Linked, Reaches, Placed, Fits, Holding, Introduce, Lookup, Unify;
    var Assignment(target, op, x, y) := block.line;
    var r := Assign(l, target, op, x, y, a.c.dead);
    if target.Variable? && target.name in a.c.dead {
      n, s' := Simulate(w, a, block.rest, st, next, l, fuel, s);
    } else if r == Stops(Undefined) {
      NoMeaning(w, a, Slots(st.scopes), Compile(a.c, block, st, next).1.stackPos, next, fuel,
          SpaceOf(w, a, block, l, fuel), s);
      n, s' := 0, s;
    } else {
      AssignOnward(w, a, block, st, next, l, s);
      RunOne(w.code, s);
      n, s' := 1, Step(w.code, s);
      if r.Stops? {
        ReachesFailure(w, a, Slots(st.scopes), Compile(a.c, block, st, next).1.stackPos, next, r.outcome, fuel,
            SpaceOf(w, a, block, l, fuel), s, 1);
      } else {
        n, s' := Resume(w, a, block, st, next, l, fuel, 0, s, 1, Step(w.code, s), RegisterIfNeeded(st, target), r.l);
      }
    }
  }

  lemma SimulateAssert(w: World, a: Activation, block: Block, st: CState, next: Option<Label>, l: Local, fuel: nat,
      s: State) returns (n: nat, s': State)
    requires Linked(w) && Ready(w, a, block, st, next, l, s) && block.Then? && block.line.AssertEq?
    ensures Reaches(w, a, Slots(st.scopes), Compile(a.c, block, st, next).1.stackPos, next,
        Execute(w.p, true, a.c.dead, block, l, fuel), fuel, SpaceOf(w, a, block, l, fuel), s, n, s')
    decreases fuel, block, 3
  {
    hide Linked, Reaches, Placed, Fits, Holding, Introduce, Lookup, Unify, Equate;
    var AssertEq(x, y) := block.line;
    var r := Equate(l, x, y, a.c.dead);
    if r == Stops(Undefined) {
      NoMeaning(w, a, Slots(st.scopes), Compile(a.c, block, st, next).1.stackPos, next, fuel,
          SpaceOf(w, a, block, l, fuel), s);
      n, s' := 0, s;
    } else {
      EquateOnward(w, a, block, st, next, l, s);
      RunOne(w.code, s);
      n, s' := 1, Step(w.code, s);
      if r.Stops? {
        ReachesFailure(w, a, Slots(st.scopes), Compile(a.c, block, st, next).1.stackPos, next, r.outcome, fuel,
            SpaceOf(w, a, block, l, fuel), s, 1);
      } else {
        n, s' := Resume(w, a, block, st, next, l, fuel, 0, s, 1, Step(w.code, s),
            RegisterIfNeeded(RegisterIfNeeded(st, x), y), r.l);
      }
    }
  }

  lemma SimulateAbort(w: World, a: Activation, block: Block, st: CState, next: Option<Label>, l: Local, fuel: nat,
      s: State) returns (n: nat, s': State)
    requires Ready(w, a, block, st, next, l, s) && block.Then? && block.line.Abort?
    ensures Reaches(w, a, Slots(st.scopes), Compile(a.c, block, st, next).1.stackPos, next, Panics, fuel, 0, s, n, s')
  {
    hide Placed, Fits, Holding;
    var rest := Compile(a.c, block.rest, st, next).0;
    StepPanicHint(w.code, w.L, [Instr.Panic] + rest, s);
    var s1 := Step(w.code, s);
    RunOne(w.code, s);
    StepPanic(w.code, w.L, rest, s1);
    RunOne(w.code, s1);
    RunAdd(w.code, s, 1, 1);
    n, s' := 2, Step(w.code, s1);
  }

  lemma SimulateReturn(w: World, a: Activation, block: Block, st: CState, next: Option<Label>, l: Local, fuel: nat,
      s: State) returns (n: nat, s': State)
    requires Linked(w) && Ready(w, a, block, st, next, l, s) && block.Then? && block.line.FunctionRet?
    ensures Reaches(w, a, Slots(st.scopes), Compile(a.c, block, st, next).1.stackPos, next,
        Execute(w.p, true, a.c.dead, block, l, fuel), fuel, SpaceOf(w, a, block, l, fuel), s, n, s')
  {
    hide Reaches, Placed, Fits, Holding, LookupAll;
    if LookupAll(block.line.data, l.scope, l.env).None? {
      NoMeaning(w, a, Slots(st.scopes), Compile(a.c, block, st, next).1.stackPos, next, fuel,
          SpaceOf(w, a, block, l, fuel), s);
      n, s' := 0, s;
    } else if a.c.isMain {
      n, s' := MainReturnRuns(w, a, block, st, next, l, fuel, s);
    } else {
      n, s' := ReturnRuns(w, a, block, st, next, l, fuel, s);
    }
  }

  lemma SimulateIf(w: World, a: Activation, block: Block, st: CState, next: Option<Label>, l: Local, fuel: nat,
      s: State) returns (n: nat, s': State)
    requires Linked(w) && Ready(w, a, block, st, next, l, s) && block.Then? && block.line.IfNotZero?
    ensures Reaches(w, a, Slots(st.scopes), Compile(a.c, block, st, next).1.stackPos, next,
        Execute(w.p, true, a.c.dead, block, l, fuel), fuel, SpaceOf(w, a, block, l, fuel), s, n, s')
    decreases fuel, block, 3
  {
    hide Reaches, Ready, Linked, Lookup, Compile;
    ReadyHeader(w, a, block, st, next, l, s);
    var slots, pos := Slots(st.scopes), Compile(a.c, block, st, next).1.stackPos;
    var outcome := Execute(w.p, true, a.c.dead, block, l, fuel);
    n, s' := 0, s;
    if Lookup(block.line.condition, l.scope, l.env).None? {
      NoMeaning(w, a, slots, pos, next, fuel, SpaceOf(w, a, block, l, fuel), s);
    } else {
      var taken := Lookup(block.line.condition, l.scope, l.env).value != 0;
      LinkedBlocks(w);
      n, s' := IfEnters(w, a, block, st, next, l, s);
      if s' == Failed(OutOfMemory) {
        MemoryExhausted(w, a, slots, pos, next, outcome, fuel, SpaceOf(w, a, block, l, fuel), s, n);
      } else {
        n, s' := SimulateBranch(w, a, block, st, next, l, fuel, s, taken, n, s');
      }
    }
  }

  lemma LinkedBlocks(w: World)
    requires Linked(w)
    ensures BlocksLinked(w) && ArmsLinked(w)
  {
  }

  /** The branch runs, and if it falls through so does the rest. */
  lemma SimulateBranch(w: World, a: Activation, block: Block, st: CState, next: Option<Label>, l: Local, fuel: nat,
      s: State, taken: bool, n1: nat, s1: State) returns (n: nat, s': State)
    requires Linked(w) && Ready(w, a, block, st, next, l, s) && block.Then? && block.line.IfNotZero?
    requires s1 == Run(w.code, s, n1) && Moves(a.size, s, s1) && s1.ap == s.ap
    requires Ready(w, a, Branch(block, taken), BranchStart(a.c, block, st, taken), Some(IfElseEnd(st.ifCounter)), l, s1)
    ensures var r := Execute(w.p, true, a.c.dead, Branch(block, taken), l, fuel);
            Reaches(w, a, Slots(st.scopes), Compile(a.c, block, st, next).1.stackPos, next,
                    if r.Falls? then Execute(w.p, true, a.c.dead, block.rest, l.(env := r.env), fuel) else r, fuel,
                    InnerThenRest(w.p, w.L.sizes, a.c.dead, block, Branch(block, taken), l, fuel), s, n, s')
    decreases fuel, block, 2
  {
    hide Ready, Linked, Execute, Compile, Kept, Holding;
    ReadyHeader(w, a, block, st, next, l, s);
    var slots, pos, end := Slots(st.scopes), Compile(a.c, block, st, next).1.stackPos, Some(IfElseEnd(st.ifCounter));
    var r := Execute(w.p, true, a.c.dead, Branch(block, taken), l, fuel);
    var start := BranchStart(a.c, block, st, taken);
    var n2, s2 := Simulate(w, a, Branch(block, taken), start, end, l, fuel, s1);
    IfOffsets(a.c, block, st, next, taken);
    SlotsOfPush(st.scopes);
    GrownReflexive(slots);
    n, s' := n1 + n2, s2;
    var inner, all := SpaceOf(w, a, Branch(block, taken), l, fuel),
        InnerThenRest(w.p, w.L.sizes, a.c.dead, block, Branch(block, taken), l, fuel);
    ReachesLater(w, a, slots, slots, pos, BranchPart(a.c, block, st, taken).1.stackPos, end, r, fuel, inner, inner, s,
        n1, s1, n2, s2);
    if Exhausted(s2, s.ap + inner) {
      MemoryExhausted(w, a, slots, pos, next,
          if r.Falls? then Execute(w.p, true, a.c.dead, block.rest, l.(env := r.env), fuel) else r, fuel, all, s, n);
    } else if r.Falls? {
      LinkedBlocks(w);
      IfLeaves(w, a, block, st, next, l, s, taken, r.env, s1, s2);
      ArrivedMoves(w, a.size, end.value, s, s2);
      n, s' := Resume(w, a, block, st, next, l, fuel, inner, s, n, s2, IfDone(a.c, block, st), l.(env := r.env));
    } else {
      ShrunkSame(a);
      Ends(w, a, a.size, slots, pos, next, slots, pos, end, r, fuel, inner, s, n, s2);
    }
  }

  lemma ArrivedMoves(w: World, top: nat, l: Label, s: State, s': State)
    requires s.Running? && ArrivesAt(w, top, l, s, s')
    ensures Moves(top, s, s')
  {
  }

  lemma {:induction false} ArmExecutes(p: Program, dead: set<Var>, arms: Arms, k: nat, l: Local, fuel: nat)
    ensures ExecuteArm(p, true, dead, arms, k, l, fuel) == if k < CountArms(arms) then
        Execute(p, true, dead, ArmBody(arms, k), l, fuel) else OutsideArms
  {
    if arms.Arm? && k > 0 { ArmExecutes(p, dead, arms.others, k - 1, l, fuel); }
  }

  lemma SimulateMatch(w: World, a: Activation, block: Block, st: CState, next: Option<Label>, l: Local, fuel: nat,
      s: State) returns (n: nat, s': State)
    requires Linked(w) && Ready(w, a, block, st, next, l, s) && block.Then? && block.line.Match?
    ensures Reaches(w, a, Slots(st.scopes), Compile(a.c, block, st, next).1.stackPos, next,
        Execute(w.p, true, a.c.dead, block, l, fuel), fuel, SpaceOf(w, a, block, l, fuel), s, n, s')
    decreases fuel, block, 3
  {
    hide Reaches, Ready, Linked, Lookup, Compile, ExecuteArm;
    ReadyHeader(w, a, block, st, next, l, s);
    var slots, pos := Slots(st.scopes), Compile(a.c, block, st, next).1.stackPos;
    var Match(value, arms, offset) := block.line;
    n, s' := 0, s;
    if Lookup(value, l.scope, l.env).None? || Lookup(value, l.scope, l.env).value < offset {
      NoMeaning(w, a, slots, pos, next, fuel, SpaceOf(w, a, block, l, fuel), s);
    } else {
      var k := Lookup(value, l.scope, l.env).value - offset;
      ArmExecutes(w.p, a.c.dead, arms, k, l, fuel);
      if k >= CountArms(arms) {
        NoMeaning(w, a, slots, pos, next, fuel, SpaceOf(w, a, block, l, fuel), s);
      } else {
        LinkedBlocks(w);
        n, s' := MatchEnters(w, a, block, st, next, l, s);
        if s' == Failed(OutOfMemory) {
          MemoryExhausted(w, a, slots, pos, next, Execute(w.p, true, a.c.dead, block, l, fuel), fuel,
              SpaceOf(w, a, block, l, fuel), s, n);
        } else {
          n, s' := SimulateArm(w, a, block, st, next, l, fuel, s, k, n, s');
        }
      }
    }
  }

  /** The arm runs within the offsets below the temporaries of the match, and if it falls through so does the rest. */
  lemma SimulateArm(w: World, a: Activation, block: Block, st: CState, next: Option<Label>, l: Local, fuel: nat,
      s: State, k: nat, n1: nat, s1: State) returns (n: nat, s': State)
    requires Linked(w) && Ready(w, a, block, st, next, l, s) && block.Then? && block.line.Match?
        && k < CountArms(block.line.arms)
    requires s1 == Run(w.code, s, n1) && Moves(a.size, s, s1) && s1.ap == s.ap
    requires var size := MatchArms(a.c, block, st).1.stackPos;
             && Holding(a, Slots(st.scopes), size + 2, l.env, s1.fp, s1.ap, s1.mem)
             && Ready(w, Shrunk(a, size), ArmBody(block.line.arms, k), ArmState(a.c, block, st, k),
                 Some(MatchEnd(st.matchCounter)), l, s1)
    ensures var r := Execute(w.p, true, a.c.dead, ArmBody(block.line.arms, k), l, fuel);
            Reaches(w, a, Slots(st.scopes), Compile(a.c, block, st, next).1.stackPos, next,
                    if r.Falls? then Execute(w.p, true, a.c.dead, block.rest, l.(env := r.env), fuel) else r, fuel,
                    InnerThenRest(w.p, w.L.sizes, a.c.dead, block, ArmBody(block.line.arms, k), l, fuel), s, n, s')
    decreases fuel, block, 2
  {
    hide Ready, Linked, Execute, Compile, Kept, Holding, MatchArms, ArmState;
    ReadyHeader(w, a, block, st, next, l, s);
    var slots, pos, end := Slots(st.scopes), Compile(a.c, block, st, next).1.stackPos, Some(MatchEnd(st.matchCounter));
    var size, body, start := MatchArms(a.c, block, st).1.stackPos, ArmBody(block.line.arms, k),
        ArmState(a.c, block, st, k);
    var r := Execute(w.p, true, a.c.dead, body, l, fuel);
    var n2, s2 := Simulate(w, Shrunk(a, size), body, start, end, l, fuel, s1);
    MatchOffsets(a.c, block, st, next);
    RunAdd(w.code, s, n1, n2);
    n, s' := n1 + n2, s2;
    var inner, all := SpaceOf(w, a, body, l, fuel), InnerThenRest(w.p, w.L.sizes, a.c.dead, block, body, l, fuel);
    if Exhausted(s2, s.ap + inner) {
      MemoryExhausted(w, a, slots, pos, next,
          if r.Falls? then Execute(w.p, true, a.c.dead, block.rest, l.(env := r.env), fuel) else r, fuel, all, s, n);
    } else if r.Falls? {
      LinkedBlocks(w);
      MatchLeaves(w, a, block, st, next, l, s, k, r.env, s1, s2);
      ArmMoves(a, size, end.value, w, s, s1, s2);
      SlotsOfPush(st.scopes);
      GrownReflexive(slots);
      n, s' := Resume(w, a, block, st, next, l, fuel, inner, s, n, s2, MatchDone(a.c, block, st), l.(env := r.env));
    } else {
      GrownReflexive(slots);
      Ends(w, a, size, slots, pos, next, Slots(start.scopes), Compile(a.c, body, start, end).1.stackPos, end, r, fuel,
          inner, s1, n2, s2);
      ReachesLater(w, a, slots, slots, pos, pos, next, r, fuel, inner, inner, s, n1, s1, n2, s2);
    }
  }

  lemma ArmMoves(a: Activation, size: nat, end: Label, w: World, s: State, s1: State, s2: State)
    requires Moves(a.size, s, s1) && ArrivesAt(w, size, end, s1, s2) && size <= a.size
    ensures Moves(a.size, s, s2)
  {
    KeptMore(s1.fp, size, a.size, s1.ap, s1.mem, s2.mem);
    MovesTransitive(a.size, s, s1, s2);
  }

  // -- Calls --------------------------------------------------------------------------------

  lemma SimulateCall(w: World, a: Activation, block: Block, st: CState, next: Option<Label>, l: Local, fuel: nat,
      s: State) returns (n: nat, s': State)
    requires Linked(w) && Ready(w, a, block, st, next, l, s) && block.Then? && block.line.FunctionCall?
    ensures Reaches(w, a, Slots(st.scopes), Compile(a.c, block, st, next).1.stackPos, next,
        Execute(w.p, true, a.c.dead, block, l, fuel), fuel, SpaceOf(w, a, block, l, fuel), s, n, s')
    decreases fuel, block, 3
  {
    hide Reaches, Ready, Linked, Compile, LookupAll, IntroduceAll, UnifyAll, Bindings, DeadStores;
    ReadyHeader(w, a, block, st, next, l, s);
    var slots, pos := Slots(st.scopes), Compile(a.c, block, st, next).1.stackPos;
    var FunctionCall(callee, args, results) := block.line;
    var outcome := Execute(w.p, true, a.c.dead, block, l, fuel);
    n, s' := 0, s;
    if outcome.Undefined? {
      NoMeaning(w, a, slots, pos, next, fuel, SpaceOf(w, a, block, l, fuel), s);
    } else if fuel == 0 {
      assert outcome.OutOfFuel?;
      AtCall(w, a, block, st, next, l, s);
      NoFuel(w, a, slots, pos, next, s);
    } else {
      n, s' := CallEnters(w, a, block, st, next, l, s);
      if s' == Failed(OutOfMemory) {
        MemoryExhausted(w, a, slots, pos, next, outcome, fuel, SpaceOf(w, a, block, l, fuel), s, n);
      } else {
        n, s' := SimulateCallee(w, a, block, st, next, l, fuel, s, n, s');
      }
    }
  }

  lemma AtCall(w: World, a: Activation, block: Block, st: CState, next: Option<Label>, l: Local, s: State)
    requires Ready(w, a, block, st, next, l, s) && block.Then? && block.line.FunctionCall?
    ensures s.pc > 0
  {
    hide Fits, Holding, StoredIn, Tidy;
    assert Compile(a.c, block, st, next).0 != [];
  }

  lemma NoFuel(w: World, a: Activation, slots: map<Var, nat>, pos: nat, next: Option<Label>, s: State)
    requires s.Running? && s.pc > 0
    ensures Reaches(w, a, slots, pos, next, OutOfFuel, 0, 0, s, 0, s)
  {
  }

  function CalleeOutcome(w: World, line: Line, l: Local, fuel: nat): Outcome
    requires line.FunctionCall? && line.callee in w.p && LookupAll(line.args, l.scope, l.env).Some?
        && |line.args| == |w.p[line.callee].arguments|
  {
    var f := w.p[line.callee];
    Execute(w.p, true, DeadStores(f.body), f.body,
        Local(Arguments(f), Bindings(f.arguments, LookupAll(line.args, l.scope, l.env).value)), fuel)
  }

  /** The callee runs with one unit of fuel less; its results are copied and the rest of the block runs. */
  lemma SimulateCallee(w: World, a: Activation, block: Block, st: CState, next: Option<Label>, l: Local, fuel: nat,
      s: State, n1: nat, s1: State) returns (n: nat, s': State)
    requires Linked(w) && Ready(w, a, block, st, next, l, s) && block.Then? && block.line.FunctionCall? && fuel > 0
    requires block.line.callee in w.p && FunctionLinked(w, block.line.callee) && block.line.callee != "main"
        && LookupAll(block.line.args, l.scope, l.env).Some?
    requires |block.line.args| == |w.p[block.line.callee].arguments|
        && |block.line.results| == w.p[block.line.callee].nReturned
    requires IntroduceAll(l, block.line.results, a.c.dead).Some? && ReturnFromCall(st.callCounter) in w.L.pcs
    requires s1 == Run(w.code, s, n1) && n1 > 0 && Called(st, w.L.pcs[ReturnFromCall(st.callCounter)], s, s1)
        && s1.ap == s.ap + w.L.sizes[block.line.callee]
    requires var name, vs := block.line.callee, LookupAll(block.line.args, l.scope, l.env).value; var f := w.p[name];
             Ready(w, ActivationIn(w, name), f.body, EnterFunction(f, w.starts[name]), None,
                 Local(Arguments(f), Bindings(f.arguments, vs)), s1)
    ensures Reaches(w, a, Slots(st.scopes), Compile(a.c, block, st, next).1.stackPos, next,
        Execute(w.p, true, a.c.dead, block, l, fuel), fuel, SpaceOf(w, a, block, l, fuel), s, n, s')
    decreases fuel, block, 2
  {
    hide InnerThenRest, Slots, Holding, Kept, HomeSlots, FreeSlots, CollectReturnCoalescings, CompileFunction,
        ContextOf;
    hide Ready, Linked, Compile, LookupAll, IntroduceAll, UnifyAll, Bindings, DeadStores, EnterFunction, Tidy, StoredIn,
        Called, ReturnsTo, Delivered, Execute, SpaceOf;
    ReadyHeader(w, a, block, st, next, l, s);
    var slots, pos := Slots(st.scopes), Compile(a.c, block, st, next).1.stackPos;
    var name, vs := block.line.callee, LookupAll(block.line.args, l.scope, l.env).value;
    var f := w.p[name];
    var outcome, r := Execute(w.p, true, a.c.dead, block, l, fuel), CalleeOutcome(w, block.line, l, fuel - 1);
    NotMain(w, name);
    FrameHoldsArguments(w, name);
    ReadyHeader(w, ActivationIn(w, name), f.body, EnterFunction(f, w.starts[name]), None,
        Local(Arguments(f), Bindings(f.arguments, vs)), s1);
    var n2, s2 := Simulate(w, ActivationIn(w, name), f.body, EnterFunction(f, w.starts[name]), None,
        Local(Arguments(f), Bindings(f.arguments, vs)), fuel - 1, s1);
    RunAdd(w.code, s, n1, n2);
    n, s' := n1 + n2, s2;
    var callee := CalleeSpace(w, block.line, l, fuel - 1);
    CallUnfolds(w, a, block, l, fuel);
    if Exhausted(s2, s.ap + callee) {
      MemoryExhausted(w, a, slots, pos, next, outcome, fuel, SpaceOf(w, a, block, l, fuel), s, n);
    } else if r.Returns? && |r.values| == |block.line.results| {
      assert ReturnsTo(w.L.sizes[name], s1, s2);
      ReturnedRuns(w.L.sizes[name], s1, s2);
      n, s' := SimulateResults(w, a, block, st, next, l, fuel, callee, s, s1, w.L.sizes[name], n, s2, r.values);
    }
  }

  /** The frame of the callee and those of the calls it makes. */
  function CalleeSpace(w: World, line: Line, l: Local, fuel: nat): nat
    requires line.FunctionCall? && FunctionLinked(w, line.callee) && LookupAll(line.args, l.scope, l.env).Some?
        && |line.args| == |w.p[line.callee].arguments|
  {
    var f := w.p[line.callee];
    w.L.sizes[line.callee] + SpaceOf(w, ActivationIn(w, line.callee), f.body,
        Local(Arguments(f), Bindings(f.arguments, LookupAll(line.args, l.scope, l.env).value)), fuel)
  }

  lemma CallUnfolds(w: World, a: Activation, block: Block, l: Local, fuel: nat)
    requires block.Then? && block.line.FunctionCall? && fuel > 0 && block.line.callee in w.p
        && block.line.callee != "main" && FunctionLinked(w, block.line.callee)
    requires LookupAll(block.line.args, l.scope, l.env).Some? && IntroduceAll(l, block.line.results, a.c.dead).Some?
        && |block.line.args| == |w.p[block.line.callee].arguments|
        && |block.line.results| == w.p[block.line.callee].nReturned
    ensures var r, results := CalleeOutcome(w, block.line, l, fuel - 1), block.line.results;
            var outcome, space := Execute(w.p, true, a.c.dead, block, l, fuel), SpaceOf(w, a, block, l, fuel);
            var callee := CalleeSpace(w, block.line, l, fuel - 1);
            if r.Returns? && |r.values| == |results| then
              var u := UnifyAll(IntroduceAll(l, results, a.c.dead).value, results, r.values);
              && outcome == (if u.Stops? then u.outcome else Execute(w.p, true, a.c.dead, block.rest, u.l, fuel))
              && space == callee + if u.Stops? then 0 else SpaceOf(w, a, block.rest, u.l, fuel)
            else outcome == (if r.Panics? || r.OutOfFuel? || r.OutsideArms? then r else Undefined) && space == callee
  {
    hide LookupAll, IntroduceAll, UnifyAll, Bindings, DeadStores, CompileFunction, HomeSlots, FreeSlots,
        CollectReturnCoalescings, Tidy, StoredIn, ReturnsInPlace;
  }

  lemma ReturnedRuns(size: nat, s1: State, s2: State)
    requires s1.Running? && ReturnsTo(size, s1, s2)
    ensures s2.Running?
  {
  }

  lemma NotMain(w: World, name: string)
    requires FunctionLinked(w, name) && name != "main"
    ensures !ActivationIn(w, name).c.isMain && ActivationIn(w, name).size == w.L.sizes[name]
        && ActivationIn(w, name).c.dead == DeadStores(w.p[name].body)
    ensures ActivationIn(w, name).c.argsCount == |w.p[name].arguments|
  {
  }

  lemma SimulateResults(w: World, a: Activation, block: Block, st: CState, next: Option<Label>, l: Local, fuel: nat,
      cells: nat, s: State, s1: State, size: nat, n2: nat, s2: State, values: seq<F>)
    returns (n: nat, s': State)
    requires Linked(w) && Ready(w, a, block, st, next, l, s) && block.Then? && block.line.FunctionCall?
        && IntroduceAll(l, block.line.results, a.c.dead).Some?
    requires ReturnFromCall(st.callCounter) in w.L.pcs && Called(st, w.L.pcs[ReturnFromCall(st.callCounter)], s, s1)
        && ReturnsTo(size, s1, s2)
    requires s2 == Run(w.code, s, n2) && |values| == |block.line.results|
        && Delivered(values, s1.fp + 2 + |block.line.args|, s2.mem)
    requires 2 + |block.line.args| + |values| < P && s2.ap == s.ap + cells
    ensures var u := UnifyAll(IntroduceAll(l, block.line.results, a.c.dead).value, block.line.results, values);
            Reaches(w, a, Slots(st.scopes), Compile(a.c, block, st, next).1.stackPos, next,
                    if u.Stops? then u.outcome else Execute(w.p, true, a.c.dead, block.rest, u.l, fuel), fuel,
                    cells + if u.Stops? then 0 else SpaceOf(w, a, block.rest, u.l, fuel), s, n, s')
    decreases fuel, block, 1
  {
    hide Linked, Compile, IntroduceAll, UnifyAll, ReturnsTo, Delivered, Fits, Holding, Placed, Reaches, Execute,
        StoredIn, Kept, SpaceOf;
    var slots, pos, results := Slots(st.scopes), Compile(a.c, block, st, next).1.stackPos, block.line.results;
    var st1, l1 := CallerState(st, block), IntroduceAll(l, results, a.c.dead).value;
    var u := UnifyAll(l1, results, values);
    var rest := Compile(a.c, block.rest, st1, next).0;
    LinkedBlocks(w);
    CallOffsets(a.c, block, st, next);
    CallReturns(w, a, block, st, next, l, s, s1, size, s2);
    HoldingBounds(a, Slots(st1.scopes), st1.stackPos, l1.env, s2.fp, s2.ap, s2.mem);
    assert results[0..] == results && values[0..] == values;
    var n3, s3 := ResultsRun(w, a, st1.scopes, st1.stackPos, l1, results, 0, values, st.stackPos, |block.line.args|,
        s.ap, rest, s2);
    RunAdd(w.code, s, n2, n3);
    n, s' := n2 + n3, s3;
    if u.Stops? {
      ReachesFailure(w, a, slots, pos, next, u.outcome, fuel, cells, s, n);
    } else if s3 == Failed(OutOfMemory) {
      MemoryExhausted(w, a, slots, pos, next, Execute(w.p, true, a.c.dead, block.rest, u.l, fuel), fuel,
          cells + SpaceOf(w, a, block.rest, u.l, fuel), s, n);
    } else {
      MovesTransitive(a.size, s, s2, s3);
      CallCode(w, a.c, block, st, next);
      n, s' := Resume(w, a, block, st, next, l, fuel, cells, s, n, s3, st1, u.l);
    }
  }
}
