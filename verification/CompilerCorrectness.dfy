/** The two passes of the compiler back end together: the machine does what the program means. */
module CompilerCorrectness {
  import opened Wrappers
  import opened KoalaBear
  import opened Machine
  import opened Ir
  import opened SimpleLang
  import opened CompilerSpec
  import opened Frames
  import opened Simulation
  import opened CallSimulation
  import opened ReturnSlots
  import opened Assembly
  import opened FrameSpace
  import opened Linking
  import opened DeadStoreElimination
  import opened Scoping
  import opened Preservation

  /** The machine at the first instruction of a function, in a frame that holds its header and arguments. */
  ghost predicate Entered(L: Layout, f: SimpleLang.Function, vs: seq<F>, s: State) {
    && |vs| == |f.arguments|
    && s.Running? && Label.Function(f.name) in L.pcs && s.pc == L.pcs[Label.Function(f.name)] && s.h == 0
    && f.name in L.sizes && s.fp < MEMORY_LIMIT && s.ap == s.fp + L.sizes[f.name]
    && (forall address {:trigger address in s.mem} :: s.fp <= address ==>
        (address in s.mem <==> address < s.fp + 2 + |vs|))
    && (forall i {:trigger vs[i]} :: 0 <= i < |vs| ==> s.fp + 2 + i in s.mem && s.mem[s.fp + 2 + i] == vs[i])
  }

  /** What a call of f with arguments vs means when every line counts. */
  function Meaning(p: Program, f: SimpleLang.Function, vs: seq<F>, fuel: nat): Outcome
    requires |vs| == |f.arguments|
  {
    Execute(p, false, {}, f.body, Local(Arguments(f), Bindings(f.arguments, vs)), fuel)
  }

  function MeaningWithoutDeadStores(p: Program, f: SimpleLang.Function, vs: seq<F>, fuel: nat): Outcome
    requires |vs| == |f.arguments|
  {
    Execute(p, true, DeadStores(f.body), f.body, Local(Arguments(f), Bindings(f.arguments, vs)), fuel)
  }

  /** The call ends at something the compiler leaves out. */
  predicate StopsAtDeadStore(p: Program, f: SimpleLang.Function, vs: seq<F>, fuel: nat)
    requires |vs| == |f.arguments|
  {
    StopsAtDead(p, DeadStores(f.body), f.body, Local(Arguments(f), Bindings(f.arguments, vs)), fuel)
  }

  /** What is left of a call: its meaning, unless the call ends at something that is left out and the rest goes on. */
  function MeaningOfCode(p: Program, f: SimpleLang.Function, vs: seq<F>, fuel: nat): Outcome
    requires |vs| == |f.arguments|
  {
    if StopsAtDeadStore(p, f, vs, fuel) then MeaningWithoutDeadStores(p, f, vs, fuel) else Meaning(p, f, vs, fuel)
  }

  lemma DropKeepsMeaning(p: Program, f: SimpleLang.Function, vs: seq<F>, fuel: nat)
    requires |vs| == |f.arguments|
    ensures var left, dropped := MeaningOfCode(p, f, vs, fuel), MeaningWithoutDeadStores(p, f, vs, fuel);
            && (left.Returns? || left.OutOfFuel? || left.Panics? ==> dropped == left)
            && (left.Falls? ==> dropped.Falls?)
    ensures StopsAtDeadStore(p, f, vs, fuel) ==> Meaning(p, f, vs, fuel) == Panics
  {
    hide Execute, DeadStores, StopsAtDead;
    var start, dead := Local(Arguments(f), Bindings(f.arguments, vs)), DeadStores(f.body);
    AlikeItself(start, f.body);
    NeverRead(f.body);
    DropKeeps(p, dead, f.body, start, start, fuel);
    if StopsAtDeadStore(p, f, vs, fuel) { StopIsPanic(p, dead, f.body, start, fuel); }
  }

  /** The code keeps the meaning, panics included, of every program whose dead stores are harmless. */
  lemma HarmlessKeepsMeaning(p: Program, name: string, vs: seq<F>, fuel: nat)
    requires AllHarmless(p) && name in p && |vs| == |p[name].arguments|
    ensures !StopsAtDeadStore(p, p[name], vs, fuel)
        && MeaningOfCode(p, p[name], vs, fuel) == Meaning(p, p[name], vs, fuel)
  {
    hide Execute, DeadStores, StopsAtDead, Bindings;
    var f := p[name];
    NeverRead(f.body);
    ArgumentsWithin(f, vs, DeadStores(f.body));
    HarmlessNeverStops(p, DeadStores(f.body), f.body, Local(Arguments(f), Bindings(f.arguments, vs)), Arguments(f),
        fuel);
  }

  /**
   * The callee's side of a call: control and fp as the header says,
   * the values in the return slots, nothing below fp touched.
   */
  ghost predicate CameBack(f: SimpleLang.Function, values: seq<F>, s: State, s': State)
    requires s.Running?
  {
    && s.fp in s.mem && s.fp + 1 in s.mem && s'.Running? && s'.pc == s.mem[s.fp] && s'.fp == s.mem[s.fp + 1]
    && (forall i {:trigger values[i]} :: 0 <= i < |values| ==> Has(s'.mem, s.fp + 2 + |f.arguments| + i, values[i]))
    && (forall address :: address in s.mem ==> address in s'.mem && s'.mem[address] == s.mem[address])
    && (forall address :: address in s'.mem && address < s.fp ==> address in s.mem)
  }

  /** The cells the code of a call takes for the frames of the functions it calls. */
  function FrameCells(p: Program, L: Layout, f: SimpleLang.Function, vs: seq<F>, fuel: nat): nat
    requires |vs| == |f.arguments|
  {
    Space(p, L.sizes, DeadStores(f.body), f.body, Local(Arguments(f), Bindings(f.arguments, vs)), fuel)
  }

  /** The machine n steps after it entered f, when the call has this outcome and takes so many cells for frames. */
  ghost predicate Delivers(outcome: Outcome, f: SimpleLang.Function, fuel: nat, cells: nat, s: State, n: nat, s': State)
    requires s.Running?
  {
    match outcome
    case Returns(values) => Exhausted(s', s.ap + cells) || (CameBack(f, values, s, s') && s'.ap == s.ap + cells)
    case OutOfFuel => Exhausted(s', s.ap + cells) || (s'.Running? && s'.pc != ENDING_PC && n >= fuel)
    case Panics => s'.Failed?
    case _ => true
  }

  /**
   * For every function, arguments and frame the compiled code does what the function does: in programs whose
   * dead stores are harmless always, in all programs unless the call ends at something that is left out.
   */
  lemma FunctionCorrect(fs: seq<SimpleLang.Function>, code: seq<Entry>, L: Layout, f: SimpleLang.Function, vs: seq<F>,
      fuel: nat, s: State) returns (n: nat, s': State)
    requires Compilable(fs) && LaidOut(IrOf(fs), code, L) && Fitting(fs, code)
    requires f.name in ProgramOf(fs) && ProgramOf(fs)[f.name] == f && f.name != "main" && Entered(L, f, vs, s)
    ensures s' == Run(code, s, n)
    ensures Delivers(MeaningOfCode(ProgramOf(fs), f, vs, fuel), f, fuel, FrameCells(ProgramOf(fs), L, f, vs, fuel), s,
        n, s')
    ensures AllHarmless(ProgramOf(fs)) ==>
        Delivers(Meaning(ProgramOf(fs), f, vs, fuel), f, fuel, FrameCells(ProgramOf(fs), L, f, vs, fuel), s, n, s')
  {
    hide LaidOut, Fitting, Linked, FunctionLinked, Execute, AllHarmless, StopsAtDead, EnterFunction, Bindings, Ready,
        Compile, DeadStores, Holding, HomeSlots, FreeSlots, Kept, Reaches, CameBack;
    var w := WorldOf(fs, code, L);
    CompiledIsLinked(fs, code, L);
    LinkedNow(w, f.name);
    if AllHarmless(w.p) { HarmlessKeepsMeaning(w.p, f.name, vs, fuel); }
    FunctionReady(w, f.name, vs, s);
    NotMain(w, f.name);
    DropKeepsMeaning(w.p, f, vs, fuel);
    n, s' := Simulate(w, ActivationIn(w, f.name), f.body, EnterFunction(f, w.starts[f.name]), None,
        Local(Arguments(f), Bindings(f.arguments, vs)), fuel, s);
    ReachedIsDelivered(w, f.name, MeaningWithoutDeadStores(w.p, f, vs, fuel), fuel, FrameCells(w.p, L, f, vs, fuel), s,
        n, s');
  }

  lemma ReachedIsDelivered(w: World, name: string, outcome: Outcome, fuel: nat, cells: nat, s: State, n: nat, s': State)
    requires FunctionLinked(w, name) && name != "main" && s.Running? && s.fp <= s.ap
    requires var f := w.p[name];
        Reaches(w, ActivationIn(w, name), Slots(EnterFunction(f, w.starts[name]).scopes),
        Compile(ActivationIn(w, name).c, f.body, EnterFunction(f, w.starts[name]), None).1.stackPos, None, outcome,
        fuel, cells, s, n, s')
    ensures Delivers(outcome, w.p[name], fuel, cells, s, n, s')
  {
    hide EnterFunction, Compile, Kept, Holding, Slots, CompileFunction, HomeSlots, FreeSlots, CollectReturnCoalescings;
    if s'.Running? && ReturnsTo(w.L.sizes[name], s, s') { BelowFrame(s.fp, w.L.sizes[name], s.ap, s.mem, s'.mem); }
  }

  lemma BelowFrame(fp: nat, top: nat, ap: nat, mem: Memory, mem': Memory)
    requires Kept(fp, top, ap, mem, mem') && fp <= ap
    ensures forall address :: address in mem ==> address in mem' && mem'[address] == mem[address]
    ensures forall address :: address in mem' && address < fp ==> address in mem
  {
  }

  lemma LinkedNow(w: World, name: string)
    requires Linked(w) && name in w.p
    ensures BlocksLinked(w) && FunctionLinked(w, name) && name in w.starts
        && ReturnsFit(w.p[name].body, w.p[name].nReturned)
  {
  }

  /** The machine as the runner starts it: at main, with the public input below its frame. */
  function Initial(L: Layout, fp: nat, mem: Memory): State
    requires "main" in L.sizes
  {
    Running(STARTING_PC, 0, fp, fp + L.sizes["main"], mem)
  }

  /** The machine n steps after its start, when main has this outcome and all frames together end at `top`. */
  ghost predicate Halts(outcome: Outcome, fuel: nat, top: nat, n: nat, s': State) {
    match outcome
    case Returns(_) => Exhausted(s', top) || (s'.Running? && s'.pc == ENDING_PC && s'.ap == top)
    case OutOfFuel => Exhausted(s', top) || (s'.Running? && s'.pc != ENDING_PC && n >= fuel)
    case Panics => s'.Failed?
    case _ => true
  }

  /** For every program and public input: the machine halts exactly as the program returns. */
  lemma ProgramCorrect(fs: seq<SimpleLang.Function>, code: seq<Entry>, L: Layout, fp: nat, mem: Memory, fuel: nat)
    returns (n: nat)
    requires Compilable(fs) && LaidOut(IrOf(fs), code, L) && Fitting(fs, code)
    requires "main" in ProgramOf(fs) && ProgramOf(fs)["main"].arguments == [] && "main" in L.sizes
    requires fp < MEMORY_LIMIT && forall address :: address in mem ==> address < fp
    ensures var p, main, s' := ProgramOf(fs), ProgramOf(fs)["main"], Run(code, Initial(L, fp, mem), n);
            var top := fp + L.sizes["main"] + FrameCells(p, L, main, [], fuel);
            && Halts(MeaningOfCode(p, main, [], fuel), fuel, top, n, s')
            && (AllHarmless(p) ==> Halts(Meaning(p, main, [], fuel), fuel, top, n, s'))
  {
    hide Fitting, Linked, FunctionLinked, Execute, AllHarmless, StopsAtDead, EnterFunction, Ready, Space, Slots,
        Holding, Kept, CompileFunction, Compile;
    var w, main := WorldOf(fs, code, L), ProgramOf(fs)["main"];
    CompiledIsLinked(fs, code, L);
    LinkedNow(w, "main");
    MainFacts(w);
    if AllHarmless(w.p) { HarmlessKeepsMeaning(w.p, "main", [], fuel); }
    var s := Initial(L, fp, mem);
    FunctionReady(w, "main", [], s);
    DropKeepsMeaning(w.p, main, [], fuel);
    var s';
    n, s' := Simulate(w, ActivationIn(w, "main"), main.body, EnterFunction(main, w.starts["main"]), None,
        Local(Arguments(main), Bindings(main.arguments, [])), fuel, s);
  }

  /**
   * With all frames inside the memory limit a program that returns halts at the ending pc, having taken exactly the
   * cells of its frames.
   */
  lemma EnoughMemory(fs: seq<SimpleLang.Function>, code: seq<Entry>, L: Layout, fp: nat, mem: Memory, fuel: nat)
    returns (n: nat)
    requires Compilable(fs) && LaidOut(IrOf(fs), code, L) && Fitting(fs, code)
    requires "main" in ProgramOf(fs) && ProgramOf(fs)["main"].arguments == [] && "main" in L.sizes
    requires fp < MEMORY_LIMIT && forall address :: address in mem ==> address < fp
    requires Meaning(ProgramOf(fs), ProgramOf(fs)["main"], [], fuel).Returns?
    requires fp + L.sizes["main"] + FrameCells(ProgramOf(fs), L, ProgramOf(fs)["main"], [], fuel) <= MEMORY_LIMIT
    ensures var s' := Run(code, Initial(L, fp, mem), n);
        && s'.Running? && s'.pc == ENDING_PC
        && s'.ap == fp + L.sizes["main"] + FrameCells(ProgramOf(fs), L, ProgramOf(fs)["main"], [], fuel)
  {
    hide Fitting, LaidOut, Execute, AllHarmless, StopsAtDead, Compilable, IrOf, FrameCells;
    n := ProgramCorrect(fs, code, L, fp, mem, fuel);
    DropKeepsMeaning(ProgramOf(fs), ProgramOf(fs)["main"], [], fuel);
  }

  lemma MainFacts(w: World)
    requires FunctionLinked(w, "main")
    ensures ActivationIn(w, "main").c.isMain && ActivationIn(w, "main").c.dead == DeadStores(w.p["main"].body)
        && w.p["main"].name == "main"
  {
  }

  lemma SameEnd(code: seq<Entry>, s: State, m: nat, n: nat)
    requires var a := Run(code, s, m); a.Failed? || a.pc == ENDING_PC
    requires n >= m
    ensures Run(code, s, n) == Run(code, s, m)
  {
    RunAdd(code, s, m, n - m);
    HaltedStays(code, Run(code, s, m), n - m);
  }

  /**
   * A machine that halts ran a program that returns, unless the program has no meaning, or
   * its panic came from something that is left out and the rest of the run does not panic.
   */
  lemma HaltMeansReturn(fs: seq<SimpleLang.Function>, code: seq<Entry>, L: Layout, fp: nat, mem: Memory, steps: nat)
    requires Compilable(fs) && LaidOut(IrOf(fs), code, L) && Fitting(fs, code)
    requires "main" in ProgramOf(fs) && ProgramOf(fs)["main"].arguments == [] && "main" in L.sizes
    requires fp < MEMORY_LIMIT && forall address :: address in mem ==> address < fp
    requires var s := Run(code, Initial(L, fp, mem), steps); s.Running? && s.pc == ENDING_PC
    ensures var p, main := ProgramOf(fs), ProgramOf(fs)["main"];
            var outcome := Meaning(p, main, [], steps);
            || outcome.Returns? || outcome.Falls? || outcome.Undefined? || outcome.OutsideArms?
            || (outcome.Panics? && StopsAtDeadStore(p, main, [], steps)
                && !MeaningWithoutDeadStores(p, main, [], steps).Panics? && !AllHarmless(p))
  {
    hide Fitting, LaidOut, Execute, AllHarmless, StopsAtDead, Compilable, IrOf;
    var n := ProgramCorrect(fs, code, L, fp, mem, steps);
    DropKeepsMeaning(ProgramOf(fs), ProgramOf(fs)["main"], [], steps);
    var s := Initial(L, fp, mem);
    var a := Run(code, s, n);
    if a.Failed? && n <= steps { SameEnd(code, s, n, steps); }
    if n >= steps { SameEnd(code, s, steps, n); }
  }

  /** A checked program always has a meaning, so a machine that halts ran one that returned. */
  lemma CheckedHaltMeansReturn(fs: seq<SimpleLang.Function>, code: seq<Entry>, L: Layout, fp: nat, mem: Memory,
      steps: nat)
    requires Compilable(fs) && LaidOut(IrOf(fs), code, L) && Fitting(fs, code) && Checked(ProgramOf(fs))
    requires "main" in ProgramOf(fs) && ProgramOf(fs)["main"].arguments == [] && "main" in L.sizes
    requires fp < MEMORY_LIMIT && forall address :: address in mem ==> address < fp
    requires var s := Run(code, Initial(L, fp, mem), steps); s.Running? && s.pc == ENDING_PC
    ensures var p, main := ProgramOf(fs), ProgramOf(fs)["main"];
            var outcome := Meaning(p, main, [], steps);
            || outcome.Returns? || outcome.OutsideArms?
            || (outcome.Panics? && StopsAtDeadStore(p, main, [], steps)
                && !MeaningWithoutDeadStores(p, main, [], steps).Panics? && !AllHarmless(p))
  {
    hide Fitting, LaidOut, Execute, AllHarmless, StopsAtDead, Compilable, IrOf, Checked, Initial, Bindings;
    HaltMeansReturn(fs, code, L, fp, mem, steps);
    CalleeIsDefined(ProgramOf(fs), "main", [], steps);
  }
}
