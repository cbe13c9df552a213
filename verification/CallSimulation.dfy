/** A call: a fresh frame with the return address, the caller's fp and the arguments; then the results come back. */
module CallSimulation {
  import opened Wrappers
  import opened KoalaBear
  import opened Machine
  import opened Ir
  import opened SimpleLang
  import opened CompilerSpec
  import opened CompilerInvariants
  import opened Frames
  import opened Simulation
  import opened ReturnSlots

  // -- Building the callee's frame ---------------------------------------------------------

  function WithArguments(mem: Memory, base: nat, vs: seq<F>, n: nat): Memory
    requires n <= |vs|
  {
    if n == 0 then mem else WithArguments(mem, base, vs, n - 1)[base + 2 + (n - 1) := vs[n - 1]]
  }

  lemma {:induction false} ArgumentCells(mem: Memory, base: nat, vs: seq<F>, n: nat)
    requires n <= |vs| && forall address :: address in mem ==> address < base + 2
    ensures var m := WithArguments(mem, base, vs, n);
            && (forall address :: address in m <==> address in mem || base + 2 <= address < base + 2 + n)
            && (forall address :: address in mem ==> m[address] == mem[address])
            && (forall i {:trigger vs[i]} :: 0 <= i < n ==> m[base + 2 + i] == vs[i])
  {
    if n > 0 { ArgumentCells(mem, base, vs, n - 1); }
  }

  lemma LookupAllAt(os: seq<Operand>, scope: set<Var>, env: Env, i: nat)
    requires LookupAll(os, scope, env).Some? && i < |os|
    ensures Lookup(os[i], scope, env) == Some(LookupAll(os, scope, env).value[i])
    decreases |os|
  {
    if i > 0 { LookupAllAt(os[1..], scope, env, i - 1); }
  }

  /** The header of the new frame at `base` is written and nothing beyond it. */
  ghost predicate Prepared(a: Activation, scopes: Scopes, pos: nat, l: Local, base: nat, fp: nat, mem: Memory) {
    && Fits(a, Slots(scopes), pos, l.scope) && pos < a.size && fp + a.size <= base < MEMORY_LIMIT && base + 2 <= P
    && fp + pos in mem && mem[fp + pos] == base
    && (forall x :: x in Slots(scopes) && x in l.env ==>
        fp + Slots(scopes)[x] in mem && mem[fp + Slots(scopes)[x]] == l.env[x])
    && (forall address :: address in mem ==> address < base + 2)
  }

  lemma ArgumentReads(a: Activation, scopes: Scopes, pos: nat, l: Local, base: nat, fp: nat, mem: Memory, vs: seq<F>,
      n: nat, o: Operand, L: Layout)
    requires Prepared(a, scopes, pos, l, base, fp, mem) && n <= |vs| && Lookup(o, l.scope, l.env).Some? && a.size < P
    ensures var m := WithArguments(mem, base, vs, n);
            && Plain(ValueOf(o, scopes)) && ReadValue(ValueOf(o, scopes), L, m, fp) == Lookup(o, l.scope, l.env)
            && fp + pos in m && m[fp + pos] == base && base + 2 + n !in m
  {
    ArgumentCells(mem, base, vs, n);
    if o.Variable? {
      SlotsAreOffsets(scopes, o.name);
      assert o.name in Slots(scopes).Keys;
    }
  }

  /** Each argument is written to its cell of the new frame. */
  lemma {:induction false} ArgumentsRun(w: World, a: Activation, scopes: Scopes, pos: nat, l: Local, args: seq<Operand>,
      i: nat, base: nat, mem: Memory, tail: seq<Instr>, s: State) returns (n: nat, s': State)
    requires i <= |args| && |args| + 2 < P && LookupAll(args, l.scope, l.env).Some? && pos < a.size < P
    requires At(w.code, w.L, CopyArguments(args, i, pos, scopes) + tail, s) && base + 2 + |args| <= s.ap
    requires Prepared(a, scopes, pos, l, base, s.fp, mem)
        && s.mem == WithArguments(mem, base, LookupAll(args, l.scope, l.env).value, i)
    ensures s' == Run(w.code, s, n)
    ensures Exhausted(s', s.ap) ||
            (At(w.code, w.L, tail, s') && s'.fp == s.fp && s'.ap == s.ap
                && s'.mem == WithArguments(mem, base, LookupAll(args, l.scope, l.env).value, |args|))
    decreases |args| - i
  {
    hide Placed, Prepared;
    var vs := LookupAll(args, l.scope, l.env).value;
    n, s' := 0, s;
    if i == |args| {
      assert [] + tail == tail;
    } else {
      var rest := CopyArguments(args, i + 1, pos, scopes);
      assert ([Instr.Deref(pos, 2 + i, ValueOf(args[i], scopes))] + rest) + tail
          == [Instr.Deref(pos, 2 + i, ValueOf(args[i], scopes))] + (rest + tail);
      LookupAllAt(args, l.scope, l.env, i);
      ArgumentReads(a, scopes, pos, l, base, s.fp, mem, vs, i, args[i], w.L);
      StepDeref(w.code, w.L, pos, 2 + i, ValueOf(args[i], scopes), rest + tail, s);
      var s1 := Step(w.code, s);
      RunOne(w.code, s);
      n, s' := 1, s1;
      if s1.Running? {
        var m;
        m, s' := ArgumentsRun(w, a, scopes, pos, l, args, i + 1, base, mem, tail, s1);
        RunAdd(w.code, s, 1, m);
        n := 1 + m;
      }
    }
  }

  function WithHeader(mem: Memory, fp: nat, pos: nat, base: F, back: F, caller: F): Memory {
    mem[fp + pos := base][base := back][base + 1 := caller]
  }

  lemma RequestStep(w: World, a: Activation, slots: map<Var, nat>, pos: nat, l: Local, callee: string, rest: seq<Instr>,
      s: State)
    requires At(w.code, w.L, [Instr.RequestMemory(pos, Const(FunctionSize(callee)))] + rest, s)
    requires Fits(a, slots, pos, l.scope) && pos < a.size && Holding(a, slots, pos, l.env, s.fp, s.ap, s.mem)
    requires callee in w.L.sizes && w.L.sizes[callee] < P
    ensures var s' := Step(w.code, s);
            Exhausted(s', s.ap) ||
            (At(w.code, w.L, rest, s') && s'.fp == s.fp && s'.ap == s.ap + w.L.sizes[callee]
                && s'.mem == s.mem[s.fp + pos := s.ap])
  {
    hide Placed, Fits, Holding, Kept, Step, FMul, FAdd, FNeg, FInv;
    HoldingBounds(a, slots, pos, l.env, s.fp, s.ap, s.mem);
    TemporaryCell(a, slots, pos, l, s.ap, s.fp, s.ap, s.mem);
    StepRequest(w.code, w.L, pos, Const(FunctionSize(callee)), rest, s);
  }

  /** A known value is sent through a pointer to a cell that is free. */
  lemma SendStep(w: World, pos: nat, shift: nat, v: Value, x: F, base: nat, rest: seq<Instr>, s: State)
    requires At(w.code, w.L, [Instr.Deref(pos, shift, v)] + rest, s)
    requires pos < P && shift < P && PlainOrFp(v) && ReadValue(v, w.L, s.mem, s.fp) == Some(x)
    requires s.fp + pos in s.mem && s.mem[s.fp + pos] == base && base + shift !in s.mem && base + shift < s.ap
    ensures var s' := Step(w.code, s);
            Exhausted(s', s.ap) ||
            (At(w.code, w.L, rest, s') && base + shift < MEMORY_LIMIT && s'.fp == s.fp && s'.ap == s.ap
                && s'.mem == s.mem[base + shift := x])
  {
    hide Placed;
    StepDeref(w.code, w.L, pos, shift, v, rest, s);
  }

  /** The new frame starts at the old ap and begins with the return pc and the caller's fp. */
  lemma HeaderRuns(w: World, a: Activation, slots: map<Var, nat>, pos: nat, l: Local, callee: string, back: Label,
      rest: seq<Instr>, s: State) returns (n: nat, s': State)
    requires At(w.code, w.L, [Instr.RequestMemory(pos, Const(FunctionSize(callee)))]
        + ([Instr.Deref(pos, 0, LabelValue(back))] + ([Instr.Deref(pos, 1, Fp(0))] + rest)), s)
    requires Fits(a, slots, pos, l.scope) && pos < a.size && Holding(a, slots, pos, l.env, s.fp, s.ap, s.mem)
    requires callee in w.L.sizes && 2 <= w.L.sizes[callee] <= P - MEMORY_LIMIT && back in w.L.pcs && w.L.pcs[back] < P
    ensures s' == Run(w.code, s, n) && n > 0
    ensures Exhausted(s', s.ap + w.L.sizes[callee]) ||
            (At(w.code, w.L, rest, s') && s.ap < MEMORY_LIMIT && s'.fp == s.fp && s'.ap == s.ap + w.L.sizes[callee]
             && s'.mem == WithHeader(s.mem, s.fp, pos, s.ap, w.L.pcs[back], s.fp))
  {
    hide Placed, Fits, Holding, Step, FMul, FAdd, FNeg, FInv;
    HoldingBounds(a, slots, pos, l.env, s.fp, s.ap, s.mem);
    NewFrameIsFree(a, slots, pos, l.env, s.fp, s.ap, s.mem);
    var i2 := [Instr.Deref(pos, 1, Fp(0))] + rest;
    var i1 := [Instr.Deref(pos, 0, LabelValue(back))] + i2;
    RequestStep(w, a, slots, pos, l, callee, i1, s);
    RunOne(w.code, s);
    var s1 := Step(w.code, s);
    n, s' := 1, s1;
    if s1.Running? {
      SendStep(w, pos, 0, LabelValue(back), w.L.pcs[back], s.ap, i2, s1);
      RunOne(w.code, s1);
      RunAdd(w.code, s, 1, 1);
      var s2 := Step(w.code, s1);
      n, s' := 2, s2;
      if s2.Running? {
        SendStep(w, pos, 1, Fp(0), s.fp, s.ap, rest, s2);
        RunOne(w.code, s2);
        RunAdd(w.code, s, 2, 1);
        n, s' := 3, Step(w.code, s2);
      }
    }
  }

  lemma NewFrameIsFree(a: Activation, slots: map<Var, nat>, pos: nat, env: Env, fp: nat, ap: nat, mem: Memory)
    requires Holding(a, slots, pos, env, fp, ap, mem)
    ensures forall address :: address in mem ==> address < ap
  {
  }

  lemma HeaderPrepares(a: Activation, scopes: Scopes, pos: nat, l: Local, fp: nat, base: F, back: F, mem: Memory)
    requires Fits(a, Slots(scopes), pos, l.scope) && pos < a.size
        && Holding(a, Slots(scopes), pos, l.env, fp, base, mem) && base < MEMORY_LIMIT
    ensures Prepared(a, scopes, pos, l, base, fp, WithHeader(mem, fp, pos, base, back, fp))
  {
    hide Fits;
    assert Vacant(a, pos, fp, base, fp + pos);
  }

  /** The whole setup: the callee starts in a frame that holds its header and arguments and nothing else. */
  lemma SetupRuns(w: World, a: Activation, scopes: Scopes, pos: nat, l: Local, callee: string, args: seq<Operand>,
      back: Label, s: State) returns (n: nat, s': State)
    requires At(w.code, w.L, CallSetup(callee, args, pos, back, scopes), s)
    requires Fits(a, Slots(scopes), pos, l.scope) && pos < a.size
        && Holding(a, Slots(scopes), pos, l.env, s.fp, s.ap, s.mem)
    requires callee in w.L.sizes && |args| + 2 <= w.L.sizes[callee] <= P - MEMORY_LIMIT && back in w.L.pcs
        && w.L.pcs[back] < P
    requires Label.Function(callee) in w.L.pcs && w.L.pcs[Label.Function(callee)] < P
        && LookupAll(args, l.scope, l.env).Some?
    ensures s' == Run(w.code, s, n) && n > 0
    ensures Exhausted(s', s.ap + w.L.sizes[callee]) ||
            (s' == Running(w.L.pcs[Label.Function(callee)], 0, s.ap, s.ap + w.L.sizes[callee],
                           WithArguments(WithHeader(s.mem, s.fp, pos, s.ap, w.L.pcs[back], s.fp), s.ap,
                               LookupAll(args, l.scope, l.env).value, |args|))
             && s.ap < MEMORY_LIMIT)
  {
    hide Placed, Fits, Holding, Prepared, WithHeader;
    var jump := [Instr.Jump(LabelValue(Label.Function(callee)), Some(Mem(pos)))];
    var copies := CopyArguments(args, 0, pos, scopes);
    HoldingBounds(a, Slots(scopes), pos, l.env, s.fp, s.ap, s.mem);
    n, s' := HeaderRuns(w, a, Slots(scopes), pos, l, callee, back, copies + jump, s);
    if s'.Running? {
      var s1 := s';
      HeaderPrepares(a, scopes, pos, l, s.fp, s.ap, w.L.pcs[back], s.mem);
      var m;
      m, s' := ArgumentsRun(w, a, scopes, pos, l, args, 0, s.ap, s1.mem, jump, s1);
      RunAdd(w.code, s, n, m);
      n := n + m;
      if s'.Running? {
        var s2 := s';
        var k := CallJumps(w, a, scopes, pos, l, callee, LookupAll(args, l.scope, l.env).value, s.ap, s1.mem, s2);
        RunAdd(w.code, s, n, k);
        n, s' := n + k, Run(w.code, s2, k);
      }
    }
  }

  lemma CallJumps(w: World, a: Activation, scopes: Scopes, pos: nat, l: Local, callee: string, vs: seq<F>, base: nat,
      mem: Memory, s: State) returns (n: nat)
    requires At(w.code, w.L, [Instr.Jump(LabelValue(Label.Function(callee)), Some(Mem(pos)))], s)
    requires Prepared(a, scopes, pos, l, base, s.fp, mem) && s.mem == WithArguments(mem, base, vs, |vs|) && a.size < P
    requires Label.Function(callee) in w.L.pcs && w.L.pcs[Label.Function(callee)] < P
    ensures Run(w.code, s, n) == Running(w.L.pcs[Label.Function(callee)], 0, base, s.ap, s.mem)
  {
    ArgumentReads(a, scopes, pos, l, base, s.fp, mem, vs, |vs|, Literal(0), w.L);
    var jump := [Instr.Jump(LabelValue(Label.Function(callee)), Some(Mem(pos)))];
    assert jump == jump + [];
    StepJump(w.code, w.L, LabelValue(Label.Function(callee)), Some(Mem(pos)), [], s);
    RunOne(w.code, s);
    n := 1;
  }

  // -- Entering the callee --------------------------------------------------------------------

  /**
   * Function f was compiled from a tidy state into the stored
   * code, and its frame leaves room for addresses in the field.
   */
  ghost predicate FunctionLinked(w: World, name: string) {
    && name in w.p && name in w.starts && name in w.L.sizes && Label.Function(name) in w.blocks
    && var f, st := w.p[name], w.starts[name];
    && f.name == name && ReturnsFit(f.body, f.nReturned) && Tidy(st)
    && (name != "main" ==> ReturnsInPlace(CollectReturnCoalescings(f), f.body))
    && var r := CompileFunction(f, st);
    && StoredIn(w, r.1) && w.blocks[Label.Function(name)] == r.0
    && w.L.sizes[name] == r.1.stackSize <= P - MEMORY_LIMIT
  }

  ghost predicate Linked(w: World) {
    BlocksLinked(w) && ArmsLinked(w) && (forall name :: name in w.p ==> FunctionLinked(w, name))
  }

  function ActivationIn(w: World, name: string): Activation
    requires FunctionLinked(w, name)
  {
    ActivationOf(w.p[name], w.L.sizes[name])
  }

  /** A frame with nothing but header and arguments, at the function's first instruction, is ready for its body. */
  lemma FunctionReady(w: World, name: string, vs: seq<F>, s: State)
    requires BlocksLinked(w) && FunctionLinked(w, name) && |vs| == |w.p[name].arguments|
    requires s.Running? && s.pc == w.L.pcs[Label.Function(name)] && s.h == 0 && s.fp < MEMORY_LIMIT
        && s.ap == s.fp + w.L.sizes[name]
    requires if name == "main" then vs == [] && forall address :: address in s.mem ==> address < s.fp
             else forall address {:trigger address in s.mem} :: s.fp <= address ==>
                 (address in s.mem <==> address < s.fp + 2 + |vs|)
    requires forall i {:trigger vs[i]} :: 0 <= i < |vs| ==> s.fp + 2 + i in s.mem && s.mem[s.fp + 2 + i] == vs[i]
    ensures var f := w.p[name];
            Ready(w, ActivationIn(w, name), f.body, EnterFunction(f, w.starts[name]), None,
                Local(Arguments(f), Bindings(f.arguments, vs)), s)
  {
    hide Placed, Fits, Holding, StoredIn, ReturnsOk, ReturnsInPlace, BlocksLinked, HomeSlots, FreeSlots,
        CollectReturnCoalescings;
    var f, st := w.p[name], w.starts[name];
    var st0, size := EnterFunction(f, st), w.L.sizes[name];
    CompileKeepsScopes(ContextOf(f), f.body, st0, None);
    TidyStart(f, st);
    StartFits(f, st, size);
    StartHolds(f, st, size, vs, s.fp, s.ap, s.mem);
    BlockAt(w, Label.Function(name), s);
    BodyReturnsOk(f);
  }

  lemma TidyStart(f: SimpleLang.Function, st: CState)
    requires ReturnsFit(f.body, f.nReturned) && Tidy(st)
    ensures Tidy(EnterFunction(f, st))
  {
    var st0 := EnterFunction(f, st);
    forall l | l in st0.bytecode ensures Below(l, st0) { assert Below(l, st); }
  }

  lemma BodyReturnsOk(f: SimpleLang.Function)
    requires ReturnsFit(f.body, f.nReturned)
        && (f.name != "main" ==> ReturnsInPlace(CollectReturnCoalescings(f), f.body))
    ensures ReturnsOk(ContextOf(f), HomeSlots(f), FreeSlots(f), f.body)
  {
    if f.name == "main" {
      MainReturnsOk(ContextOf(f), HomeSlots(f), FreeSlots(f), f.body);
    } else { FunctionReturnsOk(f); }
  }

  lemma {:induction false} MainReturnsOk(c: Context, homes: map<Var, nat>, free: set<nat>, block: Block)
    requires c.isMain
    ensures ReturnsOk(c, homes, free, block)
    decreases block
  {
    if block.Then? {
      MainReturnsOk(c, homes, free, block.rest);
      match block.line
      case IfNotZero(_, x, y) => MainReturnsOk(c, homes, free, x); MainReturnsOk(c, homes, free, y);
      case Match(_, arms, _) => MainArmsOk(c, homes, free, arms);
      case _ =>
    }
  }

  lemma {:induction false} MainArmsOk(c: Context, homes: map<Var, nat>, free: set<nat>, arms: Arms)
    requires c.isMain
    ensures ArmsOk(c, homes, free, arms)
    decreases arms
  {
    if arms.Arm? { MainReturnsOk(c, homes, free, arms.body); MainArmsOk(c, homes, free, arms.others); }
  }

  function CallerState(st: CState, block: Block): CState
    requires block.Then? && block.line.FunctionCall?
  {
    RegisterAll(EnterCall(st), block.line.results)
  }

  lemma CallOffsets(c: Context, block: Block, st: CState, next: Option<Label>)
    requires block.Then? && block.line.FunctionCall?
    ensures var st1 := CallerState(st, block);
            st.stackPos < st1.stackPos <= Compile(c, block.rest, st1, next).1.stackPos
                == Compile(c, block, st, next).1.stackPos
  {
    RegisterAllGrows(EnterCall(st), block.line.results);
    CompileKeepsScopes(c, block.rest, CallerState(st, block), next);
  }

  lemma CallCode(w: World, c: Context, block: Block, st: CState, next: Option<Label>)
    requires block.Then? && block.line.FunctionCall? && Tidy(st) && StoredIn(w, Compile(c, block, st, next).1)
    ensures var back, st1 := ReturnFromCall(st.callCounter), CallerState(st, block);
            var r := Compile(c, block.rest, st1, next);
            && Tidy(st1) && StoredIn(w, r.1) && back in w.blocks
            && w.blocks[back] == CopyResults(block.line.results, 0, st.stackPos, |block.line.args|, st1.scopes) + r.0
  {
    CallExtends(c, block, st, next);
    ContainedIsStored(w, Compile(c, block.rest, CallerState(st, block), next).1, Compile(c, block, st, next).1);
  }

  /**
   * s1 is the start of the callee: the caller's memory gained the pointer to the new frame, and the header leads back.
   */
  ghost predicate Called(st: CState, back: nat, s: State, s1: State) {
    && s.Running? && s1.Running? && s1.fp == s.ap <= s1.ap
    && s.ap in s1.mem && s1.mem[s.ap] == back && s.ap + 1 in s1.mem && s1.mem[s.ap + 1] == s.fp
    && s.fp + st.stackPos in s1.mem && s1.mem[s.fp + st.stackPos] == s.ap
    && (forall address :: address in s.mem ==> address in s1.mem && s1.mem[address] == s.mem[address])
    && (forall address :: address in s1.mem ==> address in s.mem || address == s.fp + st.stackPos || s.ap <= address)
  }

  lemma CallEnters(w: World, a: Activation, block: Block, st: CState, next: Option<Label>, l: Local, s: State)
    returns (n: nat, s1: State)
    requires Linked(w) && Ready(w, a, block, st, next, l, s) && block.Then? && block.line.FunctionCall?
    requires block.line.callee in w.p && block.line.callee != "main" && LookupAll(block.line.args, l.scope, l.env).Some?
    requires |block.line.args| == |w.p[block.line.callee].arguments|
    ensures var name, vs := block.line.callee, LookupAll(block.line.args, l.scope, l.env).value; var f := w.p[name];
            s1 == Run(w.code, s, n) && n > 0 && FunctionLinked(w, name) && ReturnFromCall(st.callCounter) in w.L.pcs &&
            (Exhausted(s1, s.ap + w.L.sizes[name]) ||
             (Called(st, w.L.pcs[ReturnFromCall(st.callCounter)], s, s1) && s1.ap == s.ap + w.L.sizes[name]
              && Ready(w, ActivationIn(w, name), f.body, EnterFunction(f, w.starts[name]), None,
                  Local(Arguments(f), Bindings(f.arguments, vs)), s1)))
  {
    hide Placed, Fits, Holding, StoredIn, ReturnsOk, EnterFunction, FunctionLinked, BlocksLinked, ArmsLinked,
        WithArguments, WithHeader, LookupAll, Bindings, Tidy;
    var name, vs, back := block.line.callee, LookupAll(block.line.args, l.scope, l.env).value,
        ReturnFromCall(st.callCounter);
    LinkedFunction(w, name);
    CallOffsets(a.c, block, st, next);
    CallCode(w, a.c, block, st, next);
    LinkedLabel(w, back);
    FrameHoldsArguments(w, name);
    n, s1 := SetupRuns(w, a, st.scopes, st.stackPos, l, name, block.line.args, back, s);
    if s1.Running? {
      var base := s.ap;
      HoldingBounds(a, Slots(st.scopes), st.stackPos, l.env, s.fp, s.ap, s.mem);
      NewFrameIsFree(a, Slots(st.scopes), st.stackPos, l.env, s.fp, s.ap, s.mem);
      VacantOffset(a, Slots(st.scopes), st.stackPos, l.env, s.fp, s.ap, s.mem, st.stackPos);
      FrameContents(s.mem, s.fp, st.stackPos, s.ap, w.L.pcs[back], vs);
      FunctionReady(w, name, vs, s1);
    }
  }

  lemma LinkedLabel(w: World, l: Label)
    requires BlocksLinked(w) && l in w.blocks
    ensures l in w.L.pcs && 0 < w.L.pcs[l] < P
  {
  }

  lemma LinkedFunction(w: World, name: string)
    requires Linked(w) && name in w.p
    ensures FunctionLinked(w, name) && name in w.L.sizes && w.L.sizes[name] <= P - MEMORY_LIMIT
        && w.p[name].name == name
    ensures Label.Function(name) in w.L.pcs && 0 < w.L.pcs[Label.Function(name)] < P
  {
    LinkedLabel(w, Label.Function(name));
  }

  lemma FrameHoldsArguments(w: World, name: string)
    requires FunctionLinked(w, name)
    ensures 2 + |w.p[name].arguments| + w.p[name].nReturned <= w.L.sizes[name]
  {
    var f := w.p[name];
    CompileKeepsScopes(ContextOf(f), f.body, EnterFunction(f, w.starts[name]), None);
  }

  lemma FrameContents(mem: Memory, fp: nat, pos: nat, base: F, back: F, vs: seq<F>)
    requires fp < P && fp + pos < base && fp + pos !in mem && forall address :: address in mem ==> address < base
    ensures var m := WithArguments(WithHeader(mem, fp, pos, base, back, fp), base, vs, |vs|);
            && base in m && m[base] == back && base + 1 in m && m[base + 1] == fp && fp + pos in m
            && m[fp + pos] == base
            && (forall address :: address in mem ==> address in m && m[address] == mem[address])
            && (forall address :: address in m ==> address in mem || address == fp + pos || base <= address)
            && (forall address {:trigger address in m} :: base <= address ==>
                (address in m <==> address < base + 2 + |vs|))
            && (forall i {:trigger vs[i]} :: 0 <= i < |vs| ==> base + 2 + i in m && m[base + 2 + i] == vs[i])
  {
    ArgumentCells(WithHeader(mem, fp, pos, base, back, fp), base, vs, |vs|);
  }

  // -- Coming back -------------------------------------------------------------------------------

  /** Each result cell is compared with a result variable that has a value, or gives it one. */
  lemma ResultStep(w: World, a: Activation, scopes: Scopes, top: nat, l: Local, x: Var, pos: nat, shift: nat, base: nat,
      v: F, rest: seq<Instr>, s: State)
    requires At(w.code, w.L, [Instr.Deref(pos, shift, ValueOf(Variable(x), scopes))] + rest, s)
    requires Fits(a, Slots(scopes), top, l.scope) && top <= a.size
        && Holding(a, Slots(scopes), top, l.env, s.fp, s.ap, s.mem)
    requires x in l.scope && pos < P && shift < P && s.fp + pos in s.mem && s.mem[s.fp + pos] == base
        && base + shift in s.mem && s.mem[base + shift] == v
    ensures var s' := Step(w.code, s);
            match Unify(l, Variable(x), v)
            case Stops(outcome) => outcome.Panics? && s'.Failed?
            case Continues(l1) =>
              Exhausted(s', s.ap) ||
              (At(w.code, w.L, rest, s') && Moves(a.size, s, s') && s'.ap == s.ap && l1.scope == l.scope
                  && Holding(a, Slots(scopes), top, l1.env, s'.fp, s'.ap, s'.mem))
  {
    hide Placed, Fits, Holding, Kept;
    ValueReads(a, scopes, top, l, Variable(x), w.L, s.fp, s.ap, s.mem);
    HoldingBounds(a, Slots(scopes), top, l.env, s.fp, s.ap, s.mem);
    StepDeref(w.code, w.L, pos, shift, ValueOf(Variable(x), scopes), rest, s);
    KeptReflexive(s.fp, a.size, s.ap, s.mem);
    NewFrameIsFree(a, Slots(scopes), top, l.env, s.fp, s.ap, s.mem);
    if x !in l.env {
      BindCell(a, Slots(scopes), top, l, x, v, s.fp, s.ap, s.mem);
    }
  }

  lemma {:induction false} ResultsRun(w: World, a: Activation, scopes: Scopes, top: nat, l: Local, results: seq<Var>,
      i: nat, values: seq<F>, pos: nat, nArgs: nat, base: nat, tail: seq<Instr>, s: State)
    returns (n: nat, s': State)
    requires i <= |results| == |values| && pos < P && 2 + nArgs + |results| < P
        && (forall x :: x in results ==> x in l.scope)
    requires At(w.code, w.L, CopyResults(results, i, pos, nArgs, scopes) + tail, s)
    requires Fits(a, Slots(scopes), top, l.scope) && top <= a.size
        && Holding(a, Slots(scopes), top, l.env, s.fp, s.ap, s.mem)
    requires s.fp + pos in s.mem && s.mem[s.fp + pos] == base && Delivered(values, base + 2 + nArgs, s.mem)
    ensures s' == Run(w.code, s, n)
    ensures match UnifyAll(l, results[i..], values[i..])
            case Stops(outcome) => outcome.Panics? && s'.Failed?
            case Continues(l1) =>
              Exhausted(s', s.ap) ||
              (At(w.code, w.L, tail, s') && Moves(a.size, s, s') && s'.ap == s.ap && l1.scope == l.scope
                  && Holding(a, Slots(scopes), top, l1.env, s'.fp, s'.ap, s'.mem))
    decreases |results| - i
  {
    hide Placed, Fits, Holding;
    n, s' := 0, s;
    if i == |results| {
      assert [] + tail == tail;
    } else {
      var rest := CopyResults(results, i + 1, pos, nArgs, scopes);
      var first := [Instr.Deref(pos, 2 + nArgs + i, ValueOf(Variable(results[i]), scopes))];
      assert (first + rest) + tail == first + (rest + tail);
      assert results[i..][1..] == results[i + 1..] && values[i..][1..] == values[i + 1..];
      assert Has(s.mem, base + 2 + nArgs + i, values[i]);
      assert base + 2 + nArgs + i == base + (2 + nArgs + i);
      ResultStep(w, a, scopes, top, l, results[i], pos, 2 + nArgs + i, base, values[i], rest + tail, s);
      var s1, u := Step(w.code, s), Unify(l, Variable(results[i]), values[i]);
      RunOne(w.code, s);
      n, s' := 1, s1;
      if s1.Running? && u.Continues? {
        DeliveredKept(values, base + 2 + nArgs, s.fp, a.size, s.ap, s.mem, s1.mem);
        var m;
        m, s' := ResultsRun(w, a, scopes, top, u.l, results, i + 1, values, pos, nArgs, base, tail, s1);
        RunAdd(w.code, s, 1, m);
        n := 1 + m;
        if s'.Running? { MovesTransitive(a.size, s, s1, s'); }
      }
    }
  }

  lemma DeliveredKept(values: seq<F>, base: nat, fp: nat, top: nat, ap: nat, mem: Memory, mem': Memory)
    requires Delivered(values, base, mem) && Kept(fp, top, ap, mem, mem')
    ensures Delivered(values, base, mem')
  {
  }

  /**
   * Back from the callee: at the code that copies the results, with the caller's names intact and the targets in scope.
   */
  lemma CallReturns(w: World, a: Activation, block: Block, st: CState, next: Option<Label>, l: Local, s: State,
      s1: State, size: nat, s2: State)
    requires BlocksLinked(w) && Ready(w, a, block, st, next, l, s) && block.Then? && block.line.FunctionCall?
    requires ReturnFromCall(st.callCounter) in w.L.pcs && Called(st, w.L.pcs[ReturnFromCall(st.callCounter)], s, s1)
        && ReturnsTo(size, s1, s2)
    requires IntroduceAll(l, block.line.results, a.c.dead).Some?
    ensures var st1, l1 := CallerState(st, block), IntroduceAll(l, block.line.results, a.c.dead).value;
            && At(w.code, w.L, CopyResults(block.line.results, 0, st.stackPos, |block.line.args|,
                st1.scopes) + Compile(a.c, block.rest, st1, next).0, s2)
            && Moves(a.size, s, s2) && Has(s2.mem, s.fp + st.stackPos, s.ap)
            && Fits(a, Slots(st1.scopes), st1.stackPos, l1.scope)
            && Holding(a, Slots(st1.scopes), st1.stackPos, l1.env, s2.fp, s2.ap, s2.mem)
            && Grown(Slots(st.scopes), Slots(st1.scopes)) && (forall x :: x in block.line.results ==> x in l1.scope)
  {
    hide Placed, Fits, Holding, StoredIn, ReturnsOk, Tidy, BlocksLinked;
    CallOffsets(a.c, block, st, next);
    CallCode(w, a.c, block, st, next);
    BlockAt(w, ReturnFromCall(st.callCounter), s2);
    HoldingBounds(a, Slots(st.scopes), st.stackPos, l.env, s.fp, s.ap, s.mem);
    CallMoves(st, w.L.pcs[ReturnFromCall(st.callCounter)], a.size, s, s1, size, s2);
    HoldingAcrossCall(a, Slots(st.scopes), st.stackPos, l, s.fp, s.ap, s.mem, s2.ap, s2.mem);
    FitsLater(a, Slots(st.scopes), st.stackPos, st.stackPos + 1, l.scope);
    IntroduceAllFits(a, EnterCall(st), l, block.line.results, s2.fp, s2.ap, s2.mem);
  }

  lemma CallMoves(st: CState, back: nat, top: nat, s: State, s1: State, size: nat, s2: State)
    requires Called(st, back, s, s1) && ReturnsTo(size, s1, s2) && st.stackPos < top
    ensures Moves(top, s, s2) && s2.pc == back && s2.h == 0 && Has(s2.mem, s.fp + st.stackPos, s.ap)
    ensures forall address :: address in s.mem ==> address in s2.mem && s2.mem[address] == s.mem[address]
    ensures forall address :: address in s2.mem ==>
        address < s2.ap && (address in s.mem || address == s.fp + st.stackPos || s.ap <= address)
  {
  }
}
