/** A return: the values end up in the return slots and control goes back where the header says. */
module ReturnSimulation {
  import opened Wrappers
  import opened KoalaBear
  import opened Machine
  import opened Ir
  import opened SimpleLang
  import opened CompilerSpec
  import opened CompilerInvariants
  import opened Frames
  import opened LineSteps
  import opened Simulation
  import opened CallSimulation

  predicate InHome(c: Context, o: Operand) {
    o.Variable? && o.name in c.coalesced
  }

  /** The first n values stored, except those that are in their slots already. */
  function WithReturns(c: Context, mem: Memory, base: nat, data: seq<Operand>, vs: seq<F>, n: nat): Memory
    requires n <= |data| == |vs|
  {
    if n == 0 then mem
    else
      var m := WithReturns(c, mem, base, data, vs, n - 1);
      if InHome(c, data[n - 1]) then m else m[base + (n - 1) := vs[n - 1]]
  }

  lemma {:induction false} ReturnCells(c: Context, mem: Memory, base: nat, data: seq<Operand>, vs: seq<F>, n: nat)
    requires n <= |data| == |vs|
    requires forall i {:trigger data[i]} :: 0 <= i < |data| && !InHome(c, data[i]) ==> base + i !in mem
    ensures var m := WithReturns(c, mem, base, data, vs, n);
            && (forall address :: address in mem ==> address in m && m[address] == mem[address])
            && (forall address :: address in m ==> address in mem || base <= address < base + n)
            && (forall i {:trigger vs[i]} :: 0 <= i < n && !InHome(c, data[i]) ==> Has(m, base + i, vs[i]))
    ensures n < |data| && !InHome(c, data[n]) ==> base + n !in WithReturns(c, mem, base, data, vs, n)
  {
    if n > 0 {
      ReturnCells(c, mem, base, data, vs, n - 1);
      assert !InHome(c, data[n - 1]) ==> base + (n - 1) !in mem;
    }
  }

  /** What the frame says about the return slots before anything is returned. */
  lemma SlotsAreFree(a: Activation, slots: map<Var, nat>, pos: nat, l: Local, data: seq<Operand>, fp: nat, ap: nat,
      mem: Memory)
    requires Fits(a, slots, pos, l.scope) && Holding(a, slots, pos, l.env, fp, ap, mem)
        && ReturnOk(a.c, a.homes, a.free, data)
    ensures forall i {:trigger data[i]} :: 0 <= i < |data| && !InHome(a.c, data[i]) ==>
        2 + a.c.argsCount + i < pos && fp + 2 + a.c.argsCount + i !in mem
  {
    forall i | 0 <= i < |data| && !InHome(a.c, data[i])
        ensures 2 + a.c.argsCount + i < pos && fp + 2 + a.c.argsCount + i !in mem {
      assert 2 + a.c.argsCount + i in a.free;
      assert Vacant(a, pos, fp, ap, fp + 2 + a.c.argsCount + i);
    }
  }

  lemma StoredAreKept(a: Activation, slots: map<Var, nat>, pos: nat, l: Local, data: seq<Operand>, vs: seq<F>, n: nat,
      fp: nat, ap: nat, mem: Memory)
    requires Fits(a, slots, pos, l.scope) && Holding(a, slots, pos, l.env, fp, ap, mem)
        && ReturnOk(a.c, a.homes, a.free, data) && pos <= a.size
    requires n <= |data| == |vs|
    ensures Kept(fp, a.size, ap, mem, WithReturns(a.c, mem, fp + 2 + a.c.argsCount, data, vs, n))
    ensures FreeFrom(ap, WithReturns(a.c, mem, fp + 2 + a.c.argsCount, data, vs, n))
  {
    NewFrameIsFree(a, slots, pos, l.env, fp, ap, mem);
    if n > 0 {
      StoredAreKept(a, slots, pos, l, data, vs, n - 1, fp, ap, mem);
      SlotsAreFree(a, slots, pos, l, data, fp, ap, mem);
      assert !InHome(a.c, data[n - 1]) ==> 2 + a.c.argsCount + (n - 1) < pos;
      assert fp + pos <= ap;
    }
  }

  lemma StoreStep(w: World, a: Activation, scopes: Scopes, pos: nat, l: Local, data: seq<Operand>, vs: seq<F>, i: nat,
      mem: Memory, rest: seq<Instr>, s: State)
    requires i < |data| == |vs| && !InHome(a.c, data[i]) && Lookup(data[i], l.scope, l.env) == Some(vs[i])
    requires At(w.code, w.L, [Equality(Mem(2 + a.c.argsCount + i), ValueOf(data[i], scopes))] + rest, s)
    requires Fits(a, Slots(scopes), pos, l.scope) && pos <= a.size
        && Holding(a, Slots(scopes), pos, l.env, s.fp, s.ap, mem)
    requires ReturnOk(a.c, a.homes, a.free, data)
        && s.mem == WithReturns(a.c, mem, s.fp + 2 + a.c.argsCount, data, vs, i)
    ensures var s' := Step(w.code, s);
            Exhausted(s', s.ap) ||
            (At(w.code, w.L, rest, s') && s'.fp == s.fp && s'.ap == s.ap
                && s'.mem == WithReturns(a.c, mem, s.fp + 2 + a.c.argsCount, data, vs, i + 1))
  {
    hide Placed, Fits, Holding, ReturnOk, Kept, Solve;
    HoldingBounds(a, Slots(scopes), pos, l.env, s.fp, s.ap, mem);
    ValueReads(a, scopes, pos, l, data[i], w.L, s.fp, s.ap, mem);
    StoredAreKept(a, Slots(scopes), pos, l, data, vs, i, s.fp, s.ap, mem);
    ReadKept(ValueOf(data[i], scopes), w.L, s.fp, s.fp, a.size, s.ap, mem, s.mem);
    SlotsAreFree(a, Slots(scopes), pos, l, data, s.fp, s.ap, mem);
    ReturnCells(a.c, mem, s.fp + 2 + a.c.argsCount, data, vs, i);
    EqualitySolves(Mem(2 + a.c.argsCount + i), ValueOf(data[i], scopes), w.L, s.mem, s.fp);
    StepComputation(w.code, w.L, Add, Mem(2 + a.c.argsCount + i), Const(Scalar(0)), ValueOf(data[i], scopes), rest, s);
  }

  lemma {:induction false} StoreRun(w: World, a: Activation, scopes: Scopes, pos: nat, l: Local, data: seq<Operand>,
      i: nat, mem: Memory, tail: seq<Instr>, s: State) returns (n: nat, s': State)
    requires i <= |data| && LookupAll(data, l.scope, l.env).Some?
    requires At(w.code, w.L, StoreReturns(a.c, data, i, scopes) + tail, s)
    requires Fits(a, Slots(scopes), pos, l.scope) && pos <= a.size
        && Holding(a, Slots(scopes), pos, l.env, s.fp, s.ap, mem)
    requires ReturnOk(a.c, a.homes, a.free, data)
    requires s.mem == WithReturns(a.c, mem, s.fp + 2 + a.c.argsCount, data, LookupAll(data, l.scope, l.env).value, i)
    ensures s' == Run(w.code, s, n)
    ensures Exhausted(s', s.ap) ||
            (At(w.code, w.L, tail, s') && s'.fp == s.fp && s'.ap == s.ap
             && s'.mem == WithReturns(a.c, mem, s.fp + 2 + a.c.argsCount, data, LookupAll(data, l.scope, l.env).value,
                 |data|))
    decreases |data| - i
  {
    hide Placed, Fits, Holding, ReturnOk;
    var vs := LookupAll(data, l.scope, l.env).value;
    n, s' := 0, s;
    if i == |data| {
      assert [] + tail == tail;
    } else {
      LookupAllAt(data, l.scope, l.env, i);
      var rest := StoreReturns(a.c, data, i + 1, scopes);
      if InHome(a.c, data[i]) {
        n, s' := StoreRun(w, a, scopes, pos, l, data, i + 1, mem, tail, s);
      } else {
        var first := [Equality(Mem(2 + a.c.argsCount + i), ValueOf(data[i], scopes))];
        assert (first + rest) + tail == first + (rest + tail);
        StoreStep(w, a, scopes, pos, l, data, vs, i, mem, rest + tail, s);
        var s1 := Step(w.code, s);
        RunOne(w.code, s);
        n, s' := 1, s1;
        if s1.Running? {
          var m;
          m, s' := StoreRun(w, a, scopes, pos, l, data, i + 1, mem, tail, s1);
          RunAdd(w.code, s, 1, m);
          n := 1 + m;
        }
      }
    }
  }

  lemma HomeCell(a: Activation, slots: map<Var, nat>, pos: nat, l: Local, data: seq<Operand>, i: nat, fp: nat, ap: nat,
      mem: Memory)
    requires Fits(a, slots, pos, l.scope) && Holding(a, slots, pos, l.env, fp, ap, mem)
        && ReturnOk(a.c, a.homes, a.free, data)
    requires i < |data| && InHome(a.c, data[i]) && Lookup(data[i], l.scope, l.env).Some?
    ensures Has(mem, fp + 2 + a.c.argsCount + i, Lookup(data[i], l.scope, l.env).value)
  {
    var x := data[i].name;
    assert x in a.homes.Keys;
    assert slots[x] == 2 + a.c.argsCount + i;
  }

  /** Stored or in its home, every returned value is in its slot. */
  lemma AllDelivered(a: Activation, slots: map<Var, nat>, pos: nat, l: Local, data: seq<Operand>, fp: nat, ap: nat,
      mem: Memory)
    requires Fits(a, slots, pos, l.scope) && Holding(a, slots, pos, l.env, fp, ap, mem)
        && ReturnOk(a.c, a.homes, a.free, data)
    requires LookupAll(data, l.scope, l.env).Some?
    ensures var vs := LookupAll(data, l.scope, l.env).value;
            Delivered(vs, fp + 2 + a.c.argsCount, WithReturns(a.c, mem, fp + 2 + a.c.argsCount, data, vs, |data|))
  {
    hide LookupAll, Fits, Holding, WithReturns, ReturnOk;
    var vs, base := LookupAll(data, l.scope, l.env).value, fp + 2 + a.c.argsCount;
    SlotsAreFree(a, slots, pos, l, data, fp, ap, mem);
    ReturnCells(a.c, mem, base, data, vs, |data|);
    forall i {:trigger vs[i]} | 0 <= i < |vs|
        ensures Has(WithReturns(a.c, mem, base, data, vs, |data|), base + i, vs[i]) {
      LookupAllAt(data, l.scope, l.env, i);
      if InHome(a.c, data[i]) { HomeCell(a, slots, pos, l, data, i, fp, ap, mem); }
    }
  }

  lemma LeaveStep(w: World, s: State) returns (n: nat)
    requires At(w.code, w.L, [Instr.Jump(Mem(0), Some(Mem(1)))], s) && s.fp in s.mem && s.fp + 1 in s.mem
    ensures Run(w.code, s, n) == Running(s.mem[s.fp], 0, s.mem[s.fp + 1], s.ap, s.mem)
  {
    var jump := [Instr.Jump(Mem(0), Some(Mem(1)))];
    assert jump == jump + [];
    StepJump(w.code, w.L, Mem(0), Some(Mem(1)), [], s);
    RunOne(w.code, s);
    n := 1;
  }

  lemma NothingStored(c: Context, mem: Memory, base: nat, data: seq<Operand>, vs: seq<F>)
    requires |data| == |vs|
    ensures WithReturns(c, mem, base, data, vs, 0) == mem
  {
  }

  lemma HeaderThere(a: Activation, slots: map<Var, nat>, pos: nat, env: Env, fp: nat, ap: nat, mem: Memory)
    requires Holding(a, slots, pos, env, fp, ap, mem) && !a.c.isMain
    ensures fp in mem && fp + 1 in mem && ap < P
  {
  }

  lemma KeptHeader(fp: nat, top: nat, ap: nat, mem: Memory, mem': Memory)
    requires Kept(fp, top, ap, mem, mem') && fp in mem && fp + 1 in mem
    ensures fp in mem' && fp + 1 in mem' && mem'[fp] == mem[fp] && mem'[fp + 1] == mem[fp + 1]
  {
  }

  /** A return outside main. */
  lemma ReturnRuns(w: World, a: Activation, block: Block, st: CState, next: Option<Label>, l: Local, fuel: nat,
      s: State) returns (n: nat, s': State)
    requires Ready(w, a, block, st, next, l, s) && block.Then? && block.line.FunctionRet? && !a.c.isMain
    requires LookupAll(block.line.data, l.scope, l.env).Some?
    ensures Reaches(w, a, Slots(st.scopes), Compile(a.c, block, st, next).1.stackPos, next,
        Returns(LookupAll(block.line.data, l.scope, l.env).value), fuel, 0, s, n, s')
  {
    hide Placed, Fits, ReturnOk, LookupAll, WithReturns, Delivered, Holding, Kept, StoredIn, Tidy;
    var data, slots := block.line.data, Slots(st.scopes);
    var jump, rest := [Instr.Jump(Mem(0), Some(Mem(1)))], Compile(a.c, block.rest, st, next).0;
    CompileKeepsScopes(a.c, block.rest, st, next);
    HeaderThere(a, slots, st.stackPos, l.env, s.fp, s.ap, s.mem);
    assert s.mem == WithReturns(a.c, s.mem, s.fp + 2 + a.c.argsCount, data, LookupAll(data, l.scope, l.env).value,
        0) by {
      NothingStored(a.c, s.mem, s.fp + 2 + a.c.argsCount, data, LookupAll(data, l.scope, l.env).value);
    }
    PlacedPrefix(w.code, w.L, Return(a.c, data, st.stackPos, st.scopes), rest, s.pc, s.h);
    n, s' := StoreRun(w, a, st.scopes, st.stackPos, l, data, 0, s.mem, jump, s);
    if s'.Running? {
      var s1 := s';
      StoredAreKept(a, slots, st.stackPos, l, data, LookupAll(data, l.scope, l.env).value, |data|, s.fp, s.ap, s.mem);
      AllDelivered(a, slots, st.stackPos, l, data, s.fp, s.ap, s.mem);
      KeptHeader(s.fp, a.size, s.ap, s.mem, s1.mem);
      var m := LeaveStep(w, s1);
      RunAdd(w.code, s, n, m);
      n, s' := n + m, Run(w.code, s1, m);
    }
  }

  /** A return from main ends the program. */
  lemma MainReturnRuns(w: World, a: Activation, block: Block, st: CState, next: Option<Label>, l: Local, fuel: nat,
      s: State) returns (n: nat, s': State)
    requires BlocksLinked(w) && Ready(w, a, block, st, next, l, s) && block.Then? && block.line.FunctionRet?
        && a.c.isMain
    requires LookupAll(block.line.data, l.scope, l.env).Some?
    ensures Reaches(w, a, Slots(st.scopes), Compile(a.c, block, st, next).1.stackPos, next,
        Returns(LookupAll(block.line.data, l.scope, l.env).value), fuel, 0, s, n, s')
  {
    hide Placed, Fits, Holding, LookupAll, Kept;
    var pos, st1 := st.stackPos, st.(stackPos := st.stackPos + 1);
    var zero, jump := Const(Scalar(0)), [Instr.Jump(LabelValue(EndProgram), Some(Mem(pos)))];
    CompileKeepsScopes(a.c, block.rest, st1, next);
    PlacedPrefix(w.code, w.L, Return(a.c, block.line.data, pos, st.scopes), Compile(a.c, block.rest, st1, next).0, s.pc,
        s.h);
    HoldingBounds(a, Slots(st.scopes), pos, l.env, s.fp, s.ap, s.mem);
    VacantOffset(a, Slots(st.scopes), pos, l.env, s.fp, s.ap, s.mem, pos);
    StashComputation(w, a, Slots(st.scopes), pos, l, Add, zero, zero, Mem(pos), 0, jump, s);
    RunOne(w.code, s);
    n, s' := 1, Step(w.code, s);
    if s'.Running? {
      var s1 := s';
      assert jump == jump + [];
      StepJump(w.code, w.L, LabelValue(EndProgram), Some(Mem(pos)), [], s1);
      RunOne(w.code, s1);
      RunAdd(w.code, s, 1, 1);
      n, s' := 2, Step(w.code, s1);
    }
  }
}
