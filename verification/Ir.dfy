/** The intermediate instructions, how one is lowered to the machine, and what it does when it runs. */
module Ir {
  import opened Wrappers
  import opened KoalaBear
  import opened Machine

  datatype Label =
    | Function(name: string)
    | EndProgram
    | If(id: nat)
    | Else(id: nat)
    | IfElseEnd(id: nat)
    | MatchEnd(id: nat)
    | ReturnFromCall(id: nat)

  /** Constants whose value is known once the code is laid out. */
  datatype ConstExpr =
    | Scalar(value: F)
    | FunctionSize(name: string)
    | LabelPc(l: Label)
    | MatchBlockSize(index: nat)
    | MatchFirstBlockStart(index: nat)
    | Minus(x: ConstExpr, y: ConstExpr)
    | Times(x: ConstExpr, y: ConstExpr)

  /** `Unresolved` marks a name that was looked up out of scope: the compiler stops there. */
  datatype Value =
    | Const(e: ConstExpr)
    | Mem(offset: nat)
    | Fp(offset: nat)
    | Unresolved

  datatype Instr =
    | Computation(op: Operation, a: Value, b: Value, res: Value)
    | Deref(shift0: nat, shift1: nat, res: Value)
    | Panic
    | Jump(dest: Value, fp: Option<Value>)
    | JumpIfNotZero(condition: Value, dest: Value, fp: Option<Value>)
    | Inverse(arg: Value, offset: nat)
    | RequestMemory(offset: nat, size: Value)
    | PanicHint

  predicate IsHint(i: Instr) {
    i.Inverse? || i.RequestMemory? || i.PanicHint?
  }

  function CountReal(block: seq<Instr>): nat {
    if block == [] then 0 else (if IsHint(block[0]) then 0 else 1) + CountReal(block[1..])
  }

  // -- Lowering ----------------------------------------------------------------

  datatype Layout = Layout(sizes: map<string, nat>, pcs: map<Label, nat>, matchSizes: seq<nat>, matchStarts: seq<nat>)

  /** Layout numbers become field elements, so they wrap at p. */
  function Eval(e: ConstExpr, L: Layout): F {
    match e
    case Scalar(v) => v
    case FunctionSize(f) => FromUsize(if f in L.sizes then L.sizes[f] else 0)
    case LabelPc(l) => FromUsize(if l in L.pcs then L.pcs[l] else 0)
    case MatchBlockSize(i) => FromUsize(if i < |L.matchSizes| then L.matchSizes[i] else 0)
    case MatchFirstBlockStart(i) => FromUsize(if i < |L.matchStarts| then L.matchStarts[i] else 0)
    case Minus(x, y) => FSub(Eval(x, L), Eval(y, L))
    case Times(x, y) => FMul(Eval(x, L), Eval(y, L))
  }

  /** Offsets, too, pass through a field element on their way to the machine. */
  function LowerValue(v: Value, L: Layout): Arg {
    match v
    case Const(e) => Constant(Eval(e, L))
    case Mem(offset) => MemoryAfterFp(FromUsize(offset))
    case Fp(offset) => FpRelative(FromUsize(offset))
    case Unresolved => Constant(0)
  }

  function LowerJump(condition: Arg, dest: Value, fp: Option<Value>, L: Layout): Instruction {
    Instruction.Jump(condition, LowerValue(dest, L), if fp.Some? then LowerValue(fp.value, L) else FpRelative(0))
  }

  /** Two constants are folded into one; a constant on the right trades places with the left operand. */
  function Lower(i: Instr, L: Layout): Instruction
    requires !IsHint(i)
  {
    match i
    case Computation(op, a, b, res) =>
      if a.Const? && b.Const? then
        Instruction.Computation(Add, Constant(0), LowerValue(res, L), Constant(Compute(op, Eval(a.e, L), Eval(b.e, L))))
      else if b.Const? then Instruction.Computation(op, LowerValue(b, L), LowerValue(a, L), LowerValue(res, L))
      else Instruction.Computation(op, LowerValue(a, L), LowerValue(b, L), LowerValue(res, L))
    case Deref(shift0, shift1, res) => Instruction.Deref(FromUsize(shift0), FromUsize(shift1), LowerValue(res, L))
    case Panic => Instruction.Computation(Mul, Constant(0), FpRelative(0), Constant(1))
    case Jump(dest, fp) => LowerJump(Constant(1), dest, fp, L)
    case JumpIfNotZero(condition, dest, fp) => LowerJump(LowerValue(condition, L), dest, fp, L)
  }

  function LowerHint(i: Instr, L: Layout): Hint
    requires IsHint(i)
  {
    match i
    case Inverse(arg, offset) => Hint.Inverse(LowerValue(arg, L), offset)
    case RequestMemory(offset, size) => Hint.RequestMemory(FromUsize(offset), LowerValue(size, L))
    case PanicHint => PanicMessage
  }

  /**
   * The instructions occupy consecutive entries from (pc, h) on, each hint on the entry of the next real instruction.
   */
  predicate Placed(code: seq<Entry>, L: Layout, block: seq<Instr>, pc: nat, h: nat)
    decreases |block|
  {
    block == [] ||
    (0 < pc < |code| &&
     if IsHint(block[0]) then
       h < |code[pc].hints| && code[pc].hints[h] == LowerHint(block[0], L) && Placed(code, L, block[1..], pc, h + 1)
     else
       h == |code[pc].hints| && code[pc].instruction == Lower(block[0], L) && Placed(code, L, block[1..], pc + 1, 0))
  }

  // -- The effect of one intermediate instruction --------------------------------

  function ReadValue(v: Value, L: Layout, mem: Memory, fp: nat): Option<F> {
    match v
    case Const(e) => Some(Eval(e, L))
    case Mem(offset) => if fp + offset in mem then Some(mem[fp + offset]) else None
    case Fp(offset) => Some(FromUsize(fp + offset))
    case Unresolved => None
  }

  function SetValue(v: Value, mem: Memory, fp: nat, x: F): Write {
    if v.Mem? then Set(mem, fp + v.offset, x) else Refused(NotAPointer)
  }

  /** res = a op b, solved for the operand that has no value yet. */
  function Solve(op: Operation, a: Value, b: Value, res: Value, L: Layout, mem: Memory, fp: nat): Write {
    var va, vb, vr := ReadValue(a, L, mem, fp), ReadValue(b, L, mem, fp), ReadValue(res, L, mem, fp);
    if vr.None? then
      if va.None? || vb.None? then Refused(UndefinedMemory) else SetValue(res, mem, fp, Compute(op, va.value, vb.value))
    else if va.None? then
      if vb.None? then Refused(UndefinedMemory)
      else
        var x := InverseCompute(op, vr.value, vb.value);
        if x.None? then Refused(DivByZero) else SetValue(a, mem, fp, x.value)
    else if vb.None? then
      var x := InverseCompute(op, vr.value, va.value);
      if x.None? then Refused(DivByZero) else SetValue(b, mem, fp, x.value)
    else if Compute(op, va.value, vb.value) == vr.value then Stored(mem)
    else Refused(NotEqual)
  }

  function DerefValue(shift0: nat, shift1: nat, res: Value, L: Layout, mem: Memory, fp: nat): Write {
    var v := ReadValue(res, L, mem, fp);
    if fp + shift0 !in mem then Refused(UndefinedMemory)
    else
      var target := mem[fp + shift0] + shift1;
      if v.Some? then Set(mem, target, v.value)
      else if target in mem then SetValue(res, mem, fp, mem[target])
      else Stored(mem)
  }

  /** Names are resolved, offsets do not wrap, and only a dereference or a jump may mention fp itself. */
  predicate Plain(v: Value) {
    match v
    case Const(_) => true
    case Mem(offset) => offset < P
    case Fp(_) => false
    case Unresolved => false
  }

  predicate PlainOrFp(v: Value) {
    Plain(v) || v == Fp(0)
  }

  lemma LowerValueReads(v: Value, L: Layout, mem: Memory, fp: nat)
    requires PlainOrFp(v)
    ensures Read(LowerValue(v, L), mem, fp) == ReadValue(v, L, mem, fp)
    ensures forall x: F :: SetArg(LowerValue(v, L), mem, fp, x) == SetValue(v, mem, fp, x)
  {
  }

  lemma FoldIsSolve(x: F, res: Value, L: Layout, mem: Memory, fp: nat)
    requires Plain(res)
    ensures ExecuteComputation(Add, Constant(0), LowerValue(res, L), Constant(x), mem, fp)
         == (match ReadValue(res, L, mem, fp)
             case None => SetValue(res, mem, fp, x)
             case Some(v) => if v == x then Stored(mem) else Refused(NotEqual))
  {
    LowerValueReads(res, L, mem, fp);
    SubAdds(x, 0);
  }

  /**
   * Folding and swapping do not change what a computation does; a single constant comes first, and nothing else moves.
   */
  lemma ComputationLowers(op: Operation, a: Value, b: Value, res: Value, L: Layout, mem: Memory, fp: nat)
    requires Plain(a) && Plain(b) && Plain(res)
    ensures var i := Lower(Instr.Computation(op, a, b, res), L);
            i.Computation? && ExecuteComputation(i.op, i.a, i.c, i.res, mem, fp) == Solve(op, a, b, res, L, mem, fp)
    ensures var i := Lower(Instr.Computation(op, a, b, res), L);
            && (i.a.Constant? <==> a.Const? || b.Const?) && (i.c.Constant? ==> a.Const? && b.Const? && res.Const?)
            && (!a.Const? && !b.Const? ==> i.a == LowerValue(a, L) && i.c == LowerValue(b, L))
  {
    LowerValueReads(a, L, mem, fp);
    LowerValueReads(b, L, mem, fp);
    LowerValueReads(res, L, mem, fp);
    if a.Const? && b.Const? {
      FoldIsSolve(Compute(op, Eval(a.e, L), Eval(b.e, L)), res, L, mem, fp);
    } else if b.Const? {
      var va, vb := ReadValue(a, L, mem, fp), ReadValue(b, L, mem, fp);
      if va.Some? && vb.Some? { ComputeCommutes(op, va.value, vb.value); }
    }
  }

  lemma PlacedCons(code: seq<Entry>, L: Layout, i: Instr, rest: seq<Instr>, pc: nat, h: nat)
    requires Placed(code, L, [i] + rest, pc, h)
    ensures 0 < pc < |code|
    ensures if IsHint(i) then h < |code[pc].hints| && code[pc].hints[h] == LowerHint(i, L)
        && Placed(code, L, rest, pc, h + 1)
            else h == |code[pc].hints| && code[pc].instruction == Lower(i, L) && Placed(code, L, rest, pc + 1, 0)
  {
    assert ([i] + rest)[1..] == rest;
  }

  lemma {:induction false} PlacedPrefix(code: seq<Entry>, L: Layout, xs: seq<Instr>, ys: seq<Instr>, pc: nat, h: nat)
    requires Placed(code, L, xs + ys, pc, h)
    ensures Placed(code, L, xs, pc, h)
    decreases |xs|
  {
    if xs != [] {
      assert (xs + ys)[1..] == xs[1..] + ys;
      if IsHint(xs[0]) {
        PlacedPrefix(code, L, xs[1..], ys, pc, h + 1);
      } else {
        PlacedPrefix(code, L, xs[1..], ys, pc + 1, 0);
      }
    }
  }

  predicate At(code: seq<Entry>, L: Layout, block: seq<Instr>, s: State) {
    s.Running? && Placed(code, L, block, s.pc, s.h)
  }

  /** s continues with `rest` after a write. */
  predicate Wrote(code: seq<Entry>, L: Layout, rest: seq<Instr>, w: Write, s: State, s': State)
    requires s.Running?
  {
    match w
    case Stored(mem) => At(code, L, rest, s') && s' == Running(s'.pc, s'.h, s.fp, s.ap, mem)
    case Refused(error) => s' == Failed(error)
  }

  lemma StepComputation(code: seq<Entry>, L: Layout, op: Operation, a: Value, b: Value, res: Value, rest: seq<Instr>,
      s: State)
    requires At(code, L, [Instr.Computation(op, a, b, res)] + rest, s)
    requires Plain(a) && Plain(b) && Plain(res)
    ensures Wrote(code, L, rest, Solve(op, a, b, res, L, s.mem, s.fp), s, Step(code, s))
  {
    PlacedCons(code, L, Instr.Computation(op, a, b, res), rest, s.pc, s.h);
    ComputationLowers(op, a, b, res, L, s.mem, s.fp);
  }

  lemma StepDeref(code: seq<Entry>, L: Layout, shift0: nat, shift1: nat, res: Value, rest: seq<Instr>, s: State)
    requires At(code, L, [Instr.Deref(shift0, shift1, res)] + rest, s)
    requires shift0 < P && shift1 < P && PlainOrFp(res)
    ensures Wrote(code, L, rest, DerefValue(shift0, shift1, res, L, s.mem, s.fp), s, Step(code, s))
  {
    PlacedCons(code, L, Instr.Deref(shift0, shift1, res), rest, s.pc, s.h);
    LowerValueReads(res, L, s.mem, s.fp);
  }

  lemma StepPanic(code: seq<Entry>, L: Layout, rest: seq<Instr>, s: State)
    requires At(code, L, [Instr.Panic] + rest, s)
    ensures Step(code, s) == Failed(NotEqual)
  {
    PlacedCons(code, L, Instr.Panic, rest, s.pc, s.h);
  }

  lemma StepPanicHint(code: seq<Entry>, L: Layout, rest: seq<Instr>, s: State)
    requires At(code, L, [PanicHint] + rest, s)
    ensures Wrote(code, L, rest, Stored(s.mem), s, Step(code, s))
  {
    PlacedCons(code, L, PanicHint, rest, s.pc, s.h);
  }

  lemma StepInverse(code: seq<Entry>, L: Layout, arg: Value, offset: nat, rest: seq<Instr>, s: State)
    requires At(code, L, [Instr.Inverse(arg, offset)] + rest, s)
    requires Plain(arg) && ReadValue(arg, L, s.mem, s.fp).Some?
    ensures Wrote(code, L, rest, Set(s.mem, s.fp + offset, FInv(ReadValue(arg, L, s.mem, s.fp).value)), s,
        Step(code, s))
  {
    PlacedCons(code, L, Instr.Inverse(arg, offset), rest, s.pc, s.h);
    LowerValueReads(arg, L, s.mem, s.fp);
  }

  /** Allocation hands out the next free address and moves it up by the requested size. */
  lemma StepRequest(code: seq<Entry>, L: Layout, offset: nat, size: Value, rest: seq<Instr>, s: State)
    requires At(code, L, [Instr.RequestMemory(offset, size)] + rest, s)
    requires offset < P && Plain(size) && ReadValue(size, L, s.mem, s.fp).Some?
    ensures var n := ReadValue(size, L, s.mem, s.fp).value;
            match Set(s.mem, s.fp + offset, FromUsize(s.ap))
            case Stored(mem) => At(code, L, rest, Step(code, s)) && Step(code, s).fp == s.fp
                && Step(code, s).ap == s.ap + n && Step(code, s).mem == mem
            case Refused(error) => Step(code, s) == Failed(error)
  {
    PlacedCons(code, L, Instr.RequestMemory(offset, size), rest, s.pc, s.h);
    LowerValueReads(size, L, s.mem, s.fp);
  }

  /** A jump with known operands arrives; without a new fp it keeps the old one. */
  lemma StepJump(code: seq<Entry>, L: Layout, dest: Value, fp: Option<Value>, rest: seq<Instr>, s: State)
    requires At(code, L, [Instr.Jump(dest, fp)] + rest, s)
    requires Plain(dest) && ReadValue(dest, L, s.mem, s.fp).Some?
    requires if fp.Some? then Plain(fp.value) && ReadValue(fp.value, L, s.mem, s.fp).Some? else s.fp < P
    ensures Step(code, s) == Running(ReadValue(dest, L, s.mem, s.fp).value, 0,
        if fp.Some? then ReadValue(fp.value, L, s.mem, s.fp).value else s.fp, s.ap, s.mem)
  {
    PlacedCons(code, L, Instr.Jump(dest, fp), rest, s.pc, s.h);
    LowerValueReads(dest, L, s.mem, s.fp);
    if fp.Some? { LowerValueReads(fp.value, L, s.mem, s.fp); }
  }

  lemma StepJumpIfNotZero(code: seq<Entry>, L: Layout, condition: Value, dest: Value, rest: seq<Instr>, s: State)
    requires At(code, L, [JumpIfNotZero(condition, dest, None)] + rest, s)
    requires Plain(condition) && ReadValue(condition, L, s.mem, s.fp) in {Some(0), Some(1)}
    requires Plain(dest) && ReadValue(dest, L, s.mem, s.fp).Some? && s.fp < P
    ensures if ReadValue(condition, L, s.mem, s.fp) == Some(0) then
        Wrote(code, L, rest, Stored(s.mem), s, Step(code, s))
            else Step(code, s) == Running(ReadValue(dest, L, s.mem, s.fp).value, 0, s.fp, s.ap, s.mem)
  {
    PlacedCons(code, L, JumpIfNotZero(condition, dest, None), rest, s.pc, s.h);
    LowerValueReads(dest, L, s.mem, s.fp);
    LowerValueReads(condition, L, s.mem, s.fp);
  }
}
