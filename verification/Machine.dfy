/** The virtual machine that runs compiled code: its instructions and one step of the runner. */
module Machine {
  import opened Wrappers
  import opened KoalaBear

  datatype Operation = Add | Mul

  /** An operand: a constant, the cell at fp + offset, or the number fp + offset itself. */
  datatype Arg = Constant(value: F) | MemoryAfterFp(offset: nat) | FpRelative(offset: nat)

  datatype Instruction =
    | Computation(op: Operation, a: Arg, c: Arg, res: Arg)
    | Deref(shift0: nat, shift1: nat, res: Arg)
    | Jump(condition: Arg, dest: Arg, fp: Arg)

  /** Hints run before the instruction they are attached to and leave no trace in the bytecode. */
  datatype Hint =
    | Inverse(arg: Arg, offset: nat)
    | RequestMemory(offset: nat, size: Arg)
    | PanicMessage

  datatype Entry = Entry(hints: seq<Hint>, instruction: Instruction)

  datatype Error = OutOfMemory | UndefinedMemory | MemoryAlreadySet | NotEqual | DivByZero | NotAPointer | BadCondition
      | PcOutOfBounds

  /** Write-once memory: a cell has no value until it is set. */
  type Memory = map<nat, F>

  /** `h` counts the hints of the current entry that have already run; `ap` is the next free address. */
  datatype State =
    | Running(pc: nat, h: nat, fp: nat, ap: nat, mem: Memory)
    | Failed(error: Error)

  const ENDING_PC: nat := 0
  const STARTING_PC: nat := 1

  /** Addresses from 2^26 on cannot be written. */
  const MEMORY_LIMIT: nat := 0x400_0000

  /** A machine integer read back as a field element. */
  function FromUsize(n: nat): F { n % P }

  function Compute(op: Operation, a: F, b: F): F {
    if op.Add? then FAdd(a, b) else FMul(a, b)
  }

  /** The x with Compute(op, x, b) == a, if there is exactly one. */
  function InverseCompute(op: Operation, a: F, b: F): Option<F> {
    if op.Add? then Some(FSub(a, b)) else if b == 0 then None else Some(FDiv(a, b))
  }

  datatype Write = Stored(mem: Memory) | Refused(error: Error)

  /** Setting a cell twice is an equality check. */
  function Set(mem: Memory, address: nat, v: F): Write {
    if address >= MEMORY_LIMIT then Refused(OutOfMemory)
    else if address in mem then (if mem[address] == v then Stored(mem) else Refused(MemoryAlreadySet))
    else Stored(mem[address := v])
  }

  function Read(arg: Arg, mem: Memory, fp: nat): Option<F> {
    match arg
    case Constant(v) => Some(v)
    case MemoryAfterFp(offset) => if fp + offset in mem then Some(mem[fp + offset]) else None
    case FpRelative(offset) => Some(FromUsize(fp + offset))
  }

  function SetArg(arg: Arg, mem: Memory, fp: nat, v: F): Write {
    if arg.MemoryAfterFp? then Set(mem, fp + arg.offset, v) else Refused(NotAPointer)
  }

  /** The one unknown operand is solved for; with none unknown the equation is checked. */
  function ExecuteComputation(op: Operation, a: Arg, c: Arg, res: Arg, mem: Memory, fp: nat): Write {
    var va, vc, vr := Read(a, mem, fp), Read(c, mem, fp), Read(res, mem, fp);
    if vr.None? then
      if va.None? || vc.None? then Refused(UndefinedMemory)
      else SetArg(res, mem, fp, Compute(op, va.value, vc.value))
    else if va.None? then
      if vc.None? then Refused(UndefinedMemory)
      else
        var x := InverseCompute(op, vr.value, vc.value);
        if x.None? then Refused(DivByZero) else SetArg(a, mem, fp, x.value)
    else if vc.None? then
      var x := InverseCompute(op, vr.value, va.value);
      if x.None? then Refused(DivByZero) else SetArg(c, mem, fp, x.value)
    else if Compute(op, va.value, vc.value) == vr.value then Stored(mem)
    else Refused(NotEqual)
  }

  /** res = m[m[fp + shift0] + shift1], in whichever direction the values are known. */
  function ExecuteDeref(shift0: nat, shift1: nat, res: Arg, mem: Memory, fp: nat): Write {
    var v := Read(res, mem, fp);
    if fp + shift0 !in mem then Refused(UndefinedMemory)
    else
      var target := mem[fp + shift0] + shift1;
      if v.Some? then Set(mem, target, v.value)
      else if target in mem then SetArg(res, mem, fp, mem[target])
      else Stored(mem)
  }

  function Advance(s: State, w: Write): State
    requires s.Running?
  {
    match w
    case Stored(mem) => s.(pc := s.pc + 1, h := 0, mem := mem)
    case Refused(error) => Failed(error)
  }

  function ExecuteInstruction(i: Instruction, s: State): State
    requires s.Running?
  {
    match i
    case Computation(op, a, c, res) => Advance(s, ExecuteComputation(op, a, c, res, s.mem, s.fp))
    case Deref(shift0, shift1, res) => Advance(s, ExecuteDeref(shift0, shift1, res, s.mem, s.fp))
    case Jump(condition, dest, fp) =>
      var vc, vd, vf := Read(condition, s.mem, s.fp), Read(dest, s.mem, s.fp), Read(fp, s.mem, s.fp);
      if vc.None? then Failed(UndefinedMemory)
      else if vc.value == 0 then s.(pc := s.pc + 1, h := 0)
      else if vc.value != 1 then Failed(BadCondition)
      else if vd.None? || vf.None? then Failed(UndefinedMemory)
      else s.(pc := vd.value, h := 0, fp := vf.value)
  }

  function ExecuteHint(hint: Hint, s: State): State
    requires s.Running?
  {
    match hint
    case PanicMessage => s.(h := s.h + 1)
    case Inverse(arg, offset) =>
      var v := Read(arg, s.mem, s.fp);
      if v.None? then Failed(UndefinedMemory)
      else
        (match Set(s.mem, s.fp + offset, FInv(v.value))
         case Stored(mem) => s.(h := s.h + 1, mem := mem)
         case Refused(error) => Failed(error))
    case RequestMemory(offset, size) =>
      var v := Read(size, s.mem, s.fp);
      if v.None? then Failed(UndefinedMemory)
      else
        (match Set(s.mem, s.fp + offset, FromUsize(s.ap))
         case Stored(mem) => s.(h := s.h + 1, mem := mem, ap := s.ap + v.value)
         case Refused(error) => Failed(error))
  }

  /** One hint or one instruction. A machine at the ending pc has halted and a failed machine stays failed. */
  function Step(code: seq<Entry>, s: State): State {
    if s.Failed? || s.pc == ENDING_PC then s
    else if s.pc >= |code| then Failed(PcOutOfBounds)
    else if s.h < |code[s.pc].hints| then ExecuteHint(code[s.pc].hints[s.h], s)
    else ExecuteInstruction(code[s.pc].instruction, s)
  }

  /** The memory limit was hit, and the frames reach beyond it. */
  predicate Exhausted(s: State, ap: nat) {
    s == Failed(OutOfMemory) && ap > MEMORY_LIMIT
  }

  function Run(code: seq<Entry>, s: State, n: nat): State
    decreases n
  {
    if n == 0 then s else Run(code, Step(code, s), n - 1)
  }

  lemma {:induction false} RunAdd(code: seq<Entry>, s: State, m: nat, n: nat)
    ensures Run(code, s, m + n) == Run(code, Run(code, s, m), n)
    decreases m
  {
    if m > 0 {
      RunAdd(code, Step(code, s), m - 1, n);
    }
  }

  // -- Write-once memory -----------------------------------------------------

  ghost predicate Keeps(mem: Memory, mem': Memory) {
    forall address :: address in mem ==> address in mem' && mem'[address] == mem[address]
  }

  /** A computation that goes through leaves a memory in which its equation holds. */
  lemma ComputationHolds(op: Operation, a: Arg, c: Arg, res: Arg, mem: Memory, fp: nat)
    ensures var w := ExecuteComputation(op, a, c, res, mem, fp);
            w.Stored? ==>
              && Keeps(mem, w.mem)
              && var va, vc, vr := Read(a, w.mem, fp), Read(c, w.mem, fp), Read(res, w.mem, fp);
              va.Some? && vc.Some? && vr.Some? && Compute(op, va.value, vc.value) == vr.value
  {
    hide FSub, FDiv, FAdd, FMul, FInv;
    var va, vc, vr := Read(a, mem, fp), Read(c, mem, fp), Read(res, mem, fp);
    if va.None? && vc.Some? && vr.Some? { InverseComputes(op, vr.value, vc.value); }
    if vc.None? && va.Some? && vr.Some? {
      InverseComputes(op, vr.value, va.value);
      if InverseCompute(op, vr.value, va.value).Some? {
        ComputeCommutes(op, InverseCompute(op, vr.value, va.value).value, va.value);
      }
    }
  }

  /** Where it finds unequal values, no memory with these cells satisfies the equation. */
  lemma UnequalNeverHolds(op: Operation, a: Arg, c: Arg, res: Arg, mem: Memory, fp: nat, mem': Memory)
    requires ExecuteComputation(op, a, c, res, mem, fp) == Refused(NotEqual) && Keeps(mem, mem')
    ensures var va, vc, vr := Read(a, mem', fp), Read(c, mem', fp), Read(res, mem', fp);
            va.Some? && vc.Some? && vr.Some? && Compute(op, va.value, vc.value) != vr.value
  {
    hide Compute, InverseCompute;
  }

  lemma InverseComputes(op: Operation, r: F, b: F)
    ensures var x := InverseCompute(op, r, b); x.Some? ==> Compute(op, x.value, b) == r
    ensures InverseCompute(op, r, b).None? <==> op.Mul? && b == 0
  {
    if op.Add? {
      SubAdds(r, b);
    } else if b != 0 {
      MulLaws(r, FInv(b), b);
      MulLaws(b, FInv(b), 0);
      MulLaws(r, 1, 0);
    }
  }

  /** A dereference that goes through leaves equal cells, unless both sides are still unknown. */
  lemma DerefHolds(shift0: nat, shift1: nat, res: Arg, mem: Memory, fp: nat)
    ensures var w := ExecuteDeref(shift0, shift1, res, mem, fp);
            w.Stored? ==>
              && Keeps(mem, w.mem) && fp + shift0 in w.mem
              && var target, v := w.mem[fp + shift0] + shift1, Read(res, w.mem, fp);
              if v.Some? then target in w.mem && w.mem[target] == v.value else target !in w.mem && w.mem == mem
  {
  }

  lemma StepKeeps(code: seq<Entry>, s: State)
    requires s.Running?
    ensures var s' := Step(code, s); s'.Running? ==> Keeps(s.mem, s'.mem) && s.ap <= s'.ap
  {
    if s.pc != ENDING_PC && s.pc < |code| && s.h >= |code[s.pc].hints| {
      hide ExecuteComputation, ExecuteDeref;
      match code[s.pc].instruction
      case Computation(op, a, c, res) => ComputationHolds(op, a, c, res, s.mem, s.fp);
      case Deref(shift0, shift1, res) => DerefHolds(shift0, shift1, res, s.mem, s.fp);
      case Jump(_, _, _) =>
    }
  }

  /** No run changes a cell that has a value, and memory that was requested stays requested. */
  lemma {:induction false} MemoryIsWriteOnce(code: seq<Entry>, s: State, n: nat)
    requires s.Running?
    ensures var s' := Run(code, s, n); s'.Running? ==> Keeps(s.mem, s'.mem) && s.ap <= s'.ap
    decreases n
  {
    if n > 0 {
      hide Step;
      StepKeeps(code, s);
      if Step(code, s).Running? {
        MemoryIsWriteOnce(code, Step(code, s), n - 1);
      } else { HaltedStays(code, Step(code, s), n - 1); }
    }
  }

  lemma {:induction false} HaltedStays(code: seq<Entry>, s: State, n: nat)
    requires s.Failed? || s.pc == ENDING_PC
    ensures Run(code, s, n) == s
    decreases n
  {
    if n > 0 { HaltedStays(code, s, n - 1); }
  }

  // -- Arithmetic of the two operations --------------------------------------

  lemma ComputeCommutes(op: Operation, a: F, b: F)
    ensures Compute(op, a, b) == Compute(op, b, a)
  {
    if op.Mul? { MulLaws(a, b, 0); }
  }

  lemma SubAdds(a: F, b: F)
    ensures FAdd(FSub(a, b), b) == a
    ensures forall x: F :: FAdd(x, b) == a ==> x == FSub(a, b)
  {
  }
}
