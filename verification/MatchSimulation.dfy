/** A match: the computed jump lands on the selected arm, and the arm comes back to the code after the match. */
module MatchSimulation {
  import opened Wrappers
  import opened Arith
  import opened KoalaBear
  import opened Machine
  import opened Ir
  import opened SimpleLang
  import opened CompilerSpec
  import opened CompilerInvariants
  import opened Frames
  import opened Simulation

  lemma MulWraps(x: F, n: nat)
    ensures FMul(x, FromUsize(n)) == (x * n) % P
  {
    ModMul(x, n, P);
  }

  lemma Regroup(start: int, v: int, offset: int, size: int)
    ensures start + (v - offset) * size == start + v * size - offset * size
  {
  }

  /** value * size + (first - offset * size), all in the field, is the pc of arm value - offset. */
  lemma MatchArithmetic(v: F, offset: nat, size: nat, start: nat)
    requires offset <= v && start + (v - offset) * size < P
    ensures FAdd(FMul(v, FromUsize(size)), FSub(FromUsize(start), FMul(FromUsize(offset), FromUsize(size)))) == start
        + (v - offset) * size
  {
    hide FMul, FAdd, FSub, FromUsize;
    MulWraps(v, size);
    MulWraps(offset, size);
    FitsField(offset);
    Regroup(start, v, offset, size);
    var x, y := v * size, offset * size;
    Combine(x, y, start);
  }

  lemma FitsField(n: nat)
    requires n < P
    ensures FromUsize(n) == n
  {
  }

  lemma Combine(x: int, y: int, start: nat)
    requires 0 <= start + x - y < P
    ensures FAdd(x % P, FSub(FromUsize(start), y % P)) == start + x - y
  {
  }

  /** After the two products and the jump: at the pc of the arm, with two more temporaries past the deepest arm. */
  lemma MatchJumps(w: World, a: Activation, s: State, scopes: Scopes, pos: nat, l: Local, value: Operand, index: nat,
      offset: nat) returns (n: nat, s': State, t0: F, t1: F)
    requires At(w.code, w.L, MatchJump(ValueOf(value, scopes), pos, index, offset), s)
    requires Fits(a, Slots(scopes), pos, l.scope) && pos + 2 <= a.size
        && Holding(a, Slots(scopes), pos, l.env, s.fp, s.ap, s.mem)
    requires Lookup(value, l.scope, l.env).Some? && offset <= Lookup(value, l.scope, l.env).value
    requires index < |w.L.matchStarts| && index < |w.L.matchSizes|
        && ArmPc(w.L, index, Lookup(value, l.scope, l.env).value - offset) < P
    ensures s' == Run(w.code, s, n)
    ensures Exhausted(s', s.ap) ||
            (Moves(a.size, s, s') && s'.pc == ArmPc(w.L, index, Lookup(value, l.scope, l.env).value - offset)
                && s'.h == 0 && s'.ap == s.ap
             && Holding(a, Slots(scopes), pos + 2, l.env, s'.fp, s'.ap, s'.mem)
             && s'.mem == s.mem[s.fp + pos := t0][s.fp + (pos + 1) := t1])
  {
    hide Fits, Holding, Placed, Kept, ArmPc, Compute, FAdd, FMul, FSub;
    var v, slots := Lookup(value, l.scope, l.env).value, Slots(scopes);
    var sizeExpr := MatchBlockSize(index);
    var base := ConstExpr.Minus(MatchFirstBlockStart(index), ConstExpr.Times(Scalar(FromUsize(offset)), sizeExpr));
    t0 := FMul(v, Eval(sizeExpr, w.L));
    t1 := FAdd(t0, Eval(base, w.L));
    assert t1 == ArmPc(w.L, index, v - offset) by { MatchValue(w.L, index, v, offset); }
    var jump := [Instr.Jump(Mem(pos + 1), None)];
    var i1 := [Instr.Computation(Add, Mem(pos), Const(base), Mem(pos + 1))] + jump;
    ScaleStep(w, a, s, scopes, pos, l, value, sizeExpr, i1);
    var s1 := Step(w.code, s);
    RunOne(w.code, s);
    n, s' := 1, s1;
    if s1.Running? {
      ShiftStep(w, a, s1, slots, pos, l, base, t0, jump);
      var s2 := Step(w.code, s1);
      RunOne(w.code, s1);
      RunAdd(w.code, s, 1, 1);
      n, s' := 2, s2;
      if s2.Running? {
        MovesTransitive(a.size, s, s1, s2);
        assert jump == jump + [];
        HoldingBounds(a, slots, pos + 2, l.env, s2.fp, s2.ap, s2.mem);
        StepJump(w.code, w.L, Mem(pos + 1), None, [], s2);
        RunOne(w.code, s2);
        RunAdd(w.code, s, 2, 1);
        n, s' := 3, Step(w.code, s2);
      }
    }
  }

  lemma MatchValue(L: Layout, index: nat, v: F, offset: nat)
    requires index < |L.matchStarts| && index < |L.matchSizes| && offset <= v && ArmPc(L, index, v - offset) < P
    ensures var base := ConstExpr.Minus(MatchFirstBlockStart(index),
        ConstExpr.Times(Scalar(FromUsize(offset)), MatchBlockSize(index)));
            FAdd(FMul(v, Eval(MatchBlockSize(index), L)), Eval(base, L)) == ArmPc(L, index, v - offset)
  {
    hide FAdd, FMul, FSub, FromUsize;
    MatchArithmetic(v, offset, L.matchSizes[index], L.matchStarts[index]);
    var scaled := ConstExpr.Times(Scalar(FromUsize(offset)), MatchBlockSize(index));
    assert Eval(scaled, L) == FMul(FromUsize(offset), FromUsize(L.matchSizes[index]));
  }

  lemma ScaleStep(w: World, a: Activation, s: State, scopes: Scopes, pos: nat, l: Local, value: Operand,
      size: ConstExpr, rest: seq<Instr>)
    requires At(w.code, w.L, [Instr.Computation(Mul, ValueOf(value, scopes), Const(size), Mem(pos))] + rest, s)
    requires Fits(a, Slots(scopes), pos, l.scope) && pos < a.size
        && Holding(a, Slots(scopes), pos, l.env, s.fp, s.ap, s.mem)
    requires Lookup(value, l.scope, l.env).Some?
    ensures Advanced(w, a, Slots(scopes), pos, l.env, FMul(Lookup(value, l.scope, l.env).value, Eval(size, w.L)), rest,
        s, Step(w.code, s))
  {
    hide Fits, Placed, Holding;
    HoldingBounds(a, Slots(scopes), pos, l.env, s.fp, s.ap, s.mem);
    ValueReads(a, scopes, pos, l, value, w.L, s.fp, s.ap, s.mem);
    VacantOffset(a, Slots(scopes), pos, l.env, s.fp, s.ap, s.mem, pos);
    StashComputation(w, a, Slots(scopes), pos, l, Mul, ValueOf(value, scopes), Const(size), Mem(pos),
        FMul(Lookup(value, l.scope, l.env).value, Eval(size, w.L)), rest, s);
  }

  lemma ShiftStep(w: World, a: Activation, s: State, slots: map<Var, nat>, pos: nat, l: Local, base: ConstExpr, t0: F,
      rest: seq<Instr>)
    requires At(w.code, w.L, [Instr.Computation(Add, Mem(pos), Const(base), Mem(pos + 1))] + rest, s)
    requires Fits(a, slots, pos, l.scope) && pos + 1 < a.size && Holding(a, slots, pos + 1, l.env, s.fp, s.ap, s.mem)
    requires ReadValue(Mem(pos), w.L, s.mem, s.fp) == Some(t0)
    ensures Advanced(w, a, slots, pos + 1, l.env, FAdd(t0, Eval(base, w.L)), rest, s, Step(w.code, s))
  {
    hide Fits, Placed, Holding;
    HoldingBounds(a, slots, pos + 1, l.env, s.fp, s.ap, s.mem);
    FitsLater(a, slots, pos, pos + 1, l.scope);
    VacantOffset(a, slots, pos + 1, l.env, s.fp, s.ap, s.mem, pos + 1);
    StashComputation(w, a, slots, pos + 1, l, Add, Mem(pos), Const(base), Mem(pos + 1), FAdd(t0, Eval(base, w.L)),
        rest, s);
  }

  // -- Entering and leaving an arm ------------------------------------------------------------

  /** The offsets an arm may use end where the two temporaries of its match begin. */
  function Shrunk(a: Activation, size: nat): Activation { a.(size := size) }

  lemma HoldingBeyond(a: Activation, size: nat, slots: map<Var, nat>, pos: nat, env: Env, fp: nat, ap: nat, mem: Memory,
      o: nat, v: F)
    requires Holding(Shrunk(a, size), slots, pos, env, fp, ap, mem)
    requires size <= o && fp + o < ap && fp + o !in mem && o !in a.free
    requires forall x :: x in slots ==> slots[x] < size
    ensures Holding(Shrunk(a, size), slots, pos, env, fp, ap, mem[fp + o := v])
  {
  }

  lemma HoldingShrinks(a: Activation, size: nat, slots: map<Var, nat>, pos: nat, env: Env, fp: nat, ap: nat,
      mem: Memory)
    requires Holding(a, slots, pos, env, fp, ap, mem) && size <= a.size
    ensures Holding(Shrunk(a, size), slots, pos, env, fp, ap, mem)
  {
    forall address | address in mem ensures !Vacant(Shrunk(a, size), pos, fp, ap, address) {
      assert !Vacant(a, pos, fp, ap, address);
    }
  }

  /** What an arm leaves fits the whole frame: nothing past its own offsets has been written since the jump. */
  lemma HoldingRegrows(a: Activation, size: nat, slots: map<Var, nat>, pos: nat, later: nat, env0: Env, env: Env,
      fp: nat, ap: nat, mem: Memory, ap': nat, mem': Memory)
    requires Holding(a, slots, later, env0, fp, ap, mem) && size <= later
    requires Kept(fp, size, ap, mem, mem') && Holding(Shrunk(a, size), slots, pos, env, fp, ap', mem') && ap <= ap'
    ensures Holding(a, slots, later, env, fp, ap', mem')
  {
    forall address | address in mem' ensures !Vacant(a, later, fp, ap', address) {
      assert !Vacant(Shrunk(a, size), pos, fp, ap', address);
      if address in mem { assert !Vacant(a, later, fp, ap, address); }
    }
  }

  function MatchArms(c: Context, block: Block, st: CState): (seq<seq<Instr>>, CState)
    requires block.Then? && block.line.Match?
  {
    CompileArms(c, block.line.arms, EnterMatch(st), st.stackPos, st.stackPos, MatchEnd(st.matchCounter))
  }

  function MatchDone(c: Context, block: Block, st: CState): CState
    requires block.Then? && block.line.Match?
  {
    AfterArms(MatchArms(c, block, st).0, MatchArms(c, block, st).1)
  }

  function ArmState(c: Context, block: Block, st: CState, k: nat): CState
    requires block.Then? && block.line.Match? && k < CountArms(block.line.arms)
  {
    ArmStart(c, block.line.arms, EnterMatch(st), st.stackPos, k, MatchEnd(st.matchCounter))
  }

  lemma MatchOffsets(c: Context, block: Block, st: CState, next: Option<Label>)
    requires block.Then? && block.line.Match?
    ensures var arms, after := MatchArms(c, block, st), MatchDone(c, block, st);
            && st.stackPos <= arms.1.stackPos && after.stackPos == arms.1.stackPos + 2
            && after.scopes == Push(st.scopes)
            && after.stackPos <= Compile(c, block, st, next).1.stackPos
                == Compile(c, block.rest, after, next).1.stackPos
            && |arms.0| == CountArms(block.line.arms)
  {
    ArmsKeepScopes(c, block.line.arms, EnterMatch(st), st.stackPos, st.stackPos, MatchEnd(st.matchCounter));
    CompileKeepsScopes(c, block.rest, MatchDone(c, block, st), next);
  }

  lemma MatchCode(w: World, c: Context, block: Block, st: CState, next: Option<Label>)
    requires block.Then? && block.line.Match? && Tidy(st) && StoredIn(w, Compile(c, block, st, next).1)
    ensures var arms, after := MatchArms(c, block, st), MatchDone(c, block, st);
            var r, index := Compile(c, block.rest, after, next), |arms.1.matchBlocks|;
            && Tidy(after) && StoredIn(w, after) && StoredIn(w, r.1) && index < |w.arms| && w.arms[index] == arms.0
            && MatchEnd(st.matchCounter) in w.blocks && w.blocks[MatchEnd(st.matchCounter)] == r.0
  {
    MatchExtends(c, block, st, next);
    var after := MatchDone(c, block, st);
    var r := Compile(c, block.rest, after, next).1;
    ContainedIsStored(w, r, Compile(c, block, st, next).1);
    ContainedIsStored(w, after, r);
    var index := |MatchArms(c, block, st).1.matchBlocks|;
    assert after.matchBlocks[index] == MatchArms(c, block, st).0;
  }

  lemma ArmCode(w: World, c: Context, block: Block, st: CState, k: nat)
    requires block.Then? && block.line.Match? && k < CountArms(block.line.arms) && Tidy(st)
        && StoredIn(w, MatchDone(c, block, st))
    ensures var start, arms := ArmState(c, block, st, k), MatchArms(c, block, st);
            var r := Compile(c, ArmBody(block.line.arms, k), start, Some(MatchEnd(st.matchCounter)));
            && Tidy(start) && start.scopes == Push(Push(st.scopes)) && start.stackPos == st.stackPos
            && k < |arms.0| && arms.0[k] == r.0 && StoredIn(w, r.1) && r.1.stackPos <= arms.1.stackPos
  {
    ExtendsQuietly(st, EnterMatch(st));
    TidyExtends(st, EnterMatch(st));
    ArmPart(c, block.line.arms, EnterMatch(st), st.stackPos, st.stackPos, k, MatchEnd(st.matchCounter));
    var arms := MatchArms(c, block, st);
    var r := Compile(c, ArmBody(block.line.arms, k), ArmState(c, block, st, k), Some(MatchEnd(st.matchCounter)));
    ContainedIsStored(w, arms.1, MatchDone(c, block, st));
    ContainedIsStored(w, r.1, arms.1);
  }

  lemma ArmAt(w: World, index: nat, k: nat, s: State)
    requires ArmsLinked(w) && index < |w.arms| && k < |w.arms[index]|
    requires s.Running? && s.pc == ArmPc(w.L, index, k) && s.h == 0
    ensures At(w.code, w.L, w.arms[index][k], s)
  {
  }

  lemma {:induction false} ArmReturnsOk(c: Context, homes: map<Var, nat>, free: set<nat>, arms: Arms, k: nat)
    requires ArmsOk(c, homes, free, arms) && k < CountArms(arms)
    ensures ReturnsOk(c, homes, free, ArmBody(arms, k))
  {
    if k > 0 { ArmReturnsOk(c, homes, free, arms.others, k - 1); }
  }

  lemma FitsShrunk(a: Activation, size: nat, slots: map<Var, nat>, pos: nat, scope: set<Var>)
    requires Fits(a, slots, pos, scope)
    ensures Fits(Shrunk(a, size), slots, pos, scope)
    ensures forall x :: x in slots ==> slots[x] < pos
    ensures forall o :: o in a.free ==> o < pos
  {
  }

  /** A match value inside the arms takes control to its arm, which may use the offsets below the two temporaries. */
  lemma MatchEnters(w: World, a: Activation, block: Block, st: CState, next: Option<Label>, l: Local, s: State)
    returns (n: nat, s1: State)
    requires BlocksLinked(w) && ArmsLinked(w) && Ready(w, a, block, st, next, l, s) && block.Then? && block.line.Match?
    requires Lookup(block.line.value, l.scope, l.env).Some?
        && block.line.offset <= Lookup(block.line.value, l.scope, l.env).value < block.line.offset
        + CountArms(block.line.arms)
    ensures var k := Lookup(block.line.value, l.scope, l.env).value - block.line.offset;
            var size := MatchArms(a.c, block, st).1.stackPos;
            s1 == Run(w.code, s, n) &&
            (Exhausted(s1, s.ap) ||
             (Moves(a.size, s, s1) && s1.ap == s.ap
                 && Holding(a, Slots(st.scopes), size + 2, l.env, s1.fp, s1.ap, s1.mem)
              && Ready(w, Shrunk(a, size), ArmBody(block.line.arms, k), ArmState(a.c, block, st, k),
                  Some(MatchEnd(st.matchCounter)), l, s1)))
  {
    hide Fits, Holding, Placed, StoredIn, Kept, BlocksLinked, Tidy, AfterArms, CompileArms, ArmPc;
    var k := Lookup(block.line.value, l.scope, l.env).value - block.line.offset;
    var arms, slots := MatchArms(a.c, block, st), Slots(st.scopes);
    var size, index := arms.1.stackPos, |arms.1.matchBlocks|;
    MatchOffsets(a.c, block, st, next);
    MatchCode(w, a.c, block, st, next);
    ArmCode(w, a.c, block, st, k);
    SlotsOfPush(st.scopes);
    SlotsOfPush(Push(st.scopes));
    GrownReflexive(slots);
    HoldingLater(a, slots, st.stackPos, slots, size, l.env, s.fp, s.ap, s.mem);
    FitsLater(a, slots, st.stackPos, size, l.scope);
    var t0, t1;
    ArmPcInRange(w, index, k);
    assert Slots(EnterMatch(st).scopes) == slots;
    n, s1, t0, t1 := MatchJumps(w, a, s, EnterMatch(st).scopes, size, l, block.line.value, index, block.line.offset);
    if s1.Running? {
      ArmAt(w, index, k, s1);
      ArmHolding(a, slots, st.stackPos, size, l, s, t0, t1);
      FitsShrunk(a, size, slots, st.stackPos, l.scope);
      ArmReturnsOk(a.c, a.homes, a.free, block.line.arms, k);
    }
  }

  lemma ArmPcInRange(w: World, index: nat, k: nat)
    requires ArmsLinked(w) && index < |w.arms| && k < |w.arms[index]|
    ensures index < |w.L.matchStarts| && index < |w.L.matchSizes| && ArmPc(w.L, index, k) < P
  {
    assert w.arms[index][k] == w.arms[index][k];
  }

  lemma ArmHolding(a: Activation, slots: map<Var, nat>, pos: nat, size: nat, l: Local, s: State, t0: F, t1: F)
    requires s.Running? && Fits(a, slots, pos, l.scope) && Holding(a, slots, pos, l.env, s.fp, s.ap, s.mem)
    requires pos <= size && size + 2 <= a.size
    ensures Holding(Shrunk(a, size), slots, pos, l.env, s.fp, s.ap, s.mem[s.fp + size := t0][s.fp + (size + 1) := t1])
  {
    hide Fits, Holding;
    FitsShrunk(a, size, slots, pos, l.scope);
    HoldingShrinks(a, size, slots, pos, l.env, s.fp, s.ap, s.mem);
    HoldingBounds(a, slots, pos, l.env, s.fp, s.ap, s.mem);
    VacantOffset(a, slots, pos, l.env, s.fp, s.ap, s.mem, size);
    VacantOffset(a, slots, pos, l.env, s.fp, s.ap, s.mem, size + 1);
    HoldingBeyond(a, size, slots, pos, l.env, s.fp, s.ap, s.mem, size, t0);
    HoldingBeyond(a, size, slots, pos, l.env, s.fp, s.ap, s.mem[s.fp + size := t0], size + 1, t1);
  }

  /** An arm that ends brings the machine to the code after the match. */
  lemma MatchLeaves(w: World, a: Activation, block: Block, st: CState, next: Option<Label>, l: Local, s: State, k: nat,
      env: Env, s1: State, s2: State)
    requires BlocksLinked(w) && Ready(w, a, block, st, next, l, s) && block.Then? && block.line.Match?
        && k < CountArms(block.line.arms)
    requires var size := MatchArms(a.c, block, st).1.stackPos; var start := ArmState(a.c, block, st, k);
             && s1.Running? && Holding(a, Slots(st.scopes), size + 2, l.env, s1.fp, s1.ap, s1.mem)
             && ArrivesAt(w, size, MatchEnd(st.matchCounter), s1, s2)
             && Holding(Shrunk(a, size), Slots(start.scopes),
                 Compile(a.c, ArmBody(block.line.arms, k), start, Some(MatchEnd(st.matchCounter))).1.stackPos, env,
                 s2.fp, s2.ap, s2.mem)
    ensures Ready(w, a, block.rest, MatchDone(a.c, block, st), next, l.(env := env), s2)
  {
    hide Fits, Holding, Placed, StoredIn, Kept, BlocksLinked, Tidy, AfterArms, CompileArms;
    var slots, size := Slots(st.scopes), MatchArms(a.c, block, st).1.stackPos;
    MatchOffsets(a.c, block, st, next);
    MatchCode(w, a.c, block, st, next);
    ArmCode(w, a.c, block, st, k);
    SlotsOfPush(st.scopes);
    SlotsOfPush(Push(st.scopes));
    BlockAt(w, MatchEnd(st.matchCounter), s2);
    HoldingRegrows(a, size, slots,
        Compile(a.c, ArmBody(block.line.arms, k), ArmState(a.c, block, st, k),
        Some(MatchEnd(st.matchCounter))).1.stackPos,
                   size + 2, l.env, env, s1.fp, s1.ap, s1.mem, s2.ap, s2.mem);
    FitsLater(a, slots, st.stackPos, size + 2, l.scope);
  }
}
