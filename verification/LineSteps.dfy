/** One assignment or assertion: the instruction emitted for it does to the frame what the line means. */
module LineSteps {
  import opened KoalaBear
  import opened Machine
  import opened Ir
  import opened SimpleLang
  import opened CompilerSpec
  import opened Frames

  /** The emitted equation checks a known target and computes an unknown one. */
  lemma EquationSolves(op: MathOp, a: Value, b: Value, t: Value, L: Layout, mem: Memory, fp: nat)
    requires ReadValue(a, L, mem, fp).Some? && ReadValue(b, L, mem, fp).Some?
    ensures var va, vb, vt := ReadValue(a, L, mem, fp).value, ReadValue(b, L, mem, fp).value, ReadValue(t, L, mem, fp);
            var i := Equation(op, a, b, t);
            Solve(i.op, i.a, i.b, i.res, L, mem, fp) ==
              if vt.Some? then (if Holds(op, va, vb, vt.value) then Stored(mem) else Refused(NotEqual))
              else if Apply(op, va, vb).None? then Refused(DivByZero)
              else SetValue(t, mem, fp, Apply(op, va, vb).value)
  {
  }

  /** The write brings the frame to the state the line leaves, fails if the line panics, or hits the memory limit. */
  ghost predicate Follows(w: Write, r: Progress, a: Activation, slots: map<Var, nat>, pos: nat, scope: set<Var>,
      fp: nat, ap: nat, mem: Memory)
  {
    match r
    case Continues(l) => if w.Stored? then l.scope == scope && Holding(a, slots, pos, l.env, fp, ap, w.mem)
        && Kept(fp, a.size, ap, mem, w.mem) else w.error == OutOfMemory && ap > MEMORY_LIMIT
    case Stops(outcome) => outcome.Panics? && w.Refused?
  }

  lemma UnifyFollows(a: Activation, s: Scopes, pos: nat, l: Local, o: Operand, v: F, L: Layout, fp: nat, ap: nat,
      mem: Memory)
    requires Fits(a, Slots(s), pos, l.scope) && pos <= a.size
    requires Holding(a, Slots(s), pos, l.env, fp, ap, mem)
    requires o.Variable? ==> o.name in l.scope
    ensures var t := ReadValue(ValueOf(o, s), L, mem, fp);
            var w := if t.Some? then (if t.value == v then Stored(mem) else Refused(NotEqual))
                else SetValue(ValueOf(o, s), mem, fp, v);
            Follows(w, Unify(l, o, v), a, Slots(s), pos, l.scope, fp, ap, mem)
  {
    hide Fits, Holding, Kept, Slots, FMul, FAdd, FNeg, FInv;
    ValueReads(a, s, pos, l, o, L, fp, ap, mem);
    KeptReflexive(fp, a.size, ap, mem);
    if o.Variable? && o.name !in l.env {
      BindCell(a, Slots(s), pos, l, o.name, v, fp, ap, mem);
    }
  }

  lemma AssignFollows(a: Activation, st: CState, l: Local, target: Operand, op: MathOp, x: Operand, y: Operand,
      L: Layout, fp: nat, ap: nat, mem: Memory)
    requires Fits(a, Slots(st.scopes), st.stackPos, l.scope) && 2 <= st.stackPos
    requires Holding(a, Slots(st.scopes), st.stackPos, l.env, fp, ap, mem)
    requires !(target.Variable? && target.name in a.c.dead)
    requires Assign(l, target, op, x, y, a.c.dead) != Stops(Undefined)
    requires RegisterIfNeeded(st, target).stackPos <= a.size
    ensures var st1 := RegisterIfNeeded(st, target);
            var i := Equation(op, ValueOf(x, st1.scopes), ValueOf(y, st1.scopes), ValueOf(target, st1.scopes));
            var scope := l.scope + Named(target);
            && Plain(i.a) && Plain(i.b) && Plain(i.res)
            && Fits(a, Slots(st1.scopes), st1.stackPos, scope) && Grown(Slots(st.scopes), Slots(st1.scopes))
            && Follows(Solve(i.op, i.a, i.b, i.res, L, mem, fp), Assign(l, target, op, x, y, a.c.dead), a,
                Slots(st1.scopes), st1.stackPos, scope, fp, ap, mem)
  {
    hide Fits, Holding;
    IntroduceFits(a, st, l, target, fp, ap, mem);
    var st1, l1 := RegisterIfNeeded(st, target), Introduce(l, target, a.c.dead).value;
    ValueReads(a, st1.scopes, st1.stackPos, l1, x, L, fp, ap, mem);
    ValueReads(a, st1.scopes, st1.stackPos, l1, y, L, fp, ap, mem);
    ValueReads(a, st1.scopes, st1.stackPos, l1, target, L, fp, ap, mem);
    var vx, vy := Lookup(x, l1.scope, l1.env).value, Lookup(y, l1.scope, l1.env).value;
    EquationSolves(op, ValueOf(x, st1.scopes), ValueOf(y, st1.scopes), ValueOf(target, st1.scopes), L, mem, fp);
    if Apply(op, vx, vy).Some? {
      UnifyFollows(a, st1.scopes, st1.stackPos, l1, target, Apply(op, vx, vy).value, L, fp, ap, mem);
    }
  }

  lemma EquateFollows(a: Activation, st: CState, l: Local, left: Operand, right: Operand, L: Layout, fp: nat, ap: nat,
      mem: Memory)
    requires Fits(a, Slots(st.scopes), st.stackPos, l.scope) && 2 <= st.stackPos
    requires Holding(a, Slots(st.scopes), st.stackPos, l.env, fp, ap, mem)
    requires Equate(l, left, right, a.c.dead) != Stops(Undefined)
    requires RegisterIfNeeded(RegisterIfNeeded(st, left), right).stackPos <= a.size
    ensures var st1 := RegisterIfNeeded(RegisterIfNeeded(st, left), right);
            var i := Equality(ValueOf(left, st1.scopes), ValueOf(right, st1.scopes));
            var scope := l.scope + Named(left) + Named(right);
            && Plain(i.a) && Plain(i.b) && Plain(i.res)
            && Fits(a, Slots(st1.scopes), st1.stackPos, scope) && Grown(Slots(st.scopes), Slots(st1.scopes))
            && Follows(Solve(i.op, i.a, i.b, i.res, L, mem, fp), Equate(l, left, right, a.c.dead), a, Slots(st1.scopes),
                st1.stackPos, scope, fp, ap, mem)
  {
    hide Fits, Holding, Kept;
    IntroduceFits(a, st, l, left, fp, ap, mem);
    var st0, l0 := RegisterIfNeeded(st, left), Introduce(l, left, a.c.dead).value;
    IntroduceFits(a, st0, l0, right, fp, ap, mem);
    var st1, l1 := RegisterIfNeeded(st0, right), Introduce(l0, right, a.c.dead).value;
    EqualityFollows(a, st1.scopes, st1.stackPos, l1, left, right, L, fp, ap, mem);
  }

  /** Adding zero passes a value from whichever side has one to the other. */
  lemma EqualitySolves(left: Value, right: Value, L: Layout, mem: Memory, fp: nat)
    ensures var va, vb := ReadValue(left, L, mem, fp), ReadValue(right, L, mem, fp);
            Solve(Add, left, Const(Scalar(0)), right, L, mem, fp) ==
              if va.Some? then
                if vb.None? then SetValue(right, mem, fp, va.value) else if vb.value == va.value then Stored(mem)
                    else Refused(NotEqual)
              else if vb.None? then Refused(UndefinedMemory)
              else SetValue(left, mem, fp, vb.value)
  {
    var va, vb := ReadValue(left, L, mem, fp), ReadValue(right, L, mem, fp);
    if va.Some? { AddLaws(va.value, 0, 0); }
    if vb.Some? { SubAdds(vb.value, 0); }
  }

  lemma EqualityFollows(a: Activation, s: Scopes, pos: nat, l: Local, left: Operand, right: Operand, L: Layout, fp: nat,
      ap: nat, mem: Memory)
    requires Fits(a, Slots(s), pos, l.scope) && pos <= a.size
    requires Holding(a, Slots(s), pos, l.env, fp, ap, mem)
    requires Named(left) + Named(right) <= l.scope
    requires Lookup(left, l.scope, l.env).Some? || Lookup(right, l.scope, l.env).Some?
    ensures var i := Equality(ValueOf(left, s), ValueOf(right, s));
            var va, vb := Lookup(left, l.scope, l.env), Lookup(right, l.scope, l.env);
            && Plain(i.a) && Plain(i.b) && Plain(i.res)
            && Follows(Solve(i.op, i.a, i.b, i.res, L, mem, fp), if va.Some? then Unify(l, right, va.value)
                else Unify(l, left, vb.value), a, Slots(s), pos, l.scope, fp, ap, mem)
  {
    hide Fits, Holding, Kept;
    ValueReads(a, s, pos, l, left, L, fp, ap, mem);
    ValueReads(a, s, pos, l, right, L, fp, ap, mem);
    var va, vb := Lookup(left, l.scope, l.env), Lookup(right, l.scope, l.env);
    EqualitySolves(ValueOf(left, s), ValueOf(right, s), L, mem, fp);
    if va.Some? {
      UnifyFollows(a, s, pos, l, right, va.value, L, fp, ap, mem);
    } else {
      UnifyFollows(a, s, pos, l, left, vb.value, L, fp, ap, mem);
    }
  }
}
