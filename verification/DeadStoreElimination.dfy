/** Dropping stores to names that are never read: what it keeps of the meaning and what it loses. */
module DeadStoreElimination {
  import opened KoalaBear
  import opened SimpleLang

  /**
   * l runs with every line, m without the dead stores. They agree on live names; a dead name that is in scope and set
   * in m has the same value in l.
   */
  ghost predicate Alike(l: Local, m: Local, dead: set<Var>) {
    && (forall x :: x in dead ==> x.Name?)
    && (forall x :: x !in dead ==> (x in l.scope <==> x in m.scope))
    && (forall x :: x !in dead ==> (x in l.env <==> x in m.env))
    && (forall x :: x !in dead && x in l.env ==> m.env[x] == l.env[x])
    && (forall x :: x in dead && x in m.scope ==> x in l.scope)
    && (forall x :: x in dead && x in m.scope && x in m.env ==> x in l.env && l.env[x] == m.env[x])
  }

  predicate Live(os: set<Var>, dead: set<Var>) { os !! dead }

  lemma LookupAlike(l: Local, m: Local, o: Operand, dead: set<Var>)
    requires Alike(l, m, dead) && Live(Named(o), dead)
    ensures Lookup(o, l.scope, l.env) == Lookup(o, m.scope, m.env)
  {
    if o.Variable? { assert o.name in Named(o); }
  }

  lemma LookupAllAlike(l: Local, m: Local, os: seq<Operand>, dead: set<Var>)
    requires Alike(l, m, dead) && Live(AllNamed(os), dead)
    ensures LookupAll(os, l.scope, l.env) == LookupAll(os, m.scope, m.env)
    decreases |os|
  {
    if os != [] {
      assert Named(os[0]) <= AllNamed(os) && AllNamed(os[1..]) <= AllNamed(os);
      LookupAlike(l, m, os[0], dead);
      LookupAllAlike(l, m, os[1..], dead);
    }
  }

  /** If the full run can introduce a name, so can the other. */
  lemma IntroduceAlike(l: Local, m: Local, o: Operand, dead: set<Var>)
    requires Alike(l, m, dead) && Introduce(l, o, {}).Some?
    ensures Introduce(m, o, dead).Some? && Alike(Introduce(l, o, {}).value, Introduce(m, o, dead).value, dead)
    ensures o.Variable? ==> o.name in Introduce(m, o, dead).value.scope
  {
  }

  lemma IntroduceAllAlike(l: Local, m: Local, xs: seq<Var>, dead: set<Var>)
    requires Alike(l, m, dead) && IntroduceAll(l, xs, {}).Some?
    ensures IntroduceAll(m, xs, dead).Some?
        && Alike(IntroduceAll(l, xs, {}).value, IntroduceAll(m, xs, dead).value, dead)
    ensures m.scope <= IntroduceAll(m, xs, dead).value.scope && forall x :: x in xs ==>
        x in IntroduceAll(m, xs, dead).value.scope
    decreases |xs|
  {
    hide Alike;
    if xs != [] {
      IntroduceAlike(l, m, Variable(xs[0]), dead);
      IntroduceAllAlike(Introduce(l, Variable(xs[0]), {}).value, Introduce(m, Variable(xs[0]), dead).value, xs[1..],
          dead);
      forall x | x in xs ensures x in IntroduceAll(m, xs, dead).value.scope {
        if x != xs[0] { assert x in xs[1..]; }
      }
    }
  }

  /** Giving a name a value goes through in m if it does in l. */
  lemma UnifyAlike(l: Local, m: Local, o: Operand, v: F, dead: set<Var>)
    requires Alike(l, m, dead) && (o.Variable? ==> o.name in m.scope)
    ensures Unify(l, o, v).Continues? ==> Unify(m, o, v).Continues? && Alike(Unify(l, o, v).l, Unify(m, o, v).l, dead)
    ensures !(o.Variable? && o.name in dead) ==> Unify(l, o, v).Continues? == Unify(m, o, v).Continues?
    ensures Unify(m, o, v).Continues? ==> Unify(m, o, v).l.scope == m.scope
  {
  }

  lemma UnifyAllAlike(l: Local, m: Local, xs: seq<Var>, vs: seq<F>, dead: set<Var>)
    requires Alike(l, m, dead) && |xs| == |vs| && (forall x :: x in xs ==> x in m.scope)
    ensures UnifyAll(l, xs, vs).Continues? ==>
        UnifyAll(m, xs, vs).Continues? && Alike(UnifyAll(l, xs, vs).l, UnifyAll(m, xs, vs).l, dead)
    decreases |xs|
  {
    hide Alike;
    if xs != [] {
      UnifyAlike(l, m, Variable(xs[0]), vs[0], dead);
      if Unify(l, Variable(xs[0]), vs[0]).Continues? {
        UnifyAllAlike(Unify(l, Variable(xs[0]), vs[0]).l, Unify(m, Variable(xs[0]), vs[0]).l, xs[1..], vs[1..], dead);
      }
    }
  }

  /** Giving the names xs the values vs first fails at a name that is never read and had a value before. */
  predicate Clash(l: Local, xs: seq<Var>, vs: seq<F>, dead: set<Var>, before: set<Var>)
    requires |xs| == |vs|
    decreases |xs|
  {
    xs != [] &&
    var u := Unify(l, Variable(xs[0]), vs[0]);
    if u.Stops? then xs[0] in dead && xs[0] in before else Clash(u.l, xs[1..], vs[1..], dead, before)
  }

  /** Apart from a clash, m stops where l stops: dead names new to l are new to m. */
  lemma UnifyAllStopsAlike(l: Local, m: Local, xs: seq<Var>, vs: seq<F>, dead: set<Var>, before: set<Var>)
    requires Alike(l, m, dead) && |xs| == |vs| && (forall x :: x in xs ==> x in m.scope)
    requires forall x :: x in xs && x in dead && x !in before ==> (x in l.env <==> x in m.env)
    ensures UnifyAll(l, xs, vs).Stops? && !Clash(l, xs, vs, dead, before) ==> UnifyAll(m, xs, vs).Stops?
    decreases |xs|
  {
    if xs != [] && Unify(l, Variable(xs[0]), vs[0]).Continues? {
      UnifyAlike(l, m, Variable(xs[0]), vs[0], dead);
      UnifyAllStopsAlike(Unify(l, Variable(xs[0]), vs[0]).l, Unify(m, Variable(xs[0]), vs[0]).l, xs[1..], vs[1..], dead,
          before);
    }
  }

  lemma UnifyStops(l: Local, o: Operand, v: F)
    ensures Unify(l, o, v).Stops? ==> Unify(l, o, v) == Stops(Panics)
  {
  }

  lemma DeadAssignAlike(l: Local, m: Local, x: Var, op: MathOp, a: Operand, b: Operand, dead: set<Var>)
    requires Alike(l, m, dead) && x in dead
    ensures Assign(l, Variable(x), op, a, b, {}).Continues? ==> Alike(Assign(l, Variable(x), op, a, b, {}).l, m, dead)
  {
  }

  lemma AssignAlike(l: Local, m: Local, target: Operand, op: MathOp, a: Operand, b: Operand, dead: set<Var>)
    requires Alike(l, m, dead) && Live(Named(a) + Named(b), dead)
    ensures Assign(l, target, op, a, b, {}).Continues? ==>
      Assign(m, target, op, a, b, dead).Continues?
          && Alike(Assign(l, target, op, a, b, {}).l, Assign(m, target, op, a, b, dead).l, dead)
    ensures Assign(l, target, op, a, b, {}) == Stops(Panics) && !(target.Variable? && target.name in dead) ==>
        Assign(m, target, op, a, b, dead) == Stops(Panics)
  {
    if target.Variable? && target.name in dead {
      DeadAssignAlike(l, m, target.name, op, a, b, dead);
    } else {
      hide Alike, Assign;
      LiveAssignAlike(l, m, target, op, a, b, dead);
    }
  }

  lemma LiveAssignAlike(l: Local, m: Local, target: Operand, op: MathOp, a: Operand, b: Operand, dead: set<Var>)
    requires Alike(l, m, dead) && Live(Named(a) + Named(b), dead) && !(target.Variable? && target.name in dead)
    ensures Assign(l, target, op, a, b, {}).Continues? ==>
      Assign(m, target, op, a, b, dead).Continues?
          && Alike(Assign(l, target, op, a, b, {}).l, Assign(m, target, op, a, b, dead).l, dead)
    ensures Assign(l, target, op, a, b, {}) == Stops(Panics) ==> Assign(m, target, op, a, b, dead) == Stops(Panics)
  {
    hide Alike, Lookup, Holds, Apply, Introduce, Unify;
    if Introduce(l, target, {}).Some? {
      IntroduceAlike(l, m, target, dead);
      var l1, m1 := Introduce(l, target, {}).value, Introduce(m, target, dead).value;
      LookupAlike(l1, m1, a, dead);
      LookupAlike(l1, m1, b, dead);
      LookupAlike(l1, m1, target, dead);
      var va, vb := Lookup(a, l1.scope, l1.env), Lookup(b, l1.scope, l1.env);
      if va.Some? && vb.Some? && Apply(op, va.value, vb.value).Some? {
        UnifyAlike(l1, m1, target, Apply(op, va.value, vb.value).value, dead);
        UnifyStops(l1, target, Apply(op, va.value, vb.value).value);
        UnifyStops(m1, target, Apply(op, va.value, vb.value).value);
      }
    }
  }

  lemma EquateAlike(l: Local, m: Local, left: Operand, right: Operand, dead: set<Var>)
    requires Alike(l, m, dead) && Live(Named(left) + Named(right), dead)
    ensures Equate(l, left, right, {}).Continues? ==>
      Equate(m, left, right, dead).Continues?
          && Alike(Equate(l, left, right, {}).l, Equate(m, left, right, dead).l, dead)
    ensures Equate(l, left, right, {}) == Stops(Panics) ==> Equate(m, left, right, dead) == Stops(Panics)
  {
    hide Alike, Lookup, Introduce, Unify;
    if Introduce(l, left, {}).Some? && Introduce(Introduce(l, left, {}).value, right, {}).Some? {
      IntroduceAlike(l, m, left, dead);
      var l0, m0 := Introduce(l, left, {}).value, Introduce(m, left, dead).value;
      IntroduceAlike(l0, m0, right, dead);
      var l1, m1 := Introduce(l0, right, {}).value, Introduce(m0, right, dead).value;
      ScopesGrow(m0, right, Plus, left, right, dead);
      EquateValuesAlike(l1, m1, left, right, dead);
      forall o, v ensures Unify(m1, o, v).Stops? ==> Unify(m1, o, v) == Stops(Panics) { UnifyStops(m1, o, v); }
      forall o, v ensures Unify(l1, o, v).Stops? ==> Unify(l1, o, v) == Stops(Panics) { UnifyStops(l1, o, v); }
    }
  }

  lemma EquateValuesAlike(l: Local, m: Local, left: Operand, right: Operand, dead: set<Var>)
    requires Alike(l, m, dead) && Live(Named(left) + Named(right), dead) && Named(left) + Named(right) <= m.scope
    ensures Lookup(left, l.scope, l.env) == Lookup(left, m.scope, m.env)
        && Lookup(right, l.scope, l.env) == Lookup(right, m.scope, m.env)
    ensures forall o, v {:trigger Unify(l, o, v)} :: o in {left, right} ==>
      Unify(l, o, v).Continues? == Unify(m, o, v).Continues?
          && (Unify(l, o, v).Continues? ==> Alike(Unify(l, o, v).l, Unify(m, o, v).l, dead))
  {
    LookupAlike(l, m, left, dead);
    LookupAlike(l, m, right, dead);
    forall o, v | o in {left, right}
      ensures Unify(l, o, v).Continues? == Unify(m, o, v).Continues?
          && (Unify(l, o, v).Continues? ==> Alike(Unify(l, o, v).l, Unify(m, o, v).l, dead))
    {
      UnifyAlike(l, m, o, v, dead);
    }
  }

  /** Lexical scope comes back after a branch while the values stay. */
  lemma AlikeNarrow(l: Local, m: Local, l1: Local, m1: Local, envL: Env, envM: Env, dead: set<Var>)
    requires Alike(l, m, dead) && m.scope <= m1.scope && Alike(Local(l1.scope, envL), Local(m1.scope, envM), dead)
    ensures Alike(Local(l.scope, envL), Local(m.scope, envM), dead)
  {
  }

  lemma ScopesGrow(m: Local, o: Operand, op: MathOp, a: Operand, b: Operand, dead: set<Var>)
    ensures Introduce(m, o, dead).Some? ==> m.scope <= Introduce(m, o, dead).value.scope
    ensures Assign(m, o, op, a, b, dead).Continues? ==> m.scope <= Assign(m, o, op, a, b, dead).l.scope
    ensures Equate(m, a, b, dead).Continues? ==> m.scope <= Equate(m, a, b, dead).l.scope
  {
  }

  lemma StopsAreFinal(l: Local, o: Operand, op: MathOp, a: Operand, b: Operand)
    ensures Assign(l, o, op, a, b, {}).Stops? ==> Assign(l, o, op, a, b, {}).outcome in {Panics, Undefined}
    ensures Equate(l, a, b, {}).Stops? ==> Equate(l, a, b, {}).outcome in {Panics, Undefined}
  {
  }

  lemma UnifyAllScope(m: Local, xs: seq<Var>, vs: seq<F>)
    requires |xs| == |vs|
    ensures UnifyAll(m, xs, vs).Continues? ==> UnifyAll(m, xs, vs).l.scope == m.scope
    decreases |xs|
  {
  }

  // -- Where the full run stops at something that is left out -----------------------------------------

  /** x = a op b cannot be met: x has another value already, or x is unset and the quotient does not exist. */
  predicate StoreFails(l: Local, x: Var, op: MathOp, a: Operand, b: Operand) {
    var l' := Introduce(l, Variable(x), {});
    l'.Some? &&
    var va, vb := Lookup(a, l'.value.scope, l'.value.env), Lookup(b, l'.value.scope, l'.value.env);
    va.Some? && vb.Some? && if x in l.env then !Holds(op, va.value, vb.value, l.env[x]) else op == Over && vb.value == 0
  }

  lemma StoreFailsPanics(l: Local, x: Var, op: MathOp, a: Operand, b: Operand)
    ensures StoreFails(l, x, op, a, b) <==> Assign(l, Variable(x), op, a, b, {}) == Stops(Panics)
  {
  }

  /**
   * The full run ends at a store to a name that is never read, or at a call result that is never read and had another
   * value before the call, in this function or in one it calls.
   */
  predicate StopsAtDead(p: Program, dead: set<Var>, block: Block, l: Local, fuel: nat)
    decreases fuel, block
  {
    match block
    case Done => false
    case Then(line, rest) =>
      match line
      case ForwardDeclaration(x) => x !in l.scope && x !in l.env
          && StopsAtDead(p, dead, rest, l.(scope := l.scope + {x}), fuel)
      case Assignment(target, op, a, b) =>
        var r := Assign(l, target, op, a, b, {});
        if r.Stops? then target.Variable? && target.name in dead && StoreFails(l, target.name, op, a, b)
        else StopsAtDead(p, dead, rest, r.l, fuel)
      case ConstMalloc(id, size) =>
        CellsOf(id, size) !! l.scope + l.env.Keys
            && StopsAtDead(p, dead, rest, l.(scope := l.scope + CellsOf(id, size)), fuel)
      case AssertEq(left, right) =>
        var r := Equate(l, left, right, {});
        r.Continues? && StopsAtDead(p, dead, rest, r.l, fuel)
      case IfNotZero(condition, thenBranch, elseBranch) =>
        var c := Lookup(condition, l.scope, l.env);
        c.Some? &&
        var branch := if c.value != 0 then thenBranch else elseBranch;
        var r := Execute(p, false, {}, branch, l, fuel);
        if r.Falls? then StopsAtDead(p, dead, rest, l.(env := r.env), fuel) else StopsAtDead(p, dead, branch, l, fuel)
      case Match(value, arms, offset) =>
        var v := Lookup(value, l.scope, l.env);
        v.Some? && v.value >= offset &&
        var r := ExecuteArm(p, false, {}, arms, v.value - offset, l, fuel);
        if r.Falls? then StopsAtDead(p, dead, rest, l.(env := r.env), fuel)
            else StopsAtDeadInArm(p, dead, arms, v.value - offset, l, fuel)
      case FunctionCall(callee, args, results) =>
        callee in p && callee != "main" && fuel > 0 &&
        var f := p[callee];
        var vs := LookupAll(args, l.scope, l.env);
        var l' := IntroduceAll(l, results, {});
        vs.Some? && |args| == |f.arguments| && |results| == f.nReturned && l'.Some? &&
        var start := Local(Arguments(f), Bindings(f.arguments, vs.value));
        var r := Execute(p, false, {}, f.body, start, fuel - 1);
        if r.Returns? then
          |r.values| == |results| &&
          var u := UnifyAll(l'.value, results, r.values);
          if u.Stops? then Clash(l'.value, results, r.values, dead, l'.value.env.Keys)
              else StopsAtDead(p, dead, rest, u.l, fuel)
        else StopsAtDead(p, DeadStores(f.body), f.body, start, fuel - 1)
      case _ => false
  }

  predicate StopsAtDeadInArm(p: Program, dead: set<Var>, arms: Arms, k: nat, l: Local, fuel: nat)
    decreases fuel, arms
  {
    arms.Arm? && if k == 0 then StopsAtDead(p, dead, arms.body, l, fuel)
        else StopsAtDeadInArm(p, dead, arms.others, k - 1, l, fuel)
  }

  /**
   * The outcome without the dead stores is that of the full run, if the full run returns, falls through or is
   * unfinished, and also if it panics anywhere but at something that is left out.
   */
  ghost predicate Follows(full: Outcome, dropped: Outcome, l: Local, m: Local, dead: set<Var>, stop: bool) {
    match full
    case Returns(_) => dropped == full
    case OutOfFuel => dropped == full
    case Falls(env) => dropped.Falls? && Alike(Local(l.scope, env), Local(m.scope, dropped.env), dead)
    case Panics => stop || dropped == full
    case Undefined | OutsideArms => true
  }

  lemma FollowsNarrow(full: Outcome, dropped: Outcome, l: Local, m: Local, l1: Local, m1: Local, dead: set<Var>,
      stop: bool)
    requires Alike(l, m, dead) && m.scope <= m1.scope && Follows(full, dropped, l1, m1, dead, stop)
    ensures Follows(full, dropped, l, m, dead, stop)
  {
    if full.Falls? { AlikeNarrow(l, m, l1, m1, full.env, dropped.env, dead); }
  }

  /** Dead names are never read, so leaving out the stores to them keeps every run that does not stop at one. */
  lemma {:induction false} DropKeeps(p: Program, dead: set<Var>, block: Block, l: Local, m: Local, fuel: nat)
    requires Alike(l, m, dead) && Live(Used(block), dead)
    ensures Follows(Execute(p, false, {}, block, l, fuel), Execute(p, true, dead, block, m, fuel), l, m, dead,
        StopsAtDead(p, dead, block, l, fuel))
    decreases fuel, block, 2
  {
    hide Alike, Introduce, Lookup, Assign, Equate, Follows, StoreFails;
    match block
    case Done => EndFollows(l, m, dead);
    case Then(line, rest) =>
      var full, dropped := Execute(p, false, {}, block, l, fuel), Execute(p, true, dead, block, m, fuel);
      var stop := StopsAtDead(p, dead, block, l, fuel);
      match line
      case ForwardDeclaration(x) => DropKeepsDeclaration(p, dead, block, l, m, fuel);
      case ConstMalloc(_, _) => DropKeepsConstMalloc(p, dead, block, l, m, fuel);
      case Assignment(target, op, a, b) =>
        var r, r' := Assign(l, target, op, a, b, {}), Assign(m, target, op, a, b, dead);
        AssignAlike(l, m, target, op, a, b, dead);
        if r.Continues? {
          ScopesGrow(m, target, op, a, b, dead);
          DropKeeps(p, dead, rest, r.l, r'.l, fuel);
          FollowsNarrow(full, dropped, l, m, r.l, r'.l, dead, stop);
        } else {
          StopsAreFinal(l, target, op, a, b);
          if target.Variable? { StoreFailsPanics(l, target.name, op, a, b); }
          StopsFollow(r.outcome, dropped, l, m, dead, stop);
        }
      case AssertEq(left, right) =>
        var r, r' := Equate(l, left, right, {}), Equate(m, left, right, dead);
        EquateAlike(l, m, left, right, dead);
        if r.Continues? {
          ScopesGrow(m, left, Plus, left, right, dead);
          DropKeeps(p, dead, rest, r.l, r'.l, fuel);
          FollowsNarrow(full, dropped, l, m, r.l, r'.l, dead, stop);
        } else {
          StopsAreFinal(l, left, Plus, left, right);
          StopsFollow(r.outcome, dropped, l, m, dead, stop);
        }
      case IfNotZero(condition, x, y) =>
        LookupAlike(l, m, condition, dead);
        var c := Lookup(condition, l.scope, l.env);
        if c.Some? {
          var branch := if c.value != 0 then x else y;
          DropKeeps(p, dead, branch, l, m, fuel);
          DropKeepsRest(p, dead, block, l, m, fuel, Execute(p, false, {}, branch, l, fuel),
              Execute(p, true, dead, branch, m, fuel), StopsAtDead(p, dead, branch, l, fuel));
        } else { StopsFollow(Undefined, dropped, l, m, dead, stop); }
      case Match(value, arms, offset) =>
        LookupAlike(l, m, value, dead);
        var v := Lookup(value, l.scope, l.env);
        if v.Some? && v.value >= offset {
          var k := v.value - offset;
          DropKeepsArm(p, dead, arms, k, l, m, fuel);
          DropKeepsRest(p, dead, block, l, m, fuel, ExecuteArm(p, false, {}, arms, k, l, fuel),
              ExecuteArm(p, true, dead, arms, k, m, fuel), StopsAtDeadInArm(p, dead, arms, k, l, fuel));
        } else { StopsFollow(full, dropped, l, m, dead, stop); }
      case FunctionCall(callee, args, results) => DropKeepsCall(p, dead, block, l, m, fuel);
      case FunctionRet(data) =>
        LookupAllAlike(l, m, data, dead);
        SameFollows(full, dropped, l, m, dead, stop);
      case Abort => SameFollows(full, dropped, l, m, dead, stop);
  }

  lemma SameFollows(full: Outcome, dropped: Outcome, l: Local, m: Local, dead: set<Var>, stop: bool)
    requires full == dropped && !full.Falls?
    ensures Follows(full, dropped, l, m, dead, stop)
  {
  }

  lemma EndFollows(l: Local, m: Local, dead: set<Var>)
    requires Alike(l, m, dead)
    ensures Follows(Falls(l.env), Falls(m.env), l, m, dead, false)
  {
  }

  lemma StopsFollow(full: Outcome, dropped: Outcome, l: Local, m: Local, dead: set<Var>, stop: bool)
    requires full.Undefined? || full.OutsideArms? || (full.Panics? && (stop || dropped == full))
    ensures Follows(full, dropped, l, m, dead, stop)
  {
  }

  /** After the inner block the rest follows, or the inner outcome is the outcome. */
  lemma DropKeepsRest(p: Program, dead: set<Var>, block: Block, l: Local, m: Local, fuel: nat, r: Outcome, r': Outcome,
      stop: bool)
    requires Alike(l, m, dead) && block.Then? && Live(Used(block), dead) && Follows(r, r', l, m, dead, stop)
    ensures Follows(if r.Falls? then Execute(p, false, {}, block.rest, l.(env := r.env), fuel) else r,
                    if r'.Falls? then Execute(p, true, dead, block.rest, m.(env := r'.env), fuel) else r', l, m, dead,
                    if r.Falls? then StopsAtDead(p, dead, block.rest, l.(env := r.env), fuel) else stop)
    decreases fuel, block, 0
  {
    hide Alike, StopsAtDead, Execute;
    if r.Falls? {
      DropKeeps(p, dead, block.rest, l.(env := r.env), m.(env := r'.env), fuel);
      FollowsNarrow(Execute(p, false, {}, block.rest, l.(env := r.env), fuel),
          Execute(p, true, dead, block.rest, m.(env := r'.env), fuel),
                    l, m, l.(env := r.env), m.(env := r'.env), dead,
                        StopsAtDead(p, dead, block.rest, l.(env := r.env), fuel));
    }
  }

  lemma DropKeepsDeclaration(p: Program, dead: set<Var>, block: Block, l: Local, m: Local, fuel: nat)
    requires Alike(l, m, dead) && block.Then? && block.line.ForwardDeclaration? && Live(Used(block), dead)
    ensures Follows(Execute(p, false, {}, block, l, fuel), Execute(p, true, dead, block, m, fuel), l, m, dead,
        StopsAtDead(p, dead, block, l, fuel))
    decreases fuel, block, 0
  {
    var x := block.line.x;
    if x !in l.scope && x !in l.env {
      var l1, m1 := l.(scope := l.scope + {x}), if x in dead then m else m.(scope := m.scope + {x});
      assert Alike(l1, m1, dead);
      DropKeeps(p, dead, block.rest, l1, m1, fuel);
      FollowsNarrow(Execute(p, false, {}, block.rest, l1, fuel), Execute(p, true, dead, block.rest, m1, fuel), l, m, l1,
          m1, dead, StopsAtDead(p, dead, block, l, fuel));
    }
  }

  lemma DropKeepsConstMalloc(p: Program, dead: set<Var>, block: Block, l: Local, m: Local, fuel: nat)
    requires Alike(l, m, dead) && block.Then? && block.line.ConstMalloc? && Live(Used(block), dead)
    ensures Follows(Execute(p, false, {}, block, l, fuel), Execute(p, true, dead, block, m, fuel), l, m, dead,
        StopsAtDead(p, dead, block, l, fuel))
    decreases fuel, block, 0
  {
    var cells := CellsOf(block.line.id, block.line.size);
    if cells !! l.scope + l.env.Keys {
      var l1, m1 := l.(scope := l.scope + cells), m.(scope := m.scope + cells);
      assert Alike(l1, m1, dead);
      DropKeeps(p, dead, block.rest, l1, m1, fuel);
      FollowsNarrow(Execute(p, false, {}, block.rest, l1, fuel), Execute(p, true, dead, block.rest, m1, fuel), l, m, l1,
          m1, dead, StopsAtDead(p, dead, block, l, fuel));
    }
  }

  lemma DropKeepsArm(p: Program, dead: set<Var>, arms: Arms, k: nat, l: Local, m: Local, fuel: nat)
    requires Alike(l, m, dead) && Live(UsedInArms(arms), dead)
    ensures Follows(ExecuteArm(p, false, {}, arms, k, l, fuel), ExecuteArm(p, true, dead, arms, k, m, fuel), l, m, dead,
        StopsAtDeadInArm(p, dead, arms, k, l, fuel))
    decreases fuel, arms, 1
  {
    hide Alike;
    if arms.Arm? {
      if k == 0 {
        DropKeeps(p, dead, arms.body, l, m, fuel);
      } else { DropKeepsArm(p, dead, arms.others, k - 1, l, m, fuel); }
    }
  }

  lemma DropKeepsCall(p: Program, dead: set<Var>, block: Block, l: Local, m: Local, fuel: nat)
    requires Alike(l, m, dead) && block.Then? && block.line.FunctionCall? && Live(Used(block), dead)
    ensures Follows(Execute(p, false, {}, block, l, fuel), Execute(p, true, dead, block, m, fuel), l, m, dead,
        StopsAtDead(p, dead, block, l, fuel))
    decreases fuel, block, 1
  {
    hide Alike, LookupAll, IntroduceAll, UnifyAll, Bindings, DeadStores, Clash;
    var FunctionCall(callee, args, results) := block.line;
    LookupAllAlike(l, m, args, dead);
    if callee in p && IntroduceAll(l, results, {}).Some? {
      IntroduceAllAlike(l, m, results, dead);
      if LookupAll(args, l.scope, l.env).Some? && |args| == |p[callee].arguments| && fuel > 0 {
        var f := p[callee];
        var start := Local(Arguments(f), Bindings(f.arguments, LookupAll(args, l.scope, l.env).value));
        AlikeItself(start, f.body);
        NeverRead(f.body);
        DropKeeps(p, DeadStores(f.body), f.body, start, start, fuel - 1);
        var r := Execute(p, false, {}, f.body, start, fuel - 1);
        if r.Returns? && |r.values| == |results| {
          DropKeepsResults(p, dead, block, l, m, fuel, r.values);
        }
      }
    }
  }

  lemma NeverRead(body: Block)
    ensures Live(Used(body), DeadStores(body))
  {
  }

  lemma AlikeItself(l: Local, body: Block)
    ensures Alike(l, l, DeadStores(body))
  {
  }

  lemma DropKeepsResults(p: Program, dead: set<Var>, block: Block, l: Local, m: Local, fuel: nat, values: seq<F>)
    requires Alike(l, m, dead) && block.Then? && block.line.FunctionCall? && Live(Used(block), dead)
        && |values| == |block.line.results|
    requires IntroduceAll(l, block.line.results, {}).Some? && IntroduceAll(m, block.line.results, dead).Some?
    ensures var l1, m1 := IntroduceAll(l, block.line.results, {}).value,
        IntroduceAll(m, block.line.results, dead).value;
            var u, u' := UnifyAll(l1, block.line.results, values), UnifyAll(m1, block.line.results, values);
            if u.Continues? then
              u'.Continues? && Follows(Execute(p, false, {}, block.rest, u.l, fuel),
                  Execute(p, true, dead, block.rest, u'.l, fuel), l, m, dead,
                  StopsAtDead(p, dead, block.rest, u.l, fuel))
            else Clash(l1, block.line.results, values, dead, l1.env.Keys) || u'.Stops?
    decreases fuel, block, 0
  {
    hide Alike, IntroduceAll, UnifyAll, Execute, StopsAtDead, Clash;
    var results := block.line.results;
    IntroduceAllAlike(l, m, results, dead);
    var l1, m1 := IntroduceAll(l, results, {}).value, IntroduceAll(m, results, dead).value;
    var u, u' := UnifyAll(l1, results, values), UnifyAll(m1, results, values);
    UnifyAllAlike(l1, m1, results, values, dead);
    if u.Continues? {
      UnifyAllScope(m1, results, values);
      DropKeeps(p, dead, block.rest, u.l, u'.l, fuel);
      FollowsNarrow(Execute(p, false, {}, block.rest, u.l, fuel), Execute(p, true, dead, block.rest, u'.l, fuel), l, m,
          u.l, u'.l, dead, StopsAtDead(p, dead, block.rest, u.l, fuel));
    } else {
      NewNamesAlike(l1, m1, results, dead);
      UnifyAllStopsAlike(l1, m1, results, values, dead, l1.env.Keys);
    }
  }

  lemma NewNamesAlike(l: Local, m: Local, xs: seq<Var>, dead: set<Var>)
    requires Alike(l, m, dead) && forall x :: x in xs ==> x in m.scope
    ensures forall x :: x in xs && x in dead && x !in l.env.Keys ==> (x in l.env <==> x in m.env)
  {
  }

  // -- What is lost ------------------------------------------------------------------------------

  /** A run that stops at something that is left out panics. */
  lemma {:induction false} StopIsPanic(p: Program, dead: set<Var>, block: Block, l: Local, fuel: nat)
    requires StopsAtDead(p, dead, block, l, fuel)
    ensures Execute(p, false, {}, block, l, fuel) == Panics
    decreases fuel, block
  {
    hide Introduce, Lookup, Assign, Equate, StoreFails, UnifyAll, Clash, DeadStores, Bindings;
    var Then(line, rest) := block;
    match line
    case ForwardDeclaration(x) => StopIsPanic(p, dead, rest, l.(scope := l.scope + {x}), fuel);
    case ConstMalloc(id, size) => StopIsPanic(p, dead, rest, l.(scope := l.scope + CellsOf(id, size)), fuel);
    case Assignment(target, op, a, b) =>
      var r := Assign(l, target, op, a, b, {});
      if r.Continues? { StopIsPanic(p, dead, rest, r.l, fuel); } else { StoreFailsPanics(l, target.name, op, a, b); }
    case AssertEq(left, right) => StopIsPanic(p, dead, rest, Equate(l, left, right, {}).l, fuel);
    case IfNotZero(condition, x, y) =>
      var branch := if Lookup(condition, l.scope, l.env).value != 0 then x else y;
      var r := Execute(p, false, {}, branch, l, fuel);
      if r.Falls? {
        StopIsPanic(p, dead, rest, l.(env := r.env), fuel);
      } else { StopIsPanic(p, dead, branch, l, fuel); }
    case Match(value, arms, offset) =>
      var k := Lookup(value, l.scope, l.env).value - offset;
      var r := ExecuteArm(p, false, {}, arms, k, l, fuel);
      if r.Falls? {
        StopIsPanic(p, dead, rest, l.(env := r.env), fuel);
      } else { StopInArmIsPanic(p, dead, arms, k, l, fuel); }
    case FunctionCall(callee, args, results) =>
      var f := p[callee];
      var start := Local(Arguments(f), Bindings(f.arguments, LookupAll(args, l.scope, l.env).value));
      var r := Execute(p, false, {}, f.body, start, fuel - 1);
      if r.Returns? {
        var u := UnifyAll(IntroduceAll(l, results, {}).value, results, r.values);
        if u.Continues? { StopIsPanic(p, dead, rest, u.l, fuel); }
      } else {
        StopIsPanic(p, DeadStores(f.body), f.body, start, fuel - 1);
      }
  }

  lemma StopInArmIsPanic(p: Program, dead: set<Var>, arms: Arms, k: nat, l: Local, fuel: nat)
    requires StopsAtDeadInArm(p, dead, arms, k, l, fuel)
    ensures ExecuteArm(p, false, {}, arms, k, l, fuel) == Panics
    decreases fuel, arms
  {
    if k == 0 {
      StopIsPanic(p, dead, arms.body, l, fuel);
    } else { StopInArmIsPanic(p, dead, arms.others, k - 1, l, fuel); }
  }

  /**
   * For every program, body, start and length of run: a panic is lost exactly if the full run stops at something that
   * is left out and the run without it does not panic later.
   */
  lemma PanicIsLost(p: Program, body: Block, l: Local, fuel: nat)
    ensures var dead := DeadStores(body);
            var full, dropped := Execute(p, false, {}, body, l, fuel), Execute(p, true, dead, body, l, fuel);
            full.Panics? && !dropped.Panics? <==> StopsAtDead(p, dead, body, l, fuel) && !dropped.Panics?
  {
    hide Execute, StopsAtDead, DeadStores;
    var dead := DeadStores(body);
    AlikeItself(l, body);
    NeverRead(body);
    DropKeeps(p, dead, body, l, l, fuel);
    if StopsAtDead(p, dead, body, l, fuel) { StopIsPanic(p, dead, body, l, fuel); }
  }

  // -- Programs that keep their panics -----------------------------------------------------------------

  /** The names the lines may give a value to, apart from those they read. */
  function Assigned(block: Block): set<Var> {
    if block.Done? then {} else AssignedByLine(block.line) + Assigned(block.rest)
  }

  function AssignedByLine(line: Line): set<Var> {
    match line
    case Assignment(target, _, _, _) => Named(target)
    case IfNotZero(_, a, b) => Assigned(a) + Assigned(b)
    case Match(_, arms, _) => AssignedInArms(arms)
    case FunctionCall(_, _, results) => set x | x in results
    case _ => {}
  }

  function AssignedInArms(arms: Arms): set<Var> {
    if arms.NoArms? then {} else Assigned(arms.body) + AssignedInArms(arms.others)
  }

  /**
   * Read off the program text: every store to a dead name is a sum, difference or product, or a division by a non-zero
   * literal, and no dead name is given a value when some line before on the path may have given it one.
   */
  predicate Harmless(block: Block, dead: set<Var>, given: set<Var>) {
    match block
    case Done => true
    case Then(line, rest) =>
      Harmless(rest, dead, given + AssignedByLine(line)) &&
      match line
      case Assignment(target, op, _, b) =>
        target.Variable? && target.name in dead ==> target.name !in given && (op == Over ==> b.Literal? && b.value != 0)
      case IfNotZero(_, x, y) => Harmless(x, dead, given) && Harmless(y, dead, given)
      case Match(_, arms, _) => HarmlessArms(arms, dead, given)
      case FunctionCall(_, _, results) => forall x :: x in results && x in dead ==> x !in given
      case _ => true
  }

  predicate HarmlessArms(arms: Arms, dead: set<Var>, given: set<Var>) {
    arms.NoArms? || (Harmless(arms.body, dead, given) && HarmlessArms(arms.others, dead, given))
  }

  predicate AllHarmless(p: Program) {
    forall f :: f in p ==> Harmless(p[f].body, DeadStores(p[f].body), Arguments(p[f]))
  }

  /** Of the dead names only the given ones have values. */
  ghost predicate Within(env: Env, dead: set<Var>, given: set<Var>) {
    forall x :: x in dead && x in env ==> x in given
  }

  lemma AssignWithin(l: Local, target: Operand, op: MathOp, a: Operand, b: Operand, dead: set<Var>, given: set<Var>)
    requires Within(l.env, dead, given)
    ensures Assign(l, target, op, a, b, {}).Continues? ==>
        Within(Assign(l, target, op, a, b, {}).l.env, dead, given + Named(target))
  {
    hide Lookup, Holds, Apply;
  }

  lemma EquateWithin(l: Local, left: Operand, right: Operand, dead: set<Var>, given: set<Var>)
    requires Within(l.env, dead, given) && Live(Named(left) + Named(right), dead)
    ensures Equate(l, left, right, {}).Continues? ==> Within(Equate(l, left, right, {}).l.env, dead, given)
  {
    hide Lookup;
    assert left.Variable? ==> left.name in Named(left);
    assert right.Variable? ==> right.name in Named(right);
  }

  lemma UnifyAllWithin(l: Local, xs: seq<Var>, vs: seq<F>, dead: set<Var>, given: set<Var>)
    requires |xs| == |vs| && Within(l.env, dead, given) && forall x :: x in xs ==> x in given
    ensures UnifyAll(l, xs, vs).Continues? ==> Within(UnifyAll(l, xs, vs).l.env, dead, given)
    decreases |xs|
  {
    if xs != [] && Unify(l, Variable(xs[0]), vs[0]).Continues? {
      UnifyAllWithin(Unify(l, Variable(xs[0]), vs[0]).l, xs[1..], vs[1..], dead, given);
    }
  }

  lemma IntroduceAllKeepsNames(l: Local, xs: seq<Var>)
    ensures IntroduceAll(l, xs, {}).Some? ==> IntroduceAll(l, xs, {}).value.env.Keys <= l.env.Keys
    decreases |xs|
  {
    if xs != [] && Introduce(l, Variable(xs[0]), {}).Some? {
      IntroduceAllKeepsNames(Introduce(l, Variable(xs[0]), {}).value, xs[1..]);
    }
  }

  lemma NewResultsDoNotClash(l: Local, xs: seq<Var>, vs: seq<F>, dead: set<Var>, before: set<Var>)
    requires |xs| == |vs| && forall x :: x in xs && x in dead ==> x !in before
    ensures !Clash(l, xs, vs, dead, before)
    decreases |xs|
  {
    if xs != [] && Unify(l, Variable(xs[0]), vs[0]).Continues? {
      NewResultsDoNotClash(Unify(l, Variable(xs[0]), vs[0]).l, xs[1..], vs[1..], dead, before);
    }
  }

  lemma BindingsWithin(xs: seq<Var>, vs: seq<F>)
    requires |xs| == |vs|
    ensures forall x :: x in Bindings(xs, vs) ==> x in xs
  {
  }

  lemma ArgumentsWithin(f: Function, vs: seq<F>, dead: set<Var>)
    requires |vs| == |f.arguments|
    ensures Within(Bindings(f.arguments, vs), dead, Arguments(f))
  {
    BindingsWithin(f.arguments, vs);
  }

  /** Lines that are harmless never stop a run at something that is left out. */
  lemma {:induction false} HarmlessNeverStops(p: Program, dead: set<Var>, block: Block, l: Local, given: set<Var>,
      fuel: nat)
    requires AllHarmless(p) && Live(Used(block), dead) && Harmless(block, dead, given) && Within(l.env, dead, given)
    ensures !StopsAtDead(p, dead, block, l, fuel)
    ensures var r := Execute(p, false, {}, block, l, fuel); r.Falls? ==> Within(r.env, dead, given + Assigned(block))
    decreases fuel, block, 1
  {
    hide Introduce, Lookup, Assign, Equate, StoreFails, UnifyAll, Clash, DeadStores, Bindings, AllHarmless;
    match block
    case Done =>
    case Then(line, rest) =>
      var given' := given + AssignedByLine(line);
      match line
      case ForwardDeclaration(x) => HarmlessNeverStops(p, dead, rest, l.(scope := l.scope + {x}), given', fuel);
      case ConstMalloc(id, size) =>
          HarmlessNeverStops(p, dead, rest, l.(scope := l.scope + CellsOf(id, size)), given', fuel);
      case Assignment(target, op, a, b) =>
        var r := Assign(l, target, op, a, b, {});
        if r.Continues? {
          AssignWithin(l, target, op, a, b, dead, given);
          HarmlessNeverStops(p, dead, rest, r.l, given', fuel);
        } else {
          StopsAreFinal(l, target, op, a, b);
          if target.Variable? && target.name in dead { HarmlessStore(l, target.name, op, a, b, dead, given); }
        }
      case AssertEq(left, right) =>
        var r := Equate(l, left, right, {});
        if r.Continues? {
          EquateWithin(l, left, right, dead, given);
          HarmlessNeverStops(p, dead, rest, r.l, given', fuel);
        } else { StopsAreFinal(l, left, Plus, left, right); }
      case IfNotZero(condition, x, y) =>
        var c := Lookup(condition, l.scope, l.env);
        if c.Some? {
          var branch := if c.value != 0 then x else y;
          HarmlessNeverStops(p, dead, branch, l, given, fuel);
          var r := Execute(p, false, {}, branch, l, fuel);
          if r.Falls? { HarmlessNeverStops(p, dead, rest, l.(env := r.env), given', fuel); }
        }
      case Match(value, arms, offset) =>
        var v := Lookup(value, l.scope, l.env);
        if v.Some? && v.value >= offset {
          HarmlessArmNeverStops(p, dead, arms, v.value - offset, l, given, fuel);
          var r := ExecuteArm(p, false, {}, arms, v.value - offset, l, fuel);
          if r.Falls? { HarmlessNeverStops(p, dead, rest, l.(env := r.env), given', fuel); }
        }
      case FunctionCall(callee, args, results) => HarmlessCallNeverStops(p, dead, block, l, given, fuel);
      case _ =>
  }

  lemma HarmlessStore(l: Local, x: Var, op: MathOp, a: Operand, b: Operand, dead: set<Var>, given: set<Var>)
    requires Within(l.env, dead, given) && x in dead && x !in given && (op == Over ==> b.Literal? && b.value != 0)
    ensures !StoreFails(l, x, op, a, b)
  {
  }

  lemma HarmlessArmNeverStops(p: Program, dead: set<Var>, arms: Arms, k: nat, l: Local, given: set<Var>, fuel: nat)
    requires AllHarmless(p) && Live(UsedInArms(arms), dead) && HarmlessArms(arms, dead, given)
        && Within(l.env, dead, given)
    ensures !StopsAtDeadInArm(p, dead, arms, k, l, fuel)
    ensures var r := ExecuteArm(p, false, {}, arms, k, l, fuel);
        r.Falls? ==> Within(r.env, dead, given + AssignedInArms(arms))
    decreases fuel, arms, 1
  {
    hide AllHarmless;
    if arms.Arm? {
      if k == 0 {
        HarmlessNeverStops(p, dead, arms.body, l, given, fuel);
      } else { HarmlessArmNeverStops(p, dead, arms.others, k - 1, l, given, fuel); }
    }
  }

  lemma HarmlessCallNeverStops(p: Program, dead: set<Var>, block: Block, l: Local, given: set<Var>, fuel: nat)
    requires block.Then? && block.line.FunctionCall?
    requires AllHarmless(p) && Live(Used(block), dead) && Harmless(block, dead, given) && Within(l.env, dead, given)
    ensures !StopsAtDead(p, dead, block, l, fuel)
    ensures var r := Execute(p, false, {}, block, l, fuel); r.Falls? ==> Within(r.env, dead, given + Assigned(block))
    decreases fuel, block, 0
  {
    hide Introduce, IntroduceAll, LookupAll, UnifyAll, Clash, DeadStores, Bindings;
    var FunctionCall(callee, args, results) := block.line;
    var vs, l' := LookupAll(args, l.scope, l.env), IntroduceAll(l, results, {});
    if callee in p && fuel > 0 && vs.Some? && l'.Some? && |args| == |p[callee].arguments| {
      var f := p[callee];
      var start := Local(Arguments(f), Bindings(f.arguments, vs.value));
      NeverRead(f.body);
      ArgumentsWithin(f, vs.value, DeadStores(f.body));
      HarmlessNeverStops(p, DeadStores(f.body), f.body, start, Arguments(f), fuel - 1);
      var r := Execute(p, false, {}, f.body, start, fuel - 1);
      if r.Returns? && |r.values| == |results| {
        var u := UnifyAll(l'.value, results, r.values);
        IntroduceAllKeepsNames(l, results);
        NewResultsDoNotClash(l'.value, results, r.values, dead, l'.value.env.Keys);
        if u.Continues? {
          UnifyAllWithin(l'.value, results, r.values, dead, given + AssignedByLine(block.line));
          HarmlessNeverStops(p, dead, block.rest, u.l, given + AssignedByLine(block.line), fuel);
        }
      }
    }
  }

  /** A body whose only line divides by zero into a name that is never read. */
  function DividesByZero(): Block {
    Then(Assignment(Variable(Name("x")), Over, Literal(1), Literal(0)), Then(FunctionRet([]), Done))
  }

  /** A body that gives a name that is never read two values. */
  function StoresTwice(): Block {
    Then(Assignment(Variable(Name("x")), Plus, Literal(1), Literal(0)),
      Then(Assignment(Variable(Name("x")), Plus, Literal(2), Literal(0)), Then(FunctionRet([]), Done)))
  }

  /** The full run panics and the run without dead stores returns, so dropping dead stores does not preserve panics. */
  lemma DropLosesPanic(p: Program, body: Block, fuel: nat)
    requires body in {DividesByZero(), StoresTwice()}
    ensures var start := Local({}, map[]);
            && !Harmless(body, DeadStores(body), {})
            && Execute(p, false, {}, body, start, fuel) == Panics
            && Execute(p, true, DeadStores(body), body, start, fuel) == Returns([])
  {
    assert Declared(body) == {Name("x")};
    assert Used(body) == {};
    assert Name("x") in DeadStores(body);
    assert Execute(p, true, DeadStores(body), body.rest, Local({}, map[]), fuel) == Returns([]);
  }
}
