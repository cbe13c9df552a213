/** Checks on the text of a program, and that a program that passes them always has a meaning. */
module Scoping {
  import opened Wrappers
  import opened KoalaBear
  import opened SimpleLang
  import opened CompilerSpec

  // -- Functions that always return -------------------------------------------------------------------------

  /** The last line returns or panics, or it has inner blocks and all of them do. */
  predicate AlwaysReturns(block: Block) {
    block.Then? &&
    if block.rest.Then? then AlwaysReturns(block.rest)
    else
      match block.line
      case FunctionRet(_) => true
      case Abort => true
      case IfNotZero(_, a, b) => AlwaysReturns(a) && AlwaysReturns(b)
      case Match(_, arms, _) => arms.Arm? && ArmsAlwaysReturn(arms)
      case _ => false
  }

  predicate ArmsAlwaysReturn(arms: Arms) {
    arms.NoArms? || (AlwaysReturns(arms.body) && ArmsAlwaysReturn(arms.others))
  }

  /** No run of such a block falls through. */
  lemma {:induction false} NeverFalls(p: Program, drop: bool, dead: set<Var>, block: Block, l: Local, fuel: nat)
    requires AlwaysReturns(block)
    ensures !Execute(p, drop, dead, block, l, fuel).Falls?
    decreases fuel, block
  {
    hide Assign, Equate, Lookup, IntroduceAll, UnifyAll, LookupAll, DeadStores, Bindings;
    forall l1 | block.rest.Then? ensures !Execute(p, drop, dead, block.rest, l1, fuel).Falls? {
      NeverFalls(p, drop, dead, block.rest, l1, fuel);
    }
    match block.line
    case Assignment(target, op, a, b) => StopsWithOutcome(l, target, op, a, b, dead);
    case AssertEq(left, right) => StopsWithOutcome(l, left, Plus, left, right, dead);
    case IfNotZero(_, a, b) =>
      if block.rest.Done? {
        NeverFalls(p, drop, dead, a, l, fuel);
        NeverFalls(p, drop, dead, b, l, fuel);
      }
    case Match(value, arms, offset) =>
      if block.rest.Done? && Lookup(value, l.scope, l.env).Some? && Lookup(value, l.scope, l.env).value >= offset {
        ArmNeverFalls(p, drop, dead, arms, Lookup(value, l.scope, l.env).value - offset, l, fuel);
      }
    case _ =>
  }

  lemma {:induction false} ArmNeverFalls(p: Program, drop: bool, dead: set<Var>, arms: Arms, k: nat, l: Local,
      fuel: nat)
    requires ArmsAlwaysReturn(arms)
    ensures !ExecuteArm(p, drop, dead, arms, k, l, fuel).Falls?
    decreases fuel, arms
  {
    if arms.Arm? {
      if k == 0 {
        NeverFalls(p, drop, dead, arms.body, l, fuel);
      } else { ArmNeverFalls(p, drop, dead, arms.others, k - 1, l, fuel); }
    }
  }

  lemma StopsWithOutcome(l: Local, target: Operand, op: MathOp, a: Operand, b: Operand, dead: set<Var>)
    ensures var r := Assign(l, target, op, a, b, dead); r.Stops? ==> r.outcome.Panics? || r.outcome.Undefined?
    ensures var r := Equate(l, a, b, dead); r.Stops? ==> r.outcome.Panics? || r.outcome.Undefined?
  {
    hide Introduce, Lookup, Holds, Apply;
  }

  /** A return has as many values as the function promises. */
  lemma {:induction false} ReturnsAsMany(p: Program, drop: bool, dead: set<Var>, block: Block, l: Local, fuel: nat,
      n: nat)
    requires ReturnsFit(block, n)
    ensures var r := Execute(p, drop, dead, block, l, fuel); r.Returns? ==> |r.values| == n
    decreases fuel, block
  {
    hide Assign, Equate, Lookup, IntroduceAll, UnifyAll, LookupAll, DeadStores, Bindings;
    if block.Then? {
      forall l1 ensures var r := Execute(p, drop, dead, block.rest, l1, fuel); r.Returns? ==> |r.values| == n {
        ReturnsAsMany(p, drop, dead, block.rest, l1, fuel, n);
      }
      match block.line
      case Assignment(target, op, a, b) => StopsWithOutcome(l, target, op, a, b, dead);
      case AssertEq(left, right) => StopsWithOutcome(l, left, Plus, left, right, dead);
      case IfNotZero(_, a, b) =>
        ReturnsAsMany(p, drop, dead, a, l, fuel, n);
        ReturnsAsMany(p, drop, dead, b, l, fuel, n);
      case Match(value, arms, offset) =>
        if Lookup(value, l.scope, l.env).Some? && Lookup(value, l.scope, l.env).value >= offset {
          ArmReturnsAsMany(p, drop, dead, arms, Lookup(value, l.scope, l.env).value - offset, l, fuel, n);
        }
      case FunctionRet(data) =>
      case _ =>
    }
  }

  lemma {:induction false} ArmReturnsAsMany(p: Program, drop: bool, dead: set<Var>, arms: Arms, k: nat, l: Local,
      fuel: nat, n: nat)
    requires ArmsFit(arms, n)
    ensures var r := ExecuteArm(p, drop, dead, arms, k, l, fuel); r.Returns? ==> |r.values| == n
    decreases fuel, arms
  {
    if arms.Arm? {
      if k == 0 {
        ReturnsAsMany(p, drop, dead, arms.body, l, fuel, n);
      } else { ArmReturnsAsMany(p, drop, dead, arms.others, k - 1, l, fuel, n); }
    }
  }

  // -- Names ----------------------------------------------------------------------------------------------------

  /** The names in scope, those that have a value on every path, and those that have one on some path. */
  datatype Names = Names(scope: set<Var>, sure: set<Var>, possible: set<Var>)

  function Introduced(k: Names, o: Operand): Option<Names> {
    if o.Literal? || o.name in k.scope then Some(k)
    else if o.name.Cell? || o.name in k.possible then None
    else Some(k.(scope := k.scope + {o.name}))
  }

  function AllIntroduced(k: Names, xs: seq<Var>): Option<Names>
    decreases |xs|
  {
    if xs == [] then Some(k)
    else
      var k' := Introduced(k, Variable(xs[0]));
      if k'.None? then None else AllIntroduced(k'.value, xs[1..])
  }

  predicate Readable(k: Names, o: Operand) {
    o.Variable? ==> o.name in k.scope && o.name in k.sure
  }

  function Given(k: Names, xs: set<Var>): Names {
    k.(sure := k.sure + xs, possible := k.possible + xs)
  }

  datatype Flow = Wrong | Ends | Goes(sure: set<Var>, possible: set<Var>)

  function Join(a: Flow, b: Flow): Flow {
    if a.Wrong? || b.Wrong? then Wrong
    else if a.Ends? then b
    else if b.Ends? then a
    else Goes(a.sure * b.sure, a.possible + b.possible)
  }

  /** Every name is declared once on each path, and has a value on every path to a read of it. */
  function Flows(p: Program, block: Block, k: Names): Flow
    decreases block, 1
  {
    match block
    case Done => Goes(k.sure, k.possible)
    case Then(line, rest) =>
      match line
      case ForwardDeclaration(x) =>
        if x in k.scope || x in k.possible then Wrong else Flows(p, rest, k.(scope := k.scope + {x}))
      case ConstMalloc(id, size) =>
        if CellsOf(id, size) !! k.scope + k.possible then
          Flows(p, rest, k.(scope := k.scope + CellsOf(id, size)))
        else Wrong
      case Assignment(target, _, a, b) =>
        var k' := Introduced(k, target);
        if k'.None? || !Readable(k'.value, a) || !Readable(k'.value, b) then Wrong
        else Flows(p, rest, Given(k'.value, Named(target)))
      case AssertEq(left, right) =>
        var k' := Introduced(k, left);
        var k'' := if k'.None? then None else Introduced(k'.value, right);
        if k''.None? || !(Readable(k''.value, left) || Readable(k''.value, right)) then Wrong
        else Flows(p, rest, Given(k''.value, Named(left) + Named(right)))
      case IfNotZero(condition, a, b) =>
        if !Readable(k, condition) then Wrong else Resumed(p, block, k, Join(Flows(p, a, k), Flows(p, b, k)))
      case Match(value, arms, _) =>
        if !Readable(k, value) then Wrong else Resumed(p, block, k, FlowsInArms(p, arms, k))
      case FunctionCall(callee, args, results) =>
        var k' := AllIntroduced(k, results);
        if callee !in p || callee == "main" || k'.None? || (exists o :: o in args && !Readable(k, o))
          || |args| != |p[callee].arguments| || |results| != p[callee].nReturned
        then Wrong
        else Flows(p, rest, Given(k'.value, set x | x in results))
      case FunctionRet(data) => if exists o :: o in data && !Readable(k, o) then Wrong else Ends
      case Abort => Ends
  }

  /** After the inner blocks the scope is what it was. */
  function Resumed(p: Program, block: Block, k: Names, inner: Flow): Flow
    requires block.Then?
    decreases block, 0
  {
    if inner.Goes? then Flows(p, block.rest, k.(sure := inner.sure, possible := inner.possible)) else inner
  }

  function FlowsInArms(p: Program, arms: Arms, k: Names): Flow
    decreases arms, 1
  {
    if arms.NoArms? then Ends else Join(Flows(p, arms.body, k), FlowsInArms(p, arms.others, k))
  }

  function AtStart(f: Function): Names { Names(Arguments(f), Arguments(f), Arguments(f)) }

  /** What is checked of a program before it runs. */
  predicate Checked(p: Program) {
    forall name {:trigger p[name]} :: name in p ==>
      Flows(p, p[name].body, AtStart(p[name])) != Wrong && AlwaysReturns(p[name].body)
          && ReturnsFit(p[name].body, p[name].nReturned)
  }

  // -- Soundness ---------------------------------------------------------------------------------------------------

  ghost predicate Describes(k: Names, l: Local) {
    l.scope == k.scope && k.sure <= l.env.Keys <= k.possible
  }

  /** The run has a meaning, and if it falls through the names have values as predicted. */
  ghost predicate Foreseen(flow: Flow, r: Outcome) {
    match r
    case Undefined => false
    case Falls(env) => flow.Goes? && flow.sure <= env.Keys <= flow.possible
    case _ => true
  }

  lemma IntroducedDescribes(k: Names, l: Local, o: Operand)
    requires Describes(k, l) && Introduced(k, o).Some?
    ensures Introduce(l, o, {}).Some? && Describes(Introduced(k, o).value, Introduce(l, o, {}).value)
  {
  }

  lemma {:induction false} AllIntroducedDescribe(k: Names, l: Local, xs: seq<Var>)
    requires Describes(k, l) && AllIntroduced(k, xs).Some?
    ensures IntroduceAll(l, xs, {}).Some? && Describes(AllIntroduced(k, xs).value, IntroduceAll(l, xs, {}).value)
    decreases |xs|
  {
    if xs != [] {
      hide Introduce, Introduced;
      IntroducedDescribes(k, l, Variable(xs[0]));
      AllIntroducedDescribe(Introduced(k, Variable(xs[0])).value, Introduce(l, Variable(xs[0]), {}).value, xs[1..]);
    }
  }

  lemma ReadableHasValue(k: Names, l: Local, o: Operand)
    requires Describes(k, l) && Readable(k, o)
    ensures Lookup(o, l.scope, l.env).Some?
  {
  }

  lemma {:induction false} ReadableHaveValues(k: Names, l: Local, os: seq<Operand>)
    requires Describes(k, l) && forall o :: o in os ==> Readable(k, o)
    ensures LookupAll(os, l.scope, l.env).Some?
  {
    if os != [] {
      hide Lookup, Readable;
      ReadableHasValue(k, l, os[0]);
      ReadableHaveValues(k, l, os[1..]);
    }
  }

  lemma UnifyGives(k: Names, l: Local, o: Operand, v: F)
    requires Describes(k, l)
    ensures var r := Unify(l, o, v);
      if r.Stops? then r.outcome == Panics else Describes(Given(k, Named(o)), r.l) && l.env.Keys <= r.l.env.Keys
  {
  }

  lemma {:induction false} UnifyAllGives(k: Names, l: Local, xs: seq<Var>, vs: seq<F>)
    requires Describes(k, l) && |xs| == |vs|
    ensures var r := UnifyAll(l, xs, vs);
      if r.Stops? then r.outcome == Panics else Describes(Given(k, set x | x in xs), r.l)
    decreases |xs|
  {
    if xs != [] {
      hide Unify;
      UnifyGives(k, l, Variable(xs[0]), vs[0]);
      var r := Unify(l, Variable(xs[0]), vs[0]);
      if r.Continues? {
        UnifyAllGives(Given(k, {xs[0]}), r.l, xs[1..], vs[1..]);
        assert (set x | x in xs) == {xs[0]} + (set x | x in xs[1..]);
      }
    }
  }

  lemma AssignGives(k: Names, l: Local, target: Operand, op: MathOp, a: Operand, b: Operand)
    requires Describes(k, l) && Introduced(k, target).Some?
    requires Readable(Introduced(k, target).value, a) && Readable(Introduced(k, target).value, b)
    ensures var r := Assign(l, target, op, a, b, {});
      if r.Stops? then r.outcome == Panics
      else Describes(Given(Introduced(k, target).value, Named(target)), r.l)
  {
    hide Introduce, Introduced, Holds, Apply, Unify;
    var k', l' := Introduced(k, target).value, Introduce(l, target, {});
    IntroducedDescribes(k, l, target);
    var va, vb, vt := Lookup(a, l'.value.scope, l'.value.env), Lookup(b, l'.value.scope, l'.value.env),
        Lookup(target, l'.value.scope, l'.value.env);
    if vt.None? && Apply(op, va.value, vb.value).Some? {
      UnifyGives(k', l'.value, target, Apply(op, va.value, vb.value).value);
    }
  }

  lemma EquateGives(k: Names, l: Local, left: Operand, right: Operand)
    requires Describes(k, l) && Introduced(k, left).Some? && Introduced(Introduced(k, left).value, right).Some?
    requires var k' := Introduced(Introduced(k, left).value, right).value; Readable(k', left) || Readable(k', right)
    ensures var r := Equate(l, left, right, {});
      if r.Stops? then r.outcome == Panics
      else Describes(Given(Introduced(Introduced(k, left).value, right).value, Named(left) + Named(right)), r.l)
  {
    hide Introduce, Introduced, Unify;
    var k1, l1 := Introduced(k, left).value, Introduce(l, left, {});
    IntroducedDescribes(k, l, left);
    IntroducedDescribes(k1, l1.value, right);
    var k', l' := Introduced(k1, right).value, Introduce(l1.value, right, {}).value;
    var va, vb := Lookup(left, l'.scope, l'.env), Lookup(right, l'.scope, l'.env);
    if va.Some? {
      UnifyGives(k', l', right, va.value);
      AlreadyGiven(k', l', left, right, Unify(l', right, va.value));
    } else if vb.Some? {
      UnifyGives(k', l', left, vb.value);
      AlreadyGiven(k', l', right, left, Unify(l', left, vb.value));
    }
  }

  lemma AlreadyGiven(k: Names, l: Local, known: Operand, other: Operand, r: Progress)
    requires Describes(k, l) && Lookup(known, l.scope, l.env).Some?
    requires r.Continues? ==> Describes(Given(k, Named(other)), r.l) && l.env.Keys <= r.l.env.Keys
    ensures r.Continues? ==> Describes(Given(k, Named(known) + Named(other)), r.l)
  {
  }

  lemma JoinedFlow(a: Flow, b: Flow, r: Outcome)
    requires !Join(a, b).Wrong? && (Foreseen(a, r) || Foreseen(b, r))
    ensures Foreseen(Join(a, b), r)
  {
  }

  /** A program that passes the checks has a meaning, whatever it starts from, at every match value inside the arms. */
  lemma {:induction false} CheckedIsDefined(p: Program, block: Block, k: Names, l: Local, fuel: nat)
    requires Checked(p) && Describes(k, l) && !Flows(p, block, k).Wrong?
    ensures Foreseen(Flows(p, block, k), Execute(p, false, {}, block, l, fuel))
    decreases fuel, block, 2
  {
    hide Checked, Describes, Foreseen, Introduced, Readable, Assign, Equate, Lookup, Given, Join;
    match block
    case Done => EndForeseen(k, l);
    case Then(line, rest) =>
      match line
      case ForwardDeclaration(x) =>
        NewInScope(k, l, {x});
        CheckedIsDefined(p, rest, k.(scope := k.scope + {x}), l.(scope := l.scope + {x}), fuel);
      case ConstMalloc(id, size) =>
        NewInScope(k, l, CellsOf(id, size));
        CheckedIsDefined(p, rest, k.(scope := k.scope + CellsOf(id, size)), l.(scope := l.scope + CellsOf(id, size)),
            fuel);
      case Assignment(target, op, a, b) =>
        AssignGives(k, l, target, op, a, b);
        var r := Assign(l, target, op, a, b, {});
        if r.Continues? {
          CheckedIsDefined(p, rest, Given(Introduced(k, target).value, Named(target)), r.l, fuel);
        } else { PanicForeseen(Flows(p, block, k)); }
      case AssertEq(left, right) =>
        EquateGives(k, l, left, right);
        var r := Equate(l, left, right, {});
        if r.Continues? {
          CheckedIsDefined(p, rest,
              Given(Introduced(Introduced(k, left).value, right).value, Named(left) + Named(right)), r.l, fuel);
        } else { PanicForeseen(Flows(p, block, k)); }
      case IfNotZero(condition, a, b) =>
        ReadableHasValue(k, l, condition);
        JoinedParts(Flows(p, a, k), Flows(p, b, k));
        var branch := if Lookup(condition, l.scope, l.env).value != 0 then a else b;
        CheckedIsDefined(p, branch, k, l, fuel);
        var r := Execute(p, false, {}, branch, l, fuel);
        if !Join(Flows(p, a, k), Flows(p, b, k)).Wrong? { JoinedFlow(Flows(p, a, k), Flows(p, b, k), r); }
        RestIsDefined(p, block, k, l, fuel, Join(Flows(p, a, k), Flows(p, b, k)), r);
      case Match(value, arms, offset) =>
        ReadableHasValue(k, l, value);
        var v := Lookup(value, l.scope, l.env).value;
        if v < offset {
          OtherForeseen(Flows(p, block, k), OutsideArms);
        } else {
          ArmIsDefined(p, arms, k, l, v - offset, fuel);
          RestIsDefined(p, block, k, l, fuel, FlowsInArms(p, arms, k),
              ExecuteArm(p, false, {}, arms, v - offset, l, fuel));
        }
      case FunctionCall(callee, args, results) => CallIsDefined(p, block, k, l, fuel);
      case FunctionRet(data) =>
        ReadableHaveValues(k, l, data);
        OtherForeseen(Flows(p, block, k), Execute(p, false, {}, block, l, fuel));
      case Abort => PanicForeseen(Flows(p, block, k));
  }

  lemma EndForeseen(k: Names, l: Local)
    requires Describes(k, l)
    ensures Foreseen(Goes(k.sure, k.possible), Falls(l.env))
  {
  }

  lemma PanicForeseen(flow: Flow) ensures Foreseen(flow, Panics) {}

  lemma OtherForeseen(flow: Flow, r: Outcome)
    requires !r.Undefined? && !r.Falls?
    ensures Foreseen(flow, r)
  {
  }

  lemma JoinedParts(a: Flow, b: Flow)
    ensures a.Wrong? || b.Wrong? ==> Join(a, b).Wrong?
  {
  }

  lemma NewInScope(k: Names, l: Local, xs: set<Var>)
    requires Describes(k, l)
    ensures l.scope == k.scope && l.env.Keys <= k.possible
    ensures Describes(k.(scope := k.scope + xs), l.(scope := l.scope + xs))
  {
  }

  /** The inner outcome is the outcome, or the rest goes on from it. */
  lemma RestIsDefined(p: Program, block: Block, k: Names, l: Local, fuel: nat, inner: Flow, r: Outcome)
    requires Checked(p) && Describes(k, l) && block.Then? && !Resumed(p, block, k, inner).Wrong? && Foreseen(inner, r)
    ensures Foreseen(Resumed(p, block, k, inner),
        if r.Falls? then Execute(p, false, {}, block.rest, l.(env := r.env), fuel) else r)
    decreases fuel, block, 0
  {
    hide Checked, Execute, Flows;
    if r.Falls? {
      CheckedIsDefined(p, block.rest, k.(sure := inner.sure, possible := inner.possible), l.(env := r.env), fuel);
    }
  }

  lemma {:induction false} ArmIsDefined(p: Program, arms: Arms, k: Names, l: Local, index: nat, fuel: nat)
    requires Checked(p) && Describes(k, l) && !FlowsInArms(p, arms, k).Wrong?
    ensures Foreseen(FlowsInArms(p, arms, k), ExecuteArm(p, false, {}, arms, index, l, fuel))
    decreases fuel, arms, 2
  {
    hide Checked, Describes, Foreseen, Join, Flows, Execute;
    if arms.NoArms? {
      OtherForeseen(FlowsInArms(p, arms, k), OutsideArms);
    } else {
      var body, others := Flows(p, arms.body, k), FlowsInArms(p, arms.others, k);
      JoinedParts(body, others);
      if index == 0 {
        CheckedIsDefined(p, arms.body, k, l, fuel);
      } else {
        ArmIsDefined(p, arms.others, k, l, index - 1, fuel);
      }
      JoinedFlow(body, others, ExecuteArm(p, false, {}, arms, index, l, fuel));
    }
  }

  lemma StartDescribes(f: Function, vs: seq<F>)
    requires |vs| == |f.arguments|
    ensures Describes(AtStart(f), Local(Arguments(f), Bindings(f.arguments, vs)))
  {
    BoundNames(f.arguments, vs);
  }

  lemma {:induction false} BoundNames(xs: seq<Var>, vs: seq<F>)
    requires |vs| == |xs|
    ensures Bindings(xs, vs).Keys == set x | x in xs
  {
    if xs != [] {
      var n := |xs| - 1;
      BoundNames(xs[..n], vs[..n]);
      assert (set x | x in xs) == (set x | x in xs[..n]) + {xs[n]};
    }
  }

  /** What the check says of a function that is called. */
  lemma CalleeIsDefined(p: Program, name: string, vs: seq<F>, fuel: nat)
    requires Checked(p) && name in p && |vs| == |p[name].arguments|
    ensures var r := Execute(p, false, {}, p[name].body, Local(Arguments(p[name]), Bindings(p[name].arguments, vs)),
        fuel);
            !r.Undefined? && !r.Falls? && (r.Returns? ==> |r.values| == p[name].nReturned)
    decreases fuel, p[name].body, 3
  {
    hide Execute, Flows, Describes, AlwaysReturns, ReturnsFit, Bindings;
    var f, l := p[name], Local(Arguments(p[name]), Bindings(p[name].arguments, vs));
    StartDescribes(f, vs);
    CheckedIsDefined(p, f.body, AtStart(f), l, fuel);
    NeverFalls(p, false, {}, f.body, l, fuel);
    ReturnsAsMany(p, false, {}, f.body, l, fuel, f.nReturned);
  }

  lemma CallIsDefined(p: Program, block: Block, k: Names, l: Local, fuel: nat)
    requires Checked(p) && Describes(k, l) && !Flows(p, block, k).Wrong? && block.Then? && block.line.FunctionCall?
    ensures Foreseen(Flows(p, block, k), Execute(p, false, {}, block, l, fuel))
    decreases fuel, block, 1
  {
    hide Checked, Describes, Foreseen, Introduced, Introduce, Readable, Given, AllIntroduced, IntroduceAll, UnifyAll,
        LookupAll, DeadStores, Bindings;
    var FunctionCall(callee, args, results) := block.line;
    var f := p[callee];
    ReadableHaveValues(k, l, args);
    AllIntroducedDescribe(k, l, results);
    var vs, l', k' := LookupAll(args, l.scope, l.env).value, IntroduceAll(l, results, {}).value,
        AllIntroduced(k, results).value;
    if fuel == 0 {
      OtherForeseen(Flows(p, block, k), OutOfFuel);
    } else {
      CalleeIsDefined(p, callee, vs, fuel - 1);
      var r := Execute(p, false, {}, f.body, Local(Arguments(f), Bindings(f.arguments, vs)), fuel - 1);
      if r.Returns? {
        UnifyAllGives(k', l', results, r.values);
        var u := UnifyAll(l', results, r.values);
        if u.Continues? {
          CheckedIsDefined(p, block.rest, Given(k', set x | x in results), u.l, fuel);
        } else { PanicForeseen(Flows(p, block, k)); }
      } else { OtherForeseen(Flows(p, block, k), r); }
    }
  }
}
