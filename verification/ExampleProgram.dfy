/** A program with every kind of line: it passes the checks, and its meaning is computed for every last literal. */
module ExampleProgram {
  import opened Wrappers
  import opened KoalaBear
  import opened SimpleLang
  import opened CompilerSpec
  import opened Scoping
  import opened Linking
  import opened ReturnSlots

  const CELL: Operand := Variable(Cell(0, 0))

  const Y: Operand := Variable(Name("y"))

  const RESULT: Operand := Variable(Name("r"))

  function Difference(): Function {
    Function("difference", [Name("a"), Name("b")], 1,
      Then(Assignment(Variable(Name("d")), Minus, Variable(Name("a")), Variable(Name("b"))),
      Then(FunctionRet([Variable(Name("d"))]), Done)))
  }

  function Ending(t: F): Block { Then(AssertEq(RESULT, Literal(t)), Then(FunctionRet([]), Done)) }

  function Calling(t: F): Block { Then(FunctionCall("difference", [Y, CELL], [Name("r")]), Ending(t)) }

  function Choosing(t: F): Block {
    Then(Match(CELL, Arm(Then(Abort, Done), Arm(Then(AssertEq(Y, Literal(9)), Done), NoArms)), 2), Calling(t))
  }

  function Branching(t: F): Block {
    Then(IfNotZero(CELL, Then(Assignment(Y, Times, Literal(3), CELL), Done), Then(Abort, Done)), Choosing(t))
  }

  function Starting(t: F): Block {
    Then(ConstMalloc(0, 1),
      Then(Assignment(CELL, Plus, Literal(1), Literal(2)), Then(ForwardDeclaration(Y.name), Branching(t))))
  }

  /** An array cell, a declared name set in a branch, a match, a call, and an assertion on the result. */
  function Example(t: F): Program {
    map["main" := Function("main", [], 0, Starting(t)), "difference" := Difference()]
  }

  function Before(): Names { Names({CELL.name, Y.name}, {CELL.name}, {CELL.name}) }

  function After(): Names { Names({CELL.name, Y.name}, {CELL.name, Y.name}, {CELL.name, Y.name}) }

  lemma EndingIsChecked(t: F)
    ensures AlwaysReturns(Calling(t)) && ReturnsFit(Calling(t), 0)
    ensures Flows(Example(t), Calling(t), After()) == Ends
  {
    var p, k := Example(t), Given(After().(scope := After().scope + {RESULT.name}), {RESULT.name});
    assert AlwaysReturns(Ending(t)) && ReturnsFit(Ending(t), 0);
    assert Flows(p, Ending(t), k) == Ends;
    assert AllIntroduced(After(), [Name("r")]) == Some(After().(scope := After().scope + {RESULT.name})) by {
      assert [Name("r")][1..] == [];
    }
    assert (set x | x in [Name("r")]) == {RESULT.name};
  }

  lemma MiddleIsChecked(t: F)
    ensures AlwaysReturns(Branching(t)) && ReturnsFit(Branching(t), 0)
    ensures Flows(Example(t), Branching(t), Before()) == Ends
  {
    hide Calling;
    var p := Example(t);
    EndingIsChecked(t);
    assert AlwaysReturns(Choosing(t)) && ReturnsFit(Choosing(t), 0) by { hide Flows; }
    var arms := Choosing(t).line.arms;
    assert Flows(p, arms.others.body, After()) == Goes(After().sure, After().possible);
    assert FlowsInArms(p, arms.others, After()) == Goes(After().sure, After().possible);
    assert Flows(p, Choosing(t), After()) == Ends;
    assert Flows(p, Branching(t).line.thenBranch, Before()) == Goes(After().sure, After().possible);
  }

  lemma ExampleIsChecked(t: F)
    ensures Checked(Example(t))
  {
    hide Branching;
    var p, c := Example(t), {CELL.name};
    MiddleIsChecked(t);
    var b3 := Then(ForwardDeclaration(Y.name), Branching(t));
    var b2 := Then(Assignment(CELL, Plus, Literal(1), Literal(2)), b3);
    assert AlwaysReturns(b3) && ReturnsFit(b3, 0) && AlwaysReturns(b2) && ReturnsFit(b2, 0);
    assert Names(c, c, c).(scope := c + {Y.name}) == Before();
    assert Flows(p, b3, Names(c, c, c)) == Ends;
    assert Given(Names(c, {}, {}), Named(CELL)) == Names(c, c, c);
    assert Flows(p, b2, Names(c, {}, {})) == Ends;
    assert CellsOf(0, 1) == c && {} + c == c;
    assert AtStart(p["main"]) == Names({}, {}, {});
    assert Flows(p, Starting(t), AtStart(p["main"])) == Ends;
    DifferenceIsChecked(p);
  }

  lemma DifferenceIsChecked(p: Program)
    ensures var f := Difference();
        Flows(p, f.body, AtStart(f)) == Ends && AlwaysReturns(f.body) && ReturnsFit(f.body, 1)
  {
  }

  lemma LookupOne(o: Operand, l: Local)
    requires Lookup(o, l.scope, l.env).Some?
    ensures LookupAll([o], l.scope, l.env) == Some([Lookup(o, l.scope, l.env).value])
  {
    var none: seq<F> := [];
    assert LookupAll([o][1..], l.scope, l.env) == Some(none);
    assert [Lookup(o, l.scope, l.env).value] + none == [Lookup(o, l.scope, l.env).value];
  }

  lemma LookupTwo(a: Operand, b: Operand, l: Local)
    requires Lookup(a, l.scope, l.env).Some? && Lookup(b, l.scope, l.env).Some?
    ensures LookupAll([a, b], l.scope, l.env)
        == Some([Lookup(a, l.scope, l.env).value, Lookup(b, l.scope, l.env).value])
  {
    LookupOne(b, l);
    assert [a, b][1..] == [b];
    var va, vb := Lookup(a, l.scope, l.env).value, Lookup(b, l.scope, l.env).value;
    assert [va] + [vb] == [va, vb];
  }

  lemma DifferenceRuns(p: Program, fuel: nat)
    ensures var f := Difference();
        Execute(p, false, {}, f.body, Local(Arguments(f), Bindings(f.arguments, [9, 3])), fuel) == Returns([6])
  {
    var f := Difference();
    var l := Local(Arguments(f), Bindings(f.arguments, [9, 3]));
    assert f.arguments[..1] == [Name("a")] && [9 as F, 3][..1] == [9];
    assert Bindings([Name("a")], [9]) == map[Name("a") := 9];
    assert l.env == map[Name("a") := 9, Name("b") := 3];
    assert FSub(9, 3) == 6;
    var l' := Local(l.scope + {Name("d")}, l.env[Name("d") := 6]);
    assert Assign(l, Variable(Name("d")), Minus, Variable(Name("a")), Variable(Name("b")), {}) == Continues(l');
    assert Execute(p, false, {}, f.body, l, fuel) == Execute(p, false, {}, f.body.rest, l', fuel);
    LookupOne(Variable(Name("d")), l');
  }

  function Known(): Local { Local({CELL.name, Y.name}, map[CELL.name := 3, Y.name := 9]) }

  function Declared(): Local { Local({CELL.name, Y.name}, map[CELL.name := 3]) }

  lemma FirstLinesRun(t: F, fuel: nat)
    ensures Execute(Example(t), false, {}, Starting(t), Local({}, map[]), fuel)
        == Execute(Example(t), false, {}, Branching(t), Declared(), fuel)
  {
    hide Branching;
    var p, c := Example(t), {CELL.name};
    assert CellsOf(0, 1) == c && {} + c == c;
    var b3 := Then(ForwardDeclaration(Y.name), Branching(t));
    var b2 := Then(Assignment(CELL, Plus, Literal(1), Literal(2)), b3);
    var l1, l2 := Local(c, map[]), Local(c, map[CELL.name := 3]);
    assert c + {Y.name} == Declared().scope;
    assert Execute(p, false, {}, Starting(t), Local({}, map[]), fuel) == Execute(p, false, {}, b2, l1, fuel);
    assert Assign(l1, CELL, Plus, Literal(1), Literal(2), {}) == Continues(l2);
    assert Execute(p, false, {}, b2, l1, fuel) == Execute(p, false, {}, b3, l2, fuel);
  }

  lemma BranchRuns(t: F, fuel: nat)
    ensures Execute(Example(t), false, {}, Branching(t), Declared(), fuel)
        == Execute(Example(t), false, {}, Choosing(t), Known(), fuel)
  {
    hide Choosing;
    assert Assign(Declared(), Y, Times, Literal(3), CELL, {}) == Continues(Known());
    assert Execute(Example(t), false, {}, Branching(t).line.thenBranch, Declared(), fuel) == Falls(Known().env);
  }

  lemma LastLinesRun(t: F, fuel: nat)
    ensures Execute(Example(t), false, {}, Choosing(t), Known(), fuel)
        == if fuel == 0 then OutOfFuel else if t == 6 then Returns([]) else Panics
  {
    var p, l := Example(t), Local(Known().scope + {RESULT.name}, Known().env[RESULT.name := 6]);
    var arms := Choosing(t).line.arms;
    assert Execute(p, false, {}, arms.others.body, Known(), fuel) == Falls(Known().env);
    assert ExecuteArm(p, false, {}, arms.others, 0, Known(), fuel) == Falls(Known().env);
    assert Execute(p, false, {}, Choosing(t), Known(), fuel) == Execute(p, false, {}, Calling(t), Known(), fuel);
    CallRuns(t, fuel, l);
    if fuel > 0 {
      assert Execute(p, false, {}, Ending(t).rest, l, fuel) == Returns([]);
      assert Execute(p, false, {}, Ending(t), l, fuel) == if t == 6 then Returns([]) else Panics;
    }
  }

  lemma CallRuns(t: F, fuel: nat, l: Local)
    requires l == Local(Known().scope + {RESULT.name}, Known().env[RESULT.name := 6])
    ensures Execute(Example(t), false, {}, Calling(t), Known(), fuel)
        == if fuel == 0 then OutOfFuel else Execute(Example(t), false, {}, Ending(t), l, fuel)
  {
    hide Ending, LookupAll, IntroduceAll, UnifyAll, Bindings;
    LookupTwo(Y, CELL, Known());
    ResultIsGiven(l);
    if fuel > 0 { DifferenceRuns(Example(t), fuel - 1); }
  }

  lemma ResultIsGiven(l: Local)
    requires l == Local(Known().scope + {RESULT.name}, Known().env[RESULT.name := 6])
    ensures IntroduceAll(Known(), [Name("r")], {}) == Some(Local(l.scope, Known().env))
    ensures UnifyAll(Local(l.scope, Known().env), [Name("r")], [6]) == Continues(l)
  {
    var k := Known();
    assert [Name("r")][1..] == [];
    assert k.env - {RESULT.name} == k.env;
  }

  /** The example passes the checks and means what it should: it returns for the right number and panics for others. */
  lemma ExampleRuns(t: F)
    ensures Checked(Example(t))
    ensures var p, start := Example(t), Local({}, map[]);
            && Execute(p, false, {}, p["main"].body, start, 0) == OutOfFuel
            && Execute(p, false, {}, p["main"].body, start, 1) == if t == 6 then Returns([]) else Panics
  {
    hide Execute, Starting, Branching, Choosing, Checked;
    ExampleIsChecked(t);
    forall fuel: nat | fuel <= 1
      ensures Execute(Example(t), false, {}, Starting(t), Local({}, map[]), fuel)
          == if fuel == 0 then OutOfFuel else if t == 6 then Returns([]) else Panics
    {
      FirstLinesRun(t, fuel);
      BranchRuns(t, fuel);
      LastLinesRun(t, fuel);
    }
  }

  /** The compiler accepts it: the assumptions of its theorems on the text hold of it. */
  lemma ExampleCompiles(t: F)
    ensures var p := Example(t); var fs := [p["difference"], p["main"]];
        && Compilable(fs) && ProgramOf(fs) == p
        && ReturnsInPlace(CollectReturnCoalescings(Difference()), Difference().body)
  {
    hide Branching;
    var p := Example(t);
    var fs := [p["difference"], p["main"]];
    assert fs[..1] == [p["difference"]] && fs[..1][..0] == [];
    assert ProgramOf(fs[..1][..0]) == map[];
    assert ProgramOf(fs[..1]) == map["difference" := p["difference"]];
    MiddleIsChecked(t);
    MiddleHasArms(t);
    ExampleIsChecked(t);
    StartingFits(t);
    assert HasArms(Difference().body);
    assert ReturnsFit(Difference().body, 1);
    var homes := CollectReturnCoalescings(Difference());
    assert |homes| == 1;
    assert Difference().body.rest.line == FunctionRet([Variable(Name("d"))]);
    assert InPlace(homes, [Variable(Name("d"))]) by {
      if Some(Name("d")) in homes { assert homes[0] == Some(Name("d")); }
    }
  }

  lemma StartingFits(t: F)
    requires HasArms(Branching(t)) && ReturnsFit(Branching(t), 0)
    ensures HasArms(Starting(t)) && ReturnsFit(Starting(t), 0)
  {
    hide Branching;
    var b3 := Then(ForwardDeclaration(Y.name), Branching(t));
    var b2 := Then(Assignment(CELL, Plus, Literal(1), Literal(2)), b3);
    assert HasArms(b3) && HasArms(b2) && ReturnsFit(b3, 0) && ReturnsFit(b2, 0);
  }

  lemma MiddleHasArms(t: F)
    ensures HasArms(Branching(t))
  {
    assert HasArms(Ending(t));
    assert HasArms(Calling(t));
    var arms := Choosing(t).line.arms;
    assert AllHaveArms(arms.others) && AllHaveArms(arms);
    assert HasArms(Choosing(t));
  }
}
