/** How large the frame of a function is, said by what its lines need instead of by how the compiler moves. */
module FrameSize {
  import opened Wrappers
  import opened Ir
  import opened SimpleLang
  import opened CompilerSpec
  import opened CompilerInvariants
  import opened Frames

  /** Names only; the cells of an array are taken all at once. */
  function NamesAmong(xs: set<Var>): set<Var> { set x | x in xs && x.Name? }

  /**
   * The cells the lines take when these names are visible: one for every name that is declared or new, three for the
   * gadget of an if, two for the jump of a match, one for the frame pointer of a call and one for the last fp of main.
   * Branches and arms share cells, so the deepest one counts.
   */
  function Needs(c: Context, block: Block, visible: set<Var>): nat
    decreases block, 0
  {
    match block
    case Done => 0
    case Then(line, rest) =>
      match line
      case ForwardDeclaration(x) =>
        if x in c.dead || x in c.coalesced then Needs(c, rest, visible) else 1 + Needs(c, rest, visible + {x})
      case ConstMalloc(id, size) => size + Needs(c, rest, visible + CellsOf(id, size))
      case Assignment(target, _, _, _) =>
        if target.Variable? && target.name in c.dead then Needs(c, rest, visible)
        else NeedsNames(c, rest, visible, Named(target))
      case AssertEq(left, right) => NeedsNames(c, rest, visible, Named(left) + Named(right))
      case IfNotZero(_, a, b) => 3 + Max(Needs(c, a, visible), Needs(c, b, visible)) + Needs(c, rest, visible)
      case Match(_, arms, _) => NeedsOfArms(c, arms, visible) + 2 + Needs(c, rest, visible)
      case FunctionCall(_, _, results) => 1 + NeedsNames(c, rest, visible, AllOf(results))
      case FunctionRet(_) => (if c.isMain then 1 else 0) + Needs(c, rest, visible)
      case Abort => Needs(c, rest, visible)
  }

  function NeedsNames(c: Context, rest: Block, visible: set<Var>, xs: set<Var>): nat
    decreases rest, 1
  {
    |NamesAmong(xs) - visible| + Needs(c, rest, visible + NamesAmong(xs))
  }

  function NeedsOfArms(c: Context, arms: Arms, visible: set<Var>): nat
    decreases arms, 0
  {
    if arms.NoArms? then 0 else Max(Needs(c, arms.body, visible), NeedsOfArms(c, arms.others, visible))
  }

  function Visible(st: CState): set<Var> { Slots(st.scopes).Keys }

  // -- Names that are registered --------------------------------------------------------------------------------

  lemma OwnName(o: Operand)
    ensures NamesAmong(Named(o)) == if o.Variable? && o.name.Name? then {o.name} else {}
  {
  }

  lemma RegisterTakes(st: CState, o: Operand)
    ensures var r, names := RegisterIfNeeded(st, o), NamesAmong(Named(o));
            && r == st.(scopes := r.scopes, stackPos := r.stackPos)
            && Visible(r) == Visible(st) + names && r.stackPos == st.stackPos + |names - Visible(st)|
  {
    hide Slots, Offset, InScope, NamesAmong;
    OwnName(o);
    if o.Variable? && o.name.Name? {
      SlotsAreOffsets(st.scopes, o.name);
      if o.name in Visible(st) {
        assert {o.name} - Visible(st) == {};
      } else {
        assert {o.name} - Visible(st) == {o.name};
        SlotsOfDeclare(st, o.name);
      }
    } else { assert {} - Visible(st) == {}; }
  }

  /** What is new of two sets is what is new of the first, and then of the second. */
  lemma NewOfBoth(xs: set<Var>, ys: set<Var>, visible: set<Var>)
    ensures NamesAmong(xs + ys) == NamesAmong(xs) + NamesAmong(ys)
    ensures |NamesAmong(xs + ys) - visible|
        == |NamesAmong(xs) - visible| + |NamesAmong(ys) - (visible + NamesAmong(xs))|
  {
    var a, b := NamesAmong(xs) - visible, NamesAmong(ys) - (visible + NamesAmong(xs));
    assert NamesAmong(xs + ys) - visible == a + b && a !! b;
  }

  function AllOf(xs: seq<Var>): set<Var> { set x | x in xs }

  lemma AllOfSplit(xs: seq<Var>)
    requires xs != []
    ensures AllOf(xs) == {xs[0]} + AllOf(xs[1..])
  {
  }

  lemma {:induction false} RegisterAllTakes(st: CState, xs: seq<Var>)
    ensures var r, all := RegisterAll(st, xs), NamesAmong(AllOf(xs));
            && r == st.(scopes := r.scopes, stackPos := r.stackPos)
            && Visible(r) == Visible(st) + all && r.stackPos == st.stackPos + |all - Visible(st)|
    decreases |xs|
  {
    hide RegisterIfNeeded, Slots;
    if xs == [] {
      assert NamesAmong(AllOf(xs)) == {};
      assert {} - Visible(st) == {};
    } else {
      hide NamesAmong, AllOf;
      var st1 := RegisterIfNeeded(st, Variable(xs[0]));
      RegisterTakes(st, Variable(xs[0]));
      RegisterAllTakes(st1, xs[1..]);
      NewOfBoth({xs[0]}, AllOf(xs[1..]), Visible(st));
      AllOfSplit(xs);
    }
  }

  // -- Lines ------------------------------------------------------------------------------------------------------

  /** The compiler moves on by exactly the cells the lines need, and the largest offset is recorded. */
  lemma {:induction false} TakesWhatItNeeds(c: Context, block: Block, st: CState, next: Option<Label>)
    ensures var r := Compile(c, block, st, next).1;
            r.stackPos == st.stackPos + Needs(c, block, Visible(st)) && r.stackSize == Max(st.stackSize, r.stackPos)
    decreases block, 1
  {
    hide ValueOf, CompileArms, Gadget, MatchJump, CallSetup, CopyResults, Return, Equation, Equality, JumpTo,
        RegisterIfNeeded, RegisterAll, Slots, NamesAmong, AllOf, CellsOf, Allocate, AfterIf, EnterThen, EnterElse,
        AfterArms, PlaceCells, Named, Visible, EnterCall;
    match block
    case Done =>
    case Then(line, rest) =>
      match line
      case ForwardDeclaration(x) =>
        if x in c.dead || x in c.coalesced {
          TakesWhatItNeeds(c, rest, st, next);
        } else {
          DeclareTakes(st, x);
          TakesWhatItNeeds(c, rest, Declare(st, x), next);
        }
      case ConstMalloc(id, size) =>
        AllocateIsVisible(st, id, size);
        TakesWhatItNeeds(c, rest, Allocate(st, id, size), next);
      case Assignment(_, _, _, _) => StoreTakes(c, block, st, next);
      case AssertEq(_, _) => StoreTakes(c, block, st, next);
      case IfNotZero(_, _, _) => IfTakes(c, block, st, next);
      case Match(_, _, _) => MatchTakes(c, block, st, next);
      case FunctionCall(_, _, _) => StoreTakes(c, block, st, next);
      case FunctionRet(_) =>
        MovedSeesTheSame(st, st.stackPos + 1);
        TakesWhatItNeeds(c, rest, if c.isMain then st.(stackPos := st.stackPos + 1) else st, next);
      case Abort => TakesWhatItNeeds(c, rest, st, next);
  }

  lemma RegisterBothTakes(st: CState, left: Operand, right: Operand)
    ensures var r, names := RegisterIfNeeded(RegisterIfNeeded(st, left), right), NamesAmong(Named(left) + Named(right));
            && r.stackSize == st.stackSize && Visible(r) == Visible(st) + names
            && r.stackPos == st.stackPos + |names - Visible(st)|
  {
    hide RegisterIfNeeded, NamesAmong, Named, Slots;
    RegisterTakes(st, left);
    RegisterTakes(RegisterIfNeeded(st, left), right);
    NewOfBoth(Named(left), Named(right), Visible(st));
  }

  lemma CallTakes(st: CState, results: seq<Var>)
    ensures var r, names := RegisterAll(EnterCall(st), results), NamesAmong(AllOf(results));
            && r.stackSize == st.stackSize && Visible(r) == Visible(st) + names
            && r.stackPos == st.stackPos + 1 + |names - Visible(st)|
  {
    hide RegisterAll, NamesAmong, AllOf;
    RegisterAllTakes(EnterCall(st), results);
  }

  lemma MovedSeesTheSame(st: CState, pos: nat) ensures Visible(st.(stackPos := pos)) == Visible(st) {}

  lemma DeclareTakes(st: CState, x: Var)
    ensures Visible(Declare(st, x)) == Visible(st) + {x}
  {
    SlotsOfDeclare(st, x);
  }

  lemma AllocateIsVisible(st: CState, id: nat, size: nat)
    ensures var r := Allocate(st, id, size);
        Visible(r) == Visible(st) + CellsOf(id, size) && r.stackPos == st.stackPos + size && r.stackSize == st.stackSize
  {
    SlotsOfAllocate(st, id, size);
    assert PlaceCells(id, size, st.stackPos).Keys == CellsOf(id, size);
  }

  lemma StoreTakes(c: Context, block: Block, st: CState, next: Option<Label>)
    requires block.Then? && (block.line.Assignment? || block.line.AssertEq? || block.line.FunctionCall?)
    ensures var r := Compile(c, block, st, next).1;
            r.stackPos == st.stackPos + Needs(c, block, Visible(st)) && r.stackSize == Max(st.stackSize, r.stackPos)
    decreases block, 0
  {
    hide ValueOf, Equation, Equality, RegisterIfNeeded, RegisterAll, Slots, NamesAmong, AllOf, Named, Visible,
        CallSetup, CopyResults, EnterCall;
    match block.line
    case Assignment(target, _, _, _) =>
      if target.Variable? && target.name in c.dead {
        TakesWhatItNeeds(c, block.rest, st, next);
      } else {
        RegisterTakes(st, target);
        TakesWhatItNeeds(c, block.rest, RegisterIfNeeded(st, target), next);
      }
    case AssertEq(left, right) =>
      RegisterBothTakes(st, left, right);
      TakesWhatItNeeds(c, block.rest, RegisterIfNeeded(RegisterIfNeeded(st, left), right), next);
    case FunctionCall(_, _, results) =>
      CallTakes(st, results);
      TakesWhatItNeeds(c, block.rest, RegisterAll(EnterCall(st), results), next);
  }

  lemma IfTakes(c: Context, block: Block, st: CState, next: Option<Label>)
    requires block.Then? && block.line.IfNotZero?
    ensures var r := Compile(c, block, st, next).1;
            r.stackPos == st.stackPos + Needs(c, block, Visible(st)) && r.stackSize == Max(st.stackSize, r.stackPos)
    decreases block, 0
  {
    hide ValueOf, CompileArms, Gadget, Slots;
    var id, line := st.ifCounter, block.line;
    IfKeepsScopes(c, block, st, next);
    SlotsOfPush(st.scopes);
    TakesWhatItNeeds(c, line.thenBranch, EnterThen(st), Some(IfElseEnd(id)));
    var t := Compile(c, line.thenBranch, EnterThen(st), Some(IfElseEnd(id)));
    TakesWhatItNeeds(c, line.elseBranch, EnterElse(st, t.1), Some(IfElseEnd(id)));
    var e := Compile(c, line.elseBranch, EnterElse(st, t.1), Some(IfElseEnd(id)));
    TakesWhatItNeeds(c, block.rest, AfterIf(id, t.0, t.1, e.0, e.1), next);
  }

  lemma MatchTakes(c: Context, block: Block, st: CState, next: Option<Label>)
    requires block.Then? && block.line.Match?
    ensures var r := Compile(c, block, st, next).1;
            r.stackPos == st.stackPos + Needs(c, block, Visible(st)) && r.stackSize == Max(st.stackSize, r.stackPos)
    decreases block, 0
  {
    hide ValueOf, MatchJump, Slots;
    var arms, st0, end := block.line.arms, EnterMatch(st), MatchEnd(st.matchCounter);
    SlotsOfPush(st.scopes);
    ArmsTake(c, arms, st0, st0.stackPos, st0.stackPos, end);
    ArmsKeepScopes(c, arms, st0, st0.stackPos, st0.stackPos, end);
    var a := CompileArms(c, arms, st0, st0.stackPos, st0.stackPos, end);
    TakesWhatItNeeds(c, block.rest, AfterArms(a.0, a.1), next);
  }

  lemma {:induction false} ArmsTake(c: Context, arms: Arms, st: CState, saved: nat, deepest: nat, end: Label)
    requires saved <= deepest
    ensures var r, top := CompileArms(c, arms, st, saved, deepest, end).1, saved + NeedsOfArms(c, arms, Visible(st));
            r.stackPos == Max(deepest, top) && st.stackSize <= r.stackSize <= Max(st.stackSize, top)
    decreases arms, 1
  {
    hide Slots, Compile, Needs;
    if arms.Arm? {
      var inner := st.(stackPos := saved, scopes := Push(st.scopes));
      SlotsOfPush(st.scopes);
      CompileKeepsScopes(c, arms.body, inner, Some(end));
      TakesWhatItNeeds(c, arms.body, inner, Some(end));
      var r := Compile(c, arms.body, inner, Some(end)).1;
      ArmsTake(c, arms.others, r.(scopes := Pop(r.scopes)), saved, Max(deepest, r.stackPos), end);
    }
  }

  /** The recorded size of a frame: header, arguments, returned values, and what the lines need. */
  lemma FrameSizeIsNeed(f: SimpleLang.Function, st: CState)
    requires ReturnsFit(f.body, f.nReturned)
    ensures CompileFunction(f, st).1.stackSize
        == 2 + |f.arguments| + f.nReturned + Needs(ContextOf(f), f.body, Visible(EnterFunction(f, st)))
    ensures Visible(EnterFunction(f, st)) == Arguments(f) + CoalescedVars(CollectReturnCoalescings(f))
  {
    TakesWhatItNeeds(ContextOf(f), f.body, EnterFunction(f, st), None);
    ArgumentsArePlaced(f.arguments);
    HomesArePlaced(CollectReturnCoalescings(f), 2 + |f.arguments|, PlaceArguments(f.arguments));
  }

  lemma {:induction false} ArgumentsArePlaced(xs: seq<Var>)
    ensures PlaceArguments(xs).Keys == set x | x in xs
  {
    if xs != [] {
      var n := |xs| - 1;
      ArgumentsArePlaced(xs[..n]);
      assert (set x | x in xs) == (set x | x in xs[..n]) + {xs[n]};
    }
  }

  lemma {:induction false} HomesArePlaced(homes: seq<Option<Var>>, start: nat, vars: map<Var, nat>)
    ensures PlaceHomes(homes, start, vars).Keys == vars.Keys + CoalescedVars(homes)
  {
    if homes != [] {
      var n := |homes| - 1;
      HomesArePlaced(homes[..n], start, vars);
      assert homes == homes[..n] + [homes[n]];
    }
  }
}
