/** What compiling a block keeps: labels never clash, emitted code is never replaced, offsets only grow. */
module CompilerInvariants {
  import opened Wrappers
  import opened Ir
  import opened SimpleLang
  import opened CompilerSpec

  /** The label was made before the counters reached the values they have in st. */
  predicate Below(l: Label, st: CState) {
    match l
    case Function(_) => true
    case EndProgram => true
    case If(id) => id < st.ifCounter
    case Else(id) => id < st.ifCounter
    case IfElseEnd(id) => id < st.ifCounter
    case MatchEnd(id) => id < st.matchCounter
    case ReturnFromCall(id) => id < st.callCounter
  }

  predicate Since(l: Label, st: CState) {
    !l.Function? && !l.EndProgram? && !Below(l, st)
  }

  ghost predicate Tidy(st: CState) {
    forall l :: l in st.bytecode ==> Below(l, st)
  }

  predicate CountersGrow(a: CState, b: CState) {
    a.ifCounter <= b.ifCounter && a.matchCounter <= b.matchCounter && a.callCounter <= b.callCounter
  }

  /** b holds all of a's code unchanged, and every label it adds was fresh in a. */
  ghost predicate Extends(a: CState, b: CState) {
    && CountersGrow(a, b)
    && (forall l :: l in a.bytecode ==> l in b.bytecode && b.bytecode[l] == a.bytecode[l])
    && (forall l :: l in b.bytecode ==> l in a.bytecode || (Since(l, a) && Below(l, b)))
    && a.matchBlocks <= b.matchBlocks
  }

  lemma BelowGrows(l: Label, a: CState, b: CState)
    requires CountersGrow(a, b)
    ensures Below(l, a) ==> Below(l, b)
    ensures Since(l, b) ==> Since(l, a)
  {
  }

  lemma ExtendsTransitive(a: CState, b: CState, c: CState)
    requires Extends(a, b) && Extends(b, c)
    ensures Extends(a, c)
  {
    forall l | l in c.bytecode ensures l in a.bytecode || (Since(l, a) && Below(l, c)) {
      BelowGrows(l, a, b);
      BelowGrows(l, b, c);
    }
  }

  /** Changing scopes and offsets touches no code. */
  lemma ExtendsQuietly(a: CState, b: CState)
    requires CountersGrow(a, b) && a.bytecode == b.bytecode && a.matchBlocks == b.matchBlocks
    ensures Extends(a, b)
  {
  }

  /** A block stored under a label that was fresh in a, after everything else. */
  lemma ExtendsByBlock(a: CState, b: CState, l: Label, code: seq<Instr>)
    requires Tidy(a) && Extends(a, b) && Since(l, a) && Below(l, b)
    ensures Extends(a, b.(bytecode := b.bytecode[l := code]))
  {
    var c := b.(bytecode := b.bytecode[l := code]);
    assert Below(l, c);
    forall k | k in c.bytecode ensures k in a.bytecode || (Since(k, a) && Below(k, c)) {
      assert k in b.bytecode ==> Below(k, b) || k in a.bytecode;
      BelowGrows(k, b, c);
    }
  }

  lemma TidyExtends(a: CState, b: CState)
    requires Tidy(a) && Extends(a, b)
    ensures Tidy(b)
  {
    forall l | l in b.bytecode ensures Below(l, b) { BelowGrows(l, a, b); }
  }

  predicate SameOuter(a: Scopes, b: Scopes) {
    a.Nested? == b.Nested? && (a.Nested? ==> a.outer == b.outer)
  }

  lemma RegisterAllQuiet(st: CState, xs: seq<Var>)
    ensures var r := RegisterAll(st, xs);
            r == st.(scopes := r.scopes, stackPos := r.stackPos) && st.stackPos <= r.stackPos
                && SameOuter(st.scopes, r.scopes)
    decreases |xs|
  {
    if xs != [] {
      RegisterAllQuiet(RegisterIfNeeded(st, Variable(xs[0])), xs[1..]);
    }
  }

  // -- Scopes and offsets ----------------------------------------------------------

  /** A block restores the scopes around it, never moves the offset back, and records how far it went. */
  lemma {:induction false} CompileKeepsScopes(c: Context, block: Block, st: CState, next: Option<Label>)
    ensures var r := Compile(c, block, st, next).1;
            SameOuter(st.scopes, r.scopes) && st.stackPos <= r.stackPos <= r.stackSize
    decreases block, 1
  {
    hide ValueOf, CompileArms, AfterIf, EnterThen, EnterElse, AfterArms, Gadget, MatchJump, CallSetup, CopyResults,
        Return, Equation, Equality, JumpTo;
    match block
    case Done =>
    case Then(line, rest) =>
      match line
      case ForwardDeclaration(x) =>
        CompileKeepsScopes(c, rest, if x in c.dead || x in c.coalesced then st else Declare(st, x), next);
      case ConstMalloc(id, size) => CompileKeepsScopes(c, rest, Allocate(st, id, size), next);
      case Assignment(target, op, a, b) =>
        if target.Variable? && target.name in c.dead {
          CompileKeepsScopes(c, rest, st, next);
        } else {
          CompileKeepsScopes(c, rest, RegisterIfNeeded(st, target), next);
        }
      case AssertEq(left, right) =>
        CompileKeepsScopes(c, rest, RegisterIfNeeded(RegisterIfNeeded(st, left), right), next);
      case IfNotZero(_, _, _) => IfKeepsScopes(c, block, st, next);
      case Match(_, _, _) => MatchKeepsScopes(c, block, st, next);
      case FunctionCall(_, _, results) =>
        RegisterAllQuiet(EnterCall(st), results);
        CompileKeepsScopes(c, rest, RegisterAll(EnterCall(st), results), next);
      case FunctionRet(data) =>
        CompileKeepsScopes(c, rest, if c.isMain then st.(stackPos := st.stackPos + 1) else st, next);
      case Abort => CompileKeepsScopes(c, rest, st, next);
  }

  /**
   * The cells of an array lie below the frame size that is
   * recorded, and all that is compiled after it starts beyond them.
   */
  lemma ArrayIsInFrame(c: Context, block: Block, st: CState, next: Option<Label>)
    requires block.Then? && block.line.ConstMalloc?
    ensures var ConstMalloc(id, size) := block.line;
            var r := Compile(c, block, st, next);
            r == Compile(c, block.rest, Allocate(st, id, size), next)
                && st.stackPos + size <= r.1.stackPos <= r.1.stackSize
  {
    CompileKeepsScopes(c, block.rest, Allocate(st, block.line.id, block.line.size), next);
  }

  lemma MatchKeepsScopes(c: Context, block: Block, st: CState, next: Option<Label>)
    requires block.Then? && block.line.Match?
    ensures var r := Compile(c, block, st, next).1;
            SameOuter(st.scopes, r.scopes) && st.stackPos <= r.stackPos <= r.stackSize
    decreases block, 0
  {
    hide MatchJump;
    var arms, st0, end := block.line.arms, EnterMatch(st), MatchEnd(st.matchCounter);
    ArmsKeepScopes(c, arms, st0, st0.stackPos, st0.stackPos, end);
    var a := CompileArms(c, arms, st0, st0.stackPos, st0.stackPos, end);
    CompileKeepsScopes(c, block.rest, AfterArms(a.0, a.1), next);
  }

  lemma IfKeepsScopes(c: Context, block: Block, st: CState, next: Option<Label>)
    requires block.Then? && block.line.IfNotZero?
    ensures var id := st.ifCounter;
            var t := Compile(c, block.line.thenBranch, EnterThen(st), Some(IfElseEnd(id)));
            var e := Compile(c, block.line.elseBranch, EnterElse(st, t.1), Some(IfElseEnd(id)));
            var a := AfterIf(id, t.0, t.1, e.0, e.1);
            var r := Compile(c, block.rest, a, next).1;
            && EnterElse(st, t.1).scopes == Push(st.scopes) && a.scopes == st.scopes
            && st.stackPos + 3 <= t.1.stackPos <= a.stackPos && st.stackPos + 3 <= e.1.stackPos <= a.stackPos
            && a.stackPos <= r.stackPos <= r.stackSize && SameOuter(st.scopes, r.scopes)
    decreases block, 0
  {
    var thenBranch, elseBranch, rest, id := block.line.thenBranch, block.line.elseBranch, block.rest, st.ifCounter;
    CompileKeepsScopes(c, thenBranch, EnterThen(st), Some(IfElseEnd(id)));
    var t := Compile(c, thenBranch, EnterThen(st), Some(IfElseEnd(id)));
    CompileKeepsScopes(c, elseBranch, EnterElse(st, t.1), Some(IfElseEnd(id)));
    var e := Compile(c, elseBranch, EnterElse(st, t.1), Some(IfElseEnd(id)));
    CompileKeepsScopes(c, rest, AfterIf(id, t.0, t.1, e.0, e.1), next);
  }

  lemma {:induction false} ArmsKeepScopes(c: Context, arms: Arms, st: CState, saved: nat, deepest: nat, end: Label)
    ensures var r := CompileArms(c, arms, st, saved, deepest, end);
            r.1.scopes == st.scopes && deepest <= r.1.stackPos && |r.0| == CountArms(arms)
    decreases arms, 1
  {
    if arms.Arm? {
      var inner := st.(stackPos := saved, scopes := Push(st.scopes));
      CompileKeepsScopes(c, arms.body, inner, Some(end));
      var r := Compile(c, arms.body, inner, Some(end));
      ArmsKeepScopes(c, arms.others, r.1.(scopes := Pop(r.1.scopes)), saved, Max(deepest, r.1.stackPos), end);
    }
  }

  // -- Code ------------------------------------------------------------------------

  /** b holds all the code of a. */
  ghost predicate Contains(a: CState, b: CState) {
    && (forall l :: l in a.bytecode ==> l in b.bytecode && b.bytecode[l] == a.bytecode[l])
    && a.matchBlocks <= b.matchBlocks
  }

  lemma ContainsTransitive(a: CState, b: CState, c: CState)
    requires Contains(a, b) && Contains(b, c)
    ensures Contains(a, c)
  {
  }

  /** The block after a construct, stored last under a label made before it, displaces nothing. */
  lemma LastBlock(st: CState, a: CState, r: CState, l: Label, code: seq<Instr>)
    requires Tidy(st) && Extends(st, a) && Extends(a, r)
    requires Since(l, st) && Below(l, a) && l !in a.bytecode
    ensures var done := r.(bytecode := r.bytecode[l := code]); Contains(r, done) && Extends(st, done)
  {
    assert l !in r.bytecode;
    ExtendsTransitive(st, a, r);
    BelowGrows(l, a, r);
    ExtendsByBlock(st, r, l, code);
  }

  lemma {:induction false} CompileExtends(c: Context, block: Block, st: CState, next: Option<Label>)
    requires Tidy(st)
    ensures Extends(st, Compile(c, block, st, next).1)
    decreases block, 1
  {
    hide Extends, Tidy, Equation, Equality, Return, Gadget, MatchJump, CallSetup, CopyResults;
    match block
    case Done => ExtendsQuietly(st, st.(stackSize := Max(st.stackSize, st.stackPos)));
    case Then(line, rest) =>
      match line
      case ForwardDeclaration(x) =>
          RestExtends(c, rest, st, if x in c.dead || x in c.coalesced then st else Declare(st, x), next);
      case ConstMalloc(id, size) => RestExtends(c, rest, st, Allocate(st, id, size), next);
      case Assignment(target, op, a, b) =>
          RestExtends(c, rest, st, if target.Variable?
          && target.name in c.dead then st else RegisterIfNeeded(st, target), next);
      case AssertEq(left, right) => RestExtends(c, rest, st, RegisterIfNeeded(RegisterIfNeeded(st, left), right), next);
      case IfNotZero(_, _, _) => IfExtends(c, block, st, next);
      case Match(_, _, _) => MatchExtends(c, block, st, next);
      case FunctionCall(_, _, _) => CallExtends(c, block, st, next);
      case FunctionRet(data) =>
          RestExtends(c, rest, st, if c.isMain then st.(stackPos := st.stackPos + 1) else st, next);
      case Abort => CompileExtends(c, rest, st, next);
  }

  /** A line that touches no code itself. */
  lemma RestExtends(c: Context, rest: Block, st: CState, st1: CState, next: Option<Label>)
    requires Tidy(st) && CountersGrow(st, st1) && st.bytecode == st1.bytecode && st.matchBlocks == st1.matchBlocks
    ensures Extends(st, Compile(c, rest, st1, next).1)
    decreases rest, 2
  {
    hide Extends, Tidy, Compile;
    ExtendsQuietly(st, st1);
    TidyExtends(st, st1);
    CompileExtends(c, rest, st1, next);
    ExtendsTransitive(st, st1, Compile(c, rest, st1, next).1);
  }

  /** The three blocks of a conditional end up under their own labels next to everything compiled in between. */
  lemma IfExtends(c: Context, block: Block, st: CState, next: Option<Label>)
    requires block.Then? && block.line.IfNotZero? && Tidy(st)
    ensures var id := st.ifCounter;
            var t := Compile(c, block.line.thenBranch, EnterThen(st), Some(IfElseEnd(id)));
            var e := Compile(c, block.line.elseBranch, EnterElse(st, t.1), Some(IfElseEnd(id)));
            var a := AfterIf(id, t.0, t.1, e.0, e.1);
            var r := Compile(c, block.rest, a, next);
            var done := Compile(c, block, st, next).1;
            && Tidy(EnterThen(st)) && Tidy(EnterElse(st, t.1)) && Tidy(a) && Extends(st, done)
            && Contains(t.1, done) && Contains(e.1, done) && Contains(r.1, done)
            && If(id) in done.bytecode && done.bytecode[If(id)] == t.0
            && Else(id) in done.bytecode && done.bytecode[Else(id)] == e.0
            && IfElseEnd(id) in done.bytecode && done.bytecode[IfElseEnd(id)] == r.0
    decreases block, 0
  {
    hide Extends, Tidy, Contains, Gadget;
    var thenBranch, elseBranch, rest, id := block.line.thenBranch, block.line.elseBranch, block.rest, st.ifCounter;
    var st0 := EnterThen(st);
    ExtendsQuietly(st, st0);
    TidyExtends(st, st0);
    CompileExtends(c, thenBranch, st0, Some(IfElseEnd(id)));
    var t := Compile(c, thenBranch, st0, Some(IfElseEnd(id)));
    TidyExtends(st0, t.1);
    var st1 := EnterElse(st, t.1);
    ExtendsQuietly(t.1, st1);
    TidyExtends(t.1, st1);
    CompileExtends(c, elseBranch, st1, Some(IfElseEnd(id)));
    var e := Compile(c, elseBranch, st1, Some(IfElseEnd(id)));
    TidyExtends(st1, e.1);
    ExtendsTransitive(t.1, st1, e.1);
    ExtendsTransitive(st0, t.1, e.1);
    ExtendsContains(t.1, e.1);
    var a := AfterIf(id, t.0, t.1, e.0, e.1);
    AfterIfExtends(st, id, t.0, t.1, e.0, e.1);
    CompileExtends(c, rest, a, next);
    var r := Compile(c, rest, a, next);
    LastBlock(st, a, r.1, IfElseEnd(id), r.0);
    var done := r.1.(bytecode := r.1.bytecode[IfElseEnd(id) := r.0]);
    assert Compile(c, block, st, next).1 == done;
    ExtendsContains(a, r.1);
    ContainsTransitive(a, r.1, done);
    ContainsTransitive(t.1, a, done);
    ContainsTransitive(e.1, a, done);
    ContainsBlock(a, done, If(id));
    ContainsBlock(a, done, Else(id));
  }

  lemma ExtendsContains(a: CState, b: CState)
    requires Extends(a, b)
    ensures Contains(a, b)
  {
  }

  lemma ContainsBlock(a: CState, b: CState, l: Label)
    requires Contains(a, b) && l in a.bytecode
    ensures l in b.bytecode && b.bytecode[l] == a.bytecode[l]
  {
  }

  lemma AfterIfExtends(st: CState, id: nat, thenCode: seq<Instr>, t: CState, elseCode: seq<Instr>, e: CState)
    requires Tidy(st) && id == st.ifCounter && Extends(EnterThen(st), e) && Tidy(e)
    requires Contains(t, e)
    ensures var a := AfterIf(id, thenCode, t, elseCode, e);
            && Tidy(a) && Extends(st, a) && Contains(e, a) && Contains(t, a)
            && If(id) in a.bytecode && a.bytecode[If(id)] == thenCode && Else(id) in a.bytecode
            && a.bytecode[Else(id)] == elseCode
            && IfElseEnd(id) !in a.bytecode && Below(IfElseEnd(id), a)
  {
  }

  lemma {:induction false} ArmsExtend(c: Context, arms: Arms, st: CState, saved: nat, deepest: nat, end: Label)
    requires Tidy(st)
    ensures Extends(st, CompileArms(c, arms, st, saved, deepest, end).1)
    decreases arms, 1
  {
    if arms.Arm? {
      var inner := st.(stackPos := saved, scopes := Push(st.scopes));
      CompileExtends(c, arms.body, inner, Some(end));
      var r := Compile(c, arms.body, inner, Some(end)).1;
      ExtendsQuietly(st, inner);
      ExtendsTransitive(st, inner, r);
      var outer := r.(scopes := Pop(r.scopes));
      ExtendsQuietly(r, outer);
      ExtendsTransitive(st, r, outer);
      TidyExtends(st, outer);
      ArmsExtend(c, arms.others, outer, saved, Max(deepest, r.stackPos), end);
      ExtendsTransitive(st, outer, CompileArms(c, arms, st, saved, deepest, end).1);
    }
  }

  lemma MatchExtends(c: Context, block: Block, st: CState, next: Option<Label>)
    requires block.Then? && block.line.Match? && Tidy(st)
    ensures var id := st.matchCounter;
            var a := CompileArms(c, block.line.arms, EnterMatch(st), st.stackPos, st.stackPos, MatchEnd(id));
            var r := Compile(c, block.rest, AfterArms(a.0, a.1), next);
            var done := Compile(c, block, st, next).1;
            && Tidy(EnterMatch(st)) && Tidy(AfterArms(a.0, a.1)) && Extends(st, done)
            && Contains(AfterArms(a.0, a.1), r.1) && Contains(r.1, done)
            && MatchEnd(id) in done.bytecode && done.bytecode[MatchEnd(id)] == r.0
    decreases block, 0
  {
    var id, st0 := st.matchCounter, EnterMatch(st);
    ExtendsQuietly(st, st0);
    TidyExtends(st, st0);
    ArmsExtend(c, block.line.arms, st0, st0.stackPos, st0.stackPos, MatchEnd(id));
    var a := CompileArms(c, block.line.arms, st0, st0.stackPos, st0.stackPos, MatchEnd(id));
    TidyExtends(st0, a.1);
    var st1 := AfterArms(a.0, a.1);
    ExtendsTransitive(st, st0, a.1);
    assert Extends(a.1, st1);
    ExtendsTransitive(st, a.1, st1);
    TidyExtends(a.1, st1);
    CompileExtends(c, block.rest, st1, next);
    var r := Compile(c, block.rest, st1, next);
    assert MatchEnd(id) !in st1.bytecode;
    LastBlock(st, st1, r.1, MatchEnd(id), r.0);
    var done := r.1.(bytecode := r.1.bytecode[MatchEnd(id) := r.0]);
    ExtendsQuietly(done, done.(scopes := Pop(r.1.scopes)));
    ExtendsTransitive(st, done, done.(scopes := Pop(r.1.scopes)));
    assert Compile(c, block, st, next).1 == done.(scopes := Pop(r.1.scopes));
  }

  lemma CallExtends(c: Context, block: Block, st: CState, next: Option<Label>)
    requires block.Then? && block.line.FunctionCall? && Tidy(st)
    ensures var back := ReturnFromCall(st.callCounter);
            var st1 := RegisterAll(EnterCall(st), block.line.results);
            var r := Compile(c, block.rest, st1, next);
            var done := Compile(c, block, st, next).1;
            && Tidy(st1) && Extends(st, done) && Contains(r.1, done)
            && back in done.bytecode
            && done.bytecode[back] == CopyResults(block.line.results, 0, st.stackPos, |block.line.args|, st1.scopes)
                + r.0
    decreases block, 0
  {
    var back, st0 := ReturnFromCall(st.callCounter), EnterCall(st);
    RegisterAllQuiet(st0, block.line.results);
    var st1 := RegisterAll(st0, block.line.results);
    ExtendsQuietly(st, st1);
    TidyExtends(st, st1);
    CompileExtends(c, block.rest, st1, next);
    var r := Compile(c, block.rest, st1, next);
    LastBlock(st, st1, r.1, back, CopyResults(block.line.results, 0, st.stackPos, |block.line.args|, st1.scopes) + r.0);
  }

  // -- The arms of a match ------------------------------------------------------------

  function ArmBody(arms: Arms, k: nat): (r: Block)
    requires k < CountArms(arms)
    ensures arms decreases to r
  {
    if k == 0 then arms.body else ArmBody(arms.others, k - 1)
  }

  /** The state in which arm k is compiled. */
  function ArmStart(c: Context, arms: Arms, st: CState, saved: nat, k: nat, end: Label): CState
    requires k < CountArms(arms)
  {
    var inner := st.(stackPos := saved, scopes := Push(st.scopes));
    if k == 0 then inner
    else
      var r := Compile(c, arms.body, inner, Some(end)).1;
      ArmStart(c, arms.others, r.(scopes := Pop(r.scopes)), saved, k - 1, end)
  }

  /** Every arm starts in the scopes and at the offset of the match, and its code and blocks are kept. */
  lemma {:induction false} ArmPart(c: Context, arms: Arms, st: CState, saved: nat, deepest: nat, k: nat, end: Label)
    requires Tidy(st) && k < CountArms(arms)
    ensures var start := ArmStart(c, arms, st, saved, k, end);
            var r := Compile(c, ArmBody(arms, k), start, Some(end));
            var all := CompileArms(c, arms, st, saved, deepest, end);
            && Tidy(start) && start.scopes == Push(st.scopes) && start.stackPos == saved
            && k < |all.0| && all.0[k] == r.0 && Contains(r.1, all.1) && r.1.stackPos <= all.1.stackPos
    decreases arms
  {
    var inner := st.(stackPos := saved, scopes := Push(st.scopes));
    ExtendsQuietly(st, inner);
    TidyExtends(st, inner);
    CompileExtends(c, arms.body, inner, Some(end));
    CompileKeepsScopes(c, arms.body, inner, Some(end));
    var r := Compile(c, arms.body, inner, Some(end));
    var outer := r.1.(scopes := Pop(r.1.scopes));
    ExtendsQuietly(r.1, outer);
    TidyExtends(inner, r.1);
    TidyExtends(r.1, outer);
    if k == 0 {
      ArmsExtend(c, arms.others, outer, saved, Max(deepest, r.1.stackPos), end);
      ArmsKeepScopes(c, arms.others, outer, saved, Max(deepest, r.1.stackPos), end);
    } else {
      ArmPart(c, arms.others, outer, saved, Max(deepest, r.1.stackPos), k - 1, end);
    }
  }
}
