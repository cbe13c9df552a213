/** How many memory cells a run takes for the frames of the functions it calls. */
module FrameSpace {
  import opened SimpleLang
  import opened CompilerInvariants

  /** The sizes of all frames requested while the lines run without their dead stores; frames are never given back. */
  function Space(p: Program, sizes: map<string, nat>, dead: set<Var>, block: Block, l: Local, fuel: nat): nat
    decreases fuel, block, 1
  {
    match block
    case Done => 0
    case Then(line, rest) =>
      match line
      case ForwardDeclaration(x) =>
        if x in dead then Space(p, sizes, dead, rest, l, fuel)
        else if x in l.scope || x in l.env then 0
        else Space(p, sizes, dead, rest, l.(scope := l.scope + {x}), fuel)
      case ConstMalloc(id, size) =>
        if CellsOf(id, size) !! l.scope + l.env.Keys then
            Space(p, sizes, dead, rest, l.(scope := l.scope + CellsOf(id, size)), fuel) else 0
      case Assignment(target, op, a, b) =>
        var r := Assign(l, target, op, a, b, dead);
        if r.Stops? then 0 else Space(p, sizes, dead, rest, r.l, fuel)
      case AssertEq(left, right) =>
        var r := Equate(l, left, right, dead);
        if r.Stops? then 0 else Space(p, sizes, dead, rest, r.l, fuel)
      case IfNotZero(condition, thenBranch, elseBranch) =>
        var c := Lookup(condition, l.scope, l.env);
        if c.None? then 0 else InnerThenRest(p, sizes, dead, block, if c.value != 0 then thenBranch else elseBranch, l,
            fuel)
      case Match(value, arms, offset) =>
        var v := Lookup(value, l.scope, l.env);
        if v.None? || v.value < offset || v.value - offset >= CountArms(arms) then 0
        else InnerThenRest(p, sizes, dead, block, ArmBody(arms, v.value - offset), l, fuel)
      case FunctionCall(callee, args, results) =>
        if callee !in p || callee == "main" || fuel == 0 then 0
        else
          var f := p[callee];
          var vs, l' := LookupAll(args, l.scope, l.env), IntroduceAll(l, results, dead);
          if vs.None? || |args| != |f.arguments| || |results| != f.nReturned || l'.None? then 0
          else
            var start := Local(Arguments(f), Bindings(f.arguments, vs.value));
            var r := Execute(p, true, DeadStores(f.body), f.body, start, fuel - 1);
            (if callee in sizes then sizes[callee] else 0)
                + Space(p, sizes, DeadStores(f.body), f.body, start, fuel - 1) +
            if r.Returns? && |r.values| == |results| then
              var u := UnifyAll(l'.value, results, r.values);
              if u.Stops? then 0 else Space(p, sizes, dead, rest, u.l, fuel)
            else 0
      case FunctionRet(_) => 0
      case Abort => 0
  }

  /** A branch or an arm, and the lines after it if it falls through. */
  function InnerThenRest(p: Program, sizes: map<string, nat>, dead: set<Var>, block: Block, inner: Block, l: Local,
      fuel: nat): nat
    requires block.Then? && (block decreases to inner)
    decreases fuel, block, 0
  {
    var r := Execute(p, true, dead, inner, l, fuel);
    Space(p, sizes, dead, inner, l, fuel) + if r.Falls? then Space(p, sizes, dead, block.rest, l.(env := r.env), fuel)
        else 0
  }
}
