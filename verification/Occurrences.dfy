/** Which lines a block holds at any depth, and what the analyses of the compiler find out about them. */
module Occurrences {
  import opened SimpleLang

  /** The line is one of the block's, or of a branch or an arm in it. */
  predicate Occurs(line: Line, block: Block) {
    block.Then? && (line == block.line || OccursInside(line, block.line) || Occurs(line, block.rest))
  }

  predicate OccursInside(line: Line, outer: Line) {
    match outer
    case IfNotZero(_, a, b) => Occurs(line, a) || Occurs(line, b)
    case Match(_, arms, _) => OccursInArms(line, arms)
    case _ => false
  }

  predicate OccursInArms(line: Line, arms: Arms) {
    arms.Arm? && (Occurs(line, arms.body) || OccursInArms(line, arms.others))
  }

  /** The line declares x or assigns to it. */
  predicate Stores(line: Line, x: Var) {
    match line
    case ForwardDeclaration(y) => y == x
    case Assignment(target, _, _, _) => target == Variable(x)
    case _ => false
  }

  /** x is an operand of the line. */
  predicate Reads(line: Line, x: Var) {
    match line
    case Assignment(_, _, a, b) => Variable(x) in [a, b]
    case AssertEq(a, b) => Variable(x) in [a, b]
    case IfNotZero(condition, _, _) => condition == Variable(x)
    case Match(value, _, _) => value == Variable(x)
    case FunctionCall(_, args, _) => Variable(x) in args
    case FunctionRet(data) => Variable(x) in data
    case _ => false
  }

  lemma {:induction false} DeclaredMeans(block: Block, x: Var)
    ensures x in Declared(block) <==> exists line :: Occurs(line, block) && Stores(line, x)
  {
    if block.Then? {
      var Then(line, rest) := block;
      DeclaredMeans(rest, x);
      match line {
        case IfNotZero(_, a, b) =>
          DeclaredMeans(a, x);
          DeclaredMeans(b, x);
        case Match(_, arms, _) => DeclaredInArmsMeans(arms, x);
        case _ =>
      }
      if Stores(line, x) { assert Occurs(line, block); }
      forall l | Occurs(l, block) && Stores(l, x) ensures x in Declared(block) {
        if l != line && !Occurs(l, rest) { assert OccursInside(l, line); }
      }
    }
  }

  lemma {:induction false} DeclaredInArmsMeans(arms: Arms, x: Var)
    ensures x in DeclaredInArms(arms) <==> exists line :: OccursInArms(line, arms) && Stores(line, x)
  {
    if arms.Arm? {
      DeclaredMeans(arms.body, x);
      DeclaredInArmsMeans(arms.others, x);
    }
  }

  lemma {:induction false} UsedMeans(block: Block, x: Var)
    ensures x in Used(block) <==> exists line :: Occurs(line, block) && Reads(line, x)
  {
    if block.Then? {
      var Then(line, rest) := block;
      UsedMeans(rest, x);
      match line {
        case IfNotZero(_, a, b) =>
          UsedMeans(a, x);
          UsedMeans(b, x);
        case Match(_, arms, _) => UsedInArmsMeans(arms, x);
        case _ =>
      }
      if Reads(line, x) { assert Occurs(line, block); }
      forall l | Occurs(l, block) && Reads(l, x) ensures x in Used(block) {
        if l != line && !Occurs(l, rest) { assert OccursInside(l, line); }
      }
    }
  }

  lemma {:induction false} UsedInArmsMeans(arms: Arms, x: Var)
    ensures x in UsedInArms(arms) <==> exists line :: OccursInArms(line, arms) && Reads(line, x)
  {
    if arms.Arm? {
      UsedMeans(arms.body, x);
      UsedInArmsMeans(arms.others, x);
    }
  }

  /** The stores that are dropped: to names that are declared or assigned somewhere, at any depth, and read nowhere. */
  lemma DeadStoresExactly(body: Block, x: Var)
    ensures x in DeadStores(body) <==>
      && x.Name?
      && (exists line :: Occurs(line, body) && Stores(line, x))
      && (forall line :: Occurs(line, body) ==> !Reads(line, x))
  {
    DeclaredMeans(body, x);
    UsedMeans(body, x);
  }

  // -- One line before another -----------------------------------------------------------------------------------

  /** Two lines in different branches or arms are on no common path. */
  predicate Precedes(first: Line, second: Line, block: Block) {
    block.Then? &&
    (|| ((first == block.line || OccursInside(first, block.line)) && Occurs(second, block.rest))
     || PrecedesInside(first, second, block.line)
     || Precedes(first, second, block.rest))
  }

  predicate PrecedesInside(first: Line, second: Line, outer: Line) {
    match outer
    case IfNotZero(_, a, b) => Precedes(first, second, a) || Precedes(first, second, b)
    case Match(_, arms, _) => PrecedesInArms(first, second, arms)
    case _ => false
  }

  predicate PrecedesInArms(first: Line, second: Line, arms: Arms) {
    arms.Arm? && (Precedes(first, second, arms.body) || PrecedesInArms(first, second, arms.others))
  }

  /** The line gives x a value other than by reading it. */
  predicate Gives(line: Line, x: Var) {
    match line
    case Assignment(target, _, _, _) => target == Variable(x)
    case FunctionCall(_, _, results) => x in results
    case _ => false
  }
}
