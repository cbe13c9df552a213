/** The condition on the program text that keeps all panics, said by the lines that occur. */
module HarmlessStores {
  import opened SimpleLang
  import opened Occurrences
  import opened DeadStoreElimination

  /** A division whose divisor may be zero. */
  predicate MayDivideByZero(line: Line) {
    line.Assignment? && line.op == Over && (line.arg1.Literal? ==> line.arg1.value == 0)
  }

  /** The line may lose a panic when x is dead: it may divide by zero, or x may have a value already. */
  ghost predicate Risky(line: Line, x: Var, block: Block, given: set<Var>) {
    || MayDivideByZero(line) || x in given
    || (exists first :: Precedes(first, line, block) && Gives(first, x))
  }

  ghost predicate RiskyInArms(line: Line, x: Var, arms: Arms, given: set<Var>) {
    || MayDivideByZero(line) || x in given
    || (exists first :: PrecedesInArms(first, line, arms) && Gives(first, x))
  }

  lemma {:induction false} SecondOccurs(first: Line, second: Line, block: Block)
    ensures Precedes(first, second, block) ==> Occurs(second, block)
  {
    if block.Then? {
      SecondOccurs(first, second, block.rest);
      match block.line {
        case IfNotZero(_, a, b) =>
          SecondOccurs(first, second, a);
          SecondOccurs(first, second, b);
        case Match(_, arms, _) => SecondOccursInArms(first, second, arms);
        case _ =>
      }
      assert PrecedesInside(first, second, block.line) ==> OccursInside(second, block.line);
    }
  }

  lemma {:induction false} SecondOccursInArms(first: Line, second: Line, arms: Arms)
    ensures PrecedesInArms(first, second, arms) ==> OccursInArms(second, arms)
  {
    if arms.Arm? {
      SecondOccurs(first, second, arms.body);
      SecondOccursInArms(first, second, arms.others);
    }
  }

  lemma {:induction false} AssignedMeans(block: Block, x: Var)
    ensures x in Assigned(block) <==> exists line :: Occurs(line, block) && Gives(line, x)
  {
    if block.Then? {
      AssignedByLineMeans(block.line, x);
      AssignedMeans(block.rest, x);
    }
  }

  lemma {:induction false} AssignedByLineMeans(outer: Line, x: Var)
    ensures x in AssignedByLine(outer) <==>
        exists line :: (line == outer || OccursInside(line, outer)) && Gives(line, x)
  {
    match outer {
      case IfNotZero(_, a, b) =>
        AssignedMeans(a, x);
        AssignedMeans(b, x);
      case Match(_, arms, _) => AssignedInArmsMeans(arms, x);
      case _ =>
    }
    assert Gives(outer, x) ==> x in AssignedByLine(outer);
  }

  lemma {:induction false} AssignedInArmsMeans(arms: Arms, x: Var)
    ensures x in AssignedInArms(arms) <==> exists line :: OccursInArms(line, arms) && Gives(line, x)
  {
    if arms.Arm? {
      AssignedMeans(arms.body, x);
      AssignedInArmsMeans(arms.others, x);
    }
  }

  /** No line risks a dead name. */
  ghost predicate NoRisk(block: Block, dead: set<Var>, given: set<Var>) {
    forall line, x {:trigger Gives(line, x)} ::
      Occurs(line, block) && Gives(line, x) && x in dead ==> !Risky(line, x, block, given)
  }

  ghost predicate NoRiskInArms(arms: Arms, dead: set<Var>, given: set<Var>) {
    forall line, x {:trigger Gives(line, x)} ::
      OccursInArms(line, arms) && Gives(line, x) && x in dead ==> !RiskyInArms(line, x, arms, given)
  }

  /** The first line and what is inside it. */
  ghost predicate NoRiskAt(outer: Line, dead: set<Var>, given: set<Var>) {
    && (forall x {:trigger Gives(outer, x)} :: Gives(outer, x) && x in dead ==>
        !MayDivideByZero(outer) && x !in given)
    && match outer
       case IfNotZero(_, a, b) => NoRisk(a, dead, given) && NoRisk(b, dead, given)
       case Match(_, arms, _) => NoRiskInArms(arms, dead, given)
       case _ => true
  }

  lemma NoRiskUnfolds(block: Block, dead: set<Var>, given: set<Var>)
    requires block.Then?
    ensures NoRisk(block, dead, given) <==>
      NoRiskAt(block.line, dead, given) && NoRisk(block.rest, dead, given + AssignedByLine(block.line))
  {
    var Then(outer, rest) := block;
    var given' := given + AssignedByLine(outer);
    if NoRisk(block, dead, given) {
      FirstHasNoRisk(block, dead, given);
      forall line, x | Occurs(line, rest) && Gives(line, x) && x in dead ensures !Risky(line, x, rest, given') {
        assert !Risky(line, x, block, given);
        AssignedByLineMeans(outer, x);
        forall first | first == outer || OccursInside(first, outer) ensures !Gives(first, x) {
          assert Precedes(first, line, block);
        }
        forall first | Precedes(first, line, rest) ensures !Gives(first, x) { assert Precedes(first, line, block); }
      }
    }
    if NoRiskAt(outer, dead, given) && NoRisk(rest, dead, given') { WholeHasNoRisk(block, dead, given); }
  }

  lemma FirstHasNoRisk(block: Block, dead: set<Var>, given: set<Var>)
    requires block.Then? && NoRisk(block, dead, given)
    ensures NoRiskAt(block.line, dead, given)
  {
    forall x | Gives(block.line, x) && x in dead ensures !MayDivideByZero(block.line) && x !in given {
      assert Occurs(block.line, block) && !Risky(block.line, x, block, given);
    }
    forall line, x | OccursInside(line, block.line) && Gives(line, x) && x in dead
      ensures !MayDivideByZero(line) && x !in given
      ensures forall first :: PrecedesInside(first, line, block.line) ==> !Gives(first, x)
    {
      assert Occurs(line, block) && !Risky(line, x, block, given);
      forall first | PrecedesInside(first, line, block.line) ensures !Gives(first, x) {
        assert Precedes(first, line, block);
      }
    }
    match block.line
    case IfNotZero(_, a, b) =>
      forall line, x | Occurs(line, a) && Gives(line, x) && x in dead ensures !Risky(line, x, a, given) {
        assert OccursInside(line, block.line);
        forall first | Precedes(first, line, a) ensures !Gives(first, x) {
          assert PrecedesInside(first, line, block.line);
        }
      }
      forall line, x | Occurs(line, b) && Gives(line, x) && x in dead ensures !Risky(line, x, b, given) {
        assert OccursInside(line, block.line);
        forall first | Precedes(first, line, b) ensures !Gives(first, x) {
          assert PrecedesInside(first, line, block.line);
        }
      }
    case Match(_, arms, _) =>
      forall line, x | OccursInArms(line, arms) && Gives(line, x) && x in dead
        ensures !RiskyInArms(line, x, arms, given)
      {
        assert OccursInside(line, block.line);
        forall first | PrecedesInArms(first, line, arms) ensures !Gives(first, x) {
          assert PrecedesInside(first, line, block.line);
        }
      }
    case _ =>
  }

  lemma WholeHasNoRisk(block: Block, dead: set<Var>, given: set<Var>)
    requires block.Then? && NoRiskAt(block.line, dead, given)
    requires NoRisk(block.rest, dead, given + AssignedByLine(block.line))
    ensures NoRisk(block, dead, given)
  {
    var Then(outer, rest) := block;
    forall line, x | Occurs(line, block) && Gives(line, x) && x in dead ensures !Risky(line, x, block, given) {
      if Occurs(line, rest) { assert !Risky(line, x, rest, given + AssignedByLine(outer)); }
      if OccursInside(line, outer) { InsideHasNoRisk(outer, line, x, dead, given); }
      forall first | Precedes(first, line, block) ensures !Gives(first, x) {
        if PrecedesInside(first, line, outer) {
          SecondOccurs(first, line, Then(outer, Done));
          assert PrecedesInside(first, line, outer) ==> Precedes(first, line, Then(outer, Done));
          InsideHasNoRisk(outer, line, x, dead, given);
        } else if Precedes(first, line, rest) {
          SecondOccurs(first, line, rest);
          assert !Risky(line, x, rest, given + AssignedByLine(outer));
        } else {
          assert Occurs(line, rest) && !Risky(line, x, rest, given + AssignedByLine(outer));
          AssignedByLineMeans(outer, x);
        }
      }
    }
  }

  lemma InsideHasNoRisk(outer: Line, line: Line, x: Var, dead: set<Var>, given: set<Var>)
    requires NoRiskAt(outer, dead, given) && Gives(line, x) && x in dead
    requires OccursInside(line, outer)
    ensures !MayDivideByZero(line) && x !in given
    ensures forall first :: PrecedesInside(first, line, outer) ==> !Gives(first, x)
  {
    match outer
    case IfNotZero(_, a, b) =>
      forall first | PrecedesInside(first, line, outer) ensures !Gives(first, x) {
        SecondOccurs(first, line, a);
        SecondOccurs(first, line, b);
        assert Precedes(first, line, a) ==> !Risky(line, x, a, given);
        assert Precedes(first, line, b) ==> !Risky(line, x, b, given);
      }
    case Match(_, arms, _) => assert !RiskyInArms(line, x, arms, given);
  }

  lemma NoRiskInArmsUnfolds(arms: Arms, dead: set<Var>, given: set<Var>)
    requires arms.Arm?
    ensures NoRiskInArms(arms, dead, given) <==>
      NoRisk(arms.body, dead, given) && NoRiskInArms(arms.others, dead, given)
  {
    if NoRiskInArms(arms, dead, given) {
      forall line, x | Occurs(line, arms.body) && Gives(line, x) && x in dead
        ensures !Risky(line, x, arms.body, given)
      {
        assert !RiskyInArms(line, x, arms, given);
        forall first | Precedes(first, line, arms.body) ensures !Gives(first, x) {
          assert PrecedesInArms(first, line, arms);
        }
      }
      forall line, x | OccursInArms(line, arms.others) && Gives(line, x) && x in dead
        ensures !RiskyInArms(line, x, arms.others, given)
      {
        assert !RiskyInArms(line, x, arms, given);
        forall first | PrecedesInArms(first, line, arms.others) ensures !Gives(first, x) {
          assert PrecedesInArms(first, line, arms);
        }
      }
    }
    if NoRisk(arms.body, dead, given) && NoRiskInArms(arms.others, dead, given) {
      forall line, x | OccursInArms(line, arms) && Gives(line, x) && x in dead
        ensures !RiskyInArms(line, x, arms, given)
      {
        forall first | PrecedesInArms(first, line, arms) ensures !Gives(first, x) {
          SecondOccurs(first, line, arms.body);
          SecondOccursInArms(first, line, arms.others);
          assert Precedes(first, line, arms.body) ==> !Risky(line, x, arms.body, given);
          assert PrecedesInArms(first, line, arms.others) ==> !RiskyInArms(line, x, arms.others, given);
        }
        assert Occurs(line, arms.body) ==> !Risky(line, x, arms.body, given);
        assert OccursInArms(line, arms.others) ==> !RiskyInArms(line, x, arms.others, given);
      }
    }
  }

  /**
   * For every block: it is harmless if and only if no line that gives a dead name a value may divide by zero, and none
   * does so when the name is given before or on the way there.
   */
  lemma {:induction false} HarmlessExactly(block: Block, dead: set<Var>, given: set<Var>)
    ensures Harmless(block, dead, given) <==> NoRisk(block, dead, given)
  {
    hide NoRisk, NoRiskInArms;
    if block.Then? {
      NoRiskUnfolds(block, dead, given);
      HarmlessExactly(block.rest, dead, given + AssignedByLine(block.line));
      match block.line
      case IfNotZero(_, a, b) =>
        HarmlessExactly(a, dead, given);
        HarmlessExactly(b, dead, given);
      case Match(_, arms, _) => HarmlessArmsExactly(arms, dead, given);
      case Assignment(target, _, _, _) => assert target.Variable? ==> Gives(block.line, target.name);
      case FunctionCall(_, _, results) => assert forall x :: x in results ==> Gives(block.line, x);
      case _ =>
    } else { NothingIsRisked(dead, given); }
  }

  lemma NothingIsRisked(dead: set<Var>, given: set<Var>)
    ensures NoRisk(Done, dead, given) && NoRiskInArms(NoArms, dead, given)
  {
  }

  lemma {:induction false} HarmlessArmsExactly(arms: Arms, dead: set<Var>, given: set<Var>)
    ensures HarmlessArms(arms, dead, given) <==> NoRiskInArms(arms, dead, given)
  {
    hide NoRisk, NoRiskInArms;
    if arms.Arm? {
      NoRiskInArmsUnfolds(arms, dead, given);
      HarmlessExactly(arms.body, dead, given);
      HarmlessArmsExactly(arms.others, dead, given);
    } else { NothingIsRisked(dead, given); }
  }
}
