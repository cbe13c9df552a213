/** Which variables are given a return slot as their home, said by the returns that occur in the body. */
module Coalescing {
  import opened Wrappers
  import opened SimpleLang
  import opened Occurrences
  import opened CompilerSpec
  import opened ReturnSlots

  /** What the returns of a block return, at any depth. */
  function Returned(block: Block): set<seq<Operand>> {
    match block
    case Done => {}
    case Then(line, rest) =>
      (match line
       case FunctionRet(data) => {data}
       case IfNotZero(_, a, b) => Returned(a) + Returned(b)
       case Match(_, arms, _) => ReturnedInArms(arms)
       case _ => {}) + Returned(rest)
  }

  function ReturnedInArms(arms: Arms): set<seq<Operand>> {
    if arms.NoArms? then {} else Returned(arms.body) + ReturnedInArms(arms.others)
  }

  lemma {:induction false} ReturnedMeans(block: Block, data: seq<Operand>)
    ensures data in Returned(block) <==> Occurs(FunctionRet(data), block)
  {
    if block.Then? {
      ReturnedMeans(block.rest, data);
      match block.line
      case IfNotZero(_, a, b) =>
        ReturnedMeans(a, data);
        ReturnedMeans(b, data);
      case Match(_, arms, _) => ReturnedInArmsMeans(arms, data);
      case _ =>
    }
  }

  lemma {:induction false} ReturnedInArmsMeans(arms: Arms, data: seq<Operand>)
    ensures data in ReturnedInArms(arms) <==> OccursInArms(FunctionRet(data), arms)
  {
    if arms.Arm? {
      ReturnedMeans(arms.body, data);
      ReturnedInArmsMeans(arms.others, data);
    }
  }

  // -- The checks on the returns -----------------------------------------------------------------------------

  lemma {:induction false} FitMeans(block: Block, n: nat)
    ensures ReturnsFit(block, n) <==> forall data :: data in Returned(block) ==> |data| == n
  {
    if block.Then? {
      FitMeans(block.rest, n);
      match block.line
      case IfNotZero(_, a, b) =>
        FitMeans(a, n);
        FitMeans(b, n);
      case Match(_, arms, _) => ArmsFitMeans(arms, n);
      case _ =>
    }
  }

  lemma {:induction false} ArmsFitMeans(arms: Arms, n: nat)
    ensures ArmsFit(arms, n) <==> forall data :: data in ReturnedInArms(arms) ==> |data| == n
  {
    if arms.Arm? {
      FitMeans(arms.body, n);
      ArmsFitMeans(arms.others, n);
    }
  }

  lemma {:induction false} InPlaceMeans(homes: seq<Option<Var>>, block: Block)
    ensures ReturnsInPlace(homes, block) <==> forall data :: data in Returned(block) ==> InPlace(homes, data)
  {
    if block.Then? {
      InPlaceMeans(homes, block.rest);
      match block.line
      case IfNotZero(_, a, b) =>
        InPlaceMeans(homes, a);
        InPlaceMeans(homes, b);
      case Match(_, arms, _) => ArmsInPlaceMeans(homes, arms);
      case _ =>
    }
  }

  lemma {:induction false} ArmsInPlaceMeans(homes: seq<Option<Var>>, arms: Arms)
    ensures ArmsInPlace(homes, arms) <==> forall data :: data in ReturnedInArms(arms) ==> InPlace(homes, data)
  {
    if arms.Arm? {
      InPlaceMeans(homes, arms.body);
      ArmsInPlaceMeans(homes, arms.others);
    }
  }

  /**
   * What the theorems ask of a body: the right number of values, and coalesced names in their own slots, everywhere.
   */
  lemma ReturnChecksExactly(homes: seq<Option<Var>>, body: Block, n: nat)
    ensures ReturnsFit(body, n) <==> forall data :: Occurs(FunctionRet(data), body) ==> |data| == n
    ensures ReturnsInPlace(homes, body) <==> forall data :: Occurs(FunctionRet(data), body) ==> InPlace(homes, data)
  {
    FitMeans(body, n);
    InPlaceMeans(homes, body);
    forall data ensures data in Returned(body) <==> Occurs(FunctionRet(data), body) { ReturnedMeans(body, data); }
  }

  // -- The walk over the returns -------------------------------------------------------------------------------

  /** Each of the returns has x in slot i. */
  predicate AllHave(found: set<seq<Operand>>, i: nat, x: Var) {
    forall data :: data in found ==> i < |data| && data[i] == Variable(x)
  }

  /** These returns have turned a slot from s to r. */
  predicate Turned(s: Slot, r: Slot, i: nat, x: Var, found: set<seq<Operand>>) {
    && (r == Only(x) <==> AllHave(found, i, x) && (s == Only(x) || (s.Unseen? && found != {})))
    && (r.Unseen? <==> s.Unseen? && found == {})
  }

  lemma TurnedTwice(s: Slot, m: Slot, r: Slot, i: nat, x: Var, first: set<seq<Operand>>, second: set<seq<Operand>>)
    requires Turned(s, m, i, x, first) && Turned(m, r, i, x, second)
    ensures Turned(s, r, i, x, first + second)
  {
    assert first == {} ==> AllHave(first, i, x);
    assert AllHave(first + second, i, x) <==> AllHave(first, i, x) && AllHave(second, i, x);
  }

  lemma ReturnTurns(slots: seq<Slot>, data: seq<Operand>, i: nat, x: Var)
    requires |data| == |slots| && i < |slots| && x.Name?
    ensures Turned(slots[i], SeeReturn(slots, data)[i], i, x, {data})
  {
    assert AllHave({data}, i, x) <==> data[i] == Variable(x);
  }

  lemma {:induction false} WalkTurns(block: Block, slots: seq<Slot>, i: nat, x: Var)
    requires ReturnsFit(block, |slots|) && i < |slots| && x.Name?
    ensures Turned(slots[i], WalkReturns(block, slots)[i], i, x, Returned(block))
    decreases block
  {
    if block.Then? {
      hide Turned, SeeReturn;
      var Then(line, rest) := block;
      var s, here := slots, {};
      match line {
        case FunctionRet(data) =>
          s, here := SeeReturn(slots, data), {data};
          ReturnTurns(slots, data, i, x);
        case IfNotZero(_, a, b) =>
          var m := WalkReturns(a, slots);
          s, here := WalkReturns(b, m), Returned(a) + Returned(b);
          WalkTurns(a, slots, i, x);
          WalkTurns(b, m, i, x);
          TurnedTwice(slots[i], m[i], s[i], i, x, Returned(a), Returned(b));
        case Match(_, arms, _) =>
          s, here := WalkArms(arms, slots), ReturnedInArms(arms);
          ArmsTurn(arms, slots, i, x);
        case _ => NothingTurns(slots[i], i, x);
      }
      WalkTurns(rest, s, i, x);
      TurnedTwice(slots[i], s[i], WalkReturns(rest, s)[i], i, x, here, Returned(rest));
      assert here + Returned(rest) == Returned(block);
    } else { NothingTurns(slots[i], i, x); }
  }

  lemma NothingTurns(s: Slot, i: nat, x: Var)
    ensures Turned(s, s, i, x, {})
  {
    assert AllHave({}, i, x);
  }

  lemma {:induction false} ArmsTurn(arms: Arms, slots: seq<Slot>, i: nat, x: Var)
    requires ArmsFit(arms, |slots|) && i < |slots| && x.Name?
    ensures Turned(slots[i], WalkArms(arms, slots)[i], i, x, ReturnedInArms(arms))
    decreases arms
  {
    hide Turned;
    if arms.Arm? {
      var m := WalkReturns(arms.body, slots);
      WalkTurns(arms.body, slots, i, x);
      ArmsTurn(arms.others, m, i, x);
      TurnedTwice(slots[i], m[i], WalkArms(arms, slots)[i], i, x, Returned(arms.body), ReturnedInArms(arms.others));
    } else { NothingTurns(slots[i], i, x); }
  }

  // -- The chosen variables --------------------------------------------------------------------------------------

  /** The first slot that has the variable keeps it, unless it is an argument. */
  lemma {:induction false} HomesExactly(slots: seq<Slot>, arguments: seq<Var>, i: nat, x: Var)
    requires i < |slots|
    ensures Homes(slots, arguments)[i] == Some(x) <==>
      slots[i] == Only(x) && x !in arguments && forall j {:trigger slots[j]} :: 0 <= j < i ==> slots[j] != Only(x)
    decreases |slots|
  {
    var last := |slots| - 1;
    var init := Homes(slots[..last], arguments);
    if i < last {
      HomesExactly(slots[..last], arguments, i, x);
    } else if slots[last] == Only(x) && x !in arguments {
      forall j | 0 <= j < last
        ensures init[j] == Some(x) <==> slots[j] == Only(x) && forall t {:trigger slots[t]} :: 0 <= t < j ==>
            slots[t] != Only(x)
      {
        HomesExactly(slots[..last], arguments, j, x);
      }
      FirstWithHome(slots[..last], init, x, last);
    }
  }

  lemma {:induction false} FirstWithHome(slots: seq<Slot>, homes: seq<Option<Var>>, x: Var, n: nat)
    requires |homes| == |slots| && n <= |slots| && forall j :: 0 <= j < |slots| ==>
      (homes[j] == Some(x) <==> slots[j] == Only(x) && forall t {:trigger slots[t]} :: 0 <= t < j ==>
          slots[t] != Only(x))
    ensures (exists j :: 0 <= j < n && slots[j] == Only(x)) ==> Some(x) in homes
  {
    if n > 0 {
      FirstWithHome(slots, homes, x, n - 1);
      if slots[n - 1] == Only(x) { assert homes[n - 1] == Some(x) || Some(x) in homes; }
    }
  }

  /** Every return of the body has x in slot i, and there is one. */
  ghost predicate AlwaysReturned(body: Block, i: nat, x: Var) {
    && x.Name? && (exists data :: Occurs(FunctionRet(data), body))
    && (forall data :: Occurs(FunctionRet(data), body) ==> i < |data| && data[i] == Variable(x))
  }

  /** A slot is coalesced exactly with a variable that all returns have there, no argument, and in no earlier slot. */
  lemma CoalescedExactly(f: SimpleLang.Function, i: nat, x: Var)
    requires ReturnsFit(f.body, f.nReturned) && i < f.nReturned
    ensures CollectReturnCoalescings(f)[i] == Some(x) <==>
      && AlwaysReturned(f.body, i, x) && x !in f.arguments
      && (forall j: nat :: j < i ==> !AlwaysReturned(f.body, j, x))
  {
    var start := seq(f.nReturned, i => Unseen);
    var slots := WalkReturns(f.body, start);
    HomesExactly(slots, f.arguments, i, x);
    forall j: nat | j < f.nReturned ensures slots[j] == Only(x) <==> AlwaysReturned(f.body, j, x) {
      SlotExactly(f, j, x);
    }
  }

  lemma SlotExactly(f: SimpleLang.Function, i: nat, x: Var)
    requires ReturnsFit(f.body, f.nReturned) && i < f.nReturned
    ensures WalkReturns(f.body, seq(f.nReturned, i => Unseen))[i] == Only(x) <==> AlwaysReturned(f.body, i, x)
  {
    var start := seq(f.nReturned, i => Unseen);
    forall data ensures data in Returned(f.body) <==> Occurs(FunctionRet(data), f.body) { ReturnedMeans(f.body, data); }
    if x.Name? {
      WalkTurns(f.body, start, i, x);
    } else {
      WalkAgrees(f.body, start);
    }
  }
}
