/** Arguments and coalesced return variables: where a function's frame has them when it starts. */
module ReturnSlots {
  import opened Wrappers
  import opened KoalaBear
  import opened Machine
  import opened SimpleLang
  import opened CompilerSpec
  import opened Frames
  import opened Simulation

  // -- What the walk over the returns finds ---------------------------------------------------

  /** The slot records the value that this return has there. */
  predicate Agrees(r: seq<Slot>, data: seq<Operand>)
    requires |data| == |r|
  {
    forall i {:trigger r[i]} :: 0 <= i < |data| ==> !r[i].Unseen? && (r[i].Only? ==> data[i] == Variable(r[i].x))
  }

  predicate AllAgree(r: seq<Slot>, block: Block)
    requires ReturnsFit(block, |r|)
  {
    match block
    case Done => true
    case Then(line, rest) =>
      AllAgree(r, rest) &&
      match line
      case FunctionRet(data) => Agrees(r, data)
      case IfNotZero(_, a, b) => AllAgree(r, a) && AllAgree(r, b)
      case Match(_, arms, _) => ArmsAgree(r, arms)
      case _ => true
  }

  predicate ArmsAgree(r: seq<Slot>, arms: Arms)
    requires ArmsFit(arms, |r|)
  {
    arms.NoArms? || (AllAgree(r, arms.body) && ArmsAgree(r, arms.others))
  }

  /** r comes after s in a walk: seen slots stay seen, and a variable is kept or given up. */
  predicate Later(s: seq<Slot>, r: seq<Slot>, used: set<Var>) {
    |s| == |r| &&
    forall i {:trigger r[i]} {:trigger s[i]} :: 0 <= i < |s| ==>
      (r[i].Unseen? ==> s[i].Unseen?)
          && (r[i].Only? ==> s[i] == r[i] || (s[i].Unseen? && r[i].x in used && r[i].x.Name?))
  }

  lemma LaterTransitive(s: seq<Slot>, t: seq<Slot>, r: seq<Slot>, used: set<Var>, used': set<Var>)
    requires Later(s, t, used) && Later(t, r, used')
    ensures Later(s, r, used + used')
  {
  }

  lemma {:induction false} AgreeLater(s: seq<Slot>, r: seq<Slot>, used: set<Var>, block: Block)
    requires Later(s, r, used) && ReturnsFit(block, |s|) && AllAgree(s, block)
    ensures AllAgree(r, block)
    decreases block
  {
    match block
    case Done =>
    case Then(line, rest) =>
      AgreeLater(s, r, used, rest);
      match line
      case IfNotZero(_, a, b) => AgreeLater(s, r, used, a); AgreeLater(s, r, used, b);
      case Match(_, arms, _) => ArmsAgreeLater(s, r, used, arms);
      case _ =>
  }

  lemma {:induction false} ArmsAgreeLater(s: seq<Slot>, r: seq<Slot>, used: set<Var>, arms: Arms)
    requires Later(s, r, used) && ArmsFit(arms, |s|) && ArmsAgree(s, arms)
    ensures ArmsAgree(r, arms)
    decreases arms
  {
    if arms.Arm? { AgreeLater(s, r, used, arms.body); ArmsAgreeLater(s, r, used, arms.others); }
  }

  lemma SeeAgrees(slots: seq<Slot>, data: seq<Operand>)
    requires |data| == |slots|
    ensures Later(slots, SeeReturn(slots, data), AllNamed(data)) && Agrees(SeeReturn(slots, data), data)
  {
  }

  /** A variable found for a slot is what every return has in that slot, and it is read by the block. */
  lemma {:induction false} WalkAgrees(block: Block, slots: seq<Slot>)
    requires ReturnsFit(block, |slots|)
    ensures var r := WalkReturns(block, slots); Later(slots, r, Used(block)) && AllAgree(r, block)
    decreases block
  {
    match block
    case Done =>
    case Then(line, rest) =>
      match line
      case FunctionRet(data) =>
        var s := SeeReturn(slots, data);
        SeeAgrees(slots, data);
        WalkAgrees(rest, s);
        LaterTransitive(slots, s, WalkReturns(rest, s), AllNamed(data), Used(rest));
      case IfNotZero(c, a, b) =>
        WalkAgrees(a, slots);
        var s := WalkReturns(a, slots);
        WalkAgrees(b, s);
        var t := WalkReturns(b, s);
        WalkAgrees(rest, t);
        var r := WalkReturns(rest, t);
        LaterTransitive(s, t, r, Used(b), Used(rest));
        LaterTransitive(slots, s, r, Used(a), Used(b) + Used(rest));
        AgreeLater(s, r, Used(b) + Used(rest), a);
        AgreeLater(t, r, Used(rest), b);
      case Match(_, arms, _) =>
        ArmsWalkAgrees(arms, slots);
        var s := WalkArms(arms, slots);
        WalkAgrees(rest, s);
        LaterTransitive(slots, s, WalkReturns(rest, s), UsedInArms(arms), Used(rest));
        ArmsAgreeLater(s, WalkReturns(rest, s), Used(rest), arms);
      case _ => WalkAgrees(rest, slots);
  }

  lemma {:induction false} ArmsWalkAgrees(arms: Arms, slots: seq<Slot>)
    requires ArmsFit(arms, |slots|)
    ensures var r := WalkArms(arms, slots); Later(slots, r, UsedInArms(arms)) && ArmsAgree(r, arms)
    decreases arms
  {
    if arms.Arm? {
      var s := WalkReturns(arms.body, slots);
      WalkAgrees(arms.body, slots);
      ArmsWalkAgrees(arms.others, s);
      LaterTransitive(slots, s, WalkArms(arms.others, s), Used(arms.body), UsedInArms(arms.others));
      AgreeLater(s, WalkArms(arms.others, s), UsedInArms(arms.others), arms.body);
    }
  }

  // -- Homes ------------------------------------------------------------------------------------

  /** A home belongs to one slot, is what the walk found there, and is not an argument. */
  lemma {:induction false} HomesAreDistinct(slots: seq<Slot>, arguments: seq<Var>, i: nat)
    requires i < |slots| && Homes(slots, arguments)[i].Some?
    ensures var h := Homes(slots, arguments);
            && slots[i] == Only(h[i].value) && h[i].value !in arguments
            && (forall j {:trigger h[j]} :: 0 <= j < |h| && h[j] == h[i] ==> j == i)
  {
    var init, last := slots[..|slots| - 1], |slots| - 1;
    if i < last { HomesAreDistinct(init, arguments, i); }
  }

  lemma {:induction false} PlacedArgument(xs: seq<Var>, vs: seq<F>, x: Var)
    requires |xs| == |vs|
    ensures x in PlaceArguments(xs) <==> x in xs
    ensures x in Bindings(xs, vs) <==> x in xs
    ensures x in xs ==>
      && 2 <= PlaceArguments(xs)[x] < 2 + |xs| && xs[PlaceArguments(xs)[x] - 2] == x
      && vs[PlaceArguments(xs)[x] - 2] == Bindings(xs, vs)[x]
  {
    if xs != [] {
      var n := |xs| - 1;
      assert xs == xs[..n] + [xs[n]];
      PlacedArgument(xs[..n], vs[..n], x);
    }
  }

  lemma {:induction false} PlacedHome(homes: seq<Option<Var>>, start: nat, vars: map<Var, nat>, x: Var)
    ensures var r := PlaceHomes(homes, start, vars);
            && (x in r <==> x in vars || Some(x) in homes)
            && (Some(x) in homes ==> start <= r[x] < start + |homes| && homes[r[x] - start] == Some(x))
            && (x in vars && Some(x) !in homes ==> r[x] == vars[x])
  {
    if homes != [] {
      var n := |homes| - 1;
      assert homes == homes[..n] + [homes[n]];
      PlacedHome(homes[..n], start, vars, x);
    }
  }

  lemma PlacedHomeAlone(homes: seq<Option<Var>>, start: nat, vars: map<Var, nat>, x: Var)
    requires Some(x) in homes
    ensures x in PlaceHomes(homes, start, map[]) && x in PlaceHomes(homes, start, vars)
        && PlaceHomes(homes, start, vars)[x] == PlaceHomes(homes, start, map[])[x]
  {
    if homes != [] {
      var n := |homes| - 1;
      assert homes == homes[..n] + [homes[n]];
      PlacedHome(homes[..n], start, map[], x);
      PlacedHome(homes[..n], start, vars, x);
      if homes[n] != Some(x) { PlacedHomeAlone(homes[..n], start, vars, x); }
    }
  }

  // -- The frame a function starts with -----------------------------------------------------------

  function HomeSlots(f: SimpleLang.Function): map<Var, nat>
    requires ReturnsFit(f.body, f.nReturned)
  {
    PlaceHomes(CollectReturnCoalescings(f), 2 + |f.arguments|, map[])
  }

  function FreeSlots(f: SimpleLang.Function): set<nat>
    requires ReturnsFit(f.body, f.nReturned)
  {
    var homes := CollectReturnCoalescings(f);
    set i | 0 <= i < |homes| && homes[i].None? :: 2 + |f.arguments| + i
  }

  function ActivationOf(f: SimpleLang.Function, size: nat): Activation
    requires ReturnsFit(f.body, f.nReturned)
  {
    Activation(ContextOf(f), HomeSlots(f), FreeSlots(f), size)
  }

  /** What is known of a home: read by the body, found by the walk, alone in its slot. */
  lemma HomeFacts(f: SimpleLang.Function, i: nat)
    requires ReturnsFit(f.body, f.nReturned) && i < f.nReturned && CollectReturnCoalescings(f)[i].Some?
    ensures var h := CollectReturnCoalescings(f); var r := WalkReturns(f.body, seq(f.nReturned, i => Unseen));
            && r[i] == Only(h[i].value) && h[i].value in Used(f.body) && h[i].value.Name? && h[i].value !in f.arguments
            && (forall j {:trigger h[j]} :: 0 <= j < |h| && h[j] == h[i] ==> j == i)
  {
    var none: seq<Slot> := seq(f.nReturned, i => Unseen);
    WalkAgrees(f.body, none);
    HomesAreDistinct(WalkReturns(f.body, none), f.arguments, i);
  }

  lemma HomeSlot(f: SimpleLang.Function, x: Var)
    requires ReturnsFit(f.body, f.nReturned)
    ensures x in HomeSlots(f) <==> x in ContextOf(f).coalesced
    ensures x in HomeSlots(f) ==>
      var i := HomeSlots(f)[x] - 2 - |f.arguments|;
      0 <= i < f.nReturned && CollectReturnCoalescings(f)[i] == Some(x) && HomeSlots(f)[x] !in FreeSlots(f)
  {
    PlacedHome(CollectReturnCoalescings(f), 2 + |f.arguments|, map[], x);
  }

  lemma CoalescedIsUsed(f: SimpleLang.Function)
    requires ReturnsFit(f.body, f.nReturned)
    ensures ContextOf(f).coalesced !! ContextOf(f).dead && forall x :: x in ContextOf(f).coalesced ==> x.Name?
  {
    forall x | x in ContextOf(f).coalesced ensures x in Used(f.body) && x.Name? {
      HomeSlot(f, x);
      HomeFacts(f, HomeSlots(f)[x] - 2 - |f.arguments|);
    }
  }

  /** Where a name of the starting frame is: an argument or a home, never both. */
  lemma StartSlot(f: SimpleLang.Function, st: CState, vs: seq<F>, x: Var)
    requires ReturnsFit(f.body, f.nReturned) && |vs| == |f.arguments|
    ensures var slots := Slots(EnterFunction(f, st).scopes);
            && (x in slots <==> x in f.arguments || x in HomeSlots(f))
            && (x in f.arguments ==>
                && x !in HomeSlots(f) && x in PlaceArguments(f.arguments)
                && slots[x] == PlaceArguments(f.arguments)[x])
            && (x in HomeSlots(f) ==> slots[x] == HomeSlots(f)[x])
            && (x in f.arguments <==> x in Bindings(f.arguments, vs))
  {
    var homes := CollectReturnCoalescings(f);
    PlacedArgument(f.arguments, vs, x);
    PlacedHome(homes, 2 + |f.arguments|, PlaceArguments(f.arguments), x);
    HomeSlot(f, x);
    if Some(x) in homes {
      PlacedHomeAlone(homes, 2 + |f.arguments|, PlaceArguments(f.arguments), x);
      HomeFacts(f, HomeSlots(f)[x] - 2 - |f.arguments|);
    }
    PlacedHome(homes, 2 + |f.arguments|, map[], x);
  }

  /** The offset identifies the name. */
  lemma StartSlotUnique(f: SimpleLang.Function, st: CState, vs: seq<F>, x: Var)
    requires ReturnsFit(f.body, f.nReturned) && |vs| == |f.arguments| && x in Slots(EnterFunction(f, st).scopes)
    ensures var o := Slots(EnterFunction(f, st).scopes)[x];
            && 2 <= o < 2 + |f.arguments| + f.nReturned && o !in FreeSlots(f)
            && (if o < 2 + |f.arguments| then f.arguments[o - 2] == x
                else CollectReturnCoalescings(f)[o - 2 - |f.arguments|] == Some(x))
  {
    StartSlot(f, st, vs, x);
    PlacedArgument(f.arguments, vs, x);
    HomeSlot(f, x);
  }

  lemma StartFits(f: SimpleLang.Function, st: CState, size: nat)
    requires ReturnsFit(f.body, f.nReturned)
    ensures Fits(ActivationOf(f, size), Slots(EnterFunction(f, st).scopes), EnterFunction(f, st).stackPos, Arguments(f))
  {
    hide PlaceHomes, PlaceArguments, HomeSlots, ContextOf, CollectReturnCoalescings, Slots, Homes, Bindings;
    var slots, vs := Slots(EnterFunction(f, st).scopes), seq(|f.arguments|, i => 0);
    forall x ensures x in slots <==> x in Arguments(f) + ContextOf(f).coalesced {
      StartSlot(f, st, vs, x);
      HomeSlot(f, x);
    }
    forall x | x in slots
      ensures 2 <= slots[x] < EnterFunction(f, st).stackPos && slots[x] !in FreeSlots(f)
      ensures x in HomeSlots(f) ==> slots[x] == HomeSlots(f)[x]
    {
      StartSlotUnique(f, st, vs, x);
      StartSlot(f, st, vs, x);
    }
    forall x, y | x in slots && y in slots && slots[x] == slots[y] ensures x == y {
      StartSlotUnique(f, st, vs, x);
      StartSlotUnique(f, st, vs, y);
    }
    forall x | x in HomeSlots(f) ensures x in slots { StartSlot(f, st, vs, x); }
    forall x ensures x in HomeSlots(f).Keys <==> x in ContextOf(f).coalesced { HomeSlot(f, x); }
    CoalescedIsUsed(f);
  }

  /** With the header and the arguments written and nothing above them, the frame holds the callee's first values. */
  lemma StartHolds(f: SimpleLang.Function, st: CState, size: nat, vs: seq<F>, fp: nat, ap: nat, mem: Memory)
    requires ReturnsFit(f.body, f.nReturned) && |vs| == |f.arguments|
    requires EnterFunction(f, st).stackPos <= size && fp < MEMORY_LIMIT && ap == fp + size < P
    requires if ContextOf(f).isMain then vs == [] && forall address :: address in mem ==> address < fp
             else forall address {:trigger address in mem} :: fp <= address ==>
                 (address in mem <==> address < fp + 2 + |vs|)
    requires forall i {:trigger vs[i]} :: 0 <= i < |vs| ==> fp + 2 + i in mem && mem[fp + 2 + i] == vs[i]
    ensures Holding(ActivationOf(f, size), Slots(EnterFunction(f, st).scopes), EnterFunction(f, st).stackPos,
        Bindings(f.arguments, vs), fp, ap, mem)
  {
    hide PlaceHomes, PlaceArguments, HomeSlots, CollectReturnCoalescings, Slots, Homes, Bindings;
    var a, slots, pos, env := ActivationOf(f, size), Slots(EnterFunction(f, st).scopes), EnterFunction(f, st).stackPos,
        Bindings(f.arguments, vs);
    forall x | x in slots
      ensures x in env ==> fp + slots[x] in mem && mem[fp + slots[x]] == env[x]
      ensures x !in env ==> fp + slots[x] !in mem
    {
      StartSlot(f, st, vs, x);
      StartSlotUnique(f, st, vs, x);
      PlacedArgument(f.arguments, vs, x);
      HomeSlot(f, x);
      if x in env { assert vs[slots[x] - 2] == env[x]; }
    }
  }

  // -- Which returns are safe ---------------------------------------------------------------------

  /** A coalesced variable is returned in the slot that is its home, and in no other. */
  predicate InPlace(homes: seq<Option<Var>>, data: seq<Operand>) {
    forall i {:trigger data[i]} :: 0 <= i < |data| && data[i].Variable? && Some(data[i].name) in homes ==>
        i < |homes| && homes[i] == Some(data[i].name)
  }

  predicate ReturnsInPlace(homes: seq<Option<Var>>, block: Block) {
    match block
    case Done => true
    case Then(line, rest) =>
      ReturnsInPlace(homes, rest) &&
      match line
      case FunctionRet(data) => InPlace(homes, data)
      case IfNotZero(_, a, b) => ReturnsInPlace(homes, a) && ReturnsInPlace(homes, b)
      case Match(_, arms, _) => ArmsInPlace(homes, arms)
      case _ => true
  }

  predicate ArmsInPlace(homes: seq<Option<Var>>, arms: Arms) {
    arms.NoArms? || (ReturnsInPlace(homes, arms.body) && ArmsInPlace(homes, arms.others))
  }

  lemma SafeReturn(f: SimpleLang.Function, data: seq<Operand>)
    requires ReturnsFit(f.body, f.nReturned) && |data| == f.nReturned
    requires Agrees(WalkReturns(f.body, seq(f.nReturned, i => Unseen)), data)
        && InPlace(CollectReturnCoalescings(f), data)
    ensures ReturnOk(ContextOf(f), HomeSlots(f), FreeSlots(f), data)
  {
    var homes := CollectReturnCoalescings(f);
    forall i | 0 <= i < |data|
      ensures if data[i].Variable? && data[i].name in HomeSlots(f) then
          HomeSlots(f)[data[i].name] == 2 + |f.arguments| + i
              else 2 + |f.arguments| + i in FreeSlots(f)
    {
      if data[i].Variable? { HomeSlot(f, data[i].name); }
      if homes[i].Some? {
        HomeFacts(f, i);
        HomeSlot(f, homes[i].value);
      }
    }
  }

  lemma {:induction false} SafeReturns(f: SimpleLang.Function, block: Block)
    requires ReturnsFit(f.body, f.nReturned) && ReturnsFit(block, f.nReturned)
    requires AllAgree(WalkReturns(f.body, seq(f.nReturned, i => Unseen)), block)
        && ReturnsInPlace(CollectReturnCoalescings(f), block)
    ensures ReturnsOk(ContextOf(f), HomeSlots(f), FreeSlots(f), block)
    decreases block
  {
    match block
    case Done =>
    case Then(line, rest) =>
      SafeReturns(f, rest);
      match line
      case FunctionRet(data) => SafeReturn(f, data);
      case IfNotZero(_, a, b) => SafeReturns(f, a); SafeReturns(f, b);
      case Match(_, arms, _) => SafeArms(f, arms);
      case _ =>
  }

  lemma {:induction false} SafeArms(f: SimpleLang.Function, arms: Arms)
    requires ReturnsFit(f.body, f.nReturned) && ArmsFit(arms, f.nReturned)
    requires ArmsAgree(WalkReturns(f.body, seq(f.nReturned, i => Unseen)), arms)
        && ArmsInPlace(CollectReturnCoalescings(f), arms)
    ensures ArmsOk(ContextOf(f), HomeSlots(f), FreeSlots(f), arms)
    decreases arms
  {
    if arms.Arm? { SafeReturns(f, arms.body); SafeArms(f, arms.others); }
  }

  lemma FunctionReturnsOk(f: SimpleLang.Function)
    requires ReturnsFit(f.body, f.nReturned) && ReturnsInPlace(CollectReturnCoalescings(f), f.body)
    ensures ReturnsOk(ContextOf(f), HomeSlots(f), FreeSlots(f), f.body)
  {
    WalkAgrees(f.body, seq(f.nReturned, i => Unseen));
    SafeReturns(f, f.body);
  }
}
