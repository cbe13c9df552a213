/** The conditional against arbitrary hints, and the returns that coalescing breaks. */
module Gadgets {
  import opened Wrappers
  import opened KoalaBear
  import opened Machine
  import opened Ir
  import opened SimpleLang
  import opened CompilerSpec
  import opened Frames
  import opened Simulation
  import opened ReturnSimulation
  import opened ReturnSlots

  // -- The conditional, whatever the inverse hint wrote --------------------------------------------

  /**
   * The equation of a computation or a read through a pointer holds; nothing is said about how the memory came about.
   */
  predicate Satisfied(i: Instr, L: Layout, mem: Memory, fp: nat) {
    match i
    case Computation(op, x, y, res) =>
      var a, b, r := ReadValue(x, L, mem, fp), ReadValue(y, L, mem, fp), ReadValue(res, L, mem, fp);
      a.Some? && b.Some? && r.Some? && Compute(op, a.value, b.value) == r.value
    case Deref(shift0, shift1, res) =>
      var r := ReadValue(res, L, mem, fp);
      fp + shift0 in mem && r.Some? && mem[fp + shift0] + shift1 in mem && mem[mem[fp + shift0] + shift1] == r.value
    case _ => true
  }

  lemma NonZeroFactor(a: F, b: F)
    requires FMul(a, b) == 0 && b != 0
    ensures a == 0
  {
    MulLaws(a, b, FInv(b));
    MulLaws(a, 1, 0);
  }

  lemma ComplementIsZero(product: F, complement: F)
    requires FAdd(complement, product) == 1 && complement == 0
    ensures product == 1
  {
  }

  /**
   * In every memory that satisfies the equations of the gadget the jump condition is 1 if the condition is not zero
   * and 0 if it is: a wrong inverse cannot send control to the wrong branch.
   */
  lemma GadgetIsSound(c: Value, pos: nat, id: nat, L: Layout, mem: Memory, fp: nat)
    requires forall k {:trigger Gadget(c, pos, id)[k]} :: 0 <= k < |Gadget(c, pos, id)| ==>
        Satisfied(Gadget(c, pos, id)[k], L, mem, fp)
    ensures ReadValue(c, L, mem, fp).Some?
    ensures ReadValue(Mem(pos + 1), L, mem, fp) == Some(if ReadValue(c, L, mem, fp).value == 0 then 0 else 1)
    ensures Gadget(c, pos, id)[4] == JumpIfNotZero(Mem(pos + 1), LabelValue(If(id)), None)
  {
    hide FMul, FAdd, FInv;
    var g := Gadget(c, pos, id);
    assert Satisfied(g[1], L, mem, fp) && Satisfied(g[2], L, mem, fp) && Satisfied(g[3], L, mem, fp);
    var v := ReadValue(c, L, mem, fp).value;
    var inverse, product, complement := mem[fp + pos], mem[fp + (pos + 1)], mem[fp + (pos + 2)];
    if v == 0 {
      ZeroProduct(inverse);
    } else {
      NonZeroFactor(complement, v);
      ComplementIsZero(product, complement);
    }
  }

  lemma ZeroProduct(x: F)
    ensures FMul(0, x) == 0
  {
  }

  /** The equations can be met exactly by the inverse, and by any hint when the condition is zero. */
  lemma GadgetAccepts(c: F, hint: F)
    ensures (exists complement: F :: FAdd(complement, FMul(c, hint)) == 1 && FMul(complement, c) == 0)
        <==> c == 0 || hint == FInv(c)
  {
    var product := FMul(c, hint);
    var rest := FSub(1, product);
    SubAdds(1, product);
    if c == 0 {
      ZeroProduct(hint);
      MulLaws(rest, 0, 0);
      ZeroProduct(rest);
    } else if hint == FInv(c) {
      ZeroProduct(c);
    } else {
      forall complement: F | FAdd(complement, product) == 1 && FMul(complement, c) == 0 ensures false {
        NonZeroFactor(complement, c);
        ComplementIsZero(product, complement);
        InverseIsUnique(c, hint);
      }
    }
  }

  lemma InverseIsUnique(c: F, h: F)
    requires c != 0 && FMul(c, h) == 1
    ensures h == FInv(c)
  {
    MulLaws(FInv(c), c, h);
    MulLaws(FInv(c), 1, 0);
    MulLaws(h, 1, 0);
    MulLaws(c, FInv(c), 0);
  }

  // -- Exactly which returns are complete ---------------------------------------------------------

  /** A slot that is nobody's home is free; the home of a variable is the slot of that variable in every return. */
  lemma SlotOfReturn(f: SimpleLang.Function, data: seq<Operand>, i: nat)
    requires ReturnsFit(f.body, f.nReturned) && |data| == f.nReturned && i < |data|
    requires Agrees(WalkReturns(f.body, seq(f.nReturned, i => Unseen)), data)
    ensures InHome(ContextOf(f), data[i]) <==> data[i].Variable? && Some(data[i].name) in CollectReturnCoalescings(f)
    ensures CollectReturnCoalescings(f)[i].Some? ==> data[i] == Variable(CollectReturnCoalescings(f)[i].value)
    ensures CollectReturnCoalescings(f)[i].None? ==> 2 + |f.arguments| + i in FreeSlots(f)
    ensures CollectReturnCoalescings(f)[i].Some? ==>
        data[i].name in HomeSlots(f) && HomeSlots(f)[data[i].name] == 2 + |f.arguments| + i
  {
    var homes := CollectReturnCoalescings(f);
    if data[i].Variable? { HomeSlot(f, data[i].name); }
    if homes[i].Some? {
      HomeFacts(f, i);
      HomeSlot(f, homes[i].value);
    }
  }

  /**
   * The stores of a return leave every value in its slot if and only if every coalesced variable is returned in its own
   * slot: the stores skip a coalesced variable in whatever slot it is returned.
   */
  lemma ReturnIsComplete(f: SimpleLang.Function, size: nat, slots: map<Var, nat>, pos: nat, l: Local,
      data: seq<Operand>, fp: nat, ap: nat, mem: Memory)
    requires ReturnsFit(f.body, f.nReturned) && |data| == f.nReturned && f.name != "main"
    requires Agrees(WalkReturns(f.body, seq(f.nReturned, i => Unseen)), data)
    requires Fits(ActivationOf(f, size), slots, pos, l.scope)
        && Holding(ActivationOf(f, size), slots, pos, l.env, fp, ap, mem)
    requires LookupAll(data, l.scope, l.env).Some?
    ensures var vs, base := LookupAll(data, l.scope, l.env).value, fp + 2 + |f.arguments|;
            Delivered(vs, base, WithReturns(ContextOf(f), mem, base, data, vs, |data|))
            <==> InPlace(CollectReturnCoalescings(f), data)
  {
    hide Fits, Holding, WithReturns, LookupAll, CollectReturnCoalescings, HomeSlots, FreeSlots, DeadStores,
        CoalescedVars, WalkReturns, Agrees, InHome, ReturnOk, ReturnsFit;
    var homes, vs, base := CollectReturnCoalescings(f), LookupAll(data, l.scope, l.env).value, fp + 2 + |f.arguments|;
    if InPlace(homes, data) {
      SafeReturn(f, data);
      AllDelivered(ActivationOf(f, size), slots, pos, l, data, fp, ap, mem);
    } else {
      var i :| 0 <= i < |data| && data[i].Variable? && Some(data[i].name) in homes && homes[i] != Some(data[i].name);
      SlotOfReturn(f, data, i);
      HoleStays(f, size, slots, pos, l, data, i, fp, ap, mem, vs);
      assert !Has(WithReturns(ContextOf(f), mem, base, data, vs, |data|), base + i, vs[i]);
    }
  }

  lemma {:induction false} HoleStays(f: SimpleLang.Function, size: nat, slots: map<Var, nat>, pos: nat, l: Local,
      data: seq<Operand>, i: nat, fp: nat, ap: nat, mem: Memory, vs: seq<F>)
    requires ReturnsFit(f.body, f.nReturned) && i < |data| == |vs| && InHome(ContextOf(f), data[i])
        && 2 + |f.arguments| + i in FreeSlots(f)
    requires Fits(ActivationOf(f, size), slots, pos, l.scope)
        && Holding(ActivationOf(f, size), slots, pos, l.env, fp, ap, mem)
    ensures fp + 2 + |f.arguments| + i !in WithReturns(ContextOf(f), mem, fp + 2 + |f.arguments|, data, vs, |data|)
  {
    assert Vacant(ActivationOf(f, size), pos, fp, ap, fp + 2 + |f.arguments| + i);
    SkippedCell(ContextOf(f), mem, fp + 2 + |f.arguments|, data, vs, |data|, i);
  }

  lemma {:induction false} SkippedCell(c: Context, mem: Memory, base: nat, data: seq<Operand>, vs: seq<F>, n: nat,
      i: nat)
    requires n <= |data| == |vs| && i < |data| && InHome(c, data[i]) && base + i !in mem
    ensures base + i !in WithReturns(c, mem, base, data, vs, n)
  {
    if n > 0 { SkippedCell(c, mem, base, data, vs, n - 1, i); }
  }

  /** x = 1 + 2; return x, x */
  function ReturnsTwice(): SimpleLang.Function {
    SimpleLang.Function("twice", [], 2,
        Then(Assignment(Variable(Name("x")), Plus, Literal(1), Literal(2)),
        Then(FunctionRet([Variable(Name("x")), Variable(Name("x"))]), Done)))
  }

  /** The first slot becomes the home of x, so neither slot is stored and the second one is never written. */
  lemma ReturnTwiceIsIncomplete(s: Scopes)
    ensures var f := ReturnsTwice();
            && ReturnsFit(f.body, f.nReturned)
            && CollectReturnCoalescings(f) == [Some(Name("x")), None]
            && StoreReturns(ContextOf(f), [Variable(Name("x")), Variable(Name("x"))], 0, s) == []
            && !InPlace(CollectReturnCoalescings(f), [Variable(Name("x")), Variable(Name("x"))])
  {
    var f := ReturnsTwice();
    var data := [Variable(Name("x")), Variable(Name("x"))];
    var none: seq<Slot> := seq(2, i => Unseen);
    var seen := SeeReturn(none, data);
    assert seen == [Only(Name("x")), Only(Name("x"))];
    assert WalkReturns(f.body, none) == seen by {
      assert WalkReturns(f.body.rest, none) == WalkReturns(Done, seen);
    }
    assert seen[..1] == [Only(Name("x"))] && seen[..1][..0] == [];
    assert Homes(seen[..1], []) == [Some(Name("x"))];
    assert Homes(seen, []) == [Some(Name("x")), None];
    assert CollectReturnCoalescings(f) == [Some(Name("x")), None];
    var c := ContextOf(f);
    assert Some(Name("x")) in CollectReturnCoalescings(f);
    assert Name("x") in c.coalesced;
    assert StoreReturns(c, data, 2, s) == [];
    assert StoreReturns(c, data, 1, s) == [];
    assert data[1].name == Name("x");
  }
}
