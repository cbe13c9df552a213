/**
 * Comparisons as the compiler makes them: two reads through pointers that only addresses below the memory size survive.
 */
module RangeChecks {
  import opened KoalaBear
  import opened Machine
  import opened Ir
  import opened Gadgets

  /** val <= bound, with three auxiliary cells: the value and the complement are both read as addresses. */
  function RangeCheck(val: nat, aux: nat, bound: Value): seq<Instr> {
    [Instr.Deref(val, 0, Mem(aux)), Instr.Computation(Add, Mem(val), Mem(aux + 1), bound),
        Instr.Deref(aux + 1, 0, Mem(aux + 2))]
  }

  /** A memory of the given size in which every cell has a value, as at the end of a run. */
  ghost predicate Filled(mem: Memory, size: nat) {
    2 * size <= P && forall address {:trigger address in mem} :: address in mem <==> address < size
  }

  ghost predicate AllSatisfied(code: seq<Instr>, L: Layout, mem: Memory, fp: nat) {
    forall k {:trigger code[k]} :: 0 <= k < |code| ==> Satisfied(code[k], L, mem, fp)
  }

  /** mem with other values in the three auxiliary cells. */
  function WithAux(mem: Memory, fp: nat, aux: nat, x1: F, x2: F, x3: F): Memory {
    mem[fp + aux := x1][fp + (aux + 1) := x2][fp + (aux + 2) := x3]
  }

  /** Some values of the auxiliary cells meet the equations. */
  ghost predicate Passes(val: nat, aux: nat, bound: Value, L: Layout, mem: Memory, fp: nat) {
    exists x1, x2, x3 :: AllSatisfied(RangeCheck(val, aux, bound), L, WithAux(mem, fp, aux, x1, x2, x3), fp)
  }

  /** The equations of the range check, spelled out. */
  lemma Unfolded(val: nat, aux: nat, bound: Value, L: Layout, mem: Memory, fp: nat)
    ensures AllSatisfied(RangeCheck(val, aux, bound), L, mem, fp) <==>
      && fp + val in mem && fp + aux in mem && fp + (aux + 1) in mem && fp + (aux + 2) in mem
      && ReadValue(bound, L, mem, fp).Some?
      && mem[fp + val] in mem && mem[mem[fp + val]] == mem[fp + aux]
      && FAdd(mem[fp + val], mem[fp + (aux + 1)]) == ReadValue(bound, L, mem, fp).value
      && mem[fp + (aux + 1)] in mem && mem[mem[fp + (aux + 1)]] == mem[fp + (aux + 2)]
  {
    var code := RangeCheck(val, aux, bound);
    assert Satisfied(code[0], L, mem, fp) <==>
      && fp + val in mem && fp + aux in mem && mem[fp + val] in mem
      && mem[mem[fp + val]] == mem[fp + aux];
    assert Satisfied(code[1], L, mem, fp) <==>
      && fp + val in mem && fp + (aux + 1) in mem && ReadValue(bound, L, mem, fp).Some?
      && FAdd(mem[fp + val], mem[fp + (aux + 1)]) == ReadValue(bound, L, mem, fp).value;
    assert Satisfied(code[2], L, mem, fp) <==>
      && fp + (aux + 1) in mem && fp + (aux + 2) in mem && mem[fp + (aux + 1)] in mem
      && mem[mem[fp + (aux + 1)]] == mem[fp + (aux + 2)];
    assert AllSatisfied(code, L, mem, fp) <==>
      && Satisfied(code[0], L, mem, fp) && Satisfied(code[1], L, mem, fp)
      && Satisfied(code[2], L, mem, fp);
  }

  /** Two addresses that add up to a field element do not wrap. */
  lemma NoWrapAround(v: F, c: F, b: F, size: nat)
    requires 2 * size <= P && v < size && c < size && FAdd(v, c) == b
    ensures v <= b && b - v == c
  {
  }

  /** Values for the first and the last auxiliary cell, also when one of the addresses read is such a cell. */
  lemma Pointers(mem: Memory, fp: nat, aux: nat, v: nat, c: F, size: nat) returns (x1: F, x3: F)
    requires Filled(mem, size) && fp + aux + 2 < size && v < size && c < size
    ensures var m := WithAux(mem, fp, aux, x1, c, x3); Filled(m, size) && m[v] == x1 && m[c] == x3
  {
    var m, at := mem[fp + (aux + 1) := c], fp + aux;
    x3 := if c == at || c == at + 2 then 0 else m[c];
    x1 := if v == at then x3 else if v == at + 2 then x3 else m[v];
    if c == at { x3 := x1; }
  }

  /**
   * For every value, bound and memory size up to half the field: the range check can be passed if and only if the value
   * is at most the bound and the value and its distance from the bound are addresses.
   */
  lemma RangeCheckIff(val: nat, aux: nat, bound: Value, L: Layout, mem: Memory, fp: nat, size: nat)
    requires Filled(mem, size) && fp + aux + 2 < size && fp + val < size && !(aux <= val <= aux + 2)
    requires ReadValue(bound, L, mem, fp).Some? && (bound.Mem? ==> !(aux <= bound.offset <= aux + 2))
    ensures var v, b := mem[fp + val], ReadValue(bound, L, mem, fp).value;
            Passes(val, aux, bound, L, mem, fp) <==> v < size && v <= b && b - v < size
  {
    hide FAdd, AllSatisfied, RangeCheck;
    var v, b := mem[fp + val], ReadValue(bound, L, mem, fp).value;
    if x1, x2, x3 :| AllSatisfied(RangeCheck(val, aux, bound), L, WithAux(mem, fp, aux, x1, x2, x3), fp) {
      Unfolded(val, aux, bound, L, WithAux(mem, fp, aux, x1, x2, x3), fp);
      NoWrapAround(v, x2, b, size);
    }
    if v < size && v <= b && b - v < size {
      var c: F := b - v;
      var x1, x3 := Pointers(mem, fp, aux, v, c, size);
      Sums(v, b);
      Unfolded(val, aux, bound, L, WithAux(mem, fp, aux, x1, c, x3), fp);
    }
  }

  lemma Sums(v: F, b: F)
    requires v <= b
    ensures FAdd(v, b - v) == b
  {
  }

  /** v < c, compiled as v <= c - 1: exact for every c up to the memory size, 0 included. */
  lemma LessThanIff(val: nat, aux: nat, c: F, L: Layout, mem: Memory, fp: nat, size: nat)
    requires Filled(mem, size) && fp + aux + 2 < size && fp + val < size && !(aux <= val <= aux + 2) && c <= size
    ensures Passes(val, aux, Const(Scalar(FSub(c, 1))), L, mem, fp) <==> mem[fp + val] < c
  {
    hide Passes;
    RangeCheckIff(val, aux, Const(Scalar(FSub(c, 1))), L, mem, fp, size);
    OneLess(c);
  }

  lemma OneLess(c: F)
    ensures FSub(c, 1) == if c == 0 then P - 1 else c - 1
  {
  }

  /** The check is not exact for larger bounds: 0 < c fails for every c beyond the memory size. */
  lemma LargeBoundFails(val: nat, aux: nat, c: F, L: Layout, mem: Memory, fp: nat, size: nat)
    requires Filled(mem, size) && fp + aux + 2 < size && fp + val < size && !(aux <= val <= aux + 2) && size < c
        && mem[fp + val] == 0
    ensures !Passes(val, aux, Const(Scalar(FSub(c, 1))), L, mem, fp)
  {
    hide Passes;
    RangeCheckIff(val, aux, Const(Scalar(FSub(c, 1))), L, mem, fp, size);
    OneLess(c);
  }
}
