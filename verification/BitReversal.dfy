/** The bit-reversal permutation. */
module BitReversal {
  import opened Arith

  /** The low `bits` bits of x in the opposite order. */
  function Rev(x: nat, bits: nat): (r: nat)
    ensures r < Pow2(bits)
  {
    if bits == 0 then 0 else (if x % 2 == 1 then Pow2(bits - 1) else 0) + Rev(x / 2, bits - 1)
  }

  /** The loop of the repository computes Rev. */
  method BitReverse(x: nat, bits: nat) returns (r: nat)
    ensures r == Rev(x, bits)
  {
    r := 0;
    var v := x;
    for i := 0 to bits
      invariant r * Pow2(bits - i) + Rev(v, bits - i) == Rev(x, bits)
    {
      MulAssoc(r, 2, Pow2(bits - i - 1));
      Distribute(2 * r, v % 2, Pow2(bits - i - 1));
      r := 2 * r + v % 2;
      v := v / 2;
    }
  }

  /** Rev in terms of the top bit instead of the bottom one. */
  lemma {:induction false} RevTop(x: nat, bits: nat)
    requires bits > 0 && x < Pow2(bits)
    ensures var top := if x >= Pow2(bits - 1) then 1 else 0;
            Rev(x, bits) == 2 * Rev(if top == 1 then x - Pow2(bits - 1) else x, bits - 1) + top
  {
    hide Pow2;
    PowZero();
    PowerStep(bits - 1);
    if bits > 1 {
      PowerStep(bits - 2);
      RevTop(x / 2, bits - 1);
      var half := Pow2(bits - 2);
      var low := if x >= Pow2(bits - 1) then x - Pow2(bits - 1) else x;
      assert low % 2 == x % 2;
      assert low / 2 == if x / 2 >= half then x / 2 - half else x / 2;
    }
  }

  /** The reversal of a block index, seen from the two halves of the block. */
  lemma RevChildren(b: nat, bits: nat)
    ensures Rev(2 * b, bits + 1) == Rev(b, bits)
    ensures Rev(2 * b + 1, bits + 1) == Rev(b, bits) + Pow2(bits)
  {
    hide Pow2;
    Halves(b);
  }

  lemma Halves(b: nat) ensures 2 * b / 2 == b && 2 * b % 2 == 0 && (2 * b + 1) / 2 == b && (2 * b + 1) % 2 == 1 {}

  /** Reversing twice gives the number back: the permutation is an involution. */
  lemma {:induction false} RevInvolution(x: nat, bits: nat)
    requires x < Pow2(bits)
    ensures Rev(Rev(x, bits), bits) == x
  {
    if bits > 0 {
      RevInvolution(x / 2, bits - 1);
      RevTop(Rev(x, bits), bits);
    }
  }

  ghost predicate Reversed<T>(before: seq<T>, after: seq<T>, bits: nat)
    requires |before| == |after| == Pow2(bits)
  {
    forall t :: 0 <= t < |after| ==> after[t] == before[Rev(t, bits)]
  }

  /** The swap loop: every pair (i, j = Rev(i)) with i < j is exchanged once. */
  method BitReversePermute<T>(data: array<T>, bits: nat)
    requires data.Length == Pow2(bits)
    modifies data
    ensures Reversed(old(data[..]), data[..], bits)
  {
    ghost var before := data[..];
    forall t | 0 <= t < data.Length ensures Rev(Rev(t, bits), bits) == t {
      RevInvolution(t, bits);
    }
    for i := 0 to data.Length
      invariant forall t :: 0 <= t < data.Length ==>
        data[t] == before[if t < i || Rev(t, bits) < i then Rev(t, bits) else t]
    {
      var j := BitReverse(i, bits);
      if i < j {
        data[i], data[j] := data[j], data[i];
      }
    }
  }
}
