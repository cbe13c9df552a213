/** next_mle: the extension of the successor relation, and the column shift it stands for. */
module Successor {
  import opened Arith
  import opened Rings
  import opened Multilinear
  import opened Folding

  /** Product of eq(x_i, y_i) for i < k. */
  function EqPrefix<T(!new)>(R: Ring<T>, x: seq<T>, y: seq<T>, k: nat): T
    requires k <= |x| == |y|
  {
    if k == 0 then R.one else R.Mul(EqPrefix(R, x, y, k - 1), EqTwo(R, x[k - 1], y[k - 1]))
  }

  /** Product of x_i * (1 - y_i) for i >= k: all ones against all zeros. */
  function LowSuffix<T(!new)>(R: Ring<T>, x: seq<T>, y: seq<T>, k: nat): T
    requires k <= |x| == |y|
    decreases |x| - k
  {
    if k == |x| then R.one else R.Mul(LowSuffix(R, x, y, k + 1), R.Mul(x[k], R.Sub(R.one, y[k])))
  }

  /** Product of x_i * y_i for i >= k: all ones against all ones. */
  function BothOnes<T(!new)>(R: Ring<T>, x: seq<T>, y: seq<T>, k: nat): T
    requires k <= |x| == |y|
    decreases |x| - k
  {
    if k == |x| then R.one else R.Mul(R.Mul(x[k], y[k]), BothOnes(R, x, y, k + 1))
  }

  /** y is x plus one on the coordinates from k on: equal at k and a successor below, or a carry into k. */
  function Carry<T(!new)>(R: Ring<T>, x: seq<T>, y: seq<T>, k: nat): T
    requires k <= |x| == |y|
    decreases |x| - k
  {
    if k == |x| then R.zero
    else R.Add(R.Mul(EqTwo(R, x[k], y[k]), Carry(R, x, y, k + 1)),
        R.Mul(R.Mul(R.Sub(R.one, x[k]), y[k]), LowSuffix(R, x, y, k + 1)))
  }

  function Next<T(!new)>(R: Ring<T>, x: seq<T>, y: seq<T>): T
    requires |x| == |y|
  {
    R.Add(Carry(R, x, y, 0), BothOnes(R, x, y, 0))
  }

  function ProductFrom<T(!new)>(R: Ring<T>, x: seq<T>, k: nat): T
    requires k <= |x|
    decreases |x| - k
  {
    if k == |x| then R.one else R.Mul(x[k], ProductFrom(R, x, k + 1))
  }

  lemma {:induction false} ProductsMeet<T(!new)>(R: Ring<T>, x: seq<T>, y: seq<T>, k: nat)
    requires R.IsRing() && k <= |x| == |y|
    ensures R.Mul(ProductFrom(R, x, k), ProductFrom(R, y, k)) == BothOnes(R, x, y, k)
    decreases |x| - k
  {
    hide Ring<T>.Add, Ring<T>.Mul, Ring<T>.Neg;
    if k == |x| {
      R.Units(R.one);
    } else {
      ProductsMeet(R, x, y, k + 1);
      R.MulSwap(x[k], ProductFrom(R, x, k + 1), y[k], ProductFrom(R, y, k + 1));
    }
  }

  /** The sum over all carry positions, starting at k with the equal prefix already multiplied in. */
  lemma PrefixStep<T(!new)>(R: Ring<T>, x: seq<T>, y: seq<T>, k: nat, sum: T)
    requires R.IsRing() && k < |x| == |y|
    ensures var carry := R.Mul(R.Sub(R.one, x[k]), y[k]);
            R.Add(sum, R.Mul(EqPrefix(R, x, y, k), Carry(R, x, y, k))) ==
            R.Add(R.Add(sum, R.Mul(R.Mul(EqPrefix(R, x, y, k), carry), LowSuffix(R, x, y, k + 1))),
                R.Mul(EqPrefix(R, x, y, k + 1), Carry(R, x, y, k + 1)))
  {
    hide Ring<T>.Add, Ring<T>.Mul, Ring<T>.Neg;
    var prefix, e, carry := EqPrefix(R, x, y, k), EqTwo(R, x[k], y[k]), R.Mul(R.Sub(R.one, x[k]), y[k]);
    var c, low := Carry(R, x, y, k + 1), LowSuffix(R, x, y, k + 1);
    R.Distribute(prefix, R.Mul(e, c), R.Mul(carry, low));
    R.MulAssoc(prefix, e, c);
    R.MulAssoc(prefix, carry, low);
    var a, b := R.Mul(R.Mul(prefix, e), c), R.Mul(R.Mul(prefix, carry), low);
    R.AddComm(a, b);
    R.AddAssoc(sum, b, a);
  }

  method ProductFirstN<T(!new)>(R: Ring<T>, x: seq<T>) returns (p: T)
    requires R.IsRing()
    ensures p == ProductFrom(R, x, 0)
  {
    hide Ring<T>.Mul;
    p := R.one;
    var i := |x|;
    while i > 0
      invariant 0 <= i <= |x| && p == ProductFrom(R, x, i)
    {
      i := i - 1;
      p := R.Mul(x[i], p);
    }
  }

  /** Fills the two product tables, then sums over the position of the carry. */
  method NextMleConst<T(!new)>(R: Ring<T>, x: seq<T>, y: seq<T>) returns (result: T)
    requires R.IsRing() && |x| == |y|
    ensures result == Next(R, x, y)
    ensures var last := Pow2(|x|) - 1;
            result == R.Add(R.Sum(WeightPairs(R, x, y, 0, 1), last), R.Mul(Eq(R, x, last), Eq(R, y, last)))
  {
    hide Ring<T>.Add, Ring<T>.Mul, Ring<T>.Neg, EqTwo, Carry, WeightPairs;
    NextIsSum(R, x, y);
    var n := |x|;
    var eqPrefix, i := [R.one], 0;
    while i < n
      invariant 0 <= i <= n && |eqPrefix| == i + 1
      invariant forall k {:trigger eqPrefix[k]} :: 0 <= k <= i ==> eqPrefix[k] == EqPrefix(R, x, y, k)
    {
      eqPrefix := eqPrefix + [R.Mul(eqPrefix[i], EqTwo(R, x[i], y[i]))];
      i := i + 1;
    }
    var lowSuffix, idx := [R.one], n;
    while idx > 0
      invariant 0 <= idx <= n && |lowSuffix| == n - idx + 1
      invariant forall k {:trigger lowSuffix[k]} :: 0 <= k <= n - idx ==> lowSuffix[k] == LowSuffix(R, x, y, idx + k)
    {
      idx := idx - 1;
      var before := lowSuffix;
      lowSuffix := [R.Mul(lowSuffix[0], R.Mul(x[idx], R.Sub(R.one, y[idx])))] + lowSuffix;
      forall k {:trigger lowSuffix[k]} | 0 <= k <= n - idx ensures lowSuffix[k] == LowSuffix(R, x, y, idx + k) {
        if k > 0 { assert lowSuffix[k] == before[k - 1]; }
      }
    }
    var sum, arr := R.zero, 0;
    StartSum(R, x, y);
    while arr < n
      invariant 0 <= arr <= n
      invariant R.Add(sum, R.Mul(EqPrefix(R, x, y, arr), Carry(R, x, y, arr))) == Carry(R, x, y, 0)
    {
      var carry := R.Mul(R.Sub(R.one, x[arr]), y[arr]);
      var eqCarry := R.Mul(eqPrefix[arr], carry);
      var term := R.Mul(eqCarry, lowSuffix[arr + 1]);
      PrefixStep(R, x, y, arr, sum);
      sum := R.Add(sum, term);
      arr := arr + 1;
    }
    EndSum(R, x, y, sum);
    var px := ProductFirstN(R, x);
    var py := ProductFirstN(R, y);
    ProductsMeet(R, x, y, 0);
    result := R.Add(sum, R.Mul(px, py));
  }

  lemma StartSum<T(!new)>(R: Ring<T>, x: seq<T>, y: seq<T>)
    requires R.IsRing() && |x| == |y|
    ensures R.Add(R.zero, R.Mul(EqPrefix(R, x, y, 0), Carry(R, x, y, 0))) == Carry(R, x, y, 0)
  {
    R.Units(Carry(R, x, y, 0));
  }

  lemma EndSum<T(!new)>(R: Ring<T>, x: seq<T>, y: seq<T>, sum: T)
    requires R.IsRing() && |x| == |y|
    requires R.Add(sum, R.Mul(EqPrefix(R, x, y, |x|), Carry(R, x, y, |x|))) == Carry(R, x, y, 0)
    ensures sum == Carry(R, x, y, 0)
  {
    R.MulZero(EqPrefix(R, x, y, |x|));
    R.Units(sum);
  }

  // -- At all points ---------------------------------------------------------------------------

  /** The two closing products are the weights of all ones against all zeros, and against all ones. */
  lemma {:induction false} ProductsAreWeights<T(!new)>(R: Ring<T>, x: seq<T>, y: seq<T>, k: nat)
    requires R.IsRing() && k <= |x| == |y|
    ensures var last := Pow2(|x| - k) - 1;
            && LowSuffix(R, x, y, k) == R.Mul(EqFrom(R, x, k, last), EqFrom(R, y, k, 0))
            && BothOnes(R, x, y, k) == R.Mul(EqFrom(R, x, k, last), EqFrom(R, y, k, last))
    decreases |x| - k
  {
    hide Ring<T>.Add, Ring<T>.Mul, Ring<T>.Neg;
    if k == |x| {
      R.Units(R.one);
    } else {
      var half := Pow2(|x| - k - 1);
      ProductsAreWeights(R, x, y, k + 1);
      var ones, zeros, notY := EqFrom(R, x, k + 1, half - 1), EqFrom(R, y, k + 1, 0), R.Sub(R.one, y[k]);
      assert 2 * half - 1 - half == half - 1;
      R.MulComm(R.Mul(ones, zeros), R.Mul(x[k], notY));
      R.MulSwap(x[k], notY, ones, zeros);
      R.MulSwap(x[k], y[k], ones, EqFrom(R, y, k + 1, half - 1));
    }
  }

  /** From the last index of the lower half to the first of the upper one. */
  lemma AcrossHalves<T(!new)>(R: Ring<T>, x: seq<T>, y: seq<T>, k: nat)
    requires R.IsRing() && k < |x| == |y|
    ensures WeightPairs(R, x, y, k, 1)(Pow2(|x| - k - 1) - 1)
        == R.Mul(R.Mul(R.Sub(R.one, x[k]), y[k]), LowSuffix(R, x, y, k + 1))
  {
    hide Ring<T>.Add, Ring<T>.Mul, Ring<T>.Neg, LowSuffix;
    var half := Pow2(|x| - k - 1);
    ProductsAreWeights(R, x, y, k + 1);
    assert half - 1 + 1 - half == 0;
    R.MulSwap(R.Sub(R.one, x[k]), EqFrom(R, x, k + 1, half - 1), y[k], EqFrom(R, y, k + 1, 0));
  }

  lemma ThreeParts<T(!new)>(R: Ring<T>, f: int -> T, g: int -> T, half: nat, a: T, b: T)
    requires R.IsRing() && half > 0
    requires forall j :: 0 <= j < half - 1 ==> f(j) == R.Mul(a, g(j)) && f(half + j) == R.Mul(b, g(j))
    ensures var sum := R.Sum(g, half - 1);
            R.Sum(f, 2 * half - 1) == R.Add(R.Add(R.Mul(a, sum), f(half - 1)), R.Mul(b, sum))
  {
    hide Ring<T>.IsRing, Ring<T>.Add, Ring<T>.Mul, Ring<T>.Neg;
    R.SumSplit(f, Shifted(f, half), half, half - 1);
    R.SumScale(a, g, f, half - 1);
    R.SumScale(b, g, Shifted(f, half), half - 1);
  }

  lemma NoCarry<T(!new)>(R: Ring<T>, x: seq<T>, y: seq<T>)
    requires |x| == |y|
    ensures Carry(R, x, y, |x|) == R.zero
  {
  }

  lemma CarryUnfolds<T(!new)>(R: Ring<T>, x: seq<T>, y: seq<T>, k: nat)
    requires k < |x| == |y|
    ensures Carry(R, x, y, k) == R.Add(R.Mul(EqTwo(R, x[k], y[k]), Carry(R, x, y, k + 1)),
        R.Mul(R.Mul(R.Sub(R.one, x[k]), y[k]), LowSuffix(R, x, y, k + 1)))
  {
  }

  /** The carry sum is the sum over the indices that have a successor. */
  lemma {:induction false} CarryIsSum<T(!new)>(R: Ring<T>, x: seq<T>, y: seq<T>, k: nat)
    requires R.IsRing() && k <= |x| == |y|
    ensures Carry(R, x, y, k) == R.Sum(WeightPairs(R, x, y, k, 1), Pow2(|x| - k) - 1)
    decreases |x| - k
  {
    hide Ring<T>.IsRing, Ring<T>.Add, Ring<T>.Mul, Ring<T>.Neg, WeightPairs, LowSuffix, EqTwo, Carry;
    if k == |x| {
      NoCarry(R, x, y);
    } else {
      var half, f, g := Pow2(|x| - k - 1), WeightPairs(R, x, y, k, 1), WeightPairs(R, x, y, k + 1, 1);
      var a, b := R.Mul(R.Sub(R.one, x[k]), R.Sub(R.one, y[k])), R.Mul(x[k], y[k]);
      forall j | 0 <= j < half - 1 ensures f(j) == R.Mul(a, g(j)) && f(half + j) == R.Mul(b, g(j)) {
        PairHalves(R, x, y, k, 1, j);
      }
      CarryIsSum(R, x, y, k + 1);
      AcrossHalves(R, x, y, k);
      ThreeParts(R, f, g, half, a, b);
      CarryUnfolds(R, x, y, k);
      CollectCarry(R, x[k], y[k], R.Sum(g, half - 1), f(half - 1));
    }
  }

  lemma CollectCarry<T(!new)>(R: Ring<T>, x: T, y: T, sum: T, across: T)
    requires R.IsRing()
    ensures var a, b := R.Mul(R.Sub(R.one, x), R.Sub(R.one, y)), R.Mul(x, y);
            R.Add(R.Add(R.Mul(a, sum), across), R.Mul(b, sum)) == R.Add(R.Mul(EqTwo(R, x, y), sum), across)
  {
    hide Ring<T>.Add, Ring<T>.Mul, Ring<T>.Neg, Ring<T>.IsRing;
    var a, b := R.Mul(R.Sub(R.one, x), R.Sub(R.one, y)), R.Mul(x, y);
    R.Distribute(sum, b, a);
    R.AddComm(R.Add(R.Mul(a, sum), across), R.Mul(b, sum));
    R.AddAssoc(R.Mul(b, sum), R.Mul(a, sum), across);
  }

  /** For all points: every index against its successor, and the last one against itself. */
  lemma NextIsSum<T(!new)>(R: Ring<T>, x: seq<T>, y: seq<T>)
    requires R.IsRing() && |x| == |y|
    ensures var last := Pow2(|x|) - 1;
            Next(R, x, y) == R.Add(R.Sum(WeightPairs(R, x, y, 0, 1), last), R.Mul(Eq(R, x, last), Eq(R, y, last)))
  {
    hide Ring<T>.Add, Ring<T>.Mul, Ring<T>.Neg, Carry, BothOnes, EqFrom;
    CarryIsSum(R, x, y, 0);
    ProductsAreWeights(R, x, y, 0);
  }

  // -- At the corners of the cube --------------------------------------------------------------

  /** The bits of j as ring elements, highest first. */
  function BitPoint<T(!new)>(R: Ring<T>, j: int, n: nat): (r: seq<T>)
    ensures |r| == n
  {
    if n == 0 then []
    else if j < Pow2(n - 1) then [R.zero] + BitPoint(R, j, n - 1)
    else [R.one] + BitPoint(R, j - Pow2(n - 1), n - 1)
  }

  lemma EqAtCorner<T(!new)>(R: Ring<T>, x: T)
    requires R.IsRing()
    ensures EqTwo(R, x, R.zero) == R.Sub(R.one, x) && EqTwo(R, x, R.one) == x
    ensures R.Sub(R.one, R.zero) == R.one && R.Sub(R.one, R.one) == R.zero
  {
    hide Ring<T>.Add, Ring<T>.Mul, Ring<T>.Neg;
    R.NegZero();
    R.Units(R.one);
    R.SubSelf(R.one);
    R.MulZero(x);
    R.MulZero(R.Sub(R.one, x));
    R.Units(x);
    R.Units(R.Sub(R.one, x));
  }

  /** The three products at the bits of j: j = 0, j = 2^n - 1, and the weight of j - 1. */
  lemma {:induction false} CornerProducts<T(!new)>(R: Ring<T>, x: seq<T>, y: seq<T>, k: nat, j: nat)
    requires R.IsRing() && k <= |x| == |y| && j < Pow2(|x| - k) && y[k..] == BitPoint(R, j, |x| - k)
    ensures LowSuffix(R, x, y, k) == if j == 0 then EqFrom(R, x, k, Pow2(|x| - k) - 1) else R.zero
    ensures BothOnes(R, x, y, k) == if j == Pow2(|x| - k) - 1 then EqFrom(R, x, k, Pow2(|x| - k) - 1) else R.zero
    decreases |x| - k
  {
    hide Ring<T>.Add, Ring<T>.Mul, Ring<T>.Neg;
    if k < |x| {
      var half := Pow2(|x| - k - 1);
      var j' := if j < half then j else j - half;
      assert y[k] == y[k..][0] && y[k + 1..] == y[k..][1..];
      assert y[k + 1..] == BitPoint(R, j', |x| - k - 1);
      CornerProducts(R, x, y, k + 1, j');
      EqAtCorner(R, x[k]);
      var all := EqFrom(R, x, k + 1, half - 1);
      R.Units(x[k]);
      R.MulZero(x[k]);
      R.MulZero(all);
      R.MulComm(all, x[k]);
      R.MulZero(LowSuffix(R, x, y, k + 1));
      R.MulZero(BothOnes(R, x, y, k + 1));
    }
  }

  /** Against the bits of j the carry sum is the weight of j - 1. */
  lemma {:induction false} CarryAtCorner<T(!new)>(R: Ring<T>, x: seq<T>, y: seq<T>, k: nat, j: nat)
    requires R.IsRing() && k <= |x| == |y| && j < Pow2(|x| - k) && y[k..] == BitPoint(R, j, |x| - k)
    ensures Carry(R, x, y, k) == if j == 0 then R.zero else EqFrom(R, x, k, j - 1)
    decreases |x| - k
  {
    hide Ring<T>.Add, Ring<T>.Mul, Ring<T>.Neg, EqTwo, LowSuffix;
    if k < |x| {
      var half := Pow2(|x| - k - 1);
      var j' := if j < half then j else j - half;
      assert y[k] == y[k..][0] && y[k + 1..] == y[k..][1..];
      assert y[k + 1..] == BitPoint(R, j', |x| - k - 1);
      CarryAtCorner(R, x, y, k + 1, j');
      CornerProducts(R, x, y, k + 1, j');
      EqAtCorner(R, x[k]);
      var c, low, notX := Carry(R, x, y, k + 1), LowSuffix(R, x, y, k + 1), R.Sub(R.one, x[k]);
      R.MulZero(notX);
      R.Units(notX);
      R.MulZero(low);
      R.MulZero(x[k]);
      R.Units(R.Mul(notX, c));
      R.Units(R.Mul(x[k], c));
      R.Units(R.Mul(notX, low));
      R.Units(R.zero);
    }
  }

  /** The successor relation on the cube: the weight of j - 1, and the last row repeated. */
  lemma NextAtCorner<T(!new)>(R: Ring<T>, x: seq<T>, j: nat)
    requires R.IsRing() && j < Pow2(|x|)
    ensures Next(R, x, BitPoint(R, j, |x|)) ==
      R.Add(if j == 0 then R.zero else Eq(R, x, j - 1), if j == Pow2(|x|) - 1 then Eq(R, x, j) else R.zero)
  {
    hide Ring<T>.Add, Ring<T>.Mul, Ring<T>.Neg, Carry, BothOnes, EqFrom, BitPoint;
    var y := BitPoint(R, j, |x|);
    assert y[0..] == y;
    CarryAtCorner(R, x, y, 0, j);
    CornerProducts(R, x, y, 0, j);
  }

  // -- The shifted column -------------------------------------------------------------------------

  /** Every value one place up; the last one stays. */
  function ShiftDown<T>(data: seq<T>): (out: seq<T>)
    ensures |out| == |data|
  {
    if data == [] then [] else data[1..] + [data[|data| - 1]]
  }

  method CpuShiftDown<T(!new,0)>(data: array<T>) returns (out: array<T>)
    requires data.Length > 0
    ensures out[..] == ShiftDown(data[..])
  {
    var n := data.Length;
    out := new T[n];
    var i := 0;
    while i < n - 1
      invariant 0 <= i <= n - 1
      invariant forall j {:trigger out[j]} :: 0 <= j < i ==> out[j] == data[j + 1]
    {
      out[i] := data[i + 1];
      i := i + 1;
    }
    out[n - 1] := data[n - 1];
  }

  /** next_mle(x, b) * f(b) at the b-th corner. */
  function NextTerms<T(!new)>(R: Ring<T>, x: seq<T>, data: seq<T>): int -> T {
    (j: int) => R.Mul(Next(R, x, BitPoint(R, j, |x|)), At(R, data)(j))
  }

  lemma TermAt<T(!new)>(R: Ring<T>, x: seq<T>, data: seq<T>, j: nat)
    requires R.IsRing() && |data| == Pow2(|x|) && j < |data|
    ensures var shifted, last := Weighted(R, At(R, ShiftDown(data)), 0, x, 0), |data| - 1;
            NextTerms(R, x, data)(j) == R.Add(if j == 0 then R.zero else shifted(j - 1),
                if j == last then shifted(j) else R.zero)
  {
    hide Ring<T>.Add, Ring<T>.Mul, Ring<T>.Neg, Next, EqFrom, BitPoint;
    var v := data[j];
    NextAtCorner(R, x, j);
    var a, b := if j == 0 then R.zero else Eq(R, x, j - 1), if j == |data| - 1 then Eq(R, x, j) else R.zero;
    R.Distribute(v, a, b);
    R.MulZero(v);
    var down := ShiftDown(data);
    assert j > 0 ==> down[j - 1] == v && At(R, down)(j - 1) == v && 0 + (j - 1) == j - 1;
    assert j == |data| - 1 ==> down[j] == v && At(R, down)(j) == v && 0 + j == j;
    var shifted := Weighted(R, At(R, down), 0, x, 0);
    assert At(R, data)(j) == v;
    assert NextTerms(R, x, data)(j) == R.Mul(Next(R, x, BitPoint(R, j, |x|)), v);
    assert NextTerms(R, x, data)(j) == R.Mul(R.Add(a, b), v);
    assert j > 0 ==> shifted(j - 1) == R.Mul(a, v);
    assert j == |data| - 1 ==> shifted(j) == R.Mul(b, v);
  }

  lemma {:induction false} PartialShift<T(!new)>(R: Ring<T>, x: seq<T>, data: seq<T>, m: nat)
    requires R.IsRing() && |data| == Pow2(|x|) && 1 <= m < |data|
    ensures R.Sum(NextTerms(R, x, data), m) == R.Sum(Weighted(R, At(R, ShiftDown(data)), 0, x, 0), m - 1)
  {
    hide Ring<T>.Add, Ring<T>.Mul, Ring<T>.Neg, NextTerms, Weighted, At;
    var shifted := Weighted(R, At(R, ShiftDown(data)), 0, x, 0);
    TermAt(R, x, data, m - 1);
    R.Units(R.zero);
    if m == 1 {
      assert R.Sum(NextTerms(R, x, data), 1) == R.Add(R.Sum(NextTerms(R, x, data), 0), NextTerms(R, x, data)(0));
    } else {
      PartialShift(R, x, data, m - 1);
      R.Units(shifted(m - 2));
    }
  }

  lemma LastTwo<T(!new)>(R: Ring<T>, f: int -> T, n: nat)
    requires R.IsRing() && n >= 2
    ensures R.Sum(f, n) == R.Add(R.Sum(f, n - 2), R.Add(f(n - 2), f(n - 1)))
  {
    hide Ring<T>.Add;
    R.AddAssoc(R.Sum(f, n - 2), f(n - 2), f(n - 1));
  }

  /** Summed over the cube, next_mle against a column gives the extension of the column shifted down by one row. */
  lemma NextSumsToShift<T(!new)>(R: Ring<T>, x: seq<T>, data: seq<T>)
    requires R.IsRing() && |data| == Pow2(|x|)
    ensures R.Sum(NextTerms(R, x, data), |data|) == Mle(R, At(R, ShiftDown(data)), x)
  {
    hide Ring<T>.Add, Ring<T>.Mul, Ring<T>.Neg, NextTerms, Weighted, MleFrom, At, ShiftDown, Pow2, Ring<T>.IsRing;
    var terms, shifted, n := NextTerms(R, x, data), Weighted(R, At(R, ShiftDown(data)), 0, x, 0), |data|;
    MleIsWeightedSum(R, At(R, ShiftDown(data)), 0, x, 0);
    TermAt(R, x, data, n - 1);
    if n == 1 {
      OneTerm(R, terms);
      OneTerm(R, shifted);
      R.Units(shifted(0));
    } else {
      PartialShift(R, x, data, n - 1);
      LastTwo(R, shifted, n);
    }
  }
}
