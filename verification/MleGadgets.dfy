/** The verifier's closed forms for extensions of simple vectors, and the table of weights. */
module MleGadgets {
  import opened Arith
  import opened Rings
  import opened Multilinear

  // -- Constant vectors -----------------------------------------------------------------------

  lemma MixSame<T(!new)>(R: Ring<T>, a: T, r: T)
    requires R.IsRing()
    ensures Mix(R, a, a, r) == a
  {
    hide Ring<T>.Add, Ring<T>.Mul, Ring<T>.Neg;
    MixSum(R, a, a, r);
    R.SubSelf(a);
    R.MulZero(r);
    R.Units(a);
  }

  lemma {:induction false} ConstantMle<T(!new)>(R: Ring<T>, f: int -> T, c: T, lo: int, point: seq<T>, k: nat)
    requires R.IsRing() && k <= |point| && forall i {:trigger f(i)} :: lo <= i < lo + Pow2(|point| - k) ==> f(i) == c
    ensures MleFrom(R, f, lo, point, k) == c
    decreases |point| - k
  {
    hide Ring<T>.Add, Ring<T>.Mul, Ring<T>.Neg, Mix;
    if k < |point| {
      ConstantMle(R, f, c, lo, point, k + 1);
      ConstantMle(R, f, c, lo + Pow2(|point| - k - 1), point, k + 1);
      MixSame(R, c, point[k]);
    }
  }

  // -- The table of weights -----------------------------------------------------------------------

  /** One level of the table: the weights of the last s coordinates, from `start` on. */
  ghost predicate LevelHolds<T(!new)>(R: Ring<T>, res: seq<T>, start: int, point: seq<T>, s: nat) {
    s <= |point| && 0 <= start && start + Pow2(s) <= |res| &&
    forall i {:trigger res[i]} :: start <= i < start + Pow2(s) ==> res[i] == EqFrom(R, point, |point| - s, i - start)
  }

  /** p * w goes to the upper half of the next level and w - p * w to the lower half. */
  lemma WeightSplits<T(!new)>(R: Ring<T>, point: seq<T>, s: nat, i: int)
    requires R.IsRing() && s < |point| && 0 <= i < Pow2(s)
    ensures var k := |point| - s - 1; var w := EqFrom(R, point, k + 1, i);
            && EqFrom(R, point, k, Pow2(s) + i) == R.Mul(point[k], w)
            && EqFrom(R, point, k, i) == R.Sub(w, R.Mul(point[k], w))
  {
    hide Ring<T>.Add, Ring<T>.Mul, Ring<T>.Neg;
    var k := |point| - s - 1;
    var w := EqFrom(R, point, k + 1, i);
    R.SubMul(R.one, point[k], w);
    R.Units(w);
  }

  /** Level s of the table starts at 2^s - 1; each level is written once from the one before it. */
  method ComputeEqMleExtension<T(!new)>(R: Ring<T>, point: seq<T>) returns (res: seq<T>)
    requires R.IsRing()
    ensures |res| == Pow2(|point|)
    ensures forall j {:trigger res[j]} :: 0 <= j < |res| ==> res[j] == Eq(R, point, j)
  {
    hide Ring<T>.Add, Ring<T>.Mul, Ring<T>.Neg, EqFrom;
    var n := |point|;
    var cells := [R.one];
    var s := 0;
    FirstLevel(R, point);
    while s < n
      invariant 0 <= s <= n && |cells| == Pow2(s + 1) - 1
      invariant LevelHolds(R, cells, Pow2(s) - 1, point, s)
    {
      var p, upper, lower, i := point[n - 1 - s], [], [], 0;
      while i < Pow2(s)
        invariant 0 <= i <= Pow2(s) && |upper| == |lower| == i
        invariant forall j {:trigger upper[j]} :: 0 <= j < i ==> upper[j] == EqFrom(R, point, n - s - 1, Pow2(s) + j)
        invariant forall j {:trigger lower[j]} :: 0 <= j < i ==> lower[j] == EqFrom(R, point, n - s - 1, j)
      {
        var w := cells[Pow2(s) - 1 + i];
        WeightSplits(R, point, s, i);
        var u := R.Mul(p, w);
        upper := upper + [u];
        lower := lower + [R.Sub(w, u)];
        i := i + 1;
      }
      NextLevel(R, cells, lower, upper, point, s);
      cells := cells + lower + upper;
      s := s + 1;
    }
    res := cells[Pow2(n) - 1..];
    forall j {:trigger res[j]} | 0 <= j < |res| ensures res[j] == Eq(R, point, j) {
      assert res[j] == cells[Pow2(n) - 1 + j];
    }
  }

  lemma FirstLevel<T(!new)>(R: Ring<T>, point: seq<T>)
    ensures LevelHolds(R, [R.one], 0, point, 0)
  {
  }

  lemma NextLevel<T(!new)>(R: Ring<T>, cells: seq<T>, lower: seq<T>, upper: seq<T>, point: seq<T>, s: nat)
    requires s < |point| && |cells| == Pow2(s + 1) - 1 && |lower| == |upper| == Pow2(s)
    requires forall j {:trigger upper[j]} :: 0 <= j < Pow2(s) ==>
        upper[j] == EqFrom(R, point, |point| - s - 1, Pow2(s) + j)
    requires forall j {:trigger lower[j]} :: 0 <= j < Pow2(s) ==> lower[j] == EqFrom(R, point, |point| - s - 1, j)
    ensures LevelHolds(R, cells + lower + upper, Pow2(s + 1) - 1, point, s + 1)
  {
    hide EqFrom;
    var all, start := cells + lower + upper, Pow2(s + 1) - 1;
    forall i {:trigger all[i]} | start <= i < start + Pow2(s + 1)
        ensures all[i] == EqFrom(R, point, |point| - s - 1, i - start) {
      if i - start < Pow2(s) {
        assert all[i] == lower[i - start];
      } else { assert all[i] == upper[i - start - Pow2(s)]; }
    }
  }

  // -- 0, 1, 2, 3, ... -----------------------------------------------------------------------------

  function MleOf01234567FromCoordinate<T(!new)>(R: Ring<T>, point: seq<T>, k: nat): T
    requires k <= |point|
    decreases |point| - k
  {
    if k == |point| then R.zero
    else
      var e := MleOf01234567FromCoordinate(R, point, k + 1);
      R.Add(R.Mul(R.Sub(R.one, point[k]), e), R.Mul(point[k], R.Add(R.FromNat(Pow2(|point| - k - 1)), e)))
  }

  function IndexValue<T(!new)>(R: Ring<T>): int -> T { (j: int) => if j >= 0 then R.FromNat(j) else R.zero }

  lemma {:induction false} FromNatAdd<T(!new)>(R: Ring<T>, a: nat, b: nat)
    requires R.IsRing()
    ensures R.FromNat(a + b) == R.Add(R.FromNat(a), R.FromNat(b))
  {
    hide Ring<T>.Add;
    if b == 0 {
      R.Units(R.FromNat(a));
    } else {
      FromNatAdd(R, a, b - 1);
      R.AddAssoc(R.FromNat(a), R.FromNat(b - 1), R.one);
    }
  }

  lemma MixShift<T(!new)>(R: Ring<T>, c: T, a: T, b: T, r: T)
    requires R.IsRing()
    ensures Mix(R, R.Add(c, a), R.Add(c, b), r) == R.Add(c, Mix(R, a, b, r))
  {
    hide Ring<T>.Add, Ring<T>.Mul, Ring<T>.Neg;
    MixSum(R, R.Add(c, a), R.Add(c, b), r);
    MixSum(R, a, b, r);
    ShiftedDifference(R, c, a, b);
    R.AddAssoc(c, a, R.Mul(r, R.Sub(b, a)));
  }

  lemma ShiftedDifference<T(!new)>(R: Ring<T>, c: T, a: T, b: T)
    requires R.IsRing()
    ensures R.Sub(R.Add(c, b), R.Add(c, a)) == R.Sub(b, a)
  {
    hide Ring<T>.Add, Ring<T>.Neg;
    R.NegAdd(c, a);
    R.AddSwap(c, b, R.Neg(c), R.Neg(a));
    R.Units(c);
    R.Units(R.Sub(b, a));
  }

  /** The extension of lo, lo + 1, ... is lo plus that of 0, 1, .... */
  lemma {:induction false} IndexMle<T(!new)>(R: Ring<T>, lo: nat, point: seq<T>, k: nat)
    requires R.IsRing() && k <= |point|
    ensures MleFrom(R, IndexValue(R), lo, point, k) == R.Add(R.FromNat(lo), MleOf01234567FromCoordinate(R, point, k))
    decreases |point| - k
  {
    hide Ring<T>.Add, Ring<T>.Mul, Ring<T>.Neg, Ring<T>.FromNat;
    if k == |point| {
      R.Units(R.FromNat(lo));
    } else {
      var half, e := Pow2(|point| - k - 1), MleOf01234567FromCoordinate(R, point, k + 1);
      IndexMle(R, lo, point, k + 1);
      IndexMle(R, lo + half, point, k + 1);
      FromNatAdd(R, lo, half);
      R.AddAssoc(R.FromNat(lo), R.FromNat(half), e);
      MixShift(R, R.FromNat(lo), e, R.Add(R.FromNat(half), e), point[k]);
    }
  }

  /** The recursive gadget is the sum of every index times its weight. */
  lemma MleOf01234567IsSum<T(!new)>(R: Ring<T>, point: seq<T>)
    requires R.IsRing()
    ensures MleOf01234567FromCoordinate(R, point, 0) == Mle(R, IndexValue(R), point)
    ensures MleOf01234567FromCoordinate(R, point, 0) == R.Sum(Weighted(R, IndexValue(R), 0, point, 0), Pow2(|point|))
  {
    hide Ring<T>.Add, Ring<T>.Mul, Ring<T>.Neg, Weighted, MleFrom;
    IndexMle(R, 0, point, 0);
    R.Units(MleOf01234567FromCoordinate(R, point, 0));
    MleIsWeightedSum(R, IndexValue(R), 0, point, 0);
  }

  // -- Zeros, then ones -----------------------------------------------------------------------------

  function ZerosThenOnes<T(!new)>(R: Ring<T>, nZeros: nat): int -> T {
    (j: int) => if j < nZeros then R.zero else R.one
  }

  /** The extension of the last 2^s entries, when the first `low` of them are zero. */
  lemma StepMle<T(!new)>(R: Ring<T>, point: seq<T>, s: nat, low: nat)
    requires R.IsRing() && s < |point| && low < Pow2(s)
    ensures var k := |point| - s - 1; var res := MleFrom(R, ZerosThenOnes(R, low), 0, point, k + 1);
            && MleFrom(R, ZerosThenOnes(R, low), 0, point, k) == R.Add(R.Mul(R.Sub(R.one, point[k]), res), point[k])
            && MleFrom(R, ZerosThenOnes(R, low + Pow2(s)), 0, point, k) == R.Mul(point[k], res)
  {
    hide Ring<T>.Add, Ring<T>.Mul, Ring<T>.Neg, MleFrom;
    var k, half := |point| - s - 1, Pow2(s);
    var p, res := point[k], MleFrom(R, ZerosThenOnes(R, low), 0, point, k + 1);
    ConstantMle(R, ZerosThenOnes(R, low), R.one, half, point, k + 1);
    R.Units(p);
    ConstantMle(R, ZerosThenOnes(R, low + half), R.zero, 0, point, k + 1);
    ShiftMle(R, low, half, point, k + 1, 0);
    R.MulZero(R.Sub(R.one, p));
    R.Units(R.Mul(p, res));
    MleUnfold(R, ZerosThenOnes(R, low), point, k);
    MleUnfold(R, ZerosThenOnes(R, low + half), point, k);
  }

  lemma MleUnfold<T(!new)>(R: Ring<T>, f: int -> T, point: seq<T>, k: nat)
    requires k < |point|
    ensures MleFrom(R, f, 0, point, k)
        == Mix(R, MleFrom(R, f, 0, point, k + 1), MleFrom(R, f, Pow2(|point| - k - 1), point, k + 1), point[k])
  {
  }

  lemma {:induction false} ShiftMle<T(!new)>(R: Ring<T>, low: nat, d: nat, point: seq<T>, k: nat, lo: nat)
    requires k <= |point|
    ensures MleFrom(R, ZerosThenOnes(R, low + d), lo + d, point, k) == MleFrom(R, ZerosThenOnes(R, low), lo, point, k)
    decreases |point| - k
  {
    hide Ring<T>.Add, Ring<T>.Mul, Ring<T>.Neg, Mix;
    if k < |point| {
      ShiftMle(R, low, d, point, k + 1, lo);
      ShiftMle(R, low, d, point, k + 1, lo + Pow2(|point| - k - 1));
      assert lo + Pow2(|point| - k - 1) + d == lo + d + Pow2(|point| - k - 1);
    }
  }

  /** Walks the bits of the number of zeros from the lowest: a zero bit prepends ones, a one bit prepends zeros. */
  method MleOfZerosThenOnes<T(!new)>(R: Ring<T>, point: seq<T>, nZeros: nat) returns (res: T)
    requires R.IsRing() && nZeros <= Pow2(|point|)
    ensures res == Mle(R, ZerosThenOnes(R, nZeros), point)
  {
    hide Ring<T>.Add, Ring<T>.Mul, Ring<T>.Neg, ZerosThenOnes, MleFrom;
    var nVars := |point|;
    if nVars == 0 {
      res := R.Sub(R.one, R.FromNat(nZeros));
      NoVariables(R, point, nZeros);
    } else if nZeros == Pow2(nVars) {
      res := R.zero;
      AllZeros(R, point);
    } else {
      res := R.one;
      NoZeros(R, point);
      var i := 0;
      while i < nVars
        invariant 0 <= i <= nVars && res == MleFrom(R, ZerosThenOnes(R, nZeros % Pow2(i)), 0, point, nVars - i)
      {
        var p := point[nVars - 1 - i];
        LowBits(nZeros, i);
        StepMle(R, point, i, nZeros % Pow2(i));
        if Bit(nZeros, i) == 0 {
          var tmp := R.Mul(R.Sub(R.one, p), res);
          res := R.Add(tmp, p);
        } else {
          res := R.Mul(p, res);
        }
        i := i + 1;
      }
      DivModUnique(nZeros, Pow2(nVars), 0, nZeros);
    }
  }

  lemma NoVariables<T(!new)>(R: Ring<T>, point: seq<T>, nZeros: nat)
    requires R.IsRing() && |point| == 0 && nZeros <= 1
    ensures R.Sub(R.one, R.FromNat(nZeros)) == Mle(R, ZerosThenOnes(R, nZeros), point)
  {
    R.NegZero();
    R.Units(R.one);
    if nZeros == 1 {
      assert R.FromNat(1) == R.Add(R.FromNat(0), R.one);
    }
  }

  lemma AllZeros<T(!new)>(R: Ring<T>, point: seq<T>)
    requires R.IsRing()
    ensures Mle(R, ZerosThenOnes(R, Pow2(|point|)), point) == R.zero
  {
    ConstantMle(R, ZerosThenOnes(R, Pow2(|point|)), R.zero, 0, point, 0);
  }

  lemma NoZeros<T(!new)>(R: Ring<T>, point: seq<T>)
    requires R.IsRing()
    ensures MleFrom(R, ZerosThenOnes(R, 0), 0, point, |point|) == R.one
  {
  }

  function Weights<T(!new)>(R: Ring<T>, point: seq<T>): int -> T { (j: int) => Eq(R, point, j) }

  lemma {:induction false} TailSum<T(!new)>(R: Ring<T>, point: seq<T>, z: nat, n: nat)
    requires R.IsRing()
    ensures R.Sum(Weighted(R, ZerosThenOnes(R, z), 0, point, 0), n) == if n <= z then R.zero
        else R.RangeSum(Weights(R, point), z, n - z)
  {
    hide Ring<T>.Add, Ring<T>.Mul, Ring<T>.Neg, EqFrom;
    if n > 0 {
      TailSum(R, point, z, n - 1);
      R.MulZero(Eq(R, point, n - 1));
      R.Units(Eq(R, point, n - 1));
      R.Units(R.zero);
    }
  }

  /** What the two gadgets compute is the sum of the weights of the indices from nZeros on. */
  lemma ZerosThenOnesIsTail<T(!new)>(R: Ring<T>, point: seq<T>, nZeros: nat)
    requires R.IsRing() && nZeros <= Pow2(|point|)
    ensures Mle(R, ZerosThenOnes(R, nZeros), point) == R.RangeSum(Weights(R, point), nZeros, Pow2(|point|) - nZeros)
  {
    hide Ring<T>.Add, Ring<T>.Mul, Ring<T>.Neg, EqFrom, Weighted, ZerosThenOnes, MleFrom;
    MleIsWeightedSum(R, ZerosThenOnes(R, nZeros), 0, point, 0);
    TailSum(R, point, nZeros, Pow2(|point|));
  }

  /** 1 minus the weight of the first block of 2^logNZeros entries. */
  method MleOfZerosThenOnesPow2<T(!new)>(R: Ring<T>, point: seq<T>, logNZeros: nat) returns (res: T)
    requires R.IsRing() && logNZeros <= |point|
    ensures res == Mle(R, ZerosThenOnes(R, Pow2(logNZeros)), point)
  {
    hide Ring<T>.Add, Ring<T>.Mul, Ring<T>.Neg, ZerosThenOnes, MleFrom;
    if logNZeros == |point| {
      AllZeros(R, point);
      return R.zero;
    }
    var nFactors := |point| - logNZeros;
    var prod := R.Sub(R.one, point[0]);
    R.Units(prod);
    var i := 1;
    while i < nFactors
      invariant 1 <= i <= nFactors && prod == Complements(R, point, i)
    {
      prod := R.Mul(prod, R.Sub(R.one, point[i]));
      i := i + 1;
    }
    res := R.Sub(R.one, prod);
    LeadingBlock(R, point, logNZeros, 0);
    ComplementsSplit(R, point, 0, nFactors);
    R.Units(ComplementsFrom(R, point, 0, nFactors));
  }

  /** (1 - p_0) * ... * (1 - p_(n-1)) */
  function Complements<T(!new)>(R: Ring<T>, point: seq<T>, n: nat): T
    requires n <= |point|
  {
    if n == 0 then R.one else R.Mul(Complements(R, point, n - 1), R.Sub(R.one, point[n - 1]))
  }

  function ComplementsFrom<T(!new)>(R: Ring<T>, point: seq<T>, k: nat, n: nat): T
    requires k <= n <= |point|
    decreases n - k
  {
    if k == n then R.one else R.Mul(R.Sub(R.one, point[k]), ComplementsFrom(R, point, k + 1, n))
  }

  lemma {:induction false} ComplementsSplit<T(!new)>(R: Ring<T>, point: seq<T>, k: nat, n: nat)
    requires R.IsRing() && k <= n <= |point|
    ensures Complements(R, point, n) == R.Mul(Complements(R, point, k), ComplementsFrom(R, point, k, n))
    decreases n - k
  {
    hide Ring<T>.Add, Ring<T>.Mul, Ring<T>.Neg;
    if k == n {
      R.Units(Complements(R, point, n));
    } else {
      ComplementsSplit(R, point, k + 1, n);
      R.MulAssoc(Complements(R, point, k), R.Sub(R.one, point[k]), ComplementsFrom(R, point, k + 1, n));
    }
  }

  lemma {:induction false} LeadingBlock<T(!new)>(R: Ring<T>, point: seq<T>, log: nat, k: nat)
    requires R.IsRing() && log + k <= |point|
    ensures MleFrom(R, ZerosThenOnes(R, Pow2(log)), 0, point, k)
        == R.Sub(R.one, ComplementsFrom(R, point, k, |point| - log))
    decreases |point| - k
  {
    hide Ring<T>.Add, Ring<T>.Mul, Ring<T>.Neg, MleFrom;
    if k == |point| - log {
      ConstantMle(R, ZerosThenOnes(R, Pow2(log)), R.zero, 0, point, k);
      R.SubSelf(R.one);
    } else {
      var half, p := Pow2(|point| - k - 1), point[k];
      Pow2Grows(log, |point| - k - 1);
      LeadingBlock(R, point, log, k + 1);
      ConstantMle(R, ZerosThenOnes(R, Pow2(log)), R.one, half, point, k + 1);
      MleUnfold(R, ZerosThenOnes(R, Pow2(log)), point, k);
      ComplementStep(R, p, ComplementsFrom(R, point, k + 1, |point| - log));
    }
  }

  lemma ComplementStep<T(!new)>(R: Ring<T>, p: T, c: T)
    requires R.IsRing()
    ensures Mix(R, R.Sub(R.one, c), R.one, p) == R.Sub(R.one, R.Mul(R.Sub(R.one, p), c))
  {
    hide Ring<T>.Add, Ring<T>.Mul, Ring<T>.Neg;
    var q := R.Sub(R.one, p);
    R.SubMul(R.one, c, q);
    R.Units(q);
    R.Units(p);
    Regroup(R, q, R.Mul(q, c), p);
    R.SubAdd(R.one, p);
    R.AddComm(p, R.Neg(R.Mul(q, c)));
    R.AddAssoc(q, p, R.Neg(R.Mul(q, c)));
  }
}
