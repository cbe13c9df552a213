/** Multilinear extensions of vectors of length 2^n, over any commutative ring. */
module Multilinear {
  import opened Arith
  import opened Rings

  /** (1 - r) * a + r * b */
  function Mix<T(!new)>(R: Ring<T>, a: T, b: T, r: T): T {
    R.Add(R.Mul(R.Sub(R.one, r), a), R.Mul(r, b))
  }

  /** The extension of f(lo), ..., f(lo + 2^(n-k) - 1) at the coordinates from k on; coordinate k is the highest bit. */
  function MleFrom<T(!new)>(R: Ring<T>, f: int -> T, lo: int, point: seq<T>, k: nat): T
    requires k <= |point|
    decreases |point| - k
  {
    if k == |point| then f(lo)
    else Mix(R, MleFrom(R, f, lo, point, k + 1), MleFrom(R, f, lo + Pow2(|point| - k - 1), point, k + 1), point[k])
  }

  /** The extension of f(0), ..., f(2^|point| - 1) at a point whose first coordinate is the highest bit of the index. */
  function Mle<T(!new)>(R: Ring<T>, f: int -> T, point: seq<T>): T {
    MleFrom(R, f, 0, point, 0)
  }

  /** The weight of index j in the extension: one factor x or 1 - x for each bit. */
  function EqFrom<T(!new)>(R: Ring<T>, point: seq<T>, k: nat, j: int): T
    requires k <= |point|
    decreases |point| - k
  {
    if k == |point| then R.one
    else
      var half := Pow2(|point| - k - 1);
      if j < half then R.Mul(R.Sub(R.one, point[k]), EqFrom(R, point, k + 1, j))
      else R.Mul(point[k], EqFrom(R, point, k + 1, j - half))
  }

  function Eq<T(!new)>(R: Ring<T>, point: seq<T>, j: int): T {
    EqFrom(R, point, 0, j)
  }

  lemma MixSum<T(!new)>(R: Ring<T>, a: T, b: T, r: T)
    requires R.IsRing()
    ensures Mix(R, a, b, r) == R.Add(a, R.Mul(r, R.Sub(b, a)))
    ensures Mix(R, a, b, r) == R.Add(R.Mul(R.Sub(b, a), r), a)
  {
    R.SubMul(R.one, r, a);
    R.Units(a);
    R.SubMul(b, a, r);
    R.MulComm(r, R.Sub(b, a));
    Regroup(R, a, R.Mul(r, a), R.Mul(r, b));
    R.AddComm(a, R.Mul(r, R.Sub(b, a)));
  }

  lemma Regroup<T(!new)>(R: Ring<T>, a: T, b: T, c: T)
    requires R.IsRing()
    ensures R.Add(R.Sub(a, b), c) == R.Add(a, R.Sub(c, b))
  {
    R.Ac();
  }

  /** The weights of the lower half carry the factor 1 - r, those of the upper half r. */
  lemma EqHalves<T(!new)>(R: Ring<T>, point: seq<T>, k: nat, j: int, v: T)
    requires R.IsRing() && k < |point| && 0 <= j < Pow2(|point| - k - 1)
    ensures R.Mul(EqFrom(R, point, k, j), v) == R.Mul(R.Sub(R.one, point[k]), R.Mul(EqFrom(R, point, k + 1, j), v))
    ensures R.Mul(EqFrom(R, point, k, j + Pow2(|point| - k - 1)), v)
        == R.Mul(point[k], R.Mul(EqFrom(R, point, k + 1, j), v))
  {
    R.MulAssoc(R.Sub(R.one, point[k]), EqFrom(R, point, k + 1, j), v);
    R.MulAssoc(point[k], EqFrom(R, point, k + 1, j), v);
  }

  /** A sum over two halves, each with its own factor. */
  lemma HalvesAddUp<T(!new)>(R: Ring<T>, g: int -> T, tail: int -> T, low: int -> T, high: int -> T, half: nat, r: T)
    requires R.IsRing()
    requires forall j {:trigger tail(j)} :: 0 <= j < half ==> tail(j) == g(half + j) && tail(j) == R.Mul(r, high(j))
    requires forall j {:trigger g(j)} :: 0 <= j < half ==> g(j) == R.Mul(R.Sub(R.one, r), low(j))
    ensures R.Sum(g, 2 * half) == Mix(R, R.Sum(low, half), R.Sum(high, half), r)
  {
    hide Ring<T>.IsRing, Ring<T>.Add, Ring<T>.Mul, Ring<T>.Neg;
    R.SumSplit(g, tail, half, half);
    R.SumScale(R.Sub(R.one, r), low, g, half);
    R.SumScale(r, high, tail, half);
  }

  /** The values from lo on, each with its weight. */
  function Weighted<T(!new)>(R: Ring<T>, f: int -> T, lo: int, point: seq<T>, k: nat): int -> T
    requires k <= |point|
  {
    (j: int) => R.Mul(EqFrom(R, point, k, j), f(lo + j))
  }

  lemma HalfTerms<T(!new)>(R: Ring<T>, f: int -> T, lo: int, point: seq<T>, k: nat, j: int)
    requires R.IsRing() && k < |point| && 0 <= j < Pow2(|point| - k - 1)
    ensures var half, g := Pow2(|point| - k - 1), Weighted(R, f, lo, point, k);
            && g(j) == R.Mul(R.Sub(R.one, point[k]), Weighted(R, f, lo, point, k + 1)(j))
            && Shifted(g, half)(j) == g(half + j) == R.Mul(point[k], Weighted(R, f, lo + half, point, k + 1)(j))
  {
    hide EqFrom, Ring<T>.IsRing, Ring<T>.Add, Ring<T>.Mul, Ring<T>.Neg;
    var half := Pow2(|point| - k - 1);
    EqHalves(R, point, k, j, f(lo + j));
    EqHalves(R, point, k, j, f(lo + half + j));
    assert lo + half + j == lo + (half + j) && half + j == j + half;
  }

  /** The extension is the sum of the values, each with its weight. */
  lemma {:induction false} MleIsWeightedSum<T(!new)>(R: Ring<T>, f: int -> T, lo: int, point: seq<T>, k: nat)
    requires R.IsRing() && k <= |point|
    ensures R.Sum(Weighted(R, f, lo, point, k), Pow2(|point| - k)) == MleFrom(R, f, lo, point, k)
    decreases |point| - k
  {
    hide Weighted, Mix, EqFrom, Ring<T>.Add, Ring<T>.Mul, Ring<T>.Neg;
    if k == |point| {
      LastTerm(R, f, lo, point);
    } else {
      MleIsWeightedSum(R, f, lo, point, k + 1);
      MleIsWeightedSum(R, f, lo + Pow2(|point| - k - 1), point, k + 1);
      SumHalves(R, f, lo, point, k);
    }
  }

  lemma LastTerm<T(!new)>(R: Ring<T>, f: int -> T, lo: int, point: seq<T>)
    requires R.IsRing()
    ensures R.Sum(Weighted(R, f, lo, point, |point|), 1) == f(lo)
  {
    OneTerm(R, Weighted(R, f, lo, point, |point|));
    R.Units(f(lo));
  }

  lemma SumHalves<T(!new)>(R: Ring<T>, f: int -> T, lo: int, point: seq<T>, k: nat)
    requires R.IsRing() && k < |point|
    ensures var half := Pow2(|point| - k - 1);
            R.Sum(Weighted(R, f, lo, point, k), 2 * half) ==
            Mix(R, R.Sum(Weighted(R, f, lo, point, k + 1), half), R.Sum(Weighted(R, f, lo + half, point, k + 1), half),
                point[k])
  {
    hide Weighted, Shifted, Mix, EqFrom, Ring<T>.Add, Ring<T>.Mul, Ring<T>.Neg;
    var half, g := Pow2(|point| - k - 1), Weighted(R, f, lo, point, k);
    var tail, low, high := Shifted(g, half), Weighted(R, f, lo, point, k + 1), Weighted(R, f, lo + half, point, k + 1);
    forall j {:trigger g(j)} {:trigger tail(j)} | 0 <= j < half
      ensures g(j) == R.Mul(R.Sub(R.one, point[k]), low(j))
      ensures tail(j) == g(half + j) && tail(j) == R.Mul(point[k], high(j))
    {
      HalfTerms(R, f, lo, point, k, j);
    }
    HalvesAddUp(R, g, tail, low, high, half, point[k]);
  }

  lemma OneTerm<T(!new)>(R: Ring<T>, g: int -> T)
    requires R.IsRing()
    ensures R.Sum(g, 1) == g(0)
  {
    R.Units(g(0));
    assert R.Sum(g, 1) == R.Add(R.Sum(g, 0), g(0));
  }

  /** The extension sees only the values in its range. */
  lemma {:induction false} MleAgrees<T(!new)>(R: Ring<T>, f: int -> T, g: int -> T, lo: int, point: seq<T>, k: nat)
    requires k <= |point|
    requires forall i {:trigger f(i)} {:trigger g(i)} :: lo <= i < lo + Pow2(|point| - k) ==> f(i) == g(i)
    ensures MleFrom(R, f, lo, point, k) == MleFrom(R, g, lo, point, k)
    decreases |point| - k
  {
    hide Ring<T>.Add, Ring<T>.Mul, Ring<T>.Neg;
    if k < |point| {
      var half := Pow2(|point| - k - 1);
      MleAgrees(R, f, g, lo, point, k + 1);
      MleAgrees(R, f, g, lo + half, point, k + 1);
    }
  }

  // -- Two points --------------------------------------------------------------------------------------------

  /** The factor of one coordinate: x y + (1 - x) (1 - y). */
  function EqTwo<T(!new)>(R: Ring<T>, x: T, y: T): T {
    R.Add(R.Mul(x, y), R.Mul(R.Sub(R.one, x), R.Sub(R.one, y)))
  }

  /** poly_eq: the product of the factors of the coordinates from k on. */
  function PolyEq<T(!new)>(R: Ring<T>, x: seq<T>, y: seq<T>, k: nat): T
    requires k <= |x| == |y|
    decreases |x| - k
  {
    if k == |x| then R.one else R.Mul(EqTwo(R, x[k], y[k]), PolyEq(R, x, y, k + 1))
  }

  /** The weight of j at x times the weight of j + gap at y. */
  function WeightPairs<T(!new)>(R: Ring<T>, x: seq<T>, y: seq<T>, k: nat, gap: nat): int -> T
    requires k <= |x| == |y|
  {
    (j: int) => R.Mul(EqFrom(R, x, k, j), EqFrom(R, y, k, j + gap))
  }

  /** In the same half both weights carry the factor of that half. */
  lemma PairHalves<T(!new)>(R: Ring<T>, x: seq<T>, y: seq<T>, k: nat, gap: nat, j: nat)
    requires R.IsRing() && k < |x| == |y| && j + gap < Pow2(|x| - k - 1)
    ensures var half, f, g := Pow2(|x| - k - 1), WeightPairs(R, x, y, k, gap), WeightPairs(R, x, y, k + 1, gap);
            && f(j) == R.Mul(R.Mul(R.Sub(R.one, x[k]), R.Sub(R.one, y[k])), g(j))
            && f(half + j) == R.Mul(R.Mul(x[k], y[k]), g(j))
  {
    hide Ring<T>.IsRing, Ring<T>.Add, Ring<T>.Mul, Ring<T>.Neg;
    var half, a, b := Pow2(|x| - k - 1), EqFrom(R, x, k + 1, j), EqFrom(R, y, k + 1, j + gap);
    assert half + j + gap - half == j + gap && half + j - half == j;
    R.MulSwap(R.Sub(R.one, x[k]), a, R.Sub(R.one, y[k]), b);
    R.MulSwap(x[k], a, y[k], b);
  }

  /** For all points the product is the sum over the corners of the weights at both points. */
  lemma {:induction false} PolyEqIsSum<T(!new)>(R: Ring<T>, x: seq<T>, y: seq<T>, k: nat)
    requires R.IsRing() && k <= |x| == |y|
    ensures PolyEq(R, x, y, k) == R.Sum(WeightPairs(R, x, y, k, 0), Pow2(|x| - k))
    decreases |x| - k
  {
    hide Ring<T>.IsRing, Ring<T>.Add, Ring<T>.Mul, Ring<T>.Neg;
    var f := WeightPairs(R, x, y, k, 0);
    if k == |x| {
      OneTerm(R, f);
      R.Units(R.one);
    } else {
      hide WeightPairs;
      var half, g := Pow2(|x| - k - 1), WeightPairs(R, x, y, k + 1, 0);
      forall j | 0 <= j < half
        ensures f(j) == R.Mul(R.Mul(R.Sub(R.one, x[k]), R.Sub(R.one, y[k])), g(j))
        ensures f(half + j) == R.Mul(R.Mul(x[k], y[k]), g(j))
      {
        PairHalves(R, x, y, k, 0, j);
      }
      PolyEqIsSum(R, x, y, k + 1);
      TwoScaledHalves(R, f, g, half, half, R.Mul(R.Sub(R.one, x[k]), R.Sub(R.one, y[k])), R.Mul(x[k], y[k]));
      R.AddComm(R.Mul(x[k], y[k]), R.Mul(R.Sub(R.one, x[k]), R.Sub(R.one, y[k])));
      R.Distribute(R.Sum(g, half), R.Mul(R.Sub(R.one, x[k]), R.Sub(R.one, y[k])), R.Mul(x[k], y[k]));
    }
  }

  /** Terms that are g scaled by a, and from m on again g scaled by b. */
  lemma TwoScaledHalves<T(!new)>(R: Ring<T>, f: int -> T, g: int -> T, m: nat, n: nat, a: T, b: T)
    requires R.IsRing()
    requires forall j :: 0 <= j < m ==> f(j) == R.Mul(a, g(j))
    requires forall j :: 0 <= j < n ==> f(m + j) == R.Mul(b, g(j))
    ensures R.Sum(f, m + n) == R.Add(R.Mul(a, R.Sum(g, m)), R.Mul(b, R.Sum(g, n)))
  {
    hide Ring<T>.IsRing, Ring<T>.Add, Ring<T>.Mul, Ring<T>.Neg;
    R.SumScale(a, g, f, m);
    R.SumSplit(f, Shifted(f, m), m, n);
    R.SumScale(b, g, Shifted(f, m), n);
  }
}
