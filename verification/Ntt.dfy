/** The number-theoretic transform of the tensor code, defined by its evaluation points, and its inverse. */
module NegacyclicNtt {
  import opened Arith
  import opened Rings
  import opened Polynomials
  import opened BitReversal
  import opened RootsOfUnity
  import opened Interpolation
  import MleGadgets

  datatype NttPlan<T> = NttPlan(logN: nat, psi: T, nInv: T, evalPts: seq<T>)

  /** The plan for size 2^logN, given the 2N-th root the transform library works with. */
  function NewPlan<T(!new)>(R: Ring<T>, logN: nat, psi: T): NttPlan<T> {
    NttPlan(logN, psi, R.Inv(R.FromNat(Pow2(logN))),
        seq(Pow2(logN), (k: int) requires k >= 0 => R.Pow(psi, 2 * Rev(k, logN) + 1)))
  }

  /** The constructor's table and scale, for the root the library was probed for. */
  method NewNttPlan<T(!new)>(R: Ring<T>, logN: nat, psi: T) returns (plan: NttPlan<T>)
    requires R.IsRing()
    ensures plan == NewPlan(R, logN, psi)
  {
    hide Rev, Ring<T>.Pow;
    var n := Pow2(logN);
    var evalPts := [];
    for k := 0 to n
      invariant |evalPts| == k && evalPts == NewPlan(R, logN, psi).evalPts[..k]
    {
      var r := BitReverse(k, logN);
      evalPts := evalPts + [R.Pow(psi, 2 * r + 1)];
    }
    plan := NttPlan(logN, psi, R.Inv(R.FromNat(n)), evalPts);
  }

  /**
   * The order of the evaluation points: neighbours are opposite, and their squares are the points of the plan of half
   * the size, in its order.
   */
  lemma PlanHalves<T(!new)>(R: Ring<T>, logN: nat, psi: T, k: nat)
    requires IsRoot(R, psi, logN + 2) && k < Pow2(logN)
    ensures NewPlan(R, 0, psi).evalPts == [psi]
    ensures var whole, half := NewPlan(R, logN + 1, psi).evalPts, NewPlan(R, logN, R.Mul(psi, psi)).evalPts;
            && whole[2 * k + 1] == R.Neg(whole[2 * k])
            && R.Mul(whole[2 * k], whole[2 * k]) == half[k]
  {
    hide Ring<T>.Add, Ring<T>.Mul, Ring<T>.Neg, Ring<T>.Pow, Ring<T>.IsRing, Rev, Pow2;
    RevZero(0);
    PowZero();
    RevChildren(k, logN);
    PowerStep(logN);
    OppositePowers(R, psi, Pow2(logN + 1), 2 * Rev(k, logN) + 1);
    FirstPower(R, psi);
  }

  lemma OppositePowers<T(!new)>(R: Ring<T>, x: T, n: nat, e: nat)
    requires R.IsRing() && R.Pow(x, n) == R.Neg(R.one)
    ensures R.Pow(x, n + e) == R.Neg(R.Pow(x, e)) && R.Mul(R.Pow(x, e), R.Pow(x, e)) == R.Pow(R.Mul(x, x), e)
  {
    hide Ring<T>.Add, Ring<T>.Mul, Ring<T>.Neg, Ring<T>.Pow;
    R.PowAdd(x, n, e);
    R.MulNeg(R.Pow(x, e), R.one);
    R.Units(R.Pow(x, e));
    R.PowDistributes(x, x, e);
  }

  lemma FirstPower<T(!new)>(R: Ring<T>, x: T)
    requires R.IsRing()
    ensures R.Pow(x, 1) == x
  {
    assert R.Pow(x, 1) == R.Mul(x, R.Pow(x, 0));
    R.Units(x);
  }

  ghost predicate ValidPlan<T(!new)>(R: Ring<T>, plan: NttPlan<T>) {
    IsRoot(R, plan.psi, plan.logN + 1) && plan == NewPlan(R, plan.logN, plan.psi)
  }

  /** Output k is the value of the polynomial at evaluation point k. */
  function Fwd<T(!new)>(R: Ring<T>, plan: NttPlan<T>, data: seq<T>): (out: seq<T>)
    requires |data| == |plan.evalPts|
    ensures |out| == |data|
  {
    seq(|data|, (k: int) requires 0 <= k < |data| => PolyEval(R, data, plan.evalPts[k]))
  }

  /** evals[t] * x_t^(-i) */
  function Moment<T(!new)>(R: Ring<T>, plan: NttPlan<T>, evals: seq<T>, i: nat): int -> T
    requires |evals| == |plan.evalPts|
  {
    (t: int) => if 0 <= t < |evals| then R.Mul(evals[t], R.Pow(R.Inv(plan.evalPts[t]), i)) else R.zero
  }

  function Inverse<T(!new)>(R: Ring<T>, plan: NttPlan<T>, evals: seq<T>): (out: seq<T>)
    requires |evals| == |plan.evalPts|
    ensures |out| == |evals|
  {
    seq(|evals|, (i: int) requires 0 <= i < |evals| => R.Mul(R.Sum(Moment(R, plan, evals, i), |evals|), plan.nInv))
  }

  // -- Sums in bit-reversed order -------------------------------------------------------------------

  function Strand<T>(f: int -> T, b: int): int -> T { (j: int) => f(2 * j + b) }

  lemma {:induction false} EvenOddSum<T(!new)>(R: Ring<T>, f: int -> T, h: nat)
    requires R.IsRing()
    ensures R.Sum(f, 2 * h) == R.Add(R.Sum(Strand(f, 0), h), R.Sum(Strand(f, 1), h))
  {
    hide Ring<T>.Add, Ring<T>.Mul, Ring<T>.Neg;
    if h == 0 {
      R.Units(R.zero);
    } else {
      EvenOddSum(R, f, h - 1);
      var e, o := f(2 * h - 2), f(2 * h - 1);
      assert Strand(f, 0)(h - 1) == e && Strand(f, 1)(h - 1) == o;
      assert R.Sum(f, 2 * h) == R.Add(R.Add(R.Sum(f, 2 * h - 2), e), o);
      R.AddAssoc(R.Sum(f, 2 * h - 2), e, o);
      R.AddSwap(R.Sum(Strand(f, 0), h - 1), R.Sum(Strand(f, 1), h - 1), e, o);
    }
  }

  lemma TwoHalves<T(!new)>(R: Ring<T>, g: int -> T, h: nat)
    requires R.IsRing()
    ensures R.Sum(g, 2 * h) == R.Add(R.Sum(g, h), R.Sum(Shifted(g, h), h))
  {
    hide Ring<T>.Add, Ring<T>.Mul, Ring<T>.Neg;
    R.SumSplit(g, Shifted(g, h), h, h);
  }

  /** A sum does not depend on the order of its terms; here the order is bit-reversed. */
  lemma {:induction false} SumReversed<T(!new)>(R: Ring<T>, f: int -> T, g: int -> T, L: nat)
    requires R.IsRing()
    requires forall k {:trigger g(k)} :: 0 <= k < Pow2(L) ==> g(k) == f(Rev(k, L))
    ensures R.Sum(g, Pow2(L)) == R.Sum(f, Pow2(L))
  {
    hide Ring<T>.Add, Ring<T>.Mul, Ring<T>.Neg, Ring<T>.Sum, Rev, Strand, Shifted;
    if L == 0 {
      assert Rev(0, 0) < Pow2(0);
      R.SumEq(f, g, 1);
    } else {
      var h := Pow2(L - 1);
      HalfReversed(f, g, L);
      SumReversed(R, Strand(f, 0), g, L - 1);
      SumReversed(R, Strand(f, 1), Shifted(g, h), L - 1);
      TwoHalves(R, g, h);
      EvenOddSum(R, f, h);
    }
  }

  lemma HalfReversed<T(!new)>(f: int -> T, g: int -> T, L: nat)
    requires L > 0 && forall k {:trigger g(k)} :: 0 <= k < Pow2(L) ==> g(k) == f(Rev(k, L))
    ensures var h, high := Pow2(L - 1), Shifted(g, Pow2(L - 1));
            && (forall k {:trigger g(k)} :: 0 <= k < h ==> g(k) == Strand(f, 0)(Rev(k, L - 1)))
            && (forall k {:trigger high(k)} :: 0 <= k < h ==> high(k) == Strand(f, 1)(Rev(k, L - 1)))
  {
    hide Rev;
    var h, high := Pow2(L - 1), Shifted(g, Pow2(L - 1));
    forall k {:trigger g(k)} | 0 <= k < h ensures g(k) == Strand(f, 0)(Rev(k, L - 1)) { RevTop(k, L); }
    forall k {:trigger high(k)} | 0 <= k < h ensures high(k) == Strand(f, 1)(Rev(k, L - 1)) { RevTop(h + k, L); }
  }

  // -- The points -----------------------------------------------------------------------------------

  /** psi^(2 j + 1) = psi * omega^j for omega = psi^2, which is a root of order N. */
  lemma OddPower<T(!new)>(R: Ring<T>, psi: T, j: nat)
    requires R.IsRing()
    ensures R.Pow(psi, 2 * j + 1) == Point(R, psi, R.Mul(psi, psi), j)
  {
    hide Ring<T>.Add, Ring<T>.Mul, Ring<T>.Neg;
    R.PowMul(psi, 2, j);
    assert R.Pow(psi, 2) == R.Mul(psi, psi) by {
      assert R.Pow(psi, 2) == R.Mul(psi, R.Pow(psi, 1));
      assert R.Pow(psi, 1) == R.Mul(psi, R.Pow(psi, 0));
      R.Units(psi);
    }
    assert R.Pow(psi, 2 * j + 1) == R.Mul(psi, R.Pow(psi, 2 * j));
  }

  lemma SquareIsRoot<T(!new)>(R: Ring<T>, psi: T, L: nat)
    requires IsRoot(R, psi, L + 1)
    ensures IsRoot(R, R.Mul(psi, psi), L) && psi != R.zero
  {
    hide Ring<T>.Add, Ring<T>.Mul, Ring<T>.Neg, Ring<T>.Inv;
    FullOrder(R, psi, L + 1);
    assert R.Pow(psi, Pow2(L)) == R.Neg(R.one);
    if L == 0 {
      assert R.Pow(psi, 1) == R.Mul(psi, R.Pow(psi, 0));
      R.Units(psi);
      R.MulNeg(psi, R.one);
      R.NegNeg(R.one);
    } else {
      R.PowDistributes(psi, psi, Pow2(L - 1));
      R.PowAdd(psi, Pow2(L - 1), Pow2(L - 1));
    }
  }

  lemma PlanPoint<T(!new)>(R: Ring<T>, plan: NttPlan<T>, k: nat)
    requires ValidPlan(R, plan) && k < |plan.evalPts|
    ensures |plan.evalPts| == Pow2(plan.logN)
    ensures plan.evalPts[k] == Point(R, plan.psi, R.Mul(plan.psi, plan.psi), Rev(k, plan.logN))
  {
    OddPower(R, plan.psi, Rev(k, plan.logN));
  }

  /** The probe: the transform of the monomial x has psi at position 0. */
  lemma ProbeFindsPsi<T(!new)>(R: Ring<T>, plan: NttPlan<T>, probe: seq<T>)
    requires ValidPlan(R, plan) && plan.logN > 0 && |probe| == |plan.evalPts|
    requires forall i :: 0 <= i < |probe| ==> probe[i] == if i == 1 then R.one else R.zero
    ensures |probe| > 0 && Fwd(R, plan, probe)[0] == plan.psi
  {
    hide Ring<T>.Add, Ring<T>.Mul, Ring<T>.Neg, Rev;
    RevZero(plan.logN);
    var x := plan.evalPts[0];
    assert x == R.Pow(plan.psi, 1);
    assert R.Pow(plan.psi, 1) == R.Mul(plan.psi, R.Pow(plan.psi, 0));
    R.Units(x);
    R.Units(plan.psi);
    StridedZero(R, probe, 2, x);
    assert Strided(R, probe, 1, 1, |probe| - 1, x) == R.Add(R.one, R.Mul(x, Strided(R, probe, 2, 1, |probe| - 2, x)));
    R.MulZero(x);
    R.Units(R.one);
  }

  lemma {:induction false} RevZero(bits: nat)
    ensures Rev(0, bits) == 0
  {
    if bits > 0 { RevZero(bits - 1); }
  }

  // -- N is invertible --------------------------------------------------------------------------------

  lemma {:induction false} PowerOfTwoNonZero<T(!new)>(R: Ring<T>, L: nat)
    requires R.IsField() && R.Neg(R.one) != R.one
    ensures R.FromNat(Pow2(L)) != R.zero
  {
    hide Ring<T>.Add, Ring<T>.Mul, Ring<T>.Neg, Ring<T>.Inv;
    if L == 0 {
      assert R.FromNat(1) == R.Add(R.FromNat(0), R.one);
      R.Units(R.one);
    } else {
      var a, two := R.FromNat(Pow2(L - 1)), R.Add(R.one, R.one);
      PowerOfTwoNonZero(R, L - 1);
      MleGadgets.FromNatAdd(R, Pow2(L - 1), Pow2(L - 1));
      R.Distribute(a, R.one, R.one);
      R.Units(a);
      if two == R.zero { R.NegUnique(R.one, R.one); }
      R.NonZeroProduct(a, two);
    }
  }

  lemma NInvLaw<T(!new)>(R: Ring<T>, plan: NttPlan<T>)
    requires ValidPlan(R, plan)
    ensures R.Mul(R.FromNat(Pow2(plan.logN)), plan.nInv) == R.one
  {
    PowerOfTwoNonZero(R, plan.logN);
    R.InvLaw(R.FromNat(Pow2(plan.logN)));
  }

  // -- The transforms undo each other -------------------------------------------------------------------

  lemma PlanField<T(!new)>(R: Ring<T>, plan: NttPlan<T>)
    requires ValidPlan(R, plan)
    ensures R.IsField() && R.IsRing()
  {
  }

  /** The i-th sum of the inverse, over the points in their natural order. */
  lemma MomentSum<T(!new)>(R: Ring<T>, plan: NttPlan<T>, c: seq<T>, i: nat)
    requires ValidPlan(R, plan) && |c| == |plan.evalPts| && i < |c|
    ensures R.Sum(Moment(R, plan, Fwd(R, plan, c), i), |c|) == R.Mul(R.FromNat(|c|), c[i])
  {
    hide Ring<T>.Add, Ring<T>.Mul, Ring<T>.Neg, Ring<T>.Inv, Rev, PolyEval, IsRoot, Point;
    var L, psi := plan.logN, plan.psi;
    var omega := R.Mul(psi, psi);
    SquareIsRoot(R, psi, L);
    PlanField(R, plan);
    var e := (j: int) => if j >= 0 then PolyEval(R, c, Point(R, psi, omega, j)) else R.zero;
    var f := (j: int) => if j >= 0 then R.Mul(e(j), R.Pow(R.Inv(Point(R, psi, omega, j)), i)) else R.zero;
    CosetMoment(R, psi, omega, L, c, e, i, f);
    var g := Moment(R, plan, Fwd(R, plan, c), i);
    forall k {:trigger g(k)} | 0 <= k < Pow2(L) ensures g(k) == f(Rev(k, L)) { PlanPoint(R, plan, k); }
    SumReversed(R, f, g, L);
  }

  lemma InverseUndoesFwd<T(!new)>(R: Ring<T>, plan: NttPlan<T>, c: seq<T>)
    requires ValidPlan(R, plan) && |c| == |plan.evalPts|
    ensures Inverse(R, plan, Fwd(R, plan, c)) == c
  {
    hide Ring<T>.Add, Ring<T>.Mul, Ring<T>.Neg, Ring<T>.Inv, IsRoot, PolyEval, Fwd, Moment, Ring<T>.Sum;
    PlanField(R, plan);
    NInvLaw(R, plan);
    var n := R.FromNat(|c|);
    forall i | 0 <= i < |c| ensures Inverse(R, plan, Fwd(R, plan, c))[i] == c[i] {
      MomentSum(R, plan, c, i);
      R.MulComm(n, c[i]);
      R.MulAssoc(c[i], n, plan.nInv);
      R.Units(c[i]);
    }
  }

  /** The ratio of two points is a power of omega. */
  lemma PointRatio<T(!new)>(R: Ring<T>, g: T, omega: T, a: nat, b: nat)
    requires R.IsField() && g != R.zero && omega != R.zero
    ensures R.Mul(R.Inv(Point(R, g, omega, b)), Point(R, g, omega, a)) == R.Mul(R.Pow(omega, a), R.Pow(R.Inv(omega), b))
  {
    hide Ring<T>.Add, Ring<T>.Mul, Ring<T>.Neg, Ring<T>.Inv;
    PointNonZero(R, g, omega, b);
    var p, q := R.Pow(omega, a), R.Pow(R.Inv(omega), b);
    R.MulSwap(R.Inv(g), q, g, p);
    R.InvLaw(g);
    R.MulComm(p, q);
    R.Units(R.Mul(p, q));
  }

  /** v * (x_k / x_t)^i, summed over i, is N v when the points agree and 0 otherwise. */
  lemma RatioSum<T(!new)>(R: Ring<T>, plan: NttPlan<T>, v: T, t: nat, k: nat, f: int -> T)
    requires ValidPlan(R, plan) && t < |plan.evalPts| && k < |plan.evalPts|
    requires forall i {:trigger f(i)} :: 0 <= i < |plan.evalPts| ==>
        f(i) == R.Mul(v, R.Mul(R.Pow(R.Inv(plan.evalPts[t]), i), R.Pow(plan.evalPts[k], i)))
    ensures R.Sum(f, |plan.evalPts|) == if t == k then R.Mul(v, R.FromNat(|plan.evalPts|)) else R.zero
  {
    hide Ring<T>.Add, Ring<T>.Mul, Ring<T>.Neg, Ring<T>.Inv, IsRoot, Rev, Point;
    var L, psi, omega := plan.logN, plan.psi, R.Mul(plan.psi, plan.psi);
    PlanField(R, plan);
    SquareIsRoot(R, psi, L);
    FullOrder(R, omega, L);
    PlanPoint(R, plan, t);
    PlanPoint(R, plan, k);
    var a, b := Rev(k, L), Rev(t, L);
    RevInvolution(k, L);
    RevInvolution(t, L);
    PointRatio(R, psi, omega, a, b);
    var rho := R.Mul(R.Pow(omega, a), R.Pow(R.Inv(omega), b));
    var p := (i: int) => if i >= 0 then R.Pow(rho, i) else R.zero;
    forall i | 0 <= i < Pow2(L) ensures f(i) == R.Mul(v, p(i)) {
      R.PowDistributes(R.Inv(plan.evalPts[t]), plan.evalPts[k], i);
    }
    R.SumScale(v, p, f, Pow2(L));
    Orthogonality(R, omega, L, a, b, p);
    R.MulZero(v);
  }

  /** Term (i, t) of the transform of the inverse at point k. */
  function DoubleTerm<T(!new)>(R: Ring<T>, plan: NttPlan<T>, evals: seq<T>, k: nat): (int, int) -> T
    requires |evals| == |plan.evalPts| && k < |evals|
  {
    (i: int, t: int) => if 0 <= i
        && 0 <= t < |evals| then R.Mul(evals[t], R.Mul(R.Pow(R.Inv(plan.evalPts[t]), i), R.Pow(plan.evalPts[k], i)))
        else R.zero
  }

  lemma DoubleTermAt<T(!new)>(R: Ring<T>, plan: NttPlan<T>, evals: seq<T>, k: nat, i: nat, t: nat)
    requires |evals| == |plan.evalPts| && k < |evals| && t < |evals|
    ensures DoubleTerm(R, plan, evals, k)(i, t)
        == R.Mul(evals[t], R.Mul(R.Pow(R.Inv(plan.evalPts[t]), i), R.Pow(plan.evalPts[k], i)))
  {
    hide Ring<T>.Add, Ring<T>.Mul, Ring<T>.Neg, Ring<T>.Inv;
  }

  lemma DoubleRow<T(!new)>(R: Ring<T>, plan: NttPlan<T>, evals: seq<T>, k: nat, i: nat)
    requires R.IsRing() && |evals| == |plan.evalPts| && k < |evals| && i < |evals|
    ensures R.Mul(Inverse(R, plan, evals)[i], R.Pow(plan.evalPts[k], i))
        == R.Mul(plan.nInv, R.Sum(t => DoubleTerm(R, plan, evals, k)(i, t), |evals|))
  {
    hide Ring<T>.Add, Ring<T>.Mul, Ring<T>.Neg, Ring<T>.Inv;
    var p, m := R.Pow(plan.evalPts[k], i), Moment(R, plan, evals, i);
    var row := (t: int) => DoubleTerm(R, plan, evals, k)(i, t);
    forall t | 0 <= t < |evals| ensures row(t) == R.Mul(p, m(t)) {
      DoubleTermAt(R, plan, evals, k, i, t);
      R.MulAssoc(evals[t], R.Pow(R.Inv(plan.evalPts[t]), i), p);
      R.MulComm(p, m(t));
    }
    R.SumScale(p, m, row, |evals|);
    R.SumEq(t => DoubleTerm(R, plan, evals, k)(i, t), row, |evals|);
    R.MulComm(R.Sum(m, |evals|), plan.nInv);
    R.MulAssoc(plan.nInv, R.Sum(m, |evals|), p);
    R.MulComm(p, R.Sum(m, |evals|));
  }

  lemma FwdUndoesInverse<T(!new)>(R: Ring<T>, plan: NttPlan<T>, evals: seq<T>)
    requires ValidPlan(R, plan) && |evals| == |plan.evalPts|
    ensures Fwd(R, plan, Inverse(R, plan, evals)) == evals
  {
    hide Ring<T>.Add, Ring<T>.Mul, Ring<T>.Neg, Ring<T>.Inv, IsRoot, PolyEval, Inverse;
    forall k | 0 <= k < |evals| ensures Fwd(R, plan, Inverse(R, plan, evals))[k] == evals[k] {
      InverseEvaluates(R, plan, evals, k);
    }
  }

  lemma InverseEvaluates<T(!new)>(R: Ring<T>, plan: NttPlan<T>, evals: seq<T>, k: nat)
    requires ValidPlan(R, plan) && |evals| == |plan.evalPts| && k < |evals|
    ensures PolyEval(R, Inverse(R, plan, evals), plan.evalPts[k]) == evals[k]
  {
    hide Ring<T>.Add, Ring<T>.Mul, Ring<T>.Neg, Ring<T>.Inv, Ring<T>.Sum, IsRoot, PolyEval, Inverse, DoubleTerm;
    PlanField(R, plan);
    var n, x, coeffs, term := |evals|, plan.evalPts[k], Inverse(R, plan, evals), DoubleTerm(R, plan, evals, k);
    var row := (i: int) => R.Sum(t => term(i, t), n);
    var col := (t: int) => R.Sum(i => term(i, t), n);
    var f := (i: int) => if 0 <= i < n then R.Mul(coeffs[i], R.Pow(x, i)) else R.zero;
    PolyEvalIsSum(R, coeffs, x, f);
    forall i | 0 <= i < n ensures f(i) == R.Mul(plan.nInv, row(i)) { DoubleRow(R, plan, evals, k, i); }
    R.SumScale(plan.nInv, row, f, n);
    R.SumSwap(term, row, col, n, n);
    forall t | 0 <= t < n ensures col(t) == if t == k then R.Mul(evals[t], R.FromNat(n)) else R.zero {
      DoubleColumn(R, plan, evals, k, t);
    }
    R.SumSingle(col, n, k);
    NInvLaw(R, plan);
    R.MulComm(plan.nInv, R.Mul(evals[k], R.FromNat(n)));
    R.MulAssoc(evals[k], R.FromNat(n), plan.nInv);
    R.Units(evals[k]);
  }

  lemma DoubleColumn<T(!new)>(R: Ring<T>, plan: NttPlan<T>, evals: seq<T>, k: nat, t: nat)
    requires ValidPlan(R, plan) && |evals| == |plan.evalPts| && k < |evals| && t < |evals|
    ensures R.Sum(i => DoubleTerm(R, plan, evals, k)(i, t), |evals|) == if t == k then
        R.Mul(evals[t], R.FromNat(|evals|)) else R.zero
  {
    hide Ring<T>.Add, Ring<T>.Mul, Ring<T>.Neg, Ring<T>.Inv, IsRoot, DoubleTerm;
    var f := (i: int) => DoubleTerm(R, plan, evals, k)(i, t);
    forall i {:trigger f(i)} | 0 <= i < |evals|
        ensures f(i) == R.Mul(evals[t], R.Mul(R.Pow(R.Inv(plan.evalPts[t]), i), R.Pow(plan.evalPts[k], i))) {
      DoubleTermAt(R, plan, evals, k, i, t);
    }
    RatioSum(R, plan, evals[t], t, k, f);
    R.SumEq(i => DoubleTerm(R, plan, evals, k)(i, t), f, |evals|);
  }
}
