/** Recovering coefficients from the values on a coset g * <omega>. */
module Interpolation {
  import opened Arith
  import opened Rings
  import opened Polynomials
  import opened RootsOfUnity

  /** Point j of the coset. */
  function Point<T(!new)>(R: Ring<T>, g: T, omega: T, j: nat): T {
    R.Mul(g, R.Pow(omega, j))
  }

  lemma PointNonZero<T(!new)>(R: Ring<T>, g: T, omega: T, j: nat)
    requires R.IsField() && g != R.zero && omega != R.zero
    ensures Point(R, g, omega, j) != R.zero
    ensures R.Mul(Point(R, g, omega, j), R.Inv(Point(R, g, omega, j))) == R.one
    ensures R.Inv(Point(R, g, omega, j)) == Point(R, R.Inv(g), R.Inv(omega), j)
  {
    R.InvOfPow(omega, j);
    R.InvOfProduct(g, R.Pow(omega, j));
    R.InvLaw(Point(R, g, omega, j));
  }

  /** (g omega^j)^k = g^k (omega^k)^j */
  lemma PointPow<T(!new)>(R: Ring<T>, g: T, omega: T, j: nat, k: nat)
    requires R.IsRing()
    ensures R.Pow(Point(R, g, omega, j), k) == R.Mul(R.Pow(g, k), R.Pow(R.Pow(omega, k), j))
  {
    R.PowDistributes(g, R.Pow(omega, j), k);
    R.PowMul(omega, j, k);
    R.PowMul(omega, k, j);
    assert j * k == k * j;
  }

  /** c * x_j^k * x_j^(-m) as a scalar times the j-th power of one root. */
  lemma MomentTerm<T(!new)>(R: Ring<T>, g: T, omega: T, c: T, j: nat, k: nat, m: nat)
    requires R.IsField() && g != R.zero && omega != R.zero
    ensures R.Mul(R.Mul(c, R.Pow(Point(R, g, omega, j), k)), R.Pow(R.Inv(Point(R, g, omega, j)), m))
         == R.Mul(R.Mul(c, R.Mul(R.Pow(g, k), R.Pow(R.Inv(g), m))),
             R.Pow(R.Mul(R.Pow(omega, k), R.Pow(R.Inv(omega), m)), j))
  {
    PointNonZero(R, g, omega, j);
    PointPow(R, g, omega, j, k);
    PointPow(R, R.Inv(g), R.Inv(omega), j, m);
    R.PowDistributes(R.Pow(omega, k), R.Pow(R.Inv(omega), m), j);
    MomentStep(R, c, R.Pow(g, k), R.Pow(R.Pow(omega, k), j), R.Pow(R.Inv(g), m), R.Pow(R.Pow(R.Inv(omega), m), j));
  }

  lemma MomentStep<T(!new)>(R: Ring<T>, c: T, a: T, p: T, b: T, q: T)
    requires R.IsRing()
    ensures R.Mul(R.Mul(c, R.Mul(a, p)), R.Mul(b, q)) == R.Mul(R.Mul(c, R.Mul(a, b)), R.Mul(p, q))
  {
    R.Ac();
  }

  /** The contribution of coefficient k to moment m, summed over the coset. */
  lemma CoefficientMoment<T(!new)>(R: Ring<T>, g: T, omega: T, L: nat, c: T, k: nat, m: nat, f: int -> T)
    requires IsRoot(R, omega, L) && g != R.zero && k < Pow2(L) && m < Pow2(L)
    requires forall j {:trigger f(j)} :: 0 <= j < Pow2(L) ==>
               f(j) == R.Mul(R.Mul(c, R.Pow(Point(R, g, omega, j), k)), R.Pow(R.Inv(Point(R, g, omega, j)), m))
    ensures R.Sum(f, Pow2(L)) == if k == m then R.Mul(R.FromNat(Pow2(L)), c) else R.zero
  {
    FullOrder(R, omega, L);
    var rho := R.Mul(R.Pow(omega, k), R.Pow(R.Inv(omega), m));
    var scale := R.Mul(c, R.Mul(R.Pow(g, k), R.Pow(R.Inv(g), m)));
    var p := (j: int) => if j >= 0 then R.Pow(rho, j) else R.zero;
    forall j | 0 <= j < Pow2(L) ensures f(j) == R.Mul(scale, p(j)) {
      MomentTerm(R, g, omega, c, j, k, m);
    }
    R.SumScale(scale, p, f, Pow2(L));
    Orthogonality(R, omega, L, k, m, p);
    if k == m {
      R.InvOfPow(g, k);
      R.Units(c);
      R.MulComm(c, R.FromNat(Pow2(L)));
    } else {
      R.MulZero(scale);
    }
  }

  /** Sum over the coset of value * x^(-m) is N times coefficient m. */
  lemma CosetMoment<T(!new)>(R: Ring<T>, g: T, omega: T, L: nat, c: seq<T>, e: int -> T, m: nat, f: int -> T)
    requires IsRoot(R, omega, L) && g != R.zero && |c| == Pow2(L) && m < Pow2(L)
    requires forall j {:trigger e(j)} :: 0 <= j < Pow2(L) ==> e(j) == PolyEval(R, c, Point(R, g, omega, j))
    requires forall j {:trigger f(j)} :: 0 <= j < Pow2(L) ==>
        f(j) == R.Mul(e(j), R.Pow(R.Inv(Point(R, g, omega, j)), m))
    ensures R.Sum(f, Pow2(L)) == R.Mul(R.FromNat(Pow2(L)), c[m])
  {
    var n := Pow2(L);
    var term := (j: int, k: int) =>
      if 0 <= j && 0 <= k < n then
        R.Mul(R.Mul(c[k], R.Pow(Point(R, g, omega, j), k)), R.Pow(R.Inv(Point(R, g, omega, j)), m))
      else R.zero;
    forall j | 0 <= j < n ensures f(j) == R.Sum(k => term(j, k), n) {
      MomentRow(R, c, Point(R, g, omega, j), R.Pow(R.Inv(Point(R, g, omega, j)), m), k => term(j, k));
    }
    var col := (k: int) => R.Sum(j => term(j, k), n);
    R.SumSwap(term, f, col, n, n);
    forall k | 0 <= k < n ensures col(k) == if k == m then R.Mul(R.FromNat(n), c[m]) else R.zero {
      CoefficientMoment(R, g, omega, L, c[k], k, m, j => term(j, k));
    }
    R.SumSingle(col, n, m);
  }

  lemma MomentRow<T(!new)>(R: Ring<T>, c: seq<T>, x: T, u: T, h: int -> T)
    requires R.IsRing()
    requires forall k {:trigger h(k)} :: 0 <= k < |c| ==> h(k) == R.Mul(R.Mul(c[k], R.Pow(x, k)), u)
    ensures R.Mul(PolyEval(R, c, x), u) == R.Sum(h, |c|)
  {
    var p := (k: int) => if 0 <= k < |c| then R.Mul(c[k], R.Pow(x, k)) else R.zero;
    PolyEvalIsSum(R, c, x, p);
    forall k | 0 <= k < |c| ensures h(k) == R.Mul(u, p(k)) {
      R.MulComm(u, p(k));
    }
    R.SumScale(u, p, h, |c|);
    R.MulComm(u, R.Sum(p, |c|));
  }
}
