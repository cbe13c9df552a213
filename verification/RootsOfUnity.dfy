/** Roots of unity of order 2^L in a field, and the orthogonality of their powers. */
module RootsOfUnity {
  import opened Arith
  import opened Rings

  /** omega is a root of unity of exact order 2^L in a field of odd characteristic. */
  ghost predicate IsRoot<T(!new)>(R: Ring<T>, omega: T, L: nat) {
    && R.IsField()
    && R.Neg(R.one) != R.one
    && (if L == 0 then omega == R.one else R.Pow(omega, Pow2(L - 1)) == R.Neg(R.one))
  }

  lemma FullOrder<T(!new)>(R: Ring<T>, omega: T, L: nat)
    requires IsRoot(R, omega, L)
    ensures R.Pow(omega, Pow2(L)) == R.one && omega != R.zero
  {
    if L == 0 {
      R.Units(R.one);
      assert R.Pow(omega, 1) == R.Mul(omega, R.Pow(omega, 0));
    } else {
      R.PowAdd(omega, Pow2(L - 1), Pow2(L - 1));
      R.MulNeg(R.Neg(R.one), R.one);
      R.Units(R.Neg(R.one));
      R.NegNeg(R.one);
    }
    NonZeroBase(R, omega, Pow2(L));
  }

  lemma NonZeroBase<T(!new)>(R: Ring<T>, x: T, n: nat)
    requires R.IsField() && n > 0 && R.Pow(x, n) == R.one
    ensures x != R.zero
  {
    if x == R.zero {
      R.MulZero(R.Pow(x, n - 1));
    }
  }

  lemma {:induction false} PowOfMinusOne<T(!new)>(R: Ring<T>, k: nat)
    requires R.IsRing()
    ensures R.Pow(R.Neg(R.one), 2 * k + 1) == R.Neg(R.one)
  {
    var m := R.Neg(R.one);
    if k == 0 {
      assert R.Pow(m, 1) == R.Mul(m, R.Pow(m, 0));
      R.Units(m);
    } else {
      PowOfMinusOne(R, k - 1);
      assert R.Pow(m, 2 * k + 1) == R.Mul(m, R.Pow(m, 2 * k));
      assert R.Pow(m, 2 * k) == R.Mul(m, R.Pow(m, 2 * k - 1));
      R.MulNeg(m, R.one);
      R.Units(m);
      R.NegNeg(R.one);
    }
  }

  lemma OddCofactor(t: nat, L: nat) returns (v: nat, k: nat)
    requires 0 < t < Pow2(L)
    ensures v < L && t * Pow2(L - 1 - v) == Pow2(L - 1) * (2 * k + 1)
  {
    v, k := OddPart(t);
    MulLe(1, 2 * k + 1, Pow2(v));
    if v >= L { Pow2Grows(L, v); }
    Pow2Add(v, L - 1 - v);
    Swap(Pow2(v), 2 * k + 1, Pow2(L - 1 - v));
  }

  lemma Swap(a: int, b: int, c: int)
    ensures a * b * c == a * c * b
  {
  }

  /** No exponent below the order gives 1. */
  lemma OrderIsExact<T(!new)>(R: Ring<T>, omega: T, L: nat, t: nat)
    requires IsRoot(R, omega, L) && 0 < t < Pow2(L)
    ensures R.Pow(omega, t) != R.one
  {
    hide Ring<T>.Add, Ring<T>.Mul, Ring<T>.Neg, Ring<T>.Inv, Ring<T>.Pow, Pow2;
    if R.Pow(omega, t) == R.one {
      var v, k := OddCofactor(t, L);
      R.PowMul(omega, t, Pow2(L - 1 - v));
      R.PowOne(Pow2(L - 1 - v));
      R.PowMul(omega, Pow2(L - 1), 2 * k + 1);
      PowOfMinusOne(R, k);
    }
  }

  /** Different exponents below the order give different powers. */
  lemma PowersAreDistinct<T(!new)>(R: Ring<T>, omega: T, L: nat, a: nat, b: nat)
    requires IsRoot(R, omega, L) && a < b < Pow2(L)
    ensures R.Pow(omega, a) != R.Pow(omega, b)
  {
    hide Ring<T>.Add, Ring<T>.Mul, Ring<T>.Neg, Ring<T>.Inv, Ring<T>.Pow, Pow2;
    if R.Pow(omega, a) == R.Pow(omega, b) {
      FullOrder(R, omega, L);
      R.PowAdd(omega, a, b - a);
      R.InvOfPow(omega, a);
      CancelFactor(R, R.Pow(omega, a), R.Pow(omega, b - a), R.Pow(R.Inv(omega), a));
      OrderIsExact(R, omega, L, b - a);
    }
  }

  lemma CancelFactor<T(!new)>(R: Ring<T>, p: T, q: T, pinv: T)
    requires R.IsRing() && R.Mul(p, pinv) == R.one && R.Mul(p, q) == p
    ensures q == R.one
  {
    R.MulComm(p, pinv);
    R.MulAssoc(pinv, p, q);
    R.Units(q);
  }

  /** rho = omega^a / omega^b satisfies rho^N = 1, and is 1 only when a = b. */
  lemma QuotientRoot<T(!new)>(R: Ring<T>, omega: T, L: nat, a: nat, b: nat)
    requires IsRoot(R, omega, L) && a < Pow2(L) && b < Pow2(L)
    ensures var rho := R.Mul(R.Pow(omega, a), R.Pow(R.Inv(omega), b));
            R.Pow(rho, Pow2(L)) == R.one && (rho == R.one <==> a == b)
  {
    FullOrder(R, omega, L);
    R.InvOfPow(omega, b);
    R.InvOfPow(omega, a);
    QuotientOrder(R, omega, L, a, b);
    var rho := R.Mul(R.Pow(omega, a), R.Pow(R.Inv(omega), b));
    if rho == R.one {
      QuotientIsOne(R, R.Pow(omega, a), R.Pow(omega, b), R.Pow(R.Inv(omega), b));
      if a < b { PowersAreDistinct(R, omega, L, a, b); }
      if b < a { PowersAreDistinct(R, omega, L, b, a); }
    }
  }

  lemma QuotientIsOne<T(!new)>(R: Ring<T>, p: T, q: T, qinv: T)
    requires R.IsRing() && R.Mul(q, qinv) == R.one && R.Mul(p, qinv) == R.one
    ensures p == q
  {
    R.MulAssoc(p, qinv, q);
    R.MulComm(q, qinv);
    R.Units(p);
    R.Units(q);
  }

  lemma QuotientOrder<T(!new)>(R: Ring<T>, omega: T, L: nat, a: nat, b: nat)
    requires IsRoot(R, omega, L)
    ensures R.Pow(R.Mul(R.Pow(omega, a), R.Pow(R.Inv(omega), b)), Pow2(L)) == R.one
  {
    var n := Pow2(L);
    FullOrder(R, omega, L);
    R.PowDistributes(R.Pow(omega, a), R.Pow(R.Inv(omega), b), n);
    PowerOfPowerIsOne(R, omega, a, n);
    R.InvOfPow(omega, n);
    R.Units(R.Pow(R.Inv(omega), n));
    PowerOfPowerIsOne(R, R.Inv(omega), b, n);
    R.Units(R.one);
  }

  lemma PowerOfPowerIsOne<T(!new)>(R: Ring<T>, x: T, a: nat, n: nat)
    requires R.IsRing() && R.Pow(x, n) == R.one
    ensures R.Pow(R.Pow(x, a), n) == R.one
  {
    R.PowMul(x, a, n);
    R.PowMul(x, n, a);
    R.PowOne(a);
    assert a * n == n * a;
  }

  /** Orthogonality: the powers of rho sum to N when a = b and to 0 otherwise. */
  lemma Orthogonality<T(!new)>(R: Ring<T>, omega: T, L: nat, a: nat, b: nat, f: int -> T)
    requires IsRoot(R, omega, L) && a < Pow2(L) && b < Pow2(L)
    requires forall j {:trigger f(j)} :: 0 <= j < Pow2(L) ==>
        f(j) == R.Pow(R.Mul(R.Pow(omega, a), R.Pow(R.Inv(omega), b)), j)
    ensures R.Sum(f, Pow2(L)) == if a == b then R.FromNat(Pow2(L)) else R.zero
  {
    var rho := R.Mul(R.Pow(omega, a), R.Pow(R.Inv(omega), b));
    QuotientRoot(R, omega, L, a, b);
    if a == b {
      forall j | 0 <= j < Pow2(L) ensures f(j) == R.one { R.PowOne(j); }
      R.SumConstant(f, Pow2(L), R.one);
      R.Units(R.FromNat(Pow2(L)));
    } else {
      R.Geometric(rho, f, Pow2(L));
      R.SubSelf(R.one);
      if R.Sub(rho, R.one) == R.zero { R.SubIsZero(rho, R.one); }
      R.NoZeroDivisors(R.Sub(rho, R.one), R.Sum(f, Pow2(L)));
    }
  }
}
