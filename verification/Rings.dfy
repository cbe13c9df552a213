/**
  The algebra every other module is written over.

  `Ring` packages the operations of a commutative ring, or of a field when `IsField` holds.
  The base field KoalaBear is one instance (module KoalaBear proves it); its quintic
  extension is another, which is why the transforms, the multilinear extensions and the
  sumcheck steps are stated for an arbitrary ring.
 */
module Rings {

  /** The terms from n on. */
  function Shifted<T(!new)>(g: int -> T, n: int): int -> T { (k: int) => g(n + k) }

  datatype Ring<!T(!new)> = Ring(zero: T, one: T, add: imap<(T, T), T>, neg: imap<T, T>, mul: imap<(T, T), T>,
      inv: imap<T, T>)
  {
    function Add(a: T, b: T): T { if (a, b) in add then add[(a, b)] else zero }

    function Mul(a: T, b: T): T { if (a, b) in mul then mul[(a, b)] else zero }

    function Neg(a: T): T { if a in neg then neg[a] else zero }

    function Sub(a: T, b: T): T { Add(a, Neg(b)) }

    function Inv(a: T): T { if a in inv then inv[a] else zero }

    function Div(a: T, b: T): T { Mul(a, Inv(b)) }

    /** Marks the triple at which the ring laws are used, so that the laws are instantiated only there. */
    static ghost predicate At(a: T, b: T, c: T) { true }

    ghost predicate Laws(a: T, b: T, c: T) {
      && Add(a, b) == Add(b, a)
      && Add(Add(a, b), c) == Add(a, Add(b, c))
      && Add(a, zero) == a
      && Add(a, Neg(a)) == zero
      && Mul(a, b) == Mul(b, a)
      && Mul(Mul(a, b), c) == Mul(a, Mul(b, c))
      && Mul(a, one) == a
      && Mul(a, Add(b, c)) == Add(Mul(a, b), Mul(a, c))
    }

    /** A commutative ring with one. */
    ghost predicate IsRing() {
      forall a, b, c {:trigger At(a, b, c)} :: At(a, b, c) ==> Laws(a, b, c)
    }

    /** The ring laws with triggers that let the solver rewrite; for short algebraic lemmas only. */
    lemma Ac()
      requires IsRing()
      ensures forall a, b {:trigger Add(a, b)} :: Add(a, b) == Add(b, a)
      ensures forall a, b, c {:trigger Add(Add(a, b), c)} {:trigger Add(a, Add(b, c))} ::
          Add(Add(a, b), c) == Add(a, Add(b, c))
      ensures forall a, b {:trigger Mul(a, b)} :: Mul(a, b) == Mul(b, a)
      ensures forall a, b, c {:trigger Mul(Mul(a, b), c)} {:trigger Mul(a, Mul(b, c))} ::
          Mul(Mul(a, b), c) == Mul(a, Mul(b, c))
      ensures forall a, b, c {:trigger Mul(a, Add(b, c))} {:trigger Add(Mul(a, b), Mul(a, c))} ::
          Mul(a, Add(b, c)) == Add(Mul(a, b), Mul(a, c))
    {
      forall a, b ensures Add(a, b) == Add(b, a) && Mul(a, b) == Mul(b, a) { assert At(a, b, a); }
      forall a, b, c
        ensures Add(Add(a, b), c) == Add(a, Add(b, c)) && Mul(Mul(a, b), c) == Mul(a, Mul(b, c))
        ensures Mul(a, Add(b, c)) == Add(Mul(a, b), Mul(a, c))
      {
        assert At(a, b, c);
      }
    }

    /** The laws about zero, one and negation. */
    lemma Units(a: T)
      requires IsRing()
      ensures Add(a, zero) == a && Add(zero, a) == a
      ensures Mul(a, one) == a && Mul(one, a) == a
      ensures Add(a, Neg(a)) == zero && Add(Neg(a), a) == zero
    {
      assert At(a, zero, zero);
      assert At(zero, a, a);
      assert At(one, a, a);
      assert At(Neg(a), a, a);
    }

    lemma AddComm(a: T, b: T)
      requires IsRing()
      ensures Add(a, b) == Add(b, a)
    {
      assert At(a, b, b);
    }

    lemma AddAssoc(a: T, b: T, c: T)
      requires IsRing()
      ensures Add(Add(a, b), c) == Add(a, Add(b, c))
    {
      assert At(a, b, c);
    }

    lemma MulComm(a: T, b: T)
      requires IsRing()
      ensures Mul(a, b) == Mul(b, a)
    {
      assert At(a, b, b);
    }

    lemma MulAssoc(a: T, b: T, c: T)
      requires IsRing()
      ensures Mul(Mul(a, b), c) == Mul(a, Mul(b, c))
    {
      assert At(a, b, c);
    }

    lemma Distribute(a: T, b: T, c: T)
      requires IsRing()
      ensures Mul(a, Add(b, c)) == Add(Mul(a, b), Mul(a, c))
      ensures Mul(Add(b, c), a) == Add(Mul(b, a), Mul(c, a))
    {
      assert At(a, b, c);
      MulComm(a, Add(b, c));
      MulComm(a, b);
      MulComm(a, c);
    }

    ghost predicate IsField() {
      && IsRing()
      && one != zero
      && (forall a {:trigger Inv(a)} :: a != zero ==> Mul(a, Inv(a)) == one)
    }

    lemma Cancel(a: T, b: T, c: T)
      requires IsRing() && Add(a, c) == Add(b, c)
      ensures a == b
    {
      AddAssoc(a, c, Neg(c));
      AddAssoc(b, c, Neg(c));
      Units(a);
      Units(b);
      Units(c);
    }

    lemma MulZero(a: T)
      requires IsRing()
      ensures Mul(a, zero) == zero && Mul(zero, a) == zero
    {
      Units(zero);
      Distribute(a, zero, zero);
      Units(Mul(a, zero));
      Cancel(Mul(a, zero), zero, Mul(a, zero));
      MulComm(a, zero);
    }

    lemma NegUnique(a: T, b: T)
      requires IsRing() && Add(a, b) == zero
      ensures b == Neg(a) && a == Neg(b)
    {
      Units(a);
      Units(b);
      AddComm(a, b);
      Cancel(b, Neg(a), a);
      Cancel(a, Neg(b), b);
    }

    lemma MulNeg(a: T, b: T)
      requires IsRing()
      ensures Mul(a, Neg(b)) == Neg(Mul(a, b)) && Mul(Neg(b), a) == Neg(Mul(a, b))
    {
      Distribute(a, b, Neg(b));
      Units(b);
      MulZero(a);
      MulComm(a, Neg(b));
      NegUnique(Mul(a, b), Mul(a, Neg(b)));
    }

    lemma NegNeg(a: T)
      requires IsRing()
      ensures Neg(Neg(a)) == a
    {
      Units(a);
      NegUnique(a, Neg(a));
    }

    lemma NegZero()
      requires IsRing()
      ensures Neg(zero) == zero
    {
      Units(zero);
      NegUnique(zero, zero);
    }

    lemma NegAdd(a: T, b: T)
      requires IsRing()
      ensures Neg(Add(a, b)) == Add(Neg(a), Neg(b))
    {
      AddSwap(a, b, Neg(a), Neg(b));
      Units(a);
      Units(b);
      Units(zero);
      NegUnique(Add(a, b), Add(Neg(a), Neg(b)));
    }

    lemma SubSelf(a: T)
      requires IsRing()
      ensures Sub(a, a) == zero
    {
      Units(a);
    }

    lemma SubAdd(a: T, b: T)
      requires IsRing()
      ensures Add(Sub(a, b), b) == a && Sub(Add(a, b), b) == a
    {
      AddAssoc(a, Neg(b), b);
      AddAssoc(a, b, Neg(b));
      Units(a);
      Units(b);
    }

    lemma SubMul(a: T, b: T, c: T)
      requires IsRing()
      ensures Mul(Sub(a, b), c) == Sub(Mul(a, c), Mul(b, c))
      ensures Mul(c, Sub(a, b)) == Sub(Mul(c, a), Mul(c, b))
    {
      MulNeg(c, b);
      MulComm(c, b);
      Distribute(c, a, Neg(b));
    }

    lemma SubIsZero(a: T, b: T)
      requires IsRing() && Sub(a, b) == zero
      ensures a == b
    {
      SubAdd(a, b);
      Units(b);
    }

    function Pow(x: T, n: nat): T {
      if n == 0 then one else Mul(x, Pow(x, n - 1))
    }

    lemma {:induction false} PowAdd(x: T, m: nat, n: nat)
      requires IsRing()
      ensures Pow(x, m + n) == Mul(Pow(x, m), Pow(x, n))
    {
      Units(Pow(x, n));
      if m > 0 {
        PowAdd(x, m - 1, n);
        MulAssoc(x, Pow(x, m - 1), Pow(x, n));
      }
    }

    lemma {:induction false} PowMul(x: T, m: nat, n: nat)
      requires IsRing()
      ensures m * n >= 0
      ensures Pow(x, m * n) == Pow(Pow(x, m), n)
    {
      if n > 0 {
        assert m * n == m + m * (n - 1);
        PowMul(x, m, n - 1);
        PowAdd(x, m, m * (n - 1));
      }
    }

    lemma {:induction false} PowOne(n: nat)
      requires IsRing()
      ensures Pow(one, n) == one
    {
      if n > 0 {
        PowOne(n - 1);
        Units(one);
      }
    }

    lemma {:induction false} PowDistributes(x: T, y: T, n: nat)
      requires IsRing()
      ensures Pow(Mul(x, y), n) == Mul(Pow(x, n), Pow(y, n))
    {
      Units(one);
      if n > 0 {
        PowDistributes(x, y, n - 1);
        MulSwap(x, y, Pow(x, n - 1), Pow(y, n - 1));
      }
    }

    lemma MulSwap(a: T, b: T, c: T, d: T)
      requires IsRing()
      ensures Mul(Mul(a, b), Mul(c, d)) == Mul(Mul(a, c), Mul(b, d))
    {
      Ac();
    }

    lemma AddSwap(a: T, b: T, c: T, d: T)
      requires IsRing()
      ensures Add(Add(a, b), Add(c, d)) == Add(Add(a, c), Add(b, d))
    {
      Ac();
    }

    // -- fields ------------------------------------------------------------------

    lemma InvLaw(a: T)
      requires IsField() && a != zero
      ensures Mul(a, Inv(a)) == one && Mul(Inv(a), a) == one && Inv(a) != zero
    {
      MulComm(a, Inv(a));
      MulZero(a);
    }

    /** A field has no zero divisors. */
    lemma NoZeroDivisors(a: T, b: T)
      requires IsField() && Mul(a, b) == zero && a != zero
      ensures b == zero
    {
      InvLaw(a);
      MulAssoc(Inv(a), a, b);
      MulZero(Inv(a));
      Units(b);
    }

    lemma NonZeroProduct(a: T, b: T)
      requires IsField() && a != zero && b != zero
      ensures Mul(a, b) != zero
    {
      if Mul(a, b) == zero { NoZeroDivisors(a, b); }
    }

    lemma {:induction false} PowNonZero(a: T, n: nat)
      requires IsField() && a != zero
      ensures Pow(a, n) != zero
    {
      if n > 0 {
        PowNonZero(a, n - 1);
        NonZeroProduct(a, Pow(a, n - 1));
      }
    }

    /** The inverse is the only solution of a * b = 1. */
    lemma InvUnique(a: T, b: T)
      requires IsField() && Mul(a, b) == one
      ensures a != zero && b == Inv(a)
    {
      if a == zero { MulZero(b); }
      InvLaw(a);
      MulAssoc(Inv(a), a, b);
      Units(b);
      Units(Inv(a));
    }

    lemma InvOfProduct(a: T, b: T)
      requires IsField() && a != zero && b != zero
      ensures Mul(a, b) != zero && Inv(Mul(a, b)) == Mul(Inv(a), Inv(b))
    {
      InvLaw(a);
      InvLaw(b);
      MulSwap(a, b, Inv(a), Inv(b));
      Units(one);
      InvUnique(Mul(a, b), Mul(Inv(a), Inv(b)));
    }

    lemma {:induction false} InvOfPow(a: T, n: nat)
      requires IsField() && a != zero
      ensures Pow(a, n) != zero && Inv(Pow(a, n)) == Pow(Inv(a), n)
      ensures Mul(Pow(a, n), Pow(Inv(a), n)) == one
    {
      PowDistributes(a, Inv(a), n);
      InvLaw(a);
      PowOne(n);
      InvUnique(Pow(a, n), Pow(Inv(a), n));
    }

    /** n as an element: 1 + 1 + ... + 1. */
    function FromNat(n: nat): T {
      if n == 0 then zero else Add(FromNat(n - 1), one)
    }

    lemma {:induction false} SumConstant(f: int -> T, n: nat, c: T)
      requires IsRing()
      requires forall i :: 0 <= i < n ==> f(i) == c
      ensures Sum(f, n) == Mul(FromNat(n), c)
    {
      if n == 0 {
        MulZero(c);
      } else {
        SumConstant(f, n - 1, c);
        Distribute(c, FromNat(n - 1), one);
        Units(c);
      }
    }

    // -- sums ------------------------------------------------------------------

    /** f(0) + f(1) + ... + f(n-1) */
    function Sum(f: int -> T, n: nat): T {
      if n == 0 then zero else Add(Sum(f, n - 1), f(n - 1))
    }

    lemma {:induction false} SumEq(f: int -> T, g: int -> T, n: nat)
      requires forall i :: 0 <= i < n ==> f(i) == g(i)
      ensures Sum(f, n) == Sum(g, n)
    {
      if n > 0 {
        SumEq(f, g, n - 1);
      }
    }

    lemma {:induction false} SumZero(f: int -> T, n: nat)
      requires IsRing()
      requires forall i :: 0 <= i < n ==> f(i) == zero
      ensures Sum(f, n) == zero
    {
      if n > 0 {
        SumZero(f, n - 1);
        Units(zero);
      }
    }

    lemma {:induction false} SumAdd(f: int -> T, g: int -> T, h: int -> T, n: nat)
      requires IsRing()
      requires forall i :: 0 <= i < n ==> h(i) == Add(f(i), g(i))
      ensures Sum(h, n) == Add(Sum(f, n), Sum(g, n))
    {
      if n > 0 {
        SumAdd(f, g, h, n - 1);
        AddSwap(Sum(f, n - 1), Sum(g, n - 1), f(n - 1), g(n - 1));
      } else {
        Units(zero);
      }
    }

    lemma {:induction false} SumScale(c: T, f: int -> T, h: int -> T, n: nat)
      requires IsRing()
      requires forall i :: 0 <= i < n ==> h(i) == Mul(c, f(i))
      ensures Sum(h, n) == Mul(c, Sum(f, n))
    {
      if n == 0 {
        MulZero(c);
      } else {
        SumScale(c, f, h, n - 1);
        Distribute(c, Sum(f, n - 1), f(n - 1));
      }
    }

    /** A sum over 0..m+n is the sum over 0..m plus the sum of the shifted tail. */
    lemma {:induction false} SumSplit(f: int -> T, g: int -> T, m: nat, n: nat)
      requires IsRing()
      requires forall i :: 0 <= i < n ==> g(i) == f(m + i)
      ensures Sum(f, m + n) == Add(Sum(f, m), Sum(g, n))
    {
      if n == 0 {
        Units(Sum(f, m));
      } else {
        SumSplit(f, g, m, n - 1);
        AddAssoc(Sum(f, m), Sum(g, n - 1), g(n - 1));
      }
    }

    /** f(from) + ... + f(from + count - 1) */
    function RangeSum(f: int -> T, from: int, count: nat): T {
      if count == 0 then zero else Add(RangeSum(f, from, count - 1), f(from + count - 1))
    }

    lemma {:induction false} RangeSumSplit(f: int -> T, from: int, a: nat, b: nat)
      requires IsRing()
      ensures RangeSum(f, from, a + b) == Add(RangeSum(f, from, a), RangeSum(f, from + a, b))
    {
      if b == 0 {
        Units(RangeSum(f, from, a));
      } else {
        RangeSumSplit(f, from, a, b - 1);
        AddAssoc(RangeSum(f, from, a), RangeSum(f, from + a, b - 1), f(from + a + b - 1));
      }
    }

    lemma {:induction false} RangeSumIsSum(f: int -> T, count: nat)
      ensures RangeSum(f, 0, count) == Sum(f, count)
    {
      if count > 0 {
        RangeSumIsSum(f, count - 1);
      }
    }

    /** The sum of a sequence. */
    function Total(s: seq<T>): T {
      if |s| == 0 then zero else Add(Total(s[..|s| - 1]), s[|s| - 1])
    }

    /** Sums over consecutive ranges of equal size add up to the sum over the whole range. */
    lemma {:induction false} EqualRanges(f: int -> T, size: nat, sums: seq<T>)
      requires IsRing()
      requires forall ci {:trigger sums[ci]} :: 0 <= ci < |sums| ==> sums[ci] == RangeSum(f, size * ci, size)
      ensures size * |sums| >= 0 && Total(sums) == RangeSum(f, 0, size * |sums|)
    {
      if |sums| > 0 {
        var k := |sums| - 1;
        assert size * |sums| == size * k + size;
        EqualRanges(f, size, sums[..k]);
        RangeSumSplit(f, 0, size * k, size);
        assert sums[k] == RangeSum(f, size * k, size);
      }
    }

    /** Exchange of two finite sums. `row` and `col` are the two families of inner sums. */
    lemma {:induction false} SumSwap(f: (int, int) -> T, row: int -> T, col: int -> T, m: nat, n: nat)
      requires IsRing()
      requires forall i :: 0 <= i < m ==> row(i) == Sum(j => f(i, j), n)
      requires forall j :: 0 <= j < n ==> col(j) == Sum(i => f(i, j), m)
      ensures Sum(row, m) == Sum(col, n)
    {
      if m == 0 {
        SumZero(col, n);
      } else {
        var col' := (j: int) => Sum(i => f(i, j), m - 1);
        SumSwap(f, row, col', m - 1, n);
        var last := (j: int) => f(m - 1, j);
        forall j | 0 <= j < n
          ensures col(j) == Add(col'(j), last(j))
        {
          var inner := (i: int) => f(i, j);
          assert col(j) == Sum(inner, m);
          SumEq(i => f(i, j), inner, m - 1);
        }
        SumAdd(col', last, col, n);
        SumEq(j => f(m - 1, j), last, n);
      }
    }

    /** A sum with one non-zero term is that term. */
    lemma {:induction false} SumSingle(f: int -> T, n: nat, k: nat)
      requires IsRing()
      requires k < n
      requires forall i :: 0 <= i < n && i != k ==> f(i) == zero
      ensures Sum(f, n) == f(k)
    {
      Units(f(k));
      if k == n - 1 {
        SumZero(f, n - 1);
      } else {
        SumSingle(f, n - 1, k);
      }
    }

    /** The geometric sum, in the form that needs no division. */
    lemma {:induction false} Geometric(x: T, f: int -> T, n: nat)
      requires IsRing()
      requires forall i {:trigger f(i)} :: 0 <= i < n ==> f(i) == Pow(x, i)
      ensures Mul(Sub(x, one), Sum(f, n)) == Sub(Pow(x, n), one)
    {
      if n == 0 {
        MulZero(Sub(x, one));
        SubSelf(one);
      } else {
        Geometric(x, f, n - 1);
        assert f(n - 1) == Pow(x, n - 1);
        GeometricStep(x, Sum(f, n - 1), Pow(x, n - 1));
      }
    }

    lemma GeometricStep(x: T, s: T, p: T)
      requires IsRing()
      requires Mul(Sub(x, one), s) == Sub(p, one)
      ensures Mul(Sub(x, one), Add(s, p)) == Sub(Mul(x, p), one)
    {
      SubMul(x, one, p);
      Units(p);
      Distribute(Sub(x, one), s, p);
      Telescope(p, one, Mul(x, p));
    }

    lemma Telescope(a: T, b: T, c: T)
      requires IsRing()
      ensures Add(Sub(a, b), Sub(c, a)) == Sub(c, b)
    {
      AddComm(a, Neg(b));
      AddComm(c, Neg(a));
      AddSwap(Neg(b), a, Neg(a), c);
      Units(a);
      AddAssoc(Neg(b), a, Add(Neg(a), c));
      AddAssoc(a, Neg(a), c);
      Units(c);
      AddComm(Neg(b), c);
    }
  }
}
