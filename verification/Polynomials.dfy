/** Evaluation of coefficient sequences, whole or strided, and the radix-2 split. */
module Polynomials {
  import opened Rings

  function Coefficient<T(!new)>(R: Ring<T>, c: seq<T>, i: int): T {
    if 0 <= i < |c| then c[i] else R.zero
  }

  /** c[start] + c[start + stride] y + ... over m terms. */
  function Strided<T(!new)>(R: Ring<T>, c: seq<T>, start: int, stride: int, m: nat, y: T): T
    decreases m
  {
    if m == 0 then R.zero
    else R.Add(Coefficient(R, c, start), R.Mul(y, Strided(R, c, start + stride, stride, m - 1, y)))
  }

  /** The value at y of the polynomial c[0] + c[1] y + c[2] y^2 + ... */
  function PolyEval<T(!new)>(R: Ring<T>, c: seq<T>, y: T): T {
    Strided(R, c, 0, 1, |c|, y)
  }

  /** The identity behind every radix-2 butterfly: even terms plus y times odd terms, at y^2. */
  lemma {:induction false} EvenOddSplit<T(!new)>(R: Ring<T>, c: seq<T>, start: int, stride: int, m: nat, y: T)
    requires R.IsRing()
    ensures Strided(R, c, start, stride, 2 * m, y)
         == R.Add(Strided(R, c, start, 2 * stride, m, R.Mul(y, y)),
                  R.Mul(y, Strided(R, c, start + stride, 2 * stride, m, R.Mul(y, y))))
    decreases m
  {
    if m == 0 {
      R.MulZero(y);
      R.Units(R.zero);
    } else {
      var s2 := start + stride + stride;
      EvenOddSplit(R, c, s2, stride, m - 1, y);
      EvenOddStep(R, Coefficient(R, c, start), Coefficient(R, c, start + stride), y,
                  Strided(R, c, s2, 2 * stride, m - 1, R.Mul(y, y)),
                  Strided(R, c, s2 + stride, 2 * stride, m - 1, R.Mul(y, y)));
    }
  }

  lemma EvenOddStep<T(!new)>(R: Ring<T>, a: T, b: T, y: T, e: T, o: T)
    requires R.IsRing()
    ensures R.Add(a, R.Mul(y, R.Add(b, R.Mul(y, R.Add(e, R.Mul(y, o))))))
         == R.Add(R.Add(a, R.Mul(R.Mul(y, y), e)), R.Mul(y, R.Add(b, R.Mul(R.Mul(y, y), o))))
  {
    R.Ac();
  }

  /** Horner evaluation is the sum of c[i] * y^i. */
  lemma PolyEvalIsSum<T(!new)>(R: Ring<T>, c: seq<T>, y: T, f: int -> T)
    requires R.IsRing()
    requires forall i {:trigger f(i)} :: 0 <= i < |c| ==> f(i) == R.Mul(c[i], R.Pow(y, i))
    ensures PolyEval(R, c, y) == R.Sum(f, |c|)
  {
    PartialSums(R, c, y, f, |c|);
    R.MulZero(R.Pow(y, |c|));
    R.Units(R.Sum(f, |c|));
  }

  /** Horner's rule from the front: the first k terms are summed, the rest is still nested. */
  lemma {:induction false} PartialSums<T(!new)>(R: Ring<T>, c: seq<T>, y: T, f: int -> T, k: nat)
    requires R.IsRing() && k <= |c|
    requires forall i {:trigger f(i)} :: 0 <= i < |c| ==> f(i) == R.Mul(c[i], R.Pow(y, i))
    ensures PolyEval(R, c, y) == R.Add(R.Sum(f, k), R.Mul(R.Pow(y, k), Strided(R, c, k, 1, |c| - k, y)))
  {
    if k == 0 {
      R.Units(PolyEval(R, c, y));
    } else {
      PartialSums(R, c, y, f, k - 1);
      assert f(k - 1) == R.Mul(c[k - 1], R.Pow(y, k - 1));
      HornerStep(R, R.Sum(f, k - 1), c[k - 1], y, R.Pow(y, k - 1), Strided(R, c, k, 1, |c| - k, y));
    }
  }

  lemma HornerStep<T(!new)>(R: Ring<T>, s: T, a: T, y: T, p: T, rest: T)
    requires R.IsRing()
    ensures R.Add(s, R.Mul(p, R.Add(a, R.Mul(y, rest)))) == R.Add(R.Add(s, R.Mul(a, p)), R.Mul(R.Mul(y, p), rest))
  {
    R.Ac();
  }

  /** Multiplying coefficient i by g^i evaluates the polynomial at g y; zeros beyond |c| do not matter. */
  lemma {:induction false} ScaledEval<T(!new)>(R: Ring<T>, c: seq<T>, d: seq<T>, g: T, y: T, i: nat)
    requires R.IsRing() && i <= |c| <= |d|
    requires forall t {:trigger d[t]} :: 0 <= t < |c| ==> d[t] == R.Mul(c[t], R.Pow(g, t))
    requires forall t :: |c| <= t < |d| ==> d[t] == R.zero
    ensures Strided(R, d, i, 1, |d| - i, y) == R.Mul(R.Pow(g, i), Strided(R, c, i, 1, |c| - i, R.Mul(g, y)))
    decreases |c| - i
  {
    if i == |c| {
      StridedZero(R, d, i, y);
      R.MulZero(R.Pow(g, i));
    } else {
      ScaledEval(R, c, d, g, y, i + 1);
      assert d[i] == R.Mul(c[i], R.Pow(g, i));
      ScaledStep(R, c[i], R.Pow(g, i), g, y, Strided(R, c, i + 1, 1, |c| - i - 1, R.Mul(g, y)));
    }
  }

  lemma ScaledStep<T(!new)>(R: Ring<T>, c: T, s: T, g: T, y: T, p: T)
    requires R.IsRing()
    ensures R.Add(R.Mul(c, s), R.Mul(y, R.Mul(R.Mul(g, s), p))) == R.Mul(s, R.Add(c, R.Mul(R.Mul(g, y), p)))
  {
    R.Ac();
  }

  lemma {:induction false} StridedZero<T(!new)>(R: Ring<T>, d: seq<T>, i: nat, y: T)
    requires R.IsRing() && i <= |d|
    requires forall t :: i <= t < |d| ==> d[t] == R.zero
    ensures Strided(R, d, i, 1, |d| - i, y) == R.zero
    decreases |d| - i
  {
    if i < |d| {
      StridedZero(R, d, i + 1, y);
      R.MulZero(y);
      R.Units(R.zero);
    }
  }
}
