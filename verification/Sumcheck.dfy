/** Product sumcheck: the prover's round polynomials pass the verifier's loop. */
module Sumcheck {
  import opened Arith
  import opened Rings
  import opened Multilinear
  import opened Folding
  import opened Polynomials

  function Products<T(!new)>(R: Ring<T>, a: seq<T>, b: seq<T>): int -> T {
    (i: int) => R.Mul(Coefficient(R, a, i), Coefficient(R, b, i))
  }

  /** a_0 * b_0 + a_1 * b_1 + ... */
  function Dot<T(!new)>(R: Ring<T>, a: seq<T>, b: seq<T>): T {
    R.Sum(Products(R, a, b), |a|)
  }

  lemma ProductAt<T(!new)>(R: Ring<T>, a: seq<T>, b: seq<T>, i: nat)
    requires i < |a| && i < |b|
    ensures Products(R, a, b)(i) == R.Mul(a[i], b[i])
  {
  }

  function Lo<T(!new)>(a: seq<T>): seq<T> { a[..|a| / 2] }

  function Delta<T(!new)>(R: Ring<T>, a: seq<T>): (r: seq<T>)
    ensures |r| == |a| / 2
  {
    seq(|a| / 2, i requires 0 <= i < |a| / 2 => R.Sub(a[i + |a| / 2], a[i]))
  }

  /** Constant and quadratic coefficient of the round polynomial, accumulated over the pairs. */
  method CpuProductSumcheck<T(!new)>(R: Ring<T>, a: seq<T>, b: seq<T>) returns (c0: T, c2: T)
    requires |a| == |b|
    ensures c0 == Dot(R, Lo(a), Lo(b)) && c2 == Dot(R, Delta(R, a), Delta(R, b))
  {
    hide Ring<T>.Add, Ring<T>.Mul, Ring<T>.Neg;
    var half := |a| / 2;
    c0, c2 := R.zero, R.zero;
    var i := 0;
    while i < half
      invariant 0 <= i <= half
      invariant c0 == R.Sum(Products(R, Lo(a), Lo(b)), i)
      invariant c2 == R.Sum(Products(R, Delta(R, a), Delta(R, b)), i)
    {
      var aLo, aHi, bLo, bHi := a[i], a[i + half], b[i], b[i + half];
      ProductAt(R, Lo(a), Lo(b), i);
      ProductAt(R, Delta(R, a), Delta(R, b), i);
      c0 := R.Add(c0, R.Mul(aLo, bLo));
      c2 := R.Add(c2, R.Mul(R.Sub(aHi, aLo), R.Sub(bHi, bLo)));
      i := i + 1;
    }
  }

  /** The linear coefficient the prover sends: sum - 2 * c0 - c2. */
  function LinearCoefficient<T(!new)>(R: Ring<T>, sum: T, c0: T, c2: T): T {
    R.Sub(R.Sub(sum, R.Add(c0, c0)), c2)
  }

  // -- The verifier's side ------------------------------------------------------------------------

  /** p(0) + p(1), as the sum of the coefficients plus the constant one. */
  function SumAt0And1<T(!new)>(R: Ring<T>, p: seq<T>): T {
    R.Add(R.Sum(At(R, p), |p|), Coefficient(R, p, 0))
  }

  /** For coefficients of any number the check is about the values at 0 and 1. */
  lemma SumIsValues<T(!new)>(R: Ring<T>, p: seq<T>)
    requires R.IsRing()
    ensures SumAt0And1(R, p) == R.Add(PolyEval(R, p, R.zero), PolyEval(R, p, R.one))
  {
    hide Ring<T>.Add, Ring<T>.Mul, Ring<T>.Neg;
    forall i {:trigger At(R, p)(i)} | 0 <= i < |p| ensures At(R, p)(i) == R.Mul(p[i], R.Pow(R.one, i)) {
      R.PowOne(i);
      R.Units(p[i]);
    }
    PolyEvalIsSum(R, p, R.one, At(R, p));
    ValueAtZero(R, p);
    R.AddComm(PolyEval(R, p, R.zero), PolyEval(R, p, R.one));
  }

  lemma ValueAtZero<T(!new)>(R: Ring<T>, p: seq<T>)
    requires R.IsRing()
    ensures PolyEval(R, p, R.zero) == Coefficient(R, p, 0)
  {
    hide Ring<T>.Add, Ring<T>.Mul, Ring<T>.Neg;
    if p != [] {
      R.MulZero(Strided(R, p, 1, 1, |p| - 1, R.zero));
      R.Units(p[0]);
    }
  }

  /** The powers of the point, multiplied up, and the inner product with the coefficients. */
  method UnivariatePolynomialEval<T(!new)>(R: Ring<T>, coeffs: seq<T>, point: T) returns (value: T)
    requires R.IsRing() && coeffs != []
    ensures value == PolyEval(R, coeffs, point)
  {
    hide Ring<T>.Add, Ring<T>.Mul, Ring<T>.Neg, PolyEval;
    var powers, i := [R.one], 1;
    while i < |coeffs|
      invariant 1 <= i <= |coeffs| && |powers| == i
      invariant forall k {:trigger powers[k]} :: 0 <= k < i ==> powers[k] == R.Pow(point, k)
    {
      R.MulComm(powers[i - 1], point);
      powers := powers + [R.Mul(powers[i - 1], point)];
      i := i + 1;
    }
    value := Dot(R, coeffs, powers);
    var f := Products(R, coeffs, powers);
    forall k {:trigger f(k)} | 0 <= k < |coeffs| ensures f(k) == R.Mul(coeffs[k], R.Pow(point, k)) {
      ProductAt(R, coeffs, powers, k);
      assert powers[k] == R.Pow(point, k);
    }
    PolyEvalIsSum(R, coeffs, point, f);
  }

  datatype Verdict<T> = Rejected | Claim(value: T)

  /** The verifier's loop: each polynomial must sum to the claim; its value at the challenge is the next claim. */
  function VerifyFrom<T(!new, ==)>(R: Ring<T>, polys: seq<seq<T>>, challenges: seq<T>, claim: T, k: nat): Verdict<T>
    requires |polys| == |challenges| && k <= |polys|
    decreases |polys| - k
  {
    if k == |polys| then Claim(claim)
    else if SumAt0And1(R, polys[k]) != claim then Rejected
    else VerifyFrom(R, polys, challenges, PolyEval(R, polys[k], challenges[k]), k + 1)
  }

  method SumcheckVerify<T(!new, ==)>(R: Ring<T>, degree: nat, polys: seq<seq<T>>, challenges: seq<T>, claimedSum: T)
    returns (v: Verdict<T>)
    requires R.IsRing() && |polys| == |challenges| && forall k :: 0 <= k < |polys| ==> |polys[k]| == degree + 1
    ensures v == VerifyFrom(R, polys, challenges, claimedSum, 0)
  {
    hide Ring<T>.Add, Ring<T>.Mul, Ring<T>.Neg, Ring<T>.IsRing;
    var claim, round := claimedSum, 0;
    while round < |polys|
      invariant 0 <= round <= |polys|
          && VerifyFrom(R, polys, challenges, claim, round) == VerifyFrom(R, polys, challenges, claimedSum, 0)
    {
      if SumAt0And1(R, polys[round]) != claim { return Rejected; }
      claim := UnivariatePolynomialEval(R, polys[round], challenges[round]);
      round := round + 1;
    }
    v := Claim(claim);
  }

  // -- The honest prover --------------------------------------------------------------------------

  function RoundPoly<T(!new)>(R: Ring<T>, a: seq<T>, b: seq<T>, sum: T): seq<T> {
    var c0, c2 := Dot(R, Lo(a), Lo(b)), Dot(R, Delta(R, a), Delta(R, b));
    [c0, LinearCoefficient(R, sum, c0, c2), c2]
  }

  /** One polynomial per challenge, each from the vectors folded in half at the challenges before it. */
  function HonestPolys<T(!new)>(R: Ring<T>, a: seq<T>, b: seq<T>, sum: T, challenges: seq<T>): (r: seq<seq<T>>)
    ensures |r| == |challenges|
    decreases |challenges|
  {
    if challenges == [] then []
    else
      var p, x := RoundPoly(R, a, b, sum), challenges[0];
      [p] + HonestPolys(R, FoldHalf(R, a, x), FoldHalf(R, b, x), PolyEval(R, p, x), challenges[1..])
  }

  /** x*v + u*y, the cross terms of one pair. */
  function CrossTerms<T(!new)>(R: Ring<T>, a: seq<T>, b: seq<T>): int -> T {
    (i: int) => R.Add(R.Mul(Coefficient(R, Lo(a), i), Coefficient(R, Delta(R, b), i)),
        R.Mul(Coefficient(R, Delta(R, a), i), Coefficient(R, Lo(b), i)))
  }

  lemma CrossAt<T(!new)>(R: Ring<T>, a: seq<T>, b: seq<T>, i: nat)
    requires |a| == |b| && i < |a| / 2
    ensures var h := |a| / 2;
        CrossTerms(R, a, b)(i) == R.Add(R.Mul(a[i], R.Sub(b[i + h], b[i])), R.Mul(R.Sub(a[i + h], a[i]), b[i]))
  {
  }

  function Cross<T(!new)>(R: Ring<T>, a: seq<T>, b: seq<T>): T { R.Sum(CrossTerms(R, a, b), |a| / 2) }

  /** (x + s*u) * (y + s*v) as a polynomial in s. */
  lemma ProductOfLines<T(!new)>(R: Ring<T>, x: T, y: T, u: T, v: T, s: T)
    requires R.IsRing()
    ensures R.Mul(R.Add(x, R.Mul(u, s)), R.Add(y, R.Mul(v, s))) ==
      R.Add(R.Add(R.Mul(x, y), R.Mul(R.Add(R.Mul(x, v), R.Mul(u, y)), s)), R.Mul(R.Mul(u, v), R.Mul(s, s)))
  {
    hide Ring<T>.Add, Ring<T>.Mul, Ring<T>.Neg;
    var us, vs := R.Mul(u, s), R.Mul(v, s);
    R.Distribute(R.Add(x, us), y, vs);
    R.Distribute(y, x, us);
    R.Distribute(vs, x, us);
    R.MulAssoc(x, v, s);
    R.MulAssoc(u, y, s);
    R.MulAssoc(u, s, y);
    R.MulComm(s, y);
    R.Distribute(s, R.Mul(x, v), R.Mul(u, y));
    R.MulSwap(u, s, v, s);
    var xy, uys, xvs, q := R.Mul(x, y), R.Mul(R.Mul(u, y), s), R.Mul(R.Mul(x, v), s), R.Mul(R.Mul(u, v), R.Mul(s, s));
    R.AddAssoc(R.Add(xy, uys), xvs, q);
    R.AddAssoc(xy, uys, xvs);
    R.AddComm(uys, xvs);
  }

  /** The product of the two folded values of one pair. */
  lemma FoldedPair<T(!new)>(R: Ring<T>, a: seq<T>, b: seq<T>, r: T, i: nat)
    requires R.IsRing() && |a| == |b| && i < |a| / 2
    ensures Products(R, FoldHalf(R, a, r), FoldHalf(R, b, r))(i) ==
      R.Add(R.Add(Products(R, Lo(a), Lo(b))(i), R.Mul(CrossTerms(R, a, b)(i), r)),
          R.Mul(Products(R, Delta(R, a), Delta(R, b))(i), R.Mul(r, r)))
  {
    hide Ring<T>.Add, Ring<T>.Mul, Ring<T>.Neg;
    var h := |a| / 2;
    ProductOfLines(R, a[i], b[i], R.Sub(a[i + h], a[i]), R.Sub(b[i + h], b[i]), r);
    ProductAt(R, FoldHalf(R, a, r), FoldHalf(R, b, r), i);
    ProductAt(R, Lo(a), Lo(b), i);
    ProductAt(R, Delta(R, a), Delta(R, b), i);
    CrossAt(R, a, b, i);
  }

  /** The product of the upper values of one pair. */
  lemma UpperPair<T(!new)>(R: Ring<T>, a: seq<T>, b: seq<T>, i: nat)
    requires R.IsRing() && |a| == |b| && i < |a| / 2
    ensures Products(R, a, b)(|a| / 2 + i) ==
      R.Add(R.Add(Products(R, Lo(a), Lo(b))(i), CrossTerms(R, a, b)(i)), Products(R, Delta(R, a), Delta(R, b))(i))
  {
    hide Ring<T>.Add, Ring<T>.Mul, Ring<T>.Neg;
    var h := |a| / 2;
    var x, y, u, v := a[i], b[i], R.Sub(a[i + h], a[i]), R.Sub(b[i + h], b[i]);
    ProductOfLines(R, x, y, u, v, R.one);
    ProductAt(R, a, b, h + i);
    ProductAt(R, Lo(a), Lo(b), i);
    ProductAt(R, Delta(R, a), Delta(R, b), i);
    CrossAt(R, a, b, i);
    R.Units(u);
    R.Units(v);
    R.Units(R.one);
    R.Units(R.Add(R.Mul(x, v), R.Mul(u, y)));
    R.Units(R.Mul(u, v));
    R.SubAdd(a[i + h], x);
    R.SubAdd(b[i + h], y);
    R.AddComm(x, u);
    R.AddComm(y, v);
  }

  lemma {:induction false} SumOfThree<T(!new)>(R: Ring<T>, h: int -> T, f: int -> T, g: int -> T, q: int -> T, r: T,
      s: T, n: nat)
    requires R.IsRing()
    requires forall i {:trigger h(i)} :: 0 <= i < n ==> h(i) == R.Add(R.Add(f(i), R.Mul(g(i), r)), R.Mul(q(i), s))
    ensures R.Sum(h, n) == R.Add(R.Add(R.Sum(f, n), R.Mul(R.Sum(g, n), r)), R.Mul(R.Sum(q, n), s))
  {
    hide Ring<T>.Add, Ring<T>.Mul, Ring<T>.Neg;
    if n == 0 {
      R.MulZero(r);
      R.MulZero(s);
      R.Units(R.zero);
    } else {
      SumOfThree(R, h, f, g, q, r, s, n - 1);
      R.Distribute(r, R.Sum(g, n - 1), g(n - 1));
      R.Distribute(s, R.Sum(q, n - 1), q(n - 1));
      R.AddSwap(R.Sum(f, n - 1), R.Mul(R.Sum(g, n - 1), r), f(n - 1), R.Mul(g(n - 1), r));
      R.AddSwap(R.Add(R.Sum(f, n - 1), R.Mul(R.Sum(g, n - 1), r)), R.Mul(R.Sum(q, n - 1), s),
          R.Add(f(n - 1), R.Mul(g(n - 1), r)), R.Mul(q(n - 1), s));
    }
  }

  /** The inner product of the folded vectors is c0 + cross * r + c2 * r^2. */
  lemma FoldedDot<T(!new)>(R: Ring<T>, a: seq<T>, b: seq<T>, r: T)
    requires R.IsRing() && |a| == |b|
    ensures Dot(R, FoldHalf(R, a, r), FoldHalf(R, b, r)) ==
      R.Add(R.Add(Dot(R, Lo(a), Lo(b)), R.Mul(Cross(R, a, b), r)), R.Mul(Dot(R, Delta(R, a), Delta(R, b)), R.Mul(r, r)))
  {
    hide Ring<T>.Add, Ring<T>.Mul, Ring<T>.Neg, Products, CrossTerms, FoldHalf;
    var h := Products(R, FoldHalf(R, a, r), FoldHalf(R, b, r));
    var f, g, q := Products(R, Lo(a), Lo(b)), CrossTerms(R, a, b), Products(R, Delta(R, a), Delta(R, b));
    forall i {:trigger h(i)} | 0 <= i < |a| / 2
        ensures h(i) == R.Add(R.Add(f(i), R.Mul(g(i), r)), R.Mul(q(i), R.Mul(r, r))) {
      FoldedPair(R, a, b, r, i);
    }
    SumOfThree(R, h, f, g, q, r, R.Mul(r, r), |a| / 2);
  }

  /** The inner product itself is 2 * c0 + cross + c2. */
  lemma WholeDot<T(!new)>(R: Ring<T>, a: seq<T>, b: seq<T>)
    requires R.IsRing() && |a| == |b| && |a| % 2 == 0
    ensures var c0, c2 := Dot(R, Lo(a), Lo(b)), Dot(R, Delta(R, a), Delta(R, b));
            Dot(R, a, b) == R.Add(c0, R.Add(R.Add(c0, Cross(R, a, b)), c2))
  {
    hide Ring<T>.Add, Ring<T>.Mul, Ring<T>.Neg, CrossTerms;
    var n := |a| / 2;
    var all, f, g, q := Products(R, a, b), Products(R, Lo(a), Lo(b)), CrossTerms(R, a, b),
        Products(R, Delta(R, a), Delta(R, b));
    var upper := Shifted(all, n);
    forall i {:trigger upper(i)} | 0 <= i < n
        ensures upper(i) == R.Add(R.Add(f(i), R.Mul(g(i), R.one)), R.Mul(q(i), R.one)) {
      UpperPair(R, a, b, i);
      R.Units(g(i));
      R.Units(q(i));
    }
    SumOfThree(R, upper, f, g, q, R.one, R.one, n);
    R.Units(R.Sum(g, n));
    R.Units(R.Sum(q, n));
    LowerHalf(R, a, b);
    R.SumSplit(all, upper, n, n);
  }

  lemma LowerHalf<T(!new)>(R: Ring<T>, a: seq<T>, b: seq<T>)
    requires |a| == |b|
    ensures R.Sum(Products(R, a, b), |a| / 2) == R.Sum(Products(R, Lo(a), Lo(b)), |a| / 2)
  {
    hide Ring<T>.Add, Ring<T>.Mul, Ring<T>.Neg;
    forall i | 0 <= i < |a| / 2 ensures Products(R, a, b)(i) == Products(R, Lo(a), Lo(b))(i) {
      ProductAt(R, a, b, i);
      ProductAt(R, Lo(a), Lo(b), i);
    }
    R.SumEq(Products(R, a, b), Products(R, Lo(a), Lo(b)), |a| / 2);
  }

  /** sum - 2 * c0 - c2 is the cross term. */
  lemma LinearIsCross<T(!new)>(R: Ring<T>, c0: T, x: T, c2: T)
    requires R.IsRing()
    ensures LinearCoefficient(R, R.Add(c0, R.Add(R.Add(c0, x), c2)), c0, c2) == x
  {
    hide Ring<T>.Add, Ring<T>.Mul, Ring<T>.Neg;
    var d := R.Add(c0, c0);
    R.AddAssoc(c0, R.Add(c0, x), c2);
    R.AddAssoc(c0, c0, x);
    R.AddAssoc(d, x, c2);
    R.AddComm(d, R.Add(x, c2));
    R.SubAdd(R.Add(x, c2), d);
    R.SubAdd(x, c2);
  }

  lemma ChecksOut<T(!new)>(R: Ring<T>, c0: T, x: T, c2: T)
    requires R.IsRing()
    ensures SumAt0And1(R, [c0, x, c2]) == R.Add(c0, R.Add(R.Add(c0, x), c2))
  {
    hide Ring<T>.Add, Ring<T>.Mul, Ring<T>.Neg;
    var p := [c0, x, c2];
    assert R.Sum(At(R, p), 3) == R.Add(R.Sum(At(R, p), 2), c2);
    assert R.Sum(At(R, p), 2) == R.Add(R.Sum(At(R, p), 1), x);
    OneTerm(R, At(R, p));
    R.AddComm(c0, R.Add(R.Add(c0, x), c2));
  }

  lemma QuadraticValue<T(!new)>(R: Ring<T>, c0: T, x: T, c2: T, r: T)
    requires R.IsRing()
    ensures PolyEval(R, [c0, x, c2], r) == R.Add(R.Add(c0, R.Mul(x, r)), R.Mul(c2, R.Mul(r, r)))
  {
    hide Ring<T>.Add, Ring<T>.Mul, Ring<T>.Neg;
    var p := [c0, x, c2];
    assert Strided(R, p, 0, 1, 3, r) == R.Add(c0, R.Mul(r, Strided(R, p, 1, 1, 2, r)));
    assert Strided(R, p, 1, 1, 2, r) == R.Add(x, R.Mul(r, Strided(R, p, 2, 1, 1, r)));
    assert Strided(R, p, 2, 1, 1, r) == R.Add(c2, R.Mul(r, R.zero));
    R.MulZero(r);
    R.Units(c2);
    Nested(R, c0, x, c2, r);
  }

  lemma Nested<T(!new)>(R: Ring<T>, a: T, b: T, c: T, r: T)
    requires R.IsRing()
    ensures R.Add(a, R.Mul(r, R.Add(b, R.Mul(r, c)))) == R.Add(R.Add(a, R.Mul(b, r)), R.Mul(c, R.Mul(r, r)))
  {
    R.Ac();
  }

  /** An honest round passes the check, and its value at the challenge is the inner product of the folded vectors. */
  lemma HonestRound<T(!new)>(R: Ring<T>, a: seq<T>, b: seq<T>, r: T)
    requires R.IsRing() && |a| == |b| && |a| % 2 == 0
    ensures var p := RoundPoly(R, a, b, Dot(R, a, b));
            SumAt0And1(R, p) == Dot(R, a, b) && PolyEval(R, p, r) == Dot(R, FoldHalf(R, a, r), FoldHalf(R, b, r))
  {
    hide Ring<T>.Add, Ring<T>.Mul, Ring<T>.Neg, Dot, Cross, LinearCoefficient, SumAt0And1, PolyEval, FoldHalf, Delta;
    var c0, c2 := Dot(R, Lo(a), Lo(b)), Dot(R, Delta(R, a), Delta(R, b));
    WholeDot(R, a, b);
    LinearIsCross(R, c0, Cross(R, a, b), c2);
    ChecksOut(R, c0, Cross(R, a, b), c2);
    QuadraticValue(R, c0, Cross(R, a, b), c2, r);
    FoldedDot(R, a, b, r);
  }

  /** Verification of a sequence that starts with p is verification of the rest with the next claim. */
  lemma {:induction false} VerifyShift<T(!new)>(R: Ring<T>, p: seq<T>, polys: seq<seq<T>>, x: T, challenges: seq<T>,
      claim: T, k: nat)
    requires |polys| == |challenges| && k <= |polys|
    ensures VerifyFrom(R, [p] + polys, [x] + challenges, claim, k + 1) == VerifyFrom(R, polys, challenges, claim, k)
    decreases |polys| - k
  {
    hide SumAt0And1, PolyEval;
    if k < |polys| {
      VerifyShift(R, p, polys, x, challenges, PolyEval(R, polys[k], challenges[k]), k + 1);
    }
  }

  /**
   * For all vectors of length 2^k and all challenges the verifier accepts, and its last claim is the product of the two
   * extensions at the challenges.
   */
  lemma {:induction false} SumcheckComplete<T(!new)>(R: Ring<T>, a: seq<T>, b: seq<T>, challenges: seq<T>)
    requires R.IsRing() && |a| == |b| == Pow2(|challenges|)
    ensures VerifyFrom(R, HonestPolys(R, a, b, Dot(R, a, b), challenges), challenges, Dot(R, a, b), 0)
         == Claim(R.Mul(Mle(R, At(R, a), challenges), Mle(R, At(R, b), challenges)))
    decreases |challenges|
  {
    if challenges == [] {
      SingleProduct(R, a, b, challenges);
    } else {
      hide *;
      var x, rest := challenges[0], challenges[1..];
      PowerStep(|rest|);
      SumcheckComplete(R, FoldHalf(R, a, x), FoldHalf(R, b, x), rest);
      SumcheckStep(R, a, b, x, rest);
      assert [x] + rest == challenges;
    }
  }

  lemma SumcheckStep<T(!new)>(R: Ring<T>, a: seq<T>, b: seq<T>, x: T, rest: seq<T>)
    requires R.IsRing() && |a| == |b| == Pow2(|rest| + 1)
    requires var a', b' := FoldHalf(R, a, x), FoldHalf(R, b, x);
             VerifyFrom(R, HonestPolys(R, a', b', Dot(R, a', b'), rest), rest, Dot(R, a', b'), 0)
                 == Claim(R.Mul(Mle(R, At(R, a'), rest), Mle(R, At(R, b'), rest)))
    ensures VerifyFrom(R, HonestPolys(R, a, b, Dot(R, a, b), [x] + rest), [x] + rest, Dot(R, a, b), 0)
         == Claim(R.Mul(Mle(R, At(R, a), [x] + rest), Mle(R, At(R, b), [x] + rest)))
  {
    hide *;
    var a', b', sum := FoldHalf(R, a, x), FoldHalf(R, b, x), Dot(R, a, b);
    var p, polys, challenges := RoundPoly(R, a, b, sum), HonestPolys(R, a', b', Dot(R, a', b'), rest), [x] + rest;
    EvenLength(a, |rest|);
    HonestRound(R, a, b, x);
    HonestUnfold(R, a, b, sum, x, rest);
    VerifyUnfold(R, p, polys, x, rest, sum);
    assert challenges[0] == x && challenges[1..] == rest;
    FoldHalfEvaluates(R, a, |challenges|, challenges);
    FoldHalfEvaluates(R, b, |challenges|, challenges);
  }

  lemma EvenLength<T(!new)>(a: seq<T>, n: nat)
    requires |a| == Pow2(n + 1)
    ensures |a| % 2 == 0
  {
  }

  lemma HonestUnfold<T(!new)>(R: Ring<T>, a: seq<T>, b: seq<T>, sum: T, x: T, rest: seq<T>)
    ensures var p := RoundPoly(R, a, b, sum);
            HonestPolys(R, a, b, sum, [x] + rest) == [p]
                + HonestPolys(R, FoldHalf(R, a, x), FoldHalf(R, b, x), PolyEval(R, p, x), rest)
  {
    hide RoundPoly, FoldHalf, PolyEval;
    assert ([x] + rest)[1..] == rest;
  }

  /** The first round is checked and its value becomes the claim for the others. */
  lemma VerifyUnfold<T(!new)>(R: Ring<T>, p: seq<T>, polys: seq<seq<T>>, x: T, rest: seq<T>, claim: T)
    requires |polys| == |rest| && SumAt0And1(R, p) == claim
    ensures VerifyFrom(R, [p] + polys, [x] + rest, claim, 0) == VerifyFrom(R, polys, rest, PolyEval(R, p, x), 0)
  {
    hide SumAt0And1, PolyEval;
    VerifyShift(R, p, polys, x, rest, PolyEval(R, p, x), 0);
  }

  // -- A wrong claim ------------------------------------------------------------------------------------

  /** The vector after k rounds. */
  function FoldedBy<T(!new)>(R: Ring<T>, a: seq<T>, challenges: seq<T>, k: nat): seq<T>
    requires k <= |challenges|
    decreases k
  {
    if k == 0 then a else FoldedBy(R, FoldHalf(R, a, challenges[0]), challenges[1..], k - 1)
  }

  /** In round k a polynomial other than the true one was sent and has the true one's value at the challenge. */
  ghost predicate MeetsAt<T(!new)>(R: Ring<T>, a: seq<T>, b: seq<T>, polys: seq<seq<T>>, challenges: seq<T>, k: nat)
    requires k < |polys| == |challenges|
  {
    var a', b' := FoldedBy(R, a, challenges, k), FoldedBy(R, b, challenges, k);
    var p := RoundPoly(R, a', b', Dot(R, a', b'));
    SumAt0And1(R, polys[k]) != SumAt0And1(R, p) && PolyEval(R, polys[k], challenges[k]) == PolyEval(R, p, challenges[k])
  }

  ghost predicate Meets<T(!new)>(R: Ring<T>, a: seq<T>, b: seq<T>, polys: seq<seq<T>>, challenges: seq<T>)
    requires |polys| == |challenges|
  {
    exists k :: 0 <= k < |polys| && MeetsAt(R, a, b, polys, challenges, k)
  }

  /**
   * For round polynomials of any degree, however they were chosen: an accepted run whose last claim is the product of
   * the extensions started from the true inner product, unless two different polynomials met at a challenge.
   */
  lemma SumcheckSound<T(!new)>(R: Ring<T>, a: seq<T>, b: seq<T>, polys: seq<seq<T>>, challenges: seq<T>, claim: T)
    requires R.IsRing() && |polys| == |challenges| && |a| == |b| == Pow2(|challenges|)
    requires VerifyFrom(R, polys, challenges, claim, 0)
        == Claim(R.Mul(Mle(R, At(R, a), challenges), Mle(R, At(R, b), challenges)))
    ensures claim == Dot(R, a, b) ||
      exists k {:trigger polys[k]} :: 0 <= k < |polys| &&
        var a', b' := FoldedBy(R, a, challenges, k), FoldedBy(R, b, challenges, k);
        var p := RoundPoly(R, a', b', Dot(R, a', b'));
        && SumAt0And1(R, polys[k]) != SumAt0And1(R, p)
        && PolyEval(R, polys[k], challenges[k]) == PolyEval(R, p, challenges[k])
  {
    hide Ring<T>.IsRing, SumAt0And1, PolyEval, Dot, RoundPoly, Pow2, VerifyFrom, FoldedBy;
    SoundFrom(R, a, b, polys, challenges, claim);
    if Meets(R, a, b, polys, challenges) {
      var k :| 0 <= k < |polys| && MeetsAt(R, a, b, polys, challenges, k);
      assert polys[k] == polys[k];
    }
  }

  lemma {:induction false} SoundFrom<T(!new)>(R: Ring<T>, a: seq<T>, b: seq<T>, polys: seq<seq<T>>,
      challenges: seq<T>, claim: T)
    requires R.IsRing() && |polys| == |challenges| && |a| == |b| == Pow2(|challenges|)
    requires VerifyFrom(R, polys, challenges, claim, 0)
        == Claim(R.Mul(Mle(R, At(R, a), challenges), Mle(R, At(R, b), challenges)))
    ensures claim == Dot(R, a, b) || Meets(R, a, b, polys, challenges)
    decreases |challenges|
  {
    if challenges == [] {
      SingleProduct(R, a, b, challenges);
    } else {
      hide *;
      var p, x, rest, others := polys[0], challenges[0], challenges[1..], polys[1..];
      assert [x] + rest == challenges && [p] + others == polys;
      PowerStep(|rest|);
      NextClaim(R, a, b, p, others, x, rest, claim);
      SoundFrom(R, FoldHalf(R, a, x), FoldHalf(R, b, x), others, rest, PolyEval(R, p, x));
      SoundStep(R, a, b, p, others, x, rest, claim);
    }
  }

  /** The rest of an accepted run is an accepted run about the folded vectors. */
  lemma NextClaim<T(!new)>(R: Ring<T>, a: seq<T>, b: seq<T>, p: seq<T>, others: seq<seq<T>>, x: T, rest: seq<T>,
      claim: T)
    requires R.IsRing() && |others| == |rest| && |a| == |b| == Pow2(|rest| + 1)
    requires VerifyFrom(R, [p] + others, [x] + rest, claim, 0)
        == Claim(R.Mul(Mle(R, At(R, a), [x] + rest), Mle(R, At(R, b), [x] + rest)))
    ensures var a', b' := FoldHalf(R, a, x), FoldHalf(R, b, x);
            && |a'| == |b'| == Pow2(|rest|) && SumAt0And1(R, p) == claim
            && VerifyFrom(R, others, rest, PolyEval(R, p, x), 0)
                == Claim(R.Mul(Mle(R, At(R, a'), rest), Mle(R, At(R, b'), rest)))
  {
    hide *;
    var challenges := [x] + rest;
    assert challenges[0] == x && challenges[1..] == rest;
    PowerStep(|rest|);
    FirstRound(R, p, others, x, rest, claim);
    FoldHalfEvaluates(R, a, |challenges|, challenges);
    FoldHalfEvaluates(R, b, |challenges|, challenges);
  }

  lemma SoundStep<T(!new)>(R: Ring<T>, a: seq<T>, b: seq<T>, p: seq<T>, others: seq<seq<T>>, x: T, rest: seq<T>,
      claim: T)
    requires R.IsRing() && |others| == |rest| && |a| == |b| == Pow2(|rest| + 1) && SumAt0And1(R, p) == claim
    requires var a', b' := FoldHalf(R, a, x), FoldHalf(R, b, x);
        PolyEval(R, p, x) == Dot(R, a', b') || Meets(R, a', b', others, rest)
    ensures claim == Dot(R, a, b) || Meets(R, a, b, [p] + others, [x] + rest)
  {
    hide Ring<T>.IsRing, SumAt0And1, PolyEval, Dot, FoldHalf, RoundPoly, Pow2;
    EvenLength(a, |rest|);
    HonestRound(R, a, b, x);
    var polys, challenges := [p] + others, [x] + rest;
    assert polys[0] == p && polys[1..] == others && challenges[0] == x && challenges[1..] == rest;
    var a', b' := FoldHalf(R, a, x), FoldHalf(R, b, x);
    if claim != Dot(R, a, b) {
      if PolyEval(R, p, x) == Dot(R, a', b') {
        assert MeetsAt(R, a, b, polys, challenges, 0);
      } else {
        var k :| 0 <= k < |others| && MeetsAt(R, a', b', others, rest, k);
        assert MeetsAt(R, a, b, polys, challenges, k + 1);
      }
    }
  }

  lemma FirstRound<T(!new)>(R: Ring<T>, p: seq<T>, polys: seq<seq<T>>, x: T, rest: seq<T>, claim: T)
    requires |polys| == |rest| && VerifyFrom(R, [p] + polys, [x] + rest, claim, 0).Claim?
    ensures SumAt0And1(R, p) == claim
        && VerifyFrom(R, [p] + polys, [x] + rest, claim, 0) == VerifyFrom(R, polys, rest, PolyEval(R, p, x), 0)
  {
    hide SumAt0And1, PolyEval;
    VerifyUnfold(R, p, polys, x, rest, claim);
  }

  lemma SingleProduct<T(!new)>(R: Ring<T>, a: seq<T>, b: seq<T>, point: seq<T>)
    requires R.IsRing() && |a| == |b| == 1 && point == []
    ensures Dot(R, a, b) == R.Mul(Mle(R, At(R, a), point), Mle(R, At(R, b), point))
  {
    OneTerm(R, Products(R, a, b));
    OneValue(R, a, point);
    OneValue(R, b, point);
  }
}
