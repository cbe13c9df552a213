/**
  The barycentric syndrome check: a loop over the evaluations on the coset that computes a
  fixed multiple of the upper half of the polynomial at beta, without interpolating. Chunks of
  the loop, restarted from closed-form values, add up to the whole.
 */
module Syndrome {
  import opened Arith
  import opened Rings
  import opened Polynomials
  import opened RootsOfUnity
  import opened Interpolation
  import opened CosetFft

  /** The extra facts about CircuitParams the syndrome relies on (blow-up factor two). */
  ghost predicate SyndromeParams<T(!new)>(R: Ring<T>, cp: CircuitParams<T>) {
    && cp.logTotal == cp.logN + 1
    && cp.n == Pow2(cp.logN) && cp.nEval == Pow2(cp.logTotal)
    && IsRoot(R, cp.omega, cp.logTotal)
    && cp.g != R.zero
    && cp.gN == R.Pow(cp.g, cp.n)
    && R.Mul(cp.g1mn, R.Pow(cp.g, cp.n - 1)) == R.one
    && R.Mul(cp.omega1mn, R.Pow(cp.omega, cp.n - 1)) == R.one
  }

  /** beta is not one of the coset points. */
  ghost predicate OffCoset<T(!new)>(R: Ring<T>, cp: CircuitParams<T>, beta: T) {
    forall j {:trigger Point(R, cp.g, cp.omega, j)} :: 0 <= j < cp.nEval ==> beta != Point(R, cp.g, cp.omega, j)
  }

  /** (-1)^j */
  function Sign<T(!new)>(R: Ring<T>, j: nat): T {
    if j % 2 == 0 then R.one else R.Neg(R.one)
  }

  /** The summand of the loop at iteration j, with x, w and sign in closed form. */
  function Term<T(!new)>(R: Ring<T>, cp: CircuitParams<T>, beta: T, value: T, j: nat): T {
    var x := Point(R, cp.g, cp.omega, j);
    var w := R.Mul(cp.g1mn, R.Pow(cp.omega1mn, j));
    var yjNInv := R.Div(R.one, R.Mul(cp.gN, Sign(R, j)));
    var numer := R.Sub(R.Mul(R.Pow(beta, cp.n), yjNInv), R.one);
    R.Div(R.Mul(R.Mul(value, w), numer), R.Sub(beta, x))
  }

  /** All the summands. */
  ghost function Terms<T(!new)>(R: Ring<T>, cp: CircuitParams<T>, beta: T, evals: seq<T>): int -> T {
    (j: int) => if 0 <= j < |evals| then Term(R, cp, beta, evals[j], j) else R.zero
  }

  lemma NextPoint<T(!new)>(R: Ring<T>, a: T, omega: T, j: nat)
    requires R.IsRing()
    ensures R.Mul(R.Mul(a, R.Pow(omega, j)), omega) == R.Mul(a, R.Pow(omega, j + 1))
  {
    R.MulAssoc(a, R.Pow(omega, j), omega);
    R.MulComm(R.Pow(omega, j), omega);
  }

  lemma NextSign<T(!new)>(R: Ring<T>, j: nat)
    requires R.IsRing()
    ensures R.Sub(R.zero, Sign(R, j)) == Sign(R, j + 1)
  {
    R.Units(R.Neg(Sign(R, j)));
    R.NegNeg(R.one);
  }

  lemma TermsAt<T(!new)>(R: Ring<T>, cp: CircuitParams<T>, beta: T, evals: seq<T>, j: nat)
    requires j < |evals|
    ensures Terms(R, cp, beta, evals)(j) == Term(R, cp, beta, evals[j], j)
  {
    hide Term;
  }

  /** The loop of one chunk: partial sums from restarted x, w and sign. */
  method PartialSyndrome<T(!new)>(R: Ring<T>, cp: CircuitParams<T>, beta: T, evals: seq<T>, from: nat, count: nat,
                                  xStart: T, wStart: T, signStart: T) returns (s: T)
    requires R.IsRing() && from + count <= |evals|
    requires xStart == Point(R, cp.g, cp.omega, from)
    requires wStart == R.Mul(cp.g1mn, R.Pow(cp.omega1mn, from))
    requires signStart == Sign(R, from)
    ensures s == R.RangeSum(Terms(R, cp, beta, evals), from, count)
  {
    hide Ring<T>.Add, Ring<T>.Mul, Ring<T>.Neg, Ring<T>.Inv, Ring<T>.IsRing, Sign, Terms;
    var betaN := R.Pow(beta, cp.n);
    var x, w, sign := xStart, wStart, signStart;
    s := R.zero;
    ghost var terms := Terms(R, cp, beta, evals);
    for j := 0 to count
      invariant x == Point(R, cp.g, cp.omega, from + j)
      invariant w == R.Mul(cp.g1mn, R.Pow(cp.omega1mn, from + j))
      invariant sign == Sign(R, from + j)
      invariant s == R.RangeSum(terms, from, j)
    {
      var yjNInv := R.Div(R.one, R.Mul(cp.gN, sign));
      var numer := R.Sub(R.Mul(betaN, yjNInv), R.one);
      TermsAt(R, cp, beta, evals, from + j);
      s := R.Add(s, R.Div(R.Mul(R.Mul(evals[from + j], w), numer), R.Sub(beta, x)));
      NextPoint(R, cp.g, cp.omega, from + j);
      NextPoint(R, cp.g1mn, cp.omega1mn, from + j);
      NextSign(R, from + j);
      x := R.Mul(x, cp.omega);
      w := R.Mul(w, cp.omega1mn);
      sign := R.Sub(R.zero, sign);
    }
  }

  /** reference_syndrome: the same loop over everything. */
  method ReferenceSyndrome<T(!new)>(R: Ring<T>, cp: CircuitParams<T>, evals: seq<T>, beta: T) returns (s: T)
    requires R.IsRing() && cp.nEval <= |evals|
    ensures s == R.RangeSum(Terms(R, cp, beta, evals), 0, cp.nEval)
  {
    R.Units(cp.g);
    R.Units(cp.g1mn);
    s := PartialSyndrome(R, cp, beta, evals, 0, cp.nEval, cp.g, cp.g1mn, R.one);
  }

  /**
    Whatever the chunk size, the chunk sums (each as PartialSyndrome returns it, restarted at its
    own offset) add up to the sum over everything.
   */
  lemma ChunksAddUp<T(!new)>(R: Ring<T>, cp: CircuitParams<T>, beta: T, evals: seq<T>, size: nat, sums: seq<T>)
    requires R.IsRing() && size * |sums| == cp.nEval
    requires forall ci {:trigger sums[ci]} :: 0 <= ci < |sums| ==>
        sums[ci] == R.RangeSum(Terms(R, cp, beta, evals), size * ci, size)
    ensures R.Total(sums) == R.RangeSum(Terms(R, cp, beta, evals), 0, cp.nEval)
  {
    R.EqualRanges(Terms(R, cp, beta, evals), size, sums);
  }

  // -- the identity ----------------------------------------------------------------

  /** Both factors of w are inverse powers: w_j = (1/x_j)^(n-1). */
  lemma WeightIsInversePower<T(!new)>(R: Ring<T>, cp: CircuitParams<T>, j: nat)
    requires SyndromeParams(R, cp)
    ensures R.Mul(cp.g1mn, R.Pow(cp.omega1mn, j)) == R.Pow(R.Inv(Point(R, cp.g, cp.omega, j)), cp.n - 1)
  {
    FullOrder(R, cp.omega, cp.logTotal);
    PointNonZero(R, cp.g, cp.omega, j);
    PointPow(R, R.Inv(cp.g), R.Inv(cp.omega), j, cp.n - 1);
    InverseOfPower(R, cp.g, cp.g1mn, cp.n - 1);
    InverseOfPower(R, cp.omega, cp.omega1mn, cp.n - 1);
  }

  lemma InverseOfPower<T(!new)>(R: Ring<T>, x: T, y: T, k: nat)
    requires R.IsField() && x != R.zero && R.Mul(y, R.Pow(x, k)) == R.one
    ensures y == R.Pow(R.Inv(x), k)
  {
    R.InvOfPow(x, k);
    R.MulComm(y, R.Pow(x, k));
    R.InvUnique(R.Pow(x, k), y);
  }

  /** omega^n = -1, so x_j^n = g^n * (-1)^j. */
  lemma PointToTheN<T(!new)>(R: Ring<T>, cp: CircuitParams<T>, j: nat)
    requires SyndromeParams(R, cp)
    ensures R.Pow(Point(R, cp.g, cp.omega, j), cp.n) == R.Mul(cp.gN, Sign(R, j))
  {
    PointPow(R, cp.g, cp.omega, j, cp.n);
    SignIsPower(R, j);
  }

  lemma {:induction false} SignIsPower<T(!new)>(R: Ring<T>, j: nat)
    requires R.IsRing()
    ensures R.Pow(R.Neg(R.one), j) == Sign(R, j)
  {
    if j > 0 {
      SignIsPower(R, j - 1);
      NextSign(R, j - 1);
      R.MulNeg(Sign(R, j - 1), R.one);
      R.Units(Sign(R, j - 1));
      R.Units(R.Neg(Sign(R, j - 1)));
    }
  }

  /** beta * u = 1 only when beta = x. */
  lemma PointOverUnit<T(!new)>(R: Ring<T>, beta: T, x: T, u: T)
    requires R.IsRing() && R.Mul(x, u) == R.one
    ensures R.Mul(R.Sub(beta, x), u) == R.Sub(R.Mul(beta, u), R.one)
  {
    R.SubMul(beta, x, u);
  }

  /** (beta - x) u^n S = u^(n-1) ((beta u)^n - 1) when S is the geometric sum. */
  lemma ClearDenominator<T(!new)>(R: Ring<T>, beta: T, x: T, u: T, p: T, geo: T, top: T)
    requires R.IsRing() && R.Mul(x, u) == R.one
    requires R.Mul(R.Sub(R.Mul(beta, u), R.one), geo) == R.Sub(top, R.one)
    ensures R.Mul(R.Sub(beta, x), R.Mul(R.Mul(u, p), geo)) == R.Mul(p, R.Sub(top, R.one))
  {
    PointOverUnit(R, beta, x, u);
    Regroup(R, R.Sub(beta, x), u, p, geo);
  }

  lemma Regroup<T(!new)>(R: Ring<T>, d: T, u: T, p: T, geo: T)
    requires R.IsRing()
    ensures R.Mul(d, R.Mul(R.Mul(u, p), geo)) == R.Mul(p, R.Mul(R.Mul(d, u), geo))
  {
    R.Ac();
  }

  lemma DivIs<T(!new)>(R: Ring<T>, v: T, w: T, numer: T, d: T, q: T)
    requires R.IsField() && d != R.zero && R.Mul(d, q) == R.Mul(w, numer)
    ensures R.Div(R.Mul(R.Mul(v, w), numer), d) == R.Mul(v, q)
  {
    R.MulAssoc(v, w, numer);
    R.InvLaw(d);
    DivStep(R, v, d, q, R.Inv(d));
  }

  lemma DivStep<T(!new)>(R: Ring<T>, v: T, d: T, q: T, dinv: T)
    requires R.IsRing() && R.Mul(d, dinv) == R.one
    ensures R.Mul(R.Mul(v, R.Mul(d, q)), dinv) == R.Mul(v, q)
  {
    DivRegroup(R, v, d, q, dinv);
    R.Units(R.Mul(v, q));
  }

  lemma DivRegroup<T(!new)>(R: Ring<T>, v: T, d: T, q: T, dinv: T)
    requires R.IsRing()
    ensures R.Mul(R.Mul(v, R.Mul(d, q)), dinv) == R.Mul(R.Mul(v, q), R.Mul(d, dinv))
  {
    R.Ac();
  }

  /** Each summand is the value times a polynomial in beta: no division is left. */
  lemma TermIs<T(!new)>(R: Ring<T>, cp: CircuitParams<T>, beta: T, value: T, j: nat, geo: int -> T)
    requires SyndromeParams(R, cp) && beta != Point(R, cp.g, cp.omega, j)
    requires forall i {:trigger geo(i)} :: 0 <= i < cp.n ==>
        geo(i) == R.Pow(R.Mul(beta, R.Inv(Point(R, cp.g, cp.omega, j))), i)
    ensures Term(R, cp, beta, value, j)
        == R.Mul(value, R.Mul(R.Pow(R.Inv(Point(R, cp.g, cp.omega, j)), cp.n), R.Sum(geo, cp.n)))
  {
    var x := Point(R, cp.g, cp.omega, j);
    var u := R.Inv(x);
    FullOrder(R, cp.omega, cp.logTotal);
    PointNonZero(R, cp.g, cp.omega, j);
    WeightIsInversePower(R, cp, j);
    PointToTheN(R, cp, j);
    R.InvOfPow(x, cp.n);
    R.Units(R.Pow(u, cp.n));
    R.PowDistributes(beta, u, cp.n);
    R.Geometric(R.Mul(beta, u), geo, cp.n);
    ClearDenominator(R, beta, x, u, R.Pow(u, cp.n - 1), R.Sum(geo, cp.n), R.Pow(R.Mul(beta, u), cp.n));
    if R.Sub(beta, x) == R.zero { R.SubIsZero(beta, x); }
    DivIs(R, value, R.Pow(u, cp.n - 1), R.Sub(R.Pow(R.Mul(beta, u), cp.n), R.one), R.Sub(beta, x),
          R.Mul(R.Pow(u, cp.n), R.Sum(geo, cp.n)));
  }

  /** The summand at j, expanded over the powers of beta. */
  lemma TermRow<T(!new)>(R: Ring<T>, cp: CircuitParams<T>, beta: T, value: T, j: nat, h: int -> T)
    requires SyndromeParams(R, cp) && beta != Point(R, cp.g, cp.omega, j)
    requires forall i {:trigger h(i)} :: 0 <= i < cp.n ==>
               h(i) == R.Mul(R.Pow(beta, i), R.Mul(value, R.Pow(R.Inv(Point(R, cp.g, cp.omega, j)), cp.n + i)))
    ensures Term(R, cp, beta, value, j) == R.Sum(h, cp.n)
  {
    var u := R.Inv(Point(R, cp.g, cp.omega, j));
    var geo := (i: int) => if i >= 0 then R.Pow(R.Mul(beta, u), i) else R.zero;
    TermIs(R, cp, beta, value, j, geo);
    var scale := R.Mul(value, R.Pow(u, cp.n));
    forall i | 0 <= i < cp.n ensures h(i) == R.Mul(scale, geo(i)) {
      R.PowAdd(u, cp.n, i);
      R.PowDistributes(beta, u, i);
      RowStep(R, R.Pow(beta, i), value, R.Pow(u, cp.n), R.Pow(u, i));
    }
    R.SumScale(scale, geo, h, cp.n);
    R.MulAssoc(value, R.Pow(u, cp.n), R.Sum(geo, cp.n));
  }

  lemma RowStep<T(!new)>(R: Ring<T>, b: T, v: T, un: T, ui: T)
    requires R.IsRing()
    ensures R.Mul(b, R.Mul(v, R.Mul(un, ui))) == R.Mul(R.Mul(v, un), R.Mul(b, ui))
  {
    R.Ac();
  }

  /** beta^i times the i-th moment of the evaluations is beta^i * N * c[n+i]. */
  lemma Column<T(!new)>(R: Ring<T>, cp: CircuitParams<T>, beta: T, evals: seq<T>, c: seq<T>, i: nat, f: int -> T)
    requires SyndromeParams(R, cp) && i < cp.n && |c| == cp.nEval == |evals|
    requires forall j {:trigger evals[j]} :: 0 <= j < cp.nEval ==>
        evals[j] == PolyEval(R, c, Point(R, cp.g, cp.omega, j))
    requires forall j {:trigger f(j)} :: 0 <= j < cp.nEval ==>
               f(j) == R.Mul(R.Pow(beta, i), R.Mul(evals[j], R.Pow(R.Inv(Point(R, cp.g, cp.omega, j)), cp.n + i)))
    ensures R.Sum(f, cp.nEval) == R.Mul(R.FromNat(cp.nEval), R.Mul(c[cp.n + i], R.Pow(beta, i)))
  {
    var e := (j: int) => if 0 <= j < cp.nEval then evals[j] else R.zero;
    var m := (j: int) =>
      if 0 <= j < cp.nEval then R.Mul(evals[j], R.Pow(R.Inv(Point(R, cp.g, cp.omega, j)), cp.n + i)) else R.zero;
    forall j | 0 <= j < cp.nEval ensures e(j) == PolyEval(R, c, Point(R, cp.g, cp.omega, j)) {
      assert e(j) == evals[j];
    }
    CosetMoment(R, cp.g, cp.omega, cp.logTotal, c, e, cp.n + i, m);
    R.SumScale(R.Pow(beta, i), m, f, cp.nEval);
    R.MulComm(R.Pow(beta, i), R.Mul(R.FromNat(cp.nEval), c[cp.n + i]));
    R.MulAssoc(R.FromNat(cp.nEval), c[cp.n + i], R.Pow(beta, i));
  }

  lemma Rows<T(!new)>(R: Ring<T>, cp: CircuitParams<T>, beta: T, evals: seq<T>, cell: (int, int) -> T, row: int -> T)
    requires SyndromeParams(R, cp) && OffCoset(R, cp, beta) && cp.nEval == |evals|
    requires forall j, i {:trigger cell(j, i)} :: 0 <= j < cp.nEval && 0 <= i < cp.n ==>
               cell(j, i) == R.Mul(R.Pow(beta, i), R.Mul(evals[j], R.Pow(R.Inv(Point(R, cp.g, cp.omega, j)), cp.n + i)))
    requires forall j {:trigger row(j)} :: 0 <= j < cp.nEval ==> row(j) == Term(R, cp, beta, evals[j], j)
    ensures forall j {:trigger row(j)} :: 0 <= j < cp.nEval ==> row(j) == R.Sum(i => cell(j, i), cp.n)
  {
    forall j | 0 <= j < cp.nEval ensures row(j) == R.Sum(i => cell(j, i), cp.n) {
      TermRow(R, cp, beta, evals[j], j, i => cell(j, i));
    }
  }

  lemma Columns<T(!new)>(R: Ring<T>, cp: CircuitParams<T>, beta: T, evals: seq<T>, c: seq<T>, cell: (int, int) -> T,
      p: int -> T)
    requires SyndromeParams(R, cp) && |c| == cp.nEval == |evals|
    requires IsCosetEvaluation(R, cp.g, cp.omega, c, evals)
    requires forall j, i {:trigger cell(j, i)} :: 0 <= j < cp.nEval && 0 <= i < cp.n ==>
               cell(j, i) == R.Mul(R.Pow(beta, i), R.Mul(evals[j], R.Pow(R.Inv(Point(R, cp.g, cp.omega, j)), cp.n + i)))
    requires forall i {:trigger p(i)} :: 0 <= i < cp.n ==> p(i) == R.Mul(c[cp.n + i], R.Pow(beta, i))
    ensures R.Sum(i => R.Sum(j => cell(j, i), cp.nEval), cp.n) == R.Mul(R.FromNat(cp.nEval), R.Sum(p, cp.n))
  {
    forall j | 0 <= j < cp.nEval ensures evals[j] == PolyEval(R, c, Point(R, cp.g, cp.omega, j)) {
    }
    var col := (i: int) => R.Sum(j => cell(j, i), cp.nEval);
    forall i | 0 <= i < cp.n ensures col(i) == R.Mul(R.FromNat(cp.nEval), p(i)) {
      Column(R, cp, beta, evals, c, i, j => cell(j, i));
    }
    R.SumScale(R.FromNat(cp.nEval), p, col, cp.n);
    R.SumEq(i => R.Sum(j => cell(j, i), cp.nEval), col, cp.n);
  }

  lemma SyndromeRing<T(!new)>(R: Ring<T>, cp: CircuitParams<T>)
    requires SyndromeParams(R, cp)
    ensures R.IsRing()
  {
  }

  /**
    The syndrome identity. For the evaluations of any polynomial c of degree below 2n, and any
    beta off the coset, the loop computes 2n times the upper half of c evaluated at beta.
   */
  lemma SyndromeIdentity<T(!new)>(R: Ring<T>, cp: CircuitParams<T>, beta: T, evals: seq<T>, c: seq<T>)
    requires SyndromeParams(R, cp) && OffCoset(R, cp, beta)
    requires |c| == cp.nEval == |evals|
    requires IsCosetEvaluation(R, cp.g, cp.omega, c, evals)
    ensures R.RangeSum(Terms(R, cp, beta, evals), 0, cp.nEval)
        == R.Mul(R.FromNat(2 * cp.n), PolyEval(R, c[cp.n..], beta))
  {
    hide Ring<T>.Add, Ring<T>.Mul, Ring<T>.Neg, Ring<T>.Inv, Ring<T>.Pow, Ring<T>.Sum, Point, Term, OffCoset,
        IsCosetEvaluation, IsRoot, PolyEval;
    var n, N := cp.n, cp.nEval;
    var cell := (j: int, i: int) =>
      if 0 <= j < N && 0 <= i then
          R.Mul(R.Pow(beta, i), R.Mul(evals[j], R.Pow(R.Inv(Point(R, cp.g, cp.omega, j)), n + i)))
      else R.zero;
    var row := Terms(R, cp, beta, evals);
    var p := (i: int) => if 0 <= i < n then R.Mul(c[n + i], R.Pow(beta, i)) else R.zero;
    SyndromeRing(R, cp);
    Rows(R, cp, beta, evals, cell, row);
    Columns(R, cp, beta, evals, c, cell, p);
    R.RangeSumIsSum(row, N);
    R.SumSwap(cell, row, i => R.Sum(j => cell(j, i), N), N, n);
    PolyEvalIsSum(R, c[n..], beta, p);
  }

  /** Evaluations of a polynomial of degree below n have syndrome zero at every beta off the coset. */
  lemma CodewordsHaveZeroSyndrome<T(!new)>(R: Ring<T>, cp: CircuitParams<T>, beta: T, evals: seq<T>, c: seq<T>)
    requires SyndromeParams(R, cp) && OffCoset(R, cp, beta)
    requires |c| == cp.nEval == |evals|
    requires IsCosetEvaluation(R, cp.g, cp.omega, c, evals)
    requires forall k :: cp.n <= k < |c| ==> c[k] == R.zero
    ensures R.RangeSum(Terms(R, cp, beta, evals), 0, cp.nEval) == R.zero
  {
    hide Ring<T>.Add, Ring<T>.Mul, Ring<T>.Neg, Ring<T>.Inv, Ring<T>.Pow, Ring<T>.FromNat, Strided, OffCoset,
        IsCosetEvaluation, IsRoot, Terms;
    SyndromeRing(R, cp);
    SyndromeIdentity(R, cp, beta, evals, c);
    StridedZero(R, c[cp.n..], 0, beta);
    R.MulZero(R.FromNat(2 * cp.n));
  }
}
