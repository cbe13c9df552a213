/**
 * Linear maps of the tensor code: dot products with extension
 * elements, evaluation of columns, component-wise transforms.
 */
module TensorAlgebra {
  import opened Rings
  import opened Polynomials
  import opened NegacyclicNtt

  const DIM := 5

  /** The extension: a ring with an embedded copy of the base and coordinates over a basis. */
  datatype Extension<!T(!new), !E(!new)> = Extension(base: Ring<T>, ext: Ring<E>, embed: T -> E, basis: seq<E>,
      coords: E -> seq<T>)

  /** embed(v[0]) * g[0] + ... + embed(v[n-1]) * g[n-1] */
  function Dot<T(!new), E(!new)>(X: Extension<T, E>, v: seq<T>, g: seq<E>, n: nat): E
    requires n <= |v| && n <= |g|
  {
    if n == 0 then X.ext.zero else X.ext.Add(Dot(X, v, g, n - 1), X.ext.Mul(X.embed(v[n - 1]), g[n - 1]))
  }

  /** The element with the given coordinates. */
  function FromCoords<T(!new), E(!new)>(X: Extension<T, E>, c: seq<T>): E
    requires |c| == |X.basis|
  {
    Dot(X, c, X.basis, |c|)
  }

  ghost predicate Homomorphism<T(!new), E(!new)>(X: Extension<T, E>) {
    && X.embed(X.base.zero) == X.ext.zero
    && X.embed(X.base.one) == X.ext.one
    && (forall a, b {:trigger X.embed(X.base.Add(a, b))} ::
          X.embed(X.base.Add(a, b)) == X.ext.Add(X.embed(a), X.embed(b)))
    && (forall a, b {:trigger X.embed(X.base.Mul(a, b))} ::
          X.embed(X.base.Mul(a, b)) == X.ext.Mul(X.embed(a), X.embed(b)))
  }

  /** A commutative ring over the base, with five coordinates that determine an element. */
  ghost predicate IsExtension<T(!new), E(!new)>(X: Extension<T, E>) {
    && X.base.IsRing() && X.ext.IsRing() && Homomorphism(X) && |X.basis| == DIM
    && (forall e {:trigger X.coords(e)} :: |X.coords(e)| == DIM && FromCoords(X, X.coords(e)) == e)
  }

  lemma ExtensionRings<T(!new), E(!new)>(X: Extension<T, E>)
    requires IsExtension(X)
    ensures X.base.IsRing() && X.ext.IsRing() && Homomorphism(X) && |X.basis| == DIM
  {
  }

  // -- Dot products are linear ---------------------------------------------------------------------------

  lemma {:induction false} DotZero<T(!new), E(!new)>(X: Extension<T, E>, v: seq<T>, g: seq<E>, n: nat)
    requires X.ext.IsRing() && Homomorphism(X) && n <= |v| && n <= |g|
    requires forall j {:trigger v[j]} :: 0 <= j < n ==> v[j] == X.base.zero
    ensures Dot(X, v, g, n) == X.ext.zero
  {
    hide Ring<E>.Add, Ring<E>.Mul, Ring<E>.Neg;
    if n > 0 {
      DotZero(X, v, g, n - 1);
      assert v[n - 1] == X.base.zero;
      X.ext.MulZero(g[n - 1]);
      X.ext.Units(X.ext.zero);
    }
  }

  lemma {:induction false} DotLinear<T(!new), E(!new)>(X: Extension<T, E>, v: seq<T>, a: seq<T>, b: seq<T>, x: T,
      g: seq<E>, n: nat)
    requires X.ext.IsRing() && Homomorphism(X) && n <= |g| && n <= |v| && n <= |a| && n <= |b|
    requires forall j {:trigger v[j]} :: 0 <= j < n ==> v[j] == X.base.Add(a[j], X.base.Mul(x, b[j]))
    ensures Dot(X, v, g, n) == X.ext.Add(Dot(X, a, g, n), X.ext.Mul(X.embed(x), Dot(X, b, g, n)))
  {
    hide Ring<T>.Add, Ring<T>.Mul, Ring<E>.Add, Ring<E>.Mul, Ring<E>.Neg, Ring<E>.IsRing;
    if n == 0 {
      X.ext.MulZero(X.embed(x));
      X.ext.Units(X.ext.zero);
    } else {
      var m := n - 1;
      DotLinear(X, v, a, b, x, g, m);
      assert v[m] == X.base.Add(a[m], X.base.Mul(x, b[m]));
      LinearStep(X.ext, Dot(X, a, g, m), Dot(X, b, g, m), X.embed(x), X.embed(a[m]), X.embed(b[m]), g[m]);
    }
  }

  lemma LinearStep<E(!new)>(K: Ring<E>, p: E, q: E, x: E, a: E, b: E, g: E)
    requires K.IsRing()
    ensures K.Add(K.Add(p, K.Mul(x, q)), K.Mul(K.Add(a, K.Mul(x, b)), g))
        == K.Add(K.Add(p, K.Mul(a, g)), K.Mul(x, K.Add(q, K.Mul(b, g))))
  {
    hide Ring<E>.Add, Ring<E>.Mul, Ring<E>.Neg;
    K.Distribute(g, a, K.Mul(x, b));
    K.MulAssoc(x, b, g);
    K.AddSwap(p, K.Mul(x, q), K.Mul(a, g), K.Mul(x, K.Mul(b, g)));
    K.Distribute(x, q, K.Mul(b, g));
  }

  // -- Columns of a matrix as polynomials -------------------------------------------------------------------

  ghost predicate Rectangular<T>(rows: seq<seq<T>>, width: nat) {
    forall r {:trigger rows[r]} :: 0 <= r < |rows| ==> |rows[r]| == width
  }

  function ColumnOf<T>(rows: seq<seq<T>>, j: nat): (c: seq<T>)
    requires forall r {:trigger rows[r]} :: 0 <= r < |rows| ==> j < |rows[r]|
    ensures |c| == |rows|
  {
    seq(|rows|, (r: int) requires 0 <= r < |rows| => rows[r][j])
  }

  /** Rows k, k+1, ... of every column, evaluated at x. */
  function ColumnValues<T(!new)>(R: Ring<T>, rows: seq<seq<T>>, width: nat, x: T, k: nat): (v: seq<T>)
    requires Rectangular(rows, width) && k <= |rows|
    ensures |v| == width
  {
    seq(width, (j: int) requires 0 <= j < width => Strided(R, ColumnOf(rows, j), k, 1, |rows| - k, x))
  }

  lemma ColumnStep<T(!new)>(R: Ring<T>, rows: seq<seq<T>>, width: nat, x: T, k: nat, j: nat)
    requires Rectangular(rows, width) && k < |rows| && j < width
    ensures |rows[k]| == width
    ensures ColumnValues(R, rows, width, x, k)[j]
        == R.Add(rows[k][j], R.Mul(x, ColumnValues(R, rows, width, x, k + 1)[j]))
  {
    hide Ring<T>.Add, Ring<T>.Mul;
    assert ColumnOf(rows, j)[k] == rows[k][j];
  }

  /** One dot product for each row. */
  function Dots<T(!new), E(!new)>(X: Extension<T, E>, rows: seq<seq<T>>, g: seq<E>): (d: seq<E>)
    requires Rectangular(rows, |g|)
    ensures |d| == |rows|
  {
    seq(|rows|, (r: int) requires 0 <= r < |rows| => Dot(X, rows[r], g, |g|))
  }

  /** The polynomial of the dot products at an embedded point is the dot product of the column values. */
  lemma {:induction false} EvalOfDots<T(!new), E(!new)>(X: Extension<T, E>, rows: seq<seq<T>>, g: seq<E>, x: T, k: nat)
    requires X.ext.IsRing() && Homomorphism(X) && Rectangular(rows, |g|) && k <= |rows|
    ensures Strided(X.ext, Dots(X, rows, g), k, 1, |rows| - k, X.embed(x))
        == Dot(X, ColumnValues(X.base, rows, |g|, x, k), g, |g|)
    decreases |rows| - k
  {
    hide Ring<T>.Add, Ring<T>.Mul, Ring<E>.Add, Ring<E>.Mul, Ring<E>.Neg, Ring<E>.IsRing, Dot, ColumnValues;
    var w, v := |g|, ColumnValues(X.base, rows, |g|, x, k);
    if k == |rows| {
      NoRows(X.base, rows, w, x);
      DotZero(X, v, g, w);
    } else {
      EvalOfDots(X, rows, g, x, k + 1);
      var rest := ColumnValues(X.base, rows, w, x, k + 1);
      forall j {:trigger v[j]} | 0 <= j < w ensures v[j] == X.base.Add(rows[k][j], X.base.Mul(x, rest[j])) {
        ColumnStep(X.base, rows, w, x, k, j);
      }
      DotLinear(X, v, rows[k], rest, x, g, w);
    }
  }

  lemma NoRows<T(!new)>(R: Ring<T>, rows: seq<seq<T>>, width: nat, x: T)
    requires Rectangular(rows, width)
    ensures forall j {:trigger ColumnValues(R, rows, width, x, |rows|)[j]} :: 0 <= j < width ==>
        ColumnValues(R, rows, width, x, |rows|)[j] == R.zero
  {
  }

  // -- Evaluating rows and columns commutes -------------------------------------------------------------------

  lemma {:induction false} StridedLinear<T(!new)>(R: Ring<T>, v: seq<T>, a: seq<T>, b: seq<T>, x: T, y: T, i: nat)
    requires R.IsRing() && |v| == |a| == |b| && i <= |v|
    requires forall j {:trigger v[j]} :: 0 <= j < |v| ==> v[j] == R.Add(a[j], R.Mul(x, b[j]))
    ensures Strided(R, v, i, 1, |v| - i, y)
        == R.Add(Strided(R, a, i, 1, |v| - i, y), R.Mul(x, Strided(R, b, i, 1, |v| - i, y)))
    decreases |v| - i
  {
    hide Ring<T>.Add, Ring<T>.Mul, Ring<T>.Neg, Ring<T>.IsRing;
    if i == |v| {
      R.MulZero(x);
      R.Units(R.zero);
    } else {
      StridedLinear(R, v, a, b, x, y, i + 1);
      assert v[i] == R.Add(a[i], R.Mul(x, b[i]));
      HornerLinear(R, a[i], b[i], x, y, Strided(R, a, i + 1, 1, |v| - i - 1, y),
          Strided(R, b, i + 1, 1, |v| - i - 1, y));
    }
  }

  lemma HornerLinear<T(!new)>(R: Ring<T>, a: T, b: T, x: T, y: T, p: T, q: T)
    requires R.IsRing()
    ensures R.Add(R.Add(a, R.Mul(x, b)), R.Mul(y, R.Add(p, R.Mul(x, q))))
        == R.Add(R.Add(a, R.Mul(y, p)), R.Mul(x, R.Add(b, R.Mul(y, q))))
  {
    hide Ring<T>.Add, Ring<T>.Mul, Ring<T>.Neg;
    R.Distribute(y, p, R.Mul(x, q));
    R.Distribute(x, b, R.Mul(y, q));
    R.MulAssoc(y, x, q);
    R.MulAssoc(x, y, q);
    R.MulComm(x, y);
    R.AddSwap(a, R.Mul(x, b), R.Mul(y, p), R.Mul(x, R.Mul(y, q)));
  }

  /** The value at y of each row. */
  function RowValues<T(!new)>(R: Ring<T>, rows: seq<seq<T>>, y: T): (d: seq<T>)
    ensures |d| == |rows|
  {
    seq(|rows|, (r: int) requires 0 <= r < |rows| => PolyEval(R, rows[r], y))
  }

  /** Rows first or columns first, a matrix has one value at (x, y). */
  lemma {:induction false} EvaluationCommutes<T(!new)>(R: Ring<T>, rows: seq<seq<T>>, width: nat, x: T, y: T, k: nat)
    requires R.IsRing() && Rectangular(rows, width) && k <= |rows|
    ensures Strided(R, RowValues(R, rows, y), k, 1, |rows| - k, x) == PolyEval(R, ColumnValues(R, rows, width, x, k), y)
    decreases |rows| - k
  {
    hide Ring<T>.Add, Ring<T>.Mul, Ring<T>.Neg, Ring<T>.IsRing, ColumnValues;
    var v := ColumnValues(R, rows, width, x, k);
    if k == |rows| {
      NoRows(R, rows, width, x);
      StridedZero(R, v, 0, y);
    } else {
      EvaluationCommutes(R, rows, width, x, y, k + 1);
      var rest := ColumnValues(R, rows, width, x, k + 1);
      forall j {:trigger v[j]} | 0 <= j < width ensures v[j] == R.Add(rows[k][j], R.Mul(x, rest[j])) {
        ColumnStep(R, rows, width, x, k, j);
      }
      StridedLinear(R, v, rows[k], rest, x, y, 0);
    }
  }

  // -- Transforms of zero-padded polynomials ---------------------------------------------------------------------

  /** The first n coefficients, padded with zeros. */
  function Padded<T(!new)>(R: Ring<T>, coeffs: seq<T>, n: nat): (p: seq<T>)
    ensures |p| == n
  {
    seq(n, (i: int) requires 0 <= i < n => if i < |coeffs| then coeffs[i] else R.zero)
  }

  function FwdPoly<T(!new)>(R: Ring<T>, plan: NttPlan<T>, coeffs: seq<T>): (out: seq<T>)
    ensures |out| == |plan.evalPts|
  {
    Fwd(R, plan, Padded(R, coeffs, |plan.evalPts|))
  }

  lemma {:induction false} PaddedEval<T(!new)>(R: Ring<T>, coeffs: seq<T>, n: nat, y: T, i: nat)
    requires R.IsRing() && i <= |coeffs| <= n
    ensures Strided(R, Padded(R, coeffs, n), i, 1, n - i, y) == Strided(R, coeffs, i, 1, |coeffs| - i, y)
    decreases |coeffs| - i
  {
    hide Ring<T>.Add, Ring<T>.Mul, Ring<T>.Neg;
    if i == |coeffs| {
      StridedZero(R, Padded(R, coeffs, n), i, y);
    } else {
      PaddedEval(R, coeffs, n, y, i + 1);
    }
  }

  lemma FwdPolyEvaluates<T(!new)>(R: Ring<T>, plan: NttPlan<T>, coeffs: seq<T>, k: nat)
    requires R.IsRing() && |coeffs| <= |plan.evalPts| && k < |plan.evalPts|
    ensures FwdPoly(R, plan, coeffs)[k] == PolyEval(R, coeffs, plan.evalPts[k])
  {
    hide Ring<T>.Add, Ring<T>.Mul, Ring<T>.Neg;
    PaddedEval(R, coeffs, |plan.evalPts|, plan.evalPts[k], 0);
  }

  /** The coordinates of each element, as a matrix with one row for each. */
  function CoordRows<T(!new), E(!new)>(X: Extension<T, E>, coeffs: seq<E>): (rows: seq<seq<T>>)
    ensures |rows| == |coeffs|
  {
    seq(|coeffs|, (i: int) requires 0 <= i < |coeffs| => X.coords(coeffs[i]))
  }

  /** One base transform for each coordinate. */
  function Components<T(!new), E(!new)>(X: Extension<T, E>, plan: NttPlan<T>, coeffs: seq<E>): (comps: seq<seq<T>>)
    requires IsExtension(X)
    ensures |comps| == DIM && forall c {:trigger comps[c]} :: 0 <= c < DIM ==> |comps[c]| == |plan.evalPts|
  {
    seq(DIM, (c: int) requires 0 <= c < DIM => FwdPoly(X.base, plan, ColumnOf(CoordRows(X, coeffs), c)))
  }

  /** The transform of extension elements: five base transforms, put together position by position. */
  function FwdPolyEf<T(!new), E(!new)>(X: Extension<T, E>, plan: NttPlan<T>, coeffs: seq<E>): (out: seq<E>)
    requires IsExtension(X)
    ensures |out| == |plan.evalPts|
  {
    var len := if |coeffs| < |plan.evalPts| then |coeffs| else |plan.evalPts|;
    var comps := Components(X, plan, coeffs[..len]);
    seq(|plan.evalPts|, (i: int) requires 0 <= i < |plan.evalPts| => FromCoords(X, ColumnOf(comps, i)))
  }

  lemma DotsOfCoords<T(!new), E(!new)>(X: Extension<T, E>, coeffs: seq<E>)
    requires IsExtension(X)
    ensures Rectangular(CoordRows(X, coeffs), DIM) && Dots(X, CoordRows(X, coeffs), X.basis) == coeffs
  {
    hide Dot, Ring<T>.IsRing, Ring<E>.IsRing, Homomorphism;
    var rows := CoordRows(X, coeffs);
    forall r | 0 <= r < |coeffs| ensures |rows[r]| == DIM && Dot(X, rows[r], X.basis, DIM) == coeffs[r] {
      assert FromCoords(X, X.coords(coeffs[r])) == coeffs[r];
    }
  }

  /** Component-wise, the transform still evaluates: at the embedded points, in the extension. */
  lemma FwdPolyEfEvaluates<T(!new), E(!new)>(X: Extension<T, E>, plan: NttPlan<T>, coeffs: seq<E>, i: nat)
    requires IsExtension(X) && |coeffs| <= |plan.evalPts| && i < |plan.evalPts|
    ensures FwdPolyEf(X, plan, coeffs)[i] == PolyEval(X.ext, coeffs, X.embed(plan.evalPts[i]))
  {
    hide Ring<T>.Add, Ring<T>.Mul, Ring<T>.Neg, Ring<E>.Add, Ring<E>.Mul, Ring<E>.Neg, Dot, Strided, FwdPoly;
    assert coeffs[..|coeffs|] == coeffs;
    var comps := Components(X, plan, coeffs);
    var rows, x := CoordRows(X, coeffs), plan.evalPts[i];
    var values := ColumnValues(X.base, rows, DIM, x, 0);
    forall c | 0 <= c < DIM ensures comps[c][i] == values[c] { FwdPolyEvaluates(X.base, plan, ColumnOf(rows, c), i); }
    assert ColumnOf(comps, i) == values;
    EvalOfDots(X, rows, X.basis, x, 0);
    DotsOfCoords(X, coeffs);
    assert FwdPolyEf(X, plan, coeffs)[i] == FromCoords(X, ColumnOf(comps, i));
    assert FromCoords(X, values) == Dot(X, values, X.basis, DIM);
    assert PolyEval(X.ext, coeffs, X.embed(x)) == Dot(X, values, X.basis, DIM);
  }
}
