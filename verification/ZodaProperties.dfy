/** The tensor code is complete, and decoding all rows gives the data back. */
module ZodaProperties {
  import opened Arith
  import opened Rings
  import opened Polynomials
  import opened NegacyclicNtt
  import opened TensorAlgebra
  import opened MerkleTrees
  import opened Zoda
  import KoalaBear
  import CircuitParameters

  /** KoalaBear has a plan for every size up to 2^23. */
  lemma KoalaBearPlan(logN: nat)
    requires logN < KoalaBear.TWO_ADICITY
    ensures ValidPlan(KoalaBear.KoalaBearRing(), NewPlan(KoalaBear.KoalaBearRing(), logN, KoalaBear.GetOmega(logN + 1)))
  {
    CircuitParameters.OmegaIsRoot(logN + 1);
  }

  // -- Both axes of the code ----------------------------------------------------------------------------

  /** Row i of the encoded columns evaluates every column of w at point i. */
  lemma EncodedRow<T(!new)>(R: Ring<T>, plan: NttPlan<T>, w: seq<seq<T>>, width: nat, i: nat)
    requires R.IsRing() && Rectangular(w, width) && |w| <= |plan.evalPts| && i < |plan.evalPts|
    ensures ColumnOf(EncodeColumns(R, plan, w, width), i) == ColumnValues(R, w, width, plan.evalPts[i], 0)
  {
    hide Ring<T>.Add, Ring<T>.Mul, Ring<T>.Neg, FwdPoly;
    var z := EncodeColumns(R, plan, w, width);
    forall c | 0 <= c < width ensures z[c][i] == ColumnValues(R, w, width, plan.evalPts[i], 0)[c] {
      FwdPolyEvaluates(R, plan, ColumnOf(w, c), i);
    }
  }

  /** Column-then-row coding agrees with row-then-column coding at every position. */
  lemma CodingCommutes<T(!new)>(R: Ring<T>, planRow: NttPlan<T>, planCol: NttPlan<T>, rows: seq<seq<T>>, width: nat,
      i: nat, j: nat)
    requires R.IsRing() && Rectangular(rows, width) && |rows| <= |planCol.evalPts| && width <= |planRow.evalPts|
    requires i < |planCol.evalPts| && j < |planRow.evalPts|
    ensures EncodeColumns(R, planCol, EncodeRows(R, planRow, rows), |planRow.evalPts|)[j][i]
         == FwdPoly(R, planRow, ColumnOf(EncodeColumns(R, planCol, rows, width), i))[j]
  {
    hide Ring<T>.Add, Ring<T>.Mul, Ring<T>.Neg, FwdPoly, Strided;
    var w := EncodeRows(R, planRow, rows);
    var x, y := planCol.evalPts[i], planRow.evalPts[j];
    FwdPolyEvaluates(R, planCol, ColumnOf(w, j), i);
    forall r | 0 <= r < |rows| ensures ColumnOf(w, j)[r] == RowValues(R, rows, y)[r] {
      FwdPolyEvaluates(R, planRow, rows[r], j);
    }
    assert ColumnOf(w, j) == RowValues(R, rows, y);
    EvaluationCommutes(R, rows, width, x, y, 0);
    EncodedRow(R, planCol, rows, width, i);
    FwdPolyEvaluates(R, planRow, ColumnOf(EncodeColumns(R, planCol, rows, width), i), j);
  }

  // -- The three linear checks -----------------------------------------------------------------------------

  /** Check 6: a row of Z against the random vector is the transform of z_r at that row. */
  lemma RowCheck<T(!new), E(!new)>(X: Extension<T, E>, planCol: NttPlan<T>, w: seq<seq<T>>, g: seq<E>, i: nat)
    requires IsExtension(X) && Rectangular(w, |g|) && |w| <= |planCol.evalPts| && i < |planCol.evalPts|
    ensures Dot(X, ColumnOf(EncodeColumns(X.base, planCol, w, |g|), i), g, |g|)
        == FwdPolyEf(X, planCol, Dots(X, w, g))[i]
  {
    hide Ring<T>.Add, Ring<T>.Mul, Ring<T>.Neg, Ring<E>.Add, Ring<E>.Mul, Ring<E>.Neg, FwdPolyEf, Strided, Dot,
        EncodeColumns;
    ExtensionRings(X);
    EncodedRow(X.base, planCol, w, |g|, i);
    EvalOfDots(X, w, g, planCol.evalPts[i], 0);
    FwdPolyEfEvaluates(X, planCol, Dots(X, w, g), i);
  }

  /** Check 7: a column of Z against the other random vector is the transform of z'_r' at that column. */
  lemma ColCheck<T(!new), E(!new)>(X: Extension<T, E>, planRow: NttPlan<T>, planCol: NttPlan<T>, rows: seq<seq<T>>,
      width: nat, g: seq<E>, j: nat)
    requires IsExtension(X) && Rectangular(rows, width) && |rows| <= |planCol.evalPts| == |g|
        && width <= |planRow.evalPts| && j < |planRow.evalPts|
    ensures Dot(X, EncodeColumns(X.base, planCol, EncodeRows(X.base, planRow, rows), |planRow.evalPts|)[j], g, |g|)
         == FwdPolyEf(X, planRow, Dots(X, EncodeColumns(X.base, planCol, rows, width), g))[j]
  {
    hide Ring<T>.Add, Ring<T>.Mul, Ring<T>.Neg, Ring<E>.Add, Ring<E>.Mul, Ring<E>.Neg, FwdPolyEf, Strided, Dot,
        EncodeColumns, FwdPoly;
    ExtensionRings(X);
    var x := EncodeColumns(X.base, planCol, rows, width);
    var zj := EncodeColumns(X.base, planCol, EncodeRows(X.base, planRow, rows), |planRow.evalPts|)[j];
    var values := ColumnValues(X.base, x, |g|, planRow.evalPts[j], 0);
    forall i | 0 <= i < |g| ensures zj[i] == values[i] {
      CodingCommutes(X.base, planRow, planCol, rows, width, i, j);
      FwdPolyEvaluates(X.base, planRow, ColumnOf(x, i), j);
    }
    assert zj == values;
    EvalOfDots(X, x, g, planRow.evalPts[j], 0);
    FwdPolyEfEvaluates(X, planRow, Dots(X, x, g), j);
  }

  // Check 8: both sides are the sum of g'_i * z_ij * g_j, in two orders.

  lemma {:induction false} NewColumn<T(!new), E(!new)>(X: Extension<T, E>, column: seq<T>, h: seq<E>, c: E, u: seq<E>,
      v: seq<E>, m: nat)
    requires X.ext.IsRing() && m <= |column| && m <= |h| && m <= |u| && m <= |v|
    requires forall i {:trigger v[i]} :: 0 <= i < m ==> v[i] == X.ext.Add(u[i], X.ext.Mul(X.embed(column[i]), c))
    ensures InnerProduct(X.ext, h, v, m) == X.ext.Add(InnerProduct(X.ext, h, u, m), X.ext.Mul(c, Dot(X, column, h, m)))
  {
    hide Ring<E>.Add, Ring<E>.Mul, Ring<E>.Neg;
    var K := X.ext;
    if m == 0 {
      K.MulZero(c);
      K.Units(K.zero);
    } else {
      var i := m - 1;
      NewColumn(X, column, h, c, u, v, i);
      assert v[i] == K.Add(u[i], K.Mul(X.embed(column[i]), c));
      CrossStep(K, InnerProduct(K, h, u, i), Dot(X, column, h, i), c, h[i], u[i], X.embed(column[i]));
    }
  }

  lemma CrossStep<E(!new)>(K: Ring<E>, p: E, d: E, c: E, h: E, u: E, z: E)
    requires K.IsRing()
    ensures K.Add(K.Add(p, K.Mul(c, d)), K.Mul(h, K.Add(u, K.Mul(z, c))))
        == K.Add(K.Add(p, K.Mul(h, u)), K.Mul(c, K.Add(d, K.Mul(z, h))))
  {
    hide Ring<E>.Add, Ring<E>.Mul, Ring<E>.Neg;
    K.Distribute(h, u, K.Mul(z, c));
    K.Distribute(c, d, K.Mul(z, h));
    K.MulComm(h, K.Mul(z, c));
    K.MulAssoc(z, c, h);
    K.MulComm(c, K.Mul(z, h));
    K.MulAssoc(z, h, c);
    K.MulComm(h, c);
    K.AddSwap(p, K.Mul(c, d), K.Mul(h, u), K.Mul(h, K.Mul(z, c)));
  }

  /** The first k columns of each row, against the random vector. */
  function PartialDots<T(!new), E(!new)>(X: Extension<T, E>, z: seq<seq<T>>, height: nat, g: seq<E>,
      k: nat): (u: seq<E>)
    requires Rectangular(z, height) && k <= |z| && k <= |g|
    ensures |u| == height
  {
    seq(height, (i: int) requires 0 <= i < height => Dot(X, ColumnOf(z, i), g, k))
  }

  lemma {:induction false} CrossCheck<T(!new), E(!new)>(X: Extension<T, E>, z: seq<seq<T>>, g: seq<E>, h: seq<E>,
      k: nat)
    requires X.ext.IsRing() && Rectangular(z, |h|) && k <= |z| && k <= |g|
    ensures InnerProduct(X.ext, h, PartialDots(X, z, |h|, g, k), |h|) == InnerProduct(X.ext, g, Dots(X, z, h), k)
  {
    hide Ring<E>.Add, Ring<E>.Mul, Ring<E>.Neg;
    var m := |h|;
    if k == 0 {
      ZeroProduct(X.ext, h, PartialDots(X, z, m, g, 0), m);
    } else {
      CrossCheck(X, z, g, h, k - 1);
      NewColumn(X, z[k - 1], h, g[k - 1], PartialDots(X, z, m, g, k - 1), PartialDots(X, z, m, g, k), m);
    }
  }

  lemma {:induction false} ZeroProduct<E(!new)>(K: Ring<E>, h: seq<E>, u: seq<E>, m: nat)
    requires K.IsRing() && m <= |h| && m <= |u| && forall i {:trigger u[i]} :: 0 <= i < m ==> u[i] == K.zero
    ensures InnerProduct(K, h, u, m) == K.zero
  {
    hide Ring<E>.Add, Ring<E>.Mul, Ring<E>.Neg;
    if m > 0 {
      ZeroProduct(K, h, u, m - 1);
      assert u[m - 1] == K.zero;
      K.MulZero(h[m - 1]);
      K.Units(K.zero);
    }
  }

  // -- Completeness ----------------------------------------------------------------------------------------

  ghost predicate HonestRows<T(!new), E(!new), H(!new)>(S: Setup<T, E, H>, enc: ZodaEncoding<T, E, H>,
      openings: seq<Opening<T, H>>)
    requires Rectangular(enc.zColVecs, enc.m)
  {
    forall k {:trigger openings[k]} :: 0 <= k < |openings| ==>
        openings[k].index < enc.m && openings[k] == RowOpening(S, enc, openings[k].index)
  }

  ghost predicate HonestCols<T(!new), E(!new), H(!new)>(S: Setup<T, E, H>, enc: ZodaEncoding<T, E, H>,
      openings: seq<Opening<T, H>>)
  {
    forall k {:trigger openings[k]} :: 0 <= k < |openings| ==>
        openings[k].index < |enc.zColVecs| && openings[k] == ColOpening(S, enc, openings[k].index)
  }

  /** The parts of an honest encoding the checks read. */
  lemma EncodingFacts<T(!new), E(!new), H(!new)>(S: Setup<T, E, H>, enc: ZodaEncoding<T, E, H>, rows: seq<seq<T>>,
      logN: nat, logNPrime: nat)
    requires ValidSetup(S) && S.psi(logN + 1).Some? && S.psi(logNPrime + 1).Some?
        && Encodes(S, enc, rows, logN, logNPrime)
    ensures |rows| == enc.n && enc.m == 2 * enc.n && enc.mPrime == 2 * enc.nPrime
    ensures enc.m == Pow2(logN + 1) == |Plan(S, logN + 1).evalPts| && TrailingZeros(enc.m) == logN + 1
    ensures enc.mPrime == Pow2(logNPrime + 1) == |Plan(S, logNPrime + 1).evalPts|
        && TrailingZeros(enc.mPrime) == logNPrime + 1
    ensures |rows| <= enc.m && enc.nPrime <= enc.mPrime && Rectangular(rows, enc.nPrime)
    ensures |enc.zColVecs| == enc.mPrime && Rectangular(enc.zColVecs, enc.m)
    ensures |enc.treeRows.layers| > 0 && |enc.treeRows.layers[|enc.treeRows.layers| - 1]| > 0
    ensures |enc.treeCols.layers| > 0 && |enc.treeCols.layers[|enc.treeCols.layers| - 1]| > 0
    ensures var comm := Commit(enc);
            && comm.rootRows == RootOf(S.pairs, LeafHashes(S.rowLeaf, Transposed(enc.zColVecs, enc.m)))
            && comm.rootCols == RootOf(S.pairs, LeafHashes(S.colLeaf, enc.zColVecs))
  {
    hide Layers, IsExtension, Dots, FwdPoly;
    TrailingZerosOfPower(logN + 1);
    TrailingZerosOfPower(logNPrime + 1);
  }

  lemma PathsAreHonest<T(!new), H(!new)>(pairs: PairHash<H>, leaf: seq<T> -> H, vectors: seq<seq<T>>,
      openings: seq<Opening<T, H>>)
    requires |vectors| > 0
    requires forall k {:trigger openings[k]} :: 0 <= k < |openings| ==>
        openings[k].index < |vectors| && openings[k].data == vectors[openings[k].index]
    requires forall k {:trigger openings[k]} :: 0 <= k < |openings| ==>
        openings[k].proof == MerkleProof(openings[k].index, PathOf(pairs, LeafHashes(leaf, vectors), openings[k].index))
    ensures PathsHold(pairs, leaf, RootOf(pairs, LeafHashes(leaf, vectors)), openings)
  {
    hide RootOf, Climb, PathOf;
    var leaves := LeafHashes(leaf, vectors);
    forall k {:trigger openings[k]} | 0 <= k < |openings|
      ensures Climb(pairs, leaf(openings[k].data), openings[k].proof.index, openings[k].proof.path)
          == RootOf(pairs, leaves)
    {
      OpeningVerifies(pairs, leaves, openings[k].index);
      assert leaves[openings[k].index] == leaf(openings[k].data);
    }
  }

  /** The linear checks of an honest encoding, at every index. */
  lemma HonestChecks<T(!new), E(!new), H(!new)>(S: Setup<T, E, H>, enc: ZodaEncoding<T, E, H>, rows: seq<seq<T>>,
      logN: nat, logNPrime: nat)
    requires ValidSetup(S) && S.psi(logN + 1).Some? && S.psi(logNPrime + 1).Some?
        && Encodes(S, enc, rows, logN, logNPrime)
    ensures Rectangular(enc.zColVecs, enc.m) && |enc.zColVecs| == enc.mPrime
    ensures |enc.treeRows.layers| > 0 && |enc.treeRows.layers[|enc.treeRows.layers| - 1]| > 0
    ensures |enc.treeCols.layers| > 0 && |enc.treeCols.layers[|enc.treeCols.layers| - 1]| > 0
    ensures var comm := Commit(enc);
        var gBar, gBarPrime := S.gBar(comm.rootRows, comm.rootCols, enc.mPrime),
        S.gBarPrime(comm.rootRows, comm.rootCols, enc.m);
            && |gBar| == enc.mPrime && |gBarPrime| == enc.m
            && FwdPolyEf(S.X, Plan(S, logN + 1), enc.zR) == PartialDots(S.X, enc.zColVecs, enc.m, gBar, enc.mPrime)
            && FwdPolyEf(S.X, Plan(S, logNPrime + 1), enc.zRPrime) == Dots(S.X, enc.zColVecs, gBarPrime)
  {
    hide Layers, IsExtension, FwdPoly, FwdPolyEf, NewPlan, Dot, EncodeColumns, EncodeRows, RootOf;
    EncodingFacts(S, enc, rows, logN, logNPrime);
    assert IsExtension(S.X) by { PlanIsValid(S, logN + 1); }
    var planCol, planRow, comm := Plan(S, logN + 1), Plan(S, logNPrime + 1), Commit(enc);
    var gBar, gBarPrime := S.gBar(comm.rootRows, comm.rootCols, enc.mPrime),
        S.gBarPrime(comm.rootRows, comm.rootCols, enc.m);
    var w := EncodeRows(S.X.base, planRow, rows);
    var gZr, gPrimeZrp := FwdPolyEf(S.X, planCol, enc.zR), FwdPolyEf(S.X, planRow, enc.zRPrime);
    forall i | 0 <= i < enc.m ensures gZr[i] == PartialDots(S.X, enc.zColVecs, enc.m, gBar, enc.mPrime)[i] {
      RowCheck(S.X, planCol, w, gBar, i);
    }
    forall j | 0 <= j < enc.mPrime ensures gPrimeZrp[j] == Dots(S.X, enc.zColVecs, gBarPrime)[j] {
      ColCheck(S.X, planRow, planCol, rows, enc.nPrime, gBarPrime, j);
    }
  }

  /** Every set of opened rows and columns of an honest encoding is accepted. */
  lemma HonestIsAccepted<T(!new), E(!new), H(!new)>(S: Setup<T, E, H>, enc: ZodaEncoding<T, E, H>, rows: seq<seq<T>>,
      logN: nat, logNPrime: nat, rowOpenings: seq<Opening<T, H>>, colOpenings: seq<Opening<T, H>>)
    requires ValidSetup(S) && S.psi(logN + 1).Some? && S.psi(logNPrime + 1).Some?
        && Encodes(S, enc, rows, logN, logNPrime)
    requires Rectangular(enc.zColVecs, enc.m) && HonestRows(S, enc, rowOpenings) && HonestCols(S, enc, colOpenings)
    ensures |enc.treeRows.layers| > 0 && |enc.treeRows.layers[|enc.treeRows.layers| - 1]| > 0
    ensures |enc.treeCols.layers| > 0 && |enc.treeCols.layers[|enc.treeCols.layers| - 1]| > 0
    ensures WellFormed(S, Commit(enc), rowOpenings, colOpenings) && Accepts(S, Commit(enc), rowOpenings, colOpenings)
    ensures var comm := Commit(enc);
        |rows| == comm.n && Rectangular(rows, comm.nPrime) && comm.m == 2 * comm.n && comm.mPrime == 2 * comm.nPrime
  {
    hide Layers, IsExtension, FwdPoly, FwdPolyEf, NewPlan, Dot, EncodeColumns, EncodeRows, RootOf, PathsHold, Encodes,
        Ring<E>.Add, Ring<E>.Mul, Ring<E>.IsRing;
    EncodingFacts(S, enc, rows, logN, logNPrime);
    HonestChecks(S, enc, rows, logN, logNPrime);
    assert IsExtension(S.X) by { PlanIsValid(S, logN + 1); }
    ExtensionRings(S.X);
    var comm := Commit(enc);
    PathsAreHonest(S.pairs, S.rowLeaf, Transposed(enc.zColVecs, enc.m), rowOpenings);
    PathsAreHonest(S.pairs, S.colLeaf, enc.zColVecs, colOpenings);
    var gBar, gBarPrime := S.gBar(comm.rootRows, comm.rootCols, enc.mPrime),
        S.gBarPrime(comm.rootRows, comm.rootCols, enc.m);
    CrossCheck(S.X, enc.zColVecs, gBar, gBarPrime, enc.mPrime);
    var gZr, gPrimeZrp := FwdPolyEf(S.X, Plan(S, logN + 1), enc.zR),
        FwdPolyEf(S.X, Plan(S, logNPrime + 1), enc.zRPrime);
    forall k {:trigger rowOpenings[k]} | 0 <= k < |rowOpenings| ensures CheckHolds(S.X, rowOpenings[k], gBar, gZr) {
      assert gZr[rowOpenings[k].index] == Dot(S.X, rowOpenings[k].data, gBar, enc.mPrime);
    }
    forall k {:trigger colOpenings[k]} | 0 <= k < |colOpenings|
        ensures CheckHolds(S.X, colOpenings[k], gBarPrime, gPrimeZrp) {
      assert gPrimeZrp[colOpenings[k].index] == Dot(S.X, colOpenings[k].data, gBarPrime, enc.m);
    }
  }

  // -- Decoding ---------------------------------------------------------------------------------------------

  /** The inverse of a transformed polynomial is the polynomial, and the coefficients beyond it are zero. */
  lemma InverseOfPadded<T(!new)>(R: Ring<T>, plan: NttPlan<T>, coeffs: seq<T>)
    requires ValidPlan(R, plan) && |coeffs| <= |plan.evalPts|
    ensures var out := Inverse(R, plan, FwdPoly(R, plan, coeffs));
            out[..|coeffs|] == coeffs && forall i :: |coeffs| <= i < |out| ==> out[i] == R.zero
  {
    hide ValidPlan, Inverse, Fwd;
    InverseUndoesFwd(R, plan, Padded(R, coeffs, |plan.evalPts|));
  }

  /** Decoding the encoded columns of a matrix gives its columns. */
  lemma DecodeEncoded<T(!new)>(R: Ring<T>, plan: NttPlan<T>, w: seq<seq<T>>, width: nat, c: nat)
    requires ValidPlan(R, plan) && Rectangular(w, width) && |w| <= |plan.evalPts| && c < width
    ensures DecodeColumns(R, plan, Transposed(EncodeColumns(R, plan, w, width), |plan.evalPts|), width, |w|)[c]
        == ColumnOf(w, c)
  {
    hide ValidPlan, Inverse, FwdPoly;
    var z := EncodeColumns(R, plan, w, width);
    assert ColumnOf(Transposed(z, |plan.evalPts|), c) == z[c];
    InverseOfPadded(R, plan, ColumnOf(w, c));
  }

  lemma DecodeUndoesEncode<T(!new), E(!new), H(!new)>(S: Setup<T, E, H>, enc: ZodaEncoding<T, E, H>, data: seq<T>,
      logN: nat, logNPrime: nat)
    requires ValidSetup(S) && S.psi(logN + 1).Some? && S.psi(logNPrime + 1).Some?
        && |data| == Pow2(logN) * Pow2(logNPrime)
    requires Encodes(S, enc, DataRows(data, Pow2(logN), Pow2(logNPrime)), logN, logNPrime)
    ensures Rectangular(enc.zColVecs, Pow2(logN + 1)) && |enc.zColVecs| == Pow2(logNPrime + 1)
    ensures DecodeFromRows(S, Transposed(enc.zColVecs, Pow2(logN + 1)), logN + 1, logNPrime + 1, Pow2(logN),
        Pow2(logNPrime)) == data
  {
    hide IsExtension, FwdPoly, NewPlan, ValidPlan, Inverse, DecodeColumns, DataRows, EncodeRows, EncodeColumns,
        Flattened;
    var rows, F := DataRows(data, Pow2(logN), Pow2(logNPrime)), S.X.base;
    EncodingFacts(S, enc, rows, logN, logNPrime);
    PlanIsValid(S, logN + 1);
    PlanIsValid(S, logNPrime + 1);
    var planCol, planRow, z := Plan(S, logN + 1), Plan(S, logNPrime + 1), enc.zColVecs;
    var w := EncodeRows(F, planRow, rows);
    var wCols := DecodeColumns(F, planCol, Transposed(z, enc.m), enc.mPrime, enc.n);
    forall c | 0 <= c < enc.mPrime ensures wCols[c] == ColumnOf(w, c) { DecodeEncoded(F, planCol, w, enc.mPrime, c); }
    var out := DecodeColumns(F, planRow, wCols, enc.n, enc.nPrime);
    forall r | 0 <= r < enc.n ensures out[r] == rows[r] { DecodedRow(F, planRow, rows, enc.nPrime, wCols, r); }
    assert out == rows;
    FlattenedRows(data, enc.n, enc.nPrime);
  }

  lemma DecodedRow<T(!new)>(R: Ring<T>, planRow: NttPlan<T>, rows: seq<seq<T>>, width: nat, wCols: seq<seq<T>>, r: nat)
    requires ValidPlan(R, planRow) && Rectangular(rows, width) && width <= |planRow.evalPts| == |wCols| && r < |rows|
        && Rectangular(wCols, |rows|)
    requires forall c {:trigger wCols[c]} :: 0 <= c < |wCols| ==> wCols[c] == ColumnOf(EncodeRows(R, planRow, rows), c)
    ensures DecodeColumns(R, planRow, wCols, |rows|, width)[r] == rows[r]
  {
    hide ValidPlan, Inverse, FwdPoly;
    var w := EncodeRows(R, planRow, rows);
    assert ColumnOf(wCols, r) == w[r];
    InverseOfPadded(R, planRow, rows[r]);
  }

  lemma FlattenedRows<T>(data: seq<T>, n: nat, width: nat)
    requires |data| == n * width
    ensures Flattened(DataRows(data, n, width)) == data
  {
    FlattenedPrefix(data, n, width, n);
    assert DataRows(data, n, width)[..n] == DataRows(data, n, width);
    assert data[..n * width] == data;
  }

  lemma {:induction false} FlattenedPrefix<T>(data: seq<T>, n: nat, width: nat, k: nat)
    requires |data| == n * width && k <= n
    ensures 0 <= k * width <= |data| && Flattened(DataRows(data, n, width)[..k]) == data[..k * width]
  {
    var rows := DataRows(data, n, width);
    MulLe(0, k, width);
    MulLe(k, n, width);
    if k > 0 {
      FlattenedPrefix(data, n, width, k - 1);
      assert rows[..k][..k - 1] == rows[..k - 1];
      MulLe(k - 1, k, width);
      assert rows[k - 1] == data[(k - 1) * width..k * width];
    }
  }
}
