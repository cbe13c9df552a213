/** The tensor code: encoding a matrix along both axes, committing to it, opening, verifying and decoding. */
module Zoda {
  import opened Wrappers
  import opened Arith
  import opened Rings
  import opened NegacyclicNtt
  import opened TensorAlgebra
  import opened RootsOfUnity
  import opened MerkleTrees

  /** The extension, the root the transform library uses at each supported size, and the hash functions. */
  datatype Setup<!T(!new), !E(!new), !H(!new)> = Setup(
    X: Extension<T, E>, psi: nat -> Option<T>,
    rowLeaf: seq<T> -> H, colLeaf: seq<T> -> H, pairs: PairHash<H>,
    gBar: (H, H, nat) -> seq<E>, gBarPrime: (H, H, nat) -> seq<E>)

  ghost predicate ValidSetup<T(!new), E(!new), H(!new)>(S: Setup<T, E, H>) {
    && IsExtension(S.X)
    && (forall L: nat {:trigger S.psi(L)} :: S.psi(L).Some? ==> IsRoot(S.X.base, S.psi(L).value, L + 1))
    && (forall a, b, n: nat {:trigger S.gBar(a, b, n)} :: |S.gBar(a, b, n)| == n)
    && (forall a, b, n: nat {:trigger S.gBarPrime(a, b, n)} :: |S.gBarPrime(a, b, n)| == n)
  }

  function Plan<T(!new), E(!new), H(!new)>(S: Setup<T, E, H>, logN: nat): NttPlan<T>
    requires S.psi(logN).Some?
  {
    NewPlan(S.X.base, logN, S.psi(logN).value)
  }

  lemma PlanIsValid<T(!new), E(!new), H(!new)>(S: Setup<T, E, H>, logN: nat)
    requires ValidSetup(S) && S.psi(logN).Some?
    ensures ValidPlan(S.X.base, Plan(S, logN)) && |Plan(S, logN).evalPts| == Pow2(logN) && IsExtension(S.X)
  {
  }

  datatype ZodaEncoding<T, E, H> = ZodaEncoding(
    treeRows: MerkleTree<H>, treeCols: MerkleTree<H>, zColVecs: seq<seq<T>>, zR: seq<E>, zRPrime: seq<E>,
    n: nat, nPrime: nat, m: nat, mPrime: nat)

  datatype ZodaCommitment<E, H> = ZodaCommitment(rootRows: H, rootCols: H, zR: seq<E>, zRPrime: seq<E>, n: nat,
      nPrime: nat, m: nat, mPrime: nat)

  /** A row or a column with its authentication path. */
  datatype Opening<T, H> = Opening(index: nat, data: seq<T>, proof: MerkleProof<H>)

  datatype VerifyResult = VerifyResult(rowChecks: nat, rowPassed: nat, colChecks: nat, colPassed: nat, crossCheck: bool,
      merkleOk: bool)
  {
    predicate Accept() { merkleOk && rowPassed == rowChecks && colPassed == colChecks && crossCheck }
  }

  // -- Encoding ---------------------------------------------------------------------------------------

  /** The transform of every row. */
  function EncodeRows<T(!new)>(R: Ring<T>, plan: NttPlan<T>, rows: seq<seq<T>>): (w: seq<seq<T>>)
    ensures |w| == |rows| && Rectangular(w, |plan.evalPts|)
  {
    seq(|rows|, (r: int) requires 0 <= r < |rows| => FwdPoly(R, plan, rows[r]))
  }

  /** The transform of every column, column by column. */
  function EncodeColumns<T(!new)>(R: Ring<T>, plan: NttPlan<T>, rows: seq<seq<T>>, width: nat): (z: seq<seq<T>>)
    requires Rectangular(rows, width)
    ensures |z| == width && Rectangular(z, |plan.evalPts|)
  {
    seq(width, (c: int) requires 0 <= c < width => FwdPoly(R, plan, ColumnOf(rows, c)))
  }

  /** Row r of the row-major data. */
  function RowOf<T>(data: seq<T>, width: nat, r: nat): (row: seq<T>)
    requires 0 <= r * width <= (r + 1) * width <= |data|
    ensures |row| == width
  {
    assert (r + 1) * width == r * width + width;
    data[r * width..(r + 1) * width]
  }

  function DataRows<T>(data: seq<T>, n: nat, width: nat): (rows: seq<seq<T>>)
    requires |data| == n * width
    ensures |rows| == n && Rectangular(rows, width)
  {
    seq(n, (r: int) requires 0 <= r < n => MulLe(0, r, width); MulLe(r, r + 1, width); MulLe(r + 1, n, width);
        RowOf(data, width, r))
  }

  function LeafHashes<T(!new), H(!new)>(leaf: seq<T> -> H, vectors: seq<seq<T>>): (leaves: seq<H>)
    ensures |leaves| == |vectors|
  {
    seq(|vectors|, (i: int) requires 0 <= i < |vectors| => leaf(vectors[i]))
  }

  /** Row i of a matrix kept by columns, for every i. */
  function Transposed<T>(vectors: seq<seq<T>>, height: nat): (rows: seq<seq<T>>)
    requires Rectangular(vectors, height)
    ensures |rows| == height && Rectangular(rows, |vectors|)
  {
    seq(height, (i: int) requires 0 <= i < height => ColumnOf(vectors, i))
  }

  /** The accumulating loop of the dot products. */
  method DotLoop<T(!new), E(!new)>(X: Extension<T, E>, v: seq<T>, g: seq<E>, n: nat) returns (acc: E)
    requires n <= |v| && n <= |g|
    ensures acc == Dot(X, v, g, n)
  {
    acc := X.ext.zero;
    for j := 0 to n
      invariant acc == Dot(X, v, g, j)
    {
      acc := X.ext.Add(acc, X.ext.Mul(X.embed(v[j]), g[j]));
    }
  }

  method DotEach<T(!new), E(!new)>(X: Extension<T, E>, rows: seq<seq<T>>, g: seq<E>) returns (d: seq<E>)
    requires Rectangular(rows, |g|)
    ensures d == Dots(X, rows, g)
  {
    hide Dot;
    d := [];
    for r := 0 to |rows|
      invariant d == Dots(X, rows, g)[..r]
    {
      var acc := DotLoop(X, rows[r], g, |g|);
      assert Dots(X, rows, g)[..r + 1] == Dots(X, rows, g)[..r] + [Dots(X, rows, g)[r]];
      d := d + [acc];
    }
    assert Dots(X, rows, g)[..|rows|] == Dots(X, rows, g);
  }

  /** What an honest encoding of a matrix is. */
  ghost predicate Encodes<T(!new), E(!new), H(!new)>(S: Setup<T, E, H>, enc: ZodaEncoding<T, E, H>, rows: seq<seq<T>>,
      logN: nat, logNPrime: nat)
    requires ValidSetup(S) && S.psi(logN + 1).Some? && S.psi(logNPrime + 1).Some?
  {
    var F, planRow, planCol := S.X.base, Plan(S, logNPrime + 1), Plan(S, logN + 1);
    && |rows| == enc.n == Pow2(logN) && enc.nPrime == Pow2(logNPrime) && enc.m == 2 * enc.n
    && enc.mPrime == 2 * enc.nPrime
    && Rectangular(rows, enc.nPrime)
    && var w := EncodeRows(F, planRow, rows);
    && enc.zColVecs == EncodeColumns(F, planCol, w, enc.mPrime)
    && var rowLeaves, colLeaves := LeafHashes(S.rowLeaf, Transposed(enc.zColVecs, enc.m)),
        LeafHashes(S.colLeaf, enc.zColVecs);
    && enc.treeRows.layers == Layers(S.pairs, rowLeaves) && enc.treeCols.layers == Layers(S.pairs, colLeaves)
    && var rootRows, rootCols := RootOf(S.pairs, rowLeaves), RootOf(S.pairs, colLeaves);
    && enc.zR == Dots(S.X, w, S.gBar(rootRows, rootCols, enc.mPrime))
    && enc.zRPrime == Dots(S.X, EncodeColumns(F, planCol, rows, enc.nPrime), S.gBarPrime(rootRows, rootCols, enc.m))
  }

  method Encode<T(!new), E(!new), H(!new)>(S: Setup<T, E, H>, data: seq<T>, logN: nat, logNPrime: nat)
    returns (enc: ZodaEncoding<T, E, H>)
    requires ValidSetup(S) && S.psi(logN + 1).Some? && S.psi(logNPrime + 1).Some?
    requires |data| == Pow2(logN) * Pow2(logNPrime) && Pow2(logN) >= 32 && Pow2(logNPrime) >= 32
    ensures Encodes(S, enc, DataRows(data, Pow2(logN), Pow2(logNPrime)), logN, logNPrime)
  {
    hide Dot, FwdPoly, Layers, IsExtension, IsRoot, NewPlan, Dots;
    var n, nPrime := Pow2(logN), Pow2(logNPrime);
    var m, mPrime := 2 * n, 2 * nPrime;
    var planRow, planCol := Plan(S, logNPrime + 1), Plan(S, logN + 1);
    PlanIsValid(S, logNPrime + 1);
    PlanIsValid(S, logN + 1);
    var rows := DataRows(data, n, nPrime);
    var wPrimeRows := EncodeRows(S.X.base, planRow, rows);
    var zColVecs := EncodeColumns(S.X.base, planCol, wPrimeRows, mPrime);
    var rowLeaves := LeafHashes(S.rowLeaf, Transposed(zColVecs, m));
    var colLeaves := LeafHashes(S.colLeaf, zColVecs);
    var treeRows := FromLeaves(S.pairs, rowLeaves);
    var treeCols := FromLeaves(S.pairs, colLeaves);
    var rootRows, rootCols := Root(treeRows), Root(treeCols);
    var zR := DotEach(S.X, wPrimeRows, S.gBar(rootRows, rootCols, mPrime));
    var zRPrime := DotEach(S.X, EncodeColumns(S.X.base, planCol, rows, nPrime), S.gBarPrime(rootRows, rootCols, m));
    enc := ZodaEncoding(treeRows, treeCols, zColVecs, zR, zRPrime, n, nPrime, m, mPrime);
  }

  function Root<H>(tree: MerkleTree<H>): H
    requires |tree.layers| > 0 && |tree.layers[|tree.layers| - 1]| > 0
  {
    tree.layers[|tree.layers| - 1][0]
  }

  function Commit<T(!new), E(!new), H(!new)>(enc: ZodaEncoding<T, E, H>): ZodaCommitment<E, H>
    requires |enc.treeRows.layers| > 0 && |enc.treeRows.layers[|enc.treeRows.layers| - 1]| > 0
    requires |enc.treeCols.layers| > 0 && |enc.treeCols.layers[|enc.treeCols.layers| - 1]| > 0
  {
    ZodaCommitment(Root(enc.treeRows), Root(enc.treeCols), enc.zR, enc.zRPrime, enc.n, enc.nPrime, enc.m, enc.mPrime)
  }

  // -- Verification -------------------------------------------------------------------------------------

  /** The sizes of a commitment for which the transforms exist and the cross check stays in bounds. */
  ghost predicate Sized<T(!new), E(!new), H(!new)>(S: Setup<T, E, H>, m: nat) {
    m > 0 && S.psi(TrailingZeros(m)).Some? && m == Pow2(TrailingZeros(m))
  }

  ghost predicate WellFormed<T(!new), E(!new), H(!new)>(S: Setup<T, E, H>, comm: ZodaCommitment<E, H>,
      rows: seq<Opening<T, H>>, cols: seq<Opening<T, H>>)
  {
    && Sized(S, comm.m) && Sized(S, comm.mPrime)
    && (forall i {:trigger rows[i]} :: 0 <= i < |rows| ==> rows[i].index < comm.m && comm.mPrime <= |rows[i].data|)
    && (forall j {:trigger cols[j]} :: 0 <= j < |cols| ==> cols[j].index < comm.mPrime && comm.m <= |cols[j].data|)
  }

  /** a[0] * b[0] + ... + a[n-1] * b[n-1] */
  function InnerProduct<E(!new)>(K: Ring<E>, a: seq<E>, b: seq<E>, n: nat): E
    requires n <= |a| && n <= |b|
  {
    if n == 0 then K.zero else K.Add(InnerProduct(K, a, b, n - 1), K.Mul(a[n - 1], b[n - 1]))
  }

  /** Which openings have a path that climbs to the root. */
  ghost predicate PathsHold<T(!new), H(!new)>(pairs: PairHash<H>, leaf: seq<T> -> H, root: H,
      openings: seq<Opening<T, H>>)
  {
    forall i {:trigger openings[i]} :: 0 <= i < |openings| ==>
        Climb(pairs, leaf(openings[i].data), openings[i].proof.index, openings[i].proof.path) == root
  }

  /** Which openings satisfy their linear check. */
  ghost predicate CheckHolds<T(!new), E(!new), H(!new)>(X: Extension<T, E>, o: Opening<T, H>, g: seq<E>,
      expected: seq<E>)
  {
    |g| <= |o.data| && o.index < |expected| && Dot(X, o.data, g, |g|) == expected[o.index]
  }

  ghost function PassCount<T(!new), E(!new), H(!new)>(X: Extension<T, E>, openings: seq<Opening<T, H>>, g: seq<E>,
      expected: seq<E>, k: nat): nat
    requires k <= |openings|
  {
    if k == 0 then 0
    else
      PassCount(X, openings, g, expected, k - 1) + if CheckHolds(X, openings[k - 1], g, expected) then 1 else 0
  }

  lemma {:induction false} AllPass<T(!new), E(!new), H(!new)>(X: Extension<T, E>, openings: seq<Opening<T, H>>,
      g: seq<E>, expected: seq<E>, k: nat)
    requires k <= |openings|
    ensures PassCount(X, openings, g, expected, k) <= k
    ensures PassCount(X, openings, g, expected, k) == k <==> forall i {:trigger openings[i]} :: 0 <= i < k ==>
        CheckHolds(X, openings[i], g, expected)
  {
    hide CheckHolds;
    if k > 0 { AllPass(X, openings, g, expected, k - 1); }
  }

  /** The places of the openings whose dot product is the value expected at their index. */
  ghost function Passing<T(!new), E(!new), H(!new)>(X: Extension<T, E>, openings: seq<Opening<T, H>>, g: seq<E>,
      expected: seq<E>, k: nat): set<int>
    requires k <= |openings|
    requires forall i {:trigger openings[i]} :: 0 <= i < |openings| ==>
        openings[i].index < |expected| && |g| <= |openings[i].data|
  {
    set i | 0 <= i < k && Dot(X, openings[i].data, g, |g|) == expected[openings[i].index]
  }

  lemma {:induction false} PassCountIsSize<T(!new), E(!new), H(!new)>(X: Extension<T, E>, openings: seq<Opening<T, H>>,
      g: seq<E>, expected: seq<E>, k: nat)
    requires k <= |openings|
    requires forall i {:trigger openings[i]} :: 0 <= i < |openings| ==>
        openings[i].index < |expected| && |g| <= |openings[i].data|
    ensures PassCount(X, openings, g, expected, k) == |Passing(X, openings, g, expected, k)|
  {
    hide Dot;
    if k == 0 {
      assert Passing(X, openings, g, expected, k) == {};
    } else {
      PassCountIsSize(X, openings, g, expected, k - 1);
      var before := Passing(X, openings, g, expected, k - 1);
      assert Passing(X, openings, g, expected, k) ==
        before + if CheckHolds(X, openings[k - 1], g, expected) then {k - 1} else {};
    }
  }

  /** What an accepted verification establishes. */
  ghost predicate Accepts<T(!new), E(!new), H(!new)>(S: Setup<T, E, H>, comm: ZodaCommitment<E, H>,
      rows: seq<Opening<T, H>>, cols: seq<Opening<T, H>>)
    requires ValidSetup(S) && WellFormed(S, comm, rows, cols)
  {
    var planCol, planRow := Plan(S, TrailingZeros(comm.m)), Plan(S, TrailingZeros(comm.mPrime));
    var gBar, gBarPrime := S.gBar(comm.rootRows, comm.rootCols, comm.mPrime),
        S.gBarPrime(comm.rootRows, comm.rootCols, comm.m);
    var gZr, gPrimeZrp := FwdPolyEf(S.X, planCol, comm.zR), FwdPolyEf(S.X, planRow, comm.zRPrime);
    && PathsHold(S.pairs, S.rowLeaf, comm.rootRows, rows) && PathsHold(S.pairs, S.colLeaf, comm.rootCols, cols)
    && (forall i {:trigger rows[i]} :: 0 <= i < |rows| ==> CheckHolds(S.X, rows[i], gBar, gZr))
    && (forall j {:trigger cols[j]} :: 0 <= j < |cols| ==> CheckHolds(S.X, cols[j], gBarPrime, gPrimeZrp))
    && InnerProduct(S.X.ext, gBarPrime, gZr, comm.m) == InnerProduct(S.X.ext, gBar, gPrimeZrp, comm.mPrime)
  }

  method CheckPaths<T(!new), H(!new, ==)>(pairs: PairHash<H>, leaf: seq<T> -> H, root: H, openings: seq<Opening<T, H>>)
    returns (ok: bool)
    ensures ok <==> PathsHold(pairs, leaf, root, openings)
  {
    hide Climb;
    ok := true;
    for i := 0 to |openings|
      invariant ok <==> PathsHold(pairs, leaf, root, openings[..i])
    {
      var o := openings[i];
      var holds := MerkleTrees.Verify(pairs, o.proof, leaf(o.data), root);
      assert openings[..i + 1] == openings[..i] + [o];
      assert openings[..i + 1][i] == o;
      if !holds { ok := false; }
    }
    assert openings[..|openings|] == openings;
  }

  /** The loop over rows or columns: None when an opening is too short or its index is out of range. */
  method CheckOpenings<T(!new), E(!new, ==), H(!new)>(X: Extension<T, E>, openings: seq<Opening<T, H>>, g: seq<E>,
      expected: seq<E>) returns (passed: Option<nat>)
    ensures passed.Some? <==> forall i {:trigger openings[i]} :: 0 <= i < |openings| ==>
        openings[i].index < |expected| && |g| <= |openings[i].data|
    ensures passed.Some? ==> passed.value == PassCount(X, openings, g, expected, |openings|)
  {
    hide Dot;
    var count := 0;
    for i := 0 to |openings|
      invariant forall t {:trigger openings[t]} :: 0 <= t < i ==>
          openings[t].index < |expected| && |g| <= |openings[t].data|
      invariant count == PassCount(X, openings, g, expected, i)
    {
      if |openings[i].data| < |g| || openings[i].index >= |expected| { return None; }
      var lhs := DotLoop(X, openings[i].data, g, |g|);
      if lhs == expected[openings[i].index] { count := count + 1; }
    }
    passed := Some(count);
  }

  method InnerProductLoop<E(!new)>(K: Ring<E>, a: seq<E>, b: seq<E>, n: nat) returns (acc: E)
    requires n <= |a| && n <= |b|
    ensures acc == InnerProduct(K, a, b, n)
  {
    acc := K.zero;
    for i := 0 to n
      invariant acc == InnerProduct(K, a, b, i)
    {
      acc := K.Add(acc, K.Mul(a[i], b[i]));
    }
  }

  /** None is a panic of the original: an unsupported size, an index out of range or an opening that is too short. */
  method Verify<T(!new), E(!new, ==), H(!new, ==)>(S: Setup<T, E, H>, comm: ZodaCommitment<E, H>,
      rows: seq<Opening<T, H>>, cols: seq<Opening<T, H>>)
    returns (result: Option<VerifyResult>)
    requires ValidSetup(S)
    ensures result.Some? <==> WellFormed(S, comm, rows, cols)
    ensures result.Some? ==>
        (result.value.merkleOk <==>
          PathsHold(S.pairs, S.rowLeaf, comm.rootRows, rows) && PathsHold(S.pairs, S.colLeaf, comm.rootCols, cols))
    ensures result.Some? ==>
        var r, X := result.value, S.X;
        var gBar, gBarPrime := S.gBar(comm.rootRows, comm.rootCols, comm.mPrime),
            S.gBarPrime(comm.rootRows, comm.rootCols, comm.m);
        var gZr, gPrimeZrp := FwdPolyEf(X, Plan(S, TrailingZeros(comm.m)), comm.zR),
            FwdPolyEf(X, Plan(S, TrailingZeros(comm.mPrime)), comm.zRPrime);
        && r.rowChecks == |rows| && r.colChecks == |cols|
        && r.rowPassed == |Passing(X, rows, gBar, gZr, |rows|)|
        && r.colPassed == |Passing(X, cols, gBarPrime, gPrimeZrp, |cols|)|
        && (r.crossCheck <==>
            InnerProduct(X.ext, gBarPrime, gZr, comm.m) == InnerProduct(X.ext, gBar, gPrimeZrp, comm.mPrime))
    ensures result.Some? ==> (result.value.Accept() <==> Accepts(S, comm, rows, cols))
  {
    hide PathsHold, CheckHolds, IsExtension, IsRoot, NewPlan, FwdPolyEf, Passing, Dot;
    if comm.m == 0 || comm.mPrime == 0 { return None; }
    var logM, logMPrime := TrailingZeros(comm.m), TrailingZeros(comm.mPrime);
    if S.psi(logM).None? || S.psi(logMPrime).None? || Pow2(logM) != comm.m || Pow2(logMPrime) != comm.mPrime {
      return None;
    }
    PlanIsValid(S, logM);
    PlanIsValid(S, logMPrime);
    var gBar, gBarPrime := S.gBar(comm.rootRows, comm.rootCols, comm.mPrime),
        S.gBarPrime(comm.rootRows, comm.rootCols, comm.m);
    var rowPaths := CheckPaths(S.pairs, S.rowLeaf, comm.rootRows, rows);
    var colPaths := CheckPaths(S.pairs, S.colLeaf, comm.rootCols, cols);
    var gZr := FwdPolyEf(S.X, Plan(S, logM), comm.zR);
    var rowPassed := CheckOpenings(S.X, rows, gBar, gZr);
    var gPrimeZrp := FwdPolyEf(S.X, Plan(S, logMPrime), comm.zRPrime);
    var colPassed := CheckOpenings(S.X, cols, gBarPrime, gPrimeZrp);
    if rowPassed.None? || colPassed.None? { return None; }
    var crossLhs := InnerProductLoop(S.X.ext, gBarPrime, gZr, comm.m);
    var crossRhs := InnerProductLoop(S.X.ext, gBar, gPrimeZrp, comm.mPrime);
    AllPass(S.X, rows, gBar, gZr, |rows|);
    AllPass(S.X, cols, gBarPrime, gPrimeZrp, |cols|);
    PassCountIsSize(S.X, rows, gBar, gZr, |rows|);
    PassCountIsSize(S.X, cols, gBarPrime, gPrimeZrp, |cols|);
    result := Some(VerifyResult(|rows|, rowPassed.value, |cols|, colPassed.value, crossLhs == crossRhs, rowPaths
        && colPaths));
  }

  // -- Openings and decoding ---------------------------------------------------------------------------

  method OpenRow<T(!new), E(!new), H(!new)>(S: Setup<T, E, H>, enc: ZodaEncoding<T, E, H>, i: nat)
    returns (o: Opening<T, H>)
    requires i < enc.m && Rectangular(enc.zColVecs, enc.m)
    requires enc.treeRows.layers == Layers(S.pairs, LeafHashes(S.rowLeaf, Transposed(enc.zColVecs, enc.m)))
    ensures o == RowOpening(S, enc, i)
    ensures o.index == o.proof.index == i && |o.data| == |enc.zColVecs|
    ensures forall c {:trigger o.data[c]} :: 0 <= c < |o.data| ==> o.data[c] == enc.zColVecs[c][i]
    ensures Climb(S.pairs, S.rowLeaf(o.data), i, o.proof.path)
        == RootOf(S.pairs, LeafHashes(S.rowLeaf, Transposed(enc.zColVecs, enc.m)))
  {
    var proof := Open(S.pairs, enc.treeRows, LeafHashes(S.rowLeaf, Transposed(enc.zColVecs, enc.m)), i);
    o := Opening(i, ColumnOf(enc.zColVecs, i), proof);
    OpeningVerifies(S.pairs, LeafHashes(S.rowLeaf, Transposed(enc.zColVecs, enc.m)), i);
  }

  method OpenCol<T(!new), E(!new), H(!new)>(S: Setup<T, E, H>, enc: ZodaEncoding<T, E, H>, j: nat)
    returns (o: Opening<T, H>)
    requires j < |enc.zColVecs| && enc.treeCols.layers == Layers(S.pairs, LeafHashes(S.colLeaf, enc.zColVecs))
    ensures o == ColOpening(S, enc, j)
    ensures o.index == o.proof.index == j && o.data == enc.zColVecs[j]
    ensures Climb(S.pairs, S.colLeaf(o.data), j, o.proof.path)
        == RootOf(S.pairs, LeafHashes(S.colLeaf, enc.zColVecs))
  {
    var proof := Open(S.pairs, enc.treeCols, LeafHashes(S.colLeaf, enc.zColVecs), j);
    o := Opening(j, enc.zColVecs[j], proof);
    OpeningVerifies(S.pairs, LeafHashes(S.colLeaf, enc.zColVecs), j);
  }

  ghost function RowOpening<T(!new), E(!new), H(!new)>(S: Setup<T, E, H>, enc: ZodaEncoding<T, E, H>,
      i: nat): Opening<T, H>
    requires i < enc.m && Rectangular(enc.zColVecs, enc.m)
  {
    Opening(i, ColumnOf(enc.zColVecs, i),
        MerkleProof(i, PathOf(S.pairs, LeafHashes(S.rowLeaf, Transposed(enc.zColVecs, enc.m)), i)))
  }

  ghost function ColOpening<T(!new), E(!new), H(!new)>(S: Setup<T, E, H>, enc: ZodaEncoding<T, E, H>,
      j: nat): Opening<T, H>
    requires j < |enc.zColVecs|
  {
    Opening(j, enc.zColVecs[j], MerkleProof(j, PathOf(S.pairs, LeafHashes(S.colLeaf, enc.zColVecs), j)))
  }

  function Flattened<T>(rows: seq<seq<T>>): seq<T> {
    if rows == [] then [] else Flattened(rows[..|rows| - 1]) + rows[|rows| - 1]
  }

  /** The first `keep` coefficients of the inverse transform of every column of a matrix. */
  function DecodeColumns<T(!new)>(R: Ring<T>, plan: NttPlan<T>, rows: seq<seq<T>>, width: nat,
      keep: nat): (cols: seq<seq<T>>)
    requires Rectangular(rows, width) && |rows| == |plan.evalPts| && keep <= |rows|
    ensures |cols| == width && Rectangular(cols, keep)
  {
    seq(width, (c: int) requires 0 <= c < width => Inverse(R, plan, ColumnOf(rows, c))[..keep])
  }

  /** Inverse transforms of the columns, then of the rows, each truncated to the data length. */
  function DecodeFromRows<T(!new), E(!new), H(!new)>(S: Setup<T, E, H>, zRows: seq<seq<T>>, logM: nat, logMPrime: nat,
      n: nat, nPrime: nat): seq<T>
    requires S.psi(logM).Some? && S.psi(logMPrime).Some?
    requires |zRows| == Pow2(logM) && Rectangular(zRows, Pow2(logMPrime)) && n <= Pow2(logM)
        && nPrime <= Pow2(logMPrime)
  {
    var wPrimeCols := DecodeColumns(S.X.base, Plan(S, logM), zRows, Pow2(logMPrime), n);
    Flattened(DecodeColumns(S.X.base, Plan(S, logMPrime), wPrimeCols, n, nPrime))
  }
}
