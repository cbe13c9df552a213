/** What an accepted verification ties the openings to, when the committed encoding is honest. */
module ZodaBinding {
  import opened Arith
  import opened Rings
  import opened NegacyclicNtt
  import opened TensorAlgebra
  import opened MerkleTrees
  import opened Zoda
  import opened ZodaProperties

  /** Pairs and data are hashed injectively and, by their tags, never to the same value. */
  ghost predicate Separated<T(!new), H(!new)>(pairs: PairHash<H>, leaf: seq<T> -> H) {
    && Injective(pairs)
    && (forall x, y {:trigger leaf(x), leaf(y)} :: leaf(x) == leaf(y) ==> x == y)
    && (forall x {:trigger leaf(x)} :: !IsNode(pairs, leaf(x)))
  }

  /** The opening carries the committed vector at the low bits of its proof's index, with the honest path. */
  ghost predicate Committed<T(!new), H(!new)>(
    pairs: PairHash<H>, leaf: seq<T> -> H, vectors: seq<seq<T>>, d: nat, o: Opening<T, H>)
    requires |vectors| == Pow2(d)
  {
    var at := Below(o.proof.index, d);
    o.data == vectors[at] && o.proof.path == PathOf(pairs, LeafHashes(leaf, vectors), at)
  }

  /** Nothing else passes the path check, whatever the length of the path. */
  lemma PathHoldsExactly<T(!new), H(!new)>(
    pairs: PairHash<H>, leaf: seq<T> -> H, vectors: seq<seq<T>>, d: nat, o: Opening<T, H>)
    requires |vectors| == Pow2(d) && Separated(pairs, leaf)
    ensures Climb(pairs, leaf(o.data), o.proof.index, o.proof.path) == RootOf(pairs, LeafHashes(leaf, vectors))
            <==> Committed(pairs, leaf, vectors, d, o)
  {
    hide Climb, RootOf, PathOf, Injective, IsNode;
    var leaves, at := LeafHashes(leaf, vectors), Below(o.proof.index, d);
    assert leaves[at] == leaf(vectors[at]);
    AcceptedExactly(pairs, leaves, d, leaf(o.data), o.proof.index, o.proof.path);
  }

  /** Every opening is committed, and its vector has the dot product of the vector it is said to be. */
  ghost predicate Bound<T(!new), E(!new), H(!new)>(
    X: Extension<T, E>, pairs: PairHash<H>, leaf: seq<T> -> H, vectors: seq<seq<T>>, d: nat, g: seq<E>,
        openings: seq<Opening<T, H>>)
    requires |vectors| == Pow2(d) && Rectangular(vectors, |g|)
  {
    forall k {:trigger openings[k]} :: 0 <= k < |openings| ==>
      var o := openings[k];
      Committed(pairs, leaf, vectors, d, o) && o.index < |vectors|
          && Dot(X, o.data, g, |g|) == Dot(X, vectors[o.index], g, |g|)
  }

  lemma OpeningsAreBound<T(!new), E(!new), H(!new)>(
    X: Extension<T, E>, pairs: PairHash<H>, leaf: seq<T> -> H, vectors: seq<seq<T>>, d: nat, g: seq<E>,
        expected: seq<E>,
    openings: seq<Opening<T, H>>)
    requires |vectors| == Pow2(d) == |expected| && Rectangular(vectors, |g|) && Separated(pairs, leaf)
    requires forall i {:trigger expected[i]} :: 0 <= i < |expected| ==> expected[i] == Dot(X, vectors[i], g, |g|)
    ensures PathsHold(pairs, leaf, RootOf(pairs, LeafHashes(leaf, vectors)), openings)
            && (forall k {:trigger openings[k]} :: 0 <= k < |openings| ==> CheckHolds(X, openings[k], g, expected))
            <==> Bound(X, pairs, leaf, vectors, d, g, openings)
  {
    hide Climb, RootOf, PathOf, Separated, Dot;
    forall k {:trigger openings[k]} | 0 <= k < |openings|
      ensures Climb(pairs, leaf(openings[k].data), openings[k].proof.index, openings[k].proof.path)
          == RootOf(pairs, LeafHashes(leaf, vectors))
      <==> Committed(pairs, leaf, vectors, d, openings[k])
    {
      PathHoldsExactly(pairs, leaf, vectors, d, openings[k]);
    }
  }

  /**
   * For an honest commitment and arbitrary openings in range: acceptance means exactly that every opening carries the
   * committed row or column at its proof's index, taken modulo the number of leaves, and that this vector has the same
   * dot product as the one at the opening's own index. The two indices are never compared.
   */
  lemma AcceptanceBinds<T(!new), E(!new), H(!new)>(
    S: Setup<T, E, H>, enc: ZodaEncoding<T, E, H>, rows: seq<seq<T>>, logN: nat, logNPrime: nat,
    rowOpenings: seq<Opening<T, H>>, colOpenings: seq<Opening<T, H>>)
    requires ValidSetup(S) && S.psi(logN + 1).Some? && S.psi(logNPrime + 1).Some?
        && Encodes(S, enc, rows, logN, logNPrime)
    requires Separated(S.pairs, S.rowLeaf) && Separated(S.pairs, S.colLeaf)
    requires |enc.treeRows.layers| > 0 && |enc.treeRows.layers[|enc.treeRows.layers| - 1]| > 0
    requires |enc.treeCols.layers| > 0 && |enc.treeCols.layers[|enc.treeCols.layers| - 1]| > 0
    requires WellFormed(S, Commit(enc), rowOpenings, colOpenings)
    ensures enc.m == Pow2(logN + 1) && enc.mPrime == Pow2(logNPrime + 1)
    ensures |enc.zColVecs| == enc.mPrime && Rectangular(enc.zColVecs, enc.m)
    ensures var comm := Commit(enc);
            var gBar, gBarPrime := S.gBar(comm.rootRows, comm.rootCols, enc.mPrime),
                S.gBarPrime(comm.rootRows, comm.rootCols, enc.m);
            && |gBar| == enc.mPrime && |gBarPrime| == enc.m
            && (Accepts(S, comm, rowOpenings, colOpenings) <==>
                && Bound(S.X, S.pairs, S.rowLeaf, Transposed(enc.zColVecs, enc.m), logN + 1, gBar, rowOpenings)
                && Bound(S.X, S.pairs, S.colLeaf, enc.zColVecs, logNPrime + 1, gBarPrime, colOpenings))
  {
    hide Layers, IsExtension, FwdPoly, FwdPolyEf, NewPlan, Dot, RootOf, Encodes, Bound, PathsHold, CheckHolds,
        Separated;
    hide Ring<E>.Add, Ring<E>.Mul, Ring<E>.IsRing;
    EncodingFacts(S, enc, rows, logN, logNPrime);
    HonestChecks(S, enc, rows, logN, logNPrime);
    assert IsExtension(S.X) by { PlanIsValid(S, logN + 1); }
    ExtensionRings(S.X);
    var comm, z := Commit(enc), enc.zColVecs;
    var gBar, gBarPrime := S.gBar(comm.rootRows, comm.rootCols, enc.mPrime),
        S.gBarPrime(comm.rootRows, comm.rootCols, enc.m);
    var gZr, gPrimeZrp := FwdPolyEf(S.X, Plan(S, logN + 1), comm.zR),
        FwdPolyEf(S.X, Plan(S, logNPrime + 1), comm.zRPrime);
    OpeningsAreBound(S.X, S.pairs, S.rowLeaf, Transposed(z, enc.m), logN + 1, gBar, gZr, rowOpenings);
    OpeningsAreBound(S.X, S.pairs, S.colLeaf, z, logNPrime + 1, gBarPrime, gPrimeZrp, colOpenings);
    CrossCheck(S.X, z, gBar, gBarPrime, enc.mPrime);
  }
}
