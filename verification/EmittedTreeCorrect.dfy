/**
 * Running the emitted program: every cell is written once, every
 * read is of a written cell, and the root is the reference root.
 */
module EmittedTreeCorrect {
  import opened Wrappers
  import opened Arith
  import opened KoalaBear
  import opened MerkleTrees
  import opened PoseidonMerkle
  import opened PoseidonTree
  import opened EmittedMerkleTree

  ghost predicate Eight(hash: PairHash<Digest>) {
    forall a, b {:trigger hash.pair(a, b)} :: |a| == 8 && |b| == 8 ==> |hash.pair(a, b)| == 8
  }

  /** The width-16 compression gives eight-word digests, and the evaluations fill the leaves exactly. */
  lemma PoseidonIsReady(p: Poseidon, cp: TreeParams, data: seq<F>)
    requires Sized(p) && ValidTree(cp) && |data| == cp.nLeaves * cp.fpl
    ensures Ready(Pairs(p), cp, data)
  {
    forall leaf {:trigger Times(leaf, cp.fpl)} | 0 <= leaf < cp.nLeaves ensures Times(leaf, cp.fpl) + cp.fpl <= |data| {
      MulLe(leaf + 1, cp.nLeaves, cp.fpl);
      Distribute(leaf, 1, cp.fpl);
    }
  }

  // -- Arrays written from the front -------------------------------------------------------------------------

  /** The first cells written, the others not. */
  function Cells(words: seq<F>, size: nat): (cells: seq<Option<F>>)
    ensures |cells| == size
  {
    seq(size, (i: int) requires 0 <= i < size => if i < |words| then Some(words[i]) else None)
  }

  lemma ReadsWritten(words: seq<F>, size: nat, at: nat, n: nat)
    requires at + n <= |words| <= size
    ensures Read(Cells(words, size), at, n) == Some(words[at..at + n])
  {
    var r := Read(Cells(words, size), at, n);
    assert r.Some?;
    assert r.value == words[at..at + n];
  }

  lemma WritesNext(words: seq<F>, size: nat, more: seq<F>)
    requires |words| + |more| <= size
    ensures Write(Cells(words, size), |words|, more) == Some(Cells(words + more, size))
  {
    var w := Write(Cells(words, size), |words|, more);
    assert w.Some?;
    assert w.value == Cells(words + more, size);
  }

  /** The state of a run: what has been written to each array so far, from the front. */
  function At(cp: TreeParams, z: seq<F>, chain: seq<F>, tree: seq<F>): Memory {
    Memory(Cells(z, 8), Cells(chain, 8 * Times(cp.nLeaves, cp.nChunks)), Cells(tree, cp.totalTreeSize))
  }

  // -- Digests laid out one after the other -------------------------------------------------------------------

  function Words(ds: seq<Digest>): seq<F> {
    if ds == [] then [] else Words(ds[..|ds| - 1]) + ds[|ds| - 1]
  }

  ghost predicate AllEight(ds: seq<Digest>) {
    forall i {:trigger ds[i]} :: 0 <= i < |ds| ==> |ds[i]| == 8
  }

  lemma {:induction false} WordsLength(ds: seq<Digest>)
    requires AllEight(ds)
    ensures |Words(ds)| == 8 * |ds|
  {
    if ds != [] { WordsLength(ds[..|ds| - 1]); }
  }

  lemma {:induction false} WordsAt(ds: seq<Digest>, i: nat)
    requires AllEight(ds) && i < |ds|
    ensures |Words(ds)| == 8 * |ds| && Words(ds)[8 * i..8 * i + 8] == ds[i]
  {
    var last := |ds| - 1;
    WordsLength(ds);
    WordsLength(ds[..last]);
    if i < last {
      WordsAt(ds[..last], i);
      assert Words(ds)[8 * i..8 * i + 8] == Words(ds[..last])[8 * i..8 * i + 8];
    }
  }

  lemma WordsPush(ds: seq<Digest>, d: Digest)
    ensures Words(ds + [d]) == Words(ds) + d
  {
    assert (ds + [d])[..|ds|] == ds;
  }

  // -- The leaves ---------------------------------------------------------------------------------------------

  function ZeroDigest(): (z: Digest) ensures |z| == 8 { seq(8, _ => 0) }

  /** poseidon_hash_chain over the first c chunks from `start` on. */
  function ChainDigest(hash: PairHash<Digest>, data: seq<F>, start: nat, c: nat): Digest
    requires start + 8 * c <= |data|
  {
    if c == 0 then ZeroDigest()
        else hash.pair(ChainDigest(hash, data, start, c - 1), data[start + 8 * (c - 1)..start + 8 * c])
  }

  lemma {:induction false} ChainDigestEight(hash: PairHash<Digest>, data: seq<F>, start: nat, c: nat)
    requires Eight(hash) && start + 8 * c <= |data|
    ensures |ChainDigest(hash, data, start, c)| == 8
  {
    if c > 0 { ChainDigestEight(hash, data, start, c - 1); }
  }

  ghost predicate DataFits(cp: TreeParams, data: seq<F>) {
    forall leaf {:trigger Times(leaf, cp.fpl)} :: 0 <= leaf < cp.nLeaves ==> Times(leaf, cp.fpl) + cp.fpl <= |data|
  }

  /** The digest of a leaf after c chunks. */
  function LeafChain(hash: PairHash<Digest>, cp: TreeParams, data: seq<F>, leaf: nat, c: nat): Digest
    requires cp.fpl == 8 * cp.nChunks && DataFits(cp, data) && leaf < cp.nLeaves && c <= cp.nChunks
  {
    ChainDigest(hash, data, Times(leaf, cp.fpl), c)
  }

  /** What `chain` holds after all chunks of the first leaves and c chunks of the next one. */
  ghost function ChainDigests(hash: PairHash<Digest>, cp: TreeParams, data: seq<F>, leaf: nat, c: nat): seq<Digest>
    requires cp.fpl == 8 * cp.nChunks && DataFits(cp, data) && leaf <= cp.nLeaves && c <= cp.nChunks
        && (c > 0 ==> leaf < cp.nLeaves)
    decreases leaf, c
  {
    if c > 0 then ChainDigests(hash, cp, data, leaf, c - 1) + [LeafChain(hash, cp, data, leaf, c)]
    else if leaf > 0 then ChainDigests(hash, cp, data, leaf - 1, cp.nChunks)
    else []
  }

  lemma {:induction false} ChainLength(hash: PairHash<Digest>, cp: TreeParams, data: seq<F>, leaf: nat, c: nat)
    requires Eight(hash) && cp.fpl == 8 * cp.nChunks && DataFits(cp, data) && leaf <= cp.nLeaves && c <= cp.nChunks
        && (c > 0 ==> leaf < cp.nLeaves)
    ensures var ds := ChainDigests(hash, cp, data, leaf, c);
        AllEight(ds) && |ds| == Times(leaf, cp.nChunks) + c && |Words(ds)| == 8 * |ds|
    decreases leaf, c
  {
    hide Words;
    if c > 0 {
      ChainLength(hash, cp, data, leaf, c - 1);
      ChainDigestEight(hash, data, Times(leaf, cp.fpl), c);
    } else if leaf > 0 {
      ChainLength(hash, cp, data, leaf - 1, cp.nChunks);
      Distribute(leaf - 1, 1, cp.nChunks);
    }
    WordsLength(ChainDigests(hash, cp, data, leaf, c));
  }

  function LeafDigests(hash: PairHash<Digest>, cp: TreeParams, data: seq<F>, k: nat): (ds: seq<Digest>)
    requires cp.fpl == 8 * cp.nChunks && DataFits(cp, data) && k <= cp.nLeaves
    ensures |ds| == k
  {
    seq(k, (i: int) requires 0 <= i < k => LeafChain(hash, cp, data, i, cp.nChunks))
  }

  /** The facts every step of the run needs. */
  ghost predicate Ready(hash: PairHash<Digest>, cp: TreeParams, data: seq<F>) {
    Eight(hash) && ValidTree(cp) && DataFits(cp, data)
  }

  lemma LeafFits(cp: TreeParams, leaf: nat)
    requires leaf < cp.nLeaves && cp.fpl == 8 * cp.nChunks
    ensures Times(leaf, cp.nChunks) + cp.nChunks <= Times(cp.nLeaves, cp.nChunks)
        && Times(leaf, cp.fpl) == 8 * Times(leaf, cp.nChunks)
  {
    MulLe(leaf + 1, cp.nLeaves, cp.nChunks);
    Distribute(leaf, 1, cp.nChunks);
  }

  /** A compression of two written digests into the next cells of `chain`. */
  lemma CompressIntoChain(hash: PairHash<Digest>, cp: TreeParams, data: seq<F>, z: seq<F>, chain: seq<F>, tree: seq<F>,
      left: Pointer, right: Pointer, l: Digest, r: Digest)
    requires Load(data, At(cp, z, chain, tree), left) == Some(l) && Load(data, At(cp, z, chain, tree), right) == Some(r)
    requires |chain| + |hash.pair(l, r)| <= 8 * Times(cp.nLeaves, cp.nChunks)
    ensures Step(hash, data, At(cp, z, chain, tree), Compress(left, right, Chain(|chain|)))
        == Some(At(cp, z, chain + hash.pair(l, r), tree))
  {
    hide Cells, Read, Write, Times, Load;
    WritesNext(chain, 8 * Times(cp.nLeaves, cp.nChunks), hash.pair(l, r));
  }

  lemma CompressIntoTree(hash: PairHash<Digest>, cp: TreeParams, data: seq<F>, z: seq<F>, chain: seq<F>, tree: seq<F>,
      left: Pointer, right: Pointer, l: Digest, r: Digest)
    requires Load(data, At(cp, z, chain, tree), left) == Some(l) && Load(data, At(cp, z, chain, tree), right) == Some(r)
    requires |tree| + |hash.pair(l, r)| <= cp.totalTreeSize
    ensures Step(hash, data, At(cp, z, chain, tree), Compress(left, right, Tree(|tree|)))
        == Some(At(cp, z, chain, tree + hash.pair(l, r)))
  {
    hide Cells, Read, Write, Times, Load;
    WritesNext(tree, cp.totalTreeSize, hash.pair(l, r));
  }

  /** The last digest written to `chain` can be read back. */
  lemma LoadLast(cp: TreeParams, data: seq<F>, z: seq<F>, ds: seq<Digest>, tree: seq<F>)
    requires AllEight(ds) && ds != [] && 8 * |ds| <= 8 * Times(cp.nLeaves, cp.nChunks)
    ensures Load(data, At(cp, z, Words(ds), tree), Chain(8 * (|ds| - 1))) == Some(ds[|ds| - 1])
  {
    hide Cells, Read, Times, Words;
    WordsAt(ds, |ds| - 1);
    ReadsWritten(Words(ds), 8 * Times(cp.nLeaves, cp.nChunks), 8 * (|ds| - 1), 8);
  }

  lemma LoadZero(cp: TreeParams, data: seq<F>, chain: seq<F>, tree: seq<F>)
    ensures Load(data, At(cp, ZeroDigest(), chain, tree), ZeroVec) == Some(ZeroDigest())
  {
    ReadsWritten(ZeroDigest(), 8, 0, 8);
    assert ZeroDigest()[0..0 + 8] == ZeroDigest();
  }

  lemma ChainStep(hash: PairHash<Digest>, cp: TreeParams, data: seq<F>, leaf: nat, c: nat, tree: seq<F>)
    requires Ready(hash, cp, data) && leaf < cp.nLeaves && 0 < c <= cp.nChunks
    ensures Step(hash, data, At(cp, ZeroDigest(), Words(ChainDigests(hash, cp, data, leaf, c - 1)), tree),
        ChainStmt(cp, leaf, c))
            == Some(At(cp, ZeroDigest(), Words(ChainDigests(hash, cp, data, leaf, c)), tree))
  {
    hide Words, Cells, Read, Times, Step, At;
    var ld, before := Times(leaf, cp.fpl), ChainDigests(hash, cp, data, leaf, c - 1);
    var last := LeafChain(hash, cp, data, leaf, c - 1);
    ChainFacts(hash, cp, data, leaf, c);
    WordsPush(before, LeafChain(hash, cp, data, leaf, c));
    var chunk := data[ld + 8 * (c - 1)..ld + 8 * c];
    if c == 1 {
      LoadZero(cp, data, Words(before), tree);
      CompressIntoChain(hash, cp, data, ZeroDigest(), Words(before), tree, ZeroVec, Data(ld), last, chunk);
    } else {
      LoadLast(cp, data, ZeroDigest(), before, tree);
      CompressIntoChain(hash, cp, data, ZeroDigest(), Words(before), tree, Chain(8 * (|before| - 1)),
          Data(ld + (c - 1) * 8), last, chunk);
    }
  }

  lemma ChainFacts(hash: PairHash<Digest>, cp: TreeParams, data: seq<F>, leaf: nat, c: nat)
    requires Ready(hash, cp, data) && leaf < cp.nLeaves && 0 < c <= cp.nChunks
    ensures var ld, before := Times(leaf, cp.fpl), ChainDigests(hash, cp, data, leaf, c - 1);
            && AllEight(before) && |before| == Times(leaf, cp.nChunks) + c - 1 && |Words(before)| == 8 * |before|
            && ld + 8 * c <= |data| && cp.fpl == 8 * cp.nChunks
            && |LeafChain(hash, cp, data, leaf, c)| == 8 && |before| + 1 <= Times(cp.nLeaves, cp.nChunks)
            && (c > 1 ==> before != [] && before[|before| - 1] == LeafChain(hash, cp, data, leaf, c - 1))
            && LeafChain(hash, cp, data, leaf, c)
                == hash.pair(LeafChain(hash, cp, data, leaf, c - 1), data[ld + 8 * (c - 1)..ld + 8 * c])
  {
    hide Words, Times;
    ChainLength(hash, cp, data, leaf, c - 1);
    LeafFits(cp, leaf);
    assert Times(leaf, cp.fpl) + cp.fpl <= |data|;
    ChainDigestEight(hash, data, Times(leaf, cp.fpl), c);
  }

  lemma RunSnoc(hash: PairHash<Digest>, data: seq<F>, program: seq<Stmt>, stmt: Stmt, mem: Memory)
    ensures var before := Run(hash, data, program, mem);
        Run(hash, data, program + [stmt], mem) == if before.Some? then Step(hash, data, before.value, stmt) else None
  {
    hide Step;
    assert (program + [stmt])[..|program|] == program;
  }

  lemma {:induction false} ChainRun(hash: PairHash<Digest>, cp: TreeParams, data: seq<F>, leaf: nat, c: nat,
      tree: seq<F>)
    requires Ready(hash, cp, data) && leaf < cp.nLeaves && c <= cp.nChunks
    ensures Run(hash, data, ChainStmts(cp, leaf, c),
        At(cp, ZeroDigest(), Words(ChainDigests(hash, cp, data, leaf, 0)), tree))
            == Some(At(cp, ZeroDigest(), Words(ChainDigests(hash, cp, data, leaf, c)), tree))
  {
    hide Words, Times, Step, At, ChainStmt, ChainDigests, Run;
    if c == 0 {
      RunNothing(hash, data, At(cp, ZeroDigest(), Words(ChainDigests(hash, cp, data, leaf, 0)), tree));
    } else {
      ChainRun(hash, cp, data, leaf, c - 1, tree);
      ChainStep(hash, cp, data, leaf, c, tree);
      RunSnoc(hash, data, ChainStmts(cp, leaf, c - 1), ChainStmt(cp, leaf, c),
          At(cp, ZeroDigest(), Words(ChainDigests(hash, cp, data, leaf, 0)), tree));
    }
  }

  lemma RunNothing(hash: PairHash<Digest>, data: seq<F>, mem: Memory)
    ensures Run(hash, data, [], mem) == Some(mem)
  {
  }

  /** One word of a finished leaf digest, copied to the tree. */
  lemma CopyStep(hash: PairHash<Digest>, cp: TreeParams, data: seq<F>, z: seq<F>, ds: seq<Digest>, tree: seq<F>, k: nat)
    requires AllEight(ds) && ds != [] && |ds| <= Times(cp.nLeaves, cp.nChunks) && k < 8
        && |tree| + 8 <= cp.totalTreeSize
    ensures Step(hash, data, At(cp, z, Words(ds), tree + ds[|ds| - 1][..k]), CopyWord(|tree| + k, 8 * (|ds| - 1) + k))
            == Some(At(cp, z, Words(ds), tree + ds[|ds| - 1][..k + 1]))
  {
    hide Words, Cells, Read, Write, Times, AllEight;
    var d, at := ds[|ds| - 1], 8 * (|ds| - 1);
    WordOfLast(ds, k);
    ReadsWritten(Words(ds), 8 * Times(cp.nLeaves, cp.nChunks), at + k, 1);
    PrefixPush(tree, d, k);
    WritesNext(tree + d[..k], cp.totalTreeSize, [d[k]]);
  }

  lemma WordOfLast(ds: seq<Digest>, k: nat)
    requires AllEight(ds) && ds != [] && k < 8
    ensures var at := 8 * (|ds| - 1);
        |ds[|ds| - 1]| == 8 && |Words(ds)| == 8 * |ds| && Words(ds)[at + k..at + k + 1] == [ds[|ds| - 1][k]]
  {
    hide Words;
    WordsAt(ds, |ds| - 1);
    var at, words := 8 * (|ds| - 1), Words(ds);
    assert words[at + k] == words[at..at + 8][k];
  }

  lemma PrefixPush(tree: seq<F>, d: Digest, k: nat)
    requires k < |d|
    ensures (tree + d[..k]) + [d[k]] == tree + d[..k + 1] && |tree + d[..k]| == |tree| + k
  {
  }

  lemma {:induction false} CopyRun(hash: PairHash<Digest>, cp: TreeParams, data: seq<F>, leaf: nat, tree: seq<F>,
      k: nat)
    requires Ready(hash, cp, data) && leaf < cp.nLeaves && k <= 8 && |tree| == 8 * leaf
        && |tree| + 8 <= cp.totalTreeSize
    ensures var ds := ChainDigests(hash, cp, data, leaf, cp.nChunks);
            && ds != [] && |ds[|ds| - 1]| == 8
            && Run(hash, data, CopyStmts(cp, leaf, k), At(cp, ZeroDigest(), Words(ds), tree))
                == Some(At(cp, ZeroDigest(), Words(ds), tree + ds[|ds| - 1][..k]))
  {
    hide Words, Times, Step, At, Run;
    var ds := ChainDigests(hash, cp, data, leaf, cp.nChunks);
    ChainLength(hash, cp, data, leaf, cp.nChunks);
    LeafFits(cp, leaf);
    var start := At(cp, ZeroDigest(), Words(ds), tree);
    if k == 0 {
      RunNothing(hash, data, start);
      assert tree + ds[|ds| - 1][..0] == tree;
    } else {
      CopyRun(hash, cp, data, leaf, tree, k - 1);
      CopyStep(hash, cp, data, ZeroDigest(), ds, tree, k - 1);
      RunSnoc(hash, data, CopyStmts(cp, leaf, k - 1), CopyWord(leaf * 8 + (k - 1), 8 * (|ds| - 1) + (k - 1)), start);
    }
  }

  /** The offsets leave room for every layer. */
  lemma {:induction false} LayerFits(cp: TreeParams, l: nat)
    requires ValidTree(cp) && l <= cp.treeDepth
    ensures Above(cp.nLeaves, l) == Pow2(cp.treeDepth - l)
        && cp.layerOffsets[l] + 8 * Above(cp.nLeaves, l) <= cp.totalTreeSize
    decreases cp.treeDepth - l
  {
    hide Pow2;
    Pow2Add(l, cp.treeDepth - l);
    DivModUnique(cp.nLeaves, Pow2(l), Pow2(cp.treeDepth - l), 0);
    if l < cp.treeDepth {
      assert NextOffset(cp.layerOffsets, cp.nLeaves, l);
      LayerFits(cp, l + 1);
    } else { assert Pow2(0) == 1 by { PowZero(); } }
  }

  lemma {:induction false} LeafRun(hash: PairHash<Digest>, cp: TreeParams, data: seq<F>, k: nat)
    requires Ready(hash, cp, data) && k <= cp.nLeaves
    ensures Run(hash, data, LeafStmts(cp, k), At(cp, ZeroDigest(), [], []))
            == Some(At(cp, ZeroDigest(), Words(ChainDigests(hash, cp, data, k, 0)),
                Words(LeafDigests(hash, cp, data, k))))
  {
    hide Words, Times, Step, At, Run, ChainStmts, CopyStmts, LeafChain;
    var start := At(cp, ZeroDigest(), [], []);
    if k == 0 {
      RunNothing(hash, data, start);
      NoWords();
    } else {
      var leaf := k - 1;
      LeafRun(hash, cp, data, leaf);
      OneLeafRun(hash, cp, data, leaf);
      RunAppend(hash, data, LeafStmts(cp, leaf), ChainStmts(cp, leaf, cp.nChunks) + CopyStmts(cp, leaf, 8), start);
    }
  }

  lemma OneLeafRun(hash: PairHash<Digest>, cp: TreeParams, data: seq<F>, leaf: nat)
    requires Ready(hash, cp, data) && leaf < cp.nLeaves
    ensures Run(hash, data, ChainStmts(cp, leaf, cp.nChunks) + CopyStmts(cp, leaf, 8),
        At(cp, ZeroDigest(), Words(ChainDigests(hash, cp, data, leaf, 0)), Words(LeafDigests(hash, cp, data, leaf))))
            == Some(At(cp, ZeroDigest(), Words(ChainDigests(hash, cp, data, leaf + 1, 0)),
                Words(LeafDigests(hash, cp, data, leaf + 1))))
  {
    hide Words, Times, Step, At, Run, ChainStmts, CopyStmts, LeafChain, LeafDigests, ChainDigests, Above, Pow2;
    LeafDigestsEight(hash, cp, data, leaf);
    var tree := Words(LeafDigests(hash, cp, data, leaf));
    LayerFits(cp, 0);
    NothingAbove(cp.nLeaves);
    ChainRun(hash, cp, data, leaf, cp.nChunks, tree);
    CopyRun(hash, cp, data, leaf, tree, 8);
    LeafDigestsGrow(hash, cp, data, leaf);
    RunAppend(hash, data, ChainStmts(cp, leaf, cp.nChunks), CopyStmts(cp, leaf, 8),
        At(cp, ZeroDigest(), Words(ChainDigests(hash, cp, data, leaf, 0)), tree));
  }

  lemma NoWords() ensures Words([]) == [] {}

  lemma LeafDigestsEight(hash: PairHash<Digest>, cp: TreeParams, data: seq<F>, k: nat)
    requires Ready(hash, cp, data) && k <= cp.nLeaves
    ensures AllEight(LeafDigests(hash, cp, data, k)) && |Words(LeafDigests(hash, cp, data, k))| == 8 * k
  {
    hide Words, Times;
    forall i | 0 <= i < k ensures |LeafDigests(hash, cp, data, k)[i]| == 8 {
      assert Times(i, cp.fpl) + cp.fpl <= |data|;
      ChainDigestEight(hash, data, Times(i, cp.fpl), cp.nChunks);
    }
    WordsLength(LeafDigests(hash, cp, data, k));
  }

  lemma LeafDigestsGrow(hash: PairHash<Digest>, cp: TreeParams, data: seq<F>, leaf: nat)
    requires Ready(hash, cp, data) && leaf < cp.nLeaves
    ensures var ds := ChainDigests(hash, cp, data, leaf, cp.nChunks);
            && ds != [] && |ds[|ds| - 1]| == 8 && ds == ChainDigests(hash, cp, data, leaf + 1, 0)
            && Words(LeafDigests(hash, cp, data, leaf + 1)) == Words(LeafDigests(hash, cp, data, leaf))
                + ds[|ds| - 1][..8]
  {
    hide Words, Times, LeafChain;
    var d := LeafChain(hash, cp, data, leaf, cp.nChunks);
    ChainLength(hash, cp, data, leaf, cp.nChunks);
    assert LeafDigests(hash, cp, data, leaf + 1) == LeafDigests(hash, cp, data, leaf) + [d];
    WordsPush(LeafDigests(hash, cp, data, leaf), d);
  }

  // -- The layers -----------------------------------------------------------------------------------------------

  lemma {:induction false} LayersShape(hash: PairHash<Digest>, leaves: seq<Digest>, depth: nat, l: nat)
    requires Eight(hash) && AllEight(leaves) && |leaves| == Pow2(depth) && l <= depth
    ensures var layers := Reduced(hash, leaves);
            && |layers| == depth + 1 && |layers[l]| == Pow2(depth - l) && AllEight(layers[l])
            && (l < depth ==> layers[l + 1] == PairUp(hash, layers[l]))
    decreases depth
  {
    hide PairUp;
    if depth > 0 {
      PairsEight(hash, leaves);
      LayersShape(hash, PairUp(hash, leaves), depth - 1, if l == 0 then 0 else l - 1);
    }
  }

  lemma PairsEight(hash: PairHash<Digest>, layer: seq<Digest>)
    requires Eight(hash) && AllEight(layer)
    ensures AllEight(PairUp(hash, layer))
  {
  }

  /** Layers 0 to l, one after the other. */
  ghost function TreeDigests(layers: seq<seq<Digest>>, l: nat): seq<Digest>
    requires l < |layers|
  {
    if l == 0 then layers[0] else TreeDigests(layers, l - 1) + layers[l]
  }

  ghost predicate NextInTree(hash: PairHash<Digest>, layers: seq<seq<Digest>>, l: nat)
    requires l + 1 < |layers|
  {
    layers[l + 1] == PairUp(hash, layers[l])
  }

  ghost predicate TreeLayers(hash: PairHash<Digest>, cp: TreeParams, layers: seq<seq<Digest>>) {
    && |layers| == cp.treeDepth + 1
    && (forall l {:trigger layers[l]} :: 0 <= l < |layers| ==>
        |layers[l]| == Above(cp.nLeaves, l) && AllEight(layers[l]))
    && (forall l :: 0 <= l < cp.treeDepth ==> NextInTree(hash, layers, l))
  }

  /** Layer l starts where its offset says. */
  lemma {:induction false} OffsetOfLayer(hash: PairHash<Digest>, cp: TreeParams, layers: seq<seq<Digest>>, l: nat)
    requires ValidTree(cp) && TreeLayers(hash, cp, layers) && l <= cp.treeDepth
    ensures AllEight(TreeDigests(layers, l)) && 8 * |TreeDigests(layers, l)| == cp.layerOffsets[l] + 8 * |layers[l]|
    ensures forall i {:trigger layers[l][i]} :: 0 <= i < |layers[l]| ==>
        TreeDigests(layers, l)[|TreeDigests(layers, l)| - |layers[l]| + i] == layers[l][i]
  {
    hide Above, PairUp;
    if l > 0 {
      OffsetOfLayer(hash, cp, layers, l - 1);
      assert NextOffset(cp.layerOffsets, cp.nLeaves, l - 1);
    }
    var here := layers[l];
  }

  lemma LoadFromTree(cp: TreeParams, data: seq<F>, z: seq<F>, chain: seq<F>, ds: seq<Digest>, i: nat)
    requires AllEight(ds) && i < |ds| && 8 * |ds| <= cp.totalTreeSize
    ensures Load(data, At(cp, z, chain, Words(ds)), Tree(8 * i)) == Some(ds[i])
  {
    hide Cells, Read, Times, Words;
    WordsAt(ds, i);
    ReadsWritten(Words(ds), cp.totalTreeSize, 8 * i, 8);
  }

  function PairStmt(cp: TreeParams, layer: nat, k: nat): Stmt
    requires layer + 1 < |cp.layerOffsets|
  {
    var src, dst := cp.layerOffsets[layer], cp.layerOffsets[layer + 1];
    Compress(Tree(src + 2 * k * 8), Tree(src + (2 * k + 1) * 8), Tree(dst + k * 8))
  }

  lemma PairStep(hash: PairHash<Digest>, cp: TreeParams, data: seq<F>, z: seq<F>, chain: seq<F>,
      layers: seq<seq<Digest>>, l: nat, k: nat)
    requires Eight(hash) && ValidTree(cp) && TreeLayers(hash, cp, layers) && l < cp.treeDepth && k < |layers[l + 1]|
    ensures Step(hash, data, At(cp, z, chain, Words(TreeDigests(layers, l) + layers[l + 1][..k])), PairStmt(cp, l, k))
            == Some(At(cp, z, chain, Words(TreeDigests(layers, l) + layers[l + 1][..k + 1])))
  {
    hide Words, Times, Step, At, Above, ValidTree, TreeDigests;
    var done := TreeDigests(layers, l) + layers[l + 1][..k];
    PairFacts(hash, cp, layers, l, k);
    var src, dst, i := cp.layerOffsets[l], cp.layerOffsets[l + 1], |TreeDigests(layers, l)| - |layers[l]| + 2 * k;
    LoadFromTree(cp, data, z, chain, done, i);
    LoadFromTree(cp, data, z, chain, done, i + 1);
    WordsLength(done);
    CompressIntoTree(hash, cp, data, z, chain, Words(done), Tree(8 * i), Tree(8 * (i + 1)), layers[l][2 * k],
        layers[l][2 * k + 1]);
    WordsPush(done, layers[l + 1][k]);
    assert done + [layers[l + 1][k]] == TreeDigests(layers, l) + layers[l + 1][..k + 1];
  }

  lemma PairFacts(hash: PairHash<Digest>, cp: TreeParams, layers: seq<seq<Digest>>, l: nat, k: nat)
    requires Eight(hash) && ValidTree(cp) && TreeLayers(hash, cp, layers) && l < cp.treeDepth && k < |layers[l + 1]|
    ensures var before, i := TreeDigests(layers, l), |TreeDigests(layers, l)| - |layers[l]| + 2 * k;
            var done := before + layers[l + 1][..k];
            && 2 * k + 1 < |layers[l]| && 0 <= i && i + 1 < |done| && AllEight(done)
            && done[i] == layers[l][2 * k] && done[i + 1] == layers[l][2 * k + 1]
            && 8 * i == cp.layerOffsets[l] + 2 * k * 8 && 8 * |done| == cp.layerOffsets[l + 1] + k * 8
            && 8 * |done| + 8 <= cp.totalTreeSize
            && layers[l + 1][k] == hash.pair(layers[l][2 * k], layers[l][2 * k + 1]) && |layers[l + 1][k]| == 8
            && |cp.layerOffsets| == cp.treeDepth + 1
  {
    hide Above, TreeDigests, Pow2, PairUp, AllEight, Eight;
    OffsetOfLayer(hash, cp, layers, l);
    PairOf(hash, cp, layers, l, k);
    LayerSizes(hash, cp, layers, l);
    PairPlaces(TreeDigests(layers, l), layers[l], layers[l + 1], k);
  }

  lemma LayerSizes(hash: PairHash<Digest>, cp: TreeParams, layers: seq<seq<Digest>>, l: nat)
    requires ValidTree(cp) && TreeLayers(hash, cp, layers) && l < cp.treeDepth
    ensures cp.layerOffsets[l + 1] == cp.layerOffsets[l] + 8 * |layers[l]|
        && cp.layerOffsets[l + 1] + 8 * |layers[l + 1]| <= cp.totalTreeSize
  {
    hide Above, Pow2, PairUp, AllEight;
    LayerFits(cp, l + 1);
    assert NextOffset(cp.layerOffsets, cp.nLeaves, l);
    var here, next := layers[l], layers[l + 1];
  }

  lemma PairPlaces(before: seq<Digest>, here: seq<Digest>, next: seq<Digest>, k: nat)
    requires AllEight(before) && AllEight(next) && k < |next| && 2 * k + 1 < |here| <= |before|
    requires forall i {:trigger here[i]} :: 0 <= i < |here| ==> before[|before| - |here| + i] == here[i]
    ensures var done, i := before + next[..k], |before| - |here| + 2 * k;
            i + 1 < |done| && AllEight(done) && done[i] == here[2 * k] && done[i + 1] == here[2 * k + 1]
  {
    var done := before + next[..k];
    var first, second := here[2 * k], here[2 * k + 1];
    assert before[|before| - |here| + (2 * k + 1)] == second;
    forall t | 0 <= t < |done| ensures |done[t]| == 8 { if t >= |before| { assert done[t] == next[t - |before|]; } }
  }

  lemma PairOf(hash: PairHash<Digest>, cp: TreeParams, layers: seq<seq<Digest>>, l: nat, k: nat)
    requires TreeLayers(hash, cp, layers) && l < cp.treeDepth && k < |layers[l + 1]|
    ensures 2 * k + 1 < |layers[l]| && layers[l + 1][k] == hash.pair(layers[l][2 * k], layers[l][2 * k + 1])
    ensures AllEight(layers[l + 1]) && |layers[l + 1][k]| == 8
  {
    hide Above;
    var here, next := layers[l], layers[l + 1];
    assert NextInTree(hash, layers, l);
  }

  lemma {:induction false} PairRun(hash: PairHash<Digest>, cp: TreeParams, data: seq<F>, z: seq<F>, chain: seq<F>,
      layers: seq<seq<Digest>>, l: nat, k: nat)
    requires Eight(hash) && ValidTree(cp) && TreeLayers(hash, cp, layers) && l < cp.treeDepth && k <= |layers[l + 1]|
    ensures Run(hash, data, PairStmts(cp, l, k), At(cp, z, chain, Words(TreeDigests(layers, l))))
        == Some(At(cp, z, chain, Words(TreeDigests(layers, l) + layers[l + 1][..k])))
  {
    hide Words, Times, Step, At, Above, TreeDigests, Run, PairUp, AllEight;
    var start := At(cp, z, chain, Words(TreeDigests(layers, l)));
    if k == 0 {
      RunNothing(hash, data, start);
      assert TreeDigests(layers, l) + layers[l + 1][..0] == TreeDigests(layers, l);
    } else {
      PairRun(hash, cp, data, z, chain, layers, l, k - 1);
      PairStep(hash, cp, data, z, chain, layers, l, k - 1);
      RunSnoc(hash, data, PairStmts(cp, l, k - 1), PairStmt(cp, l, k - 1), start);
    }
  }

  lemma {:induction false} LayerRun(hash: PairHash<Digest>, cp: TreeParams, data: seq<F>, z: seq<F>, chain: seq<F>,
      layers: seq<seq<Digest>>, l: nat)
    requires Eight(hash) && ValidTree(cp) && TreeLayers(hash, cp, layers) && l <= cp.treeDepth
    ensures Run(hash, data, LayerStmts(cp, l), At(cp, z, chain, Words(layers[0])))
        == Some(At(cp, z, chain, Words(TreeDigests(layers, l))))
  {
    hide Words, Times, Step, At, Above, Run, PairStmts;
    var start := At(cp, z, chain, Words(layers[0]));
    if l == 0 {
      RunNothing(hash, data, start);
    } else {
      LayerRun(hash, cp, data, z, chain, layers, l - 1);
      var here := layers[l];
      PairRun(hash, cp, data, z, chain, layers, l - 1, |here|);
      assert here[..|here|] == here;
      RunAppend(hash, data, LayerStmts(cp, l - 1), PairStmts(cp, l - 1, Above(cp.nLeaves, l)), start);
    }
  }

  // -- The direct loop --------------------------------------------------------------------------------------------

  method PoseidonHashChain(hash: PairHash<Digest>, chunks: seq<F>) returns (state: Digest)
    requires chunks != [] && |chunks| % 8 == 0
    ensures state == ChainDigest(hash, chunks, 0, |chunks| / 8)
  {
    state := ZeroDigest();
    for b := 0 to |chunks| / 8
      invariant state == ChainDigest(hash, chunks, 0, b)
    {
      state := hash.pair(state, chunks[b * 8..(b + 1) * 8]);
    }
  }

  lemma SliceOfSlice(data: seq<F>, start: nat, size: nat, i: nat, j: nat)
    requires i <= j <= size && start + size <= |data|
    ensures data[start..start + size][i..j] == data[start + i..start + j]
  {
    var inner, outer := data[start..start + size][i..j], data[start + i..start + j];
    forall k | 0 <= k < j - i ensures inner[k] == outer[k] {}
  }

  lemma {:induction false} ChainOfSlice(hash: PairHash<Digest>, data: seq<F>, start: nat, size: nat, c: nat)
    requires 8 * c <= size && start + size <= |data|
    ensures ChainDigest(hash, data[start..start + size], 0, c) == ChainDigest(hash, data, start, c)
  {
    if c > 0 {
      ChainOfSlice(hash, data, start, size, c - 1);
      SliceOfSlice(data, start, size, 8 * (c - 1), 8 * c);
    }
  }

  ghost function ReferenceRoot(hash: PairHash<Digest>, cp: TreeParams, data: seq<F>): Digest
    requires Ready(hash, cp, data)
  {
    var layers := Reduced(hash, LeafDigests(hash, cp, data, cp.nLeaves));
    RootLayer(hash, cp, data);
    layers[|layers| - 1][0]
  }

  lemma RootLayer(hash: PairHash<Digest>, cp: TreeParams, data: seq<F>)
    requires Ready(hash, cp, data)
    ensures var layers := Reduced(hash, LeafDigests(hash, cp, data, cp.nLeaves));
        TreeLayers(hash, cp, layers) && |layers[|layers| - 1]| == 1
  {
    hide Reduced, PairUp, LeafDigests, Words, Pow2, Above;
    var leaves := LeafDigests(hash, cp, data, cp.nLeaves);
    var layers := Reduced(hash, leaves);
    LeafDigestsEight(hash, cp, data, cp.nLeaves);
    LayersShape(hash, leaves, cp.treeDepth, cp.treeDepth);
    PowZero();
    forall l {:trigger layers[l]} | 0 <= l < |layers|
      ensures |layers[l]| == Above(cp.nLeaves, l) && AllEight(layers[l])
    {
      LayersShape(hash, leaves, cp.treeDepth, l);
      LayerFits(cp, l);
    }
    forall l | 0 <= l < cp.treeDepth ensures NextInTree(hash, layers, l) { LayersShape(hash, leaves, cp.treeDepth, l); }
  }

  method ReferenceMerkleRoot(hash: PairHash<Digest>, cp: TreeParams, evals: seq<F>) returns (root: Digest)
    requires Ready(hash, cp, evals)
    ensures root == ReferenceRoot(hash, cp, evals)
  {
    hide Times, Reduced, ChainDigest, TreeLayers, Above;
    ghost var leaves := LeafDigests(hash, cp, evals, cp.nLeaves);
    var layer: seq<Digest> := [];
    for i := 0 to cp.nLeaves
      invariant layer == leaves[..i]
    {
      assert Times(i, cp.fpl) + cp.fpl <= |evals|;
      var digest := PoseidonHashChain(hash, evals[Times(i, cp.fpl)..Times(i, cp.fpl) + cp.fpl]);
      ChainOfSlice(hash, evals, Times(i, cp.fpl), cp.fpl, cp.nChunks);
      assert leaves[i] == digest;
      layer := layer + [digest];
    }
    assert layer == leaves;
    RootLayer(hash, cp, evals);
    root := ReduceToRoot(hash, layer);
  }

  method ReduceToRoot(hash: PairHash<Digest>, leaves: seq<Digest>) returns (root: Digest)
    requires |leaves| > 0
    ensures var layers := Reduced(hash, leaves); |layers[|layers| - 1]| > 0 && root == layers[|layers| - 1][0]
  {
    hide PairUp;
    var layer := leaves;
    while |layer| > 1
      invariant |layer| > 0 && LastLayer(hash, layer) == LastLayer(hash, leaves)
      decreases |layer|
    {
      layer := PairUp(hash, layer);
    }
    root := layer[0];
  }

  ghost function LastLayer(hash: PairHash<Digest>, leaves: seq<Digest>): seq<Digest> {
    var layers := Reduced(hash, leaves);
    layers[|layers| - 1]
  }

  // -- The whole program ------------------------------------------------------------------------------------------

  /** No cell written yet. */
  function Blank(cp: TreeParams): Memory { At(cp, [], [], []) }

  ghost predicate AllWritten(cells: seq<Option<F>>) {
    forall i {:trigger cells[i]} :: 0 <= i < |cells| ==> cells[i].Some?
  }

  lemma {:induction false} ZeroRun(hash: PairHash<Digest>, cp: TreeParams, data: seq<F>, k: nat)
    requires k <= 8
    ensures Run(hash, data, ZeroStmts(k), Blank(cp)) == Some(At(cp, ZeroDigest()[..k], [], []))
  {
    hide Run, Write, Cells, Times;
    if k == 0 {
      RunNothing(hash, data, Blank(cp));
    } else {
      ZeroRun(hash, cp, data, k - 1);
      WritesNext(ZeroDigest()[..k - 1], 8, [0]);
      assert ZeroDigest()[..k - 1] + [0] == ZeroDigest()[..k];
      RunSnoc(hash, data, ZeroStmts(k - 1), ZeroCell(k - 1), Blank(cp));
    }
  }

  /**
   * The run does not get stuck, so no cell is written twice or read early; at the end every cell is written and the
   * root is the reference root.
   */
  lemma EmittedProgramComputesRoot(hash: PairHash<Digest>, cp: TreeParams, data: seq<F>)
    requires Ready(hash, cp, data)
    ensures var final := Run(hash, data, Emitted(cp), Blank(cp));
            && final.Some? && AllWritten(final.value.zeroVec) && AllWritten(final.value.chain)
            && AllWritten(final.value.tree)
            && Read(final.value.tree, cp.layerOffsets[cp.treeDepth], 8) == Some(ReferenceRoot(hash, cp, data))
  {
    hide Run, Words, Times, Above, Pow2, LeafDigests, ChainDigests, Reduced, TreeLayers, AllWritten, Read, TreeDigests,
        LeafStmts, LayerStmts, ZeroStmts, At;
    var leaves := LeafDigests(hash, cp, data, cp.nLeaves);
    var layers, chain := Reduced(hash, leaves), ChainDigests(hash, cp, data, cp.nLeaves, 0);
    RootLayer(hash, cp, data);
    ZeroRun(hash, cp, data, 8);
    assert ZeroDigest()[..8] == ZeroDigest();
    LeafRun(hash, cp, data, cp.nLeaves);
    LayerCount(hash, cp, layers);
    LayerRun(hash, cp, data, ZeroDigest(), Words(chain), layers, cp.treeDepth);
    RunAppend(hash, data, LeafStmts(cp, cp.nLeaves), LayerStmts(cp, cp.treeDepth), At(cp, ZeroDigest(), [], []));
    RunAppend(hash, data, ZeroStmts(8), LeafStmts(cp, cp.nLeaves) + LayerStmts(cp, cp.treeDepth), Blank(cp));
    FinalState(hash, cp, data, layers, chain);
  }

  lemma LayerCount(hash: PairHash<Digest>, cp: TreeParams, layers: seq<seq<Digest>>)
    requires TreeLayers(hash, cp, layers)
    ensures |layers| == cp.treeDepth + 1
  {
  }

  lemma FinalState(hash: PairHash<Digest>, cp: TreeParams, data: seq<F>, layers: seq<seq<Digest>>, chain: seq<Digest>)
    requires Ready(hash, cp, data) && TreeLayers(hash, cp, layers) && |layers[|layers| - 1]| == 1
        && chain == ChainDigests(hash, cp, data, cp.nLeaves, 0)
    ensures |layers| == cp.treeDepth + 1
    ensures var final := At(cp, ZeroDigest(), Words(chain), Words(TreeDigests(layers, cp.treeDepth)));
            && AllWritten(final.zeroVec) && AllWritten(final.chain) && AllWritten(final.tree)
            && Read(final.tree, cp.layerOffsets[cp.treeDepth], 8) == Some(layers[cp.treeDepth][0])
  {
    hide *;
    FinalSizes(hash, cp, data, layers);
    var all := TreeDigests(layers, cp.treeDepth);
    WordsLength(all);
    FullCells(ZeroDigest());
    FullCells(Words(chain));
    FullCells(Words(all));
    FinalArrays(cp, ZeroDigest(), Words(chain), Words(all));
    WordsAt(all, |all| - 1);
    ReadsWritten(Words(all), cp.totalTreeSize, 8 * (|all| - 1), 8);
  }

  lemma FinalArrays(cp: TreeParams, z: seq<F>, chain: seq<F>, tree: seq<F>)
    ensures At(cp, z, chain, tree)
        == Memory(Cells(z, 8), Cells(chain, 8 * Times(cp.nLeaves, cp.nChunks)), Cells(tree, cp.totalTreeSize))
  {
  }

  lemma FinalSizes(hash: PairHash<Digest>, cp: TreeParams, data: seq<F>, layers: seq<seq<Digest>>)
    requires Ready(hash, cp, data) && TreeLayers(hash, cp, layers) && |layers[|layers| - 1]| == 1
    ensures |layers| == cp.treeDepth + 1 == |cp.layerOffsets| && cp.fpl == 8 * cp.nChunks && DataFits(cp, data)
    ensures |Words(ChainDigests(hash, cp, data, cp.nLeaves, 0))| == 8 * Times(cp.nLeaves, cp.nChunks)
    ensures var all := TreeDigests(layers, cp.treeDepth);
            && AllEight(all) && |all| > 0 && 8 * |all| == cp.totalTreeSize
            && 8 * (|all| - 1) == cp.layerOffsets[cp.treeDepth] && all[|all| - 1] == layers[cp.treeDepth][0]
  {
    hide Words, Times, Above, ChainDigests, TreeDigests, Eight, AllEight, PairUp, Pow2;
    var all, last, depth := TreeDigests(layers, cp.treeDepth), layers[cp.treeDepth], cp.treeDepth;
    ChainLength(hash, cp, data, cp.nLeaves, 0);
    OffsetOfLayer(hash, cp, layers, depth);
    LastDigest(all, last[0], last);
  }

  lemma FullCells(words: seq<F>)
    ensures AllWritten(Cells(words, |words|))
  {
  }

  lemma LastDigest(all: seq<Digest>, d: Digest, last: seq<Digest>)
    requires |last| == 1 <= |all| && d == last[0] && forall i {:trigger last[i]} :: 0 <= i < |last| ==>
        all[|all| - |last| + i] == last[i]
    ensures all[|all| - 1] == d
  {
  }
}
