/** The straight-line program emitted for a Merkle tree, run over write-once memory, against the direct loop. */
module EmittedMerkleTree {
  import opened Wrappers
  import opened Arith
  import opened KoalaBear
  import opened MerkleTrees
  import opened PoseidonMerkle

  // -- Parameters -------------------------------------------------------------------------------------------

  /** The fields of CircuitParams the emission reads. */
  datatype TreeParams = TreeParams(nLeaves: nat, nChunks: nat, fpl: nat, treeDepth: nat, layerOffsets: seq<nat>,
      totalTreeSize: nat)

  ghost predicate NextOffset(offsets: seq<nat>, nLeaves: nat, k: nat)
    requires k + 1 < |offsets|
  {
    offsets[k + 1] == offsets[k] + 8 * Above(nLeaves, k)
  }

  ghost predicate ValidTree(cp: TreeParams) {
    && cp.nLeaves == Pow2(cp.treeDepth) && cp.nChunks > 0 && cp.fpl == 8 * cp.nChunks
    && |cp.layerOffsets| == cp.treeDepth + 1 && cp.layerOffsets[0] == 0
    && (forall k :: 0 <= k < cp.treeDepth ==> NextOffset(cp.layerOffsets, cp.nLeaves, k))
    && cp.totalTreeSize == cp.layerOffsets[cp.treeDepth] + 8
  }

  method NewTreeParams(logTotal: nat, logFeltsPerLeaf: nat) returns (cp: TreeParams)
    requires 3 <= logFeltsPerLeaf <= logTotal
    ensures ValidTree(cp) && cp.treeDepth == logTotal - logFeltsPerLeaf && cp.nLeaves * cp.fpl == Pow2(logTotal)
  {
    hide Above, Pow2, TrailingZeros;
    var nEval, fpl := Pow2(logTotal), Pow2(logFeltsPerLeaf);
    LeafCount(logTotal, logFeltsPerLeaf);
    ChunkCount(logFeltsPerLeaf);
    var nLeaves := nEval / fpl;
    var treeDepth := TrailingZeros(nLeaves);
    var layerOffsets, totalTreeSize := OffsetsOf(nLeaves, treeDepth);
    cp := TreeParams(nLeaves, fpl / 8, fpl, treeDepth, layerOffsets, totalTreeSize);
  }

  method OffsetsOf(nLeaves: nat, treeDepth: nat) returns (layerOffsets: seq<nat>, totalTreeSize: nat)
    ensures |layerOffsets| == treeDepth + 1 && layerOffsets[0] == 0 && totalTreeSize == layerOffsets[treeDepth] + 8
    ensures forall k :: 0 <= k < treeDepth ==> NextOffset(layerOffsets, nLeaves, k)
  {
    hide Above;
    layerOffsets := [0];
    var accOff := 0;
    for k := 0 to treeDepth
      invariant |layerOffsets| == k + 1 && layerOffsets[0] == 0 && layerOffsets[k] == accOff
      invariant forall i :: 0 <= i < k ==> NextOffset(layerOffsets, nLeaves, i)
    {
      ghost var before := layerOffsets;
      accOff := accOff + Above(nLeaves, k) * 8;
      layerOffsets := layerOffsets + [accOff];
      forall i | 0 <= i < k ensures NextOffset(layerOffsets, nLeaves, i) { assert NextOffset(before, nLeaves, i); }
    }
    totalTreeSize := accOff + 8;
  }

  lemma LeafCount(logTotal: nat, logFpl: nat)
    requires logFpl <= logTotal
    ensures var n := Pow2(logTotal) / Pow2(logFpl);
            n == Pow2(logTotal - logFpl) && n > 0 && TrailingZeros(n) == logTotal - logFpl
                && n * Pow2(logFpl) == Pow2(logTotal)
  {
    hide Pow2, TrailingZeros;
    Pow2Add(logTotal - logFpl, logFpl);
    Commute(Pow2(logFpl), Pow2(logTotal - logFpl));
    DivModUnique(Pow2(logTotal), Pow2(logFpl), Pow2(logTotal - logFpl), 0);
    TrailingZerosOfPower(logTotal - logFpl);
  }

  lemma ChunkCount(logFpl: nat)
    requires logFpl >= 3
    ensures Pow2(logFpl) == 8 * (Pow2(logFpl) / 8) && Pow2(logFpl) / 8 > 0
  {
    Pow2Add(logFpl - 3, 3);
    assert Pow2(3) == 8;
  }

  // -- Programs over write-once memory -----------------------------------------------------------------------

  datatype Pointer = ZeroVec | Data(at: nat) | Chain(at: nat) | Tree(at: nat)

  datatype Stmt =
    | ZeroCell(i: nat)                                            // zero_vec[i] = 0
    | Compress(left: Pointer, right: Pointer, out: Pointer)       // poseidon16_compress(left, right, out)
    | CopyWord(dst: nat, src: nat)                                // tree[dst] = chain[src]

  /** The arrays of the program; None is a cell that has not been written. */
  datatype Memory = Memory(zeroVec: seq<Option<F>>, chain: seq<Option<F>>, tree: seq<Option<F>>)

  /** n written words, or None when one is out of bounds or unwritten. */
  function Read(cells: seq<Option<F>>, at: nat, n: nat): (words: Option<seq<F>>) {
    if at + n <= |cells| && forall i {:trigger cells[i]} :: at <= i < at + n ==>
        cells[i].Some? then Some(seq(n, (i: int) requires 0 <= i < n && at + n <= |cells|
        && cells[at + i].Some? => cells[at + i].value))
    else None
  }

  /** The array after writing words, or None when a cell is out of bounds or already written. */
  function Write(cells: seq<Option<F>>, at: nat, words: seq<F>): Option<seq<Option<F>>> {
    if at + |words| <= |cells| && forall i {:trigger cells[i]} :: at <= i < at + |words| ==> cells[i].None? then
      Some(seq(|cells|, (i: int) requires 0 <= i < |cells| => if at <= i < at + |words| then Some(words[i - at])
          else cells[i]))
    else None
  }

  function Load(data: seq<F>, mem: Memory, ptr: Pointer): Option<seq<F>> {
    match ptr
    case ZeroVec => Read(mem.zeroVec, 0, 8)
    case Data(at) => if at + 8 <= |data| then Some(data[at..at + 8]) else None
    case Chain(at) => Read(mem.chain, at, 8)
    case Tree(at) => Read(mem.tree, at, 8)
  }

  function Store(mem: Memory, ptr: Pointer, words: seq<F>): Option<Memory> {
    match ptr
    case ZeroVec | Data(_) => None
    case Chain(at) =>
      var cells := Write(mem.chain, at, words);
      if cells.Some? then Some(mem.(chain := cells.value)) else None
    case Tree(at) =>
      var cells := Write(mem.tree, at, words);
      if cells.Some? then Some(mem.(tree := cells.value)) else None
  }

  /** One statement: every read must be of written cells, every write to unwritten ones, all in bounds. */
  function Step(hash: PairHash<Digest>, data: seq<F>, mem: Memory, stmt: Stmt): Option<Memory> {
    match stmt
    case ZeroCell(i) =>
      var cells := Write(mem.zeroVec, i, [0]);
      if cells.Some? then Some(mem.(zeroVec := cells.value)) else None
    case Compress(left, right, out) =>
      var l, r := Load(data, mem, left), Load(data, mem, right);
      if l.Some? && r.Some? then Store(mem, out, hash.pair(l.value, r.value)) else None
    case CopyWord(dst, src) =>
      var word := Read(mem.chain, src, 1);
      if word.Some? then Store(mem, Tree(dst), word.value) else None
  }

  function Run(hash: PairHash<Digest>, data: seq<F>, program: seq<Stmt>, mem: Memory): Option<Memory> {
    if program == [] then Some(mem)
    else
      var before := Run(hash, data, program[..|program| - 1], mem);
      if before.Some? then Step(hash, data, before.value, program[|program| - 1]) else None
  }

  ghost predicate CellsKept(cells: seq<Option<F>>, cells': seq<Option<F>>) {
    |cells'| == |cells| && forall i {:trigger cells[i]} :: 0 <= i < |cells| && cells[i].Some? ==> cells'[i] == cells[i]
  }

  ghost predicate MemoryKept(mem: Memory, mem': Memory) {
    CellsKept(mem.zeroVec, mem'.zeroVec) && CellsKept(mem.chain, mem'.chain) && CellsKept(mem.tree, mem'.tree)
  }

  /** How many cells have a value. */
  function Count(cells: seq<Option<F>>): nat {
    if cells == [] then 0 else Count(cells[..|cells| - 1]) + if cells[|cells| - 1].Some? then 1 else 0
  }

  function WrittenCells(mem: Memory): nat { Count(mem.zeroVec) + Count(mem.chain) + Count(mem.tree) }

  /** A write adds as many written cells as it has words: none of them was written before. */
  lemma {:induction false} WriteCounts(cells: seq<Option<F>>, at: nat, words: seq<F>)
    ensures var r := Write(cells, at, words);
            r.Some? ==> CellsKept(cells, r.value) && Count(r.value) == Count(cells) + |words|
    decreases |cells|
  {
    var r := Write(cells, at, words);
    if r.Some? && cells != [] {
      var last := |cells| - 1;
      if at + |words| <= last {
        WriteCounts(cells[..last], at, words);
        assert Write(cells[..last], at, words).value == r.value[..last];
      } else if |words| > 0 {
        WriteCounts(cells[..last], at, words[..|words| - 1]);
        assert Write(cells[..last], at, words[..|words| - 1]).value == r.value[..last];
      } else { assert r.value == cells; }
    }
  }

  /** The words a statement stores. */
  function Stored(stmt: Stmt): nat { if stmt.Compress? then 8 else 1 }

  function StoredBy(program: seq<Stmt>): nat {
    if program == [] then 0 else StoredBy(program[..|program| - 1]) + Stored(program[|program| - 1])
  }

  lemma StepCounts(hash: PairHash<Digest>, data: seq<F>, mem: Memory, stmt: Stmt)
    requires forall a, b {:trigger hash.pair(a, b)} :: |a| == 8 && |b| == 8 ==> |hash.pair(a, b)| == 8
    ensures var r := Step(hash, data, mem, stmt);
            r.Some? ==> MemoryKept(mem, r.value) && WrittenCells(r.value) == WrittenCells(mem) + Stored(stmt)
  {
    hide Write, Read, Count;
    match stmt
    case ZeroCell(i) => WriteCounts(mem.zeroVec, i, [0]);
    case Compress(left, right, out) =>
      LoadsEight(data, mem, left);
      LoadsEight(data, mem, right);
      var l, r := Load(data, mem, left), Load(data, mem, right);
      if l.Some? && r.Some? { StoreCounts(mem, out, hash.pair(l.value, r.value)); }
    case CopyWord(dst, src) =>
      ReadsAsMany(mem.chain, src, 1);
      var word := Read(mem.chain, src, 1);
      if word.Some? { StoreCounts(mem, Tree(dst), word.value); }
  }

  lemma ReadsAsMany(cells: seq<Option<F>>, at: nat, n: nat)
    ensures Read(cells, at, n).Some? ==> |Read(cells, at, n).value| == n
  {
  }

  lemma LoadsEight(data: seq<F>, mem: Memory, ptr: Pointer)
    ensures Load(data, mem, ptr).Some? ==> |Load(data, mem, ptr).value| == 8
  {
  }

  lemma StoreCounts(mem: Memory, ptr: Pointer, words: seq<F>)
    ensures var r := Store(mem, ptr, words);
            r.Some? ==> MemoryKept(mem, r.value) && WrittenCells(r.value) == WrittenCells(mem) + |words|
  {
    hide Write, Count;
    match ptr
    case ZeroVec | Data(_) =>
    case Chain(at) => WriteCounts(mem.chain, at, words);
    case Tree(at) => WriteCounts(mem.tree, at, words);
  }

  /** A program that does not get stuck has written every word it stored to a cell of its own, and changed none. */
  lemma {:induction false} RunWritesOnce(hash: PairHash<Digest>, data: seq<F>, program: seq<Stmt>, mem: Memory)
    requires forall a, b {:trigger hash.pair(a, b)} :: |a| == 8 && |b| == 8 ==> |hash.pair(a, b)| == 8
    ensures var r := Run(hash, data, program, mem);
            r.Some? ==> MemoryKept(mem, r.value) && WrittenCells(r.value) == WrittenCells(mem) + StoredBy(program)
    decreases |program|
  {
    if program != [] {
      hide Step, WrittenCells;
      var n := |program| - 1;
      RunWritesOnce(hash, data, program[..n], mem);
      var before := Run(hash, data, program[..n], mem);
      if before.Some? { StepCounts(hash, data, before.value, program[n]); }
    }
  }

  lemma {:induction false} RunAppend(hash: PairHash<Digest>, data: seq<F>, a: seq<Stmt>, b: seq<Stmt>, mem: Memory)
    ensures var first := Run(hash, data, a, mem);
        Run(hash, data, a + b, mem) == if first.Some? then Run(hash, data, b, first.value) else None
  {
    hide Step;
    if b == [] {
      assert a + b == a;
    } else {
      var last := |b| - 1;
      RunAppend(hash, data, a, b[..last], mem);
      assert (a + b)[..|a + b| - 1] == a + b[..last];
    }
  }

  // -- The emitted program -------------------------------------------------------------------------------------

  function ZeroStmts(k: nat): seq<Stmt> { if k == 0 then [] else ZeroStmts(k - 1) + [ZeroCell(k - 1)] }

  /** The statement of chunk c - 1 of a leaf; its cells in `chain` start at leaf * nChunks * 8. */
  function ChainStmt(cp: TreeParams, leaf: nat, c: nat): Stmt
    requires c > 0
  {
    var ch, ld := 8 * Times(leaf, cp.nChunks), Times(leaf, cp.fpl);
    if c == 1 then Compress(ZeroVec, Data(ld), Chain(ch))
        else Compress(Chain(ch + (c - 2) * 8), Data(ld + (c - 1) * 8), Chain(ch + (c - 1) * 8))
  }

  function ChainStmts(cp: TreeParams, leaf: nat, c: nat): seq<Stmt> {
    if c == 0 then [] else ChainStmts(cp, leaf, c - 1) + [ChainStmt(cp, leaf, c)]
  }

  function CopyStmts(cp: TreeParams, leaf: nat, k: nat): seq<Stmt>
    requires cp.nChunks > 0
  {
    var finalCh := 8 * Times(leaf, cp.nChunks) + (cp.nChunks - 1) * 8;
    if k == 0 then [] else CopyStmts(cp, leaf, k - 1) + [CopyWord(leaf * 8 + (k - 1), finalCh + (k - 1))]
  }

  function LeafStmts(cp: TreeParams, k: nat): seq<Stmt>
    requires cp.nChunks > 0
  {
    if k == 0 then [] else LeafStmts(cp, k - 1) + (ChainStmts(cp, k - 1, cp.nChunks) + CopyStmts(cp, k - 1, 8))
  }

  function PairStmts(cp: TreeParams, layer: nat, k: nat): seq<Stmt>
    requires layer + 1 < |cp.layerOffsets|
  {
    var src, dst := cp.layerOffsets[layer], cp.layerOffsets[layer + 1];
    if k == 0 then []
    else
      PairStmts(cp, layer, k - 1) +
      [Compress(Tree(src + 2 * (k - 1) * 8), Tree(src + (2 * (k - 1) + 1) * 8), Tree(dst + (k - 1) * 8))]
  }

  function LayerStmts(cp: TreeParams, l: nat): seq<Stmt>
    requires l < |cp.layerOffsets|
  {
    if l == 0 then [] else LayerStmts(cp, l - 1) + PairStmts(cp, l - 1, Above(cp.nLeaves, l))
  }

  function Emitted(cp: TreeParams): seq<Stmt>
    requires cp.nChunks > 0 && cp.treeDepth < |cp.layerOffsets|
  {
    ZeroStmts(8) + (LeafStmts(cp, cp.nLeaves) + LayerStmts(cp, cp.treeDepth))
  }

  /** The emitting loops; `p` is the program text, one statement for each line. */
  method EmitMerkleTree(p: seq<Stmt>, cp: TreeParams) returns (out: seq<Stmt>)
    requires ValidTree(cp)
    ensures out == p + Emitted(cp)
  {
    hide Above, ChainStmts, CopyStmts, PairStmts;
    out := p;
    for i := 0 to 8
      invariant out == p + ZeroStmts(i)
    {
      Append(p, ZeroStmts(i), [ZeroCell(i)]);
      out := out + [ZeroCell(i)];
    }
    ghost var start := out;
    for leaf := 0 to cp.nLeaves
      invariant out == start + LeafStmts(cp, leaf)
    {
      Append(start, LeafStmts(cp, leaf), ChainStmts(cp, leaf, cp.nChunks) + CopyStmts(cp, leaf, 8));
      out := EmitLeaf(out, cp, leaf);
    }
    ghost var leaves := out;
    for layer := 0 to cp.treeDepth
      invariant out == leaves + LayerStmts(cp, layer)
    {
      Append(leaves, LayerStmts(cp, layer), PairStmts(cp, layer, Above(cp.nLeaves, layer + 1)));
      out := EmitLayer(out, cp, layer);
    }
    Append(start, LeafStmts(cp, cp.nLeaves), LayerStmts(cp, cp.treeDepth));
    Append(p, ZeroStmts(8), LeafStmts(cp, cp.nLeaves) + LayerStmts(cp, cp.treeDepth));
  }

  lemma Append<T>(a: seq<T>, b: seq<T>, c: seq<T>)
    ensures (a + b) + c == a + (b + c)
  {
  }

  method EmitLeaf(p: seq<Stmt>, cp: TreeParams, leaf: nat) returns (out: seq<Stmt>)
    requires cp.nChunks > 0
    ensures out == p + (ChainStmts(cp, leaf, cp.nChunks) + CopyStmts(cp, leaf, 8))
  {
    var ld, ch := Times(leaf, cp.fpl), 8 * Times(leaf, cp.nChunks);
    out := p + [Compress(ZeroVec, Data(ld), Chain(ch))];
    for c := 1 to cp.nChunks
      invariant out == p + ChainStmts(cp, leaf, c)
    {
      out := out + [Compress(Chain(ch + (c - 1) * 8), Data(ld + c * 8), Chain(ch + c * 8))];
    }
    var finalCh, treeLeaf := ch + (cp.nChunks - 1) * 8, leaf * 8;
    for k := 0 to 8
      invariant out == p + ChainStmts(cp, leaf, cp.nChunks) + CopyStmts(cp, leaf, k)
    {
      out := out + [CopyWord(treeLeaf + k, finalCh + k)];
    }
  }

  method EmitLayer(p: seq<Stmt>, cp: TreeParams, layer: nat) returns (out: seq<Stmt>)
    requires layer + 1 < |cp.layerOffsets|
    ensures out == p + PairStmts(cp, layer, Above(cp.nLeaves, layer + 1))
  {
    var nPairs, src, dst := Above(cp.nLeaves, layer + 1), cp.layerOffsets[layer], cp.layerOffsets[layer + 1];
    out := p;
    for pair := 0 to nPairs
      invariant out == p + PairStmts(cp, layer, pair)
    {
      out := out + [Compress(Tree(src + 2 * pair * 8), Tree(src + (2 * pair + 1) * 8), Tree(dst + pair * 8))];
    }
  }
}
