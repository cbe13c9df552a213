/** The reference tree construction, and why its openings satisfy the query gadget. */
module PoseidonTree {
  import opened Wrappers
  import opened Arith
  import opened KoalaBear
  import opened MerkleTrees
  import opened MerkleQuery
  import opened PoseidonMerkle

  /** The words the row copies are inside the matrix. */
  predicate RowFits(matrix: seq<F>, r: nat, width: nat, stride: nat) {
    0 <= r * stride && r * stride + (if width <= stride then width else stride) <= |matrix|
  }

  /** Row r of the matrix: at most `stride` of its words, padded with zeros to the row width. */
  function TreeRow(matrix: seq<F>, r: nat, width: nat, stride: nat): (row: seq<F>)
    requires RowFits(matrix, r, width, stride)
    ensures |row| == width
  {
    var actual := if width <= stride then width else stride;
    matrix[r * stride..r * stride + actual] + seq(width - actual, _ => 0)
  }

  /** The words of a row: those of the matrix at its stride, and zeros where the stride ends before the width. */
  ghost predicate HasWords(row: seq<F>, matrix: seq<F>, r: nat, width: nat, stride: nat)
    requires RowFits(matrix, r, width, stride)
  {
    |row| == width &&
    forall c {:trigger row[c]} :: 0 <= c < width ==> row[c] == if c < stride then matrix[r * stride + c] else 0
  }

  lemma TreeRowWords(matrix: seq<F>, r: nat, width: nat, stride: nat)
    requires RowFits(matrix, r, width, stride)
    ensures HasWords(TreeRow(matrix, r, width, stride), matrix, r, width, stride)
    ensures forall row :: HasWords(row, matrix, r, width, stride) ==> row == TreeRow(matrix, r, width, stride)
  {
  }

  ghost predicate RowsInside(matrix: seq<F>, height: nat, width: nat, stride: nat) {
    forall r :: 0 <= r < height ==> RowFits(matrix, r, width, stride)
  }

  function LeavesOf(p: Poseidon, matrix: seq<F>, height: nat, width: nat, stride: nat): (leaves: seq<Digest>)
    requires Sized(p) && RowsInside(matrix, height, width, stride)
    ensures |leaves| == height
  {
    seq(height, (r: int) requires 0 <= r < height => LeafHash(p, TreeRow(matrix, r, width, stride)))
  }

  /** Pairs of a layer; an odd last node is dropped. */
  function PairUp<D(!new)>(hash: PairHash<D>, layer: seq<D>): (next: seq<D>)
    ensures |next| == |layer| / 2
  {
    seq(|layer| / 2, (i: int) requires 0 <= i < |layer| / 2 => hash.pair(layer[2 * i], layer[2 * i + 1]))
  }

  function Reduced<D(!new)>(hash: PairHash<D>, layer: seq<D>): (layers: seq<seq<D>>)
    ensures |layers| > 0 && layers[0] == layer
    decreases |layer|
  {
    if |layer| <= 1 then [layer] else [layer] + Reduced(hash, PairUp(hash, layer))
  }

  /** The root and all layers; None when a row ends beyond the matrix, a panic of the original. */
  method CpuBuildTree(p: Poseidon, matrix: seq<F>, height: nat, width: nat, stride: nat)
    returns (tree: Option<(seq<Digest>, seq<seq<Digest>>)>)
    requires Sized(p)
    ensures tree.Some? <==> RowsInside(matrix, height, width, stride)
    ensures tree.Some? ==>
      var (root, layers) := tree.value;
      && layers == Reduced(Pairs(p), LeavesOf(p, matrix, height, width, stride)) && root == layers[|layers| - 1]
      && |layers[0]| == height
      && forall r, row {:trigger HasWords(row, matrix, r, width, stride)} ::
           0 <= r < height && HasWords(row, matrix, r, width, stride) ==> layers[0][r] == LeafHash(p, row)
  {
    hide LeafHash, Sized, TreeRow, HasWords, LeavesOf;
    var leaves, actual := [], if width <= stride then width else stride;
    for r := 0 to height
      invariant |leaves| == r && RowsInside(matrix, r, width, stride)
      invariant forall t {:trigger leaves[t]} :: 0 <= t < r ==>
          RowFits(matrix, t, width, stride) && leaves[t] == LeafHash(p, TreeRow(matrix, t, width, stride))
    {
      if r * stride + actual > |matrix| {
        assert !RowFits(matrix, r, width, stride);
        return None;
      }
      MulLe(0, r, stride);
      TreeRowWords(matrix, r, width, stride);
      var row := matrix[r * stride..r * stride + actual] + seq(width - actual, _ => 0);
      assert HasWords(row, matrix, r, width, stride) by { CopiedRow(row, matrix, r, width, stride); }
      var digest := CpuLeafHash(p, row);
      leaves := leaves + [digest];
    }
    LeavesAre(p, matrix, height, width, stride, leaves);
    var layers := ReduceLayers(Pairs(p), leaves);
    tree := Some((layers[|layers| - 1], layers));
    forall r, row {:trigger HasWords(row, matrix, r, width, stride)} |
      0 <= r < height && HasWords(row, matrix, r, width, stride)
      ensures layers[0][r] == LeafHash(p, row)
    {
      TreeRowWords(matrix, r, width, stride);
    }
  }

  lemma CopiedRow(row: seq<F>, matrix: seq<F>, r: nat, width: nat, stride: nat)
    requires RowFits(matrix, r, width, stride)
    requires var actual := if width <= stride then width else stride;
      row == matrix[r * stride..r * stride + actual] + seq(width - actual, _ => 0)
    ensures HasWords(row, matrix, r, width, stride)
  {
  }

  lemma LeavesAre(p: Poseidon, matrix: seq<F>, height: nat, width: nat, stride: nat, leaves: seq<Digest>)
    requires Sized(p) && RowsInside(matrix, height, width, stride) && |leaves| == height
    requires forall t {:trigger leaves[t]} :: 0 <= t < height ==>
        RowFits(matrix, t, width, stride) && leaves[t] == LeafHash(p, TreeRow(matrix, t, width, stride))
    ensures leaves == LeavesOf(p, matrix, height, width, stride)
  {
    hide LeafHash, TreeRow;
  }

  method PairLayer<D(!new)>(hash: PairHash<D>, prev: seq<D>) returns (next: seq<D>)
    ensures next == PairUp(hash, prev)
  {
    next := [];
    for i := 0 to |prev| / 2
      invariant |next| == i && forall k {:trigger next[k]} :: 0 <= k < i ==> next[k] == PairUp(hash, prev)[k]
    {
      next := next + [hash.pair(prev[2 * i], prev[2 * i + 1])];
    }
  }

  method ReduceLayers<D(!new)>(hash: PairHash<D>, leaves: seq<D>) returns (layers: seq<seq<D>>)
    ensures layers == Reduced(hash, leaves)
  {
    hide PairUp, Reduced;
    layers := [leaves];
    var n := |leaves|;
    while n > 1
      invariant |layers| > 0 && n == |layers[|layers| - 1]|
      invariant layers[..|layers| - 1] + Reduced(hash, layers[|layers| - 1]) == Reduced(hash, leaves)
      decreases n
    {
      var prev := layers[|layers| - 1];
      var next := PairLayer(hash, prev);
      ReducedGrow(hash, layers, prev, next);
      layers := layers + [next];
      n := n / 2;
    }
    LastReduced(hash, layers[|layers| - 1]);
  }

  lemma LastReduced<D(!new)>(hash: PairHash<D>, layer: seq<D>)
    requires |layer| <= 1
    ensures Reduced(hash, layer) == [layer]
  {
  }

  lemma ReducedGrow<D(!new)>(hash: PairHash<D>, layers: seq<seq<D>>, prev: seq<D>, next: seq<D>)
    requires |layers| > 0 && layers[|layers| - 1] == prev && |prev| > 1 && next == PairUp(hash, prev)
    ensures layers[..|layers| - 1] + Reduced(hash, prev) == layers + Reduced(hash, next)
  {
    hide PairUp;
    assert layers == layers[..|layers| - 1] + [prev];
    assert Reduced(hash, prev) == [prev] + Reduced(hash, next);
  }

  /** With a power of two of leaves nothing is dropped and nothing padded: both constructions agree. */
  lemma {:induction false} PowerOfTwoTree<D(!new)>(hash: PairHash<D>, leaves: seq<D>, d: nat)
    requires |leaves| == Pow2(d)
    ensures Reduced(hash, leaves) == Layers(hash, leaves) && Depth(|leaves|) == d
    decreases d
  {
    hide PairUp, NextLayer;
    if d > 0 {
      EvenLayer(hash, leaves);
      PowerOfTwoTree(hash, PairUp(hash, leaves), d - 1);
    }
  }

  lemma EvenLayer<D(!new)>(hash: PairHash<D>, layer: seq<D>)
    requires |layer| % 2 == 0
    ensures PairUp(hash, layer) == NextLayer(hash, layer)
  {
    forall i | 0 <= i < |layer| / 2 ensures PairUp(hash, layer)[i] == NextLayer(hash, layer)[i] {
      assert NextLayer(hash, layer)[i] == hash.pair(layer[2 * i], Sibling(hash, layer, 2 * i));
    }
  }

  /** The node next to idx: the index with its last bit flipped. */
  function Flipped(idx: nat): nat { if idx % 2 == 0 then idx + 1 else idx - 1 }

  /** The path can be read off the layers, one flipped index for each. */
  lemma {:induction false} PathReadsLayers<D(!new)>(hash: PairHash<D>, leaves: seq<D>, d: nat, idx: nat, l: nat)
    requires |leaves| == Pow2(d) && idx < |leaves| && l < d
    ensures |PathOf(hash, leaves, idx)| == d && |Layers(hash, leaves)| == d + 1
    ensures Flipped(Above(idx, l)) < |Layers(hash, leaves)[l]|
        && PathOf(hash, leaves, idx)[l] == Layers(hash, leaves)[l][Flipped(Above(idx, l))]
    decreases d
  {
    hide NextLayer, Above, Reduced;
    PathsHaveEqualLength(hash, leaves, idx);
    PowerOfTwoTree(hash, leaves, d);
    if l == 0 {
      NothingAbove(idx);
      OwnSibling(hash, leaves, idx);
    } else {
      PathReadsLayers(hash, NextLayer(hash, leaves), d - 1, idx / 2, l - 1);
      AboveOnce(idx, l - 1);
    }
  }

  lemma NothingAbove(idx: nat) ensures Above(idx, 0) == idx {}

  lemma OwnSibling<D(!new)>(hash: PairHash<D>, layer: seq<D>, idx: nat)
    requires idx < |layer| && |layer| % 2 == 0
    ensures Flipped(idx) < |layer| && Sibling(hash, layer, idx) == layer[Flipped(idx)]
  {
  }

  /** Openings read off a tree of 2^d rows of k chunks satisfy the query constraints at the index they belong to. */
  lemma TreeOpeningAccepted(p: Poseidon, matrix: seq<F>, d: nat, k: nat, stride: nat, a: F)
    requires Sized(p) && 5 <= d <= 24 && k >= 2 && RowsInside(matrix, Pow2(d), 8 * k, stride)
    ensures var i, leaves := Below(a, d), LeavesOf(p, matrix, Pow2(d), 8 * k, stride);
            var layers, path := Reduced(Pairs(p), leaves), PathOf(Pairs(p), leaves, i);
            && |layers[|layers| - 1]| == 1 && path != []
            && RowFits(matrix, i, 8 * k, stride)
            && QueryHolds(Pairs(p), a, d, layers[|layers| - 1][0],
                RtlHash(Pairs(p), Chunks(TreeRow(matrix, i, 8 * k, stride), k)),
                HonestMemory(Pairs(p), a, leaves[i], path), QueryPoint(a, d))
  {
    hide QueryHolds, QueryPoint, HonestMemory, LeafHash, RtlHash, Sized, TreeRow, Climb, RowFits, Below, Chunks;
    var i, leaves, hash := Below(a, d), LeavesOf(p, matrix, Pow2(d), 8 * k, stride), Pairs(p);
    assert RowFits(matrix, i, 8 * k, stride);
    LeafHashIsRtl(p, TreeRow(matrix, i, 8 * k, stride), k);
    PowerOfTwoTree(hash, leaves, d);
    PathsHaveEqualLength(hash, leaves, i);
    OpeningVerifies(hash, leaves, i);
    QueryComplete(hash, a, d, RootOf(hash, leaves), leaves[i], PathOf(hash, leaves, i));
  }
}
