/** The Merkle tree of the tensor code: layers padded when odd, openings and their verification. */
module MerkleTrees {
  import opened Arith

  /** The pair hash and the padding sentinel; the leaf hashes belong to the code that commits. */
  datatype PairHash<!H(!new)> = PairHash(pair: (H, H) -> H, pad: H)

  datatype MerkleTree<H> = MerkleTree(layers: seq<seq<H>>)

  datatype MerkleProof<H> = MerkleProof(index: nat, path: seq<H>)

  // -- What the loops compute ---------------------------------------------------------------------

  /** The partner of node idx in its layer: the padding where an odd layer ends. */
  function Sibling<H(!new)>(hash: PairHash<H>, layer: seq<H>, idx: nat): H
    requires idx < |layer|
  {
    if idx % 2 == 1 then layer[idx - 1] else if idx + 1 < |layer| then layer[idx + 1] else hash.pad
  }

  /** A node over a child and its sibling, in the order the child's index gives. */
  function Parent<H(!new)>(hash: PairHash<H>, child: H, sibling: H, idx: nat): H {
    if idx % 2 == 0 then hash.pair(child, sibling) else hash.pair(sibling, child)
  }

  function NextLayer<H(!new)>(hash: PairHash<H>, layer: seq<H>): (next: seq<H>)
    ensures |next| == (|layer| + 1) / 2
  {
    seq((|layer| + 1) / 2, (i: int) requires 0 <= i < (|layer| + 1) / 2 =>
        hash.pair(layer[2 * i], Sibling(hash, layer, 2 * i)))
  }

  function Layers<H(!new)>(hash: PairHash<H>, leaves: seq<H>): (layers: seq<seq<H>>)
    requires |leaves| > 0
    ensures |layers| > 0 && layers[0] == leaves && |layers[|layers| - 1]| == 1
    decreases |leaves|
  {
    if |leaves| == 1 then [leaves] else [leaves] + Layers(hash, NextLayer(hash, leaves))
  }

  function RootOf<H(!new)>(hash: PairHash<H>, leaves: seq<H>): H
    requires |leaves| > 0
  {
    var layers := Layers(hash, leaves);
    layers[|layers| - 1][0]
  }

  /** The siblings from leaf idx up to the root. */
  function PathOf<H(!new)>(hash: PairHash<H>, leaves: seq<H>, idx: nat): seq<H>
    requires idx < |leaves|
    decreases |leaves|
  {
    if |leaves| == 1 then [] else [Sibling(hash, leaves, idx)] + PathOf(hash, NextLayer(hash, leaves), idx / 2)
  }

  /** The value reached by climbing a path. */
  function Climb<H(!new)>(hash: PairHash<H>, leaf: H, idx: nat, path: seq<H>): H
    decreases |path|
  {
    if path == [] then leaf else Climb(hash, Parent(hash, leaf, path[0], idx), idx / 2, path[1..])
  }

  /** How often n leaves can be halved, rounding up, before one is left. */
  function Depth(n: nat): nat
    requires n > 0
  {
    if n == 1 then 0 else 1 + Depth((n + 1) / 2)
  }

  // -- The loops ----------------------------------------------------------------------------------

  method FromLeaves<H(!new)>(hash: PairHash<H>, leaves: seq<H>) returns (tree: MerkleTree<H>)
    requires |leaves| > 0
    ensures tree.layers == Layers(hash, leaves)
  {
    hide Layers, NextLayer;
    var layers := [leaves];
    while |layers[|layers| - 1]| > 1
      invariant |layers| > 0 && |layers[|layers| - 1]| > 0
      invariant layers[..|layers| - 1] + Layers(hash, layers[|layers| - 1]) == Layers(hash, leaves)
      decreases |layers[|layers| - 1]|
    {
      var prev := layers[|layers| - 1];
      var next := NextLoop(hash, prev);
      LayersGrow(hash, layers, prev, next);
      layers := layers + [next];
    }
    LastLayers(hash, layers[|layers| - 1]);
    tree := MerkleTree(layers);
  }

  lemma LastLayers<H(!new)>(hash: PairHash<H>, layer: seq<H>)
    requires |layer| == 1
    ensures Layers(hash, layer) == [layer]
  {
  }

  method NextLoop<H(!new)>(hash: PairHash<H>, prev: seq<H>) returns (next: seq<H>)
    requires |prev| > 1
    ensures next == NextLayer(hash, prev)
  {
    hide NextLayer;
    var n := |prev|;
    next := [];
    for i := 0 to n / 2
      invariant |next| == i
      invariant forall k {:trigger next[k]} :: 0 <= k < i ==> next[k] == hash.pair(prev[2 * k], prev[2 * k + 1])
    {
      next := next + [hash.pair(prev[2 * i], prev[2 * i + 1])];
    }
    if n % 2 != 0 {
      next := next + [hash.pair(prev[n - 1], hash.pad)];
    }
    NextLayerIs(hash, prev, next);
  }

  lemma NextLayerIs<H(!new)>(hash: PairHash<H>, prev: seq<H>, next: seq<H>)
    requires |next| == (|prev| + 1) / 2
    requires forall k {:trigger next[k]} :: 0 <= k < |prev| / 2 ==> next[k] == hash.pair(prev[2 * k], prev[2 * k + 1])
    requires |prev| % 2 != 0 ==> next[|next| - 1] == hash.pair(prev[|prev| - 1], hash.pad)
    ensures next == NextLayer(hash, prev)
  {
    forall k | 0 <= k < |next| ensures next[k] == NextLayer(hash, prev)[k] {
      assert NextLayer(hash, prev)[k] == hash.pair(prev[2 * k], Sibling(hash, prev, 2 * k));
    }
  }

  lemma LayersGrow<H(!new)>(hash: PairHash<H>, layers: seq<seq<H>>, prev: seq<H>, next: seq<H>)
    requires |layers| > 0 && layers[|layers| - 1] == prev && |prev| > 1 && next == NextLayer(hash, prev)
    ensures layers[..|layers| - 1] + Layers(hash, prev) == layers + Layers(hash, next)
  {
    assert layers == layers[..|layers| - 1] + [prev];
    assert Layers(hash, prev) == [prev] + Layers(hash, next);
  }

  method Open<H(!new)>(hash: PairHash<H>, tree: MerkleTree<H>, leaves: seq<H>, index: nat)
    returns (proof: MerkleProof<H>)
    requires index < |leaves| && tree.layers == Layers(hash, leaves)
    ensures proof == MerkleProof(index, PathOf(hash, leaves, index))
  {
    hide Layers, NextLayer, PathOf;
    var path: seq<H>, idx: nat, k: nat := [], index, 0;
    ghost var rest := leaves;
    while k < |tree.layers| - 1
      invariant 0 <= k < |tree.layers| && idx < |rest| && tree.layers[k..] == Layers(hash, rest)
      invariant path + PathOf(hash, rest, idx) == PathOf(hash, leaves, index)
    {
      var layer := tree.layers[k];
      LayersUnfold(hash, tree.layers, k, rest);
      var sibling: H;
      if idx % 2 == 0 {
        sibling := if idx + 1 < |layer| then layer[idx + 1] else hash.pad;
      } else {
        sibling := layer[idx - 1];
      }
      PathGrows(hash, path, rest, idx);
      path := path + [sibling];
      idx := idx / 2;
      rest := NextLayer(hash, rest);
      k := k + 1;
    }
    LastPath(hash, tree.layers[k..], rest, idx);
    proof := MerkleProof(index, path);
  }

  lemma LastPath<H(!new)>(hash: PairHash<H>, layers: seq<seq<H>>, rest: seq<H>, idx: nat)
    requires idx < |rest| && |layers| == 1 && layers == Layers(hash, rest)
    ensures PathOf(hash, rest, idx) == []
  {
  }

  lemma LayersUnfold<H(!new)>(hash: PairHash<H>, layers: seq<seq<H>>, k: nat, rest: seq<H>)
    requires |rest| > 0 && k < |layers| - 1 && layers[k..] == Layers(hash, rest)
    ensures layers[k] == rest && |rest| > 1 && layers[k + 1..] == Layers(hash, NextLayer(hash, rest))
  {
    assert layers[k] == layers[k..][0];
    assert layers[k + 1..] == layers[k..][1..];
    assert |layers[k..]| > 1;
  }

  lemma PathGrows<H(!new)>(hash: PairHash<H>, path: seq<H>, rest: seq<H>, idx: nat)
    requires |rest| > 1 && idx < |rest|
    ensures path + PathOf(hash, rest, idx) == (path + [Sibling(hash, rest, idx)])
        + PathOf(hash, NextLayer(hash, rest), idx / 2)
  {
  }

  method Verify<H(!new, ==)>(hash: PairHash<H>, proof: MerkleProof<H>, leaf: H, root: H) returns (ok: bool)
    ensures ok <==> Climb(hash, leaf, proof.index, proof.path) == root
  {
    var current, idx, k := leaf, proof.index, 0;
    while k < |proof.path|
      invariant 0 <= k <= |proof.path|
      invariant Climb(hash, current, idx, proof.path[k..]) == Climb(hash, leaf, proof.index, proof.path)
    {
      var sibling := proof.path[k];
      assert proof.path[k..][1..] == proof.path[k + 1..];
      current := if idx % 2 == 0 then hash.pair(current, sibling) else hash.pair(sibling, current);
      idx := idx / 2;
      k := k + 1;
    }
    ok := current == root;
  }

  // -- Properties ---------------------------------------------------------------------------------

  /** Every opening of every tree is accepted, odd layers included. */
  lemma {:induction false} OpeningVerifies<H(!new)>(hash: PairHash<H>, leaves: seq<H>, idx: nat)
    requires idx < |leaves|
    ensures Climb(hash, leaves[idx], idx, PathOf(hash, leaves, idx)) == RootOf(hash, leaves)
    decreases |leaves|
  {
    if |leaves| > 1 {
      var next, path := NextLayer(hash, leaves), PathOf(hash, leaves, idx);
      OpeningVerifies(hash, next, idx / 2);
      ParentIsNext(hash, leaves, idx);
      assert path[1..] == PathOf(hash, next, idx / 2);
    }
  }

  lemma ParentIsNext<H(!new)>(hash: PairHash<H>, layer: seq<H>, idx: nat)
    requires idx < |layer|
    ensures NextLayer(hash, layer)[idx / 2] == Parent(hash, layer[idx], Sibling(hash, layer, idx), idx)
  {
    assert NextLayer(hash, layer)[idx / 2] == hash.pair(layer[2 * (idx / 2)], Sibling(hash, layer, 2 * (idx / 2)));
  }

  /** All openings of a tree have the same length, one sibling for each layer below the root. */
  lemma {:induction false} PathsHaveEqualLength<H(!new)>(hash: PairHash<H>, leaves: seq<H>, idx: nat)
    requires idx < |leaves|
    ensures |PathOf(hash, leaves, idx)| == Depth(|leaves|) == |Layers(hash, leaves)| - 1
    decreases |leaves|
  {
    if |leaves| > 1 {
      PathsHaveEqualLength(hash, NextLayer(hash, leaves), idx / 2);
    }
  }

  /** The depth is the number of bits needed for the leaf indices. */
  lemma {:induction false} DepthIsLog(n: nat)
    requires n > 0
    ensures n <= Pow2(Depth(n)) && (n > 1 ==> Pow2(Depth(n) - 1) < n)
  {
    if n > 1 {
      DepthIsLog((n + 1) / 2);
    }
  }

  ghost predicate Injective<H(!new)>(hash: PairHash<H>) {
    forall a, b, c, d {:trigger hash.pair(a, b), hash.pair(c, d)} :: hash.pair(a, b) == hash.pair(c, d) ==>
        a == c && b == d
  }

  /** With an injective pair hash, accepted proofs of the same index and length are the same, leaf included. */
  lemma {:induction false} ProofsBind<H(!new)>(hash: PairHash<H>, leaf: H, leaf': H, idx: nat, path: seq<H>,
      path': seq<H>)
    requires Injective(hash) && |path| == |path'|
    requires Climb(hash, leaf, idx, path) == Climb(hash, leaf', idx, path')
    ensures leaf == leaf' && path == path'
    decreases |path|
  {
    if path != [] {
      ProofsBind(hash, Parent(hash, leaf, path[0], idx), Parent(hash, leaf', path'[0], idx), idx / 2, path[1..],
          path'[1..]);
      assert path == [path[0]] + path[1..] && path' == [path'[0]] + path'[1..];
    }
  }

  /** A proof of full length accepted against an honest root carries the committed leaf and is the honest path. */
  lemma AcceptedLeafIsCommitted<H(!new)>(hash: PairHash<H>, leaves: seq<H>, leaf: H, proof: MerkleProof<H>)
    requires Injective(hash) && proof.index < |leaves| && |proof.path| == Depth(|leaves|)
    ensures Climb(hash, leaf, proof.index, proof.path) == RootOf(hash, leaves)
            <==> leaf == leaves[proof.index] && proof.path == PathOf(hash, leaves, proof.index)
  {
    OpeningVerifies(hash, leaves, proof.index);
    PathsHaveEqualLength(hash, leaves, proof.index);
    if Climb(hash, leaf, proof.index, proof.path) == RootOf(hash, leaves) {
      ProofsBind(hash, leaf, leaves[proof.index], proof.index, proof.path, PathOf(hash, leaves, proof.index));
    }
  }

  /** Verification reads only as many bits of the index as the path is long. */
  lemma {:induction false} OnlyLowBitsMatter<H(!new)>(hash: PairHash<H>, leaf: H, idx: nat, high: nat, path: seq<H>)
    ensures high * Pow2(|path|) >= 0
    ensures Climb(hash, leaf, idx + high * Pow2(|path|), path) == Climb(hash, leaf, idx, path)
    decreases |path|
  {
    MulLe(0, high, Pow2(|path|));
    if path != [] {
      var half := Pow2(|path| - 1);
      assert high * Pow2(|path|) == 2 * (high * half) by { MulAssoc(high, 2, half); MulAssoc(2, high, half); }
      assert (idx + 2 * (high * half)) / 2 == idx / 2 + high * half;
      OnlyLowBitsMatter(hash, Parent(hash, leaf, path[0], idx), idx / 2, high, path[1..]);
    }
  }

  // -- Climbing in pieces -------------------------------------------------------------------------

  lemma {:induction false} ClimbSplit<H(!new)>(hash: PairHash<H>, leaf: H, idx: nat, p: seq<H>, q: seq<H>)
    ensures Climb(hash, leaf, idx, p + q) == Climb(hash, Climb(hash, leaf, idx, p), Above(idx, |p|), q)
    decreases |p|
  {
    if p == [] {
      assert p + q == q;
    } else {
      assert (p + q)[0] == p[0] && (p + q)[1..] == p[1..] + q;
      ClimbSplit(hash, Parent(hash, leaf, p[0], idx), idx / 2, p[1..], q);
      AboveOnce(idx, |p| - 1);
    }
  }

  lemma ClimbMod<H(!new)>(hash: PairHash<H>, leaf: H, idx: nat, path: seq<H>)
    ensures Climb(hash, leaf, idx, path) == Climb(hash, leaf, Below(idx, |path|), path)
  {
    OnlyLowBitsMatter(hash, leaf, Below(idx, |path|), Above(idx, |path|), path);
    AboveBelow(idx, |path|);
  }

  // -- What acceptance binds when leaves and nodes are hashed apart ---------------------------------

  /** Some pair hashes to x. */
  ghost predicate IsNode<H(!new)>(hash: PairHash<H>, x: H) {
    exists a, b :: hash.pair(a, b) == x
  }

  ghost predicate NoneIsNode<H(!new)>(hash: PairHash<H>, leaves: seq<H>) {
    forall i {:trigger leaves[i]} :: 0 <= i < |leaves| ==> !IsNode(hash, leaves[i])
  }

  lemma {:induction false} ClimbIsNode<H(!new)>(hash: PairHash<H>, leaf: H, idx: nat, path: seq<H>)
    requires path != []
    ensures IsNode(hash, Climb(hash, leaf, idx, path))
    decreases |path|
  {
    if |path| == 1 {
      assert Climb(hash, leaf, idx, path) == Parent(hash, leaf, path[0], idx);
    } else {
      ClimbIsNode(hash, Parent(hash, leaf, path[0], idx), idx / 2, path[1..]);
    }
  }

  lemma {:induction false} DepthOfPower(d: nat)
    ensures Depth(Pow2(d)) == d
  {
    if d > 0 { DepthOfPower(d - 1); }
  }

  /** A shorter proof would climb from a node of the tree. */
  lemma NotShorter<H(!new)>(hash: PairHash<H>, leaves: seq<H>, d: nat, leaf: H, idx: nat, path: seq<H>)
    requires Injective(hash) && |leaves| == Pow2(d) && |path| < d && !IsNode(hash, leaf)
    ensures Climb(hash, leaf, idx, path) != RootOf(hash, leaves)
  {
    hide Climb, RootOf, PathOf, Injective, IsNode;
    var k := |path|;
    var j := Below(idx, k) * Pow2(d - k);
    Pow2Add(k, d - k);
    MulLe(Below(idx, k) + 1, Pow2(k), Pow2(d - k));
    Distribute(Below(idx, k), 1, Pow2(d - k));
    MulLe(0, Below(idx, k), Pow2(d - k));
    Commute(Pow2(d - k), Below(idx, k));
    DivModUnique(j, Pow2(d - k), Below(idx, k), 0);
    var honest := PathOf(hash, leaves, j);
    OpeningVerifies(hash, leaves, j);
    PathsHaveEqualLength(hash, leaves, j);
    DepthOfPower(d);
    assert honest == honest[..d - k] + honest[d - k..];
    ClimbSplit(hash, leaves[j], j, honest[..d - k], honest[d - k..]);
    ClimbIsNode(hash, leaves[j], j, honest[..d - k]);
    ClimbMod(hash, leaf, idx, path);
    if Climb(hash, leaf, idx, path) == RootOf(hash, leaves) {
      ProofsBind(hash, leaf, Climb(hash, leaves[j], j, honest[..d - k]), Below(idx, k), path, honest[d - k..]);
    }
  }

  /** A longer proof would reach a leaf of the tree from below. */
  lemma NotLonger<H(!new)>(hash: PairHash<H>, leaves: seq<H>, d: nat, leaf: H, idx: nat, path: seq<H>)
    requires Injective(hash) && |leaves| == Pow2(d) && d < |path| && NoneIsNode(hash, leaves)
    ensures Climb(hash, leaf, idx, path) != RootOf(hash, leaves)
  {
    hide Climb, RootOf, PathOf, Injective, IsNode;
    var below := |path| - d;
    var first, last := path[..below], path[below..];
    assert path == first + last;
    var y, j := Climb(hash, leaf, idx, first), Below(Above(idx, below), d);
    ClimbSplit(hash, leaf, idx, first, last);
    ClimbIsNode(hash, leaf, idx, first);
    ClimbMod(hash, y, Above(idx, below), last);
    OpeningVerifies(hash, leaves, j);
    PathsHaveEqualLength(hash, leaves, j);
    DepthOfPower(d);
    if Climb(hash, leaf, idx, path) == RootOf(hash, leaves) {
      ProofsBind(hash, y, leaves[j], j, last, PathOf(hash, leaves, j));
    }
  }

  /**
   * When pairs are hashed injectively and no leaf is a node, a proof of any length and index is accepted exactly if it
   * is the honest proof of the leaf at the low bits of its index.
   */
  lemma AcceptedExactly<H(!new)>(hash: PairHash<H>, leaves: seq<H>, d: nat, leaf: H, idx: nat, path: seq<H>)
    requires Injective(hash) && |leaves| == Pow2(d) && NoneIsNode(hash, leaves) && !IsNode(hash, leaf)
    ensures Climb(hash, leaf, idx, path) == RootOf(hash, leaves)
            <==> leaf == leaves[Below(idx, d)] && path == PathOf(hash, leaves, Below(idx, d))
  {
    hide Climb, RootOf, PathOf, Injective, NoneIsNode, IsNode;
    DepthOfPower(d);
    if |path| < d {
      NotShorter(hash, leaves, d, leaf, idx, path);
      PathsHaveEqualLength(hash, leaves, Below(idx, d));
    } else if |path| > d {
      NotLonger(hash, leaves, d, leaf, idx, path);
      PathsHaveEqualLength(hash, leaves, Below(idx, d));
    } else {
      ClimbMod(hash, leaf, idx, path);
      AcceptedLeafIsCommitted(hash, leaves, leaf, MerkleProof(Below(idx, d), path));
    }
  }
}
