/** The Merkle query gadget of the recursive verifier: nibble-batched walk, bit-by-bit walk and the query point. */
module MerkleQuery {
  import opened Arith
  import opened Rings
  import opened KoalaBear
  import opened BitDecomposition
  import opened MerkleTrees

  const ROOT: F := 1791270792

  // -- Climbing in pieces ---------------------------------------------------------------------------------

  lemma ClimbOne<D(!new)>(hash: PairHash<D>, leaf: D, idx: nat, path: seq<D>, j: nat)
    requires j < |path|
    ensures Climb(hash, leaf, idx, path[..j + 1])
        == Parent(hash, Climb(hash, leaf, idx, path[..j]), path[j], Above(idx, j))
  {
    assert path[..j + 1] == path[..j] + [path[j]];
    ClimbSplit(hash, leaf, idx, path[..j], [path[j]]);
    var at := Climb(hash, leaf, idx, path[..j]);
    assert Climb(hash, at, Above(idx, j), [path[j]]) == Parent(hash, at, path[j], Above(idx, j));
  }

  // -- whir_do_{1,2,3,4}_merkle_levels ------------------------------------------------------------------------

  /** r_0 = b, r_(j+1) = (r_j - r_j % 2) / 2 */
  function Remaining(b: nat, j: nat): nat {
    if j == 0 then b else (Remaining(b, j - 1) - Remaining(b, j - 1) % 2) / 2
  }

  lemma {:induction false} RemainingIs(b: nat, j: nat)
    ensures Remaining(b, j) == Above(b, j)
  {
    if j > 0 {
      RemainingIs(b, j - 1);
      AboveOnce(b, j - 1);
    }
  }

  /** The unrolled levels: each writes the next temporary cell, the last one the output. */
  ghost predicate Levels<D(!new)>(hash: PairHash<D>, b: nat, stateIn: D, chunk: seq<D>, temps: seq<D>, stateOut: D) {
    && 1 <= |chunk| <= 4 && |temps| == |chunk| - 1
    && forall j {:trigger chunk[j]} :: 0 <= j < |chunk| ==>
         (temps + [stateOut])[j] == Parent(hash, ([stateIn] + temps)[j], chunk[j], Remaining(b, j))
  }

  /** The cells the levels force. */
  function Climbs<D(!new)>(hash: PairHash<D>, b: nat, stateIn: D, chunk: seq<D>, n: nat): (cells: seq<D>)
    requires n <= |chunk|
    ensures |cells| == n
  {
    seq(n, (j: int) requires 0 <= j < n => Climb(hash, stateIn, b, chunk[..j + 1]))
  }

  lemma {:induction false} LevelsForce<D(!new)>(hash: PairHash<D>, b: nat, stateIn: D, chunk: seq<D>, temps: seq<D>,
      stateOut: D, j: nat)
    requires Levels(hash, b, stateIn, chunk, temps, stateOut) && j < |chunk|
    ensures (temps + [stateOut])[j] == Climb(hash, stateIn, b, chunk[..j + 1])
  {
    hide Climb, Parent, Pow2, Above, Below, Remaining;
    if j > 0 {
      LevelsForce(hash, b, stateIn, chunk, temps, stateOut, j - 1);
    } else { NoSteps(hash, stateIn, b, chunk); }
    assert ([stateIn] + temps)[j] == Climb(hash, stateIn, b, chunk[..j]);
    ClimbOne(hash, stateIn, b, chunk, j);
    RemainingIs(b, j);
    var node := chunk[j];
  }

  lemma NoSteps<D(!new)>(hash: PairHash<D>, leaf: D, idx: nat, path: seq<D>)
    ensures Climb(hash, leaf, idx, path[..0]) == leaf
  {
  }

  lemma LevelsHold<D(!new)>(hash: PairHash<D>, b: nat, stateIn: D, chunk: seq<D>)
    requires 1 <= |chunk| <= 4
    ensures Levels(hash, b, stateIn, chunk, Climbs(hash, b, stateIn, chunk, |chunk| - 1),
        Climb(hash, stateIn, b, chunk))
  {
    hide Climb, Parent, Pow2, Above, Below, Remaining;
    var temps, stateOut := Climbs(hash, b, stateIn, chunk, |chunk| - 1), Climb(hash, stateIn, b, chunk);
    assert chunk[..|chunk|] == chunk;
    NoSteps(hash, stateIn, b, chunk);
    forall j {:trigger chunk[j]} | 0 <= j < |chunk|
      ensures (temps + [stateOut])[j] == Parent(hash, ([stateIn] + temps)[j], chunk[j], Remaining(b, j))
    {
      ClimbOne(hash, stateIn, b, chunk, j);
      RemainingIs(b, j);
      assert (temps + [stateOut])[j] == Climb(hash, stateIn, b, chunk[..j + 1]);
      assert ([stateIn] + temps)[j] == Climb(hash, stateIn, b, chunk[..j]);
    }
  }

  // -- decompose_and_verify_merkle_query ------------------------------------------------------------------------

  /** The cells of one query: everything but the root and the leaf hash. */
  datatype QueryMemory<D> = QueryMemory(nibbles: seq<F>, path: seq<D>, states: seq<D>, temps: seq<seq<D>>)

  function DivCeil(d: nat): nat { (d + 3) / 4 }

  /** Nibble k handles four levels, the last one what remains. */
  function LevelsAt(d: nat, k: nat): nat { if 4 * k + 4 <= d then 4 else d % 4 }

  /** ROOT ** (power_shift * v), with v reduced to the bits the last nibble still has. */
  ghost function NibblePower(d: nat, k: nat, v: nat): F
    requires d <= 24
  {
    KoalaBearRing().Pow(ROOT, Shl(Below(v, LevelsAt(d, k)), 24 - d + 4 * k))
  }

  ghost function Product(d: nat, nibbles: seq<F>, k: nat): F
    requires d <= 24 && k <= |nibbles|
  {
    if k == 0 then 1 else FMul(Product(d, nibbles, k - 1), NibblePower(d, k - 1, nibbles[k - 1]))
  }

  /** The siblings of the levels of nibble k. */
  function ChunkOf<D>(path: seq<D>, k: nat): seq<D>
    requires 4 * k <= |path|
  {
    path[4 * k..if 4 * k + 4 <= |path| then 4 * k + 4 else |path|]
  }

  /** Nibble k: from the leaf hash or the previous state to the next state, or to the root at the end. */
  ghost predicate NibbleHolds<D(!new)>(hash: PairHash<D>, root: D, leafHash: D, mem: QueryMemory<D>, k: nat)
    requires k < |mem.nibbles| && |mem.states| + 1 == |mem.temps| && k < |mem.temps| && 4 * k <= |mem.path|
  {
    Levels(hash, mem.nibbles[k], if k == 0 then leafHash else mem.states[k - 1], ChunkOf(mem.path, k), mem.temps[k],
        if k == |mem.states| then root else mem.states[k])
  }

  /** What the program asserts and computes for one query of height d. */
  ghost predicate QueryHolds<D(!new)>(hash: PairHash<D>, a: F, d: nat, root: D, leafHash: D, mem: QueryMemory<D>,
      prod: F)
    requires 5 <= d <= 24
  {
    && NibblesChecked(a, mem.nibbles)
    && |mem.path| == d && |mem.states| == DivCeil(d) - 1 && |mem.temps| == DivCeil(d)
    && (forall k :: 0 <= k < DivCeil(d) ==> NibbleHolds(hash, root, leafHash, mem, k))
    && prod == Product(d, mem.nibbles, DivCeil(d))
  }

  /** A chunk climbed with its nibble is climbed with the whole index, shifted. */
  lemma NibbleClimb<D(!new)>(hash: PairHash<D>, a: nat, k: nat, v: nat, stateIn: D, chunk: seq<D>)
    requires v == Digit(a, 4, k) && |chunk| <= 4
    ensures Climb(hash, stateIn, v, chunk) == Climb(hash, stateIn, Above(a, 4 * k), chunk)
  {
    hide Climb, Above, Below, Digit;
    DigitIsBelow(a, k);
    ClimbMod(hash, stateIn, v, chunk);
    ClimbMod(hash, stateIn, Above(a, 4 * k), chunk);
    ShorterMod(Above(a, 4 * k), |chunk|);
  }

  lemma ShorterMod(x: nat, l: nat)
    requires l <= 4
    ensures Below(Below(x, 4), l) == Below(x, l)
  {
    Pow2Add(4 - l, l);
    var p, b := Pow2(l), Pow2(4 - l);
    SplitModulus(x, p, b);
    ModShift(x % p, (x / p) % b, p);
    DivModUnique(x % p, p, 0, x % p);
  }

  lemma DigitIsBelow(a: nat, k: nat)
    ensures Digit(a, 4, k) == Below(Above(a, 4 * k), 4)
  {
  }

  /** The node reached after k nibbles. */
  function Reached<D(!new)>(hash: PairHash<D>, a: nat, leafHash: D, path: seq<D>, k: nat): D {
    Climb(hash, leafHash, a, path[..if 4 * k <= |path| then 4 * k else |path|])
  }

  lemma ReachedEnds<D(!new)>(hash: PairHash<D>, a: nat, leafHash: D, path: seq<D>)
    ensures Reached(hash, a, leafHash, path, 0) == leafHash
    ensures Reached(hash, a, leafHash, path, DivCeil(|path|)) == Climb(hash, leafHash, Below(a, |path|), path)
  {
    hide Climb, Below;
    NoSteps(hash, leafHash, a, path);
    assert path[..|path|] == path;
    ClimbMod(hash, leafHash, a, path);
  }

  /** The levels of nibble k lead from one reached node to the next. */
  lemma ReachedNext<D(!new)>(hash: PairHash<D>, a: nat, leafHash: D, path: seq<D>, k: nat, v: nat)
    requires v == Digit(a, 4, k) && 4 * k < |path|
    ensures 1 <= |ChunkOf(path, k)| <= 4
    ensures Climb(hash, Reached(hash, a, leafHash, path, k), v, ChunkOf(path, k))
        == Reached(hash, a, leafHash, path, k + 1)
  {
    hide Climb, Pow2, Above, Below, Digit;
    var before, chunk := path[..4 * k], ChunkOf(path, k);
    NibbleClimb(hash, a, k, v, Climb(hash, leafHash, a, before), chunk);
    ClimbSplit(hash, leafHash, a, before, chunk);
    assert path[..4 * k + |chunk|] == before + chunk;
  }

  /** The states are the nodes on the way up from the leaf at index a. */
  lemma {:induction false} StatesClimb<D(!new)>(hash: PairHash<D>, a: F, d: nat, root: D, leafHash: D,
      mem: QueryMemory<D>, prod: F, k: nat)
    requires 5 <= d <= 24 && QueryHolds(hash, a, d, root, leafHash, mem, prod) && k < DivCeil(d)
    requires forall i {:trigger mem.nibbles[i]} :: 0 <= i < 6 ==> mem.nibbles[i] == Digit(a, 4, i)
    ensures (if k == DivCeil(d) - 1 then root else mem.states[k]) == Reached(hash, a, leafHash, mem.path, k + 1)
  {
    hide Climb, Pow2, Digit, Levels, NibblesChecked, Reached, Product, ChunkOf;
    if k > 0 {
      StatesClimb(hash, a, d, root, leafHash, mem, prod, k - 1);
    } else { ReachedEnds(hash, a, leafHash, mem.path); }
    assert |mem.nibbles| == 6 by { NibbleCount(a, mem.nibbles); }
    assert NibbleHolds(hash, root, leafHash, mem, k);
    LevelsClimb(hash, mem.nibbles[k], if k == 0 then leafHash else mem.states[k - 1], ChunkOf(mem.path, k),
        mem.temps[k], if k == |mem.states| then root else mem.states[k]);
    ReachedNext(hash, a, leafHash, mem.path, k, mem.nibbles[k]);
  }

  lemma LevelsClimb<D(!new)>(hash: PairHash<D>, b: nat, stateIn: D, chunk: seq<D>, temps: seq<D>, stateOut: D)
    requires Levels(hash, b, stateIn, chunk, temps, stateOut)
    ensures stateOut == Climb(hash, stateIn, b, chunk)
  {
    hide Climb, Parent, Remaining;
    LevelsForce(hash, b, stateIn, chunk, temps, stateOut, |chunk| - 1);
    assert chunk[..|chunk|] == chunk;
  }

  /** The low 4 j + l bits, from the low 4 j bits and the low l bits of nibble j. */
  lemma ShiftedDigit(a: nat, j: nat, l: nat, v: nat)
    requires v == Digit(a, 4, j) && l <= 4
    ensures Below(a, 4 * j + l) == Below(a, 4 * j) + Shl(Below(v, l), 4 * j)
  {
    hide Pow2;
    Pow2Add(l, 4 * j);
    SplitModulus(a, Pow2(4 * j), Pow2(l));
    DigitIsBelow(a, j);
    ShorterMod(Above(a, 4 * j), l);
    Commute(Pow2(4 * j), Below(v, l));
  }

  lemma Exponents(d: nat, x: nat, j: nat, v: nat)
    requires d <= 24
    ensures Shl(x + Shl(v, 4 * j), 24 - d) == Shl(x, 24 - d) + Shl(v, 24 - d + 4 * j)
  {
    hide Pow2;
    var p, q := Pow2(24 - d), Pow2(4 * j);
    Pow2Add(24 - d, 4 * j);
    MulAssoc(p, q, v);
    Commute(p, x + q * v);
    Distribute(x, q * v, p);
    Commute(p, x);
    Commute(p, q * v);
  }

  lemma ProductIsSum(x: F, low: nat, high: nat)
    ensures FMul(KoalaBearRing().Pow(x, low), KoalaBearRing().Pow(x, high)) == KoalaBearRing().Pow(x, low + high)
  {
    hide KoalaBearRing, FMul;
    IsAField();
    KoalaBearRing().PowAdd(x, low, high);
    RingIsField(KoalaBearRing().Pow(x, low), KoalaBearRing().Pow(x, high));
  }

  lemma NothingSeen(a: nat, s: nat)
    ensures Shl(Below(a, 0), s) == 0 && KoalaBearRing().Pow(ROOT, 0) == 1
  {
    assert Below(a, 0) == 0;
  }

  /** The product of the nibble powers, over the bits seen so far. */
  lemma {:induction false} ProductIsPower(d: nat, a: nat, nibbles: seq<F>, k: nat, seen: nat)
    requires d <= 24 && k <= |nibbles| && k <= DivCeil(d) && seen == (if 4 * k <= d then 4 * k else d)
    requires forall i {:trigger nibbles[i]} :: 0 <= i < k ==> nibbles[i] == Digit(a, 4, i)
    ensures Product(d, nibbles, k) == KoalaBearRing().Pow(ROOT, Shl(Below(a, seen), 24 - d))
  {
    hide Digit, KoalaBearRing, Pow2, FMul, Ring<F>.Pow, Above, Below, Shl;
    if k == 0 {
      NothingSeen(a, 24 - d);
    } else {
      var j, l := k - 1, LevelsAt(d, k - 1);
      ProductIsPower(d, a, nibbles, j, 4 * j);
      ShiftedDigit(a, j, l, nibbles[j]);
      Exponents(d, Below(a, 4 * j), j, Below(nibbles[j], l));
      ProductIsSum(ROOT, Shl(Below(a, 4 * j), 24 - d), Shl(Below(nibbles[j], l), 24 - d + 4 * j));
    }
  }

  /** ROOT ** (2^(24-d) * (a mod 2^d)) */
  ghost function QueryPoint(a: nat, d: nat): F
    requires d <= 24
  {
    KoalaBearRing().Pow(ROOT, Shl(Below(a, d), 24 - d))
  }

  /**
   * Whatever the hints: the nibbles are those of a, the leaf sits below the root at index a mod 2^d, and the product is
   * the query point.
   */
  lemma QuerySound<D(!new)>(hash: PairHash<D>, a: F, d: nat, root: D, leafHash: D, mem: QueryMemory<D>, prod: F)
    requires 5 <= d <= 24 && QueryHolds(hash, a, d, root, leafHash, mem, prod)
    ensures forall i {:trigger mem.nibbles[i]} :: 0 <= i < 6 ==> mem.nibbles[i] == Digit(a, 4, i)
    ensures Climb(hash, leafHash, Below(a, d), mem.path) == root
    ensures prod == QueryPoint(a, d)
  {
    hide Climb, Pow2, Above, Below, Digit, NibbleHolds, NibblesChecked, KoalaBearRing, Reached;
    assert |mem.nibbles| == 6 by { NibbleCount(a, mem.nibbles); }
    NibblesAreCanonical(a, mem.nibbles);
    StatesClimb(hash, a, d, root, leafHash, mem, prod, DivCeil(d) - 1);
    ReachedEnds(hash, a, leafHash, mem.path);
    ProductIsPoint(d, a, mem.nibbles);
  }

  lemma NibbleCount(a: F, nibbles: seq<F>)
    requires NibblesChecked(a, nibbles)
    ensures |nibbles| == 6
  {
  }

  /** The product is the point of index a mod 2^d in the domain of size 2^d. */
  lemma QueryPointIsDomainPoint(a: nat, d: nat)
    requires d <= 24
    ensures QueryPoint(a, d) == KoalaBearRing().Pow(GetOmega(d), Below(a, d))
  {
    hide KoalaBearRing, Below;
    IsAField();
    RootOfDomain(d, 3, 127, 0);
    KoalaBearRing().PowMul(ROOT, Pow2(24 - d), Below(a, d));
  }

  lemma RootOfDomain(d: nat, g: F, m: nat, k: nat)
    requires d <= 24 && g == 3 && m == 127 && k == 0
    ensures GetOmega(d) == KoalaBearRing().Pow(ROOT, Pow2(24 - d))
  {
    hide KoalaBearRing, PowMod, FPow;
    IsAField();
    GeneratorHalf(g, m, k);
    PowIsPowMod(g, m);
    PowIsFPow(g, OmegaExponent(d));
    KoalaBearRing().PowMul(g, m, Pow2(24 - d));
  }

  // -- Honest hints are accepted ----------------------------------------------------------------------------

  function NibblesOf(a: F): (nibbles: seq<F>)
    ensures |nibbles| == 6
  {
    Pow2Of4();
    seq(6, (i: int) requires 0 <= i < 6 => DigitInRange(a, 4, i); Digit(a, 4, i))
  }

  /** The nodes on the way up after each full nibble. */
  function StatesOf<D(!new)>(hash: PairHash<D>, a: F, leafHash: D, path: seq<D>, n: nat): (states: seq<D>)
    ensures |states| == n
  {
    seq(n, (k: int) requires 0 <= k < n => Reached(hash, a, leafHash, path, k + 1))
  }

  function TempsOf<D(!new)>(hash: PairHash<D>, a: F, leafHash: D, path: seq<D>, n: nat): (temps: seq<seq<D>>)
    requires n == DivCeil(|path|)
    ensures |temps| == n
  {
    seq(n, (k: int) requires 0 <= k < n =>
        Climbs(hash, Digit(a, 4, k), Reached(hash, a, leafHash, path, k), ChunkOf(path, k), |ChunkOf(path, k)| - 1))
  }

  function HonestMemory<D(!new)>(hash: PairHash<D>, a: F, leafHash: D, path: seq<D>): QueryMemory<D>
    requires path != []
  {
    QueryMemory(NibblesOf(a), path, StatesOf(hash, a, leafHash, path, DivCeil(|path|) - 1),
        TempsOf(hash, a, leafHash, path, DivCeil(|path|)))
  }

  lemma HonestNibble<D(!new)>(hash: PairHash<D>, a: F, root: D, leafHash: D, path: seq<D>, k: nat)
    requires 0 < |path| <= 24 && k < DivCeil(|path|) && Climb(hash, leafHash, Below(a, |path|), path) == root
    ensures NibbleHolds(hash, root, leafHash, HonestMemory(hash, a, leafHash, path), k)
  {
    hide Climb, Above, Below, Digit, Levels, Reached, ChunkOf, Climbs;
    var v := Digit(a, 4, k);
    ReachedEnds(hash, a, leafHash, path);
    ReachedNext(hash, a, leafHash, path, k, v);
    LevelsHold(hash, v, Reached(hash, a, leafHash, path, k), ChunkOf(path, k));
  }

  lemma HonestSizes<D(!new)>(hash: PairHash<D>, a: F, leafHash: D, path: seq<D>)
    requires path != []
    ensures var mem, n := HonestMemory(hash, a, leafHash, path), DivCeil(|path|);
            && mem.path == path && |mem.states| == n - 1 && |mem.temps| == n && |mem.nibbles| == 6
            && forall i {:trigger mem.nibbles[i]} :: 0 <= i < 6 ==> mem.nibbles[i] == Digit(a, 4, i)
  {
  }

  lemma QueryComplete<D(!new)>(hash: PairHash<D>, a: F, d: nat, root: D, leafHash: D, path: seq<D>)
    requires 5 <= d <= 24 && |path| == d && Climb(hash, leafHash, Below(a, d), path) == root
    ensures HonestMemory(hash, a, leafHash, path).path == path
    ensures QueryHolds(hash, a, d, root, leafHash, HonestMemory(hash, a, leafHash, path), QueryPoint(a, d))
  {
    hide HonestMemory, Climb, Below, Digit, NibblesChecked, NibbleHolds, QueryPoint, Product;
    var mem := HonestMemory(hash, a, leafHash, path);
    HonestSizes(hash, a, leafHash, path);
    NibblesAreCanonical(a, mem.nibbles);
    forall k | 0 <= k < DivCeil(d) ensures NibbleHolds(hash, root, leafHash, mem, k) {
      HonestNibble(hash, a, root, leafHash, path, k);
    }
    ProductIsPoint(d, a, mem.nibbles);
  }

  lemma ProductIsPoint(d: nat, a: nat, nibbles: seq<F>)
    requires d <= 24 && |nibbles| == 6 && forall i {:trigger nibbles[i]} :: 0 <= i < 6 ==> nibbles[i] == Digit(a, 4, i)
    ensures Product(d, nibbles, DivCeil(d)) == QueryPoint(a, d)
  {
    hide Digit, Product, KoalaBearRing, Shl, Below;
    ProductIsPower(d, a, nibbles, DivCeil(d), d);
  }

  /**
   * For a given path, some memory satisfies the constraints exactly when the leaf climbs to the root and the product is
   * the query point.
   */
  lemma QueryIff<D(!new)>(hash: PairHash<D>, a: F, d: nat, root: D, leafHash: D, path: seq<D>, prod: F)
    requires 5 <= d <= 24 && |path| == d
    ensures (exists mem: QueryMemory<D> :: mem.path == path && QueryHolds(hash, a, d, root, leafHash, mem, prod))
            <==> Climb(hash, leafHash, Below(a, d), path) == root && prod == QueryPoint(a, d)
  {
    hide Climb, Pow2, Above, Below, QueryHolds, QueryPoint;
    if mem: QueryMemory<D> :| mem.path == path && QueryHolds(hash, a, d, root, leafHash, mem, prod) {
      QuerySound(hash, a, d, root, leafHash, mem, prod);
    }
    if Climb(hash, leafHash, Below(a, d), path) == root && prod == QueryPoint(a, d) {
      QueryComplete(hash, a, d, root, leafHash, path);
    }
  }

  // -- merkle_verify ------------------------------------------------------------------------------------------

  /** One round: the bit selects the order of the node and its sibling; no arm matches another value. */
  ghost predicate RoundHolds<D(!new)>(hash: PairHash<D>, bit: F, below: D, sibling: D, above: D) {
    (bit == 0 && above == hash.pair(below, sibling)) || (bit == 1 && above == hash.pair(sibling, below))
  }

  /** The walk with one bit for each level, the top state copied onto the root. */
  ghost predicate MerkleVerifyHolds<D(!new)>(hash: PairHash<D>, leaf: D, path: seq<D>, bits: seq<F>, root: D,
      states: seq<D>)
  {
    && 0 < |path| == |states| && |path| <= |bits|
    && (forall j {:trigger states[j]} :: 0 <= j < |path| ==>
        RoundHolds(hash, bits[j], if j == 0 then leaf else states[j - 1], path[j], states[j]))
    && states[|path| - 1] == root
  }

  ghost predicate BitsOf(bits: seq<F>, a: nat) {
    forall i {:trigger bits[i]} :: 0 <= i < |bits| ==> bits[i] == Digit(a, 1, i)
  }

  lemma RoundIsParent<D(!new)>(hash: PairHash<D>, a: nat, j: nat, bit: F, below: D, sibling: D, above: D)
    requires bit == Digit(a, 1, j)
    ensures RoundHolds(hash, bit, below, sibling, above) <==> above == Parent(hash, below, sibling, Above(a, j))
  {
    Pow2Of4();
    assert 1 * j == j;
    assert bit == Above(a, j) % 2;
  }

  lemma {:induction false} WalkForces<D(!new)>(hash: PairHash<D>, leaf: D, path: seq<D>, bits: seq<F>, root: D,
      states: seq<D>, a: nat, j: nat)
    requires MerkleVerifyHolds(hash, leaf, path, bits, root, states) && BitsOf(bits, a) && j < |path|
    ensures states[j] == Climb(hash, leaf, a, path[..j + 1])
  {
    hide Climb, Parent, Pow2, Above, Below, Digit, RoundHolds;
    if j > 0 { WalkForces(hash, leaf, path, bits, root, states, a, j - 1); } else { NoSteps(hash, leaf, a, path); }
    ClimbOne(hash, leaf, a, path, j);
    assert bits[j] == Digit(a, 1, j);
    RoundIsParent(hash, a, j, bits[j], if j == 0 then leaf else states[j - 1], path[j], states[j]);
  }

  lemma WalkHolds<D(!new)>(hash: PairHash<D>, leaf: D, path: seq<D>, bits: seq<F>, root: D, a: nat)
    returns (states: seq<D>)
    requires 0 < |path| <= |bits| && BitsOf(bits, a) && Climb(hash, leaf, a, path) == root
    ensures MerkleVerifyHolds(hash, leaf, path, bits, root, states)
  {
    hide Climb, Parent, Pow2, Above, Below, Digit, RoundHolds;
    states := Climbs(hash, a, leaf, path, |path|);
    assert path[..|path|] == path;
    NoSteps(hash, leaf, a, path);
    forall j {:trigger states[j]} | 0 <= j < |path|
        ensures RoundHolds(hash, bits[j], if j == 0 then leaf else states[j - 1], path[j], states[j]) {
      ClimbOne(hash, leaf, a, path, j);
      assert bits[j] == Digit(a, 1, j);
      RoundIsParent(hash, a, j, bits[j], if j == 0 then leaf else states[j - 1], path[j], states[j]);
    }
  }

  /** The bit-by-bit walk is satisfiable exactly when the leaf climbs to the root. */
  lemma MerkleVerifyIff<D(!new)>(hash: PairHash<D>, leaf: D, path: seq<D>, bits: seq<F>, root: D, a: nat)
    requires 0 < |path| <= |bits| && BitsOf(bits, a)
    ensures (exists states :: MerkleVerifyHolds(hash, leaf, path, bits, root, states))
        <==> Climb(hash, leaf, a, path) == root
  {
    hide Climb, Digit, RoundHolds, BitsOf;
    assert path[..|path|] == path;
    if states :| MerkleVerifyHolds(hash, leaf, path, bits, root, states) {
      WalkForces(hash, leaf, path, bits, root, states, a, |path| - 1);
    }
    if Climb(hash, leaf, a, path) == root { var states := WalkHolds(hash, leaf, path, bits, root, a); }
  }

  /** Four levels at a time or one, the same paths are accepted. */
  lemma BatchedWalkIsBitwise<D(!new)>(hash: PairHash<D>, a: F, d: nat, root: D, leafHash: D, path: seq<D>, bits: seq<F>,
      partial: seq<F>)
    requires 5 <= d <= 24 && |path| == d && BitsChecked(a, bits, partial)
    ensures (exists mem: QueryMemory<D> ::
              mem.path == path && QueryHolds(hash, a, d, root, leafHash, mem, QueryPoint(a, d)))
            <==> exists states :: MerkleVerifyHolds(hash, leafHash, path, bits, root, states)
  {
    hide Climb, Pow2, Above, Below, QueryHolds, QueryPoint, BitsChecked, MerkleVerifyHolds, Digit;
    assert |bits| == 31 && |partial| == 24 by { Lengths(a, bits, partial); }
    BitsAreCanonical(a, bits, partial);
    QueryIff(hash, a, d, root, leafHash, path, QueryPoint(a, d));
    MerkleVerifyIff(hash, leafHash, path, bits, root, a);
    ClimbMod(hash, leafHash, a, path);
  }
}
