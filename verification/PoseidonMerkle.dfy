/** The reference Merkle tree over field rows, and its openings in the recursive verifier. */
module PoseidonMerkle {
  import opened KoalaBear
  import opened MerkleTrees
  import Folding

  type Digest = seq<F>

  /** The width-16 compression, permutation plus feed-forward; its inside is not modelled. */
  datatype Poseidon = Poseidon(compress: seq<F> -> seq<F>)

  ghost predicate Sized(p: Poseidon) {
    forall s: seq<F> {:trigger p.compress(s)} :: |s| == 16 ==> |p.compress(s)| == 16
  }

  /** The first eight words of a state. */
  function Truncated(state: seq<F>): Digest { if |state| >= 8 then state[..8] else state }

  /** cpu_compress_pair and poseidon16_compress: eight words of the compressed concatenation. */
  function Pairs(p: Poseidon): PairHash<Digest> {
    PairHash((left: Digest, right: Digest) => Truncated(p.compress(left + right)), [])
  }

  // -- Leaf hashing -----------------------------------------------------------------------------------------

  /** The state with its places from `lo` up overwritten, right to left, by the end of the row. */
  function Filled(state: seq<F>, lo: nat, row: seq<F>): (filled: seq<F>)
    requires |state| == 16
    ensures |filled| == 16
  {
    seq(16, (s: int) requires 0 <= s < 16 => if s >= lo && 16 - s <= |row| then row[|row| - (16 - s)] else state[s])
  }

  function Dropped(row: seq<F>, k: nat): (r: seq<F>)
    ensures |r| == if |row| <= k then 0 else |row| - k
  {
    if |row| <= k then [] else row[..|row| - k]
  }

  function Sponge(p: Poseidon, state: seq<F>, row: seq<F>): (final: seq<F>)
    requires Sized(p) && |state| == 16
    ensures |final| == 16
    decreases |row|
  {
    if row == [] then state else Sponge(p, p.compress(Filled(state, 8, row)), Dropped(row, 8))
  }

  function Zeros(): (z: seq<F>)
    ensures |z| == 16
  {
    seq(16, _ => 0)
  }

  /** The right-to-left sponge, for rows of every length. */
  function LeafHash(p: Poseidon, row: seq<F>): Digest
    requires Sized(p)
  {
    Truncated(Sponge(p, p.compress(Filled(Zeros(), 0, row)), Dropped(row, 16)))
  }

  method CompressInPlace(p: Poseidon, state: array<F>)
    requires Sized(p) && state.Length == 16
    modifies state
    ensures state[..] == p.compress(old(state[..]))
  {
    var out := p.compress(state[..]);
    for i := 0 to 16
      invariant forall k :: 0 <= k < i ==> state[k] == out[k]
    {
      state[i] := out[i];
    }
  }

  /** One fill of the state from place 15 down to `lo`. */
  method FillFrom(state: array<F>, lo: nat, reversed: seq<F>, start: nat, ghost row: seq<F>) returns (pos: nat)
    requires state.Length == 16 && lo < 16 && start <= |reversed| && |row| == |reversed| - start
    requires forall k {:trigger reversed[k]} :: start <= k < |reversed| ==> reversed[k] == row[|row| - 1 - (k - start)]
    modifies state
    ensures state[..] == Filled(old(state[..]), lo, row)
    ensures pos == if |reversed| <= start + (16 - lo) then |reversed| else start + (16 - lo)
  {
    pos := start;
    ghost var before := state[..];
    var s := 16;
    while s > lo
      invariant lo <= s <= 16
      invariant pos == if |reversed| <= start + (16 - s) then |reversed| else start + (16 - s)
      invariant forall t {:trigger state[t]} :: 0 <= t < 16 ==> state[t] == if s <= t then Filled(before, lo, row)[t]
          else before[t]
    {
      s := s - 1;
      if pos < |reversed| {
        state[s] := reversed[pos];
        pos := pos + 1;
      }
    }
  }

  method CpuLeafHash(p: Poseidon, row: seq<F>) returns (digest: Digest)
    requires Sized(p)
    ensures digest == LeafHash(p, row)
  {
    hide Filled, LeafHash;
    var state := new F[16](_ => 0);
    assert state[..] == Zeros();
    var reversed := Folding.Reversed(row);
    var pos := FillFrom(state, 0, reversed, 0, row);
    CompressInPlace(p, state);
    ghost var rest := Dropped(row, 16);
    while pos < |reversed|
      invariant state.Length == 16 && fresh(state) && pos <= |reversed| && rest == row[..|reversed| - pos]
      invariant Sponge(p, state[..], rest) == Sponge(p, p.compress(Filled(Zeros(), 0, row)), Dropped(row, 16))
      decreases |reversed| - pos
    {
      pos := FillFrom(state, 8, reversed, pos, rest);
      CompressInPlace(p, state);
      rest := Dropped(rest, 8);
    }
    digest := state[..8];
    LeafHashIs(p, row, state[..]);
  }

  lemma LeafHashIs(p: Poseidon, row: seq<F>, state: seq<F>)
    requires Sized(p) && |state| == 16 && state == Sponge(p, p.compress(Filled(Zeros(), 0, row)), Dropped(row, 16))
    ensures LeafHash(p, row) == state[..8]
  {
    hide Filled, Sponge;
  }

  /** The words not absorbed yet before round k. */
  function Left(n: nat, k: nat): int { n - 16 - 8 * (k - 1) }

  /**
   * The state after k further rounds, word by word: sixteen words of the end of the row first, then eight a round, and
   * a word that the row is too short for stays as it was.
   */
  function StateAfter(p: Poseidon, row: seq<F>, k: nat): (state: seq<F>)
    requires Sized(p)
    ensures |state| == 16
    decreases k
  {
    if k == 0 then p.compress(seq(16, (s: int) requires 0 <= s < 16 => if 16 - s <= |row| then row[|row| - 16 + s]
        else 0))
    else
      var before, left := StateAfter(p, row, k - 1), Left(|row|, k);
      p.compress(seq(16, (s: int) requires 0 <= s < 16 =>
          if s >= 8 && 16 - s <= left <= |row| then row[left - 16 + s] else before[s]))
  }

  /** One round for every eight words, or fewer, beyond the first sixteen. */
  function Rounds(n: nat): nat { if n <= 16 then 0 else (n - 9) / 8 }

  lemma {:induction false} SpongeIsRounds(p: Poseidon, row: seq<F>, k: nat)
    requires Sized(p) && k <= Rounds(|row|)
    ensures var left := Left(|row|, k + 1);
            left <= |row| && Sponge(p, StateAfter(p, row, k), row[..if left >= 0 then left else 0])
                == StateAfter(p, row, Rounds(|row|))
    decreases Rounds(|row|) - k
  {
    var left, state := Left(|row|, k + 1), StateAfter(p, row, k);
    if left > 0 {
      var rest := row[..left];
      assert Filled(state, 8, rest) == seq(16, (s: int) requires 0 <= s < 16 =>
          if s >= 8 && 16 - s <= left <= |row| then row[left - 16 + s] else state[s]);
      assert Dropped(rest, 8) == row[..if left >= 8 then left - 8 else 0];
      SpongeIsRounds(p, row, k + 1);
    }
  }

  /** The leaf hash of rows of every length, by the words that go into each compression. */
  lemma LeafHashIsRounds(p: Poseidon, row: seq<F>)
    requires Sized(p)
    ensures LeafHash(p, row) == StateAfter(p, row, Rounds(|row|))[..8]
  {
    assert Filled(Zeros(), 0, row) == seq(16, (s: int) requires 0 <= s < 16 =>
        if 16 - s <= |row| then row[|row| - 16 + s] else 0);
    assert Dropped(row, 16) == row[..if |row| >= 16 then |row| - 16 else 0];
    SpongeIsRounds(p, row, 0);
  }

  // -- slice_hash_rtl -----------------------------------------------------------------------------------------

  /** Absorbing chunks from the last one to the first. */
  function FoldRtl<D(!new)>(hash: PairHash<D>, state: D, data: seq<D>): D
    decreases |data|
  {
    if data == [] then state else FoldRtl(hash, hash.pair(state, data[|data| - 1]), data[..|data| - 1])
  }

  function RtlHash<D(!new)>(hash: PairHash<D>, data: seq<D>): D
    requires |data| >= 2
  {
    FoldRtl(hash, hash.pair(data[|data| - 2], data[|data| - 1]), data[..|data| - 2])
  }

  /** The cells the gadget writes. */
  ghost predicate SliceHashHolds<D(!new)>(hash: PairHash<D>, data: seq<D>, states: seq<D>) {
    && |data| >= 2 && |states| == |data| - 1
    && states[0] == hash.pair(data[|data| - 2], data[|data| - 1])
    && forall j {:trigger states[j]} :: 1 <= j < |states| ==>
        states[j] == hash.pair(states[j - 1], data[|data| - 2 - j])
  }

  /** The result cell holds the fold, whatever else the memory holds. */
  lemma SliceHashIsRtl<D(!new)>(hash: PairHash<D>, data: seq<D>, states: seq<D>)
    requires SliceHashHolds(hash, data, states)
    ensures states[|states| - 1] == RtlHash(hash, data)
  {
    SliceHashFrom(hash, data, states, 0);
  }

  lemma {:induction false} SliceHashFrom<D(!new)>(hash: PairHash<D>, data: seq<D>, states: seq<D>, j: nat)
    requires SliceHashHolds(hash, data, states) && j < |states|
    ensures states[|states| - 1] == FoldRtl(hash, states[j], data[..|data| - 2 - j])
    decreases |states| - j
  {
    if j < |states| - 1 {
      SliceHashFrom(hash, data, states, j + 1);
      var rest, next := data[..|data| - 2 - j], states[j + 1];
      assert rest[..|rest| - 1] == data[..|data| - 2 - (j + 1)];
    }
  }

  // -- Rows of whole chunks -------------------------------------------------------------------------------------

  function Chunks(row: seq<F>, k: nat): (chunks: seq<Digest>)
    requires |row| == 8 * k
    ensures |chunks| == k
  {
    seq(k, (j: int) requires 0 <= j < k => row[8 * j..8 * j + 8])
  }

  lemma LastChunk(row: seq<F>, k: nat)
    requires k > 0 && |row| == 8 * k
    ensures Dropped(row, 8) == row[..8 * (k - 1)] && Chunks(row, k)[k - 1] == row[8 * (k - 1)..]
        && Chunks(row, k)[..k - 1] == Chunks(Dropped(row, 8), k - 1)
  {
    var shorter := row[..8 * (k - 1)];
    assert row[8 * (k - 1)..8 * (k - 1) + 8] == row[8 * (k - 1)..];
    forall j | 0 <= j < k - 1 ensures Chunks(row, k)[j] == Chunks(shorter, k - 1)[j] {
      assert row[8 * j..8 * j + 8] == shorter[8 * j..8 * j + 8];
    }
  }

  lemma FilledUpper(state: seq<F>, row: seq<F>, k: nat)
    requires |state| == 16 && k > 0 && |row| == 8 * k
    ensures Filled(state, 8, row) == state[..8] + row[8 * (k - 1)..]
  {
    forall s | 0 <= s < 16 ensures Filled(state, 8, row)[s] == (state[..8] + row[8 * (k - 1)..])[s] {}
  }

  lemma {:induction false} SpongeIsFold(p: Poseidon, state: seq<F>, row: seq<F>, k: nat)
    requires Sized(p) && |state| == 16 && |row| == 8 * k
    ensures Truncated(Sponge(p, state, row)) == FoldRtl(Pairs(p), Truncated(state), Chunks(row, k))
    decreases k
  {
    hide Filled, Chunks, Dropped;
    if k > 0 {
      var next := p.compress(Filled(state, 8, row));
      FilledUpper(state, row, k);
      LastChunk(row, k);
      SpongeIsFold(p, next, Dropped(row, 8), k - 1);
      assert Pairs(p).pair(state[..8], row[8 * (k - 1)..]) == Truncated(next);
    }
  }

  lemma FilledWhole(row: seq<F>, k: nat)
    requires k >= 2 && |row| == 8 * k
    ensures Filled(Zeros(), 0, row) == Chunks(row, k)[k - 2] + Chunks(row, k)[k - 1]
    ensures |Dropped(row, 16)| == 8 * (k - 2) && Chunks(Dropped(row, 16), k - 2) == Chunks(row, k)[..k - 2]
  {
    LastChunk(row, k);
    LastChunk(row[..8 * (k - 1)], k - 1);
    assert Dropped(row, 16) == row[..8 * (k - 2)] == row[..8 * (k - 1)][..8 * (k - 2)];
    assert Chunks(row, k)[..k - 1][..k - 2] == Chunks(row, k)[..k - 2];
    var both := row[8 * (k - 2)..8 * (k - 1)] + row[8 * (k - 1)..];
    forall s | 0 <= s < 16 ensures Filled(Zeros(), 0, row)[s] == both[s] {}
    assert Filled(Zeros(), 0, row) == both;
  }

  /** On rows of at least two whole chunks, the reference leaf hash is the gadget's. */
  lemma LeafHashIsRtl(p: Poseidon, row: seq<F>, k: nat)
    requires Sized(p) && k >= 2 && |row| == 8 * k
    ensures LeafHash(p, row) == RtlHash(Pairs(p), Chunks(row, k))
  {
    hide Filled, Chunks, Dropped, Sponge, FoldRtl;
    var first := p.compress(Filled(Zeros(), 0, row));
    FilledWhole(row, k);
    SpongeIsFold(p, first, Dropped(row, 16), k - 2);
    assert Pairs(p).pair(Chunks(row, k)[k - 2], Chunks(row, k)[k - 1]) == Truncated(first);
  }
}
