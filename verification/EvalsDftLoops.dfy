/** The evals DFT as it works in place on one flat array of `width` columns. */
module EvalsDftLoops {
  import opened Arith
  import opened Rings
  import opened Multilinear
  import opened EvalsDft
  import opened RootsOfUnity

  /** Where row k begins. */
  function Base(k: nat, width: nat): nat { k * width }

  /** Row k of a flat array. */
  function RowAt<T>(s: seq<T>, width: nat, k: nat): (r: seq<T>)
    requires Base(k, width) + width <= |s|
    ensures |r| == width
  {
    s[Base(k, width)..Base(k, width) + width]
  }

  predicate Shaped<T>(s: seq<T>, width: nat, n: nat) { width > 0 && |s| == Base(n, width) }

  lemma RowsApart(k: nat, h: nat, width: nat)
    ensures k < h ==> Base(k, width) + width <= Base(h, width)
  {
    if k < h { MulLe(k + 1, h, width); }
  }

  function RowsOf<T>(s: seq<T>, width: nat, n: nat): (r: seq<seq<T>>)
    requires Shaped(s, width, n)
    ensures |r| == n && Matrix(r, width)
  {
    seq(n, k requires 0 <= k < n => RowsApart(k, n, width); RowAt(s, width, k))
  }

  /** Two rows of the flat array have new contents and everything else is as before. */
  ghost predicate TwoRowsSet<T>(s: seq<T>, s': seq<T>, hi: nat, lo: nat, width: nat, a: seq<T>, b: seq<T>) {
    && |s| == |s'| && |a| == |b| == width && hi + width <= lo && lo + width <= |s|
    && (forall i {:trigger s'[i]} :: 0 <= i < |s| ==>
         s'[i] == if hi <= i < hi + width then a[i - hi] else if lo <= i < lo + width then b[i - lo] else s[i])
  }

  lemma RowsSet<T>(s: seq<T>, s': seq<T>, h: nat, t: nat, width: nat, n: nat, a: seq<T>, b: seq<T>)
    requires Shaped(s, width, n) && h < t < n
    requires TwoRowsSet(s, s', Base(h, width), Base(t, width), width, a, b)
    ensures Shaped(s', width, n) && RowsOf(s', width, n) == RowsOf(s, width, n)[h := a][t := b]
  {
    hide Base;
    var rows, rows' := RowsOf(s, width, n), RowsOf(s', width, n);
    forall k | 0 <= k < n ensures rows'[k] == rows[h := a][t := b][k] {
      RowsApart(k, n, width);
      RowsApart(k, h, width);
      RowsApart(h, k, width);
      RowsApart(k, t, width);
      RowsApart(t, k, width);
      RowMatches(s, s', Base(h, width), Base(t, width), Base(k, width), width, a, b);
    }
  }

  lemma RowMatches<T>(s: seq<T>, s': seq<T>, hi: nat, lo: nat, at: nat, width: nat, a: seq<T>, b: seq<T>)
    requires TwoRowsSet(s, s', hi, lo, width, a, b) && at + width <= |s|
    ensures at == hi ==> s'[at..at + width] == a
    ensures at == lo ==> s'[at..at + width] == b
    ensures (at + width <= hi || hi + width <= at) && (at + width <= lo || lo + width <= at) ==>
        s'[at..at + width] == s[at..at + width]
  {
  }

  /** The innermost loop: one pair of rows, column by column. */
  method PairRows<T(!new)>(R: Ring<T>, d: Direction, data: array<T>, hi: nat, lo: nat, width: nat, i: nat, tw: T)
    requires hi + width <= lo && lo + width <= data.Length
    modifies data
    ensures var x, y := old(data[..])[hi..hi + width], old(data[..])[lo..lo + width];
            TwoRowsSet(old(data[..]), data[..], hi, lo, width, UpperRow(R, d, i, tw, x, y), LowerRow(R, d, i, tw, x, y))
  {
    hide Pair;
    ghost var s := data[..];
    ghost var x, y := s[hi..hi + width], s[lo..lo + width];
    ghost var a, b := UpperRow(R, d, i, tw, x, y), LowerRow(R, d, i, tw, x, y);
    var col := 0;
    while col < width
      invariant 0 <= col <= width
      invariant forall j {:trigger data[j]} :: 0 <= j < data.Length ==>
        data[j] == if hi <= j < hi + col then a[j - hi] else if lo <= j < lo + col then b[j - lo] else s[j]
    {
      var p := Pair(R, d, i, tw, data[hi + col], data[lo + col]);
      assert p == (a[col], b[col]);
      data[hi + col] := p.0;
      data[lo + col] := p.1;
      col := col + 1;
    }
  }

  /** Row k is in a block before row b, or in one of the first i pairs of the block at b. */
  predicate Treated(b: nat, m: nat, i: nat, k: nat) { k < b + i || b + m <= k < b + m + i }

  /** The part of a layer done so far. */
  ghost predicate LayerProgress<T(!new)>(R: Ring<T>, d: Direction, tw: seq<T>, m: nat, rows0: seq<seq<T>>,
      rows: seq<seq<T>>, width: nat, b: nat, i: nat)
  {
    && Matrix(rows0, width) && Blocks(|rows0|, m) && |tw| == m && |rows| == |rows0|
    && forall k {:trigger rows[k]} :: 0 <= k < |rows| ==>
        rows[k] == if Treated(b, m, i, k) then Layer(R, d, tw, m, rows0, width)[k] else rows0[k]
  }

  lemma PairDone<T(!new)>(R: Ring<T>, d: Direction, tw: seq<T>, m: nat, rows0: seq<seq<T>>, rows: seq<seq<T>>,
      width: nat, b: nat, i: nat)
    requires LayerProgress(R, d, tw, m, rows0, rows, width, b, i) && i < m && b + 2 * m <= |rows0| && b % (2 * m) == 0
    ensures rows[b + i] == rows0[b + i] && rows[b + m + i] == rows0[b + m + i]
        && |rows[b + i]| == |rows[b + m + i]| == width
    ensures LayerProgress(R, d, tw, m, rows0,
        rows[b + i := UpperRow(R, d, i, tw[i], rows[b + i], rows[b + m + i])][b + m + i :=
        LowerRow(R, d, i, tw[i], rows[b + i], rows[b + m + i])], width, b, i + 1)
  {
    hide Layer, UpperRow, LowerRow;
    PlaceInBlock(b, i, m);
    assert b + i + m == b + m + i;
    LayerPair(R, d, tw, m, rows0, width, b + i, i);
  }

  lemma PlaceInBlock(b: nat, i: nat, m: nat)
    requires i < m && b % (2 * m) == 0
    ensures (b + i) % (2 * m) == i
  {
    StayInBlock(b, 2 * m, i);
  }

  lemma NextBlock(b: nat, m: nat, n: nat)
    requires m > 0 && b % (2 * m) == 0 && b < n && n % (2 * m) == 0
    ensures b + 2 * m <= n && (b + 2 * m) % (2 * m) == 0
  {
    BlockEnd(n, 2 * m, b);
    ModShift(b, 1, 2 * m);
  }

  lemma StartLayer<T(!new)>(R: Ring<T>, d: Direction, tw: seq<T>, m: nat, rows: seq<seq<T>>, width: nat)
    requires Matrix(rows, width) && Blocks(|rows|, m) && |tw| == m
    ensures LayerProgress(R, d, tw, m, rows, rows, width, 0, 0) && 0 % (2 * m) == 0 && Base(0, width) == 0
  {
  }

  lemma BlockDone<T(!new)>(R: Ring<T>, d: Direction, tw: seq<T>, m: nat, rows0: seq<seq<T>>, rows: seq<seq<T>>,
      width: nat, b: nat)
    requires LayerProgress(R, d, tw, m, rows0, rows, width, b, m)
    ensures LayerProgress(R, d, tw, m, rows0, rows, width, b + 2 * m, 0)
  {
    hide Layer;
  }

  lemma EndLayer<T(!new)>(R: Ring<T>, d: Direction, tw: seq<T>, m: nat, rows0: seq<seq<T>>, rows: seq<seq<T>>,
      width: nat)
    requires LayerProgress(R, d, tw, m, rows0, rows, width, |rows0|, 0)
    ensures rows == Layer(R, d, tw, m, rows0, width)
  {
    hide Layer;
  }

  lemma BlockFits(b: nat, m: nat, n: nat, width: nat)
    requires Blocks(n, m) && b % (2 * m) == 0 && Base(b, width) < Base(n, width)
    ensures b + 2 * m <= n && (b + 2 * m) % (2 * m) == 0 && Base(b + 2 * m, width) == Base(b, width) + 2 * m * width
  {
    if b >= n { MulLe(n, b, width); }
    NextBlock(b, m, n);
    Distribute(b, 2 * m, width);
  }

  lemma PairBases(b: nat, i: nat, m: nat, n: nat, width: nat)
    requires i < m && b + 2 * m <= n
    ensures Base(b + i, width) == Base(b, width) + i * width
        && Base(b + m + i, width) == Base(b, width) + (i + m) * width
    ensures Base(b + i, width) + width <= Base(b + m + i, width) && Base(b + m + i, width) + width <= Base(n, width)
  {
    Distribute(b, i, width);
    Distribute(b, i + m, width);
    assert b + m + i == b + (i + m);
    RowsApart(b + i, b + m + i, width);
    RowsApart(b + m + i, n, width);
  }

  lemma RowIsSlice<T>(s: seq<T>, width: nat, n: nat, k: nat)
    requires Shaped(s, width, n) && k < n
    ensures Base(k, width) + width <= |s| && RowsOf(s, width, n)[k] == s[Base(k, width)..Base(k, width) + width]
  {
    RowsApart(k, n, width);
  }

  lemma AllBlocks(b: nat, n: nat, width: nat)
    requires b <= n && Base(b, width) >= Base(n, width) && width > 0
    ensures b == n
  {
    if b < n { RowsApart(b, n, width); }
  }

  /** One layer: block by block, pair by pair. */
  method LayerInPlace<T(!new)>(R: Ring<T>, d: Direction, data: array<T>, tw: seq<T>, width: nat, ghost n: nat)
    requires Shaped(data[..], width, n) && |tw| > 0 && Blocks(n, |tw|)
    modifies data
    ensures Shaped(data[..], width, n)
        && RowsOf(data[..], width, n) == Layer(R, d, tw, |tw|, RowsOf(old(data[..]), width, n), width)
  {
    hide Layer, UpperRow, LowerRow, LayerProgress, RowsOf, Base, TwoRowsSet, Blocks;
    var m := |tw|;
    var blockSize := 2 * m * width;
    ghost var rows0 := RowsOf(data[..], width, n);
    ghost var b: nat := 0;
    var blockStart := 0;
    StartLayer(R, d, tw, m, rows0, width);
    while blockStart < data.Length
      invariant b <= n && b % (2 * m) == 0 && blockStart == Base(b, width)
      invariant Shaped(data[..], width, n) && LayerProgress(R, d, tw, m, rows0, RowsOf(data[..], width, n), width, b, 0)
      decreases n - b
    {
      BlockFits(b, m, n, width);
      var i := 0;
      while i < m
        invariant 0 <= i <= m
        invariant Shaped(data[..], width, n)
            && LayerProgress(R, d, tw, m, rows0, RowsOf(data[..], width, n), width, b, i)
      {
        ghost var s := data[..];
        ghost var rows := RowsOf(s, width, n);
        PairBases(b, i, m, n, width);
        PairDone(R, d, tw, m, rows0, rows, width, b, i);
        RowIsSlice(s, width, n, b + i);
        RowIsSlice(s, width, n, b + m + i);
        PairRows(R, d, data, blockStart + i * width, blockStart + (i + m) * width, width, i, tw[i]);
        RowsSet(s, data[..], b + i, b + m + i, width, n, UpperRow(R, d, i, tw[i], rows[b + i], rows[b + m + i]),
            LowerRow(R, d, i, tw[i], rows[b + i], rows[b + m + i]));
        i := i + 1;
      }
      BlockDone(R, d, tw, m, rows0, RowsOf(data[..], width, n), width, b);
      b := b + 2 * m;
      blockStart := blockStart + blockSize;
    }
    AllBlocks(b, n, width);
    EndLayer(R, d, tw, m, rows0, RowsOf(data[..], width, n), width);
  }

  /** The powers of the generator, and every 2^i-th of them for layer i. */
  method BuildRootTable<T(!new)>(R: Ring<T>, generator: T, logN: nat) returns (table: seq<seq<T>>)
    requires R.IsRing()
    ensures |table| == logN && Sized(table) && IsRootTable(R, generator, table)
  {
    hide Ring<T>.Mul;
    var half := if logN == 0 then 0 else Pow2(logN - 1);
    var roots, acc, j := [], R.one, 0;
    while j < half
      invariant 0 <= j <= half && |roots| == j && acc == R.Pow(generator, j)
      invariant forall t {:trigger roots[t]} :: 0 <= t < j ==> roots[t] == R.Pow(generator, t)
    {
      roots := roots + [acc];
      R.MulComm(acc, generator);
      acc := R.Mul(acc, generator);
      j := j + 1;
    }
    table := [];
    var i := 0;
    while i < logN
      invariant 0 <= i <= logN && |table| == i
      invariant forall idx {:trigger table[idx]} :: 0 <= idx < i ==>
          |table[idx]| == Pow2(logN - idx - 1) && PowersOf(R, Squared(R, generator, idx), table[idx])
    {
      var layer := StepBy(R, generator, roots, Pow2(i), Pow2(logN - i - 1), i, logN);
      table := table + [layer];
      i := i + 1;
    }
    forall idx {:trigger table[idx]} | 0 <= idx < |table| ensures PowersOf(R, Squared(R, generator, idx), table[idx]) {}
  }

  ghost predicate PowersOf<T(!new)>(R: Ring<T>, w: T, layer: seq<T>) {
    forall i {:trigger layer[i]} :: 0 <= i < |layer| ==> layer[i] == R.Pow(w, i)
  }

  method StepBy<T(!new)>(R: Ring<T>, generator: T, roots: seq<T>, step: nat, count: nat, ghost i: nat, ghost logN: nat)
    returns (layer: seq<T>)
    requires R.IsRing() && i < logN && step == Pow2(i) && count == Pow2(logN - i - 1) && |roots| == Pow2(logN - 1)
    requires forall t {:trigger roots[t]} :: 0 <= t < |roots| ==> roots[t] == R.Pow(generator, t)
    ensures |layer| == count && PowersOf(R, Squared(R, generator, i), layer)
  {
    hide Ring<T>.Pow;
    layer := [];
    var j, at := 0, 0;
    while j < count
      invariant 0 <= j <= count && |layer| == j && at == j * step
      invariant forall t {:trigger layer[t]} :: 0 <= t < j ==> layer[t] == R.Pow(Squared(R, generator, i), t)
    {
      StepInRange(j, i, logN);
      SquaredIsPow(R, generator, i, j);
      layer := layer + [roots[at]];
      Distribute(j, 1, step);
      at := at + step;
      j := j + 1;
    }
  }

  lemma StepInRange(j: nat, i: nat, logN: nat)
    requires i < logN && j < Pow2(logN - i - 1)
    ensures 0 <= j * Pow2(i) < Pow2(logN - 1)
  {
    Pow2Add(logN - i - 1, i);
    MulLe(j + 1, Pow2(logN - i - 1), Pow2(i));
    Distribute(j, 1, Pow2(i));
    MulLe(0, j, Pow2(i));
  }

  method InvertLayer<T(!new)>(R: Ring<T>, layer: seq<T>) returns (inv: seq<T>)
    ensures |inv| == |layer| && forall i {:trigger inv[i]} :: 0 <= i < |inv| ==> inv[i] == R.Inv(layer[i])
  {
    inv := [];
    var j := 0;
    while j < |layer|
      invariant 0 <= j <= |layer| && |inv| == j
      invariant forall i {:trigger inv[i]} :: 0 <= i < j ==> inv[i] == R.Inv(layer[i])
    {
      inv := inv + [R.Inv(layer[j])];
      j := j + 1;
    }
  }

  /** No twiddle is zero, so the inverse table holds true inverses. */
  method BuildInvRootTable<T(!new)>(R: Ring<T>, ghost omega: T, table: seq<seq<T>>) returns (inv: seq<seq<T>>)
    requires R.IsField() && omega != R.zero && Sized(table) && IsRootTable(R, omega, table)
    ensures AreInverses(R, table, inv) && Sized(inv) && |inv| == |table|
  {
    inv := [];
    var i := 0;
    while i < |table|
      invariant 0 <= i <= |table| && |inv| == i
      invariant forall idx {:trigger table[idx]} {:trigger inv[idx]} :: 0 <= idx < i ==>
          Mutual(R, Forward, table[idx], inv[idx])
    {
      var layer := InvertLayer(R, table[i]);
      TwiddlesNonZero(R, omega, table, i);
      inv := inv + [layer];
      i := i + 1;
    }
    InverseSized(R, table, inv);
  }

  lemma TwiddlesNonZero<T(!new)>(R: Ring<T>, omega: T, table: seq<seq<T>>, idx: nat)
    requires R.IsField() && omega != R.zero && IsRootTable(R, omega, table) && idx < |table|
    ensures forall i {:trigger table[idx][i]} :: 0 <= i < |table[idx]| ==> table[idx][i] != R.zero
  {
    SquaredNonZero(R, omega, idx);
    forall i {:trigger table[idx][i]} | 0 <= i < |table[idx]| ensures table[idx][i] != R.zero {
      assert table[idx][i] == R.Pow(Squared(R, omega, idx), i);
      R.PowNonZero(Squared(R, omega, idx), i);
    }
  }

  lemma {:induction false} SquaredNonZero<T(!new)>(R: Ring<T>, omega: T, t: nat)
    requires R.IsField() && omega != R.zero
    ensures Squared(R, omega, t) != R.zero
  {
    if t > 0 {
      SquaredNonZero(R, omega, t - 1);
      R.NonZeroProduct(Squared(R, omega, t - 1), Squared(R, omega, t - 1));
    }
  }

  lemma LayerBlocks(L: nat, s: nat, m: nat)
    requires 0 < s <= L && m == Pow2(s - 1)
    ensures Blocks(Pow2(L), m) && m > 0
  {
    BlocksOf(L, s);
  }

  /** Layers from the smallest blocks to the largest. */
  method CpuEvalsDft<T(!new)>(R: Ring<T>, data: array<T>, table: seq<seq<T>>, width: nat)
    requires Sized(table) && Shaped(data[..], width, Pow2(|table|))
    modifies data
    ensures Shaped(data[..], width, Pow2(|table|))
    ensures RowsOf(data[..], width, Pow2(|table|))
        == Dft(R, table, RowsOf(old(data[..]), width, Pow2(|table|)), width, |table|)
  {
    hide Layer, RowsOf, Base;
    ghost var n := Pow2(|table|);
    ghost var rows0 := RowsOf(data[..], width, n);
    var layerIdx := |table|;
    while layerIdx > 0
      invariant 0 <= layerIdx <= |table| && Shaped(data[..], width, n)
      invariant RowsOf(data[..], width, n) == Dft(R, table, rows0, width, |table| - layerIdx)
    {
      layerIdx := layerIdx - 1;
      LayerBlocks(|table|, |table| - layerIdx, |table[layerIdx]|);
      LayerInPlace(R, Forward, data, table[layerIdx], width, n);
    }
  }

  /** Layers from the largest blocks to the smallest. */
  method CpuEvalsIdft<T(!new)>(R: Ring<T>, ghost omega: T, data: array<T>, table: seq<seq<T>>, width: nat)
    requires R.IsField() && omega != R.zero && IsRootTable(R, omega, table)
    requires Sized(table) && Shaped(data[..], width, Pow2(|table|))
    modifies data
    ensures Shaped(data[..], width, Pow2(|table|))
    ensures exists inv :: AreInverses(R, table, inv) && Sized(inv) && |inv| == |table| &&
              RowsOf(data[..], width, Pow2(|table|))
                  == Idft(R, inv, RowsOf(old(data[..]), width, Pow2(|table|)), width, |table|)
  {
    hide Layer, RowsOf, Base, AreInverses;
    ghost var n := Pow2(|table|);
    ghost var rows0 := RowsOf(data[..], width, n);
    var inv := BuildInvRootTable(R, omega, table);
    var layerIdx := 0;
    while layerIdx < |table|
      invariant 0 <= layerIdx <= |table| && Shaped(data[..], width, n)
      invariant Idft(R, inv, RowsOf(data[..], width, n), width, |table| - layerIdx)
          == Idft(R, inv, rows0, width, |table|)
    {
      LayerBlocks(|table|, |table| - layerIdx, |inv[layerIdx]|);
      LayerInPlace(R, Backward, data, inv[layerIdx], width, n);
      layerIdx := layerIdx + 1;
    }
  }

  lemma {:induction false} RowsDetermine<T>(s: seq<T>, t: seq<T>, width: nat, n: nat)
    requires Shaped(s, width, n) && Shaped(t, width, n) && RowsOf(s, width, n) == RowsOf(t, width, n)
    ensures s == t
  {
    forall i | 0 <= i < |s| ensures s[i] == t[i] {
      var k, c := i / width, i % width;
      assert i == width * k + c;
      if k >= n { MulLe(n, k, width); Commute(width, k); assert false; }
      Commute(width, k);
      RowIsSlice(s, width, n, k);
      RowIsSlice(t, width, n, k);
      assert s[Base(k, width)..Base(k, width) + width][c] == t[Base(k, width)..Base(k, width) + width][c];
    }
  }

  /** Running the transform and then its inverse leaves the array as it was. */
  method DftThenIdft<T(!new)>(R: Ring<T>, ghost omega: T, data: array<T>, table: seq<seq<T>>, width: nat)
    requires Halvable(R) && omega != R.zero && IsRootTable(R, omega, table)
    requires Sized(table) && Shaped(data[..], width, Pow2(|table|))
    modifies data
    ensures data[..] == old(data[..])
  {
    hide Layer, RowsOf, Base, AreInverses;
    ghost var n := Pow2(|table|);
    ghost var s := data[..];
    CpuEvalsDft(R, data, table, width);
    CpuEvalsIdft(R, omega, data, table, width);
    ghost var inv :| AreInverses(R, table, inv) && Sized(inv) && |inv| == |table| &&
      RowsOf(data[..], width, n) == Idft(R, inv, Dft(R, table, RowsOf(s, width, n), width, |table|), width, |table|);
    IdftUndoesDft(R, table, inv, RowsOf(s, width, n), width, |table|);
    RowsDetermine(data[..], s, width, n);
  }

  /** And so does the inverse followed by the transform. */
  method IdftThenDft<T(!new)>(R: Ring<T>, ghost omega: T, data: array<T>, table: seq<seq<T>>, width: nat)
    requires Halvable(R) && omega != R.zero && IsRootTable(R, omega, table)
    requires Sized(table) && Shaped(data[..], width, Pow2(|table|))
    modifies data
    ensures data[..] == old(data[..])
  {
    hide Layer, RowsOf, Base, AreInverses;
    ghost var n := Pow2(|table|);
    ghost var s := data[..];
    CpuEvalsIdft(R, omega, data, table, width);
    ghost var mid := data[..];
    ghost var inv :| AreInverses(R, table, inv) && Sized(inv) && |inv| == |table| &&
      RowsOf(mid, width, n) == Idft(R, inv, RowsOf(s, width, n), width, |table|);
    CpuEvalsDft(R, data, table, width);
    DftUndoesIdft(R, table, inv, RowsOf(s, width, n), width, |table|);
    RowsDetermine(data[..], s, width, n);
  }

  /** A root of unity of order 2^L is all that the two transforms ask for. */
  lemma RootSuffices<T(!new)>(R: Ring<T>, omega: T, L: nat)
    requires IsRoot(R, omega, L)
    ensures Halvable(R) && IsEvenRoot(R, omega, L) && omega != R.zero
  {
    FullOrder(R, omega, L);
    if R.Add(R.one, R.one) == R.zero { R.NegUnique(R.one, R.one); }
  }

  // -- The direct evaluation -----------------------------------------------------------------------

  /** The product over the bits of j, from the lowest bit and the last coordinate on. */
  method Term<T(!new)>(R: Ring<T>, value: T, j: nat, coords: seq<T>) returns (term: T)
    requires R.IsRing() && j < Pow2(|coords|)
    ensures term == R.Mul(Eq(R, coords, j), value)
  {
    hide Ring<T>.Mul, Ring<T>.Add, Ring<T>.Neg;
    term := value;
    var bit, n := 0, |coords|;
    R.Units(value);
    while bit < n
      invariant 0 <= bit <= n && term == R.Mul(EqFrom(R, coords, n - bit, j % Pow2(bit)), value)
    {
      var coord := coords[n - 1 - bit];
      var factor := if (j / Pow2(bit)) % 2 == 1 then coord else R.Sub(R.one, coord);
      LowBits(j, bit);
      R.MulAssoc(factor, EqFrom(R, coords, n - bit, j % Pow2(bit)), value);
      R.MulComm(term, factor);
      term := R.Mul(term, factor);
      bit := bit + 1;
    }
    DivModUnique(j, Pow2(n), 0, j);
  }

  /** What output i of the transform should be, computed term by term. */
  method EvalMultilinearAtPower<T(!new)>(R: Ring<T>, omega: T, evals: seq<T>, i: nat, logN: nat) returns (result: T)
    requires R.IsRing() && |evals| == Pow2(logN)
    ensures result == Mle(R, Column(R, seq(|evals|, k requires 0 <= k < |evals| => [evals[k]]), 0),
        Squares(R, R.Pow(omega, i), logN))
  {
    hide Ring<T>.Mul, Ring<T>.Add, Ring<T>.Neg, Squares, EqFrom, Squared;
    var w, coords, t := R.Pow(omega, i), [], 0;
    ghost var z := w;
    SquaredNext(R, z, 0);
    while t < logN
      invariant 0 <= t <= logN && |coords| == t && w == Squared(R, z, t)
      invariant forall k {:trigger coords[k]} :: 0 <= k < t ==> coords[k] == Squared(R, z, k)
    {
      coords := coords + [w];
      SquaredNext(R, z, t);
      w := R.Mul(w, w);
      t := t + 1;
    }
    CoordsAreSquares(R, z, coords);
    ghost var f := Column(R, seq(|evals|, k requires 0 <= k < |evals| => [evals[k]]), 0);
    ghost var g := Weighted(R, f, 0, coords, 0);
    result := R.zero;
    var j := 0;
    while j < |evals|
      invariant 0 <= j <= |evals| && result == R.Sum(g, j)
    {
      var term := Term(R, evals[j], j, coords);
      assert f(j) == evals[j] && f(0 + j) == f(j);
      result := R.Add(result, term);
      j := j + 1;
    }
    MleIsWeightedSum(R, f, 0, coords, 0);
  }

  lemma SquaredNext<T(!new)>(R: Ring<T>, z: T, t: nat)
    ensures Squared(R, z, 0) == z && Squared(R, z, t + 1) == R.Mul(Squared(R, z, t), Squared(R, z, t))
  {
  }

  lemma CoordsAreSquares<T(!new)>(R: Ring<T>, z: T, coords: seq<T>)
    requires forall k {:trigger coords[k]} :: 0 <= k < |coords| ==> coords[k] == Squared(R, z, k)
    ensures coords == Squares(R, z, |coords|)
  {
    forall k | 0 <= k < |coords| ensures coords[k] == Squares(R, z, |coords|)[k] { SquaresAt(R, z, |coords|, k); }
  }
}
