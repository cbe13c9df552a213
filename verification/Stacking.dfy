/** The blocks of the logup vector: aligned offsets, location prefixes and the extension of the whole stack. */
module Stacking {
  import opened Arith
  import opened Rings
  import opened Multilinear
  import opened MleGadgets
  import opened Folding
  import opened Polynomials

  // -- Offsets ------------------------------------------------------------------------------------

  /** Cells taken by blocks of 2^logs[0], 2^logs[1], ... rows. */
  function TotalRows(logs: seq<nat>): nat {
    if logs == [] then 0 else TotalRows(logs[..|logs| - 1]) + Pow2(logs[|logs| - 1])
  }

  /** Blocks come in order of descending size. */
  predicate Descending(logs: seq<nat>) {
    forall i, j {:trigger logs[i], logs[j]} :: 0 <= i < j < |logs| ==> logs[i] >= logs[j]
  }

  lemma MultipleOfSmaller(a: nat, b: nat)
    requires b <= a
    ensures Pow2(a) == Pow2(a - b) * Pow2(b)
  {
    Pow2Add(a - b, b);
  }

  /** If every block so far is at least as large as 2^b, their total is a multiple of 2^b. */
  lemma {:induction false} OffsetIsMultiple(logs: seq<nat>, b: nat) returns (q: nat)
    requires forall i {:trigger logs[i]} :: 0 <= i < |logs| ==> logs[i] >= b
    ensures TotalRows(logs) == q * Pow2(b)
  {
    if logs == [] {
      q := 0;
    } else {
      var last := logs[|logs| - 1];
      var q0 := OffsetIsMultiple(logs[..|logs| - 1], b);
      MultipleOfSmaller(last, b);
      q := q0 + Pow2(last - b);
      Distribute(q0, Pow2(last - b), Pow2(b));
    }
  }

  lemma {:induction false} TotalGrows(logs: seq<nat>, k: nat)
    requires k < |logs|
    ensures TotalRows(logs[..k]) + Pow2(logs[k]) <= TotalRows(logs)
    decreases |logs|
  {
    var last := |logs| - 1;
    if k < last {
      TotalGrows(logs[..last], k);
      assert logs[..last][..k] == logs[..k];
    }
  }

  /** The division of an offset by the block size is exact, and the quotient fits the remaining variables. */
  lemma OffsetFits(logs: seq<nat>, k: nat, nVars: nat)
    requires Descending(logs) && k < |logs| && TotalRows(logs) <= Pow2(nVars)
    ensures logs[k] <= nVars
    ensures Below(TotalRows(logs[..k]), logs[k]) == 0
    ensures Above(TotalRows(logs[..k]), logs[k]) < Pow2(nVars - logs[k])
  {
    var b := logs[k];
    var q := OffsetIsMultiple(logs[..k], b);
    TotalGrows(logs, k);
    if b > nVars { Pow2Strict(nVars, b); assert false; }
    MultipleOfSmaller(nVars, b);
    Commute(q, Pow2(b));
    DivModUnique(TotalRows(logs[..k]), Pow2(b), q, 0);
    if q >= Pow2(nVars - b) { MulLe(Pow2(nVars - b), q, Pow2(b)); assert false; }
  }

  // -- The logup section of the verifier --------------------------------------------------------------

  function Repeat(x: nat, n: nat): (r: seq<nat>)
    ensures |r| == n && forall i {:trigger r[i]} :: 0 <= i < n ==> r[i] == x
  {
    seq(n, i => x)
  }

  /**
   * Memory, padded bytecode, and for each table its bus block and one block per looked-up value; the execution table
   * has one more.
   */
  function LogupBlocks(logMemory: nat, logBytecodePadded: nat, heights: seq<nat>, lookups: seq<nat>, second: nat,
      third: nat): seq<nat>
    requires |heights| == |lookups| == 3 && second < 3 && third < 3
  {
    [logMemory, logBytecodePadded] + Repeat(heights[0], 2 + lookups[0]) + Repeat(heights[second], 1 + lookups[second])
        + Repeat(heights[third], 1 + lookups[third])
  }

  /** n_rows * count */
  function Rows(height: nat, count: nat): nat { Pow2(height) * count }

  /** What compute_total_gkr_n_vars adds up, table by table in index order. */
  function ComputedTotal(logMemory: nat, logBytecodePadded: nat, heights: seq<nat>, lookups: seq<nat>): nat
    requires |heights| == |lookups| == 3
  {
    Pow2(logMemory) + Pow2(logBytecodePadded) + Pow2(heights[0])
      + Rows(heights[0], lookups[0] + 1) + Rows(heights[1], lookups[1] + 1) + Rows(heights[2], lookups[2] + 1)
  }

  lemma {:induction false} TotalAppend(a: seq<nat>, b: seq<nat>)
    ensures TotalRows(a + b) == TotalRows(a) + TotalRows(b)
  {
    if b == [] {
      assert a + b == a;
    } else {
      var n := |b| - 1;
      TotalAppend(a, b[..n]);
      assert (a + b)[..|a + b| - 1] == a + b[..n];
    }
  }

  lemma {:induction false} TotalRepeat(x: nat, n: nat)
    ensures TotalRows(Repeat(x, n)) == Rows(x, n)
  {
    if n > 0 {
      TotalRepeat(x, n - 1);
      assert Repeat(x, n)[..n - 1] == Repeat(x, n - 1);
      assert Pow2(x) * n == Pow2(x) * (n - 1) + Pow2(x) by {
        Distribute(n - 1, 1, Pow2(x));
        Commute(Pow2(x), n);
        Commute(Pow2(x), n - 1);
      }
    }
  }

  /** Whatever the order of the second and third table, the final offset is the computed total. */
  lemma FinalOffsetIsTotal(logMemory: nat, logBytecodePadded: nat, heights: seq<nat>, lookups: seq<nat>, second: nat,
      third: nat)
    requires |heights| == |lookups| == 3 && ((second == 1 && third == 2) || (second == 2 && third == 1))
    ensures TotalRows(LogupBlocks(logMemory, logBytecodePadded, heights, lookups, second, third))
        == ComputedTotal(logMemory, logBytecodePadded, heights, lookups)
  {
    hide Repeat, Rows, Pow2, TotalRows;
    var first, a, b, c := [logMemory, logBytecodePadded], Repeat(heights[0], 2 + lookups[0]),
        Repeat(heights[second], 1 + lookups[second]), Repeat(heights[third], 1 + lookups[third]);
    TotalAppend(first, a);
    TotalAppend(first + a, b);
    TotalAppend(first + a + b, c);
    TotalRepeat(heights[0], 2 + lookups[0]);
    TotalRepeat(heights[second], 1 + lookups[second]);
    TotalRepeat(heights[third], 1 + lookups[third]);
    TotalOfTwo(logMemory, logBytecodePadded);
    OneMore(heights[0], lookups[0]);
  }

  lemma TotalOfTwo(x: nat, y: nat)
    ensures TotalRows([x, y]) == Pow2(x) + Pow2(y)
  {
    assert [x, y][..1] == [x] && [x][..0] == [];
    assert TotalRows([x]) == Pow2(x);
  }

  lemma OneMore(h: nat, n: nat)
    ensures Rows(h, 2 + n) == Pow2(h) + Rows(h, n + 1)
  {
    Distribute(1, n + 1, Pow2(h));
    Commute(Pow2(h), n + 2);
    Commute(Pow2(h), n + 1);
  }

  /**
   * The checks on the heights and the dispatch on the larger of
   * the two other tables put the blocks in descending order.
   */
  lemma BlocksDescend(logMemory: nat, logBytecodePadded: nat, logBytecode: nat, heights: seq<nat>, lookups: seq<nat>,
      second: nat, third: nat)
    requires |heights| == |lookups| == 3 && second < 3 && third < 3
    requires heights[0] <= logMemory && logBytecode <= logMemory
    requires logBytecodePadded == if logBytecode < heights[0] then heights[0] else logBytecode
    requires heights[second] <= heights[0] && heights[third] <= heights[second]
    ensures Descending(LogupBlocks(logMemory, logBytecodePadded, heights, lookups, second, third))
  {
    var logs := LogupBlocks(logMemory, logBytecodePadded, heights, lookups, second, third);
    var n0, n1 := 4 + lookups[0], 5 + lookups[0] + lookups[second];
    forall i | 0 <= i < |logs|
      ensures logs[i] == if i == 0 then logMemory else if i == 1 then logBytecodePadded else if i < n0 then heights[0]
          else if i < n1 then heights[second] else heights[third]
    {
    }
  }

  // -- Blocks in the extension ----------------------------------------------------------------------

  lemma {:induction false} ZeroMle<T(!new)>(R: Ring<T>, f: int -> T, lo: int, point: seq<T>, k: nat)
    requires R.IsRing() && k <= |point| && forall i {:trigger f(i)} :: lo <= i < lo + Pow2(|point| - k) ==>
        f(i) == R.zero
    ensures MleFrom(R, f, lo, point, k) == R.zero
  {
    ConstantMle(R, f, R.zero, lo, point, k);
  }

  lemma {:induction false} MleAdds<T(!new)>(R: Ring<T>, f: int -> T, g: int -> T, h: int -> T, lo: int, point: seq<T>,
      k: nat)
    requires R.IsRing() && k <= |point|
    requires forall i {:trigger h(i)} :: lo <= i < lo + Pow2(|point| - k) ==> h(i) == R.Add(f(i), g(i))
    ensures MleFrom(R, h, lo, point, k) == R.Add(MleFrom(R, f, lo, point, k), MleFrom(R, g, lo, point, k))
    decreases |point| - k
  {
    hide Ring<T>.Add, Ring<T>.Mul, Ring<T>.Neg, Mix;
    if k < |point| {
      var half := Pow2(|point| - k - 1);
      MleAdds(R, f, g, h, lo, point, k + 1);
      MleAdds(R, f, g, h, lo + half, point, k + 1);
      MixAdds(R, MleFrom(R, f, lo, point, k + 1), MleFrom(R, g, lo, point, k + 1),
          MleFrom(R, f, lo + half, point, k + 1), MleFrom(R, g, lo + half, point, k + 1), point[k]);
    }
  }

  lemma MixAdds<T(!new)>(R: Ring<T>, a: T, b: T, c: T, d: T, r: T)
    requires R.IsRing()
    ensures Mix(R, R.Add(a, b), R.Add(c, d), r) == R.Add(Mix(R, a, c, r), Mix(R, b, d, r))
  {
    hide Ring<T>.Add, Ring<T>.Mul, Ring<T>.Neg;
    R.Distribute(R.Sub(R.one, r), a, b);
    R.Distribute(r, c, d);
    R.AddSwap(R.Mul(R.Sub(R.one, r), a), R.Mul(R.Sub(R.one, r), b), R.Mul(r, c), R.Mul(r, d));
  }

  /** The location prefix of block q of 2^s cells: its bits against the first coordinates. */
  function LocationPrefix<T(!new)>(R: Ring<T>, q: nat, s: nat, point: seq<T>): T
    requires s <= |point|
  {
    Eq(R, point[..|point| - s], q)
  }

  /** multilinear_location_prefix: the bits of the quotient, the highest first, against the coordinates. */
  lemma {:induction false} PrefixFromBits<T(!new)>(R: Ring<T>, q: nat, bits: seq<T>, point: seq<T>, k: nat)
    requires R.IsRing() && |bits| == |point| && k <= |point|
    requires forall i {:trigger bits[i]} :: 0 <= i < |bits| ==> bits[i] == if Bit(q, |bits| - 1 - i) == 1 then R.one
        else R.zero
    ensures PolyEq(R, bits, point, k) == EqFrom(R, point, k, Below(q, |point| - k))
    decreases |point| - k
  {
    hide Ring<T>.Add, Ring<T>.Mul, Ring<T>.Neg, Ring<T>.IsRing, Bit, Pow2, Below, EqFrom;
    if k == |point| {
      EqFromEnd(R, point, Below(q, 0));
    } else {
      PrefixFromBits(R, q, bits, point, k + 1);
      BitFactor(R, bits[k], point[k]);
      EqOfHalf(R, point, k, q);
    }
  }

  lemma EqFromEnd<T(!new)>(R: Ring<T>, point: seq<T>, j: int) ensures EqFrom(R, point, |point|, j) == R.one {}

  lemma BelowStep(q: nat, s: nat)
    ensures Below(q, s + 1) == Below(q, s) + (if Bit(q, s) == 1 then Pow2(s) else 0)
  {
    LowBits(q, s);
  }

  /** The factor of a bit is p or 1 - p. */
  lemma BitFactor<T(!new)>(R: Ring<T>, b: T, p: T)
    requires R.IsRing()
    ensures b == R.one ==> EqTwo(R, b, p) == p
    ensures b == R.zero ==> EqTwo(R, b, p) == R.Sub(R.one, p)
  {
    hide Ring<T>.Add, Ring<T>.Mul, Ring<T>.Neg;
    var q := R.Sub(R.one, p);
    R.Units(p);
    R.Units(q);
    R.MulZero(p);
    R.MulZero(q);
    R.SubSelf(R.one);
    R.NegZero();
    R.Units(R.one);
  }

  /** The highest of the remaining bits of q selects the factor of coordinate k. */
  lemma EqOfHalf<T(!new)>(R: Ring<T>, point: seq<T>, k: nat, q: nat)
    requires k < |point|
    ensures var s := |point| - k - 1;
            EqFrom(R, point, k, Below(q, s + 1))
                == R.Mul(if Bit(q, s) == 1 then point[k] else R.Sub(R.one, point[k]),
                EqFrom(R, point, k + 1, Below(q, s)))
  {
    hide Ring<T>.Add, Ring<T>.Mul, Ring<T>.Neg, Bit;
    BelowStep(q, |point| - k - 1);
  }

  /** A function that vanishes outside block q is, in the extension, the prefix times the extension of the block. */
  lemma {:induction false} BlockFrom<T(!new)>(R: Ring<T>, f: int -> T, q: nat, s: nat, b: nat, point: seq<T>, k: nat)
    requires R.IsRing() && k + s <= |point| && q < Pow2(|point| - s - k)
    requires forall i {:trigger f(i)} ::
      b <= i < b + Pow2(|point| - k) && !(b + Times(q, Pow2(s)) <= i < b + Times(q, Pow2(s)) + Pow2(s)) ==>
        f(i) == R.zero
    ensures MleFrom(R, f, b, point, k)
        == R.Mul(EqFrom(R, point[..|point| - s], k, q), MleFrom(R, f, b + Times(q, Pow2(s)), point, |point| - s))
    decreases |point| - k
  {
    hide Ring<T>.Add, Ring<T>.Mul, Ring<T>.Neg, Times, MleFrom, EqFrom, Mix, Pow2;
    var m, prefix := |point| - s, point[..|point| - s];
    var inner := MleFrom(R, f, b + Times(q, Pow2(s)), point, m);
    if k == m {
      FirstBlock(s);
      EqFromEnd(R, prefix, q);
      R.Units(inner);
      PowZero();
    } else {
      var half, cells := Pow2(m - k - 1), Pow2(|point| - k - 1);
      MultipleOfSmaller(|point| - k - 1, s);
      PowerStep(m - k - 1);
      PowerStep(|point| - k - 1);
      MleUnfoldAt(R, f, b, point, k);
      assert prefix[k] == point[k];
      EqUnfold(R, prefix, k, q);
      if q < half {
        BlockBelow(q, half, Pow2(s), cells);
        BlockFrom(R, f, q, s, b, point, k + 1);
        ZeroMle(R, f, b + cells, point, k + 1);
        OneHalf(R, MleFrom(R, f, b, point, k + 1), EqFrom(R, prefix, k + 1, q), inner, point[k]);
      } else {
        BlockAbove(q, half, Pow2(s), cells);
        BlockFrom(R, f, q - half, s, b + cells, point, k + 1);
        ZeroMle(R, f, b, point, k + 1);
        OneHalf(R, MleFrom(R, f, b + cells, point, k + 1), EqFrom(R, prefix, k + 1, q - half), inner, point[k]);
      }
    }
  }

  lemma EqUnfold<T(!new)>(R: Ring<T>, point: seq<T>, k: nat, j: int)
    requires k < |point|
    ensures var half := Pow2(|point| - k - 1);
            EqFrom(R, point, k, j) == if j < half then R.Mul(R.Sub(R.one, point[k]), EqFrom(R, point, k + 1, j))
                else R.Mul(point[k], EqFrom(R, point, k + 1, j - half))
  {
  }

  /** A block in one half: the other half contributes nothing. */
  lemma OneHalf<T(!new)>(R: Ring<T>, value: T, weight: T, inner: T, p: T)
    requires R.IsRing() && value == R.Mul(weight, inner)
    ensures Mix(R, value, R.zero, p) == R.Mul(R.Mul(R.Sub(R.one, p), weight), inner)
    ensures Mix(R, R.zero, value, p) == R.Mul(R.Mul(p, weight), inner)
  {
    hide Ring<T>.Add, Ring<T>.Mul, Ring<T>.Neg;
    var q := R.Sub(R.one, p);
    R.MulZero(p);
    R.MulZero(q);
    R.Units(R.Mul(q, value));
    R.Units(R.Mul(p, value));
    R.MulAssoc(q, weight, inner);
    R.MulAssoc(p, weight, inner);
  }

  lemma FirstBlock(s: nat) ensures Times(0, Pow2(s)) == 0 {}

  lemma BlockBelow(q: nat, half: nat, size: nat, cells: nat)
    requires q < half && cells == half * size
    ensures Times(q, size) + size <= cells
  {
    MulLe(q + 1, half, size);
    Distribute(q, 1, size);
  }

  lemma BlockAbove(q: nat, half: nat, size: nat, cells: nat)
    requires q >= half && cells == half * size
    ensures Times(q, size) == cells + Times(q - half, size)
  {
    Distribute(half, q - half, size);
  }

  // -- The whole stack ---------------------------------------------------------------------------------

  /** Block k has 2^logs[k] values. */
  predicate Shape<T>(blocks: seq<seq<T>>, logs: seq<nat>) {
    |blocks| == |logs| && forall k {:trigger blocks[k]} {:trigger logs[k]} :: 0 <= k < |blocks| ==>
        |blocks[k]| == Pow2(logs[k])
  }

  function Concatenated<T>(blocks: seq<seq<T>>): seq<T> {
    if blocks == [] then [] else Concatenated(blocks[..|blocks| - 1]) + blocks[|blocks| - 1]
  }

  lemma {:induction false} ConcatenatedLength<T>(blocks: seq<seq<T>>, logs: seq<nat>)
    requires Shape(blocks, logs)
    ensures |Concatenated(blocks)| == TotalRows(logs)
  {
    if blocks != [] { ConcatenatedLength(blocks[..|blocks| - 1], logs[..|logs| - 1]); }
  }

  /** One block at its offset, zero elsewhere. */
  function Alone<T(!new)>(R: Ring<T>, block: seq<T>, offset: int): int -> T {
    (j: int) => Coefficient(R, block, j - offset)
  }

  /** The stack followed by ones. */
  function PaddedWithOnes<T(!new)>(R: Ring<T>, data: seq<T>): int -> T {
    (j: int) => if 0 <= j < |data| then data[j] else if j < 0 then R.zero else R.one
  }

  /** The extension of a block at the last coordinates of the point. */
  function InnerMle<T(!new)>(R: Ring<T>, block: seq<T>, s: nat, point: seq<T>): T
    requires s <= |point|
  {
    MleFrom(R, At(R, block), 0, point, |point| - s)
  }

  lemma {:induction false} AloneIsBlock<T(!new)>(R: Ring<T>, block: seq<T>, offset: nat, lo: nat, point: seq<T>, k: nat)
    requires k <= |point|
    ensures MleFrom(R, Alone(R, block, offset), offset + lo, point, k) == MleFrom(R, At(R, block), lo, point, k)
    decreases |point| - k
  {
    hide Ring<T>.Add, Ring<T>.Mul, Ring<T>.Neg, Mix;
    if k < |point| {
      AloneIsBlock(R, block, offset, lo, point, k + 1);
      AloneIsBlock(R, block, offset, lo + Pow2(|point| - k - 1), point, k + 1);
      assert offset + (lo + Pow2(|point| - k - 1)) == offset + lo + Pow2(|point| - k - 1);
    }
  }

  /** An aligned block contributes its prefix times its own extension. */
  lemma AlignedBlock<T(!new)>(R: Ring<T>, block: seq<T>, s: nat, q: nat, point: seq<T>)
    requires R.IsRing() && s <= |point| && |block| == Pow2(s) && q < Pow2(|point| - s)
    ensures Mle(R, Alone(R, block, Times(q, Pow2(s))), point)
        == R.Mul(LocationPrefix(R, q, s, point), InnerMle(R, block, s, point))
  {
    hide Ring<T>.Add, Ring<T>.Mul, Ring<T>.Neg, Times, MleFrom, EqFrom, Alone, Pow2;
    var offset := Times(q, Pow2(s));
    var f := Alone(R, block, offset);
    AloneOutside(R, block, offset);
    assert 0 + offset == offset;
    BlockFrom(R, f, q, s, 0, point, 0);
    AloneIsBlock(R, block, offset, 0, point, |point| - s);
  }

  lemma AloneOutside<T(!new)>(R: Ring<T>, block: seq<T>, offset: int)
    ensures var f := Alone(R, block, offset); forall i {:trigger f(i)} :: !(offset <= i < offset + |block|) ==>
        f(i) == R.zero
  {
    var f := Alone(R, block, offset);
    forall i {:trigger f(i)} | !(offset <= i < offset + |block|) ensures f(i) == R.zero {
      AloneAt(R, block, offset, i);
    }
  }

  lemma AloneAt<T(!new)>(R: Ring<T>, block: seq<T>, offset: int, i: int)
    ensures Alone(R, block, offset)(i) == Coefficient(R, block, i - offset)
  {
  }

  // -- The bytecode block, padded with ones --------------------------------------------------------------

  function Constant<T>(c: T, n: nat): (r: seq<T>)
    ensures |r| == n
  {
    seq(n, _ => c)
  }

  /** The extension at the last coordinates of a point is the extension at the point made of them. */
  lemma {:induction false} SuffixMle<T(!new)>(R: Ring<T>, f: int -> T, lo: int, point: seq<T>, k: nat, d: nat)
    requires d <= k <= |point|
    ensures MleFrom(R, f, lo, point, k) == MleFrom(R, f, lo, point[d..], k - d)
    decreases |point| - k
  {
    hide Ring<T>.Add, Ring<T>.Mul, Ring<T>.Neg, Mix, Pow2;
    if k < |point| {
      SuffixMle(R, f, lo, point, k + 1, d);
      SuffixMle(R, f, lo + Pow2(|point| - k - 1), point, k + 1, d);
      assert point[d..][k - d] == point[k];
    }
  }

  /**
   * The bytecode under its own prefix plus zeros-then-ones under
   * the wider prefix is the padded block under the wider prefix.
   */
  lemma PaddedBlock<T(!new)>(R: Ring<T>, bytecode: seq<T>, b: nat, s: nat, q: nat, point: seq<T>)
    requires R.IsRing() && b <= s <= |point| && |bytecode| == Pow2(b) && q < Pow2(|point| - s)
    ensures Pow2(b) <= Pow2(s) && Below(Times(q, Pow2(s)), b) == 0 && Above(Times(q, Pow2(s)), b) < Pow2(|point| - b)
    ensures R.Add(R.Mul(LocationPrefix(R, Above(Times(q, Pow2(s)), b), b, point), InnerMle(R, bytecode, b, point)),
                  R.Mul(LocationPrefix(R, q, s, point), Mle(R, ZerosThenOnes(R, Pow2(b)), point[|point| - s..])))
         == R.Mul(LocationPrefix(R, q, s, point), InnerMle(R, bytecode + Constant(R.one, Pow2(s) - Pow2(b)), s, point))
  {
    hide Ring<T>.Add, Ring<T>.Mul, Ring<T>.Neg, LocationPrefix, MleFrom, Alone, Times, Constant, ZerosThenOnes, Pow2;
    Pow2Grows(b, s);
    var ones := Constant(R.one, Pow2(s) - Pow2(b));
    var rest := Constant(R.zero, Pow2(b)) + ones;
    var offset := Times(q, Pow2(s));
    FinerQuotient(q, s, b, |point|);
    ExactQuotient(offset, b);
    AlignedBlock(R, bytecode, b, Above(offset, b), point);
    AlignedBlock(R, rest, s, q, point);
    AlignedBlock(R, bytecode + ones, s, q, point);
    RestIsZerosThenOnes(R, b, s, point);
    PaddedSplits(R, bytecode, ones, offset, point);
  }

  lemma FinerQuotient(q: nat, s: nat, b: nat, n: nat)
    requires b <= s <= n && q < Pow2(n - s)
    ensures Below(Times(q, Pow2(s)), b) == 0 && Above(Times(q, Pow2(s)), b) < Pow2(n - b)
  {
    MultipleOfSmaller(s, b);
    MultipleOfSmaller(n - b, s - b);
    var wide := Times(q, Pow2(s - b));
    MulAssoc(q, Pow2(s - b), Pow2(b));
    Commute(wide, Pow2(b));
    DivModUnique(Times(q, Pow2(s)), Pow2(b), wide, 0);
    MulLe(q + 1, Pow2(n - s), Pow2(s - b));
    Distribute(q, 1, Pow2(s - b));
  }

  lemma RestIsZerosThenOnes<T(!new)>(R: Ring<T>, b: nat, s: nat, point: seq<T>)
    requires R.IsRing() && s <= |point| && Pow2(b) <= Pow2(s)
    ensures InnerMle(R, Constant(R.zero, Pow2(b)) + Constant(R.one, Pow2(s) - Pow2(b)), s, point)
        == Mle(R, ZerosThenOnes(R, Pow2(b)), point[|point| - s..])
  {
    hide Ring<T>.Add, Ring<T>.Mul, Ring<T>.Neg, MleFrom, Pow2;
    var rest, k := Constant(R.zero, Pow2(b)) + Constant(R.one, Pow2(s) - Pow2(b)), |point| - s;
    var f, g := At(R, rest), ZerosThenOnes(R, Pow2(b));
    forall i {:trigger f(i)} {:trigger g(i)} | 0 <= i < Pow2(|point| - k) ensures f(i) == g(i) {
      assert f(i) == rest[i];
    }
    MleAgrees(R, f, g, 0, point, k);
    SuffixMle(R, g, 0, point, k, k);
  }

  lemma PaddedSplits<T(!new)>(R: Ring<T>, bytecode: seq<T>, ones: seq<T>, offset: int, point: seq<T>)
    requires R.IsRing()
    ensures Mle(R, Alone(R, bytecode + ones, offset), point)
        == R.Add(Mle(R, Alone(R, bytecode, offset), point),
        Mle(R, Alone(R, Constant(R.zero, |bytecode|) + ones, offset), point))
  {
    hide Ring<T>.Add, Ring<T>.Mul, Ring<T>.Neg, MleFrom, Alone;
    var rest := Constant(R.zero, |bytecode|) + ones;
    var f, g, h := Alone(R, bytecode, offset), Alone(R, rest, offset), Alone(R, bytecode + ones, offset);
    forall i {:trigger h(i)} | 0 <= i < Pow2(|point|) ensures h(i) == R.Add(f(i), g(i)) {
      AloneAt(R, bytecode, offset, i);
      AloneAt(R, rest, offset, i);
      AloneAt(R, bytecode + ones, offset, i);
      R.Units(f(i));
      R.Units(g(i));
    }
    MleAdds(R, f, g, h, 0, point, 0);
  }

  // -- The whole stack, accumulated ----------------------------------------------------------------------

  /** What the verifier accumulates: for each block the prefix of its offset times its claimed evaluation. */
  function Accumulated<T(!new)>(R: Ring<T>, logs: seq<nat>, evals: seq<T>, point: seq<T>): T
    requires |evals| == |logs| && Descending(logs) && TotalRows(logs) <= Pow2(|point|)
  {
    if logs == [] then R.zero
    else
      var last := |logs| - 1;
      OffsetFits(logs, last, |point|);
      R.Add(Accumulated(R, logs[..last], evals[..last], point),
          R.Mul(LocationPrefix(R, Above(TotalRows(logs[..last]), logs[last]), logs[last], point), evals[last]))
  }

  /** The loop over the blocks, with the running offset. */
  method RetrieveValue<T(!new)>(R: Ring<T>, logs: seq<nat>, evals: seq<T>, point: seq<T>)
    returns (value: T, offset: nat)
    requires |evals| == |logs| && Descending(logs) && TotalRows(logs) <= Pow2(|point|)
    ensures offset == TotalRows(logs) && value == Accumulated(R, logs, evals, point)
  {
    hide LocationPrefix, Ring<T>.Add, Ring<T>.Mul, Ring<T>.Neg, Pow2, TotalRows, Accumulated, Descending;
    value, offset := R.zero, 0;
    NothingAccumulated(R, logs, evals, point);
    var k := 0;
    while k < |logs|
      invariant 0 <= k <= |logs| && offset == TotalRows(logs[..k]) <= Pow2(|point|) && Descending(logs[..k])
      invariant value == Accumulated(R, logs[..k], evals[..k], point)
    {
      OffsetFits(logs, k, |point|);
      OneMoreBlock(R, logs, evals, point, k);
      var nRows := Pow2(logs[k]);
      var prefix := LocationPrefix(R, Above(offset, logs[k]), logs[k], point);
      value := R.Add(value, R.Mul(prefix, evals[k]));
      offset := offset + nRows;
      k := k + 1;
    }
    assert logs[..k] == logs && evals[..k] == evals;
  }

  lemma NothingAccumulated<T(!new)>(R: Ring<T>, logs: seq<nat>, evals: seq<T>, point: seq<T>)
    requires |evals| == |logs|
    ensures Descending(logs[..0]) && TotalRows(logs[..0]) == 0 <= Pow2(|point|)
        && Accumulated(R, logs[..0], evals[..0], point) == R.zero
  {
  }

  /** The accumulated value and the offset after one more block. */
  lemma OneMoreBlock<T(!new)>(R: Ring<T>, logs: seq<nat>, evals: seq<T>, point: seq<T>, k: nat)
    requires |evals| == |logs| && Descending(logs) && TotalRows(logs) <= Pow2(|point|) && k < |logs|
    ensures logs[k] <= |point| && Descending(logs[..k]) && Descending(logs[..k + 1])
        && TotalRows(logs[..k]) <= Pow2(|point|)
    ensures TotalRows(logs[..k + 1]) == TotalRows(logs[..k]) + Pow2(logs[k]) <= Pow2(|point|)
    ensures Above(TotalRows(logs[..k]), logs[k]) < Pow2(|point| - logs[k])
    ensures Accumulated(R, logs[..k + 1], evals[..k + 1], point)
         == R.Add(Accumulated(R, logs[..k], evals[..k], point),
             R.Mul(LocationPrefix(R, Above(TotalRows(logs[..k]), logs[k]), logs[k], point), evals[k]))
  {
    hide LocationPrefix, Ring<T>.Add, Ring<T>.Mul, Ring<T>.Neg, Pow2;
    OffsetFits(logs, k, |point|);
    TotalGrows(logs, k);
    assert logs[..k + 1][..k] == logs[..k] && evals[..k + 1][..k] == evals[..k];
    assert logs[..k + 1][k] == logs[k] && evals[..k + 1][k] == evals[k];
  }

  ghost predicate HonestEvals<T(!new)>(R: Ring<T>, blocks: seq<seq<T>>, logs: seq<nat>, evals: seq<T>, point: seq<T>) {
    |evals| == |logs| == |blocks| && forall k {:trigger evals[k]} {:trigger logs[k]} :: 0 <= k < |evals| ==>
        logs[k] <= |point| && evals[k] == InnerMle(R, blocks[k], logs[k], point)
  }

  lemma HonestPrefix<T(!new)>(R: Ring<T>, blocks: seq<seq<T>>, logs: seq<nat>, evals: seq<T>, point: seq<T>)
    requires Shape(blocks, logs) && Descending(logs) && HonestEvals(R, blocks, logs, evals, point) && logs != []
    ensures var last := |logs| - 1;
            && |blocks| == |evals| == |logs|
            && Shape(blocks[..last], logs[..last]) && Descending(logs[..last])
            && HonestEvals(R, blocks[..last], logs[..last], evals[..last], point)
            && logs[last] <= |point| && |blocks[last]| == Pow2(logs[last])
            && evals[last] == InnerMle(R, blocks[last], logs[last], point)
  {
    hide InnerMle, Pow2;
    var last := |logs| - 1;
    assert logs[last] <= |point|;
    assert |blocks[last]| == Pow2(logs[last]);
    var logs', evals', blocks' := logs[..last], evals[..last], blocks[..last];
    forall k {:trigger evals'[k]} {:trigger logs'[k]} | 0 <= k < last
      ensures logs'[k] <= |point| && evals'[k] == InnerMle(R, blocks'[k], logs'[k], point)
    {
      assert logs'[k] == logs[k];
    }
  }

  /** With the evaluations of the blocks, the accumulated value is the extension of their concatenation. */
  lemma {:induction false} AccumulatedIsStack<T(!new)>(R: Ring<T>, blocks: seq<seq<T>>, logs: seq<nat>, evals: seq<T>,
      point: seq<T>)
    requires R.IsRing() && Shape(blocks, logs) && Descending(logs) && TotalRows(logs) <= Pow2(|point|)
        && HonestEvals(R, blocks, logs, evals, point)
    ensures Accumulated(R, logs, evals, point) == Mle(R, At(R, Concatenated(blocks)), point)
  {
    hide Ring<T>.Add, Ring<T>.Mul, Ring<T>.Neg, Mle, LocationPrefix, InnerMle, HonestEvals, Descending, Pow2;
    if logs == [] {
      assert Concatenated(blocks) == [] by { assert |blocks| == 0; }
      EmptyStack(R, point);
    } else {
      var last := |logs| - 1;
      HonestPrefix(R, blocks, logs, evals, point);
      OffsetFits(logs, last, |point|);
      TotalGrows(logs, last);
      AccumulatedIsStack(R, blocks[..last], logs[..last], evals[..last], point);
      ConcatenatedLength(blocks[..last], logs[..last]);
      AddBlock(R, Concatenated(blocks[..last]), blocks[last], logs[last], point);
    }
  }

  lemma EmptyStack<T(!new)>(R: Ring<T>, point: seq<T>)
    requires R.IsRing()
    ensures Mle(R, At(R, []), point) == R.zero
  {
    ZeroMle(R, At(R, []), 0, point, 0);
  }

  /** Appending an aligned block adds its prefix times its own extension. */
  lemma AddBlock<T(!new)>(R: Ring<T>, before: seq<T>, block: seq<T>, s: nat, point: seq<T>)
    requires R.IsRing() && s <= |point| && |block| == Pow2(s)
    requires Below(|before|, s) == 0 && Above(|before|, s) < Pow2(|point| - s)
    ensures Mle(R, At(R, before + block), point)
        == R.Add(Mle(R, At(R, before), point),
        R.Mul(LocationPrefix(R, Above(|before|, s), s, point), InnerMle(R, block, s, point)))
  {
    hide *;
    ExactQuotient(|before|, s);
    AlignedBlock(R, block, s, Above(|before|, s), point);
    StackSplits(R, before, block, point);
  }

  lemma ExactQuotient(a: nat, n: nat)
    requires Below(a, n) == 0
    ensures Times(Above(a, n), Pow2(n)) == a
  {
    Commute(Pow2(n), Above(a, n));
  }

  lemma StackSplits<T(!new)>(R: Ring<T>, before: seq<T>, block: seq<T>, point: seq<T>)
    requires R.IsRing()
    ensures Mle(R, At(R, before + block), point)
        == R.Add(Mle(R, At(R, before), point), Mle(R, Alone(R, block, |before|), point))
  {
    hide Ring<T>.Add, Ring<T>.Mul, Ring<T>.Neg, MleFrom;
    var f, g, h := At(R, before), Alone(R, block, |before|), At(R, before + block);
    forall i {:trigger h(i)} | 0 <= i < Pow2(|point|) ensures h(i) == R.Add(f(i), g(i)) {
      R.Units(f(i));
      R.Units(g(i));
    }
    MleAdds(R, f, g, h, 0, point, 0);
  }

  /** Adding the extension of zeros-then-ones at the final offset gives the extension of the stack padded with ones. */
  lemma StackWithOnes<T(!new)>(R: Ring<T>, blocks: seq<seq<T>>, logs: seq<nat>, evals: seq<T>, point: seq<T>)
    requires R.IsRing() && Shape(blocks, logs) && Descending(logs) && TotalRows(logs) <= Pow2(|point|)
        && HonestEvals(R, blocks, logs, evals, point)
    ensures R.Add(Accumulated(R, logs, evals, point), Mle(R, ZerosThenOnes(R, TotalRows(logs)), point))
        == Mle(R, PaddedWithOnes(R, Concatenated(blocks)), point)
  {
    hide Ring<T>.Add, Ring<T>.Mul, Ring<T>.Neg, MleFrom, HonestEvals;
    var data := Concatenated(blocks);
    AccumulatedIsStack(R, blocks, logs, evals, point);
    ConcatenatedLength(blocks, logs);
    var f, g, h := At(R, data), ZerosThenOnes(R, |data|), PaddedWithOnes(R, data);
    forall i {:trigger h(i)} | 0 <= i < Pow2(|point|) ensures h(i) == R.Add(f(i), g(i)) {
      R.Units(f(i));
      R.Units(g(i));
    }
    MleAdds(R, f, g, h, 0, point, 0);
  }
}
