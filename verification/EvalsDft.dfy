/**
 * The "evals DFT": from values on the hypercube to values at the powers of a root of unity, layer by layer, and back.
 */
module EvalsDft {
  import opened Arith
  import opened Rings
  import opened Multilinear

  // -- Butterflies --------------------------------------------------------------------------

  function Double<T(!new)>(R: Ring<T>, x: T): T { R.Add(x, x) }

  function Halve<T(!new)>(R: Ring<T>, x: T): T { R.Mul(x, R.Inv(R.Add(R.one, R.one))) }

  /** Twiddle-free for i = 0. */
  function Butterfly<T(!new)>(R: Ring<T>, i: nat, tw: T, hi: T, lo: T): (T, T) {
    if i == 0 then (lo, R.Sub(Double(R, hi), lo))
    else
      var tmp := R.Mul(R.Sub(lo, hi), tw);
      (R.Add(hi, tmp), R.Sub(hi, tmp))
  }

  function Unbutterfly<T(!new)>(R: Ring<T>, i: nat, invTw: T, hi: T, lo: T): (T, T) {
    var x := Halve(R, R.Add(hi, lo));
    if i == 0 then (x, hi)
    else (x, R.Add(x, R.Mul(Halve(R, R.Sub(hi, lo)), invTw)))
  }

  /** A field in which two can be halved. */
  ghost predicate Halvable<T(!new)>(R: Ring<T>) {
    R.IsField() && R.Add(R.one, R.one) != R.zero
  }

  lemma DoubleIsTwice<T(!new)>(R: Ring<T>, x: T)
    requires R.IsRing()
    ensures Double(R, x) == R.Mul(x, R.Add(R.one, R.one))
  {
    R.Distribute(x, R.one, R.one);
    R.Units(x);
  }

  lemma HalveDouble<T(!new)>(R: Ring<T>, x: T)
    requires Halvable(R)
    ensures Halve(R, Double(R, x)) == x && Double(R, Halve(R, x)) == x
  {
    hide Ring<T>.Add, Ring<T>.Mul, Ring<T>.Neg, Ring<T>.Inv;
    var two := R.Add(R.one, R.one);
    DoubleIsTwice(R, x);
    DoubleIsTwice(R, Halve(R, x));
    R.InvLaw(two);
    R.MulAssoc(x, two, R.Inv(two));
    R.MulAssoc(x, R.Inv(two), two);
    R.Units(x);
  }

  lemma SumAndDifference<T(!new)>(R: Ring<T>, a: T, b: T)
    requires R.IsRing()
    ensures R.Add(R.Add(a, b), R.Sub(a, b)) == Double(R, a)
    ensures R.Sub(R.Add(a, b), R.Sub(a, b)) == Double(R, b)
    ensures R.Add(a, R.Sub(Double(R, b), a)) == Double(R, b)
    ensures R.Sub(R.Add(a, b), a) == b && R.Add(a, R.Sub(b, a)) == b
  {
    hide Ring<T>.Add, Ring<T>.Mul, Ring<T>.Neg, Ring<T>.Inv;
    R.AddSwap(a, b, a, R.Neg(b));
    R.Units(b);
    R.Units(Double(R, a));
    R.NegAdd(a, R.Neg(b));
    R.NegNeg(b);
    R.AddSwap(a, b, R.Neg(a), b);
    R.Units(a);
    R.Units(Double(R, b));
    R.AddComm(a, R.Sub(Double(R, b), a));
    R.SubAdd(Double(R, b), a);
    R.AddComm(a, b);
    R.SubAdd(b, a);
    R.AddComm(a, R.Sub(b, a));
  }

  /** The inverse butterfly undoes the butterfly, with and without the twiddle. */
  lemma UnbutterflyUndoes<T(!new)>(R: Ring<T>, i: nat, tw: T, hi: T, lo: T)
    requires Halvable(R) && tw != R.zero
    ensures var y := Butterfly(R, i, tw, hi, lo); Unbutterfly(R, i, R.Inv(tw), y.0, y.1) == (hi, lo)
  {
    hide Ring<T>.Add, Ring<T>.Mul, Ring<T>.Neg, Ring<T>.Inv;
    if i == 0 {
      SumAndDifference(R, lo, hi);
      HalveDouble(R, hi);
    } else {
      var d := R.Sub(lo, hi);
      var tmp := R.Mul(d, tw);
      SumAndDifference(R, hi, tmp);
      HalveDouble(R, hi);
      HalveDouble(R, tmp);
      R.InvLaw(tw);
      R.MulAssoc(d, tw, R.Inv(tw));
      R.Units(d);
      SumAndDifference(R, hi, lo);
    }
  }

  lemma ButterflyUndoes<T(!new)>(R: Ring<T>, i: nat, tw: T, hi: T, lo: T)
    requires Halvable(R) && tw != R.zero
    ensures var x := Unbutterfly(R, i, R.Inv(tw), hi, lo); Butterfly(R, i, tw, x.0, x.1) == (hi, lo)
  {
    hide Ring<T>.Add, Ring<T>.Mul, Ring<T>.Neg, Ring<T>.Inv;
    var s, d := R.Add(hi, lo), R.Sub(hi, lo);
    var x := Halve(R, s);
    HalveDouble(R, s);
    if i == 0 {
      SumAndDifference(R, hi, lo);
    } else {
      var q := Halve(R, d);
      var y := R.Mul(q, R.Inv(tw));
      SumAndDifference(R, x, y);
      R.AddComm(x, y);
      R.SubAdd(y, x);
      R.InvLaw(tw);
      R.MulAssoc(q, R.Inv(tw), tw);
      R.Units(q);
      HalvesMeet(R, hi, lo);
    }
  }

  lemma HalvesMeet<T(!new)>(R: Ring<T>, hi: T, lo: T)
    requires Halvable(R)
    ensures R.Add(Halve(R, R.Add(hi, lo)), Halve(R, R.Sub(hi, lo))) == hi
    ensures R.Sub(Halve(R, R.Add(hi, lo)), Halve(R, R.Sub(hi, lo))) == lo
  {
    hide Ring<T>.Add, Ring<T>.Mul, Ring<T>.Neg, Ring<T>.Inv;
    var half := R.Inv(R.Add(R.one, R.one));
    R.Distribute(half, R.Add(hi, lo), R.Sub(hi, lo));
    R.SubMul(R.Add(hi, lo), R.Sub(hi, lo), half);
    SumAndDifference(R, hi, lo);
    HalveDouble(R, hi);
    HalveDouble(R, lo);
  }

  /** The upper output is the mix at the twiddle, the lower one the mix at its negative. */
  lemma ButterflyMixes<T(!new)>(R: Ring<T>, i: nat, tw: T, hi: T, lo: T)
    requires R.IsRing() && (i == 0 ==> tw == R.one)
    ensures Butterfly(R, i, tw, hi, lo) == (Mix(R, hi, lo, tw), Mix(R, hi, lo, R.Neg(tw)))
  {
    hide Ring<T>.Add, Ring<T>.Mul, Ring<T>.Neg, Ring<T>.Inv, Mix;
    var d := R.Sub(lo, hi);
    MixSum(R, hi, lo, tw);
    MixSum(R, hi, lo, R.Neg(tw));
    R.MulNeg(d, tw);
    R.MulComm(R.Neg(tw), d);
    R.MulComm(tw, d);
    if i == 0 {
      R.Units(d);
      SumAndDifference(R, hi, lo);
      R.NegAdd(lo, R.Neg(hi));
      R.NegNeg(hi);
      R.AddComm(R.Neg(lo), hi);
      R.AddAssoc(hi, hi, R.Neg(lo));
    }
  }

  // -- Layers, on the rows of the matrix -----------------------------------------------------

  datatype Direction = Forward | Backward

  function Pair<T(!new)>(R: Ring<T>, d: Direction, i: nat, tw: T, hi: T, lo: T): (T, T) {
    if d.Forward? then Butterfly(R, i, tw, hi, lo) else Unbutterfly(R, i, tw, hi, lo)
  }

  /** The pair operation on two rows, column by column. */
  function UpperRow<T(!new)>(R: Ring<T>, d: Direction, i: nat, tw: T, hi: seq<T>, lo: seq<T>): (r: seq<T>)
    requires |hi| == |lo|
    ensures |r| == |hi|
  {
    seq(|hi|, c requires 0 <= c < |hi| => Pair(R, d, i, tw, hi[c], lo[c]).0)
  }

  function LowerRow<T(!new)>(R: Ring<T>, d: Direction, i: nat, tw: T, hi: seq<T>, lo: seq<T>): (r: seq<T>)
    requires |hi| == |lo|
    ensures |r| == |hi|
  {
    seq(|hi|, c requires 0 <= c < |hi| => Pair(R, d, i, tw, hi[c], lo[c]).1)
  }

  predicate Matrix<T>(rows: seq<seq<T>>, width: nat) {
    forall k {:trigger rows[k]} :: 0 <= k < |rows| ==> |rows[k]| == width
  }

  /** Blocks of 2m rows fill the matrix. */
  predicate Blocks(n: nat, m: nat) { m > 0 && n % (2 * m) == 0 }

  /** Row k of a block pairs with the row m further down or m further up. */
  lemma PairIndex(n: nat, m: nat, k: nat)
    requires Blocks(n, m) && k < n
    ensures if k % (2 * m) < m then k + m < n && (k + m) % (2 * m) == k % (2 * m) + m
            else k >= m && (k - m) % (2 * m) == k % (2 * m) - m
    ensures k - k % (2 * m) + 2 * m <= n
  {
    PairInBlock(n, m, 2 * m, k);
  }

  lemma PairInBlock(n: nat, m: nat, w: nat, k: nat)
    requires m > 0 && w == 2 * m && n % w == 0 && k < n
    ensures if k % w < m then k + m < n && (k + m) % w == k % w + m else k >= m && (k - m) % w == k % w - m
    ensures k - k % w + w <= n
  {
    BlockEnd(n, w, k);
    if k % w < m { StayInBlock(k, w, m); } else { StayInBlock(k, w, 0 - m); }
  }

  lemma BlockEnd(n: nat, w: nat, k: nat)
    requires w > 0 && n % w == 0 && k < n
    ensures k - k % w + w <= n && k >= k % w
  {
    var q, N := k / w, n / w;
    assert k == w * q + k % w && n == w * N;
    if q + 1 > N { MulLe(N, q, w); Commute(N, w); Commute(q, w); assert false; }
    MulLe(q + 1, N, w);
    Commute(N, w);
    Commute(q + 1, w);
    assert w * (q + 1) == w * q + w;
  }

  lemma StayInBlock(k: nat, w: nat, d: int)
    requires w > 0 && 0 <= k % w + d < w
    ensures (k + d) % w == k % w + d && k + d >= 0
  {
    DivModUnique(k + d, w, k / w, k % w + d);
    MulLe(0, k / w, w);
  }

  function LayerRow<T(!new)>(R: Ring<T>, d: Direction, tw: seq<T>, m: nat, rows: seq<seq<T>>, width: nat,
      k: nat): (r: seq<T>)
    requires Matrix(rows, width) && Blocks(|rows|, m) && |tw| == m && k < |rows|
    ensures |r| == width
  {
    PairIndex(|rows|, m, k);
    var i := k % (2 * m);
    if i < m then UpperRow(R, d, i, tw[i], rows[k], rows[k + m])
        else LowerRow(R, d, i - m, tw[i - m], rows[k - m], rows[k])
  }

  function Layer<T(!new)>(R: Ring<T>, d: Direction, tw: seq<T>, m: nat, rows: seq<seq<T>>, width: nat): (r: seq<seq<T>>)
    requires Matrix(rows, width) && Blocks(|rows|, m) && |tw| == m
    ensures |r| == |rows| && Matrix(r, width)
  {
    seq(|rows|, k requires 0 <= k < |rows| => LayerRow(R, d, tw, m, rows, width, k))
  }

  /** The two rows of a pair after a layer. */
  lemma LayerPair<T(!new)>(R: Ring<T>, d: Direction, tw: seq<T>, m: nat, rows: seq<seq<T>>, width: nat, h: nat, t: nat)
    requires Matrix(rows, width) && Blocks(|rows|, m) && |tw| == m && h + m < |rows| && t < m && h % (2 * m) == t
    ensures |rows[h]| == |rows[h + m]|
    ensures Layer(R, d, tw, m, rows, width)[h] == UpperRow(R, d, t, tw[t], rows[h], rows[h + m])
    ensures Layer(R, d, tw, m, rows, width)[h + m] == LowerRow(R, d, t, tw[t], rows[h], rows[h + m])
  {
    hide UpperRow, LowerRow;
    PairIndex(|rows|, m, h);
    assert Layer(R, d, tw, m, rows, width)[h] == LayerRow(R, d, tw, m, rows, width, h);
    assert Layer(R, d, tw, m, rows, width)[h + m] == LayerRow(R, d, tw, m, rows, width, h + m);
  }

  function Opposite(d: Direction): Direction { if d.Forward? then Backward else Forward }

  /** Twiddles that undo one another; the forward ones are not zero. */
  ghost predicate Mutual<T(!new)>(R: Ring<T>, d: Direction, tw: seq<T>, tw': seq<T>) {
    |tw| == |tw'| &&
    forall i {:trigger tw[i]} {:trigger tw'[i]} :: 0 <= i < |tw| ==>
      if d.Forward? then tw[i] != R.zero && tw'[i] == R.Inv(tw[i]) else tw'[i] != R.zero && tw[i] == R.Inv(tw'[i])
  }

  lemma PairUndoes<T(!new)>(R: Ring<T>, d: Direction, i: nat, tw: T, tw': T, hi: T, lo: T)
    requires Halvable(R) && (if d.Forward? then tw != R.zero && tw' == R.Inv(tw) else tw' != R.zero && tw == R.Inv(tw'))
    ensures var y := Pair(R, d, i, tw, hi, lo); Pair(R, Opposite(d), i, tw', y.0, y.1) == (hi, lo)
  {
    if d.Forward? { UnbutterflyUndoes(R, i, tw, hi, lo); } else { ButterflyUndoes(R, i, tw', hi, lo); }
  }

  lemma RowsUndo<T(!new)>(R: Ring<T>, d: Direction, i: nat, tw: T, tw': T, hi: seq<T>, lo: seq<T>)
    requires Halvable(R) && |hi| == |lo|
        && (if d.Forward? then tw != R.zero && tw' == R.Inv(tw) else tw' != R.zero && tw == R.Inv(tw'))
    ensures var a, b := UpperRow(R, d, i, tw, hi, lo), LowerRow(R, d, i, tw, hi, lo);
            UpperRow(R, Opposite(d), i, tw', a, b) == hi && LowerRow(R, Opposite(d), i, tw', a, b) == lo
  {
    hide Pair, Opposite, Halvable;
    var a, b := UpperRow(R, d, i, tw, hi, lo), LowerRow(R, d, i, tw, hi, lo);
    forall c | 0 <= c < |hi| ensures UpperRow(R, Opposite(d), i, tw', a, b)[c] == hi[c]
        && LowerRow(R, Opposite(d), i, tw', a, b)[c] == lo[c] {
      PairUndoes(R, d, i, tw, tw', hi[c], lo[c]);
    }
  }

  /** A layer followed by the opposite layer is the identity, in both orders. */
  lemma LayerUndoes<T(!new)>(R: Ring<T>, d: Direction, tw: seq<T>, tw': seq<T>, m: nat, rows: seq<seq<T>>, width: nat)
    requires Halvable(R) && Matrix(rows, width) && Blocks(|rows|, m) && |tw| == m && Mutual(R, d, tw, tw')
    ensures Layer(R, Opposite(d), tw', m, Layer(R, d, tw, m, rows, width), width) == rows
  {
    hide UpperRow, LowerRow, Opposite, Halvable, LayerRow, Layer;
    var once := Layer(R, d, tw, m, rows, width);
    var twice := Layer(R, Opposite(d), tw', m, once, width);
    forall k | 0 <= k < |rows| ensures twice[k] == rows[k] {
      PairIndex(|rows|, m, k);
      var i := k % (2 * m);
      var h, t := if i < m then k else k - m, if i < m then i else i - m;
      PairIndex(|rows|, m, h);
      LayerPair(R, d, tw, m, rows, width, h, t);
      LayerPair(R, Opposite(d), tw', m, once, width, h, t);
      RowsUndo(R, d, t, tw[t], tw'[t], rows[h], rows[h + m]);
    }
  }

  // -- The transforms ----------------------------------------------------------------------------

  /** omega squared t times. */
  function Squared<T(!new)>(R: Ring<T>, omega: T, t: nat): T {
    if t == 0 then omega else R.Mul(Squared(R, omega, t - 1), Squared(R, omega, t - 1))
  }

  /**
   * Layer idx of a table for 2^|table| rows holds the powers of omega^(2^idx), half as many as the blocks have rows.
   */
  ghost predicate IsRootTable<T(!new)>(R: Ring<T>, omega: T, table: seq<seq<T>>) {
    forall idx {:trigger table[idx]} :: 0 <= idx < |table| ==>
      |table[idx]| == Pow2(|table| - idx - 1) &&
      forall i {:trigger table[idx][i]} :: 0 <= i < |table[idx]| ==> table[idx][i] == R.Pow(Squared(R, omega, idx), i)
  }

  ghost predicate AreInverses<T(!new)>(R: Ring<T>, table: seq<seq<T>>, inv: seq<seq<T>>) {
    |inv| == |table| && forall idx {:trigger table[idx]} {:trigger inv[idx]} :: 0 <= idx < |table| ==>
        Mutual(R, Forward, table[idx], inv[idx])
  }

  predicate Sized<T>(table: seq<seq<T>>) {
    forall idx {:trigger table[idx]} :: 0 <= idx < |table| ==> |table[idx]| == Pow2(|table| - idx - 1)
  }

  lemma BlocksOf(L: nat, s: nat)
    requires 0 < s <= L
    ensures Blocks(Pow2(L), Pow2(s - 1))
  {
    Pow2Add(L - s, s);
    DivModUnique(Pow2(L), Pow2(s), Pow2(L - s), 0);
  }

  /** The layers with blocks of 2, 4, ..., 2^s rows. */
  function Dft<T(!new)>(R: Ring<T>, table: seq<seq<T>>, rows: seq<seq<T>>, width: nat, s: nat): (r: seq<seq<T>>)
    requires Sized(table) && |rows| == Pow2(|table|) && Matrix(rows, width) && s <= |table|
    ensures |r| == |rows| && Matrix(r, width)
  {
    if s == 0 then rows
    else
      BlocksOf(|table|, s);
      Layer(R, Forward, table[|table| - s], Pow2(s - 1), Dft(R, table, rows, width, s - 1), width)
  }

  /** The opposite layers with blocks of 2^s, ..., 4, 2 rows. */
  function Idft<T(!new)>(R: Ring<T>, inv: seq<seq<T>>, rows: seq<seq<T>>, width: nat, s: nat): (r: seq<seq<T>>)
    requires Sized(inv) && |rows| == Pow2(|inv|) && Matrix(rows, width) && s <= |inv|
    ensures |r| == |rows| && Matrix(r, width)
    decreases s
  {
    if s == 0 then rows
    else
      BlocksOf(|inv|, s);
      Idft(R, inv, Layer(R, Backward, inv[|inv| - s], Pow2(s - 1), rows, width), width, s - 1)
  }

  lemma InverseSized<T(!new)>(R: Ring<T>, table: seq<seq<T>>, inv: seq<seq<T>>)
    requires Sized(table) && AreInverses(R, table, inv)
    ensures Sized(inv)
  {
    forall idx {:trigger inv[idx]} | 0 <= idx < |inv| ensures |inv[idx]| == Pow2(|inv| - idx - 1) {
      assert Mutual(R, Forward, table[idx], inv[idx]);
    }
  }

  /** The inverse transform undoes the transform, for every size, width and matrix. */
  lemma {:induction false} IdftUndoesDft<T(!new)>(R: Ring<T>, table: seq<seq<T>>, inv: seq<seq<T>>, rows: seq<seq<T>>,
      width: nat, s: nat)
    requires Halvable(R) && Sized(table) && AreInverses(R, table, inv) && Sized(inv)
    requires |rows| == Pow2(|table|) && Matrix(rows, width) && s <= |table|
    ensures Idft(R, inv, Dft(R, table, rows, width, s), width, s) == rows
  {
    hide Halvable, Layer, Mutual;
    if s > 0 {
      var before := Dft(R, table, rows, width, s - 1);
      BlocksOf(|table|, s);
      assert Mutual(R, Forward, table[|table| - s], inv[|table| - s]);
      LayerUndoes(R, Forward, table[|table| - s], inv[|table| - s], Pow2(s - 1), before, width);
      IdftUndoesDft(R, table, inv, rows, width, s - 1);
    }
  }

  /** And the transform undoes the inverse transform. */
  lemma {:induction false} DftUndoesIdft<T(!new)>(R: Ring<T>, table: seq<seq<T>>, inv: seq<seq<T>>, rows: seq<seq<T>>,
      width: nat, s: nat)
    requires Halvable(R) && Sized(table) && AreInverses(R, table, inv) && Sized(inv)
    requires |rows| == Pow2(|table|) && Matrix(rows, width) && s <= |table|
    ensures Dft(R, table, Idft(R, inv, rows, width, s), width, s) == rows
    decreases s
  {
    hide Halvable, Layer, Mutual, Matrix;
    if s > 0 {
      BlocksOf(|table|, s);
      var tw, tw' := table[|table| - s], inv[|table| - s];
      assert Mutual(R, Forward, tw, tw');
      MutualBack(R, tw, tw');
      var after := Layer(R, Backward, tw', Pow2(s - 1), rows, width);
      LayerUndoes(R, Backward, tw', tw, Pow2(s - 1), rows, width);
      DftUndoesIdft(R, table, inv, after, width, s - 1);
    }
  }

  lemma MutualBack<T(!new)>(R: Ring<T>, tw: seq<T>, tw': seq<T>)
    requires Mutual(R, Forward, tw, tw')
    ensures Mutual(R, Backward, tw', tw)
  {
  }

  // -- What the outputs are --------------------------------------------------------------------------

  /** The extension of f(lo), ..., f(lo + 2^s - 1) at (z, z^2, z^4, ...). */
  function PowerMle<T(!new)>(R: Ring<T>, f: int -> T, lo: int, s: nat, z: T): T
    decreases s
  {
    if s == 0 then f(lo)
    else Mix(R, PowerMle(R, f, lo, s - 1, R.Mul(z, z)), PowerMle(R, f, lo + Pow2(s - 1), s - 1, R.Mul(z, z)), z)
  }

  function Squares<T(!new)>(R: Ring<T>, z: T, n: nat): (r: seq<T>)
    ensures |r| == n
  {
    if n == 0 then [] else [z] + Squares(R, R.Mul(z, z), n - 1)
  }

  lemma {:induction false} SquaresAt<T(!new)>(R: Ring<T>, z: T, n: nat, k: nat)
    requires k < n
    ensures Squares(R, z, n)[k] == Squared(R, z, k)
  {
    if k > 0 {
      SquaresAt(R, R.Mul(z, z), n - 1, k - 1);
      SquaredSquare(R, z, k - 1);
    }
  }

  lemma {:induction false} SquaredSquare<T(!new)>(R: Ring<T>, z: T, k: nat)
    ensures Squared(R, R.Mul(z, z), k) == Squared(R, z, k + 1)
  {
    if k > 0 { SquaredSquare(R, z, k - 1); }
  }

  lemma {:induction false} PowerMleIsMle<T(!new)>(R: Ring<T>, f: int -> T, lo: int, n: nat, z: T, k: nat)
    requires k <= n
    ensures MleFrom(R, f, lo, Squares(R, z, n), k) == PowerMle(R, f, lo, n - k, Squared(R, z, k))
    decreases n - k
  {
    hide Mix, Ring<T>.Mul, Squares;
    if k < n {
      SquaresAt(R, z, n, k);
      PowerMleIsMle(R, f, lo, n, z, k + 1);
      PowerMleIsMle(R, f, lo + Pow2(n - k - 1), n, z, k + 1);
    }
  }

  /** omega^(2^(L-1)) is -1, so the twiddles of the second half of a block are the negatives of the first half's. */
  ghost predicate IsEvenRoot<T(!new)>(R: Ring<T>, omega: T, L: nat) {
    R.IsRing() && (L > 0 ==> R.Pow(omega, Pow2(L - 1)) == R.Neg(R.one))
  }

  lemma {:induction false} SquaredIsPow<T(!new)>(R: Ring<T>, omega: T, t: nat, n: nat)
    requires R.IsRing()
    ensures n * Pow2(t) >= 0 && R.Pow(Squared(R, omega, t), n) == R.Pow(omega, n * Pow2(t))
    decreases t
  {
    hide Ring<T>.Mul;
    if t > 0 {
      var w := Squared(R, omega, t - 1);
      assert R.Pow(w, 2) == R.Mul(w, w) by {
        R.Units(w);
        assert R.Pow(w, 2) == R.Mul(w, R.Pow(w, 1));
        assert R.Pow(w, 1) == R.Mul(w, R.Pow(w, 0));
      }
      R.PowMul(w, 2, n);
      SquaredIsPow(R, omega, t - 1, 2 * n);
      assert n * Pow2(t) == 2 * n * Pow2(t - 1) by { MulAssoc(n, 2, Pow2(t - 1)); Commute(n, 2); }
    }
  }

  lemma HalfTurn<T(!new)>(R: Ring<T>, omega: T, L: nat, s: nat)
    requires IsEvenRoot(R, omega, L) && 0 < s <= L
    ensures R.Pow(Squared(R, omega, L - s), Pow2(s - 1)) == R.Neg(R.one)
  {
    SquaredIsPow(R, omega, L - s, Pow2(s - 1));
    Pow2Add(s - 1, L - s);
  }

  /** The point of position i in a block of 2^s rows, and its square. */
  lemma PointOfPair<T(!new)>(R: Ring<T>, omega: T, L: nat, s: nat, i: nat)
    requires IsEvenRoot(R, omega, L) && 0 < s <= L
    ensures var w, z := Squared(R, omega, L - s), R.Pow(Squared(R, omega, L - s), i);
            && R.Mul(z, z) == R.Pow(Squared(R, omega, L - s + 1), i)
            && R.Pow(w, i + Pow2(s - 1)) == R.Neg(z) && R.Mul(R.Neg(z), R.Neg(z)) == R.Mul(z, z)
  {
    hide Ring<T>.Mul, Ring<T>.Add, Ring<T>.Neg;
    var w, z := Squared(R, omega, L - s), R.Pow(Squared(R, omega, L - s), i);
    R.PowDistributes(w, w, i);
    HalfTurn(R, omega, L, s);
    R.PowAdd(w, i, Pow2(s - 1));
    R.MulNeg(z, R.one);
    R.Units(z);
    R.MulNeg(R.Neg(z), z);
    R.MulNeg(z, z);
    R.NegNeg(R.Mul(z, z));
  }

  /** Column c as a function of the row. */
  function Column<T(!new)>(R: Ring<T>, rows: seq<seq<T>>, c: nat): int -> T {
    (k: int) => if 0 <= k < |rows| && c < |rows[k]| then rows[k][c] else R.zero
  }

  /** The place of row k in its block of 2^s rows. */
  function Place(k: nat, s: nat): nat { k % Pow2(s) }

  /** A block of 2^s rows is two of 2^(s-1): the rows of a pair have the same place in theirs. */
  lemma PairPlaces(n: nat, L: nat, s: nat, k: nat)
    requires n == Pow2(L) && 0 < s <= L && k < n
    ensures var m, i := Pow2(s - 1), Place(k, s); var h, t := if i < m then k else k - m, if i < m then i else i - m;
            && h >= t && h + m < n && i < 2 * m && Place(h, s) == t && Place(h + m, s) == t + m
            && Place(h, s - 1) == t && Place(h + m, s - 1) == t && k >= i
  {
    var m := Pow2(s - 1);
    BlocksOf(L, s);
    PairIndex(n, m, k);
    BlockEnd(n, 2 * m, k);
    var i := Place(k, s);
    var h, t := if i < m then k else k - m, if i < m then i else i - m;
    PairIndex(n, m, h);
    BlockEnd(n, 2 * m, h);
    HalfIndex(h, m, t);
  }

  lemma HalfIndex(h: nat, m: nat, t: nat)
    requires m > 0 && h % (2 * m) == t < m
    ensures h % m == t && (h + m) % m == t
  {
    var q := h / (2 * m);
    assert h == 2 * m * q + t;
    assert 2 * m * q == m * (2 * q) by { MulAssoc(2, m, q); MulAssoc(m, 2, q); Commute(m, 2); }
    DivModUnique(h, m, 2 * q, t);
    assert h + m == m * (2 * q + 1) + t;
    DivModUnique(h + m, m, 2 * q + 1, t);
  }

  /** The two rows of a pair after the layer, in terms of the two rows before it. */
  lemma DftPair<T(!new)>(R: Ring<T>, table: seq<seq<T>>, rows: seq<seq<T>>, width: nat, s: nat, h: nat, t: nat, c: nat)
    requires Sized(table) && |rows| == Pow2(|table|) && Matrix(rows, width) && 0 < s <= |table| && c < width
    requires var m := Pow2(s - 1); t < m && h + m < |rows| && Place(h, s) == t && Place(h + m, s) == t + m
    ensures var m, before, after, tw := Pow2(s - 1), Dft(R, table, rows, width, s - 1), Dft(R, table, rows, width, s),
        table[|table| - s];
            |tw| == m && (after[h][c], after[h + m][c]) == Butterfly(R, t, tw[t], before[h][c], before[h + m][c])
  {
    hide Butterfly, Layer, LayerRow, Blocks, Place;
    var m := Pow2(s - 1);
    var before, after, tw := Dft(R, table, rows, width, s - 1), Dft(R, table, rows, width, s), table[|table| - s];
    BlocksOf(|table|, s);
    PlaceIs(h, s, m);
    LayerPair(R, Forward, tw, m, before, width, h, t);
  }

  lemma PlaceIs(k: nat, s: nat, m: nat)
    requires s > 0 && m == Pow2(s - 1)
    ensures Place(k, s) == k % (2 * m)
  {
  }

  /** One butterfly takes the extensions of the two halves at z^2 to that of the block at z and at -z. */
  lemma PairEvaluates<T(!new)>(R: Ring<T>, omega: T, L: nat, s: nat, f: int -> T, start: int, t: nat, tw: T, hi: T,
      lo: T)
    requires IsEvenRoot(R, omega, L) && 0 < s <= L && tw == R.Pow(Squared(R, omega, L - s), t)
    requires var z2 := R.Pow(Squared(R, omega, L - s + 1), t);
             hi == PowerMle(R, f, start, s - 1, z2) && lo == PowerMle(R, f, start + Pow2(s - 1), s - 1, z2)
    ensures var w := Squared(R, omega, L - s);
            Butterfly(R, t, tw, hi, lo)
                == (PowerMle(R, f, start, s, R.Pow(w, t)), PowerMle(R, f, start, s, R.Pow(w, t + Pow2(s - 1))))
  {
    hide Ring<T>.Mul, Ring<T>.Add, Ring<T>.Neg, Mix, Butterfly, Squared;
    ButterflyMixes(R, t, tw, hi, lo);
    PointOfPair(R, omega, L, s, t);
  }

  /**
   * After the layers up to blocks of 2^s rows, the row at place i
   * of its block holds the extension of the block at omega_s^i.
   */
  lemma {:induction false} StageEvaluates<T(!new)>(R: Ring<T>, omega: T, table: seq<seq<T>>, rows: seq<seq<T>>,
      width: nat, s: nat, k: nat, c: nat)
    requires IsEvenRoot(R, omega, |table|) && IsRootTable(R, omega, table) && Sized(table)
    requires |rows| == Pow2(|table|) && Matrix(rows, width) && s <= |table| && k < |rows| && c < width
    ensures Dft(R, table, rows, width, s)[k][c]
        == PowerMle(R, Column(R, rows, c), k - Place(k, s), s, R.Pow(Squared(R, omega, |table| - s), Place(k, s)))
    decreases s
  {
    hide Ring<T>.Mul, Ring<T>.Add, Ring<T>.Neg, Mix, PowerMle, Butterfly, Squared, Dft, Place;
    if s == 0 {
      NothingDone(R, omega, table, rows, width, k, c);
    } else {
      var L, m, i := |table|, Pow2(s - 1), Place(k, s);
      PairPlaces(|rows|, L, s, k);
      var h, t := if i < m then k else k - m, if i < m then i else i - m;
      StageEvaluates(R, omega, table, rows, width, s - 1, h, c);
      StageEvaluates(R, omega, table, rows, width, s - 1, h + m, c);
      var before, tw, f := Dft(R, table, rows, width, s - 1), table[L - s], Column(R, rows, c);
      DftPair(R, table, rows, width, s, h, t, c);
      assert tw[t] == R.Pow(Squared(R, omega, L - s), t);
      assert h + m - t == (h - t) + m;
      PairEvaluates(R, omega, L, s, f, h - t, t, tw[t], before[h][c], before[h + m][c]);
    }
  }

  lemma NothingDone<T(!new)>(R: Ring<T>, omega: T, table: seq<seq<T>>, rows: seq<seq<T>>, width: nat, k: nat, c: nat)
    requires Sized(table) && |rows| == Pow2(|table|) && Matrix(rows, width) && k < |rows| && c < width
    ensures Dft(R, table, rows, width, 0)[k][c]
        == PowerMle(R, Column(R, rows, c), k - Place(k, 0), 0, R.Pow(Squared(R, omega, |table|), Place(k, 0)))
  {
  }

  /** Output k of the transform is, in every column, the multilinear extension at (omega^k, omega^2k, omega^4k, ...). */
  lemma DftEvaluates<T(!new)>(R: Ring<T>, omega: T, table: seq<seq<T>>, rows: seq<seq<T>>, width: nat, k: nat, c: nat)
    requires IsEvenRoot(R, omega, |table|) && IsRootTable(R, omega, table) && Sized(table)
    requires |rows| == Pow2(|table|) && Matrix(rows, width) && k < |rows| && c < width
    ensures Dft(R, table, rows, width, |table|)[k][c]
        == Mle(R, Column(R, rows, c), Squares(R, R.Pow(omega, k), |table|))
  {
    hide PowerMle, Squares, Dft, MleFrom;
    StageEvaluates(R, omega, table, rows, width, |table|, k, c);
    DivModUnique(k, |rows|, 0, k);
    PowerMleIsMle(R, Column(R, rows, c), 0, |table|, R.Pow(omega, k), 0);
  }
}
