/**
  The iterative radix-2 transform of the leanVM benchmarks: scale by powers of g, permute by
  bit reversal, then log N rounds of butterflies in place. The result at position k is the
  polynomial evaluated at g * omega^k.
 */
module CosetFft {
  import opened Arith
  import opened Rings
  import opened Polynomials
  import opened BitReversal

  /** The fields of CircuitParams the transforms and the syndrome read. */
  datatype CircuitParams<T> = CircuitParams(
    logN: nat, logTotal: nat, n: nat, nEval: nat,
    omega: T, g: T, gN: T, g1mn: T, omega1mn: T, twiddles: seq<T>)

  /** What the transform relies on; the constructor establishes it. */
  ghost predicate ValidParams<T(!new)>(R: Ring<T>, cp: CircuitParams<T>) {
    && cp.logN <= cp.logTotal
    && cp.n == Pow2(cp.logN) && cp.nEval == Pow2(cp.logTotal)
    && cp.n <= cp.nEval
    && |cp.twiddles| == cp.nEval / 2
    && (forall i {:trigger cp.twiddles[i]} :: 0 <= i < |cp.twiddles| ==> cp.twiddles[i] == R.Pow(cp.omega, i))
    && (cp.logTotal > 0 ==> R.Pow(cp.omega, Pow2(cp.logTotal - 1)) == R.Neg(R.one))
  }

  // -- what each element must be after each round ------------------------------

  /** omega^(2^e): the root of unity that round logTotal - e works with. */
  ghost function RootAt<T(!new)>(R: Ring<T>, omega: T, e: nat): T {
    R.Pow(omega, Pow2(e))
  }

  /**
    Place j of block b after s rounds on the coefficients x: the polynomial whose coefficients
    are x at the indices congruent to Rev(b) modulo 2^(L-s), evaluated at the j-th root.
   */
  ghost function BlockValue<T(!new)>(R: Ring<T>, omega: T, x: seq<T>, L: nat, s: nat, b: nat, j: nat): T
    requires s <= L
  {
    Strided(R, x, Rev(b, L - s), Pow2(L - s), Pow2(s), R.Pow(RootAt(R, omega, L - s), j))
  }

  /** The block of size 2^s that idx lies in, and its place there. */
  ghost function BlockOf(idx: nat, s: nat): nat
    decreases s
  {
    if s == 0 then idx else BlockOf(idx / 2, s - 1)
  }

  ghost function PlaceIn(idx: nat, s: nat): nat
    decreases s
  {
    if s == 0 then 0 else 2 * PlaceIn(idx / 2, s - 1) + idx % 2
  }

  lemma {:induction false} BlockAndPlace(s: nat, b: nat, j: nat, idx: nat)
    requires j < Pow2(s) && idx == Pow2(s) * b + j
    ensures BlockOf(idx, s) == b && PlaceIn(idx, s) == j
    decreases s
  {
    if s > 0 {
      MulAssoc(2, Pow2(s - 1), b);
      BlockAndPlace(s - 1, b, j / 2, idx / 2);
    }
  }

  /** With r the root of round s: r^2 is the root of round s-1 and r^(2^(s-1)) is -1. */
  lemma RootFacts<T(!new)>(R: Ring<T>, omega: T, L: nat, s: nat)
    requires R.IsRing() && 0 < s <= L
    requires R.Pow(omega, Pow2(L - 1)) == R.Neg(R.one)
    ensures var r := RootAt(R, omega, L - s);
            R.Mul(r, r) == RootAt(R, omega, L - s + 1) && R.Pow(r, Pow2(s - 1)) == R.Neg(R.one)
  {
    R.PowAdd(omega, Pow2(L - s), Pow2(L - s));
    R.PowMul(omega, Pow2(L - s), Pow2(s - 1));
    Pow2Add(L - s, s - 1);
  }

  /** The twiddle of the lower half is the negative of that of the upper half; the squares agree. */
  lemma TwiddleFacts<T(!new)>(R: Ring<T>, r: T, half: nat, j: nat)
    requires R.IsRing() && R.Pow(r, half) == R.Neg(R.one)
    ensures var y := R.Pow(r, j);
            && R.Mul(y, y) == R.Pow(R.Mul(r, r), j)
            && R.Pow(r, j + half) == R.Neg(y)
            && R.Mul(R.Neg(y), R.Neg(y)) == R.Mul(y, y)
  {
    var y := R.Pow(r, j);
    R.PowDistributes(r, r, j);
    R.PowAdd(r, j, half);
    R.MulNeg(y, R.one);
    R.Units(y);
    R.MulNeg(R.Neg(y), y);
    R.MulNeg(y, y);
    R.NegNeg(R.Mul(y, y));
  }

  lemma TwiddlePair<T(!new)>(R: Ring<T>, omega: T, L: nat, s: nat, j: nat)
    requires R.IsRing() && 0 < s <= L
    requires R.Pow(omega, Pow2(L - 1)) == R.Neg(R.one)
    ensures var r := RootAt(R, omega, L - s); var y := R.Pow(r, j);
            && R.Mul(y, y) == R.Pow(RootAt(R, omega, L - s + 1), j)
            && R.Pow(r, j + Pow2(s - 1)) == R.Neg(y)
            && R.Mul(R.Neg(y), R.Neg(y)) == R.Mul(y, y)
  {
    RootFacts(R, omega, L, s);
    TwiddleFacts(R, RootAt(R, omega, L - s), Pow2(s - 1), j);
  }

  /** One butterfly carries block b of round s from blocks 2b and 2b+1 of round s-1. */
  lemma ButterflyValue<T(!new)>(R: Ring<T>, omega: T, x: seq<T>, L: nat, s: nat, b: nat, j: nat)
    requires R.IsRing() && 0 < s <= L
    requires R.Pow(omega, Pow2(L - 1)) == R.Neg(R.one)
    ensures var u := BlockValue(R, omega, x, L, s - 1, 2 * b, j);
            var t := R.Mul(R.Pow(RootAt(R, omega, L - s), j), BlockValue(R, omega, x, L, s - 1, 2 * b + 1, j));
            && BlockValue(R, omega, x, L, s, b, j) == R.Add(u, t)
            && BlockValue(R, omega, x, L, s, b, j + Pow2(s - 1)) == R.Sub(u, t)
  {
    hide Ring<T>.Add, Ring<T>.Mul, Ring<T>.Neg, Ring<T>.Pow, Ring<T>.IsRing, RootAt, Strided;
    TwiddlePair(R, omega, L, s, j);
    PowerStep(s - 1);
    PowerStep(L - s);
    SplitBoth(R, x, Rev(b, L - s), Pow2(L - s), Pow2(s - 1), R.Pow(RootAt(R, omega, L - s), j));
    RevChildren(b, L - s);
  }

  lemma SplitBoth<T(!new)>(R: Ring<T>, x: seq<T>, start: nat, stride: nat, m: nat, y: T)
    requires R.IsRing() && R.Mul(R.Neg(y), R.Neg(y)) == R.Mul(y, y)
    ensures var u := Strided(R, x, start, 2 * stride, m, R.Mul(y, y));
            var t := R.Mul(y, Strided(R, x, start + stride, 2 * stride, m, R.Mul(y, y)));
            && Strided(R, x, start, stride, 2 * m, y) == R.Add(u, t)
            && Strided(R, x, start, stride, 2 * m, R.Neg(y)) == R.Sub(u, t)
  {
    EvenOddSplit(R, x, start, stride, m, y);
    EvenOddSplit(R, x, start, stride, m, R.Neg(y));
    var o := Strided(R, x, start + stride, 2 * stride, m, R.Mul(y, y));
    R.MulNeg(o, y);
    R.MulComm(y, o);
  }

  // -- rounds as relations between arrays ---------------------------------------

  /** Butterfly j of the block at k turns `prev` into `next`. */
  ghost predicate ButterflyAt<T(!new)>(R: Ring<T>, twiddles: seq<T>, prev: seq<T>, next: seq<T>, k: nat, half: nat,
      stride: nat, j: nat)
    requires |prev| == |next| && k + 2 * half <= |prev| && j < half
  {
    && 0 <= j * stride < |twiddles|
    && var t := R.Mul(twiddles[j * stride], prev[k + j + half]);
       next[k + j] == R.Add(prev[k + j], t) && next[k + j + half] == R.Sub(prev[k + j], t)
  }

  ghost predicate BlockStep<T(!new)>(R: Ring<T>, twiddles: seq<T>, prev: seq<T>, next: seq<T>, k: nat, half: nat,
      stride: nat)
    requires |prev| == |next| && k + 2 * half <= |prev|
  {
    forall j :: 0 <= j < half ==> ButterflyAt(R, twiddles, prev, next, k, half, stride, j)
  }

  /** k is where block b of size 2^s starts. */
  ghost predicate BlockStart(s: nat, b: nat, k: nat) { k == Pow2(s) * b }

  /** Round s turns `prev` into `next`. */
  ghost predicate IsRound<T(!new)>(R: Ring<T>, twiddles: seq<T>, prev: seq<T>, next: seq<T>, L: nat, s: nat)
    requires 0 < s <= L && |prev| == |next| == Pow2(L)
  {
    forall b: nat, k: nat {:trigger BlockStart(s, b, k)} :: BlockStart(s, b, k) && k + Pow2(s) <= Pow2(L) ==>
      BlockStep(R, twiddles, prev, next, k, Pow2(s - 1), Pow2(L - s))
  }

  /** The butterflies of one block, in place. */
  method BlockRound<T(!new)>(R: Ring<T>, twiddles: seq<T>, data: array<T>, k: nat, half: nat, stride: nat,
                             ghost prev: seq<T>, ghost next: seq<T>)
    requires k + 2 * half <= data.Length == |prev| == |next|
    requires BlockStep(R, twiddles, prev, next, k, half, stride)
    requires forall i :: k <= i < k + 2 * half ==> data[i] == prev[i]
    modifies data
    ensures forall i :: k <= i < k + 2 * half ==> data[i] == next[i]
    ensures forall i :: 0 <= i < k || k + 2 * half <= i < data.Length ==> data[i] == old(data[i])
  {
    for j := 0 to half
      invariant forall i :: 0 <= i < k || k + 2 * half <= i < data.Length ==> data[i] == old(data[i])
      invariant forall i :: k <= i < k + j || k + half <= i < k + half + j ==> data[i] == next[i]
      invariant forall i :: k + j <= i < k + half || k + half + j <= i < k + 2 * half ==> data[i] == prev[i]
    {
      assert ButterflyAt(R, twiddles, prev, next, k, half, stride, j);
      var u := data[k + j];
      var t := R.Mul(twiddles[j * stride], data[k + j + half]);
      data[k + j] := R.Add(u, t);
      data[k + j + half] := R.Sub(u, t);
    }
  }

  lemma TileBound(m: nat, b: nat, n: nat)
    ensures m * b < m * n ==> m * b + m <= m * n
    ensures m * (b + 1) == m * b + m
  {
    if b >= n {
      MulLe(n, b, m);
    } else {
      MulLe(b + 1, n, m);
    }
  }

  lemma StrideValue(L: nat, s: nat)
    requires s <= L
    ensures Pow2(L) == Pow2(s) * Pow2(L - s)
    ensures Pow2(L) / Pow2(s) == Pow2(L - s)
  {
    Pow2Add(s, L - s);
    DivModUnique(Pow2(L), Pow2(s), Pow2(L - s), 0);
  }

  /** One round of butterflies, in place, over all blocks of size 2^s. */
  method Round<T(!new)>(R: Ring<T>, twiddles: seq<T>, data: array<T>, nEval: nat, s: nat, ghost L: nat,
      ghost next: seq<T>)
    requires 0 < s <= L && nEval == Pow2(L) == data.Length == |next|
    requires IsRound(R, twiddles, data[..], next, L, s)
    modifies data
    ensures data[..] == next
  {
    var m := Pow2(s);
    var half := m / 2;
    StrideValue(L, s);
    var stride := nEval / m;
    var k := 0;
    ghost var b := 0;
    ghost var prev := data[..];
    while k < nEval
      invariant k == m * b && k <= nEval
      invariant forall i :: 0 <= i < k ==> data[i] == next[i]
      invariant forall i :: k <= i < nEval ==> data[i] == prev[i]
      decreases nEval - k
    {
      assert BlockStart(s, b, k);
      TileBound(m, b, stride);
      BlockRound(R, twiddles, data, k, half, stride, prev, next);
      k := k + m;
      b := b + 1;
    }
  }

  // -- the values of BlockValue are related by rounds ----------------------------

  /** Marks the index at which a stage is read, so that stages are expanded only there. */
  ghost predicate Index(i: int) { true }

  /** The array after s rounds. */
  ghost predicate IsStage<T(!new)>(R: Ring<T>, omega: T, x: seq<T>, L: nat, s: nat, a: seq<T>)
    requires s <= L
  {
    |a| == Pow2(L) && forall i {:trigger Index(i)} :: Index(i) && 0 <= i < |a| ==>
        a[i] == BlockValue(R, omega, x, L, s, BlockOf(i, s), PlaceIn(i, s))
  }

  lemma BuildStage<T(!new)>(R: Ring<T>, omega: T, x: seq<T>, L: nat, s: nat) returns (a: seq<T>)
    requires s <= L
    ensures IsStage(R, omega, x, L, s, a)
  {
    a := seq(Pow2(L), i requires 0 <= i => BlockValue(R, omega, x, L, s, BlockOf(i, s), PlaceIn(i, s)));
  }

  /** The two positions of butterfly j in block b, seen from round s and from round s-1. */
  lemma ButterflyPlaces(s: nat, b: nat, j: nat, k: nat, half: nat)
    requires s > 0 && half == Pow2(s - 1) && j < half && BlockStart(s, b, k)
    ensures BlockOf(k + j, s) == b && PlaceIn(k + j, s) == j
    ensures BlockOf(k + j + half, s) == b && PlaceIn(k + j + half, s) == j + half
    ensures BlockOf(k + j, s - 1) == 2 * b && PlaceIn(k + j, s - 1) == j
    ensures BlockOf(k + j + half, s - 1) == 2 * b + 1 && PlaceIn(k + j + half, s - 1) == j
  {
    BlockAndPlace(s, b, j, k + j);
    BlockAndPlace(s, b, j + half, k + j + half);
    assert k == half * (2 * b) by { MulAssoc(half, 2, b); }
    BlockAndPlace(s - 1, 2 * b, j, k + j);
    assert k + half == half * (2 * b + 1);
    BlockAndPlace(s - 1, 2 * b + 1, j, k + j + half);
  }

  lemma StageButterfly<T(!new)>(R: Ring<T>, omega: T, x: seq<T>, L: nat, s: nat, b: nat, k: nat, half: nat, j: nat,
      prev: seq<T>, next: seq<T>)
    requires R.IsRing() && 0 < s <= L && half == Pow2(s - 1) && j < half
    requires R.Pow(omega, Pow2(L - 1)) == R.Neg(R.one)
    requires BlockStart(s, b, k) && k + 2 * half <= Pow2(L)
    requires IsStage(R, omega, x, L, s - 1, prev) && IsStage(R, omega, x, L, s, next)
    ensures var t := R.Mul(R.Pow(RootAt(R, omega, L - s), j), prev[k + j + half]);
            next[k + j] == R.Add(prev[k + j], t) && next[k + j + half] == R.Sub(prev[k + j], t)
  {
    assert Index(k + j) && Index(k + j + half);
    ButterflyPlaces(s, b, j, k, half);
    ButterflyValue(R, omega, x, L, s, b, j);
  }

  lemma StrideBound(L: nat, s: nat, j: nat)
    requires 0 < s <= L && j < Pow2(s - 1)
    ensures 0 <= j * Pow2(L - s) < Pow2(L) / 2
  {
    Pow2Add(s - 1, L - s);
    assert Pow2(L) == 2 * Pow2(L - 1);
    MulLe(j + 1, Pow2(s - 1), Pow2(L - s));
  }

  /** Entry j * stride of the table is the twiddle butterfly j of round s needs. */
  lemma TwiddleIndex<T(!new)>(R: Ring<T>, cp: CircuitParams<T>, s: nat, j: nat)
    requires R.IsRing() && ValidParams(R, cp)
    requires 0 < s <= cp.logTotal && j < Pow2(s - 1)
    ensures 0 <= j * Pow2(cp.logTotal - s) < |cp.twiddles|
    ensures cp.twiddles[j * Pow2(cp.logTotal - s)] == R.Pow(RootAt(R, cp.omega, cp.logTotal - s), j)
  {
    StrideBound(cp.logTotal, s, j);
    R.PowMul(cp.omega, Pow2(cp.logTotal - s), j);
  }

  lemma ButterflyHolds<T(!new)>(R: Ring<T>, cp: CircuitParams<T>, x: seq<T>, s: nat, b: nat, k: nat, j: nat,
      prev: seq<T>, next: seq<T>)
    requires R.IsRing() && ValidParams(R, cp)
    requires 0 < s <= cp.logTotal && j < Pow2(s - 1)
    requires BlockStart(s, b, k) && k + 2 * Pow2(s - 1) <= Pow2(cp.logTotal)
    requires IsStage(R, cp.omega, x, cp.logTotal, s - 1, prev) && IsStage(R, cp.omega, x, cp.logTotal, s, next)
    ensures ButterflyAt(R, cp.twiddles, prev, next, k, Pow2(s - 1), Pow2(cp.logTotal - s), j)
  {
    StageButterfly(R, cp.omega, x, cp.logTotal, s, b, k, Pow2(s - 1), j, prev, next);
    TwiddleIndex(R, cp, s, j);
  }

  lemma StagesAreRounds<T(!new)>(R: Ring<T>, cp: CircuitParams<T>, x: seq<T>, s: nat, prev: seq<T>, next: seq<T>)
    requires R.IsRing() && ValidParams(R, cp) && 0 < s <= cp.logTotal
    requires IsStage(R, cp.omega, x, cp.logTotal, s - 1, prev) && IsStage(R, cp.omega, x, cp.logTotal, s, next)
    ensures IsRound(R, cp.twiddles, prev, next, cp.logTotal, s)
  {
    var half, stride := Pow2(s - 1), Pow2(cp.logTotal - s);
    forall b: nat, k: nat {:trigger BlockStart(s, b, k)} | BlockStart(s, b, k) && k + Pow2(s) <= Pow2(cp.logTotal)
      ensures BlockStep(R, cp.twiddles, prev, next, k, half, stride)
    {
      forall j | 0 <= j < half
        ensures ButterflyAt(R, cp.twiddles, prev, next, k, half, stride, j)
      {
        ButterflyHolds(R, cp, x, s, b, k, j, prev, next);
      }
    }
  }

  /** Before any round the array is the bit-reversed coefficient vector. */
  lemma StageZero<T(!new)>(R: Ring<T>, omega: T, x: seq<T>, L: nat, a: seq<T>)
    requires R.IsRing() && |x| == |a| == Pow2(L) && Reversed(x, a, L)
    ensures IsStage(R, omega, x, L, 0, a)
  {
    forall i | 0 <= i < |a| ensures a[i] == BlockValue(R, omega, x, L, 0, BlockOf(i, 0), PlaceIn(i, 0)) {
      var y := R.Pow(RootAt(R, omega, L), 0);
      assert Strided(R, x, Rev(i, L), Pow2(L), 1, y) == R.Add(x[Rev(i, L)], R.Mul(y, R.zero));
      R.MulZero(y);
      R.Units(a[i]);
    }
  }

  /** After the last round it is the plain transform. */
  lemma StageLast<T(!new)>(R: Ring<T>, omega: T, x: seq<T>, L: nat, a: seq<T>, i: nat)
    requires R.IsRing() && |x| == Pow2(L) && i < Pow2(L) && IsStage(R, omega, x, L, L, a)
    ensures a[i] == PolyEval(R, x, R.Pow(omega, i))
  {
    assert Index(i);
    BlockAndPlace(L, 0, i, i);
    assert RootAt(R, omega, 0) == R.Mul(omega, R.Pow(omega, 0));
    R.Units(omega);
  }

  // -- the whole transform ---------------------------------------------------------

  method ZeroArray<T>(zero: T, n: nat) returns (data: array<T>)
    ensures fresh(data) && data.Length == n
    ensures forall t :: 0 <= t < n ==> data[t] == zero
  {
    data := new T[n](_ => zero);
  }

  /** The first loop: coefficient i times g^i into the zeroed buffer. */
  method LoadCoefficients<T(!new)>(R: Ring<T>, g: T, n: nat, coeffs: seq<T>, data: array<T>)
    requires R.IsRing() && n <= |coeffs| && n <= data.Length
    modifies data
    ensures forall t {:trigger data[t]} :: 0 <= t < n ==> data[t] == R.Mul(coeffs[t], R.Pow(g, t))
    ensures forall t :: n <= t < data.Length ==> data[t] == old(data[t])
  {
    var gPow := R.one;
    for i := 0 to n
      invariant gPow == R.Pow(g, i)
      invariant forall t {:trigger data[t]} :: 0 <= t < i ==> data[t] == R.Mul(coeffs[t], R.Pow(g, t))
      invariant forall t :: n <= t < data.Length ==> data[t] == old(data[t])
    {
      data[i] := R.Mul(coeffs[i], gPow);
      R.MulComm(gPow, g);
      gPow := R.Mul(gPow, g);
    }
  }

  method PermuteToStage<T(!new)>(R: Ring<T>, cp: CircuitParams<T>, data: array<T>)
    requires R.IsRing() && ValidParams(R, cp) && data.Length == cp.nEval
    modifies data
    ensures IsStage(R, cp.omega, old(data[..]), cp.logTotal, 0, data[..])
  {
    ghost var x := data[..];
    BitReversePermute(data, cp.logTotal);
    StageZero(R, cp.omega, x, cp.logTotal, data[..]);
  }

  method RoundToStage<T(!new)>(R: Ring<T>, cp: CircuitParams<T>, data: array<T>, s: nat, ghost x: seq<T>)
    requires R.IsRing() && ValidParams(R, cp) && data.Length == cp.nEval
    requires 0 < s <= cp.logTotal && IsStage(R, cp.omega, x, cp.logTotal, s - 1, data[..])
    modifies data
    ensures IsStage(R, cp.omega, x, cp.logTotal, s, data[..])
  {
    ghost var next := BuildStage(R, cp.omega, x, cp.logTotal, s);
    StagesAreRounds(R, cp, x, s, data[..], next);
    Round(R, cp.twiddles, data, cp.nEval, s, cp.logTotal, next);
  }

  /** Permutation and rounds, in place. */
  method Transform<T(!new)>(R: Ring<T>, cp: CircuitParams<T>, data: array<T>)
    requires R.IsRing() && ValidParams(R, cp) && data.Length == cp.nEval
    modifies data
    ensures IsStage(R, cp.omega, old(data[..]), cp.logTotal, cp.logTotal, data[..])
  {
    ghost var x := data[..];
    PermuteToStage(R, cp, data);
    for s := 1 to cp.logTotal + 1
      invariant IsStage(R, cp.omega, x, cp.logTotal, s - 1, data[..])
    {
      RoundToStage(R, cp, data, s, x);
    }
  }

  /** evals[k] is the polynomial at g * omega^k. */
  ghost predicate IsCosetEvaluation<T(!new)>(R: Ring<T>, g: T, omega: T, coeffs: seq<T>, evals: seq<T>) {
    forall k {:trigger evals[k]} :: 0 <= k < |evals| ==> evals[k] == PolyEval(R, coeffs, R.Mul(g, R.Pow(omega, k)))
  }

  /** reference_coset_fft. */
  method ReferenceCosetFft<T(!new)>(R: Ring<T>, cp: CircuitParams<T>, coeffs: seq<T>) returns (evals: seq<T>)
    requires R.IsRing() && ValidParams(R, cp)
    requires cp.n <= |coeffs|
    ensures |evals| == cp.nEval
    ensures IsCosetEvaluation(R, cp.g, cp.omega, coeffs[..cp.n], evals)
  {
    var data := ZeroArray(R.zero, cp.nEval);
    LoadCoefficients(R, cp.g, cp.n, coeffs, data);
    ghost var x := data[..];
    Transform(R, cp, data);
    evals := data[..];
    StageIsEvaluation(R, cp.g, cp.omega, cp.logTotal, coeffs[..cp.n], x, evals);
  }

  lemma StageIsEvaluation<T(!new)>(R: Ring<T>, g: T, omega: T, L: nat, c: seq<T>, x: seq<T>, evals: seq<T>)
    requires R.IsRing() && |c| <= |x| == Pow2(L)
    requires forall t {:trigger x[t]} :: 0 <= t < |c| ==> x[t] == R.Mul(c[t], R.Pow(g, t))
    requires forall t :: |c| <= t < |x| ==> x[t] == R.zero
    requires IsStage(R, omega, x, L, L, evals)
    ensures IsCosetEvaluation(R, g, omega, c, evals)
  {
    forall k | 0 <= k < |evals|
      ensures evals[k] == PolyEval(R, c, R.Mul(g, R.Pow(omega, k)))
    {
      StageLast(R, omega, x, L, evals, k);
      ScaledEval(R, c, x, g, R.Pow(omega, k), 0);
      R.Units(PolyEval(R, c, R.Mul(g, R.Pow(omega, k))));
    }
  }
}
