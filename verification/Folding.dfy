/** Folding a vector at one coordinate of its multilinear extension. */
module Folding {
  import opened Arith
  import opened Rings
  import opened Multilinear
  import opened Polynomials

  function At<T(!new)>(R: Ring<T>, data: seq<T>): int -> T { (j: int) => Coefficient(R, data, j) }

  /** lo + (hi - lo) * r */
  function FoldPair<T(!new)>(R: Ring<T>, lo: T, hi: T, r: T): T {
    R.Add(lo, R.Mul(R.Sub(hi, lo), r))
  }

  lemma FoldPairIsMix<T(!new)>(R: Ring<T>, lo: T, hi: T, r: T)
    requires R.IsRing()
    ensures FoldPair(R, lo, hi, r) == Mix(R, lo, hi, r)
  {
    hide Ring<T>.Add, Ring<T>.Mul, Ring<T>.Neg;
    MixSum(R, lo, hi, r);
    R.MulComm(R.Sub(hi, lo), r);
  }

  /** Neighbours: the lowest bit. */
  function FoldLsb<T(!new)>(R: Ring<T>, data: seq<T>, r: T): (out: seq<T>)
    ensures |out| == |data| / 2
  {
    seq(|data| / 2, j requires 0 <= j < |data| / 2 => FoldPair(R, data[2 * j], data[2 * j + 1], r))
  }

  /** First half against second half: the highest bit. */
  function FoldHalf<T(!new)>(R: Ring<T>, data: seq<T>, r: T): (out: seq<T>)
    ensures |out| == |data| / 2
  {
    seq(|data| / 2, j requires 0 <= j < |data| / 2 => FoldPair(R, data[j], data[j + |data| / 2], r))
  }

  /** j with a zero inserted at bit s. */
  function InsertZero(j: nat, s: nat): nat { (j / Pow2(s)) * (2 * Pow2(s)) + j % Pow2(s) }

  lemma InsertInRange(j: nat, s: nat, n: nat)
    requires s < n && j < Pow2(n - 1)
    ensures InsertZero(j, s) + Pow2(s) < Pow2(n)
  {
    Pow2Add(n - 1 - s, s);
    InsertBound(j, Pow2(s), Pow2(n - 1 - s));
  }

  lemma InsertBound(j: nat, p: nat, q: nat)
    requires p > 0 && j < q * p
    ensures (j / p) * (2 * p) + j % p + p < 2 * (q * p)
  {
    var t := j / p;
    assert j == p * t + j % p;
    if t >= q { MulLe(q, t, p); Commute(p, t); assert false; }
    MulLe(t + 1, q, 2 * p);
    Twice(q, p);
    Distribute(t, 1, 2 * p);
  }

  lemma Twice(q: int, p: int) ensures q * (2 * p) == 2 * (q * p) {}

  /** Entries that differ in bit s. */
  function FoldAtBit<T(!new)>(R: Ring<T>, data: seq<T>, r: T, s: nat, n: nat): (out: seq<T>)
    requires |data| == Pow2(n) && s < n
    ensures |out| == Pow2(n - 1)
  {
    seq(Pow2(n - 1), j requires 0 <= j < Pow2(n - 1) => InsertInRange(j, s, n);
        FoldPair(R, data[InsertZero(j, s)], data[InsertZero(j, s) + Pow2(s)], r))
  }

  lemma LsbIsBitZero<T(!new)>(R: Ring<T>, data: seq<T>, r: T, n: nat)
    requires |data| == Pow2(n) && n > 0
    ensures FoldLsb(R, data, r) == FoldAtBit(R, data, r, 0, n)
  {
    hide FoldPair;
    forall j | 0 <= j < Pow2(n - 1) ensures FoldLsb(R, data, r)[j] == FoldAtBit(R, data, r, 0, n)[j] {
      assert InsertZero(j, 0) == 2 * j;
    }
  }

  lemma HalfIsTopBit<T(!new)>(R: Ring<T>, data: seq<T>, r: T, n: nat)
    requires |data| == Pow2(n) && n > 0
    ensures FoldHalf(R, data, r) == FoldAtBit(R, data, r, n - 1, n)
  {
    hide FoldPair;
    forall j | 0 <= j < Pow2(n - 1) ensures FoldHalf(R, data, r)[j] == FoldAtBit(R, data, r, n - 1, n)[j] {
      DivModUnique(j, Pow2(n - 1), 0, j);
      assert InsertZero(j, n - 1) == j;
    }
  }

  // -- Folding evaluates the extension ----------------------------------------------------------

  lemma MixesCommute<T(!new)>(R: Ring<T>, a: T, b: T, c: T, d: T, p: T, r: T)
    requires R.IsRing()
    ensures Mix(R, Mix(R, a, b, p), Mix(R, c, d, p), r) == Mix(R, Mix(R, a, c, r), Mix(R, b, d, r), p)
  {
    hide Ring<T>.Add, Ring<T>.Mul, Ring<T>.Neg;
    var p', r' := R.Sub(R.one, p), R.Sub(R.one, r);
    R.Distribute(r', R.Mul(p', a), R.Mul(p, b));
    R.Distribute(r, R.Mul(p', c), R.Mul(p, d));
    R.Distribute(p', R.Mul(r', a), R.Mul(r, c));
    R.Distribute(p, R.Mul(r', b), R.Mul(r, d));
    Exchange(R, r', p', a);
    Exchange(R, r', p, b);
    Exchange(R, r, p', c);
    Exchange(R, r, p, d);
    R.AddSwap(R.Mul(r', R.Mul(p', a)), R.Mul(r', R.Mul(p, b)), R.Mul(r, R.Mul(p', c)), R.Mul(r, R.Mul(p, d)));
  }

  lemma Exchange<T(!new)>(R: Ring<T>, x: T, y: T, z: T)
    requires R.IsRing()
    ensures R.Mul(x, R.Mul(y, z)) == R.Mul(y, R.Mul(x, z))
  {
    hide Ring<T>.Mul;
    R.MulAssoc(x, y, z);
    R.MulAssoc(y, x, z);
    R.MulComm(x, y);
  }

  /** The extension is linear: mixing entry by entry mixes the extensions. */
  lemma {:induction false} MixOfExtensions<T(!new)>(R: Ring<T>, f: int -> T, g: int -> T, delta: int, d: int, r: T,
      lo: int, point: seq<T>, k: nat, point': seq<T>, k': nat)
    requires R.IsRing() && k <= |point| && k' <= |point'| && point[k..] == point'[k'..]
    requires forall i {:trigger g(i)} :: lo <= i < lo + Pow2(|point| - k) ==>
        g(i) == Mix(R, f(i + delta), f(i + delta + d), r)
    ensures MleFrom(R, g, lo, point', k')
        == Mix(R, MleFrom(R, f, lo + delta, point, k), MleFrom(R, f, lo + delta + d, point, k), r)
    decreases |point| - k
  {
    hide Ring<T>.Add, Ring<T>.Mul, Ring<T>.Neg, Mix;
    assert |point| - k == |point[k..]| == |point'[k'..]| == |point'| - k';
    if k < |point| {
      var half := Pow2(|point| - k - 1);
      assert point[k] == point[k..][0] && point'[k'] == point'[k'..][0];
      assert point[k + 1..] == point[k..][1..] && point'[k' + 1..] == point'[k'..][1..];
      MixOfExtensions(R, f, g, delta, d, r, lo, point, k + 1, point', k' + 1);
      MixOfExtensions(R, f, g, delta, d, r, lo + half, point, k + 1, point', k' + 1);
      assert lo + half + delta == lo + delta + half && lo + half + delta + d == lo + delta + d + half;
      MixesCommute(R, MleFrom(R, f, lo + delta, point, k + 1), MleFrom(R, f, lo + delta + d, point, k + 1),
                   MleFrom(R, f, lo + half + delta, point, k + 1), MleFrom(R, f, lo + half + delta + d, point, k + 1),
                       r, point[k]);
    }
  }

  /** The point without its coordinate for bit s. */
  function Without<T>(point: seq<T>, s: nat): (r: seq<T>)
    requires s < |point|
    ensures |r| == |point| - 1
  {
    point[..|point| - 1 - s] + point[|point| - s..]
  }

  lemma InsertAt(q: nat, s: nat, i: nat)
    requires q * Pow2(s) <= i < q * Pow2(s) + Pow2(s)
    ensures InsertZero(i, s) == i + q * Pow2(s)
  {
    var p := Pow2(s);
    Commute(p, q);
    DivModUnique(i, p, q, i - q * p);
    Twice(q, p);
  }

  lemma BlockInRange(q: nat, s: nat, n: nat)
    requires s < n && q < Pow2(n - 1 - s)
    ensures 0 <= q * Pow2(s) && q * Pow2(s) + Pow2(s) <= Pow2(n - 1)
  {
    Pow2Add(n - 1 - s, s);
    MulLe(q + 1, Pow2(n - 1 - s), Pow2(s));
    Distribute(q, 1, Pow2(s));
    MulLe(0, q, Pow2(s));
  }

  lemma FoldEntry<T(!new)>(R: Ring<T>, data: seq<T>, s: nat, n: nat, r: T, q: nat, i: nat)
    requires R.IsRing() && |data| == Pow2(n) && s < n && q < Pow2(n - 1 - s) && q * Pow2(s) <= i < q * Pow2(s) + Pow2(s)
    ensures var f, g, lo := At(R, data), At(R, FoldAtBit(R, data, r, s, n)), q * Pow2(s);
            g(i) == Mix(R, f(i + lo), f(i + lo + Pow2(s)), r)
  {
    hide Ring<T>.Add, Ring<T>.Mul, Ring<T>.Neg, Mix, FoldPair, InsertZero;
    BlockInRange(q, s, n);
    InsertAt(q, s, i);
    InsertInRange(i, s, n);
    var lo := q * Pow2(s);
    FoldPairIsMix(R, data[i + lo], data[i + lo + Pow2(s)], r);
  }

  /** Within the block that the coordinate splits, folding mixes the two halves. */
  lemma FoldBlock<T(!new)>(R: Ring<T>, data: seq<T>, s: nat, n: nat, point: seq<T>, q: nat)
    requires R.IsRing() && |data| == Pow2(n) && |point| == n && s < n && q < Pow2(n - 1 - s)
    ensures var c := n - 1 - s; var folded := FoldAtBit(R, data, point[c], s, n);
            MleFrom(R, At(R, data), 2 * (q * Pow2(s)), point, c)
                == MleFrom(R, At(R, folded), q * Pow2(s), Without(point, s), c)
  {
    hide Ring<T>.Add, Ring<T>.Mul, Ring<T>.Neg, Mix, FoldAtBit, At, MleFrom;
    var c := n - 1 - s;
    var f, g, lo := At(R, data), At(R, FoldAtBit(R, data, point[c], s, n)), q * Pow2(s);
    BlockInRange(q, s, n);
    forall i {:trigger g(i)} | lo <= i < lo + Pow2(s) ensures g(i) == Mix(R, f(i + lo), f(i + lo + Pow2(s)), point[c]) {
      FoldEntry(R, data, s, n, point[c], q, i);
    }
    assert point[c + 1..] == Without(point, s)[c..];
    MixOfExtensions(R, f, g, lo, Pow2(s), point[c], lo, point, c + 1, Without(point, s), c);
    MleUnfoldAt(R, f, lo + lo, point, c);
  }

  lemma MleUnfoldAt<T(!new)>(R: Ring<T>, f: int -> T, lo: int, point: seq<T>, k: nat)
    requires k < |point|
    ensures MleFrom(R, f, lo, point, k)
        == Mix(R, MleFrom(R, f, lo, point, k + 1), MleFrom(R, f, lo + Pow2(|point| - k - 1), point, k + 1), point[k])
  {
  }

  lemma TimesHalves(q: nat, h: nat)
    ensures Times(2 * q, h) == Times(q, 2 * h) && Times(2 * q + 1, h) == Times(q, 2 * h) + h
  {
    Twice(q, h);
    Distribute(2 * q, 1, h);
    Distribute(q, q, h);
  }

  lemma {:induction false} FoldFrom<T(!new)>(R: Ring<T>, data: seq<T>, s: nat, n: nat, point: seq<T>, q: nat, k: nat)
    requires R.IsRing() && |data| == Pow2(n) && |point| == n && s < n && k <= n - 1 - s && q < Pow2(k)
    ensures var folded := FoldAtBit(R, data, point[n - 1 - s], s, n);
            MleFrom(R, At(R, data), 2 * Times(q, Pow2(n - k - 1)), point, k)
                == MleFrom(R, At(R, folded), Times(q, Pow2(n - k - 1)), Without(point, s), k)
    decreases n - k
  {
    hide Ring<T>.Add, Ring<T>.Mul, Ring<T>.Neg, Mix, FoldAtBit, At, MleFrom;
    if k == n - 1 - s {
      FoldBlock(R, data, s, n, point, q);
    } else {
      hide Times, Pow2;
      var f, g := At(R, data), At(R, FoldAtBit(R, data, point[n - 1 - s], s, n));
      PowerStep(k);
      FoldFrom(R, data, s, n, point, 2 * q, k + 1);
      FoldFrom(R, data, s, n, point, 2 * q + 1, k + 1);
      HalvesMeet(R, f, g, point, Without(point, s), q, k);
    }
  }

  lemma HalvesMeet<T(!new)>(R: Ring<T>, f: int -> T, g: int -> T, point: seq<T>, point': seq<T>, q: nat, k: nat)
    requires |point| >= k + 2 && |point'| == |point| - 1 && point'[k] == point[k]
    requires var h := Pow2(|point| - k - 2);
             && MleFrom(R, f, 2 * Times(2 * q, h), point, k + 1) == MleFrom(R, g, Times(2 * q, h), point', k + 1)
             && MleFrom(R, f, 2 * Times(2 * q + 1, h), point, k + 1)
                 == MleFrom(R, g, Times(2 * q + 1, h), point', k + 1)
    ensures var h := Pow2(|point| - k - 1);
        MleFrom(R, f, 2 * Times(q, h), point, k) == MleFrom(R, g, Times(q, h), point', k)
  {
    hide Times, MleFrom, Mix, Pow2;
    var h := Pow2(|point| - k - 2);
    PowerStep(|point| - k - 2);
    TimesHalves(q, h);
    MleUnfoldAt(R, f, 2 * Times(q, 2 * h), point, k);
    MleUnfoldAt(R, g, Times(q, 2 * h), point', k);
  }

  /** Folding bit s at a coordinate leaves the extension in the remaining coordinates. */
  lemma FoldEvaluates<T(!new)>(R: Ring<T>, data: seq<T>, s: nat, n: nat, point: seq<T>)
    requires R.IsRing() && |data| == Pow2(n) && |point| == n && s < n
    ensures Mle(R, At(R, FoldAtBit(R, data, point[n - 1 - s], s, n)), Without(point, s)) == Mle(R, At(R, data), point)
  {
    hide FoldAtBit, MleFrom, At;
    FoldFrom(R, data, s, n, point, 0, 0);
  }

  /** The two common cases: the last coordinate for neighbours, the first for halves. */
  lemma FoldLsbEvaluates<T(!new)>(R: Ring<T>, data: seq<T>, n: nat, point: seq<T>)
    requires R.IsRing() && |data| == Pow2(n) && |point| == n && n > 0
    ensures Mle(R, At(R, FoldLsb(R, data, point[n - 1])), point[..n - 1]) == Mle(R, At(R, data), point)
  {
    hide FoldAtBit, MleFrom, FoldLsb, At;
    LsbIsBitZero(R, data, point[n - 1], n);
    FoldEvaluates(R, data, 0, n, point);
    assert Without(point, 0) == point[..n - 1];
  }

  lemma FoldHalfEvaluates<T(!new)>(R: Ring<T>, data: seq<T>, n: nat, point: seq<T>)
    requires R.IsRing() && |data| == Pow2(n) && |point| == n && n > 0
    ensures Mle(R, At(R, FoldHalf(R, data, point[0])), point[1..]) == Mle(R, At(R, data), point)
  {
    hide FoldAtBit, MleFrom, FoldHalf, At;
    HalfIsTopBit(R, data, point[0], n);
    FoldEvaluates(R, data, n - 1, n, point);
    assert Without(point, n - 1) == point[1..];
  }

  function Reversed<T>(s: seq<T>): (r: seq<T>)
    ensures |r| == |s|
  {
    seq(|s|, i requires 0 <= i < |s| => s[|s| - 1 - i])
  }

  /** Folds neighbours at each coordinate in turn: the first coordinate of the point belongs to the lowest bit. */
  method CpuMleEval<T(!new)>(R: Ring<T>, data: seq<T>, point: seq<T>) returns (value: T)
    requires R.IsRing() && |data| == Pow2(|point|)
    ensures value == Mle(R, At(R, data), Reversed(point))
  {
    hide FoldLsb, MleFrom, At;
    var current, round, logN := data, 0, |point|;
    assert Reversed(point)[..logN] == Reversed(point);
    while round < logN
      invariant 0 <= round <= logN && |current| == Pow2(logN - round)
      invariant Mle(R, At(R, current), Reversed(point)[..logN - round]) == Mle(R, At(R, data), Reversed(point))
    {
      ghost var rest := Reversed(point)[..logN - round];
      FoldLsbEvaluates(R, current, logN - round, rest);
      assert rest[..logN - round - 1] == Reversed(point)[..logN - round - 1];
      current := FoldLsb(R, current, point[round]);
      round := round + 1;
    }
    value := current[0];
    OneValue(R, current, Reversed(point)[..0]);
  }

  lemma OneValue<T(!new)>(R: Ring<T>, data: seq<T>, point: seq<T>)
    requires |data| == 1 && point == []
    ensures Mle(R, At(R, data), point) == data[0]
  {
  }
}
