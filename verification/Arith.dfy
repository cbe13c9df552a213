/** Integer facts shared by the field construction and the index computations. */
module Arith {

  /** 2 to the power n. */
  function Pow2(n: nat): (r: nat)
    ensures r >= 1
  {
    if n == 0 then 1 else 2 * Pow2(n - 1)
  }

  /** a without its low n bits, and those bits. */
  function Above(a: nat, n: nat): nat {
    QuotientIsNat(a, Pow2(n));
    a / Pow2(n)
  }

  lemma QuotientIsNat(a: nat, d: nat) requires d > 0 ensures a / d >= 0 {}

  function Below(a: nat, n: nat): (r: nat)
    ensures r < Pow2(n)
  {
    a % Pow2(n)
  }

  /** A product the solver is not to look into. */
  function Times(a: nat, b: nat): nat { a * b }

  /** x followed by n zero bits. */
  function Shl(x: nat, n: nat): nat { Pow2(n) * x }

  lemma Commute(a: int, b: int) ensures a * b == b * a {}

  lemma Distribute(a: int, b: int, c: int) ensures (a + b) * c == a * c + b * c {}

  lemma PowZero() ensures Pow2(0) == 1 {}

  lemma PowerStep(k: nat) ensures Pow2(k + 1) == 2 * Pow2(k) {}

  lemma {:induction false} Pow2Add(m: nat, n: nat)
    ensures Pow2(m + n) == Pow2(m) * Pow2(n)
  {
    if m > 0 {
      Pow2Add(m - 1, n);
      assert m + n - 1 == (m - 1) + n;
      MulAssoc(2, Pow2(m - 1), Pow2(n));
    }
  }

  lemma {:induction false} Pow2Grows(m: nat, n: nat)
    requires m <= n
    ensures Pow2(m) <= Pow2(n)
  {
    if m < n {
      Pow2Grows(m, n - 1);
    }
  }

  lemma {:induction false} Pow2Strict(m: nat, n: nat)
    requires m < n
    ensures Pow2(m) < Pow2(n)
  {
    Pow2Grows(m, n - 1);
  }

  lemma MulAssoc(a: int, b: int, c: int)
    ensures a * b * c == a * (b * c)
  {
  }

  lemma MulLe(a: int, b: int, c: int)
    requires a <= b && 0 <= c
    ensures a * c <= b * c
  {
  }

  /** Quotient and remainder are determined by the division equation. */
  lemma DivModUnique(a: int, d: int, q: int, r: int)
    requires 0 <= r < d
    requires a == d * q + r
    ensures a / d == q && a % d == r
  {
    var q', r' := a / d, a % d;
    assert d * (q - q') == r' - r by {
      assert a == d * q' + r';
      Sub(d, q, q');
    }
    if q > q' {
      MulLe(1, q - q', d);
      assert false;
    } else if q < q' {
      MulLe(q - q', -1, d);
      assert false;
    }
  }

  lemma Sub(d: int, q: int, q': int)
    ensures d * (q - q') == d * q - d * q'
  {
  }

  lemma ModShift(a: int, k: int, d: int)
    requires d > 0
    ensures (a + k * d) % d == a % d
  {
    assert a + k * d == d * (a / d + k) + a % d;
    DivModUnique(a + k * d, d, a / d + k, a % d);
  }

  lemma ModMul(a: int, b: int, d: int)
    requires d > 0
    ensures ((a % d) * b) % d == (a * b) % d
    ensures (a * (b % d)) % d == (a * b) % d
  {
    assert a * b == (a % d) * b + (a / d * b) * d;
    ModShift((a % d) * b, a / d * b, d);
    assert a * b == a * (b % d) + (b / d * a) * d;
    ModShift(a * (b % d), b / d * a, d);
  }

  /** Every positive number is a power of two times an odd number. */
  lemma {:induction false} OddPart(t: nat) returns (v: nat, k: nat)
    requires t > 0
    ensures t == Pow2(v) * (2 * k + 1)
  {
    if t % 2 == 1 {
      v, k := 0, t / 2;
    } else {
      var v', k' := OddPart(t / 2);
      v, k := v' + 1, k';
      MulAssoc(2, Pow2(v'), 2 * k' + 1);
    }
  }

  function TrailingZeros(m: nat): (k: nat)
    requires m > 0
  {
    if m % 2 == 1 then 0 else 1 + TrailingZeros(m / 2)
  }

  lemma {:induction false} TrailingZerosOfPower(k: nat)
    ensures TrailingZeros(Pow2(k)) == k
  {
    if k > 0 { TrailingZerosOfPower(k - 1); }
  }

  /** Distinct numbers below d are at most d many. */
  lemma {:induction false} Pigeonhole(s: seq<nat>, d: nat)
    requires forall i :: 0 <= i < |s| ==> s[i] < d
    requires forall i, j :: 0 <= i < j < |s| ==> s[i] != s[j]
    ensures |s| <= d
  {
    if s == [] {
      return;
    }
    var first := s[0];
    if k :| 0 <= k < |s| && s[k] == d - 1 {
      var t := s[..k] + s[k + 1..];
      forall i | 0 <= i < |t| ensures t[i] < d - 1 {
        assert t[i] == if i < k then s[i] else s[i + 1];
      }
      Pigeonhole(t, d - 1);
    } else {
      Pigeonhole(s, d - 1);
    }
  }

  /** Bit i of n. */
  function Bit(n: nat, i: nat): nat { (n / Pow2(i)) % 2 }

  lemma SplitModulus(a: nat, p: nat, b: nat)
    requires p > 0 && b > 0
    ensures b * p > 0 && a % (b * p) == a % p + ((a / p) % b) * p
  {
    var q, r := a / p, a % p;
    var q2, e := q / b, q % b;
    MulLe(1, b, p);
    assert a == (b * p) * q2 + (r + e * p) by {
      assert a == p * q + r && q == b * q2 + e;
      SplitProduct(p, b, q2, e);
    }
    MulLe(e + 1, b, p);
    MulLe(0, e, p);
    DivModUnique(a, b * p, q2, r + e * p);
  }

  lemma SplitProduct(p: int, b: int, q2: int, e: int)
    ensures p * (b * q2 + e) == (b * p) * q2 + e * p
  {
  }

  /** The low bits of a number, one more at a time. */
  lemma LowBits(n: nat, i: nat)
    ensures n % Pow2(i + 1) == n % Pow2(i) + Bit(n, i) * Pow2(i)
  {
    SplitModulus(n, Pow2(i), 2);
  }

  lemma DivTwice(a: nat, p: nat)
    requires p > 0
    ensures (a / 2) / p == a / (2 * p)
  {
    var q, r := (a / 2) / p, (a / 2) % p;
    assert a / 2 == p * q + r;
    assert a == (2 * p) * q + (2 * r + a % 2) by { MulAssoc(2, p, q); }
    DivModUnique(a, 2 * p, q, 2 * r + a % 2);
  }

  lemma AboveBelow(a: nat, n: nat)
    ensures a == Below(a, n) + Above(a, n) * Pow2(n)
  {
  }

  /** Halving drops one more bit. */
  lemma AboveOnce(a: nat, n: nat)
    ensures Above(a / 2, n) == Above(a, n + 1) == Above(a, n) / 2
  {
    DivTwice(a, Pow2(n));
    DivOnce(a, Pow2(n));
  }

  lemma DivOnce(a: nat, p: nat)
    requires p > 0
    ensures (a / p) / 2 == a / (2 * p)
  {
    var q, r := a / p, a % p;
    assert a == p * q + r && q == 2 * (q / 2) + q % 2;
    assert p * q == (2 * p) * (q / 2) + p * (q % 2) by { SplitProduct(p, 2, q / 2, q % 2); }
    if q % 2 == 0 { DivModUnique(a, 2 * p, q / 2, r); } else { DivModUnique(a, 2 * p, q / 2, p + r); }
  }
}
