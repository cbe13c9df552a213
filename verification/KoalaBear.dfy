/**
  The base field of the repository: integers modulo p = 2^31 - 2^24 + 1.

  The one fact about p that is not arithmetic is that it is prime. It is proved here from
  3^((p-1)/2) = -1 (Proth's criterion, p = 127 * 2^24 + 1), and the same computation shows
  that 3^((p-1) / 2^k) is a root of unity of exact order 2^k.
 */
module KoalaBear {
  import opened Arith
  import opened Rings

  const P: int := 0x7F00_0001

  const TWO_ADICITY: nat := 24

  /** A canonical representative. */
  type F = x: int | 0 <= x < 0x7F00_0001 witness 0

  function FAdd(a: F, b: F): F { (a + b) % P }

  function FNeg(a: F): F { (P - a) % P }

  function FSub(a: F, b: F): F { FAdd(a, FNeg(b)) }

  function FMul(a: F, b: F): F { (a * b) % P }

  // -- p is prime ------------------------------------------------------------

  function MulMod(x: int, y: int, d: nat): (r: int)
    requires d > 1
    ensures 0 <= r < d
  {
    (x * y) % d
  }

  lemma MulModAssoc(x: int, y: int, z: int, d: nat)
    requires d > 1
    ensures MulMod(MulMod(x, y, d), z, d) == MulMod(x, MulMod(y, z, d), d)
  {
    ModMul(x * y, z, d);
    ModMul(x, y * z, d);
    MulAssoc(x, y, z);
  }

  lemma MulModOne(x: int, d: nat)
    requires 0 <= x < d && d > 1
    ensures MulMod(1, x, d) == x && MulMod(x, 1, d) == x
  {
    DivModUnique(x, d, 0, x);
  }

  /** (-1) * (-1) and (-1) * 1 modulo d. */
  lemma MulModMinusOne(d: nat)
    requires d > 1
    ensures MulMod(d - 1, d - 1, d) == 1
  {
    assert (d - 1) * (d - 1) == d * (d - 2) + 1;
    DivModUnique((d - 1) * (d - 1), d, d - 2, 1);
  }

  /** x to the n modulo d. */
  function PowMod(x: int, n: nat, d: nat): (r: int)
    requires d > 1
    ensures 0 <= r < d
  {
    if n == 0 then 1 else MulMod(x, PowMod(x, n - 1, d), d)
  }

  lemma {:induction false} PowModAdd(x: int, m: nat, n: nat, d: nat)
    requires d > 1
    ensures PowMod(x, m + n, d) == MulMod(PowMod(x, m, d), PowMod(x, n, d), d)
  {
    if m == 0 {
      MulModOne(PowMod(x, n, d), d);
    } else {
      PowModAdd(x, m - 1, n, d);
      MulModAssoc(x, PowMod(x, m - 1, d), PowMod(x, n, d), d);
    }
  }

  lemma PowModDouble(x: int, n: nat, d: nat, v: int, w: int)
    requires d > 1
    requires PowMod(x, n, d) == v && (v * v) % d == w
    ensures PowMod(x, 2 * n, d) == w
  {
    PowModAdd(x, n, n, d);
  }

  /** v squared k times. */
  function Squares(v: int, k: nat): int
    decreases k
  {
    if k == 0 then v else Squares((v * v) % P, k - 1)
  }

  lemma SquaresUnfold(g: int, n: nat, k: nat)
    requires k > 0
    ensures Squares(PowMod(g, n, P), k) == Squares(PowMod(g, 2 * n, P), k - 1)
  {
    var v := PowMod(g, n, P);
    PowModDouble(g, n, P, v, (v * v) % P);
  }

  /** n doubled k times. */
  function Doubled(n: nat, k: nat): nat
    decreases k
  {
    if k == 0 then n else Doubled(2 * n, k - 1)
  }

  lemma {:induction false} DoubledIsMul(n: nat, k: nat)
    ensures Doubled(n, k) == n * Pow2(k)
    decreases k
  {
    if k > 0 {
      DoubledIsMul(2 * n, k - 1);
      MulAssoc(n, 2, Pow2(k - 1));
    }
  }

  lemma {:induction false} PowModSquares(g: int, n: nat, k: nat)
    ensures PowMod(g, Doubled(n, k), P) == Squares(PowMod(g, n, P), k)
    decreases k
  {
    if k > 0 {
      SquaresUnfold(g, n, k);
      PowModSquares(g, 2 * n, k - 1);
    }
  }

  lemma SquaresStep(v: int, w: int, k: nat)
    requires k > 0 && (v * v) % P == w
    ensures Squares(v, k) == Squares(w, k - 1)
  {
  }

  /** Squaring the root of unity of order 2^24 twenty-three times gives -1. */
  lemma SquareChain(k: nat)
    ensures Squares(1791270792, k + 23) == Squares(P - 1, k)
  {
    SquaresStep(1791270792, 1760025929, k + 23);
    SquaresStep(1760025929, 542991299, k + 22);
    SquaresStep(542991299, 1213133211, k + 21);
    SquaresStep(1213133211, 1364057261, k + 20);
    SquaresStep(1364057261, 339671193, k + 19);
    SquaresStep(339671193, 1816824389, k + 18);
    SquaresStep(1816824389, 373019801, k + 17);
    SquaresStep(373019801, 1848593786, k + 16);
    SquaresStep(1848593786, 1168510561, k + 15);
    SquaresStep(1168510561, 1047035213, k + 14);
    SquaresStep(1047035213, 809067698, k + 13);
    SquaresStep(809067698, 1989134074, k + 12);
    SquaresStep(1989134074, 2000983452, k + 11);
    SquaresStep(2000983452, 860702919, k + 10);
    SquaresStep(860702919, 665670555, k + 9);
    SquaresStep(665670555, 392596362, k + 8);
    SquaresStep(392596362, 699882112, k + 7);
    SquaresStep(699882112, 1548376985, k + 6);
    SquaresStep(1548376985, 170455089, k + 5);
    SquaresStep(170455089, 148625052, k + 4);
    SquaresStep(148625052, 1748172362, k + 3);
    SquaresStep(1748172362, 2113994754, k + 2);
    SquaresStep(2113994754, 2130706432, k + 1);
  }

  lemma ThreeChain(k: nat)
    ensures Squares(3, k + 7) == Squares(1112399510, k)
  {
    SquaresStep(3, 9, k + 7);
    SquaresStep(9, 81, k + 6);
    SquaresStep(81, 6561, k + 5);
    SquaresStep(6561, 43046721, k + 4);
    SquaresStep(43046721, 202438999, k + 3);
    SquaresStep(202438999, 1016389529, k + 2);
    SquaresStep(1016389529, 1112399510, k + 1);
  }

  lemma DivideByThree(r: int)
    requires 0 <= r < P && (3 * r) % P == 1112399510
    ensures r == 1791270792
  {
  }

  /** 3^127 is the root the recursion program uses, and 3^((p-1)/2) is -1. */
  lemma GeneratorHalf(g: int, m: nat, k: nat)
    requires g == 3 && m == 127 && k == 0
    ensures PowMod(g, m, P) == 1791270792
    ensures m * Pow2(k + 23) >= 0 && PowMod(g, m * Pow2(k + 23), P) == P - 1
  {
    MulModOne(3, P);
    assert PowMod(g, 0, P) == 1;
    assert PowMod(g, 1, P) == MulMod(g, PowMod(g, 0, P), P) == 3;
    ThreeChain(k);
    assert Doubled(1, k + 7) == 128 by {
      DoubledIsMul(1, k + 7);
      assert Pow2(7) == 128;
    }
    PowModSquares(g, 1, k + 7);
    DivideByThree(PowMod(g, m, P));
    SquareChain(k);
    PowModSquares(g, m, k + 23);
    DoubledIsMul(m, k + 23);
  }

  /** A divisor of the modulus sees the same powers. */
  lemma {:induction false} PowModReduce(x: int, n: nat, d: nat, m: nat)
    requires d > 1 && m > 1 && m % d == 0
    ensures PowMod(x, n, m) % d == PowMod(x, n, d)
  {
    if n == 0 {
      DivModUnique(1, d, 0, 1);
    } else {
      PowModReduce(x, n - 1, d, m);
      ReduceProduct(x, PowMod(x, n - 1, m), d, m);
    }
  }

  lemma ReduceProduct(x: int, y: int, d: nat, m: nat)
    requires d > 1 && m > 1 && m % d == 0
    ensures MulMod(x, y, m) % d == MulMod(x, y % d, d)
  {
    ReduceTwice(x * y, d, m);
    ModMul(x, y, d);
  }

  lemma ReduceTwice(a: int, d: nat, m: nat)
    requires d > 1 && m > 1 && m % d == 0
    ensures (a % m) % d == a % d
  {
    var q := m / d;
    assert m == q * d;
    assert a == (a / m) * m + a % m;
    MulAssoc(a / m, q, d);
    ModShift(a % m, a / m * q, d);
  }

  /** If x^n is 1 then so is every power of it. */
  lemma {:induction false} PowModOne(x: int, n: nat, k: nat, d: nat)
    requires d > 1 && PowMod(x, n, d) == 1
    ensures n * k >= 0 && PowMod(x, n * k, d) == 1
  {
    if k > 0 {
      PowModOne(x, n, k - 1, d);
      assert n * k == n + n * (k - 1);
      PowModAdd(x, n, n * (k - 1), d);
      MulModOne(1, d);
    }
  }

  lemma OddMultiple(n: nat, k: nat)
    ensures n * (2 * k + 1) >= 0 && (k == 0 ==> n * (2 * k + 1) == n)
    ensures k > 0 ==> n * (2 * (k - 1) + 1) >= 0 && n * (2 * k + 1) == n + (n + n * (2 * (k - 1) + 1))
  {
    MulLe(0, 2 * k + 1, n);
    Commute(n, 2 * k + 1);
    if k > 0 {
      MulLe(0, 2 * (k - 1) + 1, n);
      Commute(n, 2 * (k - 1) + 1);
      Distribute(2, 2 * (k - 1) + 1, n);
    }
  }

  /** If x^n is -1 then x^(n * odd) is -1. */
  lemma {:induction false} PowModMinusOne(x: int, n: nat, k: nat, d: nat)
    requires d > 1 && PowMod(x, n, d) == d - 1
    ensures n * (2 * k + 1) >= 0 && PowMod(x, n * (2 * k + 1), d) == d - 1
  {
    hide PowMod, MulMod;
    OddMultiple(n, k);
    if k > 0 {
      PowModMinusOne(x, n, k - 1, d);
      var rest := n * (2 * (k - 1) + 1);
      PowModAdd(x, n, rest, d);
      MulModMinusOne(d);
      PowModAdd(x, n, n + rest, d);
      MulModOne(d - 1, d);
    }
  }

  /** No exponent below 2^24 gives 1 when x^(2^23) is -1. */
  lemma OrderIsFull(x: int, t: nat, d: nat)
    requires d > 2
    requires PowMod(x, Pow2(23), d) == d - 1
    requires 0 < t < Pow2(24)
    ensures PowMod(x, t, d) != 1
  {
    if PowMod(x, t, d) == 1 {
      var v, k := OddPart(t);
      assert v < 24 by {
        MulLe(1, 2 * k + 1, Pow2(v));
        if v >= 24 { Pow2Grows(24, v); }
      }
      PowModOne(x, t, Pow2(23 - v), d);
      PowModMinusOne(x, Pow2(23), k, d);
      Pow2Add(v, 23 - v);
      Rearrange(Pow2(v), 2 * k + 1, Pow2(23 - v));
      assert false;
    }
  }

  lemma Rearrange(a: int, b: int, c: int)
    ensures a * b * c == (a * c) * b
  {
    MulAssoc(a, b, c);
    MulAssoc(a, c, b);
  }

  /** Cancelling x^i, when some power of x beyond i is 1. */
  lemma CancelPower(x: int, i: nat, t: nat, n: nat, d: nat)
    requires d > 1 && i <= n
    requires PowMod(x, n, d) == 1
    requires PowMod(x, i, d) == PowMod(x, i + t, d)
    ensures PowMod(x, t, d) == 1
  {
    PowModAdd(x, i, n - i, d);
    PowModAdd(x, i + t, n - i, d);
    PowModAdd(x, t, n, d);
    assert i + t + (n - i) == t + n && i + (n - i) == n;
    MulModOne(PowMod(x, t, d), d);
  }

  lemma FullPower(x: int, d: nat)
    requires d > 1 && PowMod(x, Pow2(23), d) == d - 1
    ensures PowMod(x, Pow2(24), d) == 1
  {
    PowModAdd(x, Pow2(23), Pow2(23), d);
    MulModMinusOne(d);
  }

  /** Residues of the first 2^24 powers are pairwise different. */
  lemma PowersDiffer(x: int, i: nat, j: nat, d: nat)
    requires d > 2
    requires PowMod(x, Pow2(23), d) == d - 1
    requires i < j < Pow2(24)
    ensures PowMod(x, i, d) != PowMod(x, j, d)
  {
    if PowMod(x, i, d) == PowMod(x, j, d) {
      FullPower(x, d);
      CancelPower(x, i, j - i, Pow2(24), d);
      OrderIsFull(x, j - i, d);
    }
  }

  /** p - 1 is -1 modulo every divisor of p. */
  lemma MinusOneReduces(d: nat)
    requires 1 < d && P % d == 0
    ensures (P - 1) % d == d - 1
  {
    var q := P / d;
    assert P == d * q;
    assert P - 1 == d * (q - 1) + (d - 1);
    DivModUnique(P - 1, d, q - 1, d - 1);
  }

  /** The residue 3^127 has order 2^24 modulo every proper divisor of p. */
  lemma RootModDivisor(d: nat, k: nat) returns (x: int)
    requires 1 < d && P % d == 0 && k == 0
    ensures PowMod(x, Pow2(k + 23), d) == d - 1
  {
    var g, m := 3, 127;
    GeneratorHalf(g, m, k);
    MinusOneReduces(d);
    PowModReduce(g, m * Pow2(k + 23), d, P);
    x := PowMod(g, m, d);
    PowModPow(g, m, Pow2(k + 23), d);
  }

  lemma PowersCount(x: int, d: nat, n: nat)
    requires d > 2 && n == Pow2(24)
    requires PowMod(x, Pow2(23), d) == d - 1
    ensures d >= n
  {
    var s: seq<nat> := seq(n, i requires i >= 0 => PowMod(x, i, d));
    forall i, j | 0 <= i < j < |s| ensures s[i] != s[j] {
      PowersDiffer(x, i, j, d);
    }
    Pigeonhole(s, d);
  }

  /** A divisor of p other than 1 is at least 2^24. */
  lemma DivisorIsLarge(d: nat)
    requires 1 < d && P % d == 0
    ensures d >= Pow2(24)
  {
    assert P % 2 == 1;
    var x := RootModDivisor(d, 0);
    PowersCount(x, d, Pow2(24));
  }

  lemma {:induction false} PowModPow(x: int, m: nat, n: nat, d: nat)
    requires d > 1
    ensures m * n >= 0 && PowMod(PowMod(x, m, d), n, d) == PowMod(x, m * n, d)
  {
    if n > 0 {
      PowModPow(x, m, n - 1, d);
      assert m * n == m + m * (n - 1);
      PowModAdd(x, m, m * (n - 1), d);
    }
  }

  /** p has no divisor strictly between 1 and p. */
  lemma PIsPrime(d: nat)
    requires 1 < d < P
    ensures P % d != 0
  {
    if P % d == 0 {
      var e := Cofactor(d);
      DivisorIsLarge(d);
      DivisorIsLarge(e);
      Pow2Of24();
      ProductTooLarge(d, e);
      assert false;
    }
  }

  lemma Pow2Of24()
    ensures Pow2(24) == 16777216
  {
    assert Pow2(12) == 4096;
    Pow2Add(12, 12);
  }

  lemma ProductTooLarge(d: int, e: int)
    requires d >= 16777216 && e >= 16777216
    ensures d * e != P
  {
    MulLe(16777216, d, e);
  }

  lemma Cofactor(d: nat) returns (e: nat)
    requires 1 < d < P && P % d == 0
    ensures 1 < e && P == d * e && P % e == 0
  {
    e := P / d;
    assert P == d * e;
    if e <= 1 { MulLe(e, 1, d); }
    DivModUnique(P, e, d, 0);
  }

  // -- the field -------------------------------------------------------------

  /** The inverse of a non-zero element; zero is sent to zero. */
  function FInv(a: F): (r: F)
    ensures if a == 0 then r == 0 else FMul(a, r) == 1
  {
    if a == 0 then 0
    else if a == 1 then 1
    else
      PIsPrime(a);
      var r := FInv(P % a);
      InverseStep(a, r);
      FMul(FNeg(P / a), r)
  }

  function FDiv(a: F, b: F): F { FMul(a, FInv(b)) }

  lemma InverseIdentity(p: int, a: int, q: int, m: int, r: int)
    requires p == a * q + m
    ensures a * ((p - q) * r) == m * r + (a * r - r) * p
  {
    MulAssoc(a, p - q, r);
    Distribute(p, -q, a);
    Commute(a, p - q);
    Commute(a, q);
    Distribute(p * a - p, m, r);
    Distribute(a, -1, p);
    Commute(a, p);
    MulAssoc(a - 1, p, r);
    Commute(p, r);
    MulAssoc(a - 1, r, p);
    Distribute(a, -1, r);
  }

  lemma InverseStep(a: F, r: F)
    requires 1 < a && P % a != 0 && FMul(P % a, r) == 1
    ensures 0 <= P / a < P && FMul(a, FMul(FNeg(P / a), r)) == 1
  {
    var q, m := P / a, P % a;
    assert P == a * q + m;
    assert 0 < q < P by {
      if q <= 0 { MulLe(q, 0, a); }
      MulLe(2, a, q);
    }
    InverseModulo(P, a, q, m, r);
  }

  lemma InverseModulo(p: int, a: int, q: int, m: int, r: int)
    requires p > 0 && p == a * q + m
    ensures (a * (((p - q) * r) % p)) % p == (m * r) % p
  {
    ModMul(a, (p - q) * r, p);
    InverseIdentity(p, a, q, m, r);
    ModShift(m * r, a * r - r, p);
  }

  ghost function KoalaBearRing(): Ring<F> {
    Ring(0, 1, imap p: (F, F) :: FAdd(p.0, p.1), imap a: F :: FNeg(a), imap p: (F, F) :: FMul(p.0, p.1),
        imap a: F :: FInv(a))
  }

  lemma AddLaws(a: F, b: F, c: F)
    ensures FAdd(a, b) == FAdd(b, a) && FAdd(FAdd(a, b), c) == FAdd(a, FAdd(b, c))
    ensures FAdd(a, 0) == a && FAdd(a, FNeg(a)) == 0
  {
  }

  lemma MulLaws(a: F, b: F, c: F)
    ensures FMul(a, b) == FMul(b, a) && FMul(FMul(a, b), c) == FMul(a, FMul(b, c))
    ensures FMul(a, 1) == a
  {
    ModMul(a * b, c, P);
    ModMul(a, b * c, P);
    MulAssoc(a, b, c);
  }

  lemma AddMod(x: int, y: int)
    ensures (x % P + y % P) % P == (x + y) % P
  {
  }

  lemma DistributeInt(a: int, b: int, c: int)
    ensures a * (b + c) == a * b + a * c
  {
  }

  lemma DistributiveLaw(a: F, b: F, c: F)
    ensures FMul(a, FAdd(b, c)) == FAdd(FMul(a, b), FMul(a, c))
  {
    ModMul(a, b + c, P);
    DistributeInt(a, b, c);
    AddMod(a * b, a * c);
  }

  lemma LawsHold(a: F, b: F, c: F)
    ensures KoalaBearRing().Laws(a, b, c)
  {
    AddLaws(a, b, c);
    MulLaws(a, b, c);
    DistributiveLaw(a, b, c);
  }

  /** KoalaBear is a field, so everything proved for rings and fields holds of it. */
  lemma IsAField()
    ensures KoalaBearRing().IsField()
  {
    var r := KoalaBearRing();
    forall a, b, c ensures r.Laws(a, b, c) {
      LawsHold(a, b, c);
    }
    forall a: F | a != r.zero ensures r.Mul(a, r.Inv(a)) == r.one {
      assert FMul(a, FInv(a)) == 1;
    }
  }

  // -- roots of unity --------------------------------------------------------

  /** (P - 1) >> logOrder */
  function OmegaExponent(logOrder: nat): (e: nat)
    requires logOrder <= TWO_ADICITY
    ensures e == 127 * Pow2(24 - logOrder)
  {
    ExponentIsExact(24 - logOrder, logOrder);
    (P - 1) / Pow2(logOrder)
  }

  lemma ExponentIsExact(k: nat, logOrder: nat)
    requires k + logOrder == 24
    ensures (P - 1) / Pow2(logOrder) == 127 * Pow2(k)
  {
    Pow2Add(k, logOrder);
    Pow2Of24();
    MulAssoc(127, Pow2(k), Pow2(logOrder));
    DivModUnique(P - 1, Pow2(logOrder), 127 * Pow2(k), 0);
  }

  /** The generator of the subgroup of order 2^logOrder: 3^((P-1) >> logOrder). */
  function GetOmega(logOrder: nat): F
    requires logOrder <= TWO_ADICITY
  {
    FPow(3, OmegaExponent(logOrder))
  }

  /** x to the n in the field. */
  function FPow(x: F, n: nat): F {
    if n == 0 then 1 else FMul(x, FPow(x, n - 1))
  }

  lemma {:induction false} PowIsFPow(x: F, n: nat)
    ensures KoalaBearRing().Pow(x, n) == FPow(x, n)
  {
    if n > 0 {
      PowIsFPow(x, n - 1);
      MulIs(x, FPow(x, n - 1));
    }
  }

  lemma MulIs(a: F, b: F)
    ensures KoalaBearRing().Mul(a, b) == FMul(a, b)
  {
  }

  lemma {:induction false} PowIsPowMod(x: F, n: nat)
    ensures KoalaBearRing().Pow(x, n) == PowMod(x, n, P)
  {
    if n > 0 {
      PowIsPowMod(x, n - 1);
    }
  }

  lemma ExponentTimes(logOrder: nat, j: nat, m: nat)
    requires logOrder <= TWO_ADICITY && m == 127
    ensures OmegaExponent(logOrder) * Pow2(j) == m * Pow2(24 - logOrder + j)
  {
    Pow2Add(24 - logOrder, j);
    MulAssoc(m, Pow2(24 - logOrder), Pow2(j));
  }

  lemma OmegaPow(g: F, logOrder: nat, j: nat, m: nat)
    requires g == 3 && m == 127 && logOrder <= TWO_ADICITY
    ensures m * Pow2(24 - logOrder + j) >= 0
    ensures KoalaBearRing().Pow(GetOmega(logOrder), Pow2(j)) == KoalaBearRing().Pow(g, m * Pow2(24 - logOrder + j))
  {
    IsAField();
    PowIsFPow(g, OmegaExponent(logOrder));
    KoalaBearRing().PowMul(g, OmegaExponent(logOrder), Pow2(j));
    ExponentTimes(logOrder, j, m);
  }

  lemma NegIs(a: F)
    ensures KoalaBearRing().Neg(a) == FNeg(a)
  {
  }

  lemma MinusOne(a: F)
    requires a == 1
    ensures KoalaBearRing().Neg(a) == P - 1
  {
    hide KoalaBearRing, Ring<F>.Neg;
    NegIs(a);
  }

  lemma OmegaHalfValue(logOrder: nat, j: nat)
    requires j < TWO_ADICITY && logOrder == j + 1
    ensures KoalaBearRing().Pow(GetOmega(logOrder), Pow2(j)) == P - 1
  {
    var g: F, m, k := 3, 127, 0;
    OmegaPow(g, logOrder, j, m);
    GeneratorMinusOne(g, m, k);
  }

  /** omega^(N/2) = -1 for the root of unity of every order N > 1. */
  lemma OmegaHalf(logOrder: nat)
    requires 0 < logOrder <= TWO_ADICITY
    ensures var R := KoalaBearRing(); R.Pow(GetOmega(logOrder), Pow2(logOrder - 1)) == R.Neg(R.one)
  {
    MinusOne(1);
    OmegaHalfValue(logOrder, logOrder - 1);
  }

  lemma GeneratorMinusOne(g: F, m: nat, k: nat)
    requires g == 3 && m == 127 && k == 0
    ensures KoalaBearRing().Pow(g, m * Pow2(k + 23)) == P - 1
  {
    PowIsPowMod(g, m * Pow2(k + 23));
    GeneratorHalf(g, m, k);
  }

  /** g^(2e) = 1 when g^e = -1. */
  lemma SquareOfMinusOne(x: F, e: nat)
    requires KoalaBearRing().Pow(x, e) == P - 1
    ensures KoalaBearRing().Pow(x, 2 * e) == 1
  {
    IsAField();
    KoalaBearRing().PowAdd(x, e, e);
    assert FMul(P - 1, P - 1) == 1;
  }

  lemma GeneratorOrder(g: F, m: nat, k: nat)
    requires g == 3 && m == 127 && k == 0
    ensures KoalaBearRing().Pow(g, m * Pow2(k + 24)) == 1
  {
    GeneratorMinusOne(g, m, k);
    SquareOfMinusOne(g, m * Pow2(k + 23));
    assert m * Pow2(k + 24) == 2 * (m * Pow2(k + 23));
  }

  /** omega^N = 1. */
  lemma OmegaOrder(logOrder: nat)
    requires logOrder <= TWO_ADICITY
    ensures var R := KoalaBearRing(); R.Pow(GetOmega(logOrder), Pow2(logOrder)) == R.one
  {
    OmegaPow(3, logOrder, logOrder, 127);
    GeneratorOrder(3, 127, 24 - logOrder + logOrder - 24);
  }
}
