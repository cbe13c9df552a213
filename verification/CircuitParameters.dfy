/** CircuitParams::new over KoalaBear: the tables and constants meet what the algorithms rely on. */
module CircuitParameters {
  import opened Arith
  import opened Rings
  import opened KoalaBear
  import opened RootsOfUnity
  import opened CosetFft
  import opened Syndrome

  /** The root the constructor picks generates a group of order exactly 2^logOrder. */
  lemma OmegaIsRoot(logOrder: nat)
    requires logOrder <= TWO_ADICITY
    ensures IsRoot(KoalaBearRing(), GetOmega(logOrder), logOrder)
  {
    var R := KoalaBearRing();
    IsAField();
    MinusOne(1);
    if logOrder == 0 {
      OmegaOrder(0);
      var w := GetOmega(0);
      assert R.Pow(w, 1) == R.Mul(w, R.Pow(w, 0));
      R.Units(w);
    } else {
      OmegaHalf(logOrder);
    }
  }

  /** It is the power of three the definition names. */
  lemma OmegaIsPower(logOrder: nat)
    requires logOrder <= TWO_ADICITY
    ensures 0 <= (P - 1) / Pow2(logOrder) && GetOmega(logOrder) == KoalaBearRing().Pow(3, (P - 1) / Pow2(logOrder))
  {
    hide Pow2, FPow, KoalaBearRing;
    PowIsFPow(3, OmegaExponent(logOrder));
  }

  /** 3^(p-1) = 1. */
  lemma GeneratorFermat(g: F)
    requires g == 3
    ensures KoalaBearRing().Pow(g, P - 1) == 1
  {
    GeneratorOrder(g, 127, 0);
    Pow2Of24();
  }

  lemma OmegaFermat(logOrder: nat)
    requires logOrder <= TWO_ADICITY
    ensures KoalaBearRing().Pow(GetOmega(logOrder), P - 1) == 1
  {
    var R := KoalaBearRing();
    IsAField();
    OmegaOrder(logOrder);
    ExponentIsExact(24 - logOrder, logOrder);
    var q := 127 * Pow2(24 - logOrder);
    R.PowMul(GetOmega(logOrder), Pow2(logOrder), q);
    R.PowOne(q);
    ExponentProduct(logOrder, q);
  }

  lemma ExponentProduct(logOrder: nat, q: nat)
    requires logOrder <= TWO_ADICITY && q == 127 * Pow2(24 - logOrder)
    ensures Pow2(logOrder) * q == P - 1
  {
    hide Pow2;
    Pow2Add(24 - logOrder, logOrder);
    Pow2Of24();
    Commute(Pow2(logOrder), q);
    MulAssoc(127, Pow2(24 - logOrder), Pow2(logOrder));
  }

  /** x^(p-1-(n-1)) is the inverse of x^(n-1) when x^(p-1) = 1. */
  lemma NegativePower(x: F, k: nat)
    requires k <= P - 1 && KoalaBearRing().Pow(x, P - 1) == 1
    ensures KoalaBearRing().Mul(FPow(x, P - 1 - k), KoalaBearRing().Pow(x, k)) == 1
  {
    IsAField();
    PowIsFPow(x, P - 1 - k);
    KoalaBearRing().PowAdd(x, P - 1 - k, k);
  }

  method TwiddleTable(omega: F, size: nat) returns (twiddles: seq<F>)
    ensures |twiddles| == size
    ensures forall i {:trigger twiddles[i]} :: 0 <= i < size ==> twiddles[i] == FPow(omega, i)
  {
    twiddles := [];
    var acc: F := 1;
    for i := 0 to size
      invariant |twiddles| == i && acc == FPow(omega, i)
      invariant forall j {:trigger twiddles[j]} :: 0 <= j < i ==> twiddles[j] == FPow(omega, j)
    {
      twiddles := twiddles + [acc];
      MulLaws(acc, omega, omega);
      acc := FMul(acc, omega);
    }
  }

  lemma Sizes(logN: nat, logTotal: nat)
    requires logN <= logTotal <= TWO_ADICITY
    ensures Pow2(logN) <= Pow2(logTotal) <= P
  {
    Pow2Grows(logN, logTotal);
    Pow2Grows(logTotal, 24);
    Pow2Of24();
  }

  /** The constants of the syndrome, whatever the blowup. */
  ghost predicate HasConstants(R: Ring<F>, cp: CircuitParams<F>) {
    && cp.g == 3 && cp.n >= 1 && cp.logTotal <= TWO_ADICITY && cp.omega == GetOmega(cp.logTotal)
    && cp.gN == R.Pow(3, cp.n)
    && R.Mul(cp.g1mn, R.Pow(3, cp.n - 1)) == 1 && R.Mul(cp.omega1mn, R.Pow(cp.omega, cp.n - 1)) == 1
  }

  method NewCircuitParams(logN: nat, logBlowup: nat) returns (cp: CircuitParams<F>)
    requires logN + logBlowup <= TWO_ADICITY
    ensures cp.logN == logN && cp.logTotal == logN + logBlowup && HasConstants(KoalaBearRing(), cp)
    ensures ValidParams(KoalaBearRing(), cp)
    ensures logBlowup == 1 ==> SyndromeParams(KoalaBearRing(), cp)
  {
    hide Pow2, FPow, KoalaBearRing, GetOmega, IsRoot, HasConstants, ValidParams, SyndromeParams;
    var logTotal := logN + logBlowup;
    var n, nEval := Pow2(logN), Pow2(logTotal);
    Sizes(logN, logTotal);
    var omega := GetOmega(logTotal);
    var g: F := 3;
    var twiddles := TwiddleTable(omega, nEval / 2);
    cp := CircuitParams(logN, logTotal, n, nEval, omega, g, FPow(g, n), FPow(g, P - 1 - (n - 1)),
        FPow(omega, P - 1 - (n - 1)), twiddles);
    ConstantsHold(cp);
    TablesHold(cp);
    if logBlowup == 1 { SyndromeConstants(cp); }
  }

  lemma ConstantsHold(cp: CircuitParams<F>)
    requires cp.logN <= cp.logTotal <= TWO_ADICITY && cp.n == Pow2(cp.logN) <= P
    requires cp.g == 3 && cp.omega == GetOmega(cp.logTotal) && cp.gN == FPow(cp.g, cp.n)
    requires cp.g1mn == FPow(cp.g, P - 1 - (cp.n - 1)) && cp.omega1mn == FPow(cp.omega, P - 1 - (cp.n - 1))
    ensures HasConstants(KoalaBearRing(), cp)
  {
    hide Pow2, FPow, KoalaBearRing, GetOmega;
    PowIsFPow(cp.g, cp.n);
    GeneratorFermat(cp.g);
    OmegaFermat(cp.logTotal);
    NegativePower(cp.g, cp.n - 1);
    NegativePower(cp.omega, cp.n - 1);
  }

  lemma TablesHold(cp: CircuitParams<F>)
    requires cp.logN <= cp.logTotal <= TWO_ADICITY && cp.n == Pow2(cp.logN) <= cp.nEval == Pow2(cp.logTotal)
    requires cp.omega == GetOmega(cp.logTotal) && |cp.twiddles| == cp.nEval / 2
    requires forall i {:trigger cp.twiddles[i]} :: 0 <= i < |cp.twiddles| ==> cp.twiddles[i] == FPow(cp.omega, i)
    ensures ValidParams(KoalaBearRing(), cp)
  {
    hide Pow2, FPow, KoalaBearRing, GetOmega;
    forall i | 0 <= i < |cp.twiddles| ensures cp.twiddles[i] == KoalaBearRing().Pow(cp.omega, i) {
      PowIsFPow(cp.omega, i);
    }
    OmegaIsRoot(cp.logTotal);
  }

  lemma SyndromeConstants(cp: CircuitParams<F>)
    requires HasConstants(KoalaBearRing(), cp) && cp.logTotal == cp.logN + 1 <= TWO_ADICITY && cp.n == Pow2(cp.logN)
        && cp.nEval == Pow2(cp.logTotal)
    ensures SyndromeParams(KoalaBearRing(), cp)
  {
    OmegaIsRoot(cp.logTotal);
  }
}
