/** The hinted logarithm of the verifier: which values the constraints accept. */
module CeilLog {
  import opened Arith
  import opened KoalaBear
  import opened BitDecomposition

  /** Cells of the two decompositions the gadget may use. */
  datatype LogMemory = LogMemory(bits: seq<F>, partial: seq<F>, small: seq<F>)

  /** The arms of the match: 2 to 23 compare partial sums, 24 to 30 decompose the remainder; no other arm exists. */
  ghost predicate ArmHolds(n: F, log: nat, mem: LogMemory)
    requires log <= 30
  {
    if 2 <= log < 24 then
      BitsChecked(n, mem.bits, mem.partial) && mem.partial[log - 1] == n && mem.partial[log - 2] != n
    else
      && 24 <= log && BitsChecked(n, mem.bits, mem.partial) && |mem.small| == log - 1
      && SmallBitsChecked(FSub(FSub(n, Weight(log - 1)), 1), mem.small)
  }

  ghost predicate LogHolds(n: F, log: nat, mem: LogMemory) {
    log < 31 && (Pow2(log) == n || ArmHolds(n, log, mem))
  }

  /** Some memory the prover can choose meets the constraints. */
  ghost predicate Satisfiable(n: F, log: nat) {
    exists mem :: LogHolds(n, log, mem)
  }

  /**
   * What the constraints amount to: n fits log bits, and log is
   * the least such, or one more for a power of two below 2^23.
   */
  ghost predicate Accepted(n: nat, log: nat) {
    1 <= log <= 30 && n <= Pow2(log) && (Pow2(log - 1) < n || (n == Pow2(log - 1) && log <= 23))
  }

  function BitsFor(a: F): (bits: seq<F>)
    ensures |bits| == 31
  {
    Pow2Of4();
    seq(31, (i: int) requires 0 <= i < 31 => DigitInRange(a, 1, i); Digit(a, 1, i))
  }

  /** The low n bits of a field element are a field element. */
  lemma BelowAtMost(a: nat, n: nat)
    ensures Below(a, n) <= a
  {
    QuotientIsNat(a, Pow2(n));
    MulLe(0, a / Pow2(n), Pow2(n));
    Commute(Pow2(n), a / Pow2(n));
  }

  function LowPart(a: F, n: nat): (r: F)
    ensures r == Below(a, n)
  {
    BelowAtMost(a, n);
    var r := Below(a, n);
    r
  }

  function PartialFor(a: F): (partial: seq<F>)
    ensures |partial| == 24
  {
    seq(24, (i: int) requires 0 <= i < 24 => LowPart(a, i + 1))
  }

  function SmallFor(a: F, n: nat): (bits: seq<F>)
    ensures |bits| == n
  {
    Pow2Of4();
    seq(n, (i: int) requires 0 <= i < n => DigitInRange(a, 1, n - 1 - i); Digit(a, 1, n - 1 - i))
  }

  /** n is below 2^k exactly when dropping the higher bits changes nothing. */
  lemma FitsBits(n: nat, k: nat)
    ensures Below(n, k) == n <==> n < Pow2(k)
  {
    if n < Pow2(k) { DivModUnique(n, Pow2(k), 0, n); }
  }

  /**
   * The remainder n - 2^(log-1) - 1 is below 2^(log-1) exactly when n lies in the upper half, its lower end excluded.
   */
  lemma RemainderFits(n: F, log: nat)
    requires 24 <= log <= 30 && n <= 0x4000_0000
    ensures FSub(FSub(n, Weight(log - 1)), 1) < Pow2(log - 1) <==> Pow2(log - 1) < n <= Pow2(log)
  {
    hide Pow2;
    PowerStep(log - 1);
    Pow2Of30();
    Pow2Grows(log, 30);
    var half: int := Pow2(log - 1);
    Remainder(n, half);
  }

  lemma Remainder(n: F, half: int)
    requires 0 < half <= 0x2000_0000 && n <= 0x4000_0000
    ensures half <= P && FSub(FSub(n, half), 1) == if n > half then n - half - 1 else n - half - 1 + P
  {
  }

  lemma PartialIs(n: F, partial: seq<F>, i: nat)
    requires |partial| == 24 && i < 24 && forall i {:trigger partial[i]} :: 0 <= i < 24 ==>
        partial[i] == n % Pow2(i + 1)
    ensures partial[i] == Below(n, i + 1)
  {
  }

  lemma ArmSound(n: F, log: nat, mem: LogMemory)
    requires 2 < n <= 0x4000_0000 && log <= 30 && ArmHolds(n, log, mem)
    ensures Accepted(n, log)
  {
    hide Pow2, BitsChecked, SmallBitsChecked, FSub, Digit, Below;
    PowerStep(log - 1);
    if log < 24 {
      Lengths(n, mem.bits, mem.partial);
      BitsSound(n, mem.bits, mem.partial);
      FitsBits(n, log);
      FitsBits(n, log - 1);
      PartialIs(n, mem.partial, log - 1);
      PartialIs(n, mem.partial, log - 2);
    } else {
      SmallBitsAreCanonical(FSub(FSub(n, Weight(log - 1)), 1), mem.small);
      RemainderFits(n, log);
    }
  }

  lemma ArmComplete(n: F, log: nat) returns (mem: LogMemory)
    requires 2 < n <= 0x4000_0000 && Accepted(n, log) && Pow2(log) != n
    ensures ArmHolds(n, log, mem)
  {
    hide Pow2, BitsChecked, SmallBitsChecked, FSub, Digit, Below;
    PowZero();
    PowerStep(0);
    var remainder := FSub(FSub(n, Weight(log - 1)), 1);
    mem := LogMemory(BitsFor(n), PartialFor(n), SmallFor(remainder, log - 1));
    PartialsAre(n);
    BitsComplete(n, mem.bits, mem.partial);
    if log < 24 {
      FitsBits(n, log);
      FitsBits(n, log - 1);
    } else {
      RemainderFits(n, log);
      SmallBitsAreCanonical(remainder, mem.small);
    }
  }

  lemma PartialsAre(n: F)
    ensures forall i {:trigger PartialFor(n)[i]} :: 0 <= i < 24 ==> PartialFor(n)[i] == n % Pow2(i + 1)
  {
  }

  /** For 2 < n <= 2^30, some memory satisfies the constraints exactly for the accepted values. */
  lemma LogIff(n: F, log: nat)
    requires 2 < n <= 0x4000_0000
    ensures Satisfiable(n, log) <==> Accepted(n, log)
  {
    hide ArmHolds, BitsChecked;
    if mem :| LogHolds(n, log, mem) {
      if Pow2(log) == n {
        PowZero();
        PowerStep(log - 1);
      } else {
        ArmSound(n, log, mem);
      }
    }
    if Accepted(n, log) {
      if Pow2(log) == n {
        assert LogHolds(n, log, LogMemory([], [], []));
      } else {
        var mem := ArmComplete(n, log);
        assert LogHolds(n, log, mem);
      }
    }
  }

  /** The least logarithm of a power of two that n fits. */
  ghost predicate IsCeiling(n: nat, log: nat) {
    n <= Pow2(log) && forall k {:trigger Pow2(k)} :: 0 <= k < log ==> Pow2(k) < n
  }

  /** Every satisfying memory leaves room for n, and the ceiling itself has one. */
  lemma LogLeavesRoom(n: F)
    requires 2 < n <= 0x4000_0000
    ensures forall log: nat :: Satisfiable(n, log) ==> n <= Pow2(log)
    ensures exists log: nat :: Satisfiable(n, log) && IsCeiling(n, log)
  {
    hide Satisfiable;
    forall log: nat | Satisfiable(n, log) ensures n <= Pow2(log) { LogIff(n, log); }
    Pow2Of30();
    var log := 0;
    while Pow2(log) < n
      invariant log <= 30 && forall k {:trigger Pow2(k)} :: 0 <= k < log ==> Pow2(k) < n
      decreases 30 - log
    {
      log := log + 1;
    }
    LogIff(n, log);
    assert Satisfiable(n, log) && IsCeiling(n, log);
  }

  /**
   * For 2 < n <= 2^30 the constraints force the ceiling of the logarithm exactly if n is not a power of two up to 2^22.
   */
  lemma CeilingIsForced(n: F)
    requires 2 < n <= 0x4000_0000
    ensures (forall log: nat :: Satisfiable(n, log) ==> IsCeiling(n, log))
        <==> (forall k {:trigger Pow2(k)} :: 0 <= k <= 22 ==> Pow2(k) != n)
  {
    hide Satisfiable;
    if forall k {:trigger Pow2(k)} :: 0 <= k <= 22 ==> Pow2(k) != n {
      forall log: nat | Satisfiable(n, log) ensures IsCeiling(n, log) {
        LogIff(n, log);
        forall k | 0 <= k < log ensures Pow2(k) < n { Pow2Grows(k, log - 1); }
      }
    } else {
      var k :| 0 <= k <= 22 && Pow2(k) == n;
      TwoLogarithms(n, k);
      assert Satisfiable(n, k + 1) && !IsCeiling(n, k + 1);
    }
  }

  /**
   * The numbers that fail: 2^k has satisfying memories for k and
   * for k + 1, and for nothing else; 8 has them for 3 and 4.
   */
  lemma TwoLogarithms(n: F, k: nat)
    requires 2 < n == Pow2(k) && k <= 22
    ensures forall log: nat :: Satisfiable(n, log) <==> log == k || log == k + 1
    ensures Satisfiable(8, 3) && Satisfiable(8, 4)
  {
    hide Satisfiable;
    Pow2Of30();
    Pow2Grows(k, 30);
    assert Pow2(4) == 16 && Pow2(3) == 8 && Pow2(2) == 4 && Pow2(0) == 1;
    forall log: nat ensures Satisfiable(n, log) <==> log == k || log == k + 1 {
      LogIff(n, log);
      PowerStep(k);
      if log > k + 1 { Pow2Grows(k + 1, log - 1); }
      if log < k { Pow2Strict(log, k); }
      if log == k { Pow2Strict(k - 1, k); }
    }
    LogIff(8, 3);
    LogIff(8, 4);
  }
}
