/** The number of variables of the stacked commitment, as the recursive verifier computes it. */
module StackedVariables {
  import opened Wrappers
  import opened Arith
  import opened KoalaBear
  import opened Machine
  import opened BitDecomposition
  import opened CeilLog

  const MIN_LOG_N_ROWS: nat := 8

  const MIN_LOG_MEMORY: nat := 16

  const MAX_LOG_MEMORY: nat := 26

  /** The largest logarithms of the three table heights, by table index. */
  const MAX_LOG_N_ROWS: seq<nat> := [24, 23, 21]

  /** The assertions on the dimensions a proof announces. */
  predicate Dimensions(logMemory: nat, logBytecode: nat, logs: seq<nat>) {
    && |logs| == 3 && MIN_LOG_MEMORY <= logMemory <= MAX_LOG_MEMORY && logBytecode <= logMemory && logs[0] <= logMemory
    && (forall i {:trigger logs[i]} :: 0 <= i < 3 ==>
        logs[i] <= logs[0] && MIN_LOG_N_ROWS <= logs[i] <= MAX_LOG_N_ROWS[i])
  }

  /** The bytecode is padded to the height of the execution table, if that is larger. */
  function Padded(logBytecode: nat, logs: seq<nat>): (r: nat)
    requires |logs| == 3
    ensures r >= logBytecode && r >= logs[0] && (r == logBytecode || r == logs[0])
  {
    if logBytecode < logs[0] then logs[0] else logBytecode
  }

  /** Memory and its accumulator, the padded bytecode, and every column of the first k tables. */
  function Surface(logMemory: nat, logPadded: nat, logs: seq<nat>, cols: seq<nat>, k: nat): nat
    requires k <= |logs| && k <= |cols|
  {
    if k == 0 then Pow2(logMemory + 1) + Pow2(logPadded)
    else Surface(logMemory, logPadded, logs, cols, k - 1) + Pow2(logs[k - 1]) * cols[k - 1]
  }

  /** The largest dimensions, with room for a bytecode as long as the memory, stay within 2^30. */
  predicate WithinLimit(cols: seq<nat>) {
    |cols| == 3 && Surface(MAX_LOG_MEMORY, MAX_LOG_MEMORY, MAX_LOG_N_ROWS, cols, 3) <= Pow2(30)
  }

  lemma {:induction false} SurfaceGrows(logMemory: nat, logPadded: nat, logs: seq<nat>, cols: seq<nat>, logMemory': nat,
      logPadded': nat, logs': seq<nat>, k: nat)
    requires k <= |logs| == |logs'| == |cols| && logMemory <= logMemory' && logPadded <= logPadded'
    requires forall i {:trigger logs[i]} :: 0 <= i < |logs| ==> logs[i] <= logs'[i]
    ensures Surface(logMemory, logPadded, logs, cols, k) <= Surface(logMemory', logPadded', logs', cols, k)
  {
    Pow2Grows(logMemory + 1, logMemory' + 1);
    Pow2Grows(logPadded, logPadded');
    if k > 0 {
      SurfaceGrows(logMemory, logPadded, logs, cols, logMemory', logPadded', logs', k - 1);
      Pow2Grows(logs[k - 1], logs'[k - 1]);
      MulLe(Pow2(logs[k - 1]), Pow2(logs'[k - 1]), cols[k - 1]);
    }
  }

  lemma {:induction false} SurfaceFromBelow(logMemory: nat, logPadded: nat, logs: seq<nat>, cols: seq<nat>, k: nat,
      n: nat)
    requires k <= n <= |logs| && n <= |cols|
    ensures Surface(logMemory, logPadded, logs, cols, k) <= Surface(logMemory, logPadded, logs, cols, n)
  {
    if k < n {
      SurfaceFromBelow(logMemory, logPadded, logs, cols, k, n - 1);
      MulLe(0, cols[n - 1], Pow2(logs[n - 1]));
      Commute(Pow2(logs[n - 1]), cols[n - 1]);
    }
  }

  /** Every summand is a multiple of the smallest table height. */
  lemma {:induction false} SurfaceIsMultiple(logMemory: nat, logPadded: nat, logs: seq<nat>, cols: seq<nat>, b: nat,
      k: nat) returns (q: nat)
    requires k <= |logs| && k <= |cols| && b <= logMemory + 1 && b <= logPadded
    requires forall i {:trigger logs[i]} :: 0 <= i < |logs| ==> b <= logs[i]
    ensures Surface(logMemory, logPadded, logs, cols, k) == q * Pow2(b)
  {
    if k == 0 {
      Pow2Add(logMemory + 1 - b, b);
      Pow2Add(logPadded - b, b);
      q := Pow2(logMemory + 1 - b) + Pow2(logPadded - b);
      Distribute(Pow2(logMemory + 1 - b), Pow2(logPadded - b), Pow2(b));
    } else {
      var q0 := SurfaceIsMultiple(logMemory, logPadded, logs, cols, b, k - 1);
      var rows := Pow2(logs[k - 1] - b);
      Pow2Add(logs[k - 1] - b, b);
      MulLe(0, rows, cols[k - 1]);
      q := q0 + rows * cols[k - 1];
      Distribute(q0, rows * cols[k - 1], Pow2(b));
      MulAssoc(rows, cols[k - 1], Pow2(b));
      Commute(cols[k - 1], Pow2(b));
      MulAssoc(rows, Pow2(b), cols[k - 1]);
    }
  }

  /** The dimensions a proof may announce keep the total within 2^30, and it is a multiple of the smallest height. */
  lemma TotalFits(logMemory: nat, logBytecode: nat, logs: seq<nat>, cols: seq<nat>) returns (q: nat)
    requires Dimensions(logMemory, logBytecode, logs) && WithinLimit(cols)
    ensures Surface(logMemory, Padded(logBytecode, logs), logs, cols, 3) == q * Pow2(MIN_LOG_N_ROWS)
    ensures 2 < q <= Pow2(22)
  {
    hide Pow2, Surface;
    var padded := Padded(logBytecode, logs);
    q := SurfaceIsMultiple(logMemory, padded, logs, cols, MIN_LOG_N_ROWS, 3);
    SurfaceGrows(logMemory, padded, logs, cols, MAX_LOG_MEMORY, MAX_LOG_MEMORY, MAX_LOG_N_ROWS, 3);
    SurfaceFromBelow(logMemory, padded, logs, cols, 0, 3);
    AtLeastMemory(logMemory, padded, logs, cols);
    Pow2Add(22, MIN_LOG_N_ROWS);
    SmallPowers();
    MulLt(Pow2(9), q, Pow2(MIN_LOG_N_ROWS));
    MulLt(q, Pow2(22), Pow2(MIN_LOG_N_ROWS));
  }

  /** Factors compare as the products do. */
  lemma MulLt(a: int, b: int, c: int)
    requires c > 0
    ensures a * c < b * c ==> a < b
    ensures a * c <= b * c ==> a <= b
  {
    if b <= a { MulLe(b, a, c); }
    if b + 1 <= a {
      MulLe(b + 1, a, c);
      Distribute(b, 1, c);
    }
  }

  lemma AtLeastMemory(logMemory: nat, logPadded: nat, logs: seq<nat>, cols: seq<nat>)
    requires logMemory >= MIN_LOG_MEMORY
    ensures Surface(logMemory, logPadded, logs, cols, 0) > Pow2(17)
  {
    Pow2Grows(17, logMemory + 1);
  }

  lemma SmallPowers()
    ensures Pow2(MIN_LOG_N_ROWS) == 256 && Pow2(9) == 512 && Pow2(17) == Pow2(9) * Pow2(MIN_LOG_N_ROWS)
  {
    Pow2Add(9, 8);
    assert Pow2(8) == 256 && Pow2(9) == 512;
  }

  /** The assertions on the dimensions, with the padded logarithm and the heights that are computed along the way. */
  method CheckDimensions(logMemory: nat, logBytecode: nat, logs: seq<nat>)
    returns (ok: bool, padded: nat, tableHeights: seq<F>)
    requires |logs| == 3
    ensures ok <==> Dimensions(logMemory, logBytecode, logs)
    ensures padded == if logBytecode < logs[0] then logs[0] else logBytecode
    ensures ok ==> |tableHeights| == 3 && forall i {:trigger tableHeights[i]} :: 0 <= i < 3 ==>
        tableHeights[i] == Pow2(logs[i])
  {
    hide Pow2;
    padded, tableHeights := logBytecode, [];
    if logBytecode < logs[0] { padded := logs[0]; }
    if logs[0] > logMemory { return false, padded, tableHeights; }
    for i := 0 to 3
      invariant |tableHeights| == i
      invariant forall k {:trigger logs[k]} :: 0 <= k < i ==>
          logs[k] <= logs[0] && MIN_LOG_N_ROWS <= logs[k] <= MAX_LOG_N_ROWS[k] && tableHeights[k] == Pow2(logs[k])
    {
      if logs[i] > logs[0] || logs[i] < MIN_LOG_N_ROWS || logs[i] > MAX_LOG_N_ROWS[i] {
        return false, padded, tableHeights;
      }
      HeightFits(logs[i]);
      tableHeights := tableHeights + [Pow2(logs[i])];
    }
    ok := MIN_LOG_MEMORY <= logMemory && logMemory <= MAX_LOG_MEMORY && logBytecode <= logMemory;
  }

  lemma HeightFits(log: nat)
    requires log <= 30
    ensures Pow2(log) < P
  {
    Pow2Grows(log, 30);
    Pow2Of30();
  }

  /** The sum over the tables and the division, in the field. */
  method ComputeStackedQuotient(logMemory: nat, padded: nat, tableHeights: seq<F>, cols: seq<nat>,
      ghost logBytecode: nat, ghost logs: seq<nat>)
    returns (quotient: F)
    requires Dimensions(logMemory, logBytecode, logs) && WithinLimit(cols) && padded == Padded(logBytecode, logs)
    requires |tableHeights| == 3 && forall i {:trigger tableHeights[i]} :: 0 <= i < 3 ==>
        tableHeights[i] == Pow2(logs[i])
    ensures quotient * Pow2(MIN_LOG_N_ROWS) == Surface(logMemory, padded, logs, cols, 3)
  {
    hide Pow2, Surface, FAdd, FMul, FDiv, FromUsize;
    ghost var q := TotalFits(logMemory, logBytecode, logs, cols);
    SumsFit(logMemory, logBytecode, logs, cols, 0);
    var total := FAdd(FromUsize(Pow2(logMemory + 1)), FromUsize(Pow2(padded)));
    FirstSum(logMemory, padded, logs, cols);
    for i := 0 to 3
      invariant total == Surface(logMemory, padded, logs, cols, i)
    {
      SumsFit(logMemory, logBytecode, logs, cols, i + 1);
      NextSum(logMemory, padded, logs, cols, i);
      total := FAdd(total, FMul(tableHeights[i], FromUsize(cols[i])));
    }
    quotient := FDiv(total, FromUsize(Pow2(MIN_LOG_N_ROWS)));
    SmallPowers();
    assert FromUsize(256) == 256 by { FieldNumber(256); }
    ExactQuotient(q, 256, total);
  }

  /** The whole stack, written out: memory and its accumulator, the bytecode padded to the larger size, three tables. */
  lemma SurfaceIs(logMemory: nat, logBytecode: nat, logs: seq<nat>, cols: seq<nat>)
    requires |logs| == |cols| == 3
    ensures Surface(logMemory, Padded(logBytecode, logs), logs, cols, 3)
        == 2 * Pow2(logMemory) + Pow2(if logBytecode < logs[0] then logs[0] else logBytecode)
        + Pow2(logs[0]) * cols[0] + Pow2(logs[1]) * cols[1] + Pow2(logs[2]) * cols[2]
  {
    var padded := Padded(logBytecode, logs);
    assert Surface(logMemory, padded, logs, cols, 0) == 2 * Pow2(logMemory) + Pow2(padded);
    hide Pow2;
    assert Surface(logMemory, padded, logs, cols, 1)
        == Surface(logMemory, padded, logs, cols, 0) + Pow2(logs[0]) * cols[0];
    assert Surface(logMemory, padded, logs, cols, 2)
        == Surface(logMemory, padded, logs, cols, 1) + Pow2(logs[1]) * cols[1];
  }

  /** From the announced dimensions to the number of smallest blocks; None is a failed assertion. */
  method StackedQuotient(logMemory: nat, logBytecode: nat, logs: seq<nat>, cols: seq<nat>)
    returns (quotient: Option<F>)
    requires |logs| == 3 && WithinLimit(cols)
    ensures quotient.Some? <==> Dimensions(logMemory, logBytecode, logs)
    ensures quotient.Some? ==>
      256 * quotient.value == 2 * Pow2(logMemory) + Pow2(if logBytecode < logs[0] then logs[0] else logBytecode)
          + Pow2(logs[0]) * cols[0] + Pow2(logs[1]) * cols[1] + Pow2(logs[2]) * cols[2]
  {
    hide Surface;
    var ok, padded, tableHeights := CheckDimensions(logMemory, logBytecode, logs);
    if !ok { return None; }
    var q := ComputeStackedQuotient(logMemory, padded, tableHeights, cols, logBytecode, logs);
    SurfaceIs(logMemory, logBytecode, logs, cols);
    SmallPowers();
    return Some(q);
  }

  lemma FieldNumber(n: nat)
    requires n < P
    ensures FromUsize(n) == n
  {
  }

  lemma SumsFit(logMemory: nat, logBytecode: nat, logs: seq<nat>, cols: seq<nat>, k: nat)
    requires Dimensions(logMemory, logBytecode, logs) && WithinLimit(cols) && k <= 3
    ensures Surface(logMemory, Padded(logBytecode, logs), logs, cols, k) < P
  {
    hide Surface, Pow2;
    var padded := Padded(logBytecode, logs);
    SurfaceGrows(logMemory, padded, logs, cols, MAX_LOG_MEMORY, MAX_LOG_MEMORY, MAX_LOG_N_ROWS, k);
    SurfaceFromBelow(MAX_LOG_MEMORY, MAX_LOG_MEMORY, MAX_LOG_N_ROWS, cols, k, 3);
    Pow2Of30();
  }

  lemma FirstSum(logMemory: nat, logPadded: nat, logs: seq<nat>, cols: seq<nat>)
    requires Surface(logMemory, logPadded, logs, cols, 0) < P
    ensures FAdd(FromUsize(Pow2(logMemory + 1)), FromUsize(Pow2(logPadded)))
        == Surface(logMemory, logPadded, logs, cols, 0)
  {
  }

  lemma NextSum(logMemory: nat, logPadded: nat, logs: seq<nat>, cols: seq<nat>, k: nat)
    requires k < |logs| && k < |cols| && logs[k] <= 30 && Surface(logMemory, logPadded, logs, cols, k + 1) < P
    ensures var before := Surface(logMemory, logPadded, logs, cols, k);
            && before < P && Pow2(logs[k]) < P
            && FAdd(before, FMul(Pow2(logs[k]), FromUsize(cols[k]))) == Surface(logMemory, logPadded, logs, cols, k + 1)
  {
    hide Pow2;
    var rows, n := Pow2(logs[k]), cols[k];
    Pow2Grows(logs[k], 30);
    Pow2Of30();
    MulLe(0, n, rows);
    Commute(rows, n);
    MulLe(1, rows, n);
  }

  /** Dividing a product that does not wrap by one of its factors gives the other. */
  lemma ExactQuotient(q: nat, c: F, total: F)
    requires c != 0 && total == q * c
    ensures q < P && FDiv(total, c) == q
  {
    hide FInv;
    MulLe(1, c, q);
    assert total == FMul(q, c);
    MulLaws(q, c, FInv(c));
    MulLaws(q, 1, 0);
  }

  /**
   * For all dimensions a proof may announce: every logarithm the constraints accept gives room for the whole stack, and
   * it gives the least such number of variables exactly if the number of smallest blocks is no power of two.
   */
  lemma StackedVariablesFit(logMemory: nat, logBytecode: nat, logs: seq<nat>, cols: seq<nat>, q: F)
    requires Dimensions(logMemory, logBytecode, logs) && WithinLimit(cols)
    ensures var total := 2 * Pow2(logMemory) + Pow2(if logBytecode < logs[0] then logs[0] else logBytecode)
                + Pow2(logs[0]) * cols[0] + Pow2(logs[1]) * cols[1] + Pow2(logs[2]) * cols[2];
            256 * q == total ==>
            && (forall log: nat :: Satisfiable(q, log) ==> total <= Pow2(MIN_LOG_N_ROWS + log))
            && ((forall log: nat :: Satisfiable(q, log) ==> IsCeiling(total, MIN_LOG_N_ROWS + log))
                <==> (forall k {:trigger Pow2(k)} :: 0 <= k <= 22 ==> Pow2(k) != q))
  {
    hide Surface, Satisfiable, Pow2, IsCeiling;
    var total := Surface(logMemory, Padded(logBytecode, logs), logs, cols, 3);
    SurfaceIs(logMemory, logBytecode, logs, cols);
    SmallPowers();
    if 256 * q != total { return; }
    var q' := TotalFits(logMemory, logBytecode, logs, cols);
    MulLt(q, q', Pow2(MIN_LOG_N_ROWS));
    MulLt(q', q, Pow2(MIN_LOG_N_ROWS));
    QuotientInRange(q);
    LogLeavesRoom(q);
    CeilingIsForced(q);
    forall log: nat ensures q <= Pow2(log) ==> total <= Pow2(MIN_LOG_N_ROWS + log) {
      Pow2Add(MIN_LOG_N_ROWS, log);
      Commute(Pow2(MIN_LOG_N_ROWS), Pow2(log));
      if q <= Pow2(log) { MulLe(q, Pow2(log), Pow2(MIN_LOG_N_ROWS)); }
    }
    forall log: nat ensures IsCeiling(total, MIN_LOG_N_ROWS + log) <==> IsCeiling(q, log) {
      CeilingScales(q, MIN_LOG_N_ROWS, log, total);
    }
  }

  lemma QuotientInRange(q: nat)
    requires q <= Pow2(22)
    ensures q <= 0x4000_0000
  {
    Pow2Grows(22, 30);
    Pow2Of30();
  }

  lemma CeilingScales(q: nat, b: nat, log: nat, total: nat)
    requires total == q * Pow2(b) && q > 1
    ensures IsCeiling(total, b + log) <==> IsCeiling(q, log)
  {
    hide Pow2;
    forall k: nat ensures Pow2(b + k) < total <==> Pow2(k) < q { Scaled(q, b, k); }
    Scaled(q, b, log);
    if IsCeiling(q, log) {
      PowZero();
      assert log > 0 by { if log == 0 { assert q <= Pow2(log); } }
      assert Pow2(log - 1) < q;
      forall k | 0 <= k < b + log ensures Pow2(k) < total { Pow2Grows(k, b + (log - 1)); }
    }
    if IsCeiling(total, b + log) {
      forall k | 0 <= k < log ensures Pow2(k) < q { assert Pow2(b + k) < total; }
    }
  }

  lemma Scaled(q: nat, b: nat, k: nat)
    ensures Pow2(b + k) < q * Pow2(b) <==> Pow2(k) < q
    ensures q * Pow2(b) <= Pow2(b + k) <==> q <= Pow2(k)
  {
    Pow2Add(b, k);
    Commute(Pow2(b), Pow2(k));
    MulLt(Pow2(k), q, Pow2(b));
    MulLt(q, Pow2(k), Pow2(b));
    if q <= Pow2(k) { MulLe(q, Pow2(k), Pow2(b)); }
    if Pow2(k) < q { MulLe(Pow2(k) + 1, q, Pow2(b)); Distribute(Pow2(k), 1, Pow2(b)); }
  }
}
