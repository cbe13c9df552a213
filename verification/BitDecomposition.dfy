/** The verifier's digit decompositions over KoalaBear: what the constraints force, for every hinted memory. */
module BitDecomposition {
  import opened Arith
  import opened KoalaBear

  // -- Digits of an integer ---------------------------------------------------------------------------

  /** Digit i in base 2^w. */
  function Digit(a: nat, w: nat, i: nat): nat { (a / Pow2(w * i)) % Pow2(w) }

  /** d[0] + d[1] * 2^w + ... */
  function DigitSum(d: seq<nat>, w: nat, n: nat): nat
    requires n <= |d|
  {
    if n == 0 then 0 else DigitSum(d, w, n - 1) + d[n - 1] * Pow2(w * (n - 1))
  }

  ghost predicate Digits(d: seq<nat>, w: nat, n: nat) {
    n <= |d| && forall i {:trigger d[i]} :: 0 <= i < n ==> d[i] < Pow2(w)
  }

  lemma {:induction false} DigitSumBound(d: seq<nat>, w: nat, n: nat)
    requires Digits(d, w, n)
    ensures DigitSum(d, w, n) < Pow2(w * n)
  {
    hide Pow2;
    if n == 0 {
      assert w * 0 == 0;
      PowZero();
    } else {
      DigitSumBound(d, w, n - 1);
      NextWeight(w, n - 1);
      OneMoreDigit(d[n - 1], Pow2(w), Pow2(w * (n - 1)), DigitSum(d, w, n - 1));
    }
  }

  lemma OneMoreDigit(e: nat, b: nat, p: nat, s: nat)
    requires e < b && s < p
    ensures s + e * p < b * p
  {
    MulLe(e + 1, b, p);
    assert (e + 1) * p == e * p + p;
  }

  lemma NextWeight(w: nat, i: nat)
    ensures w * i >= 0 && Pow2(w * (i + 1)) == Pow2(w) * Pow2(w * i)
  {
    assert w * (i + 1) == w + w * i;
    Pow2Add(w, w * i);
  }

  /** The low digits of a number, one more at a time. */
  lemma LowDigits(a: nat, w: nat, i: nat)
    ensures a % Pow2(w * (i + 1)) == a % Pow2(w * i) + Digit(a, w, i) * Pow2(w * i)
  {
    NextWeight(w, i);
    SplitModulus(a, Pow2(w * i), Pow2(w));
  }

  /** Digits in range are the digits of their sum. */
  lemma {:induction false} DigitsOfSum(d: seq<nat>, w: nat, n: nat, a: nat, k: nat)
    requires Digits(d, w, n) && a == DigitSum(d, w, n) && k <= n
    ensures a % Pow2(w * k) == DigitSum(d, w, k)
    ensures forall i {:trigger d[i]} :: k <= i < n ==> d[i] == Digit(a, w, i)
    decreases n - k
  {
    hide Pow2;
    if k == n {
      DigitSumBound(d, w, n);
      DivModUnique(a, Pow2(w * n), 0, a);
    } else {
      DigitsOfSum(d, w, n, a, k + 1);
      LowDigits(a, w, k);
      DigitSumBound(d, w, k);
      TopDigit(DigitSum(d, w, k), d[k], a % Pow2(w * k), Digit(a, w, k), Pow2(w * k));
    }
  }

  lemma TopDigit(s: nat, d: nat, r: nat, e: nat, p: nat)
    requires s < p && r < p && s + d * p == r + e * p
    ensures s == r && d == e
  {
    DivModUnique(s + d * p, p, d, s);
    DivModUnique(s + d * p, p, e, r);
  }

  /** A number below 2^(w n) is the sum of its digits. */
  lemma {:induction false} SumOfDigits(d: seq<nat>, w: nat, n: nat, a: nat)
    requires n <= |d| && forall i {:trigger d[i]} :: 0 <= i < n ==> d[i] == Digit(a, w, i)
    ensures DigitSum(d, w, n) == a % Pow2(w * n)
  {
    hide Pow2;
    if n == 0 {
      assert w * 0 == 0;
      PowZero();
    } else {
      SumOfDigits(d, w, n - 1, a);
      LowDigits(a, w, n - 1);
    }
  }

  // -- Sums in the field ---------------------------------------------------------------------------------

  /** A weight 2^i that fits the field. */
  function Weight(i: nat): (r: F)
    requires i <= 30
    ensures r == Pow2(i)
  {
    Pow2Grows(i, 30);
    Pow2Of30();
    Pow2(i)
  }

  lemma Pow2Of30()
    ensures Pow2(30) == 0x4000_0000
  {
    Pow2Add(15, 15);
    assert Pow2(15) == 32768;
  }

  /** partial += d[i] * 2^(w i), as the program adds up field elements. */
  function FieldSum(d: seq<F>, w: nat, n: nat): F
    requires 0 < n <= |d| && w * (n - 1) <= 30
  {
    if n == 1 then d[0] else MulLe(n - 2, n - 1, w); FAdd(FieldSum(d, w, n - 1), FMul(d[n - 1], Weight(w * (n - 1))))
  }

  function AsNats(d: seq<F>): (r: seq<nat>)
    ensures |r| == |d| && forall i {:trigger r[i]} {:trigger d[i]} :: 0 <= i < |d| ==> r[i] == d[i]
  {
    seq(|d|, (i: int) requires 0 <= i < |d| => d[i])
  }

  /** Below 2^30 nothing wraps around. */
  lemma {:induction false} NoWrap(d: seq<F>, w: nat, n: nat)
    requires 0 < n <= |d| && 0 <= w * (n - 1) <= w * n <= 30 && Digits(AsNats(d), w, n)
    ensures FieldSum(d, w, n) == DigitSum(AsNats(d), w, n)
  {
    hide Pow2, FAdd, FMul, FieldSum, DigitSum;
    Pow2Of30();
    var s := AsNats(d);
    DigitSumBound(s, w, n);
    Pow2Grows(w * n, 30);
    FieldSumStep(d, w, n);
    DigitSumStep(s, w, n);
    if n > 1 {
      MulLe(n - 2, n - 1, w);
      NoWrap(d, w, n - 1);
      AddsUp(FieldSum(d, w, n - 1), d[n - 1], Weight(w * (n - 1)), DigitSum(s, w, n));
    }
  }

  lemma FieldSumStep(d: seq<F>, w: nat, n: nat)
    requires 0 < n <= |d| && 0 <= w * (n - 1) <= 30
    ensures n == 1 ==> FieldSum(d, w, n) == d[0]
    ensures n > 1 ==> 0 <= w * (n - 2) <= 30 && FieldSum(d, w, n) == FAdd(FieldSum(d, w, n - 1),
        FMul(d[n - 1], Weight(w * (n - 1))))
  {
    hide Pow2, FAdd, FMul;
    if n > 1 { MulLe(n - 2, n - 1, w); MulLe(0, n - 2, w); }
  }

  lemma DigitSumStep(d: seq<nat>, w: nat, n: nat)
    requires 0 < n <= |d|
    ensures w * (n - 1) >= 0 && DigitSum(d, w, n) == DigitSum(d, w, n - 1) + d[n - 1] * Pow2(w * (n - 1))
    ensures n == 1 ==> DigitSum(d, w, n) == d[0]
  {
    PowZero();
    if n == 1 { assert w * 0 == 0 && DigitSum(d, w, 0) == 0; }
  }

  lemma AddsUp(sum: F, digit: F, weight: F, total: nat)
    requires total == sum + digit * weight < P
    ensures FAdd(sum, FMul(digit, weight)) == total
  {
    MulLe(0, digit, weight);
    SmallMod(digit * weight);
    SmallMod(total);
  }

  lemma SmallMod(x: int)
    requires 0 <= x < P
    ensures x % P == x
  {
  }

  // -- Canonical decompositions ---------------------------------------------------------------------------

  lemma Pow2Of24And31()
    ensures Pow2(24) == 0x100_0000 && Pow2(31) == 0x8000_0000 && Pow2(7) == 128
  {
    Pow2Add(12, 12);
    assert Pow2(12) == 4096 && Pow2(7) == 128;
    Pow2Add(24, 7);
  }

  /** A low part below 2^24 and a high part below 2^7, not both maximal and non-zero, add up without wrapping. */
  lemma HighAndLow(low: F, high: F)
    requires low < 0x100_0000 && high < 128 && (high == 127 ==> low == 0)
    ensures FAdd(low, FMul(high, 0x100_0000)) == low + high * 0x100_0000 < P
  {
    SmallMod(high * 0x100_0000);
    SmallMod(low + high * 0x100_0000);
  }

  /** Both parts of a canonical element, and that a full high part leaves no low part. */
  lemma CanonicalParts(a: F)
    ensures a % 0x100_0000 < 0x100_0000 && a / 0x100_0000 < 128 && (a / 0x100_0000 == 127 ==> a % 0x100_0000 == 0)
  {
  }

  /** top7 = (partial - a) * 127 solves partial + top7 * 2^24 = a. */
  lemma TopSeven(partial: F, a: F, top: F)
    requires top == FMul(FSub(partial, a), 127)
    ensures FAdd(partial, FMul(top, 0x100_0000)) == a
  {
    var d: int := FSub(partial, a);
    ModMul(d * 127, 0x100_0000, P);
    assert d * 127 * 0x100_0000 == (P - 1) * d;
    assert FMul(top, 0x100_0000) == ((P - 1) * d) % P;
    assert (P - 1) * d == -d + d * P;
    ModShift(-d, d, P);
    SubtractBack(partial, a, d);
  }

  lemma SubtractBack(partial: F, a: F, d: int)
    requires d == FSub(partial, a)
    ensures FAdd(partial, (-d) % P) == a
  {
  }

  /** top7 is determined by a and the partial sum. */
  lemma TopSevenOf(partial: F, high: F, a: F)
    requires partial < 0x100_0000 && high < 128 && a == partial + high * 0x100_0000
    ensures FMul(FSub(partial, a), 127) == high
  {
    hide FMul, FSub;
    var d: int := FSub(partial, a);
    DifferenceIs(partial, high, a);
    if high > 0 {
      assert d * 127 == high + (127 - high) * P;
      ModShift(high, 127 - high, P);
      SmallMod(high);
    }
    assert FMul(FSub(partial, a), 127) == (d * 127) % P by { ProductIs(FSub(partial, a), 127); }
  }

  lemma ProductIs(a: F, b: F) ensures FMul(a, b) == (a * b) % P {}

  lemma DifferenceIs(partial: F, high: F, a: F)
    requires partial < 0x100_0000 && high < 128 && a == partial + high * 0x100_0000
    ensures FSub(partial, a) == if high == 0 then 0 else P - high * 0x100_0000
  {
  }

  // The nibbles of decompose_and_verify_merkle_query.

  ghost predicate NibblesChecked(a: F, nibbles: seq<F>) {
    && |nibbles| == 6
    && (forall i {:trigger nibbles[i]} :: 0 <= i < 6 ==> nibbles[i] < 16)
    && var partial := FieldSum(nibbles, 4, 6);
    && var top := FMul(FSub(partial, a), 127);
    && top < 128 && (top == 127 ==> partial == 0)
  }

  /** The constraints hold exactly for the base-16 digits of the low 24 bits of a. */
  lemma NibblesAreCanonical(a: F, nibbles: seq<F>)
    requires |nibbles| == 6
    ensures NibblesChecked(a, nibbles) <==> forall i {:trigger nibbles[i]} :: 0 <= i < 6 ==>
        nibbles[i] == Digit(a, 4, i)
  {
    hide Pow2, FieldSum, FMul, FAdd, FNeg, DigitSum;
    var s := AsNats(nibbles);
    Pow2Of4();
    Pow2Of24And31();
    if NibblesChecked(a, nibbles) {
      NoWrap(nibbles, 4, 6);
      var partial := FieldSum(nibbles, 4, 6);
      var top := FMul(FSub(partial, a), 127);
      DigitSumBound(s, 4, 6);
      TopSeven(partial, a, top);
      HighAndLow(partial, top);
      DigitsOfSum(s, 4, 6, partial, 0);
      forall i | 0 <= i < 6 ensures Digit(partial, 4, i) == Digit(a, 4, i) { LowerDigit(partial, top, 24, a, 4, i); }
    }
    if forall i {:trigger nibbles[i]} :: 0 <= i < 6 ==> nibbles[i] == Digit(a, 4, i) {
      SumOfDigits(s, 4, 6, a);
      NoWrap(nibbles, 4, 6);
      CanonicalParts(a);
      TopSevenOf(a % 0x100_0000, a / 0x100_0000, a);
    }
  }

  lemma Pow2Of4() ensures Pow2(4) == 16 && Pow2(1) == 2 {}

  /** The digits below 2^m do not see what is added above. */
  lemma LowerDigit(low: nat, high: nat, m: nat, a: nat, w: nat, i: nat)
    requires a == low + high * Pow2(m) && w * (i + 1) <= m
    ensures Digit(low, w, i) == Digit(a, w, i)
  {
    hide Pow2;
    NextWeight(w, i);
    var p, b, rest := Pow2(w * i), Pow2(w), Pow2(m - w * (i + 1));
    Pow2Add(m - w * (i + 1), w * (i + 1));
    HigherPart(low, high, p, b, rest);
  }

  lemma HigherPart(low: nat, high: nat, p: nat, b: nat, rest: nat)
    requires p > 0 && b > 0
    ensures ((low + high * (rest * (b * p))) / p) % b == (low / p) % b
  {
    var k := high * rest * b;
    assert high * (rest * (b * p)) == k * p by { Regroup(high, rest, b, p); }
    assert low + k * p == p * (low / p + k) + low % p;
    DivModUnique(low + k * p, p, low / p + k, low % p);
    ModShift(low / p, high * rest, b);
  }

  lemma Regroup(high: int, rest: int, b: int, p: int)
    ensures high * (rest * (b * p)) == high * rest * b * p
  {
    MulAssoc(high, rest, b * p);
    MulAssoc(high * rest, b, p);
  }

  // The bits of checked_decompose_bits.

  ghost predicate Boolean(b: F) { FMul(b, FSub(1, b)) == 0 }

  /** b (1 - b) = 0 only at 0 and 1: the field has no zero divisors. */
  lemma BooleanIsBit(b: F)
    ensures Boolean(b) <==> b == 0 || b == 1
  {
    if b == 0 || b == 1 {
      assert FMul(0, FSub(1, 0)) == 0 && FMul(1, FSub(1, 1)) == 0;
    } else {
      hide FMul, FAdd, FNeg;
      if Boolean(b) {
        ProductIsZero(b, FSub(1, b));
        OneMinus(b);
      }
    }
  }

  lemma OneMinus(b: F)
    ensures FSub(1, b) == 0 ==> b == 1
  {
  }

  lemma ProductIsZero(a: F, b: F)
    requires FMul(a, b) == 0
    ensures a == 0 || b == 0
  {
    hide FMul, KoalaBearRing;
    IsAField();
    RingIsField(a, b);
    if a != 0 { KoalaBearRing().NoZeroDivisors(a, b); }
  }

  lemma RingIsField(a: F, b: F)
    ensures KoalaBearRing().Mul(a, b) == FMul(a, b) && KoalaBearRing().zero == 0
  {
  }

  ghost predicate BitsChecked(a: F, bits: seq<F>, partial: seq<F>) {
    && |bits| == 31 && |partial| == 24
    && (forall i {:trigger bits[i]} :: 0 <= i < 31 ==> Boolean(bits[i]))
    && (forall i {:trigger partial[i]} :: 0 <= i < 24 ==>
        partial[i] == if i == 0 then bits[0] else FAdd(partial[i - 1], FMul(bits[i], Weight(i))))
    && var sum7 := FieldSum(bits[24..], 1, 7);
    && (sum7 == 127 ==> partial[23] == 0)
    && a == FAdd(partial[23], FMul(sum7, Weight(24)))
  }

  lemma {:induction false} PartialSums(bits: seq<F>, partial: seq<F>, k: nat)
    requires |bits| == 31 && |partial| == 24 && k < 24 && Digits(AsNats(bits), 1, 24)
    requires forall i {:trigger partial[i]} :: 0 <= i < 24 ==> partial[i] == if i == 0 then bits[0]
        else FAdd(partial[i - 1], FMul(bits[i], Weight(i)))
    ensures partial[k] == FieldSum(bits, 1, k + 1) == DigitSum(AsNats(bits), 1, k + 1)
  {
    hide Pow2, FMul, FAdd, Weight;
    if k > 0 {
      PartialSums(bits, partial, k - 1);
      assert 1 * k == k;
    }
    NoWrap(bits, 1, k + 1);
  }

  /** The sum of all digits, from the sum of the low ones and the sum of the high ones. */
  lemma {:induction false} SumOfParts(d: seq<nat>, m: nat, j: nat)
    requires m + j <= |d|
    ensures DigitSum(d, 1, m + j) == DigitSum(d, 1, m) + DigitSum(d[m..], 1, j) * Pow2(m)
  {
    hide Pow2;
    if j > 0 {
      SumOfParts(d, m, j - 1);
      Pow2Add(j - 1, m);
      MulAssoc(d[m + j - 1], Pow2(j - 1), Pow2(m));
      Distribute(DigitSum(d[m..], 1, j - 1), d[m + j - 1] * Pow2(j - 1), Pow2(m));
      assert 1 * (m + j - 1) == (j - 1) + m && 1 * (j - 1) == j - 1;
      assert DigitSum(d, 1, m + j) == DigitSum(d, 1, m + j - 1) + d[m + j - 1] * Pow2(m + j - 1);
    }
  }

  /** Boolean cells are base-2 digits, and their two partial sums are what the integers give. */
  lemma BitSums(bits: seq<F>)
    requires |bits| == 31 && Digits(AsNats(bits), 1, 31)
    ensures FieldSum(bits, 1, 24) == DigitSum(AsNats(bits), 1, 24) < 0x100_0000
    ensures FieldSum(bits[24..], 1, 7) == DigitSum(AsNats(bits)[24..], 1, 7) < 128
    ensures DigitSum(AsNats(bits), 1, 31) == FieldSum(bits, 1, 24) + FieldSum(bits[24..], 1, 7) * 0x100_0000
  {
    hide Pow2, FMul, FAdd, DigitSum, FieldSum;
    var s := AsNats(bits);
    Pow2Of24And31();
    assert AsNats(bits[24..]) == s[24..];
    NoWrap(bits, 1, 24);
    NoWrap(bits[24..], 1, 7);
    DigitSumBound(s, 1, 24);
    DigitSumBound(s[24..], 1, 7);
    SumOfParts(s, 24, 7);
  }

  lemma BooleansAreDigits(bits: seq<F>)
    requires forall i {:trigger bits[i]} :: 0 <= i < |bits| ==> Boolean(bits[i])
    ensures Digits(AsNats(bits), 1, |bits|)
  {
    hide Boolean;
    Pow2Of4();
    forall i | 0 <= i < |bits| ensures bits[i] < 2 { BooleanIsBit(bits[i]); }
  }

  lemma BitsSound(a: F, bits: seq<F>, partial: seq<F>)
    requires BitsChecked(a, bits, partial)
    ensures forall i {:trigger bits[i]} :: 0 <= i < 31 ==> bits[i] == Digit(a, 1, i)
    ensures forall i {:trigger partial[i]} :: 0 <= i < 24 ==> partial[i] == a % Pow2(i + 1)
  {
    hide Pow2, FMul, FAdd, DigitSum, FieldSum, Boolean, Digit;
    var s := AsNats(bits);
    BooleansAreDigits(bits);
    BitSums(bits);
    PartialSums(bits, partial, 23);
    Pow2Of24And31();
    HighAndLow(partial[23], FieldSum(bits[24..], 1, 7));
    DigitsOfSum(s, 1, 31, a, 0);
    forall i {:trigger partial[i]} | 0 <= i < 24 ensures partial[i] == a % Pow2(i + 1) {
      PartialSums(bits, partial, i);
      DigitsOfSum(s, 1, 31, a, i + 1);
    }
  }

  lemma BitsComplete(a: F, bits: seq<F>, partial: seq<F>)
    requires |bits| == 31 && |partial| == 24
    requires forall i {:trigger bits[i]} :: 0 <= i < 31 ==> bits[i] == Digit(a, 1, i)
    requires forall i {:trigger partial[i]} :: 0 <= i < 24 ==> partial[i] == a % Pow2(i + 1)
    ensures BitsChecked(a, bits, partial)
  {
    hide Pow2, FMul, FAdd, DigitSum, FieldSum, Boolean, Digit, Weight;
    BitParts(a, bits);
    PartialsOfBits(a, bits, partial);
    Pow2Of24And31();
    CanonicalParts(a);
    HighAndLow(a % 0x100_0000, a / 0x100_0000);
  }

  /** The bits of a add up to its low 24 bits and its high part. */
  lemma BitParts(a: F, bits: seq<F>)
    requires |bits| == 31 && forall i {:trigger bits[i]} :: 0 <= i < 31 ==> bits[i] == Digit(a, 1, i)
    ensures Digits(AsNats(bits), 1, 31) && forall i {:trigger bits[i]} :: 0 <= i < 31 ==> Boolean(bits[i])
    ensures FieldSum(bits[24..], 1, 7) == a / 0x100_0000
  {
    hide Pow2, FMul, FAdd, DigitSum, FieldSum, Boolean, Digit;
    var s := AsNats(bits);
    forall i | 0 <= i < 31 ensures Boolean(bits[i]) && s[i] < Pow2(1) {
      Pow2Of4();
      DigitInRange(a, 1, i);
      BooleanIsBit(bits[i]);
    }
    BitSums(bits);
    SumOfDigits(s, 1, 31, a);
    SumOfDigits(s, 1, 24, a);
    Pow2Of24And31();
    SmallModulus(a);
  }

  lemma PartialsOfBits(a: F, bits: seq<F>, partial: seq<F>)
    requires |bits| == 31 && |partial| == 24 && Digits(AsNats(bits), 1, 31)
    requires forall i {:trigger bits[i]} :: 0 <= i < 31 ==> bits[i] == Digit(a, 1, i)
    requires forall i {:trigger partial[i]} :: 0 <= i < 24 ==> partial[i] == a % Pow2(i + 1)
    ensures forall i {:trigger partial[i]} :: 0 <= i < 24 ==> partial[i] == if i == 0 then bits[0]
        else FAdd(partial[i - 1], FMul(bits[i], Weight(i)))
  {
    hide *;
    forall i {:trigger partial[i]} | 0 <= i < 24
      ensures partial[i] == if i == 0 then bits[0] else FAdd(partial[i - 1], FMul(bits[i], Weight(i)))
    {
      RunningSum(a, bits, i);
      if i > 0 { RunningSum(a, bits, i - 1); SumStep(bits, i); } else { FirstSum(bits); }
    }
  }

  lemma DigitInRange(a: nat, w: nat, i: nat) ensures Digit(a, w, i) < Pow2(w) {}

  lemma SmallModulus(a: F) ensures a % 0x8000_0000 == a {}

  lemma RunningSum(a: F, bits: seq<F>, i: nat)
    requires |bits| == 31 && i < 24 && Digits(AsNats(bits), 1, 31) && forall i {:trigger bits[i]} :: 0 <= i < 31 ==>
        bits[i] == Digit(a, 1, i)
    ensures FieldSum(bits, 1, i + 1) == a % Pow2(i + 1)
  {
    hide Pow2, FMul, FAdd, Digit;
    SumOfDigits(AsNats(bits), 1, i + 1, a);
    NoWrap(bits, 1, i + 1);
  }

  lemma SumStep(bits: seq<F>, i: nat)
    requires |bits| == 31 && 0 < i < 24
    ensures FieldSum(bits, 1, i + 1) == FAdd(FieldSum(bits, 1, i), FMul(bits[i], Weight(i)))
  {
    hide Pow2, FMul, FAdd;
  }

  lemma FirstSum(bits: seq<F>)
    requires |bits| == 31
    ensures FieldSum(bits, 1, 1) == bits[0]
  {
  }

  /** The constraints hold exactly for the 31 bits of the canonical representative and their running sums. */
  lemma BitsAreCanonical(a: F, bits: seq<F>, partial: seq<F>)
    requires |bits| == 31 && |partial| == 24
    ensures BitsChecked(a, bits, partial) <==>
            && (forall i {:trigger bits[i]} :: 0 <= i < 31 ==> bits[i] == Digit(a, 1, i))
            && (forall i {:trigger partial[i]} :: 0 <= i < 24 ==> partial[i] == a % Pow2(i + 1))
  {
    hide BitsChecked, Digit, Pow2;
    if BitsChecked(a, bits, partial) { BitsSound(a, bits, partial); }
    if (forall i {:trigger bits[i]} :: 0 <= i < 31 ==> bits[i] == Digit(a, 1, i))
        && (forall i {:trigger partial[i]} :: 0 <= i < 24 ==> partial[i] == a % Pow2(i + 1)) {
      BitsComplete(a, bits, partial);
    }
  }

  lemma Lengths(a: F, bits: seq<F>, partial: seq<F>)
    requires BitsChecked(a, bits, partial)
    ensures |bits| == 31 && |partial| == 24
  {
  }

  // checked_decompose_bits_small_value_const: n bits, the highest first.

  function Backwards(bits: seq<F>): (r: seq<F>)
    ensures |r| == |bits| && forall i {:trigger r[i]} :: 0 <= i < |bits| ==> r[i] == bits[|bits| - 1 - i]
  {
    seq(|bits|, (i: int) requires 0 <= i < |bits| => bits[|bits| - 1 - i])
  }

  ghost predicate SmallBitsChecked(a: F, bits: seq<F>) {
    && 0 < |bits| <= 30
    && (forall i {:trigger bits[i]} :: 0 <= i < |bits| ==> Boolean(bits[i]))
    && a == FieldSum(Backwards(bits), 1, |bits|)
  }

  lemma SmallBitsSound(a: F, bits: seq<F>)
    requires SmallBitsChecked(a, bits)
    ensures a < Pow2(|bits|) && forall i {:trigger bits[i]} :: 0 <= i < |bits| ==>
        bits[i] == Digit(a, 1, |bits| - 1 - i)
  {
    hide Pow2, FMul, FAdd, FSub, DigitSum, FieldSum, Boolean, Digit;
    BackwardsSound(a, bits);
    var n, s := |bits|, AsNats(Backwards(bits));
    forall i | 0 <= i < n ensures bits[i] == Digit(a, 1, n - 1 - i) { assert s[n - 1 - i] == bits[i]; }
  }

  lemma BackwardsSound(a: F, bits: seq<F>)
    requires SmallBitsChecked(a, bits)
    ensures a < Pow2(|bits|) && var s := AsNats(Backwards(bits));
        forall i {:trigger s[i]} :: 0 <= i < |s| ==> s[i] == Digit(a, 1, i)
  {
    hide Pow2, FMul, FAdd, FSub, DigitSum, FieldSum, Boolean, Digit;
    var n, back := |bits|, Backwards(bits);
    var s := AsNats(back);
    forall i | 0 <= i < n ensures Boolean(back[i]) { assert back[i] == bits[n - 1 - i]; }
    BooleansAreDigits(back);
    OneTimes(n);
    NoWrap(back, 1, n);
    DigitSumBound(s, 1, n);
    DigitsOfSum(s, 1, n, a, 0);
  }

  lemma OneTimes(n: nat) ensures 1 * n == n && 1 * (n - 1) == n - 1 {}

  lemma SmallBitsComplete(a: F, bits: seq<F>)
    requires 0 < |bits| <= 30 && a < Pow2(|bits|) && forall i {:trigger bits[i]} :: 0 <= i < |bits| ==>
        bits[i] == Digit(a, 1, |bits| - 1 - i)
    ensures SmallBitsChecked(a, bits)
  {
    hide Pow2, FMul, FAdd, DigitSum, FieldSum, Boolean, Digit;
    var n, back := |bits|, Backwards(bits);
    var s := AsNats(back);
    Pow2Of4();
    forall i | 0 <= i < n ensures s[i] == Digit(a, 1, i) && s[i] < Pow2(1) && Boolean(bits[n - 1 - i]) {
      assert back[i] == bits[n - 1 - i];
      DigitInRange(a, 1, i);
      BooleanIsBit(back[i]);
    }
    forall i {:trigger bits[i]} | 0 <= i < n ensures Boolean(bits[i]) { assert bits[n - 1 - (n - 1 - i)] == bits[i]; }
    OneTimes(n);
    SumOfDigits(s, 1, n, a);
    NoWrap(back, 1, n);
    DivModUnique(a, Pow2(n), 0, a);
  }

  /** The constraints hold exactly for a number below 2^n and its bits. */
  lemma SmallBitsAreCanonical(a: F, bits: seq<F>)
    requires 0 < |bits| <= 30
    ensures SmallBitsChecked(a, bits) <==> a < Pow2(|bits|) && forall i {:trigger bits[i]} :: 0 <= i < |bits| ==>
        bits[i] == Digit(a, 1, |bits| - 1 - i)
  {
    hide *;
    if SmallBitsChecked(a, bits) { SmallBitsSound(a, bits); }
    if a < Pow2(|bits|) && forall i {:trigger bits[i]} :: 0 <= i < |bits| ==> bits[i] == Digit(a, 1, |bits| - 1 - i) {
      SmallBitsComplete(a, bits);
    }
  }
}
