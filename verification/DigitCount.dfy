/** The two implementations of count_digits: bit length and power table, and division by 10000. */
module DigitCount {
  import opened MachineWords
  import opened RadixDigits

  const POWERS_OF_10_32: seq<nat> :=
    [0, 10, 100, 1000, 10000, 100000, 1000000, 10000000, 100000000, 1000000000]

  const POWERS_OF_10_64: seq<nat> :=
    [0, 10, 100, 1000, 10000, 100000, 1000000, 10000000, 100000000, 1000000000,
     10000000000, 100000000000, 1000000000000, 10000000000000, 100000000000000, 1000000000000000,
     10000000000000000, 100000000000000000, 1000000000000000000, 10000000000000000000]

  function BitLength(n: nat): (k: nat)
    decreases n
  {
    if n == 0 then 0 else 1 + BitLength(n / 2)
  }

  // The compiler intrinsic: the number of zero bits above the highest one bit of a non-zero word.
  function CountLeadingZeros(n: nat, width: nat): int
    requires n > 0
  {
    width - BitLength(n)
  }

  function OrOne(n: nat): (m: nat)
    ensures m > 0
  {
    if n % 2 == 0 then n + 1 else n
  }

  function CountDigits64(n: uint64): int {
    var t := (64 - CountLeadingZeros(OrOne(n), 64)) * 1233 / 4096;
    CountDigitsInRange(n, 64);
    t - (if n < POWERS_OF_10_64[t] then 1 else 0) + 1
  }

  function CountDigits32(n: uint32): int {
    var t := (32 - CountLeadingZeros(OrOne(n), 32)) * 1233 / 4096;
    CountDigitsInRange(n, 32);
    t - (if n < POWERS_OF_10_32[t] then 1 else 0) + 1
  }

  lemma {:induction false} BitLengthBounds(n: nat)
    requires n > 0
    ensures BitLength(n) >= 1
    ensures Power(2, BitLength(n) - 1) <= n < Power(2, BitLength(n))
    decreases n
  {
    if n > 1 {
      BitLengthBounds(n / 2);
    } else {
      assert BitLength(1) == 1 + BitLength(0);
    }
  }

  lemma OrOneKeepsLength(n: nat)
    ensures BitLength(OrOne(n)) == if n == 0 then 1 else BitLength(n)
  {
    if n == 0 {
      assert BitLength(1) == 1 + BitLength(0);
    } else {
      assert OrOne(n) / 2 == n / 2;
    }
  }

  lemma {:induction false} BitLengthAtMost(n: nat, width: nat)
    requires n < Power(2, width)
    ensures BitLength(n) <= width
    decreases width
  {
    if width > 0 && n > 0 { BitLengthAtMost(n / 2, width - 1); }
  }

  lemma TwoToTheWidth()
    ensures Power(2, 32) == 0x1_0000_0000 && Power(2, 64) == 0x1_0000_0000_0000_0000
  {
    assert Power(2, 8) == 0x100;
    assert Power(2, 16) == 0x1_0000;
    assert Power(2, 24) == 0x100_0000;
    assert Power(2, 32) == 0x1_0000_0000;
    assert Power(2, 40) == 0x100_0000_0000;
    assert Power(2, 48) == 0x1_0000_0000_0000;
    assert Power(2, 56) == 0x100_0000_0000_0000;
  }

  lemma CountDigitsInRange(n: nat, width: nat)
    requires (width == 64 && n < 0x1_0000_0000_0000_0000) || (width == 32 && n < 0x1_0000_0000)
    ensures 1 <= BitLength(OrOne(n)) <= width
    ensures 0 <= BitLength(OrOne(n)) * 1233 / 4096 < if width == 64 then |POWERS_OF_10_64| else |POWERS_OF_10_32|
  {
    OrOneKeepsLength(n);
    TwoToTheWidth();
    BitLengthAtMost(n, width);
    if n > 0 { BitLengthBounds(n); }
  }

  const TEN_TO_20: nat := 100000000000000000000

  // For numbers of the given bit length, p being two to that length, the estimate t of the decimal
  // length is exact or one too small.
  predicate Fits(bits: nat, p: nat) {
    var t := bits * 1233 / 4096;
    && t < |POWERS_OF_10_64| && (bits <= 32 ==> t < |POWERS_OF_10_32|)
    && p <= (if t + 1 < |POWERS_OF_10_64| then POWERS_OF_10_64[t + 1] else TEN_TO_20)
    && (t == 1 ==> 2 <= p) && (t > 1 ==> 2 * POWERS_OF_10_64[t - 1] <= p)
  }

  predicate FitFrom(bits: nat, p: nat)
    decreases 65 - bits
  {
    bits > 64 || (Fits(bits, p) && FitFrom(bits + 1, 2 * p))
  }

  lemma {:induction false} FitsUpTo64(from: nat, p: nat, bits: nat)
    requires from <= bits <= 64 && p == Power(2, from) && FitFrom(from, p)
    ensures Fits(bits, Power(2, bits))
    decreases bits - from
  {
    if from < bits { FitsUpTo64(from + 1, 2 * p, bits); }
  }

  lemma FitFrom57()
    ensures FitFrom(57, 0x200000000000000)
  {
    assert FitFrom(61, 0x2000000000000000);
  }

  lemma FitFrom49()
    ensures FitFrom(49, 0x2000000000000)
  {
    FitFrom57();
    assert FitFrom(53, 0x20000000000000);
  }

  lemma FitFrom41()
    ensures FitFrom(41, 0x20000000000)
  {
    FitFrom49();
    assert FitFrom(45, 0x200000000000);
  }

  lemma FitFrom33()
    ensures FitFrom(33, 0x200000000)
  {
    FitFrom41();
    assert FitFrom(37, 0x2000000000);
  }

  lemma FitFrom25()
    ensures FitFrom(25, 0x2000000)
  {
    FitFrom33();
    assert |POWERS_OF_10_32| == 10 && POWERS_OF_10_64[9] == 1000000000;
    assert Fits(29, 0x20000000) && Fits(28, 0x10000000) && Fits(27, 0x8000000);
    assert Fits(26, 0x4000000) && Fits(25, 0x2000000);
    assert FitFrom(29, 0x20000000);
  }

  lemma FitFrom17()
    ensures FitFrom(17, 0x20000)
  {
    FitFrom25();
    assert FitFrom(21, 0x200000);
  }

  lemma FitFrom9()
    ensures FitFrom(9, 0x200)
  {
    FitFrom17();
    assert FitFrom(13, 0x2000);
  }

  lemma FitFrom1()
    ensures FitFrom(1, 0x2)
  {
    FitFrom9();
    assert FitFrom(5, 0x20);
  }

  lemma TablesFit(bits: nat)
    requires 1 <= bits <= 64
    ensures Fits(bits, Power(2, bits))
  {
    FitFrom1();
    assert Power(2, 1) == 2 * Power(2, 0);
    FitsUpTo64(1, 2, bits);
  }

  lemma {:induction false} TableIsPowers(t: nat)
    requires 1 <= t <= 20
    ensures (if t == 20 then TEN_TO_20 else POWERS_OF_10_64[t]) == Power(10, t)
  {
    if t == 1 {
      assert Power(10, 1) == 10 * Power(10, 0);
    } else {
      TableIsPowers(t - 1);
      TableRow(t);
    }
  }

  lemma TableRow(t: nat)
    requires 2 <= t <= 20
    ensures (if t == 20 then TEN_TO_20 else POWERS_OF_10_64[t]) == 10 * POWERS_OF_10_64[t - 1]
  {
    assert t == 2 || t == 3 || t == 4 || t == 5 || t == 6 || t == 7 || t == 8 || t == 9 || t == 10 || t == 11 || t == 12
        || t == 13 || t == 14 || t == 15 || t == 16 || t == 17 || t == 18 || t == 19 || t == 20;
  }

  lemma SmallTableIsPrefix(t: nat)
    requires t < 10
    ensures POWERS_OF_10_32[t] == POWERS_OF_10_64[t]
  {
    assert t == 0 || t == 1 || t == 2 || t == 3 || t == 4 || t == 5 || t == 6 || t == 7 || t == 8 || t == 9;
  }

  // Either estimate, corrected by one comparison, is the decimal length.
  lemma EstimateCorrected(n: nat, bits: nat)
    requires 1 <= bits <= 64 && n < Power(2, bits)
    requires n > 0 ==> Power(2, bits - 1) <= n
    requires n == 0 ==> bits == 1
    ensures var t := bits * 1233 / 4096;
            0 <= t < |POWERS_OF_10_64| && |Decimal(n)| == (if n < POWERS_OF_10_64[t] then t else t + 1)
  {
    TablesFit(bits);
    var t := bits * 1233 / 4096;
    if t > 0 { TableIsPowers(t); }
    if t > 1 { TableIsPowers(t - 1); }
    TableIsPowers(t + 1);
    assert Power(2, bits) == 2 * Power(2, bits - 1);
    LengthByPowers(n, 10, false, if n < POWERS_OF_10_64[t] then t else t + 1);
  }

  lemma CountDigits64IsLength(n: uint64)
    ensures CountDigits64(n) == |Decimal(n)|
  {
    CountDigitsInRange(n, 64);
    OrOneKeepsLength(n);
    if n > 0 { BitLengthBounds(n); }
    EstimateCorrected(n, BitLength(OrOne(n)));
  }

  lemma CountDigits32IsLength(n: uint32)
    ensures CountDigits32(n) == |Decimal(n)|
  {
    CountDigitsInRange(n, 32);
    OrOneKeepsLength(n);
    if n > 0 { BitLengthBounds(n); }
    var bits := BitLength(OrOne(n));
    EstimateCorrected(n, bits);
    TablesFit(bits);
    SmallTableIsPrefix(bits * 1233 / 4096);
  }

  // The fallback: four digits at a time.
  method CountDigitsFallback(n: uint64) returns (count: nat)
    ensures count == |Decimal(n)|
  {
    var rest: nat := n;
    count := 1;
    while true
      invariant count >= 1 && count - 1 + |Decimal(rest)| == |Decimal(n)|
      decreases rest
    {
      UpToFourDigits(rest);
      if rest < 10 { return count; }
      if rest < 100 { return count + 1; }
      if rest < 1000 { return count + 2; }
      if rest < 10000 { return count + 3; }
      FourDigitsMore(rest);
      rest := rest / 10000;
      count := count + 4;
    }
  }

  lemma UpToFourDigits(n: nat)
    ensures n < 10 ==> |Decimal(n)| == 1
    ensures 10 <= n < 100 ==> |Decimal(n)| == 2
    ensures 100 <= n < 1000 ==> |Decimal(n)| == 3
    ensures 1000 <= n < 10000 ==> |Decimal(n)| == 4
  {
    if 10 <= n < 100 { LengthByPowers(n, 10, false, 2); }
    if 100 <= n < 1000 { LengthByPowers(n, 10, false, 3); }
    if 1000 <= n < 10000 { LengthByPowers(n, 10, false, 4); }
  }

  lemma FourDigitsMore(n: nat)
    requires n >= 10000
    ensures |Decimal(n)| == 4 + |Decimal(n / 10000)|
  {
    OneDigitMore(n);
    OneDigitMore(n / 10);
    OneDigitMore(n / 10 / 10);
    OneDigitMore(n / 10 / 10 / 10);
    assert n / 10 / 10 / 10 / 10 == n / 10000;
  }

  lemma OneDigitMore(n: nat)
    requires n >= 10
    ensures |Decimal(n)| == 1 + |Decimal(n / 10)|
  {
  }

  // So all three forms agree wherever they apply.
  method AllFormsAgree(n: uint64) returns (fallback: nat)
    ensures fallback == CountDigits64(n)
    ensures n < 0x1_0000_0000 ==> fallback == CountDigits32(n)
  {
    fallback := CountDigitsFallback(n);
    CountDigits64IsLength(n);
    if n < 0x1_0000_0000 { CountDigits32IsLength(n); }
  }
}
