/** What a number looks like in a radix: the reference every printer and parser is compared with. */
module RadixDigits {

  const LOWER: string := "0123456789abcdef"
  const UPPER: string := "0123456789ABCDEF"

  type Radix = r: int | 2 <= r <= 16 witness 10

  function DigitChar(d: nat, upper: bool): char
    requires d < 16
  {
    if upper then UPPER[d] else LOWER[d]
  }

  function DigitValue(c: char): nat {
    if '0' <= c <= '9' then c as int - '0' as int
    else if 'a' <= c <= 'f' then c as int - 'a' as int + 10
    else if 'A' <= c <= 'F' then c as int - 'A' as int + 10
    else 0
  }

  lemma DigitValueOfChar(d: nat, upper: bool)
    requires d < 16
    ensures DigitValue(DigitChar(d, upper)) == d
    ensures d < 10 ==> DigitChar(d, upper) == '0' + d as char
    ensures d >= 10 ==> DigitChar(d, upper) == (if upper then 'A' else 'a') + (d - 10) as char
  {
    if d < 8 {
      assert d == 0 || d == 1 || d == 2 || d == 3 || d == 4 || d == 5 || d == 6 || d == 7;
    } else {
      assert d == 8 || d == 9 || d == 10 || d == 11 || d == 12 || d == 13 || d == 14 || d == 15;
    }
  }

  lemma DigitCharIsNoSign(d: nat, upper: bool)
    requires d < 16
    ensures DigitChar(d, upper) !in {' ', '+', '-'}
  {
    if d < 8 {
      assert d == 0 || d == 1 || d == 2 || d == 3 || d == 4 || d == 5 || d == 6 || d == 7;
    } else {
      assert d == 8 || d == 9 || d == 10 || d == 11 || d == 12 || d == 13 || d == 14 || d == 15;
    }
  }

  // The digits of n, most significant first, with no leading zero (and "0" for zero).
  function InRadix(n: nat, radix: Radix, upper: bool): (s: string)
    ensures |s| > 0
    decreases n
  {
    if n < radix then [DigitChar(n, upper)] else InRadix(n / radix, radix, upper) + [DigitChar(n % radix, upper)]
  }

  function Decimal(n: nat): string {
    InRadix(n, 10, false)
  }

  function SignedDecimal(n: int): string {
    if n < 0 then "-" + Decimal(-n) else Decimal(n)
  }

  // Reading a digit string back.
  function Value(s: string, radix: Radix): nat {
    if s == [] then 0 else Value(s[..|s| - 1], radix) * radix + DigitValue(s[|s| - 1])
  }

  lemma ValueSnoc(s: string, c: char, radix: Radix)
    ensures Value(s + [c], radix) == Value(s, radix) * radix + DigitValue(c)
    ensures Value([c], radix) == DigitValue(c)
  {
    assert (s + [c])[..|s|] == s && [c][..0] == [];
  }

  lemma QuotientAndRemainder(n: nat, radix: Radix)
    ensures n / radix * radix + n % radix == n
    ensures n < radix ==> n % radix == n
    ensures n >= radix ==> n / radix < n
  {
    var q := n / radix;
    assert n == q * radix + n % radix;
    if n >= radix && q >= n {
      MulMonotone(radix, n, q);
    }
  }

  lemma {:induction false} ReadBack(n: nat, radix: Radix, upper: bool)
    ensures Value(InRadix(n, radix, upper), radix) == n
    decreases n
  {
    hide Value, DigitValue, DigitChar;
    QuotientAndRemainder(n, radix);
    var q, r := n / radix, n % radix;
    DigitValueOfChar(r, upper);
    if n < radix {
      ValueSnoc([], DigitChar(n, upper), radix);
    } else {
      ReadBack(q, radix, upper);
      ValueSnoc(InRadix(q, radix, upper), DigitChar(r, upper), radix);
    }
  }

  lemma {:induction false} NoLeadingZero(n: nat, radix: Radix, upper: bool)
    requires n > 0
    ensures InRadix(n, radix, upper)[0] != '0'
    decreases n
  {
    if n < radix {
      DigitValueOfChar(n, upper);
    } else {
      NoLeadingZero(n / radix, radix, upper);
    }
  }

  function Power(radix: nat, k: nat): nat {
    if k == 0 then 1 else radix * Power(radix, k - 1)
  }

  // The number of digits is the one length k with radix^(k-1) <= n < radix^k.
  lemma {:induction false} LengthByPowers(n: nat, radix: Radix, upper: bool, k: nat)
    requires k > 0 && n < Power(radix, k)
    requires k > 1 ==> Power(radix, k - 1) <= n
    ensures |InRadix(n, radix, upper)| == k
    decreases k
  {
    if k > 1 {
      assert Power(radix, k) == radix * Power(radix, k - 1);
      assert Power(radix, k - 1) == radix * Power(radix, k - 2);
      PowerPositive(radix, k - 2);
      QuotientBounds(n, radix, Power(radix, k - 2), Power(radix, k - 1));
      LengthByPowers(n / radix, radix, upper, k - 1);
    }
  }

  lemma {:induction false} PowerPositive(radix: Radix, k: nat)
    ensures Power(radix, k) >= 1
  {
    if k > 0 { PowerPositive(radix, k - 1); }
  }

  lemma QuotientBounds(n: nat, r: Radix, low: nat, high: nat)
    requires r * low <= n < r * high && low >= 1
    ensures low <= n / r < high && r <= n
  {
    var q := n / r;
    assert n == r * q + n % r;
    if q < low {
      MulMonotone(r, q + 1, low);
    } else if q >= high {
      MulMonotone(r, high, q);
    }
    MulMonotone(r, 1, low);
  }

  lemma MulMonotone(k: nat, x: nat, y: nat)
    requires x <= y
    ensures k * x <= k * y
  {
  }
}
