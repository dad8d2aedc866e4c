/** parse_nonnegative_int: reading digits into a 32-bit word with an incomplete test for wrapping. */
module NumberParser {
  import opened MachineWords
  import opened RadixDigits

  datatype Parsed = Number(value: nat, next: nat) | TooBig

  // The character a C string pointer sees: the terminating null at the end.
  function At(s: string, i: nat): char {
    if i < |s| then s[i] else '\0'
  }

  predicate IsDigit(c: char) {
    '0' <= c <= '9'
  }

  // Moving over a part of what is left of the string.
  lemma Move(s: string, i: nat, part: string, rest: string)
    requires i <= |s| && s[i..] == part + rest
    ensures i + |part| <= |s| && s[i + |part|..] == rest
    ensures forall k :: 0 <= k < |part| ==> At(s, i + k) == part[k]
    ensures At(s, i + |part|) == At(rest, 0) && At(s, i + |part| + 1) == At(rest, 1)
  {
    var t := part + rest;
    assert forall k :: 0 <= k < |t| ==> s[i + k] == t[k];
  }

  function DigitsEnd(s: string, i: nat): (e: nat)
    ensures i <= e && (i < |s| ==> e <= |s|)
    ensures !IsDigit(At(s, e))
    ensures forall k :: i <= k < e ==> IsDigit(At(s, k))
    decreases |s| - i
  {
    if IsDigit(At(s, i)) then DigitsEnd(s, i + 1) else i
  }

  // What the loop does from position i on, with the word read so far.
  function Scan(s: string, i: nat, value: nat): (r: Parsed)
    requires IsDigit(At(s, i)) && value <= UINT_MAX
    ensures r.Number? ==> i < r.next <= |s|
    decreases |s| - i
  {
    var newValue := (value * 10 + DigitValue(At(s, i))) % TWO32;
    if newValue < value then TooBig
    else if IsDigit(At(s, i + 1)) then Scan(s, i + 1, newValue)
    else if newValue > INT_MAX then TooBig
    else Number(newValue, i + 1)
  }

  method ParseNonnegativeInt(s: string, start: nat) returns (r: Parsed)
    requires IsDigit(At(s, start))
    ensures r == Scan(s, start, 0)
  {
    var value, i := 0, start;
    while true
      invariant value <= UINT_MAX && IsDigit(At(s, i)) && Scan(s, i, value) == Scan(s, start, 0)
      decreases |s| - i
    {
      var newValue := (value * 10 + (s[i] as int - '0' as int)) % TWO32;
      i := i + 1;
      if newValue < value {
        value := UINT_MAX;
        break;
      }
      value := newValue;
      if !IsDigit(At(s, i)) { break; }
    }
    return if value > INT_MAX then TooBig else Number(value, i);
  }

  // The number written by the digits from start on.
  function Written(s: string, start: nat): nat
    requires start <= |s|
  {
    Value(s[start..DigitsEnd(s, start)], 10)
  }

  lemma DigitsEndFrom(s: string, start: nat, i: nat)
    requires start <= i <= DigitsEnd(s, start)
    ensures DigitsEnd(s, i) == DigitsEnd(s, start)
    decreases i - start
  {
    if start < i { DigitsEndFrom(s, start + 1, i); }
  }

  lemma ValueNext(s: string, start: nat, i: nat)
    requires start <= i < |s|
    ensures Value(s[start..i + 1], 10) == Value(s[start..i], 10) * 10 + DigitValue(s[i])
  {
    assert s[start..i + 1] == s[start..i] + [s[i]];
    ValueSnoc(s[start..i], s[i], 10);
  }

  // A number that is returned is the written one modulo 2^32, and all its digits have been read.
  lemma {:induction false} ScanIsCongruent(s: string, start: nat, i: nat, value: nat)
    requires start <= i < DigitsEnd(s, start) && value == Value(s[start..i], 10) % TWO32
    ensures var r := Scan(s, i, value);
            r.Number? ==> r.next == DigitsEnd(s, start) && r.value == Written(s, start) % TWO32 <= INT_MAX
    decreases |s| - i
  {
    var p := Value(s[start..i], 10);
    var newValue := (value * 10 + DigitValue(s[i])) % TWO32;
    ValueNext(s, start, i);
    StepModulo(p, DigitValue(s[i]));
    if newValue >= value {
      if IsDigit(At(s, i + 1)) {
        ScanIsCongruent(s, start, i + 1, newValue);
      } else {
        assert DigitsEnd(s, start) == i + 1 by { DigitsEndFrom(s, start, i); }
      }
    }
  }

  // So for any number of digits, a number that is returned is the written one modulo 2^32.
  lemma ParserIsCongruent(s: string, start: nat)
    requires IsDigit(At(s, start))
    ensures var r := Scan(s, start, 0);
            r.Number? ==> r.next == DigitsEnd(s, start) && r.value == Written(s, start) % TWO32 <= INT_MAX
  {
    assert s[start..start] == "";
    ScanIsCongruent(s, start, start, 0);
  }

  lemma StepModulo(p: nat, d: nat)
    ensures (p % TWO32 * 10 + d) % TWO32 == (p * 10 + d) % TWO32
  {
    assert p * 10 + d == (p % TWO32 * 10 + d) + TWO32 * (p / TWO32 * 10);
  }

  // No prefix of a number, wrapped to 32 bits, is smaller than the prefix before it: the test for
  // wrapping passes at every digit.
  predicate Unnoticed(written: nat) {
    written < 10 || (Unnoticed(written / 10) && written % TWO32 >= written / 10 % TWO32)
  }

  lemma UnnoticedNext(p: nat, d: nat)
    requires d < 10
    ensures Unnoticed(p * 10 + d) <==> Unnoticed(p) && (p * 10 + d) % TWO32 >= p % TWO32
  {
    if p > 0 { assert (p * 10 + d) / 10 == p; }
  }

  lemma {:induction false} UnnoticedPrefix(s: string, start: nat, i: nat)
    requires start <= i <= DigitsEnd(s, start) <= |s| && Unnoticed(Written(s, start))
    ensures Unnoticed(Value(s[start..i], 10))
    decreases DigitsEnd(s, start) - i
  {
    if i < DigitsEnd(s, start) {
      UnnoticedPrefix(s, start, i + 1);
      assert IsDigit(At(s, i));
      ValueNext(s, start, i);
      UnnoticedNext(Value(s[start..i], 10), DigitValue(s[i]));
    }
  }

  // What is read when the digits write a number.
  function Outcome(written: nat, next: nat): Parsed {
    var value := written % TWO32;
    if Unnoticed(written) && value <= INT_MAX then Number(value, next) else TooBig
  }

  lemma {:induction false} ScanIsOutcome(s: string, start: nat, i: nat, value: nat)
    requires start <= i < DigitsEnd(s, start) <= |s| && value == Value(s[start..i], 10) % TWO32
    requires Unnoticed(Value(s[start..i], 10))
    ensures Scan(s, i, value) == Outcome(Written(s, start), DigitsEnd(s, start))
    decreases |s| - i
  {
    hide Value, Unnoticed;
    var p, d := Value(s[start..i], 10), DigitValue(s[i]);
    ValueNext(s, start, i);
    StepModulo(p, d);
    assert IsDigit(At(s, i));
    UnnoticedNext(p, d);
    DigitsEndFrom(s, start, i);
    if Unnoticed(Written(s, start)) { UnnoticedPrefix(s, start, i + 1); }
    if i + 1 < DigitsEnd(s, start) && Unnoticed(p * 10 + d) {
      ScanIsOutcome(s, start, i + 1, (p * 10 + d) % TWO32);
    }
  }

  // What a caller wants: the number, or an error when it does not fit in an int.
  function Wanted(written: nat, next: nat): Parsed {
    if written <= INT_MAX then Number(written, next) else TooBig
  }

  // The numbers that wrap unnoticed, at every digit, and end as a word which is still an int.
  predicate Misread(written: nat) {
    written > INT_MAX && Unnoticed(written) && written % TWO32 <= INT_MAX
  }

  lemma {:induction false} SmallUnnoticed(n: nat)
    requires n <= UINT_MAX
    ensures Unnoticed(n)
    decreases n
  {
    if n >= 10 { SmallUnnoticed(n / 10); }
  }

  // For any number of digits the parser is right exactly outside the misread numbers.
  lemma ParserRightExactly(s: string, start: nat)
    requires IsDigit(At(s, start))
    ensures Scan(s, start, 0) == Wanted(Written(s, start), DigitsEnd(s, start)) <==> !Misread(Written(s, start))
    ensures Scan(s, start, 0) == Outcome(Written(s, start), DigitsEnd(s, start))
  {
    hide Scan, Unnoticed;
    assert s[start..start] == "";
    SmallUnnoticed(0);
    ScanIsOutcome(s, start, start, 0);
    if Written(s, start) <= INT_MAX { SmallUnnoticed(Written(s, start)); }
  }

  lemma UnnoticedBelowTenDigits(written: nat)
    requires written < 10000000000
    ensures Unnoticed(written) <==> written % TWO32 >= written / 10
  {
    var shorter := written / 10;
    SmallUnnoticed(shorter);
    assert shorter % TWO32 == shorter;
    if written < 10 {
      SmallUnnoticed(written);
    } else {
      UnnoticedStep(written);
      hide Unnoticed;
    }
  }

  lemma UnnoticedStep(written: nat)
    requires written >= 10
    ensures Unnoticed(written) <==> Unnoticed(written / 10) && written % TWO32 >= written / 10 % TWO32
  {
  }

  // Below 10^10 they are two ranges.
  lemma MisreadBelowTenDigits(written: nat)
    requires written < 10000000000
    ensures Misread(written) <==> 4772185884 <= written <= 6442450943 || 9544371768 <= written
  {
    hide Unnoticed;
    UnnoticedBelowTenDigits(written);
    if written < TWO32 {
      assert written % TWO32 == written;
    } else if written < 2 * TWO32 {
      assert written % TWO32 == written - TWO32;
    } else {
      assert written % TWO32 == written - 2 * TWO32;
    }
  }

  lemma OutcomeOfInt(n: nat, next: nat)
    requires n <= INT_MAX
    ensures Outcome(n, next) == Number(n, next)
  {
    hide Unnoticed;
    SmallUnnoticed(n);
    assert n % TWO32 == n;
  }

  // The wrap test overlooks this one: five thousand million reads as 705032704.
  lemma MisreadExample()
    ensures var s := "5" + seq(9, _ => '0');
            IsDigit(At(s, 0)) && Scan(s, 0, 0) == Number(705032704, 10)
  {
    hide Value, Scan, Unnoticed;
    var s := "5" + seq(9, _ => '0');
    DigitsEndIs(s, 0, 10);
    FiveAndZeros(9);
    TenToNine();
    assert s[0..10] == s;
    ParserRightExactly(s, 0);
    MisreadBelowTenDigits(5000000000);
  }

  // With more digits there are more: 47949672960 is read as that, too.
  lemma MisreadBeyondTenDigits()
    ensures var s := Decimal(47949672960);
            Misread(47949672960) && IsDigit(At(s, 0)) && Scan(s, 0, 0) == Number(705032704, |s|)
  {
    UnnoticedStep(47949672960);
    hide Scan, Unnoticed, InRadix;
    MisreadBelowTenDigits(4794967296);
    assert 47949672960 / 10 == 4794967296;
    ParserReadsPrinter("", 47949672960, "");
    assert "" + Decimal(47949672960) + "" == Decimal(47949672960);
  }

  lemma TenToNine()
    ensures Power(10, 9) == 1000000000
  {
    assert Power(10, 3) == 1000;
    assert Power(10, 6) == 1000000;
  }

  lemma {:induction false} FiveAndZeros(k: nat)
    ensures Value("5" + seq(k, _ => '0'), 10) == 5 * Power(10, k)
  {
    if k == 0 {
      ValueSnoc("", '5', 10);
      assert "5" + seq(0, _ => '0') == "" + "5";
    } else {
      FiveAndZeros(k - 1);
      assert "5" + seq(k, _ => '0') == ("5" + seq(k - 1, _ => '0')) + "0";
      ValueSnoc("5" + seq(k - 1, _ => '0'), '0', 10);
    }
  }

  lemma {:induction false} DigitsEndIs(s: string, i: nat, e: nat)
    requires i <= e && !IsDigit(At(s, e)) && forall k :: i <= k < e ==> IsDigit(At(s, k))
    ensures DigitsEnd(s, i) == e
    decreases e - i
  {
    if i < e { DigitsEndIs(s, i + 1, e); }
  }

  lemma {:induction false} DecimalDigits(n: nat, i: nat)
    requires i < |Decimal(n)|
    ensures IsDigit(Decimal(n)[i])
    decreases n
  {
    DigitValueOfChar(n % 10, false);
    if n >= 10 && i < |Decimal(n / 10)| { DecimalDigits(n / 10, i); }
  }

  // Of a number printed in decimal, whatever comes before it and behind, the parser returns the outcome
  // and stops right after the digits.
  lemma ParserReadsPrinter(before: string, n: nat, rest: string)
    requires rest == "" || !IsDigit(rest[0])
    ensures var s := before + Decimal(n) + rest;
            && IsDigit(At(s, |before|))
            && Scan(s, |before|, 0) == Outcome(n, |before| + |Decimal(n)|)
  {
    var s, e := before + Decimal(n) + rest, |before| + |Decimal(n)|;
    hide InRadix, Value, Scan, Unnoticed;
    forall k | |before| <= k < e ensures IsDigit(At(s, k)) {
      DecimalDigits(n, k - |before|);
    }
    assert !IsDigit(At(s, e));
    DigitsEndIs(s, |before|, e);
    assert s[|before|..e] == Decimal(n);
    ReadBack(n, 10, false);
    ParserRightExactly(s, |before|);
  }

  // So parsing undoes printing.
  lemma ParserUndoesPrinter(before: string, n: nat, rest: string)
    requires n <= INT_MAX && (rest == "" || !IsDigit(rest[0]))
    ensures var s := before + Decimal(n) + rest;
            && IsDigit(At(s, |before|))
            && Scan(s, |before|, 0) == Number(n, |before| + |Decimal(n)|)
  {
    hide Unnoticed, Decimal;
    OutcomeOfInt(n, |before| + |Decimal(n)|);
    ParserReadsPrinter(before, n, rest);
  }

  lemma NumberThere(s: string, i: nat, n: nat, rest: string)
    requires i <= |s| && s[i..] == Decimal(n) + rest
    requires n <= INT_MAX && !IsDigit(At(rest, 0))
    ensures IsDigit(At(s, i)) && Scan(s, i, 0) == Number(n, i + |Decimal(n)|)
  {
    hide Scan, Decimal;
    assert s == s[..i] + Decimal(n) + rest;
    ParserUndoesPrinter(s[..i], n, rest);
  }
}
