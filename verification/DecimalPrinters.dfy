/** The decimal printers: two digits at a time, forwards into a sized region and backwards in FormatInt. */
module DecimalPrinters {
  import opened MachineWords
  import opened RadixDigits
  import opened DigitCount

  // "00" to "99", ten pairs a row.
  const ROW0: string := "00010203040506070809"
  const ROW1: string := "10111213141516171819"
  const ROW2: string := "20212223242526272829"
  const ROW3: string := "30313233343536373839"
  const ROW4: string := "40414243444546474849"
  const ROW5: string := "50515253545556575859"
  const ROW6: string := "60616263646566676869"
  const ROW7: string := "70717273747576777879"
  const ROW8: string := "80818283848586878889"
  const ROW9: string := "90919293949596979899"
  const ROWS: seq<string> := [ROW0, ROW1, ROW2, ROW3, ROW4, ROW5, ROW6, ROW7, ROW8, ROW9]
  const DIGITS: string := Joined(ROWS)

  function Joined(rows: seq<string>): string {
    if rows == [] then "" else rows[0] + Joined(rows[1..])
  }

  // The main type of a value is the 32- or 64-bit unsigned type that holds it.
  type Width = w: int | w == 32 || w == 64 witness 32

  function Modulus(bits: Width): nat {
    if bits == 32 then 0x1_0000_0000 else 0x1_0000_0000_0000_0000
  }

  // Values of the signed and of the unsigned type of that width.
  ghost predicate Representable(value: int, bits: Width) {
    -(Modulus(bits) / 2) <= value < Modulus(bits)
  }

  // Conversion to unsigned, and negation in unsigned arithmetic.
  function AbsValue(value: int, bits: Width): nat {
    var converted := value % Modulus(bits);
    if value < 0 then (0 - converted) % Modulus(bits) else converted
  }

  lemma AbsValueIsMagnitude(value: int, bits: Width)
    requires Representable(value, bits)
    ensures AbsValue(value, bits) == (if value < 0 then -value else value) < Modulus(bits)
  {
    if value < 0 {
      Wrapped(value, Modulus(bits));
      Wrapped(-value - Modulus(bits), Modulus(bits));
    } else {
      Wrapped(value - Modulus(bits), Modulus(bits));
    }
  }

  lemma Wrapped(x: int, m: nat)
    requires 0 <= x + m < m
    ensures x % m == x + m && (x + m) % m == x + m
  {
    var q, r := x / m, x % m;
    assert x == q * m + r;
    if q < -1 {
      MulMonotone(m, 1, -1 - q);
    } else if q >= 0 {
      MulMonotone(m, 0, q);
    }
  }

  predicate IsRow(row: string, tens: nat, units: nat)
    requires tens < 10 && units < 10
  {
    |row| == 20 && row[2 * units] == LOWER[tens] && row[2 * units + 1] == LOWER[units]
  }

  lemma Rows0And1(u: nat)
    requires u < 10
    ensures IsRow(ROW0, 0, u) && IsRow(ROW1, 1, u)
  {
    assert u == 0 || u == 1 || u == 2 || u == 3 || u == 4 || u == 5 || u == 6 || u == 7 || u == 8 || u == 9;
  }

  lemma Rows2And3(u: nat)
    requires u < 10
    ensures IsRow(ROW2, 2, u) && IsRow(ROW3, 3, u)
  {
    assert u == 0 || u == 1 || u == 2 || u == 3 || u == 4 || u == 5 || u == 6 || u == 7 || u == 8 || u == 9;
  }

  lemma Rows4And5(u: nat)
    requires u < 10
    ensures IsRow(ROW4, 4, u) && IsRow(ROW5, 5, u)
  {
    assert u == 0 || u == 1 || u == 2 || u == 3 || u == 4 || u == 5 || u == 6 || u == 7 || u == 8 || u == 9;
  }

  lemma Rows6And7(u: nat)
    requires u < 10
    ensures IsRow(ROW6, 6, u) && IsRow(ROW7, 7, u)
  {
    assert u == 0 || u == 1 || u == 2 || u == 3 || u == 4 || u == 5 || u == 6 || u == 7 || u == 8 || u == 9;
  }

  lemma Rows8And9(u: nat)
    requires u < 10
    ensures IsRow(ROW8, 8, u) && IsRow(ROW9, 9, u)
  {
    assert u == 0 || u == 1 || u == 2 || u == 3 || u == 4 || u == 5 || u == 6 || u == 7 || u == 8 || u == 9;
  }

  lemma {:induction false} JoinedAt(rows: seq<string>, i: nat, j: nat)
    requires i < |rows| && j < 20
    requires forall k :: 0 <= k < |rows| ==> |rows[k]| == 20
    ensures |Joined(rows)| == 20 * |rows| && Joined(rows)[20 * i + j] == rows[i][j]
    decreases |rows|
  {
    if i > 0 {
      JoinedAt(rows[1..], i - 1, j);
    } else if |rows| > 1 {
      JoinedAt(rows[1..], 0, j);
    }
  }

  lemma EveryRow(tens: nat, units: nat)
    requires tens < 10 && units < 10
    ensures |ROWS| == 10 && IsRow(ROWS[tens], tens, units)
  {
    if tens < 2 {
      Rows0And1(units);
    } else if tens < 4 {
      Rows2And3(units);
    } else if tens < 6 {
      Rows4And5(units);
    } else if tens < 8 {
      Rows6And7(units);
    } else {
      Rows8And9(units);
    }
  }

  lemma TablePair(v: nat)
    requires v < 100
    ensures |DIGITS| == 200
    ensures DIGITS[2 * v] == DigitChar(v / 10, false) && DIGITS[2 * v + 1] == DigitChar(v % 10, false)
  {
    hide Joined, ROWS, LOWER;
    var tens, units := v / 10, v % 10;
    forall k | 0 <= k < 10 ensures |ROWS| == 10 && |ROWS[k]| == 20 {
      EveryRow(k, 0);
    }
    EveryRow(tens, units);
    JoinedAt(ROWS, tens, 2 * units);
    JoinedAt(ROWS, tens, 2 * units + 1);
  }

  lemma TwoDigitsMore(n: nat)
    requires n >= 100
    ensures 2 * (n % 100) + 1 < |DIGITS| == 200
    ensures Decimal(n) == Decimal(n / 100) + [DIGITS[2 * (n % 100)], DIGITS[2 * (n % 100) + 1]]
  {
    hide DIGITS, DigitChar;
    TablePair(n % 100);
    assert n / 10 / 10 == n / 100 && n / 10 % 10 == n % 100 / 10 && n % 10 == n % 100 % 10;
    assert Decimal(n) == Decimal(n / 10) + [DigitChar(n % 10, false)];
    assert Decimal(n / 10) == Decimal(n / 10 / 10) + [DigitChar(n / 10 % 10, false)];
  }

  lemma LastDigits(n: nat)
    requires n < 100
    ensures |DIGITS| == 200
    ensures n < 10 ==> Decimal(n) == ['0' + n as char]
    ensures n >= 10 ==> Decimal(n) == [DIGITS[2 * n], DIGITS[2 * n + 1]]
  {
    hide DIGITS, DigitChar;
    TablePair(n);
    if n < 10 {
      DigitValueOfChar(n, false);
    } else {
      assert Decimal(n / 10) == [DigitChar(n / 10, false)];
    }
  }

  lemma LengthAtMost20(n: uint64)
    ensures |Decimal(n)| <= 20
    ensures n <= 0x8000_0000_0000_0000 ==> |Decimal(n)| <= 19
  {
    TableIsPowers(20);
    TableIsPowers(19);
    assert POWERS_OF_10_64[19] == 10000000000000000000;
    DigitsWithin(n, 20);
    if n <= 0x8000_0000_0000_0000 { DigitsWithin(n, 19); }
  }

  lemma {:induction false} DigitsWithin(n: nat, k: nat)
    requires k > 0 && n < Power(10, k)
    ensures |Decimal(n)| <= k
    decreases k
  {
    if n >= 10 { DigitsWithin(n / 10, k - 1); }
  }

  // The k cells from `top` downwards.
  function CellsDown(top: nat, k: nat): seq<nat>
    requires k <= top + 1
  {
    if k == 0 then [] else CellsDown(top, k - 1) + [top - (k - 1)]
  }

  lemma LastTwoDigits(n: nat)
    requires n >= 100
    ensures 2 * (n % 100) + 1 < |DIGITS|
    ensures var d, k := Decimal(n), |Decimal(n)| - 2;
            && k == |Decimal(n / 100)| > 0 && d[..k] == Decimal(n / 100)
            && d[k] == DIGITS[2 * (n % 100)] && d[k + 1] == DIGITS[2 * (n % 100) + 1]
  {
    hide DIGITS, InRadix;
    TwoDigitsMore(n);
  }

  // Writes value over the numDigits cells that start at `start`.  The ghost result lists the cells
  // written, in the order they were: from the last to the first, each once.
  method FormatDecimal(buffer: array<char>, start: nat, value: nat, numDigits: nat) returns (ghost writes: seq<nat>)
    requires numDigits == |Decimal(value)| && start + numDigits <= buffer.Length
    modifies buffer
    ensures buffer[start..start + numDigits] == Decimal(value)
    ensures forall i :: 0 <= i < buffer.Length && !(start <= i < start + numDigits) ==> buffer[i] == old(buffer[i])
    ensures writes == CellsDown(start + numDigits - 1, numDigits)
  {
    hide DIGITS, InRadix;
    ghost var digits, top := Decimal(value), start + numDigits - 1;
    var rest, last := value, start + numDigits - 1;
    writes := [];
    while rest >= 100
      invariant start <= last <= top && Decimal(rest) == digits[..last + 1 - start]
      invariant forall i :: last < i <= top ==> buffer[i] == digits[i - start]
      invariant forall i :: 0 <= i < buffer.Length && !(last < i <= top) ==> buffer[i] == old(buffer[i])
      invariant writes == CellsDown(top, top - last)
    {
      LastTwoDigits(rest);
      var index := rest % 100 * 2;
      rest := rest / 100;
      buffer[last] := DIGITS[index + 1];
      buffer[last - 1] := DIGITS[index];
      writes := writes + [last];
      writes := writes + [last - 1];
      last := last - 2;
    }
    ghost var leading := FormatLeading(buffer, start, rest);
    assert |Decimal(rest)| == last + 1 - start;
    assert CellsDown(top, top - last + 1) == writes + [last];
    writes := writes + leading;
    assert |leading| == 2 ==> writes == CellsDown(top, top - last + 1) + [start];
    forall i | start <= i <= top ensures buffer[i] == digits[i - start] {
      if i <= last { assert buffer[i] == Decimal(rest)[i - start]; }
    }
    assert buffer[start..start + numDigits] == digits;
  }

  // The last one or two cells.
  method FormatLeading(buffer: array<char>, start: nat, value: nat) returns (ghost writes: seq<nat>)
    requires value < 100 && start + |Decimal(value)| <= buffer.Length
    modifies buffer
    ensures forall i :: start <= i < start + |Decimal(value)| ==> buffer[i] == Decimal(value)[i - start]
    ensures forall i :: 0 <= i < buffer.Length && !(start <= i < start + |Decimal(value)|) ==> buffer[i] == old(buffer[i])
    ensures writes == if |Decimal(value)| == 1 then [start] else [start + 1, start]
    ensures |Decimal(value)| == if value < 10 then 1 else 2
  {
    hide DIGITS, InRadix;
    LastDigits(value);
    if value < 10 {
      buffer[start] := '0' + value as char;
      return [start];
    }
    var index := value * 2;
    buffer[start + 1] := DIGITS[index + 1];
    buffer[start] := DIGITS[index];
    return [start + 1, start];
  }

  // Formats value at position `pos` and returns the position after it.
  method FormatDecimalAt(buffer: array<char>, pos: nat, value: int, bits: Width) returns (end: nat)
    requires Representable(value, bits) && pos + |SignedDecimal(value)| <= buffer.Length
    modifies buffer
    ensures end == pos + |SignedDecimal(value)|
    ensures buffer[..] == old(buffer[..pos]) + SignedDecimal(value) + old(buffer[end..])
  {
    hide InRadix;
    AbsValueIsMagnitude(value, bits);
    var abs := AbsValue(value, bits);
    end := pos;
    if value < 0 {
      buffer[end] := '-';
      end := end + 1;
      assert buffer[..end] == old(buffer[..pos]) + "-";
    }
    end := FormatMagnitudeAt(buffer, end, abs, bits);
  }

  // What follows the sign: one or two digits from the table, or the digits counted first.
  method FormatMagnitudeAt(buffer: array<char>, pos: nat, abs: nat, bits: Width) returns (end: nat)
    requires abs < Modulus(bits) && pos + |Decimal(abs)| <= buffer.Length
    modifies buffer
    ensures end == pos + |Decimal(abs)|
    ensures buffer[..] == old(buffer[..pos]) + Decimal(abs) + old(buffer[end..])
  {
    hide DIGITS, InRadix;
    end := pos;
    if abs < 100 {
      LastDigits(abs);
      if abs < 10 {
        buffer[end] := '0' + abs as char;
        end := end + 1;
        return;
      }
      var index := abs * 2;
      buffer[end] := DIGITS[index];
      end := end + 1;
      buffer[end] := DIGITS[index + 1];
      end := end + 1;
      return;
    }
    var numDigits := CountDigits(abs, bits);
    var _ := FormatDecimal(buffer, end, abs, numDigits);
    end := end + numDigits;
  }

  // The overload resolved on the main type.
  method CountDigits(abs: nat, bits: Width) returns (numDigits: nat)
    requires abs < Modulus(bits)
    ensures numDigits == |Decimal(abs)|
  {
    if bits == 32 {
      CountDigits32IsLength(abs);
      numDigits := CountDigits32(abs);
    } else {
      CountDigits64IsLength(abs);
      numDigits := CountDigits64(abs);
    }
  }

  // The fast formatter with its own buffer, filled from the back.
  class FormatInt {
    const BUFFER_SIZE: nat := 22  // digits10 of the largest type, one more digit, a sign and a null
    const buffer: array<char>
    var str: nat

    ghost predicate Valid()
      reads this, buffer
    {
      buffer.Length == BUFFER_SIZE && str < BUFFER_SIZE
    }

    // What data() and size() delimit.
    function Str(): string
      requires Valid()
      reads this, buffer
    {
      buffer[str..BUFFER_SIZE - 1]
    }

    constructor Signed(value: int)
      requires -0x8000_0000_0000_0000 <= value < 0x8000_0000_0000_0000
      ensures Valid() && Str() == SignedDecimal(value)
    {
      buffer := new char[22];
      new;
      var abs := AbsValue(value, 64);
      AbsValueIsMagnitude(value, 64);
      LengthAtMost20(abs);
      str := FormatBackwards(abs);
      if value < 0 {
        str := str - 1;
        buffer[str] := '-';
      }
    }

    constructor Unsigned(value: uint64)
      ensures Valid() && Str() == Decimal(value)
    {
      buffer := new char[22];
      new;
      str := FormatBackwards(value);
    }

    method FormatBackwards(value: uint64) returns (p: nat)
      requires buffer.Length == BUFFER_SIZE
      modifies buffer
      ensures p == BUFFER_SIZE - 1 - |Decimal(value)| && buffer[p..BUFFER_SIZE - 1] == Decimal(value)
    {
      hide DIGITS, InRadix;
      LengthAtMost20(value);
      var rest: nat := value;
      p := BUFFER_SIZE - 1;
      while rest >= 100
        invariant p <= BUFFER_SIZE - 1 && |Decimal(rest)| + (BUFFER_SIZE - 1 - p) == |Decimal(value)|
        invariant Decimal(rest) + buffer[p..BUFFER_SIZE - 1] == Decimal(value)
      {
        TwoDigitsMore(rest);
        var index := rest % 100 * 2;
        rest := rest / 100;
        ghost var tail := buffer[p..BUFFER_SIZE - 1];
        p := p - 1;
        buffer[p] := DIGITS[index + 1];
        p := p - 1;
        buffer[p] := DIGITS[index];
        assert buffer[p..BUFFER_SIZE - 1] == [DIGITS[index], DIGITS[index + 1]] + tail;
      }
      LastDigits(rest);
      ghost var tail := buffer[p..BUFFER_SIZE - 1];
      if rest < 10 {
        p := p - 1;
        buffer[p] := '0' + rest as char;
      } else {
        var index := rest * 2;
        p := p - 1;
        buffer[p] := DIGITS[index + 1];
        p := p - 1;
        buffer[p] := DIGITS[index];
      }
      assert buffer[p..BUFFER_SIZE - 1] == Decimal(rest) + tail;
    }
  }
}
