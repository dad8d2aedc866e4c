/** The field an integer or a string is written into: fill, prefix, zeros and content, by alignment. */
module IntegerField {
  import opened RadixDigits

  datatype Alignment = ALIGN_DEFAULT | ALIGN_LEFT | ALIGN_RIGHT | ALIGN_CENTER | ALIGN_NUMERIC

  // A full format specifier; the flags are the bits of its flag word.
  datatype FormatSpec = FormatSpec(
    width: nat, fill: char, align: Alignment,
    sign: bool, plus: bool, minus: bool, hash: bool, isChar: bool,
    precision: int, typeCode: char)

  const NO_TYPE: char := '\0'
  const DEFAULT_SPEC: FormatSpec :=
    FormatSpec(0, ' ', ALIGN_DEFAULT, false, false, false, false, false, -1, NO_TYPE)

  function Repeat(c: char, n: nat): (s: string)
    ensures |s| == n
    ensures forall i :: 0 <= i < n ==> s[i] == c
  {
    seq(n, _ => c)
  }

  predicate KnownType(typeCode: char) {
    typeCode in {NO_TYPE, 'd', 'x', 'X', 'b', 'B', 'o'}
  }

  function RadixOf(typeCode: char): Radix {
    if typeCode == 'x' || typeCode == 'X' then 16
    else if typeCode == 'b' || typeCode == 'B' then 2
    else if typeCode == 'o' then 8
    else 10
  }

  // The digits of a value, without sign.
  function Magnitude(value: int, typeCode: char): (s: string)
    ensures |s| > 0
  {
    InRadix(if value < 0 then -value else value, RadixOf(typeCode), typeCode == 'X')
  }

  function SignOf(value: int, spec: FormatSpec): string {
    if value < 0 then "-" else if spec.sign then (if spec.plus then "+" else " ") else ""
  }

  function Prefix(value: int, spec: FormatSpec): string {
    SignOf(value, spec) +
    if !spec.hash then ""
    else if spec.typeCode in {'x', 'X', 'b', 'B'} then ['0', spec.typeCode]
    else if spec.typeCode == 'o' then "0"
    else ""
  }

  // How a field is divided: fill on the left, prefix, fill inside, zeros, content, fill on the right.
  datatype Layout = Layout(left: nat, prefix: string, inner: nat, zeros: nat, right: nat)

  // With a precision above the number of digits, zeros are added, an octal '0' prefix counts as one
  // of them, and the alignment only decides between left and right.
  function LayoutOf(spec: FormatSpec, prefix: string, numDigits: nat): Layout {
    var zeros := if spec.precision > numDigits then spec.precision - numDigits else 0;
    var p := if zeros > 0 && prefix != "" && prefix[|prefix| - 1] == '0' then prefix[..|prefix| - 1] else prefix;
    var size := |p| + zeros + numDigits;
    var padding := if spec.width > size then spec.width - size else 0;
    if spec.align == ALIGN_LEFT then Layout(0, p, 0, zeros, padding)
    else if spec.align == ALIGN_CENTER && zeros == 0 then Layout(padding / 2, p, 0, zeros, padding - padding / 2)
    else if spec.align == ALIGN_NUMERIC && zeros == 0 then Layout(0, p, padding, zeros, 0)
    else Layout(padding, p, 0, zeros, 0)
  }

  function Before(l: Layout, fill: char): string {
    Repeat(fill, l.left) + l.prefix + Repeat(fill, l.inner) + Repeat('0', l.zeros)
  }

  function After(l: Layout, fill: char): string {
    Repeat(fill, l.right)
  }

  function Field(value: int, spec: FormatSpec): string {
    var digits := Magnitude(value, spec.typeCode);
    var l := LayoutOf(spec, Prefix(value, spec), |digits|);
    Before(l, spec.fill) + digits + After(l, spec.fill)
  }

  function StringField(s: string, spec: FormatSpec): string {
    var padding := if spec.width > |s| then spec.width - |s| else 0;
    if spec.align == ALIGN_RIGHT then Repeat(spec.fill, padding) + s
    else if spec.align == ALIGN_CENTER then Repeat(spec.fill, padding / 2) + s + Repeat(spec.fill, padding - padding / 2)
    else s + Repeat(spec.fill, padding)
  }

  // The characters before the digits: a sign and what the hash flag adds for the radix.
  lemma PrefixText(value: int, spec: FormatSpec)
    ensures SignOf(value, spec) == if value < 0 then "-" else if !spec.sign then "" else if spec.plus then "+" else " "
    ensures Prefix(value, spec) == SignOf(value, spec) +
              if !spec.hash then "" else if spec.typeCode == 'x' then "0x" else if spec.typeCode == 'X' then "0X"
              else if spec.typeCode == 'b' then "0b" else if spec.typeCode == 'B' then "0B"
              else if spec.typeCode == 'o' then "0" else ""
  {
  }

  // The digits: of the absolute value, in the radix and the case of the type letter.
  lemma DigitsText(value: int, typeCode: char)
    ensures var n := if value < 0 then -value else value;
            Magnitude(value, typeCode) ==
              if typeCode == 'x' then InRadix(n, 16, false) else if typeCode == 'X' then InRadix(n, 16, true)
              else if typeCode == 'o' then InRadix(n, 8, false)
              else if typeCode == 'b' || typeCode == 'B' then InRadix(n, 2, false)
              else Decimal(n)
  {
  }

  // Where everything lies.  Added zeros take the place of an octal zero and leave only left and right.
  lemma FieldText(value: int, spec: FormatSpec)
    ensures var digits := Magnitude(value, spec.typeCode);
            var zeros := Repeat('0', if spec.precision > |digits| then spec.precision - |digits| else 0);
            var prefix := if zeros != "" && spec.hash && spec.typeCode == 'o' then SignOf(value, spec) else Prefix(value, spec);
            var content := prefix + zeros + digits;
            var padding := if spec.width > |content| then spec.width - |content| else 0;
            var fill, half, rest :=
              Repeat(spec.fill, padding), Repeat(spec.fill, padding / 2), Repeat(spec.fill, padding - padding / 2);
            && (spec.align == ALIGN_LEFT ==> Field(value, spec) == content + fill)
            && (spec.align in {ALIGN_RIGHT, ALIGN_DEFAULT} || (zeros != "" && spec.align != ALIGN_LEFT) ==>
                 Field(value, spec) == fill + content)
            && (spec.align == ALIGN_NUMERIC && zeros == "" ==> Field(value, spec) == prefix + fill + digits)
            && (spec.align == ALIGN_CENTER && zeros == "" ==> Field(value, spec) == half + content + rest)
  {
    hide Magnitude, Prefix, SignOf, Field, Repeat;
    PrefixEndsInZero(value, spec);
    if spec.hash && spec.typeCode == 'o' { OctalPrefix(value, spec); }
    var l := LayoutOf(spec, Prefix(value, spec), |Magnitude(value, spec.typeCode)|);
    FieldInParts(value, spec);
    FieldParts(Repeat(spec.fill, l.left), l.prefix, Repeat(spec.fill, l.inner), Repeat('0', l.zeros),
               Magnitude(value, spec.typeCode), Repeat(spec.fill, l.right));
  }

  // Without added zeros: prefix and digits, and the fill behind, before, between or around them.
  lemma FieldWithoutZeros(value: int, spec: FormatSpec)
    requires spec.precision <= |Magnitude(value, spec.typeCode)|
    ensures var prefix, digits := Prefix(value, spec), Magnitude(value, spec.typeCode);
            var content := prefix + digits;
            var padding := if spec.width > |content| then spec.width - |content| else 0;
            Field(value, spec) ==
              match spec.align
              case ALIGN_LEFT => content + Repeat(spec.fill, padding)
              case ALIGN_NUMERIC => prefix + Repeat(spec.fill, padding) + digits
              case ALIGN_CENTER => Repeat(spec.fill, padding / 2) + content + Repeat(spec.fill, padding - padding / 2)
              case _ => Repeat(spec.fill, padding) + content
  {
    hide Magnitude, Prefix, SignOf, Field;
    FieldText(value, spec);
    var prefix, digits := Prefix(value, spec), Magnitude(value, spec.typeCode);
    assert Repeat('0', 0) == "";
    assert prefix + "" + digits == prefix + digits;
    hide Repeat;
  }

  lemma FieldInParts(value: int, spec: FormatSpec)
    ensures var digits := Magnitude(value, spec.typeCode);
            var l := LayoutOf(spec, Prefix(value, spec), |digits|);
            Field(value, spec) == Repeat(spec.fill, l.left) + l.prefix + Repeat(spec.fill, l.inner) + Repeat('0', l.zeros)
                                  + digits + Repeat(spec.fill, l.right)
  {
  }

  lemma OctalPrefix(value: int, spec: FormatSpec)
    requires spec.hash && spec.typeCode == 'o'
    ensures Prefix(value, spec) == SignOf(value, spec) + "0"
    ensures Prefix(value, spec)[..|Prefix(value, spec)| - 1] == SignOf(value, spec)
  {
    assert SignOf(value, spec) + "0" == Prefix(value, spec);
  }

  lemma FieldParts(left: string, prefix: string, inner: string, zeros: string, digits: string, right: string)
    ensures var field := left + prefix + inner + zeros + digits + right;
            && (left == "" && inner == "" ==> field == prefix + zeros + digits + right)
            && (inner == "" && right == "" ==> field == left + (prefix + zeros + digits))
            && (left == "" && zeros == "" && right == "" ==> field == prefix + inner + digits)
            && (inner == "" ==> field == left + (prefix + zeros + digits) + right)
  {
  }

  // The field is exactly as long as asked, or as long as its content needs.
  lemma FieldLength(value: int, spec: FormatSpec)
    ensures var n, p, prefix := |Magnitude(value, spec.typeCode)|, spec.precision, Prefix(value, spec);
            var absorbed := if p > n && spec.hash && spec.typeCode == 'o' then 1 else 0;
            var needed := |prefix| - absorbed + (if p > n then p else n);
            |Field(value, spec)| == if spec.width > needed then spec.width else needed
  {
    hide Magnitude, Prefix;
    PrefixEndsInZero(value, spec);
  }

  lemma PrefixEndsInZero(value: int, spec: FormatSpec)
    ensures var p := Prefix(value, spec);
            p != "" && p[|p| - 1] == '0' <==> spec.hash && spec.typeCode == 'o'
  {
  }

  lemma {:induction false} LeadingZerosKeepValue(k: nat, s: string, radix: Radix)
    ensures Value(Repeat('0', k) + s, radix) == Value(s, radix)
    decreases |s|, k
  {
    var z := Repeat('0', k);
    if s != "" {
      var init, last := s[..|s| - 1], s[|s| - 1];
      assert z + s == (z + init) + [last];
      assert s == init + [last];
      ValueSnoc(z + init, last, radix);
      ValueSnoc(init, last, radix);
      LeadingZerosKeepValue(k, init, radix);
    } else if k > 0 {
      assert z + s == (Repeat('0', k - 1) + "") + "0";
      ValueSnoc(Repeat('0', k - 1) + "", '0', radix);
      LeadingZerosKeepValue(k - 1, "", radix);
    }
  }

  // The zeros and digits of the field, read back in its radix, are the absolute value.
  lemma FieldDigitsReadBack(value: int, spec: FormatSpec)
    ensures var digits := Magnitude(value, spec.typeCode);
            var l := LayoutOf(spec, Prefix(value, spec), |digits|);
            var from, to := l.left + |l.prefix| + l.inner, |Field(value, spec)| - l.right;
            && from <= to
            && Value(Field(value, spec)[from..to], RadixOf(spec.typeCode)) == if value < 0 then -value else value
  {
    var digits := Magnitude(value, spec.typeCode);
    var l := LayoutOf(spec, Prefix(value, spec), |digits|);
    var from, to := l.left + |l.prefix| + l.inner, |Field(value, spec)| - l.right;
    assert Field(value, spec)[from..to] == Repeat('0', l.zeros) + digits;
    LeadingZerosKeepValue(l.zeros, digits, RadixOf(spec.typeCode));
    ReadBack(if value < 0 then -value else value, RadixOf(spec.typeCode), spec.typeCode == 'X');
  }

  // Reading a whole field: blanks are skipped, then an optional sign, then digits.
  function WithoutBlanks(s: string): string {
    if s == "" then "" else (if s[0] == ' ' then "" else [s[0]]) + WithoutBlanks(s[1..])
  }

  function ReadSigned(s: string, radix: Radix): int {
    if s != "" && s[0] == '-' then 0 - Value(s[1..], radix)
    else if s != "" && s[0] == '+' then Value(s[1..], radix)
    else Value(s, radix)
  }

  lemma {:induction false} WithoutBlanksConcat(s: string, t: string)
    ensures WithoutBlanks(s + t) == WithoutBlanks(s) + WithoutBlanks(t)
  {
    if s == "" {
      assert s + t == t;
    } else {
      assert (s + t)[1..] == s[1..] + t;
      WithoutBlanksConcat(s[1..], t);
    }
  }

  lemma {:induction false} AllBlank(s: string)
    requires forall i :: 0 <= i < |s| ==> s[i] == ' '
    ensures WithoutBlanks(s) == ""
  {
    if s != "" { AllBlank(s[1..]); }
  }

  lemma {:induction false} NoneBlank(s: string)
    requires forall i :: 0 <= i < |s| ==> s[i] != ' '
    ensures WithoutBlanks(s) == s
  {
    if s != "" { NoneBlank(s[1..]); }
  }

  lemma {:induction false} DigitsAreNotSigns(n: nat, radix: Radix, upper: bool, i: nat)
    requires i < |InRadix(n, radix, upper)|
    ensures InRadix(n, radix, upper)[i] !in {' ', '+', '-'}
    decreases n
  {
    hide DigitChar;
    QuotientAndRemainder(n, radix);
    DigitCharIsNoSign(n % radix, upper);
    if n >= radix && i < |InRadix(n / radix, radix, upper)| {
      DigitsAreNotSigns(n / radix, radix, upper, i);
    }
  }

  lemma BlanksVanish(left: string, sign: string, inner: string, number: string, right: string)
    requires forall i :: 0 <= i < |left| ==> left[i] == ' '
    requires forall i :: 0 <= i < |inner| ==> inner[i] == ' '
    requires forall i :: 0 <= i < |right| ==> right[i] == ' '
    requires forall i :: 0 <= i < |number| ==> number[i] != ' '
    ensures WithoutBlanks(left + sign + inner + number + right) == WithoutBlanks(sign) + number
  {
    hide WithoutBlanks;
    WithoutBlanksConcat(left + sign + inner + number, right);
    WithoutBlanksConcat(left + sign + inner, number);
    WithoutBlanksConcat(left + sign, inner);
    WithoutBlanksConcat(left, sign);
    AllBlank(left);
    AllBlank(inner);
    AllBlank(right);
    NoneBlank(number);
  }

  lemma SignRead(sign: string, number: string, radix: Radix)
    requires number != "" && number[0] !in {' ', '+', '-'}
    requires sign in {"", " ", "+", "-"}
    ensures ReadSigned(WithoutBlanks(sign) + number, radix)
         == if sign == "-" then 0 - Value(number, radix) else Value(number, radix)
  {
    var visible := WithoutBlanks(sign) + number;
    if sign == "" || sign == " " {
      if sign == " " { AllBlank(sign); }
      assert visible == number;
    } else {
      NoneBlank(sign);
      assert visible == sign + number && visible[1..] == number;
    }
  }

  lemma FieldInPieces(value: int, spec: FormatSpec)
    requires !spec.hash
    ensures var digits, sign := Magnitude(value, spec.typeCode), SignOf(value, spec);
            var l := LayoutOf(spec, sign, |digits|);
            Field(value, spec) == Repeat(spec.fill, l.left) + sign + Repeat(spec.fill, l.inner)
                                  + (Repeat('0', l.zeros) + digits) + Repeat(spec.fill, l.right)
  {
    hide Magnitude, Repeat;
    var digits, sign := Magnitude(value, spec.typeCode), SignOf(value, spec);
    assert Prefix(value, spec) == sign;
    assert LayoutOf(spec, sign, |digits|).prefix == sign;
  }

  // Whatever the width, alignment, precision and sign flags, a blank-filled field reads back as the value.
  lemma FieldReadsBack(value: int, spec: FormatSpec)
    requires spec.fill == ' ' && !spec.hash
    ensures ReadSigned(WithoutBlanks(Field(value, spec)), RadixOf(spec.typeCode)) == value
  {
    hide InRadix, Value, ReadSigned, WithoutBlanks, LayoutOf, Field, Repeat;
    var digits, sign := Magnitude(value, spec.typeCode), SignOf(value, spec);
    var radix, abs := RadixOf(spec.typeCode), if value < 0 then -value else value;
    var l := LayoutOf(spec, sign, |digits|);
    var number := Repeat('0', l.zeros) + digits;
    forall i | 0 <= i < |digits| ensures digits[i] !in {' ', '+', '-'} {
      DigitsAreNotSigns(abs, radix, spec.typeCode == 'X', i);
    }
    FieldInPieces(value, spec);
    BlanksVanish(Repeat(' ', l.left), sign, Repeat(' ', l.inner), number, Repeat(' ', l.right));
    LeadingZerosKeepValue(l.zeros, digits, radix);
    ReadBack(abs, radix, spec.typeCode == 'X');
    SignRead(sign, number, radix);
  }
}
