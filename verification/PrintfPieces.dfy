/** A grammar for printf formats: what is written down as literals and conversions is what comes out. */
module PrintfPieces {
  import opened MachineWords
  import opened RadixDigits
  import opened NumberParser
  import opened IntegerField
  import opened Collections
  import opened FormatArgs
  import opened PrintfFormat
  import ArgList

  datatype Amount = Nothing | Fixed(value: nat) | FromArg
  datatype Point = NoPoint | Point(amount: Amount)

  // The parts of a conversion as a person would write them down.
  datatype Shape = Shape(number: Option<nat>, flags: string, width: Amount, point: Point, length: Length, typeCode: char)

  datatype Piece = Literal(text: string) | Field(shape: Shape)

  predicate IsTypeCode(c: char) {
    c !in "\0hljztL*.%$" && !IsFlag(c) && !IsDigit(c)
  }

  // Numbers fit in an int, a width is not zero, and the type cannot be taken for anything before it.
  predicate Canonical(shape: Shape) {
    && (shape.number.Some? ==> shape.number.value <= INT_MAX)
    && (forall c <- shape.flags :: IsFlag(c))
    && (shape.width.Fixed? ==> 0 < shape.width.value <= INT_MAX)
    && (shape.point.Point? && shape.point.amount.Fixed? ==> shape.point.amount.value <= INT_MAX)
    && IsTypeCode(shape.typeCode)
  }

  predicate PieceFits(piece: Piece) {
    match piece
    case Literal(text) => '\0' !in text
    case Field(shape) => Canonical(shape)
  }

  // Writing the parts down.
  function Escaped(text: string): string {
    if text == "" then ""
    else (if text[0] == '%' then "%%" else [text[0]]) + Escaped(text[1..])
  }

  function NumberText(number: Option<nat>): string {
    if number.Some? then Decimal(number.value) + "$" else ""
  }

  function AmountText(amount: Amount): string {
    match amount
    case Nothing => ""
    case Fixed(value) => Decimal(value)
    case FromArg => "*"
  }

  function PointText(point: Point): string {
    if point.Point? then "." + AmountText(point.amount) else ""
  }

  function LengthText(length: Length): string {
    match length
    case NO_LENGTH => ""
    case HH => "hh"
    case H => "h"
    case LONG => "l"
    case LONG2 => "ll"
    case INTMAX => "j"
    case SIZE => "z"
    case PTRDIFF => "t"
    case LONGDOUBLE => "L"
  }

  // Each of these is followed by the rest of the format string.
  function TypedText(shape: Shape, rest: string): string {
    LengthText(shape.length) + ([shape.typeCode] + rest)
  }

  function PreciseText(shape: Shape, rest: string): string {
    PointText(shape.point) + TypedText(shape, rest)
  }

  function WideText(shape: Shape, rest: string): string {
    AmountText(shape.width) + PreciseText(shape, rest)
  }

  function FlaggedText(shape: Shape, rest: string): string {
    shape.flags + WideText(shape, rest)
  }

  function ConversionText(shape: Shape, rest: string): string {
    NumberText(shape.number) + FlaggedText(shape, rest)
  }

  function FormatText(pieces: seq<Piece>): string {
    if pieces == [] then ""
    else
      var rest := FormatText(pieces[1..]);
      match pieces[0]
      case Literal(text) => Escaped(text) + rest
      case Field(shape) => "%" + ConversionText(shape, rest)
  }

  // What the parts mean.
  function ArgumentOf(args: seq<Arg>, number: Option<nat>, next: int): Option<Taken> {
    var index := if number.None? then next else number.value - 1;
    if (if number.None? then next < 0 else next > 0) then None
    else if 0 <= index < |args| && index < ArgList.MAX_ARGS && args[index].kind != NONE then
      Some(Taken(args[index], if number.None? then next + 1 else -1))
    else None
  }

  // A width or precision: its value and the index state after it; limits are those of its use.
  function AmountMeant(args: seq<Arg>, amount: Amount, low: int, next: int): Option<(int, int)> {
    match amount
    case Nothing => None
    case Fixed(value) => Some((value, next))
    case FromArg =>
      var taken := ArgumentOf(args, None, next);
      if taken.Some? && taken.value.arg.kind in {INT, UINT, LONG_LONG, ULONG_LONG, CHAR} && low <= taken.value.arg.number <= INT_MAX
      then Some((taken.value.arg.number, taken.value.next))
      else None
  }

  function WidthMeant(args: seq<Arg>, shape: Shape, next: int): Option<(int, int)> {
    if shape.width.Nothing? then Some((0, next)) else AmountMeant(args, shape.width, INT_MIN + 1, next)
  }

  function PrecisionMeant(args: seq<Arg>, shape: Shape, next: int): Option<(int, int)> {
    if shape.point.NoPoint? || shape.point.amount.Nothing? then
      var none: int := -1;
      Some((none, next))
    else AmountMeant(args, shape.point.amount, INT_MIN, next)
  }

  function SpecMeant(shape: Shape, width: int, precision: int, arg: Arg): FormatSpec {
    var isText := arg.kind in {CSTRING, STRING, WSTRING, ADDRESS};
    var zeros := '0' in shape.flags && !isText;
    var isZero := arg.kind in {INT, UINT, LONG_LONG, ULONG_LONG, CHAR} && arg.number == 0;
    FormatSpec(if width < 0 then -width else width,
               if zeros then '0' else ' ',
               if zeros then ALIGN_NUMERIC else if width < 0 || '-' in shape.flags then ALIGN_LEFT else ALIGN_RIGHT,
               '+' in shape.flags || ' ' in shape.flags, '+' in shape.flags, false,
               '#' in shape.flags && !isZero, false, precision, NO_TYPE)
  }

  predicate IsIntegerKind(kind: Kind) {
    kind in {INT, UINT, LONG_LONG, ULONG_LONG, CHAR}
  }

  // The letters i and u stand for decimal digits, like d.
  function LetterMeant(kind: Kind, letter: char): char {
    if IsIntegerKind(kind) && letter in {'i', 'u'} then 'd' else letter
  }

  // The word of 2^n values that a number is reduced to: from zero on, or around zero.
  function Reduced(n: int, modulus: nat, isSigned: bool): int
    requires modulus > 0
  {
    if isSigned then (n + modulus / 2) % modulus - modulus / 2 else n % modulus
  }

  // The type an integer is converted to by its length and letter; a 64-bit one through the unsigned type
  // of the integer's own width.
  function ArgMeant(arg: Arg, length: Length, letter: char): Arg {
    var isSigned := letter in {'d', 'i'};
    var number :=
      match length
      case HH => Reduced(arg.number, 0x100, isSigned)
      case H => Reduced(arg.number, 0x1_0000, isSigned)
      case NO_LENGTH => Reduced(arg.number, TWO32, isSigned)
      case LONGDOUBLE => arg.number
      case _ =>
        var word := if arg.kind in {LONG_LONG, ULONG_LONG} then arg.number else Reduced(arg.number, TWO32, false);
        Reduced(word, TWO64, isSigned);
    if !IsIntegerKind(arg.kind) then arg
    else if letter == 'c' then Arg(CHAR, Reduced(number, 0x100, true), arg.text)
    else if length.LONGDOUBLE? then arg
    else if length in {NO_LENGTH, HH, H} then Arg(if isSigned then INT else UINT, number, arg.text)
    else Arg(if isSigned then LONG_LONG else ULONG_LONG, number, arg.text)
  }

  // What is written with which specifier, and the index state after the conversion.
  datatype Meaning = Meaning(spec: FormatSpec, arg: Arg, next: int)

  function ConversionMeant(args: seq<Arg>, shape: Shape, next: int): Option<Meaning> {
    var width := WidthMeant(args, shape, next);
    if width.None? then None
    else
      var precision := PrecisionMeant(args, shape, width.value.1);
      if precision.None? then None
      else
        var taken := ArgumentOf(args, shape.number, precision.value.1);
        if taken.None? then None
        else
          var spec := SpecMeant(shape, width.value.0, precision.value.0, taken.value.arg);
          var arg := ArgMeant(taken.value.arg, shape.length, shape.typeCode);
          Some(Meaning(spec.(typeCode := LetterMeant(taken.value.arg.kind, shape.typeCode)), arg, taken.value.next))
  }

  // The argument a conversion is for, found behind those of its width and precision.
  function TakenMeant(args: seq<Arg>, shape: Shape, next: int): Option<Taken> {
    var width := WidthMeant(args, shape, next);
    if width.None? then None
    else
      var precision := PrecisionMeant(args, shape, width.value.1);
      if precision.None? then None else ArgumentOf(args, shape.number, precision.value.1)
  }

  function FieldMeant(args: seq<Arg>, write: Renderer, shape: Shape, next: int): Option<(string, int)> {
    var meaning := ConversionMeant(args, shape, next);
    if meaning.None? then None
    else
      var text := write(meaning.value.spec, meaning.value.arg);
      if text.Error? then None else Some((text.value, meaning.value.next))
  }

  function Meant(args: seq<Arg>, write: Renderer, pieces: seq<Piece>, next: int): Option<string> {
    if pieces == [] then Some("")
    else
      var first := match pieces[0]
                   case Literal(text) => Some((text, next))
                   case Field(shape) => FieldMeant(args, write, shape, next);
      if first.None? then None
      else
        var rest := Meant(args, write, pieces[1..], first.value.1);
        if rest.None? then None else Some(first.value.0 + rest.value)
  }

  lemma SignedIsReduced(n: int, modulus: nat)
    requires modulus in {0x100, 0x1_0000, TWO32, TWO64}
    ensures ToSigned(n, modulus) == Reduced(n, modulus, true)
  {
    var half, q, r := modulus / 2, n / modulus, n % modulus;
    assert n == q * modulus + r;
    if r < half {
      Remainder(n + half, modulus, q, r + half);
    } else {
      Remainder(n + half, modulus, q + 1, r - half);
    }
  }

  lemma Remainder(n: int, d: nat, q: int, r: nat)
    requires d in {0x100, 0x1_0000, TWO32, TWO64} && r < d && n == q * d + r
    ensures n % d == r
  {
  }

  // What the conversion of an argument and its letter come to.
  lemma ConvertedMeans(arg: Arg, length: Length, letter: char)
    ensures Normalized(letter, ConvertArg(arg, length, letter)) == (LetterMeant(arg.kind, letter), ArgMeant(arg, length, letter))
  {
    hide ToSigned, ToUnsigned, Reduced;
    SignedIsReduced(arg.number, 0x100);
    SignedIsReduced(arg.number, 0x1_0000);
    SignedIsReduced(arg.number, TWO32);
    UnsignedIsReduced(arg.number);
    var word := if arg.kind in {LONG_LONG, ULONG_LONG} then arg.number else Reduced(arg.number, TWO32, false);
    SignedIsReduced(word, TWO64);
    UnsignedIsReduced(word);
    WordTwice(arg.number);
    SignedIsReduced(ConvertArg(arg, length, letter).number, 0x100);
  }

  lemma WordTwice(n: int)
    ensures ToSigned(ToUnsigned(n, TWO64), TWO64) == ToSigned(n, TWO64)
    ensures ToUnsigned(ToUnsigned(n, TWO32), TWO64) == ToUnsigned(n, TWO32)
  {
  }

  lemma UnsignedIsReduced(n: int)
    ensures forall modulus: nat :: modulus > 0 ==> ToUnsigned(n, modulus) == Reduced(n, modulus, false)
  {
  }

  // Reading the parts back, from the last to the first.
  lemma LengthThere(s: string, i: nat, length: Length, typeCode: char, rest: string)
    requires i <= |s| && s[i..] == LengthText(length) + ([typeCode] + rest) && IsTypeCode(typeCode)
    ensures ReadLength(s, i) == (length, i + |LengthText(length)|)
    ensures var end := i + |LengthText(length)|; end < |s| && s[end] == typeCode && s[end + 1..] == rest
  {
    hide IsTypeCode, ReadLength, LengthText;
    var text, end := LengthText(length), i + |LengthText(length)|;
    Move(s, i, text, [typeCode] + rest);
    Move(s, end, [typeCode], rest);
    assert At(s, end) == typeCode;
    if text != "" { assert At(s, i + 0) == text[0]; }
    LengthReads(s, i, length, typeCode);
  }

  lemma LengthReads(s: string, i: nat, length: Length, typeCode: char)
    requires IsTypeCode(typeCode)
    requires var text := LengthText(length);
             && i + |text| <= |s| && At(s, i + |text|) == typeCode
             && (forall k :: 0 <= k < |text| ==> At(s, i + k) == text[k])
    ensures ReadLength(s, i) == (length, i + |LengthText(length)|)
  {
    var text := LengthText(length);
    if text != "" { assert At(s, i + 0) == text[0]; }
    if |text| == 2 { assert At(s, i + 1) == text[1]; }
  }

  lemma TypeThere(s: string, i: nat, shape: Shape, spec: FormatSpec, taken: Taken, rest: string)
    requires i <= |s| && s[i..] == TypedText(shape, rest) && Canonical(shape)
    ensures var r := ReadType(s, i, spec, taken);
            var typeCode := LetterMeant(taken.arg.kind, shape.typeCode);
            var arg := ArgMeant(taken.arg, shape.length, shape.typeCode);
            r.Ok? && r.value.spec == spec.(typeCode := typeCode) && r.value.arg == arg && r.value.next == taken.next
    ensures s[ReadType(s, i, spec, taken).value.i..] == rest
  {
    ConvertedMeans(taken.arg, shape.length, shape.typeCode);
    hide Normalized, ConvertArg, ReadLength, LengthText, LetterMeant, ArgMeant;
    LengthThere(s, i, shape.length, shape.typeCode, rest);
  }

  lemma GetArgMeans(args: seq<Arg>, s: string, i: nat, number: Option<nat>, next: int)
    ensures var r, meant := GetArg(args, s, i, number, next), ArgumentOf(args, number, next);
            && (meant.None? ==> r.Error?)
            && (meant.Some? ==> r == Ok(meant.value) && meant.value.arg.kind != NONE)
  {
  }

  lemma PrecisionThere(args: seq<Arg>, s: string, i: nat, shape: Shape, next: int, rest: string)
    requires i <= |s| && s[i..] == PreciseText(shape, rest) && Canonical(shape)
    ensures var r, meant := ReadPrecision(args, s, i, next), PrecisionMeant(args, shape, next);
            && (meant.None? ==> r.Error?)
            && (meant.Some? ==> r == Ok(Precision(i + |PointText(shape.point)|, meant.value.0, meant.value.1)))
    ensures i + |PointText(shape.point)| <= |s| && s[i + |PointText(shape.point)|..] == TypedText(shape, rest)
  {
    hide Decimal, Scan, GetArg, ArgumentOf, TypedText;
    var tail := TypedText(shape, rest);
    TypedStart(shape, rest);
    Move(s, i, PointText(shape.point), tail);
    if shape.point.Point? {
      var amount := AmountText(shape.point.amount);
      assert PointText(shape.point) + tail == "." + (amount + tail);
      Move(s, i, ".", amount + tail);
      Move(s, i + 1, amount, tail);
      if shape.point.amount.Fixed? { NumberThere(s, i + 1, shape.point.amount.value, tail); }
      if shape.point.amount.FromArg? { GetArgMeans(args, s, i + 2, None, next); }
    }
  }

  lemma TypedStart(shape: Shape, rest: string)
    requires Canonical(shape)
    ensures var c := At(TypedText(shape, rest), 0); !IsFlag(c) && !IsDigit(c) && c !in "\0*.%$"
  {
    var text := TypedText(shape, rest);
    assert LengthText(shape.length) == "" ==> text == [shape.typeCode] + rest;
    assert LengthText(shape.length) != "" ==> At(text, 0) == LengthText(shape.length)[0];
  }

  lemma PreciseStart(shape: Shape, rest: string)
    requires Canonical(shape)
    ensures var c := At(PreciseText(shape, rest), 0); !IsFlag(c) && !IsDigit(c) && c !in "\0*%$"
  {
    hide TypedText;
    TypedStart(shape, rest);
    assert shape.point.NoPoint? ==> PreciseText(shape, rest) == TypedText(shape, rest);
  }

  lemma WideStart(shape: Shape, rest: string)
    requires Canonical(shape)
    ensures var c := At(WideText(shape, rest), 0); !IsFlag(c) && c !in "\0%$" && (IsDigit(c) <==> shape.width.Fixed?)
  {
    hide InRadix, PreciseText;
    PreciseStart(shape, rest);
    var text := AmountText(shape.width);
    assert text == "" ==> WideText(shape, rest) == PreciseText(shape, rest);
    if shape.width.Fixed? {
      NoLeadingZero(shape.width.value, 10, false);
      DecimalDigits(shape.width.value, 0);
      assert At(WideText(shape, rest), 0) == text[0];
    }
  }

  // Flags, one after the other.
  function WithFlags(spec: FormatSpec, flags: string): FormatSpec
    decreases |flags|
  {
    if flags == "" then spec else WithFlags(WithFlag(spec, flags[0]), flags[1..])
  }

  function Flagged(spec: FormatSpec, left: bool, plus: bool, space: bool, hash: bool, zero: bool): FormatSpec {
    spec.(align := if left then ALIGN_LEFT else spec.align, sign := spec.sign || plus || space, plus := spec.plus || plus,
          hash := spec.hash || hash, fill := if zero then '0' else spec.fill)
  }

  lemma {:induction false} WithFlagsMeans(spec: FormatSpec, flags: string)
    requires forall c <- flags :: IsFlag(c)
    ensures WithFlags(spec, flags) ==
            Flagged(spec, '-' in flags, '+' in flags, ' ' in flags, '#' in flags, '0' in flags)
    decreases |flags|
  {
    if flags != "" {
      var c, rest := flags[0], flags[1..];
      assert IsFlag(c);
      WithFlagsMeans(WithFlag(spec, c), rest);
      FlaggedTwice(spec, c, '-' in rest, '+' in rest, ' ' in rest, '#' in rest, '0' in rest);
      assert flags == [c] + rest;
      hide Flagged, WithFlag;
    }
  }

  lemma FlaggedTwice(spec: FormatSpec, c: char, left: bool, plus: bool, space: bool, hash: bool, zero: bool)
    requires IsFlag(c)
    ensures Flagged(WithFlag(spec, c), left, plus, space, hash, zero) ==
            Flagged(spec, left || c == '-', plus || c == '+', space || c == ' ', hash || c == '#', zero || c == '0')
  {
  }

  lemma {:induction false} FlagsThere(s: string, i: nat, spec: FormatSpec, flags: string, rest: string)
    requires i <= |s| && s[i..] == flags + rest && (forall c <- flags :: IsFlag(c)) && !IsFlag(At(rest, 0))
    ensures ReadFlags(s, i, spec) == Stage(i + |flags|, WithFlags(spec, flags))
    ensures i + |flags| <= |s| && s[i + |flags|..] == rest
    decreases |flags|
  {
    Move(s, i, flags, rest);
    if flags != "" {
      assert IsFlag(flags[0]) && At(s, i) == flags[0];
      assert flags + rest == [flags[0]] + (flags[1..] + rest);
      Move(s, i, [flags[0]], flags[1..] + rest);
      FlagsThere(s, i + 1, WithFlag(spec, flags[0]), flags[1..], rest);
    }
  }

  // What flags and width together are read as.
  function SpecRead(spec: FormatSpec, flags: string, width: int): FormatSpec {
    var flagged := WithFlags(spec, flags);
    if width < 0 then flagged.(width := -width, align := ALIGN_LEFT) else flagged.(width := width)
  }

  lemma FlagsAndWidthThere(args: seq<Arg>, s: string, i: nat, spec: FormatSpec, shape: Shape, flags: string,
                           number: Option<nat>, next: int, rest: string)
    requires i <= |s| && s[i..] == flags + WideText(shape, rest) && Canonical(shape)
    requires (forall c <- flags :: IsFlag(c)) && spec.width == 0
    ensures var r, meant := ReadFlagsAndWidth(args, s, i, spec, number, next), WidthMeant(args, shape, next);
            var end := i + |flags| + |AmountText(shape.width)|;
            && end <= |s| && s[end..] == PreciseText(shape, rest)
            && (meant.None? ==> r.Error?)
            && (meant.Some? ==> r == Ok(Header(end, SpecRead(spec, flags, meant.value.0), number, meant.value.1)))
  {
    hide Decimal, Scan, GetArg, ArgumentOf, PreciseText, ReadFlags;
    WideStart(shape, rest);
    PreciseStart(shape, rest);
    WithFlagsMeans(spec, flags);
    FlagsThere(s, i, spec, flags, WideText(shape, rest));
    hide WithFlags;
    var at := i + |flags|;
    Move(s, at, AmountText(shape.width), PreciseText(shape, rest));
    if shape.width.Fixed? { NumberThere(s, at, shape.width.value, PreciseText(shape, rest)); }
    if shape.width.FromArg? { GetArgMeans(args, s, at + 1, None, next); }
  }

  // Zeros in front of a number do not change it; alone they are zero.
  lemma {:induction false} ScanZeros(s: string, i: nat, z: nat)
    requires z > 0 && i + z <= |s| && forall k :: i <= k < i + z ==> s[k] == '0'
    ensures IsDigit(At(s, i))
    ensures Scan(s, i, 0) == if IsDigit(At(s, i + z)) then Scan(s, i + z, 0) else Number(0, i + z)
    decreases z
  {
    if z > 1 { ScanZeros(s, i + 1, z - 1); }
  }

  function LeadingZeros(flags: string): (z: nat)
    ensures z <= |flags| && (forall k :: 0 <= k < z ==> flags[k] == '0') && (z < |flags| ==> flags[z] != '0')
  {
    if flags == "" || flags[0] != '0' then 0 else 1 + LeadingZeros(flags[1..])
  }

  lemma {:induction false} ZerosAreFlags(s: string, i: nat, z: nat, spec: FormatSpec)
    requires z > 0 && i + z <= |s| && forall k :: i <= k < i + z ==> s[k] == '0'
    ensures ReadFlags(s, i, spec) == ReadFlags(s, i + z, spec.(fill := '0'))
    decreases z
  {
    if z > 1 { ZerosAreFlags(s, i + 1, z - 1, spec.(fill := '0')); }
  }

  // Zeros at the start that are followed by something else than a digit.
  lemma ZerosAlone(args: seq<Arg>, s: string, i: nat, z: nat, spec: FormatSpec, next: int)
    requires z > 0 && i + z <= |s| && forall k :: i <= k < i + z ==> s[k] == '0'
    requires !IsDigit(At(s, i + z)) && At(s, i + z) != '$'
    ensures ReadHeader(args, s, i, spec, next) == ReadFlagsAndWidth(args, s, i, spec, None, next)
  {
    hide Scan, ReadFlags, GetArg, StarWidth;
    ScanZeros(s, i, z);
    ZerosAreFlags(s, i, z, spec);
    assert At(s, i) == '0';
  }

  // A width at the start, after zeros or not.
  lemma WidthFirst(args: seq<Arg>, s: string, i: nat, z: nat, n: nat, end: nat, spec: FormatSpec, next: int)
    requires i + z <= |s| && forall k :: i <= k < i + z ==> s[k] == '0'
    requires IsDigit(At(s, i + z)) && At(s, i + z) != '0' && Scan(s, i + z, 0) == Number(n, end)
    requires n > 0 && At(s, end) != '$'
    ensures ReadHeader(args, s, i, spec, next) == ReadFlagsAndWidth(args, s, i, spec, None, next)
  {
    hide Scan, GetArg, StarWidth;
    if z > 0 {
      ScanZeros(s, i, z);
      ZerosAreFlags(s, i, z, spec);
      assert At(s, i) == '0';
    }
  }

  lemma HeaderThere(args: seq<Arg>, s: string, i: nat, shape: Shape, next: int, rest: string)
    requires i <= |s| && s[i..] == ConversionText(shape, rest) && Canonical(shape)
    ensures var r, meant := ReadHeader(args, s, i, START, next), WidthMeant(args, shape, next);
            var end := i + |NumberText(shape.number)| + |shape.flags| + |AmountText(shape.width)|;
            && end <= |s| && s[end..] == PreciseText(shape, rest)
            && (meant.None? ==> r.Error?)
            && (meant.Some? ==> r == Ok(Header(end, SpecRead(START, shape.flags, meant.value.0), shape.number, meant.value.1)))
  {
    hide Decimal, Scan, ReadFlagsAndWidth, WideText, WidthMeant, SpecRead;
    var flagged := FlaggedText(shape, rest);
    Move(s, i, NumberText(shape.number), flagged);
    var at := i + |NumberText(shape.number)|;
    FlagsAndWidthThere(args, s, at, START, shape, shape.flags, shape.number, next, rest);
    if shape.number.Some? {
      var digits := Decimal(shape.number.value);
      assert ConversionText(shape, rest) == digits + ("$" + flagged);
      NumberThere(s, i, shape.number.value, "$" + flagged);
      Move(s, i, digits, "$" + flagged);
    } else {
      UnnumberedThere(args, s, i, shape, next, rest);
    }
  }

  // Without a number the digits at the start, if any, are zero flags and the width.
  lemma UnnumberedThere(args: seq<Arg>, s: string, i: nat, shape: Shape, next: int, rest: string)
    requires i <= |s| && s[i..] == FlaggedText(shape, rest) && Canonical(shape)
    ensures ReadHeader(args, s, i, START, next) == ReadFlagsAndWidth(args, s, i, START, None, next)
  {
    hide Decimal, Scan, WideText, ReadFlagsAndWidth;
    var flags, wide, z := shape.flags, WideText(shape, rest), LeadingZeros(shape.flags);
    WideStart(shape, rest);
    Move(s, i, flags, wide);
    forall k | i <= k < i + z ensures s[k] == '0' {
      assert At(s, k) == flags[k - i];
    }
    if z < |flags| {
      assert IsFlag(flags[z]) && At(s, i + z) == flags[z];
      if z > 0 { ZerosAlone(args, s, i, z, START, next); }
    } else if shape.width.Fixed? {
      WidthThere(s, i + z, shape, rest);
      WidthFirst(args, s, i, z, shape.width.value, i + z + |AmountText(shape.width)|, START, next);
    } else if z > 0 {
      ZerosAlone(args, s, i, z, START, next);
    }
  }

  lemma WidthThere(s: string, i: nat, shape: Shape, rest: string)
    requires i <= |s| && s[i..] == WideText(shape, rest) && Canonical(shape) && shape.width.Fixed?
    ensures IsDigit(At(s, i)) && Scan(s, i, 0) == Number(shape.width.value, i + |AmountText(shape.width)|)
    ensures At(s, i + |AmountText(shape.width)|) != '$'
  {
    hide Decimal, Scan, PreciseText;
    PreciseStart(shape, rest);
    Move(s, i, AmountText(shape.width), PreciseText(shape, rest));
    NumberThere(s, i, shape.width.value, PreciseText(shape, rest));
  }

  // A conversion is read as what it means.
  lemma ConversionThere(args: seq<Arg>, s: string, i: nat, shape: Shape, next: int, rest: string)
    requires i <= |s| && s[i..] == ConversionText(shape, rest) && Canonical(shape)
    ensures var r, meant := ReadConversion(args, s, i, next), ConversionMeant(args, shape, next);
            && (meant.None? ==> r.Error?)
            && (meant.Some? ==> r.Ok? && s[r.value.i..] == rest)
            && (meant.Some? ==> Meaning(r.value.spec, r.value.arg, r.value.next) == meant.value)
  {
    hide ReadHeader, ReadPrecision, GetArg, Adjusted, ReadType, LetterMeant, ArgMeant, ArgumentOf;
    hide WidthMeant, PrecisionMeant, SpecMeant, SpecRead, Canonical, ConversionText, PreciseText;
    HeaderThere(args, s, i, shape, next, rest);
    var width := WidthMeant(args, shape, next);
    if width.Some? {
      var end := i + |NumberText(shape.number)| + |shape.flags| + |AmountText(shape.width)|;
      PrecisionThere(args, s, end, shape, width.value.1, rest);
      var precision := PrecisionMeant(args, shape, width.value.1);
      if precision.Some? {
        var at := end + |PointText(shape.point)|;
        GetArgMeans(args, s, at, shape.number, precision.value.1);
        var taken := ArgumentOf(args, shape.number, precision.value.1);
        if taken.Some? {
          AdjustedMeans(shape, width.value.0, precision.value.0, taken.value.arg);
          TypeThere(s, at, shape, SpecMeant(shape, width.value.0, precision.value.0, taken.value.arg), taken.value, rest);
        }
      }
    }
  }

  lemma AdjustedMeans(shape: Shape, width: int, precision: int, arg: Arg)
    requires Canonical(shape) && arg.kind != NONE
    ensures Adjusted(SpecRead(START, shape.flags, width).(precision := precision), arg) ==
            SpecMeant(shape, width, precision, arg)
  {
    hide WithFlags;
    WithFlagsMeans(START, shape.flags);
  }

  lemma ConversionStart(shape: Shape, rest: string)
    requires Canonical(shape)
    ensures At(ConversionText(shape, rest), 0) != '%'
  {
    hide InRadix, WideText;
    WideStart(shape, rest);
    if shape.number.Some? {
      DecimalDigits(shape.number.value, 0);
      assert At(ConversionText(shape, rest), 0) == Decimal(shape.number.value)[0];
    } else if shape.flags != "" {
      assert IsFlag(shape.flags[0]) && At(ConversionText(shape, rest), 0) == shape.flags[0];
    } else {
      assert ConversionText(shape, rest) == WideText(shape, rest);
    }
  }

  lemma FieldThere(args: seq<Arg>, write: Renderer, s: string, i: nat, shape: Shape, next: int, rest: string)
    requires i <= |s| && s[i..] == "%" + ConversionText(shape, rest) && Canonical(shape)
    ensures i < |s|
    ensures var meant, c := FieldMeant(args, write, shape, next), ReadConversion(args, s, i + 1, next);
            && (meant.None? ==> Render(args, write, s, i, next).Error?)
            && (meant.Some? ==> c.Ok? && s[c.value.i..] == rest)
            && (meant.Some? ==>
                 Render(args, write, s, i, next) ==
                 Prepend(meant.value.0, Render(args, write, s, c.value.i, meant.value.1)))
  {
    hide ReadConversion, ConversionMeant, ConversionText, Canonical;
    Move(s, i, "%", ConversionText(shape, rest));
    ConversionStart(shape, rest);
    ConversionThere(args, s, i + 1, shape, next, rest);
  }

  lemma {:induction false} LiteralThere(args: seq<Arg>, write: Renderer, s: string, i: nat, text: string, next: int, rest: string)
    requires i <= |s| && s[i..] == Escaped(text) + rest && '\0' !in text
    ensures i + |Escaped(text)| <= |s| && s[i + |Escaped(text)|..] == rest
    ensures Render(args, write, s, i, next) == Prepend(text, Render(args, write, s, i + |Escaped(text)|, next))
    decreases |text|
  {
    hide Render, Prepend;
    if text == "" {
      assert Escaped(text) + rest == rest;
      PrependTwice("", "", Render(args, write, s, i, next));
    } else {
      var part := if text[0] == '%' then "%%" else [text[0]];
      assert Escaped(text) + rest == part + (Escaped(text[1..]) + rest);
      Move(s, i, part, Escaped(text[1..]) + rest);
      assert At(s, i) == part[0] && (|part| == 2 ==> At(s, i + 1) == part[1]);
      LiteralThere(args, write, s, i + |part|, text[1..], next, rest);
      PrependTwice("", "", Render(args, write, s, i, next));
      CopyCharacter(args, write, s, i, next, "", i + |part|);
      PrependTwice([s[i]], text[1..], Render(args, write, s, i + |Escaped(text)|, next));
      assert "" + [s[i]] == [text[0]] && [text[0]] + text[1..] == text;
    }
  }

  // The outcome of formatting against what the pieces mean.
  predicate Agrees(r: Result<string>, meant: Option<string>) {
    if meant.None? then r.Error? else r == Ok(meant.value)
  }

  lemma AgreesPrepended(text: string, r: Result<string>, meant: Option<string>)
    requires Agrees(r, meant)
    ensures Agrees(Prepend(text, r), if meant.None? then None else Some(text + meant.value))
  {
  }

  lemma NothingThere(args: seq<Arg>, write: Renderer, s: string, i: nat, next: int)
    requires i <= |s| && s[i..] == ""
    ensures Render(args, write, s, i, next) == Ok("")
  {
    assert At(s, i) == '\0';
  }

  // The output is the literals and the conversions in order, each exactly once; and formatting fails
  // exactly when one of the conversions has no meaning at the point where it stands.
  lemma {:induction false} PiecesThere(args: seq<Arg>, write: Renderer, s: string, i: nat, pieces: seq<Piece>, next: int)
    requires i <= |s| && s[i..] == FormatText(pieces)
    requires forall piece <- pieces :: PieceFits(piece)
    ensures Agrees(Render(args, write, s, i, next), Meant(args, write, pieces, next))
    decreases |pieces|
  {
    hide FieldMeant, Escaped, ConversionText, Canonical, Render, Prepend, ReadConversion;
    if pieces == [] {
      NothingThere(args, write, s, i, next);
    } else {
      var first, rest := pieces[0], pieces[1..];
      assert PieceFits(first);
      if first.Literal? {
        var end := i + |Escaped(first.text)|;
        LiteralThere(args, write, s, i, first.text, next, FormatText(rest));
        PiecesThere(args, write, s, end, rest, next);
        AgreesPrepended(first.text, Render(args, write, s, end, next), Meant(args, write, rest, next));
      } else {
        FieldThere(args, write, s, i, first.shape, next, FormatText(rest));
        var meant := FieldMeant(args, write, first.shape, next);
        if meant.Some? {
          var end := ReadConversion(args, s, i + 1, next).value.i;
          PiecesThere(args, write, s, end, rest, meant.value.1);
          AgreesPrepended(meant.value.0, Render(args, write, s, end, meant.value.1), Meant(args, write, rest, meant.value.1));
        }
      }
    }
  }

  lemma PrintfMeansItsPieces(args: seq<Arg>, write: Renderer, pieces: seq<Piece>)
    requires forall piece <- pieces :: PieceFits(piece)
    ensures var r, meant := Render(args, write, FormatText(pieces), 0, 0), Meant(args, write, pieces, 0);
            && (r.Ok? <==> meant.Some?)
            && (r.Ok? ==> r.value == meant.value)
  {
    var s := FormatText(pieces);
    assert s[0..] == s;
    PiecesThere(args, write, s, 0, pieces, 0);
  }

  // Text with its percent signs doubled formats to itself, whatever the arguments.
  lemma DoubledPercentsAreText(args: seq<Arg>, write: Renderer, text: string)
    requires '\0' !in text
    ensures Render(args, write, Escaped(text), 0, 0) == Ok(text)
  {
    var s := Escaped(text);
    assert s[0..] == s + "";
    LiteralThere(args, write, s, 0, text, 0, "");
    assert text + "" == text;
  }

  // The values of each integer type.
  predicate InType(kind: Kind, n: int) {
    match kind
    case INT => INT_MIN <= n <= INT_MAX
    case CHAR => INT_MIN <= n <= INT_MAX
    case UINT => 0 <= n < TWO32
    case LONG_LONG => -0x8000_0000_0000_0000 <= n < 0x8000_0000_0000_0000
    case ULONG_LONG => 0 <= n < TWO64
    case _ => false
  }

  predicate IsSigned(typeCode: char) {
    typeCode == 'd' || typeCode == 'i'
  }

  // A 64-bit conversion keeps the value it is given except, when it is signed, a negative argument of a
  // 32-bit type, which loses its sign, and an unsigned one that does not fit; when it is unsigned, every
  // negative one.
  lemma LongKeepsValueExactly(arg: Arg, length: Length, typeCode: char)
    requires InType(arg.kind, arg.number) && length in {LONG, LONG2, INTMAX, SIZE, PTRDIFF}
    ensures ConvertArg(arg, length, typeCode).number == arg.number <==>
            if IsSigned(typeCode) then
              !(arg.number < 0 && arg.kind != LONG_LONG) && arg.number < 0x8000_0000_0000_0000
            else arg.number >= 0
  {
    var word := ToUnsigned(arg.number, OwnModulus(arg.kind));
    if arg.kind == LONG_LONG {
      assert word == if arg.number < 0 then arg.number + TWO64 else arg.number;
    } else if arg.number < 0 {
      assert word == arg.number + TWO32;
    } else {
      assert word == arg.number;
    }
  }

  // The values a conversion with length hh or h or none can print: those of its own type.
  function ShortModulus(length: Length): nat {
    if length.HH? then 0x100 else if length.H? then 0x1_0000 else TWO32
  }

  lemma ShortKeepsValueExactly(arg: Arg, length: Length, typeCode: char)
    requires InType(arg.kind, arg.number) && length in {NO_LENGTH, HH, H}
    ensures var modulus := ShortModulus(length);
            ConvertArg(arg, length, typeCode).number == arg.number <==>
            if IsSigned(typeCode) then -(modulus / 2) <= arg.number < modulus / 2 else 0 <= arg.number < modulus
  {
    var modulus := ShortModulus(length);
    if -modulus <= arg.number < modulus {
      assert arg.number % modulus == if arg.number < 0 then arg.number + modulus else arg.number;
    }
  }
}
