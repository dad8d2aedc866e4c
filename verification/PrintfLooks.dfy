/** What printf conversions look like, written out as the strings they are. */
module PrintfLooks {
  import opened MachineWords
  import opened Collections
  import opened RadixDigits
  import opened IntegerField
  import opened FormatArgs
  import opened PrintfFormat
  import opened PrintfPieces
  import opened PrintfValues
  import opened FormatLooks
  import FormatValues

  // What an integer conversion writes, from the parts of the conversion and the value it has come to.  The
  // zero flag wins over the minus flag, and with added zeros its fill comes before the sign.
  lemma IntegerConversionText(args: seq<Arg>, others: Renderer, shape: Shape, next: int)
    requires ConversionMeant(args, shape, next).Some?
    requires FormatValues.IsInteger(ConversionMeant(args, shape, next).value.arg.kind)
    requires KnownType(ConversionMeant(args, shape, next).value.spec.typeCode)
    ensures WidthMeant(args, shape, next).Some? && TakenMeant(args, shape, next).Some?
    ensures PrecisionMeant(args, shape, WidthMeant(args, shape, next).value.1).Some?
    ensures var m, taken := ConversionMeant(args, shape, next).value, TakenMeant(args, shape, next).value.arg;
            var (width, after) := WidthMeant(args, shape, next).value;
            var precision := PrecisionMeant(args, shape, after).value.0;
            var n, letter := m.arg.number, m.spec.typeCode;
            var sign := if n < 0 then "-" else if '+' in shape.flags then "+" else if ' ' in shape.flags then " " else "";
            var base := if '#' in shape.flags && taken.number != 0 then BaseOf(letter) else "";
            var digits := DigitsOf(if n < 0 then -n else n, letter);
            var zeros := Repeat('0', if precision > |digits| then precision - |digits| else 0);
            var prefix := if zeros != "" && base == "0" then sign else sign + base;
            var content, zeroFlag := prefix + zeros + digits, '0' in shape.flags;
            var fill := Repeat(if zeroFlag then '0' else ' ', Padding(content, if width < 0 then -width else width));
            Writer(others)(m.spec, m.arg) ==
              Ok(if zeroFlag then (if zeros == "" then prefix + fill + digits else fill + content)
                 else if '-' in shape.flags || width < 0 then content + fill
                 else fill + content)
  {
    var m, taken := ConversionMeant(args, shape, next).value, TakenMeant(args, shape, next).value.arg;
    var (width, after) := WidthMeant(args, shape, next).value;
    var precision := PrecisionMeant(args, shape, after).value.0;
    IntegerSpec(args, shape, next);
    IntegerWritten(others, m.spec, m.arg);
    hide ConversionMeant, TakenMeant, WidthMeant, PrecisionMeant, IntegerField.Field, DigitsOf, BaseOf, Repeat, Writer, KnownType;
    SpecLook(m.arg.number, m.spec);
  }

  lemma IntegerWritten(others: Renderer, spec: FormatSpec, arg: Arg)
    requires FormatValues.IsInteger(arg.kind) && KnownType(spec.typeCode)
    ensures Writer(others)(spec, arg) == Ok(IntegerField.Field(arg.number, spec))
  {
  }

  lemma SpecLook(value: int, spec: FormatSpec)
    ensures var sign := if value < 0 then "-" else if !spec.sign then "" else if spec.plus then "+" else " ";
            var base := if spec.hash then BaseOf(spec.typeCode) else "";
            var digits := DigitsOf(if value < 0 then -value else value, spec.typeCode);
            var zeros := Repeat('0', if spec.precision > |digits| then spec.precision - |digits| else 0);
            var prefix := if zeros != "" && base == "0" then sign else sign + base;
            var content := prefix + zeros + digits;
            var fill := Repeat(spec.fill, Padding(content, spec.width));
            && (spec.align.ALIGN_NUMERIC? ==>
                 IntegerField.Field(value, spec) == if zeros == "" then prefix + fill + digits else fill + content)
            && (spec.align.ALIGN_LEFT? ==> IntegerField.Field(value, spec) == content + fill)
            && (spec.align.ALIGN_RIGHT? ==> IntegerField.Field(value, spec) == fill + content)
  {
    hide IntegerField.Field, Magnitude, Prefix, SignOf, DigitsOf, BaseOf, Repeat;
    FieldText(value, spec);
    SignedPrefix(value, spec);
    BaseIsZero(spec.typeCode);
    EmptyBase(value, spec);
  }

  lemma BaseIsZero(letter: char)
    ensures BaseOf(letter) == "0" <==> letter == 'o'
  {
  }

  lemma EmptyBase(value: int, spec: FormatSpec)
    ensures !spec.hash ==> Prefix(value, spec) == SignOf(value, spec) + "" == SignOf(value, spec)
  {
    SignedPrefix(value, spec);
  }

  lemma IntegerSpec(args: seq<Arg>, shape: Shape, next: int)
    requires ConversionMeant(args, shape, next).Some?
    requires FormatValues.IsInteger(ConversionMeant(args, shape, next).value.arg.kind)
    ensures WidthMeant(args, shape, next).Some? && TakenMeant(args, shape, next).Some?
    ensures PrecisionMeant(args, shape, WidthMeant(args, shape, next).value.1).Some?
    ensures var m, taken := ConversionMeant(args, shape, next).value, TakenMeant(args, shape, next).value.arg;
            var (width, after) := WidthMeant(args, shape, next).value;
            && m.spec.width == (if width < 0 then -width else width)
            && m.spec.precision == PrecisionMeant(args, shape, after).value.0
            && m.spec.fill == (if '0' in shape.flags then '0' else ' ')
            && m.spec.align == (if '0' in shape.flags then ALIGN_NUMERIC
                                else if '-' in shape.flags || width < 0 then ALIGN_LEFT else ALIGN_RIGHT)
            && m.spec.sign == ('+' in shape.flags || ' ' in shape.flags) && m.spec.plus == ('+' in shape.flags)
            && m.spec.hash == ('#' in shape.flags && taken.number != 0)
  {
    hide WidthMeant, PrecisionMeant, ArgumentOf;
  }

  // Prefix and digits from the tables of signs, bases and radixes.
  lemma SignedPrefix(value: int, spec: FormatSpec)
    ensures SignOf(value, spec) == if value < 0 then "-" else if !spec.sign then "" else if spec.plus then "+" else " "
    ensures Prefix(value, spec) == SignOf(value, spec) + if spec.hash then BaseOf(spec.typeCode) else ""
    ensures Magnitude(value, spec.typeCode) == DigitsOf(if value < 0 then -value else value, spec.typeCode)
  {
    hide InRadix;
    PrefixText(value, spec);
    DigitsText(value, spec.typeCode);
  }

  // So the zero flag puts zeros before a minus sign exactly when the precision adds zeros and the width
  // is not reached by them.
  lemma ZeroBeforeSignExactly(args: seq<Arg>, others: Renderer, shape: Shape, next: int)
    requires ConversionMeant(args, shape, next).Some? && '0' in shape.flags
    requires FormatValues.IsInteger(ConversionMeant(args, shape, next).value.arg.kind)
    requires ConversionMeant(args, shape, next).value.arg.number < 0
    requires ConversionMeant(args, shape, next).value.spec.typeCode == 'd'
    ensures WidthMeant(args, shape, next).Some? && PrecisionMeant(args, shape, WidthMeant(args, shape, next).value.1).Some?
    ensures var m, (width, after) := ConversionMeant(args, shape, next).value, WidthMeant(args, shape, next).value;
            var precision := PrecisionMeant(args, shape, after).value.0;
            var text := Writer(others)(m.spec, m.arg);
            && text.Ok? && text.value != "" && text.value[0] in "0-"
            && (text.value[0] == '0' <==>
                 precision > |Decimal(-m.arg.number)| && (if width < 0 then -width else width) > 1 + precision)
  {
    IntegerConversionText(args, others, shape, next);
    hide ConversionMeant, WidthMeant, PrecisionMeant, TakenMeant, Writer, InRadix;
  }

  // One conversion alone formats to its meaning.
  lemma OneConversion(arg: Arg, others: Renderer, shape: Shape)
    requires Canonical(shape)
    ensures var r := Render([arg], Writer(others), "%" + ConversionText(shape, ""), 0, 0);
            var meant := FieldMeant([arg], Writer(others), shape, 0);
            && (r.Ok? <==> meant.Some?)
            && (r.Ok? ==> r.value == meant.value.0)
  {
    hide Writer, Render, FieldMeant, ConversionText, Canonical;
    var pieces := [PrintfPieces.Field(shape)];
    assert pieces[1..] == [];
    PrintfMeansItsPieces([arg], Writer(others), pieces);
    var meant := FieldMeant([arg], Writer(others), shape, 0);
    if meant.Some? { assert meant.value.0 + "" == meant.value.0; }
  }

  // The same for a meaning and a text that are known.
  lemma FormatIs(arg: Arg, others: Renderer, shape: Shape, m: Meaning, format: string, text: string)
    requires Canonical(shape) && format == "%" + ConversionText(shape, "")
    requires ConversionMeant([arg], shape, 0) == Some(m) && Writer(others)(m.spec, m.arg) == Ok(text)
    ensures Render([arg], Writer(others), format, 0, 0) == Ok(text)
  {
    hide ConversionMeant, Writer, Render, ConversionText, Canonical;
    OneConversion(arg, others, shape);
  }

  // The value a plain conversion prints: its argument, when the type of the letter keeps it.
  predicate Keeps(letter: char, n: int) {
    if letter in "di" then INT_MIN <= n <= INT_MAX else 0 <= n < TWO32
  }

  lemma LetterMeans(arg: Arg, letter: char)
    requires FormatValues.IsInteger(arg.kind) && letter in "diuxXo" && Keeps(letter, arg.number)
    ensures var m := ConversionMeant([arg], DECIMAL.(typeCode := letter), 0);
            && m.Some? && FormatValues.IsInteger(m.value.arg.kind) && m.value.arg.number == arg.number && m.value.next == 1
            && m.value.spec == DEFAULT_SPEC.(align := ALIGN_RIGHT, typeCode := if letter in "iu" then 'd' else letter)
  {
    Kept(arg.number);
    hide Reduced;
  }

  lemma Kept(n: int)
    ensures INT_MIN <= n <= INT_MAX ==> Reduced(n, TWO32, true) == n
    ensures 0 <= n < TWO32 ==> Reduced(n, TWO32, false) == n
  {
  }

  // "%d", "%i" and "%u" print such a value in decimal, "%x", "%X" and "%o" in their radix and case.
  lemma LetterPrintf(arg: Arg, others: Renderer, letter: char)
    requires FormatValues.IsInteger(arg.kind) && letter in "diuxXo" && Keeps(letter, arg.number)
    ensures Render([arg], Writer(others), "%" + [letter], 0, 0) ==
            Ok(if letter in "diu" then SignedDecimal(arg.number) else DigitsOf(arg.number, letter))
  {
    var shape := DECIMAL.(typeCode := letter);
    LetterMeans(arg, letter);
    LetterIsText(letter);
    var m := ConversionMeant([arg], shape, 0).value;
    LetterWritten(m.spec, arg.number, letter);
    LetterKnown(letter);
    hide ConversionMeant, Render, ConversionText, Writer, IntegerField.Field, DigitsOf, SignedDecimal, InRadix, Canonical, Keeps,
      KnownType;
    IntegerWritten(others, m.spec, m.arg);
    FormatIs(arg, others, shape, m, "%" + [letter], if letter in "diu" then SignedDecimal(arg.number) else DigitsOf(arg.number, letter));
  }

  lemma LetterKnown(letter: char)
    requires letter in "diuxXo"
    ensures KnownType(if letter in "iu" then 'd' else letter)
  {
  }

  lemma LetterWritten(spec: FormatSpec, n: int, letter: char)
    requires letter in "diuxXo" && Keeps(letter, n)
    requires spec == DEFAULT_SPEC.(align := ALIGN_RIGHT, typeCode := if letter in "iu" then 'd' else letter)
    ensures IntegerField.Field(n, spec) == if letter in "diu" then SignedDecimal(n) else DigitsOf(n, letter)
  {
    Lettered(n, spec);
    SignAndDigits(n, letter);
    hide IntegerField.Field, DigitsOf, SignedDecimal, InRadix, Keeps;
  }

  lemma LetterIsText(letter: char)
    requires letter in "diuxXocs"
    ensures Canonical(DECIMAL.(typeCode := letter)) && "%" + ConversionText(DECIMAL.(typeCode := letter), "") == "%" + [letter]
  {
  }

  lemma SignAndDigits(n: int, letter: char)
    requires letter in "diuxXo" && Keeps(letter, n)
    ensures (if n < 0 then "-" else "") + "" + DigitsOf(if n < 0 then -n else n, if letter in "iu" then 'd' else letter) ==
            if letter in "diu" then SignedDecimal(n) else DigitsOf(n, letter)
  {
    hide InRadix;
  }

  // A number reduced to a word of the machine keeps its last octet.
  lemma LastOctet(n: int)
    ensures Reduced(Reduced(n, TWO32, false), 0x100, true) % 0x100 == n % 0x100
  {
    var word := n % TWO32;
    var k := n / TWO32;
    assert n == 0x100 * (0x100_0000 * k) + word;
    var octet := (word + 0x80) % 0x100 - 0x80;
    assert word == octet + 0x100 * ((word + 0x80) / 0x100);
  }

  // "%c" prints the character whose code is the last octet of the number it is given.
  lemma CharPrintf(arg: Arg, others: Renderer)
    requires IsIntegerKind(arg.kind)
    ensures Render([arg], Writer(others), "%c", 0, 0) == Ok([(arg.number % 256) as char])
  {
    var shape, written := DECIMAL.(typeCode := 'c'), [(arg.number % 256) as char];
    CharMeans(arg);
    LetterIsText('c');
    var m := ConversionMeant([arg], shape, 0).value;
    CharAlone(others, m.arg);
    hide ConversionMeant, Render, ConversionText, Writer, Canonical;
    FormatIs(arg, others, shape, m, "%c", written);
  }

  lemma CharAlone(others: Renderer, arg: Arg)
    requires arg.kind.CHAR?
    ensures Writer(others)(DEFAULT_SPEC.(align := ALIGN_RIGHT, typeCode := 'c', hash := false), arg) ==
            Ok([(arg.number % 256) as char])
  {
    assert Repeat(' ', 0) + [(arg.number % 256) as char] == [(arg.number % 256) as char];
  }

  lemma CharMeans(arg: Arg)
    requires IsIntegerKind(arg.kind)
    ensures var m := ConversionMeant([arg], DECIMAL.(typeCode := 'c'), 0);
            && m.Some? && m.value.spec == DEFAULT_SPEC.(align := ALIGN_RIGHT, typeCode := 'c', hash := false)
            && m.value.arg.kind == CHAR && m.value.arg.number % 0x100 == arg.number % 0x100 && m.value.next == 1
  {
    LastOctet(arg.number);
  }

  lemma StringPrintf(arg: Arg, others: Renderer)
    requires arg.kind.STRING? || arg.kind.CSTRING?
    ensures Render([arg], Writer(others), "%s", 0, 0) == Ok(arg.text)
  {
    LetterIsText('s');
    StringMeans([arg], 0);
    var spec := DEFAULT_SPEC.(align := ALIGN_RIGHT, typeCode := 's');
    FormatValues.StringWritten(others, spec, arg);
    hide Render, ConversionText, ConversionMeant, FormatValues.Write, Canonical, Repeat;
    FormatIs(arg, others, TEXT, Meaning(spec, arg, 1), "%s", arg.text);
  }

  function SideShape(left: bool, width: nat, letter: char): Shape {
    DECIMAL.(flags := if left then "-" else "", width := Fixed(width), typeCode := letter)
  }

  // "%wc" puts blanks before a character, "%-wc" behind it.
  lemma WideChar(arg: Arg, others: Renderer, left: bool, width: nat)
    requires IsIntegerKind(arg.kind) && 0 < width <= INT_MAX
    ensures var c := [(arg.number % 256) as char];
            Render([arg], Writer(others), "%" + (if left then "-" else "") + Decimal(width) + "c", 0, 0) ==
            Ok(if left then c + Blanks(width - 1) else Blanks(width - 1) + c)
  {
    var shape, c := SideShape(left, width, 'c'), [(arg.number % 256) as char];
    SideIsText(left, width, 'c');
    WideCharMeans(arg, left, width);
    var m := ConversionMeant([arg], shape, 0).value;
    var written := if left then c + Blanks(width - 1) else Blanks(width - 1) + c;
    assert Writer(others)(m.spec, m.arg) == Ok(written);
    hide Render, ConversionText, ConversionMeant, Writer, Canonical, Repeat, Decimal, SideShape, SideSpec;
    FormatIs(arg, others, shape, m, "%" + (if left then "-" else "") + Decimal(width) + "c", written);
  }

  lemma WideCharMeans(arg: Arg, left: bool, width: nat)
    requires IsIntegerKind(arg.kind) && 0 < width <= INT_MAX
    ensures var m := ConversionMeant([arg], SideShape(left, width, 'c'), 0);
            && m.Some? && m.value.spec == SideSpec(left, width, 'c')
            && m.value.arg.kind == CHAR && m.value.arg.number % 0x100 == arg.number % 0x100 && m.value.next == 1
  {
    LastOctet(arg.number);
  }

  // "%wd" and "%ws" put blanks before a value, "%-wd" and "%-ws" behind it.
  lemma WidePrintf(arg: Arg, others: Renderer, left: bool, width: nat)
    requires FormatValues.IsPlain(arg.kind) && FitsInt(arg) && 0 < width <= INT_MAX
    ensures var text, letter := FormatValues.PlainText(arg), if FormatValues.IsInteger(arg.kind) then 'd' else 's';
            Render([arg], Writer(others), "%" + (if left then "-" else "") + Decimal(width) + [letter], 0, 0) ==
            Ok(if left then text + Blanks(Padding(text, width)) else Blanks(Padding(text, width)) + text)
  {
    var letter := if FormatValues.IsInteger(arg.kind) then 'd' else 's';
    SideIsText(left, width, letter);
    SideMeans(arg, left, width);
    SideWritten(arg, others, left, width);
    var text := FormatValues.PlainText(arg);
    var written := if left then text + Blanks(Padding(text, width)) else Blanks(Padding(text, width)) + text;
    hide Render, ConversionText, ConversionMeant, Writer, Canonical, Repeat, FormatValues.PlainText, Decimal, SideShape, SideSpec;
    FormatIs(arg, others, SideShape(left, width, letter), ConversionMeant([arg], SideShape(left, width, letter), 0).value,
             "%" + (if left then "-" else "") + Decimal(width) + [letter], written);
  }

  lemma SideIsText(left: bool, width: nat, letter: char)
    requires letter in "dsc" && 0 < width <= INT_MAX
    ensures Canonical(SideShape(left, width, letter))
    ensures "%" + ConversionText(SideShape(left, width, letter), "") == "%" + (if left then "-" else "") + Decimal(width) + [letter]
  {
    hide Decimal;
  }

  function SideSpec(left: bool, width: nat, letter: char): FormatSpec {
    DEFAULT_SPEC.(align := if left then ALIGN_LEFT else ALIGN_RIGHT, width := width, typeCode := letter)
  }

  lemma SideMeans(arg: Arg, left: bool, width: nat)
    requires FormatValues.IsPlain(arg.kind) && FitsInt(arg) && 0 < width <= INT_MAX
    ensures var isInteger := FormatValues.IsInteger(arg.kind);
            var letter := if isInteger then 'd' else 's';
            ConversionMeant([arg], SideShape(left, width, letter), 0) ==
            Some(Meaning(SideSpec(left, width, letter), if isInteger then arg.(kind := INT) else arg, 1))
  {
    if FormatValues.IsInteger(arg.kind) { KeptAsInt(arg.number); }
    hide Reduced;
  }

  lemma SideWritten(arg: Arg, others: Renderer, left: bool, width: nat)
    requires FormatValues.IsPlain(arg.kind)
    ensures var isInteger, text := FormatValues.IsInteger(arg.kind), FormatValues.PlainText(arg);
            Writer(others)(SideSpec(left, width, if isInteger then 'd' else 's'), if isInteger then arg.(kind := INT) else arg) ==
            Ok(if left then text + Blanks(Padding(text, width)) else Blanks(Padding(text, width)) + text)
  {
    hide Repeat, IntegerField.Field, StringField, SignedDecimal;
    if FormatValues.IsInteger(arg.kind) {
      PlainInteger(arg.number, SideSpec(left, width, 'd'));
    } else {
      FormatValues.StringWritten(others, SideSpec(left, width, 's'), arg);
    }
  }

  const ZERO_PRECISE: Shape := DECIMAL.(flags := "0", width := Fixed(6), point := Point(Fixed(3)))

  // "%06.3d" of -5.
  lemma ZeroBeforeSign(others: Renderer)
    ensures Render([Arg(INT, -5, "")], Writer(others), "%06.3d", 0, 0) == Ok("00-005")
  {
    var spec := DEFAULT_SPEC.(align := ALIGN_NUMERIC, fill := '0', width := 6, precision := 3, typeCode := 'd');
    var arg := Arg(INT, -5, "");
    assert ConversionMeant([arg], ZERO_PRECISE, 0) == Some(Meaning(spec, arg, 1));
    ZeroPreciseIs();
    ZeroPreciseField(spec);
    IntegerWritten(others, spec, arg);
    hide Render, ConversionText, ConversionMeant, Writer, Canonical, IntegerField.Field;
    FormatIs(arg, others, ZERO_PRECISE, Meaning(spec, arg, 1), "%06.3d", "00-005");
  }

  lemma ZeroPreciseIs()
    ensures Canonical(ZERO_PRECISE) && "%" + ConversionText(ZERO_PRECISE, "") == "%06.3d"
  {
    assert Decimal(6) == "6" && Decimal(3) == "3";
  }

  lemma ZeroPreciseField(spec: FormatSpec)
    requires spec == DEFAULT_SPEC.(align := ALIGN_NUMERIC, fill := '0', width := 6, precision := 3, typeCode := 'd')
    ensures IntegerField.Field(-5, spec) == "00-005"
  {
    SpecLook(-5, spec);
    assert DigitsOf(5, 'd') == "5";
    hide IntegerField.Field, DigitsOf;
    assert Repeat('0', 2) == "00";
  }
}
