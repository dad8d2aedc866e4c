/** What common brace fields and printf conversions look like, written out as the strings they are. */
module FormatLooks {
  import opened MachineWords
  import opened Collections
  import opened RadixDigits
  import opened IntegerField
  import opened FormatArgs
  import opened FormatValues
  import BraceFormat
  import FormatPieces

  function Blanks(n: nat): string {
    Repeat(' ', n)
  }

  function Padding(text: string, width: nat): nat {
    if width > |text| then width - |text| else 0
  }

  // One field alone formats to its meaning.
  lemma OneField(arg: Arg, others: Renderer, shape: FormatPieces.Shape)
    requires FormatPieces.Canonical(shape)
    ensures var r := BraceFormat.Render([arg], Writer(others), "{" + FormatPieces.FieldText(FormatPieces.Next, shape, ""), 0, 0);
            var meant := FormatPieces.FieldMeant([arg], Writer(others), FormatPieces.Next, shape, 0);
            && (r.Ok? <==> meant.Ok?)
            && (r.Ok? ==> r.value.text == meant.value.0)
  {
    hide Writer, BraceFormat.Render, FormatPieces.FieldMeant, FormatPieces.FieldText, FormatPieces.Canonical;
    var pieces := [FormatPieces.Field(FormatPieces.Next, shape)];
    assert pieces[1..] == [];
    FormatPieces.FormatMeansItsPieces([arg], Writer(others), pieces);
    var meant := FormatPieces.FieldMeant([arg], Writer(others), FormatPieces.Next, shape, 0);
    if meant.Ok? { assert meant.value.0 + "" == meant.value.0; }
  }

  // The same for an integer and a format given as a string.
  lemma OneInteger(arg: Arg, others: Renderer, shape: FormatPieces.Shape, format: string)
    requires FormatPieces.Canonical(shape) && IsInteger(arg.kind) && FormatPieces.Allowed(shape, arg.kind)
    requires shape.precision.NoDigits? && KnownType(shape.typeCode)
    requires format == "{" + FormatPieces.FieldText(FormatPieces.Next, shape, "")
    ensures var r := BraceFormat.Render([arg], Writer(others), format, 0, 0);
            r.Ok? && r.value.text == Field(arg.number, FormatPieces.SpecMeant(shape, -1))
  {
    OneField(arg, others, shape);
    hide BraceFormat.Render, FormatPieces.FieldText, FormatPieces.SpecMeant, Field, FormatPieces.Canonical, FormatPieces.Allowed;
  }

  function WideShape(align: Alignment, width: nat): FormatPieces.Shape {
    FormatPieces.PLAIN.(align := align, width := width)
  }

  lemma WideText(c: char, align: Alignment, width: nat)
    requires (c, align) in {('<', ALIGN_LEFT), ('>', ALIGN_RIGHT), ('^', ALIGN_CENTER)}
    requires width > 0
    ensures "{" + FormatPieces.FieldText(FormatPieces.Next, WideShape(align, width), "") == "{:" + [c] + Decimal(width) + "}"
  {
    hide InRadix;
  }

  // "{:<w}", "{:>w}" and "{:^w}" put blanks behind, before and around an integer or a string.
  lemma WideBrace(arg: Arg, others: Renderer, c: char, width: nat)
    requires IsPlain(arg.kind) && c in "<>^" && 0 < width <= INT_MAX
    ensures var r := BraceFormat.Render([arg], Writer(others), "{:" + [c] + Decimal(width) + "}", 0, 0);
            var text := PlainText(arg);
            var padding := Padding(text, width);
            r.Ok? && r.value.text == if c == '<' then text + Blanks(padding)
                                     else if c == '>' then Blanks(padding) + text
                                     else Blanks(padding / 2) + text + Blanks(padding - padding / 2)
  {
    var align := if c == '<' then ALIGN_LEFT else if c == '>' then ALIGN_RIGHT else ALIGN_CENTER;
    WideText(c, align, width);
    OneField(arg, others, WideShape(align, width));
    WideMeant(arg, others, align, width);
    hide BraceFormat.Render, FormatPieces.FieldMeant, FormatPieces.FieldText, Writer, PlainText, Repeat, InRadix, IsPlain;
  }

  lemma WideMeant(arg: Arg, others: Renderer, align: Alignment, width: nat)
    requires IsPlain(arg.kind) && align in {ALIGN_LEFT, ALIGN_RIGHT, ALIGN_CENTER}
    ensures var meant := FormatPieces.FieldMeant([arg], Writer(others), FormatPieces.Next, WideShape(align, width), 0);
            var text := PlainText(arg);
            var padding := Padding(text, width);
            meant == Ok((if align.ALIGN_LEFT? then text + Blanks(padding)
                         else if align.ALIGN_RIGHT? then Blanks(padding) + text
                         else Blanks(padding / 2) + text + Blanks(padding - padding / 2), 1))
  {
    hide Repeat, Write, PlainText;
    var spec := DEFAULT_SPEC.(align := align, width := width);
    assert FormatPieces.SpecMeant(WideShape(align, width), -1) == spec;
    WideWritten(others, spec, arg);
  }

  lemma WideWritten(others: Renderer, spec: FormatSpec, arg: Arg)
    requires IsPlain(arg.kind) && spec == DEFAULT_SPEC.(align := spec.align, width := spec.width)
    ensures var text := PlainText(arg);
            var padding := Padding(text, spec.width);
            && (spec.align.ALIGN_LEFT? ==> Write(others, spec, arg) == Ok(text + Blanks(padding)))
            && (spec.align.ALIGN_RIGHT? ==> Write(others, spec, arg) == Ok(Blanks(padding) + text))
            && (spec.align.ALIGN_CENTER? ==>
                 Write(others, spec, arg) == Ok(Blanks(padding / 2) + text + Blanks(padding - padding / 2)))
  {
    hide Repeat, Field, StringField, SignedDecimal;
    if IsInteger(arg.kind) { PlainInteger(arg.number, spec); } else { StringWritten(others, spec, arg); }
  }

  // "{:0w}" fills an integer with zeros behind its sign.
  lemma ZeroBrace(arg: Arg, others: Renderer, width: nat)
    requires IsInteger(arg.kind) && 0 < width <= INT_MAX
    ensures var r := BraceFormat.Render([arg], Writer(others), "{:0" + Decimal(width) + "}", 0, 0);
            var sign, digits := if arg.number < 0 then "-" else "", Decimal(if arg.number < 0 then -arg.number else arg.number);
            r.Ok? && r.value.text == sign + Repeat('0', Padding(sign + digits, width)) + digits
  {
    var shape := FormatPieces.PLAIN.(zero := true, width := width);
    var spec := DEFAULT_SPEC.(align := ALIGN_NUMERIC, fill := '0', width := width);
    assert FormatPieces.SpecMeant(shape, -1) == spec;
    ZeroText(width);
    hide Repeat, Field, Decimal, FormatPieces.FieldText, BraceFormat.Render;
    PlainInteger(arg.number, spec);
    OneInteger(arg, others, shape, "{:0" + Decimal(width) + "}");
  }

  lemma ZeroText(width: nat)
    requires width > 0
    ensures "{" + FormatPieces.FieldText(FormatPieces.Next, FormatPieces.PLAIN.(zero := true, width := width), "") ==
            "{:0" + Decimal(width) + "}"
  {
    hide Decimal;
  }

  // The digits of a number under each type letter, and what the hash flag puts before them.
  function DigitsOf(n: nat, letter: char): string {
    match letter
    case 'x' => InRadix(n, 16, false)
    case 'X' => InRadix(n, 16, true)
    case 'o' => InRadix(n, 8, false)
    case 'b' => InRadix(n, 2, false)
    case 'B' => InRadix(n, 2, false)
    case _ => Decimal(n)
  }

  function BaseOf(letter: char): string {
    match letter
    case 'x' => "0x"
    case 'X' => "0X"
    case 'o' => "0"
    case 'b' => "0b"
    case 'B' => "0B"
    case _ => ""
  }

  lemma Lettered(value: int, spec: FormatSpec)
    requires spec.width == 0 && spec.precision == -1
    ensures Field(value, spec) ==
              (if value < 0 then "-" else if !spec.sign then "" else if spec.plus then "+" else " ")
              + (if spec.hash then BaseOf(spec.typeCode) else "")
              + DigitsOf(if value < 0 then -value else value, spec.typeCode)
  {
    hide InRadix, Field, Prefix, Magnitude, SignOf;
    FieldWithoutZeros(value, spec);
    PrefixText(value, spec);
    DigitsText(value, spec.typeCode);
    assert Repeat(spec.fill, 0) == "";
    var content := Prefix(value, spec) + Magnitude(value, spec.typeCode);
    assert "" + content == content + "" == "" + content + "" == content;
    assert Prefix(value, spec) + "" + Magnitude(value, spec.typeCode) == content;
  }

  // "{:x}" and the like, and with the hash flag.
  lemma LetterBrace(arg: Arg, others: Renderer, letter: char, hash: bool)
    requires IsInteger(arg.kind) && letter in "dxXobB"
    ensures var r := BraceFormat.Render([arg], Writer(others), "{:" + (if hash then "#" else "") + [letter] + "}", 0, 0);
            r.Ok? && r.value.text == (if arg.number < 0 then "-" else "") + (if hash then BaseOf(letter) else "")
                                     + DigitsOf(if arg.number < 0 then -arg.number else arg.number, letter)
  {
    hide InRadix, Field, DigitsOf, BaseOf, FormatPieces.FieldText, BraceFormat.Render, FormatPieces.SpecMeant,
      FormatPieces.Canonical, FormatPieces.Allowed, KnownType, IsInteger, LetterShape;
    LetterFits(letter, hash, arg.kind);
    LetterText(letter, hash);
    Lettered(arg.number, FormatPieces.SpecMeant(LetterShape(letter, hash), -1));
    OneInteger(arg, others, LetterShape(letter, hash), "{:" + (if hash then "#" else "") + [letter] + "}");
  }

  function LetterShape(letter: char, hash: bool): FormatPieces.Shape {
    FormatPieces.PLAIN.(hash := hash, typeCode := letter)
  }

  lemma LetterFits(letter: char, hash: bool, kind: Kind)
    requires letter in "dxXobB" && IsInteger(kind)
    ensures var shape := LetterShape(letter, hash);
            && FormatPieces.Canonical(shape) && FormatPieces.Allowed(shape, kind) && KnownType(letter)
            && shape.precision.NoDigits? && shape.typeCode == letter
            && FormatPieces.SpecMeant(shape, -1) == DEFAULT_SPEC.(hash := hash, typeCode := letter)
  {
  }

  lemma LetterText(letter: char, hash: bool)
    requires letter in "dxXobB"
    ensures "{" + FormatPieces.FieldText(FormatPieces.Next, LetterShape(letter, hash), "") ==
            "{:" + (if hash then "#" else "") + [letter] + "}"
  {
  }

  // "{:+}", "{: }" and "{:-}" of a signed integer.
  lemma SignBrace(arg: Arg, others: Renderer, c: char)
    requires (arg.kind.INT? || arg.kind.LONG_LONG?) && c in "+- "
    ensures var r := BraceFormat.Render([arg], Writer(others), "{:" + [c] + "}", 0, 0);
            r.Ok? && r.value.text == if arg.number >= 0 && c != '-' then [c] + Decimal(arg.number) else SignedDecimal(arg.number)
  {
    hide InRadix, Field, FormatPieces.FieldText, BraceFormat.Render, FormatPieces.SpecMeant, FormatPieces.Canonical,
      FormatPieces.Allowed, SignWritten, SignedDecimal;
    SignFits(c, arg.kind);
    SignIsText(c);
    var shape := SignShape(c);
    hide SignShape;
    Lettered(arg.number, FormatPieces.SpecMeant(shape, -1));
    OneInteger(arg, others, shape, "{:" + [c] + "}");
    SignedText(arg.number, c);
  }

  function SignShape(c: char): FormatPieces.Shape {
    FormatPieces.PLAIN.(sign := SignWritten(c))
  }

  lemma SignFits(c: char, kind: Kind)
    requires c in "+- " && (kind.INT? || kind.LONG_LONG?)
    ensures var shape := SignShape(c);
            && FormatPieces.Canonical(shape) && FormatPieces.Allowed(shape, kind)
            && shape.precision.NoDigits? && shape.typeCode == NO_TYPE
            && FormatPieces.SpecMeant(shape, -1) == DEFAULT_SPEC.(sign := c != '-', plus := c == '+', minus := c == '-')
  {
  }

  function SignWritten(c: char): FormatPieces.Sign {
    if c == '+' then FormatPieces.PlusSign else if c == '-' then FormatPieces.MinusSign else FormatPieces.SpaceSign
  }

  lemma SignIsText(c: char)
    requires c in "+- "
    ensures "{" + FormatPieces.FieldText(FormatPieces.Next, SignShape(c), "") == "{:" + [c] + "}"
  {
  }

  lemma SignedText(n: int, c: char)
    requires c in "+- "
    ensures (if n < 0 then "-" else if c == '-' then "" else [c]) + "" + Decimal(if n < 0 then -n else n) ==
            if n >= 0 && c != '-' then [c] + Decimal(n) else SignedDecimal(n)
  {
    hide Decimal;
  }

  // A decimal integer without sign flags, hash flag and precision is laid out as a text.
  lemma PlainInteger(value: int, spec: FormatSpec)
    requires !spec.sign && !spec.hash && spec.precision == -1 && spec.typeCode in {NO_TYPE, 'd'}
    ensures var text := SignedDecimal(value);
            var padding := Padding(text, spec.width);
            && (spec.align == ALIGN_LEFT ==> Field(value, spec) == text + Repeat(spec.fill, padding))
            && (spec.align in {ALIGN_RIGHT, ALIGN_DEFAULT} ==> Field(value, spec) == Repeat(spec.fill, padding) + text)
            && (spec.align == ALIGN_CENTER ==>
                 Field(value, spec) == Repeat(spec.fill, padding / 2) + text + Repeat(spec.fill, padding - padding / 2))
            && (spec.align == ALIGN_NUMERIC ==>
                 Field(value, spec) == (if value < 0 then "-" else "") + Repeat(spec.fill, padding)
                                       + Decimal(if value < 0 then -value else value))
  {
    hide Decimal, Field, Repeat, Prefix, Magnitude, SignOf;
    FieldWithoutZeros(value, spec);
    PrefixText(value, spec);
    DigitsText(value, spec.typeCode);
    var sign := if value < 0 then "-" else "";
    assert Prefix(value, spec) == sign + "" == sign;
    assert sign + Magnitude(value, spec.typeCode) == SignedDecimal(value);
  }
}
