/** Integers, characters and strings as arguments of the printf formatter. */
module PrintfValues {
  import opened MachineWords
  import opened RadixDigits
  import opened IntegerField
  import opened Collections
  import opened FormatArgs
  import opened PrintfFormat
  import opened PrintfPieces
  import ArgList
  import FormatValues
  import IntegerWriter
  import opened OutputBuffer

  // A character and its blanks.
  function PaddedChar(spec: FormatSpec, number: int): (text: string)
    ensures |text| == if spec.width > 1 then spec.width else 1
  {
    var c, padding := [(number % 0x100) as char], Repeat(' ', if spec.width > 1 then spec.width - 1 else 0);
    if spec.align != ALIGN_LEFT then padding + c else c + padding
  }

  // A character is written after its number when its type letter asks for the number.
  function WriteChar(spec: FormatSpec, number: int): Result<string> {
    if spec.typeCode == NO_TYPE || spec.typeCode == 'c' then Ok(PaddedChar(spec, number))
    else if KnownType(spec.typeCode) then Ok(IntegerField.Field(number, spec) + PaddedChar(spec, number))
    else Error("unknown format code")
  }

  // Writing one value, where the integer writer does not misplace it.
  function Writer(others: Renderer): Renderer {
    (spec: FormatSpec, arg: Arg) =>
      if arg.kind.CHAR? then WriteChar(spec, arg.number) else FormatValues.Write(others, spec, arg)
  }

  const LEFT_PADDED: Shape := Shape(None, "-", Fixed(20), Point(Fixed(5)), NO_LENGTH, 'd')

  lemma LeftPaddedMeans()
    ensures ConversionMeant([Arg(INT, 7, "")], LEFT_PADDED, 0) ==
            Some(Meaning(DEFAULT_SPEC.(width := 20, align := ALIGN_LEFT, precision := 5, typeCode := 'd'),
                         Arg(INT, 7, ""), 1))
  {
  }

  // The printf formatter reaches it: "%-20.5d" of 7 into a buffer that holds 490 characters.
  lemma PrintfIsMisplaced()
    ensures Canonical(LEFT_PADDED)
    ensures var meant := ConversionMeant([Arg(INT, 7, "")], LEFT_PADDED, 0);
            meant.Some? && IntegerWriter.Misplaced(490, 500, meant.value.arg.number, meant.value.spec)
  {
    LeftPaddedMeans();
    hide ConversionMeant;
    var spec := DEFAULT_SPEC.(width := 20, align := ALIGN_LEFT, precision := 5, typeCode := 'd');
    IntegerWriter.MisplacedExactly(490, 500, 7, spec);
  }

  // Which conversions reach it: those with a minus sign or a negative width from an argument, no zero
  // flag, a precision above the number of digits, and a field too large for the storage secured before.
  lemma PrintfMisplacedExactly(args: seq<Arg>, shape: Shape, next: int, size: nat, capacity: nat)
    requires ConversionMeant(args, shape, next).Some?
    requires IsAnyInteger(ConversionMeant(args, shape, next).value.arg.kind)
    ensures WidthMeant(args, shape, next).Some?
    ensures var (width, after) := WidthMeant(args, shape, next).value;
            PrecisionMeant(args, shape, after).Some?
    ensures var m, (width, after) := ConversionMeant(args, shape, next).value, WidthMeant(args, shape, next).value;
            var precision, absolute := PrecisionMeant(args, shape, after).value.0, if width < 0 then -width else width;
            var absorbed := if m.spec.hash && m.spec.typeCode == 'o' then 1 else 0;
            var number := |Prefix(m.arg.number, m.spec)| - absorbed + precision;
            IntegerWriter.Misplaced(size, capacity, m.arg.number, m.spec) <==>
              && ('-' in shape.flags || width < 0) && '0' !in shape.flags
              && precision > |Magnitude(m.arg.number, m.spec.typeCode)| && absolute > number
              && size + absolute > CapacityFor(CapacityFor(capacity, absolute), size + number)
  {
    var m := ConversionMeant(args, shape, next).value;
    IntegerWriter.MisplacedExactly(size, capacity, m.arg.number, m.spec);
    hide IntegerWriter.Misplaced, CapacityFor, Magnitude, Prefix, WidthMeant, PrecisionMeant, ArgumentOf;
  }

  // A conversion whose number the integer writer never misplaces, whatever the storage.
  ghost predicate WellPlaced(args: seq<Arg>, shape: Shape, next: int) {
    var m := ConversionMeant(args, shape, next);
    m.Some? && forall size: nat, capacity: nat :: !IntegerWriter.Misplaced(size, capacity, m.value.arg.number, m.value.spec)
  }

  // A decimal field without a precision is one.
  lemma PlainIsWellPlaced(args: seq<Arg>, shape: Shape, next: int)
    requires var m := ConversionMeant(args, shape, next); m.Some? && m.value.spec == RIGHT_DECIMAL
    ensures WellPlaced(args, shape, next)
  {
    var m := ConversionMeant(args, shape, next).value;
    hide ConversionMeant;
    forall size: nat, capacity: nat
      ensures !IntegerWriter.Misplaced(size, capacity, m.arg.number, m.spec)
    {
      IntegerWriter.MisplacedExactly(size, capacity, m.arg.number, m.spec);
    }
  }

  const LONG_DECIMAL: Shape := Shape(None, "", Nothing, NoPoint, LONG, 'd')

  const RIGHT_DECIMAL: FormatSpec := DEFAULT_SPEC.(align := ALIGN_RIGHT, typeCode := 'd')

  lemma PlainRightField(value: int)
    ensures IntegerField.Field(value, RIGHT_DECIMAL) == SignedDecimal(value)
  {
    hide InRadix, Repeat;
    var digits, sign := Magnitude(value, 'd'), Prefix(value, RIGHT_DECIMAL);
    assert LayoutOf(RIGHT_DECIMAL, sign, |digits|) == Layout(0, sign, 0, 0, 0);
    assert Repeat(' ', 0) == "" && Repeat('0', 0) == "";
    assert "" + sign + "" + "" + digits + "" == sign + digits;
  }

  lemma LongMeans()
    ensures ConversionMeant([Arg(INT, -1, "")], LONG_DECIMAL, 0) ==
            Some(Meaning(RIGHT_DECIMAL, Arg(LONG_LONG, 4294967295, ""), 1))
  {
  }

  // "%ld" of the int -1 prints its 32-bit word.
  lemma LongOfMinusOne(others: Renderer)
    ensures Render([Arg(INT, -1, "")], Writer(others), FormatText([PrintfPieces.Field(LONG_DECIMAL)]), 0, 0) ==
            Ok(SignedDecimal(4294967295))
    ensures WellPlaced([Arg(INT, -1, "")], LONG_DECIMAL, 0)
  {
    var args, pieces := [Arg(INT, -1, "")], [PrintfPieces.Field(LONG_DECIMAL)];
    hide WellPlaced, ConversionMeant, Render, FormatText, IntegerField.Field, InRadix, SignedDecimal;
    LongMeans();
    PlainIsWellPlaced(args, LONG_DECIMAL, 0);
    PlainRightField(4294967295);
    assert pieces[1..] == [] && SignedDecimal(4294967295) + "" == SignedDecimal(4294967295);
    PrintfMeansItsPieces(args, Writer(others), pieces);
  }

  // An argument of type char, left as it is by the length L, under a letter that asks for its number.
  predicate AsksForBoth(shape: Shape, arg: Arg) {
    arg.kind.CHAR? && shape.length.LONGDOUBLE? && shape.typeCode != 'c'
  }

  // These are exactly the conversions that write a character under another letter than 'c'.
  lemma CharUnderNumberExactly(args: seq<Arg>, shape: Shape, next: int)
    requires Canonical(shape) && ConversionMeant(args, shape, next).Some?
    ensures var m, taken := ConversionMeant(args, shape, next).value, TakenMeant(args, shape, next);
            && taken.Some? && m.next == taken.value.next && m.spec.typeCode != NO_TYPE
            && (m.arg.kind.CHAR? && m.spec.typeCode != 'c' <==> AsksForBoth(shape, taken.value.arg))
            && (AsksForBoth(shape, taken.value.arg) ==> m.arg == taken.value.arg)
  {
    hide AmountMeant, SpecMeant, ArgumentOf;
  }

  // What one conversion of an integer or a character writes: the number's field and the padded character
  // behind it in exactly that case, and one of the two alone otherwise.
  lemma WrittenTwiceExactly(args: seq<Arg>, others: Renderer, shape: Shape, next: int)
    requires Canonical(shape) && ConversionMeant(args, shape, next).Some?
    requires IsAnyInteger(ConversionMeant(args, shape, next).value.arg.kind)
    ensures TakenMeant(args, shape, next).Some?
    ensures var m, taken := ConversionMeant(args, shape, next).value, TakenMeant(args, shape, next).value.arg;
            var text := Writer(others)(m.spec, m.arg);
            var field, character := IntegerField.Field(m.arg.number, m.spec), PaddedChar(m.spec, m.arg.number);
            && (AsksForBoth(shape, taken) ==>
                 m.arg == taken && text == if KnownType(m.spec.typeCode) then Ok(field + character) else Error("unknown format code"))
            && (!AsksForBoth(shape, taken) ==>
                 text == if m.arg.kind.CHAR? then Ok(character)
                         else if KnownType(m.spec.typeCode) then Ok(field)
                         else Error("unknown format code"))
            && (text.Ok? ==> (AsksForBoth(shape, taken) <==> text.value != field && text.value != character))
  {
    CharUnderNumberExactly(args, shape, next);
    var m := ConversionMeant(args, shape, next).value;
    FieldNotEmpty(m.arg.number, m.spec);
    hide ConversionMeant, TakenMeant, PaddedChar, IntegerField.Field, KnownType, AsksForBoth;
    var field, character := IntegerField.Field(m.arg.number, m.spec), PaddedChar(m.spec, m.arg.number);
    assert |field + character| > |field| && |field + character| > |character|;
  }

  lemma FieldNotEmpty(value: int, spec: FormatSpec)
    ensures IntegerField.Field(value, spec) != ""
  {
    hide Magnitude, LayoutOf, Before, After, Prefix;
  }

  const LONG_DOUBLE_DECIMAL: Shape := Shape(None, "", Nothing, NoPoint, LONGDOUBLE, 'd')

  lemma LongDoubleMeans()
    ensures ConversionMeant([Arg(CHAR, 97, "")], LONG_DOUBLE_DECIMAL, 0) == Some(Meaning(RIGHT_DECIMAL, Arg(CHAR, 97, ""), 1))
  {
  }

  lemma NinetySeven()
    ensures SignedDecimal(97) == "97"
  {
  }

  lemma CharWritten()
    ensures WriteChar(RIGHT_DECIMAL, 97) == Ok("97a")
  {
    PlainRightField(97);
    NinetySeven();
    hide IntegerField.Field, InRadix, SignedDecimal;
    assert (97 % 0x100) as char == 'a' && Repeat(' ', 0) + "a" == "a" && "97" + "a" == "97a";
  }

  // "%Ld" of a character prints its number and then the character itself.
  lemma CharPrintedTwice(others: Renderer)
    ensures Render([Arg(CHAR, 97, "")], Writer(others), FormatText([PrintfPieces.Field(LONG_DOUBLE_DECIMAL)]), 0, 0) ==
            Ok("97a")
    ensures WellPlaced([Arg(CHAR, 97, "")], LONG_DOUBLE_DECIMAL, 0)
  {
    var args, pieces := [Arg(CHAR, 97, "")], [PrintfPieces.Field(LONG_DOUBLE_DECIMAL)];
    assert PieceFits(pieces[0]);
    LongDoubleMeans();
    PlainIsWellPlaced(args, LONG_DOUBLE_DECIMAL, 0);
    CharWritten();
    hide WellPlaced, ConversionMeant, Render, FormatText, WriteChar;
    assert pieces[1..] == [] && "97a" + "" == "97a";
    PrintfMeansItsPieces(args, Writer(others), pieces);
  }

  // Texts and values in turn, written down with "%d" and "%s".
  const DECIMAL: Shape := Shape(None, "", Nothing, NoPoint, NO_LENGTH, 'd')
  const TEXT: Shape := DECIMAL.(typeCode := 's')

  function ShapeOf(kind: Kind): Shape {
    if FormatValues.IsInteger(kind) then DECIMAL else TEXT
  }

  function Pieces(texts: seq<string>, args: seq<Arg>): seq<Piece>
    requires |texts| == |args|
  {
    if texts == [] then []
    else [Literal(texts[0]), PrintfPieces.Field(ShapeOf(args[0].kind))] + Pieces(texts[1..], args[1..])
  }

  lemma {:induction false} PiecesFit(texts: seq<string>, args: seq<Arg>)
    requires |texts| == |args| && forall text <- texts :: '\0' !in text
    ensures forall piece <- Pieces(texts, args) :: PieceFits(piece)
    decreases |texts|
  {
    if texts != [] {
      assert texts[0] in texts;
      PiecesFit(texts[1..], args[1..]);
      assert PieceFits(PrintfPieces.Field(ShapeOf(args[0].kind))) && PieceFits(Literal(texts[0]));
    }
  }

  // An integer, if it is one, that fits an int, whatever its type.
  predicate FitsInt(arg: Arg) {
    FormatValues.IsInteger(arg.kind) ==> InType(arg.kind, arg.number) && INT_MIN <= arg.number <= INT_MAX
  }

  lemma DecimalMeans(args: seq<Arg>, next: nat)
    requires next < |args| <= ArgList.MAX_ARGS && FitsInt(args[next]) && FormatValues.IsInteger(args[next].kind)
    ensures ConversionMeant(args, DECIMAL, next) ==
            Some(Meaning(RIGHT_DECIMAL, Arg(INT, args[next].number, args[next].text), next + 1))
  {
    KeptAsInt(args[next].number);
    hide Reduced;
  }

  lemma KeptAsInt(n: int)
    requires INT_MIN <= n <= INT_MAX
    ensures Reduced(n, TWO32, true) == n
  {
  }

  lemma StringMeans(args: seq<Arg>, next: nat)
    requires next < |args| <= ArgList.MAX_ARGS && FormatValues.IsPlain(args[next].kind) && !FormatValues.IsInteger(args[next].kind)
    ensures ConversionMeant(args, TEXT, next) ==
            Some(Meaning(DEFAULT_SPEC.(align := ALIGN_RIGHT, typeCode := 's'), args[next], next + 1))
  {
  }

  lemma PlainMeans(args: seq<Arg>, others: Renderer, next: nat)
    requires next < |args| <= ArgList.MAX_ARGS && FormatValues.IsPlain(args[next].kind) && FitsInt(args[next])
    ensures FieldMeant(args, Writer(others), ShapeOf(args[next].kind), next) ==
            Some((FormatValues.PlainText(args[next]), next + 1))
  {
    hide ConversionMeant, SignedDecimal, IntegerField.Field, StringField, Repeat;
    var arg := args[next];
    if FormatValues.IsInteger(arg.kind) {
      DecimalMeans(args, next);
      PlainRightField(arg.number);
    } else {
      StringMeans(args, next);
      FormatValues.StringWritten(others, DEFAULT_SPEC.(align := ALIGN_RIGHT, typeCode := 's'), arg);
    }
  }

  lemma DecimalIsWellPlaced(args: seq<Arg>, next: nat)
    requires next < |args| <= ArgList.MAX_ARGS && FitsInt(args[next]) && FormatValues.IsInteger(args[next].kind)
    ensures WellPlaced(args, DECIMAL, next)
  {
    hide WellPlaced, ConversionMeant;
    DecimalMeans(args, next);
    PlainIsWellPlaced(args, DECIMAL, next);
  }

  lemma MeantInTurn(args: seq<Arg>, others: Renderer, text: string, shape: Shape, rest: seq<Piece>, next: int)
    requires var field := FieldMeant(args, Writer(others), shape, next);
             field.Some? && Meant(args, Writer(others), rest, field.value.1).Some?
    ensures var field := FieldMeant(args, Writer(others), shape, next).value;
            Meant(args, Writer(others), [Literal(text), PrintfPieces.Field(shape)] + rest, next) ==
            Some(text + (field.0 + Meant(args, Writer(others), rest, field.1).value))
  {
    hide Writer, FieldMeant;
    var after := [PrintfPieces.Field(shape)] + rest;
    assert ([Literal(text), PrintfPieces.Field(shape)] + rest)[1..] == after && after[1..] == rest;
  }

  lemma OneMore(texts: seq<string>, args: seq<Arg>, written: seq<string>)
    requires |texts| == |args| == |written| > 0
    ensures Pieces(texts, args) == [Literal(texts[0]), PrintfPieces.Field(ShapeOf(args[0].kind))] + Pieces(texts[1..], args[1..])
    ensures FormatValues.InTurn(texts, written) == texts[0] + (written[0] + FormatValues.InTurn(texts[1..], written[1..]))
  {
  }

  lemma {:induction false} TextsMeant(args: seq<Arg>, others: Renderer, texts: seq<string>, next: nat)
    requires next + |texts| == |args| <= ArgList.MAX_ARGS
    requires forall k :: 0 <= k < |args| ==> FormatValues.IsPlain(args[k].kind) && FitsInt(args[k])
    ensures Meant(args, Writer(others), Pieces(texts, args[next..]), next) ==
            Some(FormatValues.InTurn(texts, FormatValues.PlainTexts(args)[next..]))
    decreases |texts|
  {
    if texts != [] {
      hide Writer, FormatValues.PlainText, FieldMeant, FormatValues.IsPlain, FitsInt, ShapeOf, Meant, Pieces, FormatValues.InTurn;
      var left, written := args[next..], FormatValues.PlainTexts(args)[next..];
      OneMore(texts, left, written);
      PlainMeans(args, others, next);
      TextsMeant(args, others, texts[1..], next + 1);
      assert left[1..] == args[next + 1..] && written[1..] == FormatValues.PlainTexts(args)[next + 1..];
      MeantInTurn(args, others, texts[0], ShapeOf(args[next].kind), Pieces(texts[1..], left[1..]), next);
    }
  }

  // Up to sixteen of them formatted into texts with "%d" and "%s" between them: the texts, and in turn the
  // decimal numbers, none of them misplaced, and the strings as they are.
  lemma ValuesInText(args: seq<Arg>, others: Renderer, texts: seq<string>)
    requires |texts| == |args| <= ArgList.MAX_ARGS && forall k :: 0 <= k < |args| ==> FormatValues.IsPlain(args[k].kind) && FitsInt(args[k])
    requires forall text <- texts :: '\0' !in text
    ensures Render(args, Writer(others), FormatText(Pieces(texts, args)), 0, 0) ==
            Ok(FormatValues.InTurn(texts, FormatValues.PlainTexts(args)))
    ensures forall k :: 0 <= k < |args| && FormatValues.IsInteger(args[k].kind) ==> WellPlaced(args, DECIMAL, k)
  {
    hide WellPlaced, Writer, Render, FormatValues.InTurn, Pieces, FormatText, Meant, PieceFits, FitsInt, FormatValues.PlainText;
    forall k | 0 <= k < |args| && FormatValues.IsInteger(args[k].kind) ensures WellPlaced(args, DECIMAL, k) {
      DecimalIsWellPlaced(args, k);
    }
    PiecesFit(texts, args);
    TextsMeant(args, others, texts, 0);
    assert args[0..] == args && FormatValues.PlainTexts(args)[0..] == FormatValues.PlainTexts(args);
    PrintfMeansItsPieces(args, Writer(others), Pieces(texts, args));
  }
}
