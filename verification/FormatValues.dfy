/** Integers and strings as arguments of the brace formatter. */
module FormatValues {
  import opened RadixDigits
  import opened NumberParser
  import opened IntegerField
  import opened FormatArgs
  import opened BraceFormat
  import ArgList
  import IntegerWriter
  import FormatPieces

  predicate IsInteger(kind: Kind) {
    kind.INT? || kind.UINT? || kind.LONG_LONG? || kind.ULONG_LONG?
  }

  // Writing one value: integers and strings as the writer lays them out; for the other types this
  // stands for any rule at all.
  function Write(others: Renderer, spec: FormatSpec, arg: Arg): Result<string> {
    if IsInteger(arg.kind) then
      if KnownType(spec.typeCode) then Ok(Field(arg.number, spec)) else Error("unknown format code")
    else if arg.kind.CSTRING? || arg.kind.STRING? then
      if spec.typeCode == NO_TYPE || spec.typeCode == 's' then Ok(StringField(arg.text, spec))
      else Error("unknown format code")
    else others(spec, arg)
  }

  // Only floating-point fields carry a precision.  Integers, characters and pointers, which write_int
  // all writes with some change of the type letter and flags, are therefore never misplaced in a brace
  // format, whatever the storage.
  lemma BraceFieldsAreNotMisplaced(args: seq<Arg>, s: string, i: nat, arg: Arg, next: int,
                                   size: nat, capacity: nat, value: int, written: FormatSpec)
    requires i <= |s| && !arg.kind.DOUBLE? && !arg.kind.LONG_DOUBLE? && ReadField(args, s, i, arg, next).Ok?
    requires written.precision == ReadField(args, s, i, arg, next).value.spec.precision
    ensures written.precision == -1 && !IntegerWriter.Misplaced(size, capacity, value, written)
  {
    hide ReadFlags, Magnitude, Prefix;
    if At(s, i) == ':' {
      var flags := ReadFlags(s, i + 1, arg).value;
      assert At(s, flags.i) != '.';
    }
    IntegerWriter.MisplacedExactly(size, capacity, value, written);
  }

  // Texts and written values in turn.
  function InTurn(texts: seq<string>, written: seq<string>): string
    requires |texts| == |written|
  {
    if texts == [] then "" else texts[0] + (written[0] + InTurn(texts[1..], written[1..]))
  }

  predicate IsPlain(kind: Kind) {
    IsInteger(kind) || kind.CSTRING? || kind.STRING?
  }

  // An integer in decimal, a string as it is.
  function PlainText(arg: Arg): string
    requires IsPlain(arg.kind)
  {
    if IsInteger(arg.kind) then SignedDecimal(arg.number) else arg.text
  }

  function PlainTexts(args: seq<Arg>): (written: seq<string>)
    requires forall k :: 0 <= k < |args| ==> IsPlain(args[k].kind)
    ensures |written| == |args|
  {
    seq(|args|, k requires 0 <= k < |args| => PlainText(args[k]))
  }

  function Pieces(texts: seq<string>): seq<FormatPieces.Piece> {
    if texts == [] then []
    else [FormatPieces.Literal(texts[0]), FormatPieces.Field(FormatPieces.Next, FormatPieces.PLAIN)] + Pieces(texts[1..])
  }

  lemma {:induction false} PiecesFit(texts: seq<string>)
    requires forall text <- texts :: '\0' !in text
    ensures forall piece <- Pieces(texts) :: FormatPieces.PieceFits(piece)
  {
    if texts != [] {
      assert texts[0] in texts;
      PiecesFit(texts[1..]);
      assert FormatPieces.PieceFits(FormatPieces.Field(FormatPieces.Next, FormatPieces.PLAIN));
      assert FormatPieces.PieceFits(FormatPieces.Literal(texts[0]));
    }
  }

  function Writer(others: Renderer): Renderer {
    (spec, arg) => Write(others, spec, arg)
  }

  // What is written of a string: nothing is cut, and a wider field has it on the side asked for.
  lemma StringWritten(others: Renderer, spec: FormatSpec, arg: Arg)
    requires arg.kind.CSTRING? || arg.kind.STRING?
    ensures var written, text := Write(others, spec, arg), arg.text;
            var padding := if spec.width > |text| then spec.width - |text| else 0;
            && (written.Ok? <==> spec.typeCode == NO_TYPE || spec.typeCode == 's')
            && (written.Ok? && padding == 0 ==> written.value == text)
            && (written.Ok? && spec.align in {ALIGN_LEFT, ALIGN_DEFAULT, ALIGN_NUMERIC} ==>
                 written.value == text + Repeat(spec.fill, padding))
            && (written.Ok? && spec.align.ALIGN_RIGHT? ==> written.value == Repeat(spec.fill, padding) + text)
            && (written.Ok? && spec.align.ALIGN_CENTER? ==>
                 written.value == Repeat(spec.fill, padding / 2) + text + Repeat(spec.fill, padding - padding / 2))
  {
  }

  lemma PlainWritten(others: Renderer, spec: FormatSpec, arg: Arg)
    requires IsPlain(arg.kind) && spec == DEFAULT_SPEC
    ensures Write(others, spec, arg) == Ok(PlainText(arg))
  {
    hide InRadix, Field, StringField;
    if IsInteger(arg.kind) {
      IntegerWriter.DefaultFieldIsDecimal(0, 0, arg.number);
    } else {
      StringWritten(others, spec, arg);
    }
  }

  lemma PlainFieldMeant(args: seq<Arg>, others: Renderer, next: nat)
    requires next < |args| <= ArgList.MAX_ARGS && IsPlain(args[next].kind)
    ensures FormatPieces.FieldMeant(args, Writer(others), FormatPieces.Next, FormatPieces.PLAIN, next) ==
            Ok((PlainText(args[next]), next + 1))
  {
    PlainWritten(others, DEFAULT_SPEC, args[next]);
    assert FormatPieces.SpecMeant(FormatPieces.PLAIN, -1) == DEFAULT_SPEC;
    hide Write, PlainText;
  }

  lemma {:induction false} TextsMeant(args: seq<Arg>, others: Renderer, texts: seq<string>, written: seq<string>, next: nat)
    requires next + |texts| == |args| <= ArgList.MAX_ARGS && |written| == |texts|
    requires forall k :: next <= k < |args| ==> IsPlain(args[k].kind) && PlainText(args[k]) == written[k - next]
    ensures FormatPieces.Meant(args, Writer(others), Pieces(texts), next) == Ok(InTurn(texts, written))
    decreases |texts|
  {
    hide Writer, PlainText, IsPlain, FormatPieces.FieldMeant;
    if texts != [] {
      PlainFieldMeant(args, others, next);
      TextsMeant(args, others, texts[1..], written[1..], next + 1);
      var pieces, after := Pieces(texts), [FormatPieces.Field(FormatPieces.Next, FormatPieces.PLAIN)] + Pieces(texts[1..]);
      assert pieces[1..] == after && after[1..] == Pieces(texts[1..]);
      assert written[0] == PlainText(args[next]);
    }
  }

  // Up to sixteen integers and strings formatted into texts with "{}" between them: the texts, and in turn
  // the decimal numbers and the strings as they are, whatever is done with other types.
  lemma ValuesInText(args: seq<Arg>, others: Renderer, texts: seq<string>)
    requires |texts| == |args| <= ArgList.MAX_ARGS && forall k :: 0 <= k < |args| ==> IsPlain(args[k].kind)
    requires forall text <- texts :: '\0' !in text
    ensures var r := Render(args, Writer(others), FormatPieces.FormatText(Pieces(texts)), 0, 0);
            r.Ok? && r.value.text == InTurn(texts, PlainTexts(args))
  {
    hide Writer, Render, InTurn, Pieces, FormatPieces.FormatText, FormatPieces.Meant, FormatPieces.PieceFits, IsPlain, PlainText;
    PiecesFit(texts);
    TextsMeant(args, others, texts, PlainTexts(args), 0);
    FormatPieces.FormatMeansItsPieces(args, Writer(others), Pieces(texts));
  }

  // In particular up to sixteen integers.
  lemma NumbersInText(args: seq<Arg>, others: Renderer, texts: seq<string>, numbers: seq<int>)
    requires |texts| == |numbers| == |args| <= ArgList.MAX_ARGS
    requires forall k :: 0 <= k < |args| ==> IsInteger(args[k].kind) && args[k].number == numbers[k]
    requires forall text <- texts :: '\0' !in text
    ensures var r := Render(args, Writer(others), FormatPieces.FormatText(Pieces(texts)), 0, 0);
            r.Ok? && r.value.text == InTurn(texts, seq(|numbers|, k requires 0 <= k < |numbers| => SignedDecimal(numbers[k])))
  {
    hide Writer, Render, InTurn, Pieces, FormatPieces.FormatText, SignedDecimal;
    ValuesInText(args, others, texts);
    assert PlainTexts(args) == seq(|numbers|, k requires 0 <= k < |numbers| => SignedDecimal(numbers[k]));
  }
}
