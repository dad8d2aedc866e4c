/** A grammar for format strings: what is written down as literals and fields is what comes out. */
module FormatPieces {
  import opened Collections
  import opened RadixDigits
  import opened NumberParser
  import opened IntegerField
  import opened FormatArgs
  import opened BraceFormat
  import opened MachineWords
  import ArgList

  datatype Which = Next | Numbered(index: nat)
  datatype Sign = NoSign | PlusSign | MinusSign | SpaceSign
  datatype Digits = NoDigits | Fixed(value: nat) | Nested(which: Which)

  // The parts of a specifier as a person would write them down.
  datatype Shape = Shape(align: Alignment, fill: Option<char>, sign: Sign, hash: bool, zero: bool, width: nat,
                         precision: Digits, typeCode: char)

  const PLAIN: Shape := Shape(ALIGN_DEFAULT, None, NoSign, false, false, 0, NoDigits, NO_TYPE)

  datatype Piece = Literal(text: string) | Field(which: Which, shape: Shape)

  predicate WhichFits(which: Which) {
    which.Numbered? ==> which.index <= INT_MAX
  }

  // A fill, if any, that is not a brace and stands before an alignment; numbers that fit in an int; and a
  // type that cannot be taken for one of the parts before it.
  predicate Canonical(shape: Shape) {
    && (shape.fill.Some? ==> shape.align != ALIGN_DEFAULT && shape.fill.value !in "{}\0")
    && shape.width <= INT_MAX
    && (shape.precision.Fixed? ==> shape.precision.value <= INT_MAX)
    && (shape.precision.Nested? ==> WhichFits(shape.precision.which))
    && (shape.typeCode == NO_TYPE || IsTypeCode(shape.typeCode))
  }

  predicate IsTypeCode(c: char) {
    c !in "\0}<>=^+- #." && !IsDigit(c)
  }

  predicate PieceFits(piece: Piece) {
    match piece
    case Literal(text) => '\0' !in text
    case Field(which, shape) => WhichFits(which) && Canonical(shape)
  }

  // Writing the parts down.
  function Escaped(text: string): string {
    if text == "" then ""
    else (if text[0] == '{' || text[0] == '}' then [text[0], text[0]] else [text[0]]) + Escaped(text[1..])
  }

  function WhichText(which: Which): string {
    if which.Next? then "" else Decimal(which.index)
  }

  function FillText(fill: Option<char>): string {
    if fill.Some? then [fill.value] else ""
  }

  function AlignText(shape: Shape): string {
    match shape.align
    case ALIGN_DEFAULT => ""
    case ALIGN_LEFT => FillText(shape.fill) + "<"
    case ALIGN_RIGHT => FillText(shape.fill) + ">"
    case ALIGN_NUMERIC => FillText(shape.fill) + "="
    case ALIGN_CENTER => FillText(shape.fill) + "^"
  }

  function SignText(sign: Sign): string {
    match sign
    case NoSign => ""
    case PlusSign => "+"
    case MinusSign => "-"
    case SpaceSign => " "
  }

  function HashText(hash: bool): string {
    if hash then "#" else ""
  }

  function WidthText(zero: bool, width: nat): string {
    (if zero then "0" else "") + (if width > 0 then Decimal(width) else "")
  }

  function PrecisionText(precision: Digits): string {
    match precision
    case NoDigits => ""
    case Fixed(value) => "." + Decimal(value)
    case Nested(which) => ".{" + WhichText(which) + "}"
  }

  function TypeText(typeCode: char): string {
    if typeCode == NO_TYPE then "" else [typeCode]
  }

  // Each of these is followed by the rest of the format string.
  function SpecText(shape: Shape, rest: string): string {
    AlignText(shape) + SignedText(shape, rest)
  }

  function SignedText(shape: Shape, rest: string): string {
    SignText(shape.sign) + HashedText(shape, rest)
  }

  function HashedText(shape: Shape, rest: string): string {
    HashText(shape.hash) + WideText(shape, rest)
  }

  function WideText(shape: Shape, rest: string): string {
    WidthText(shape.zero, shape.width) + PreciseText(shape, rest)
  }

  function PreciseText(shape: Shape, rest: string): string {
    PrecisionText(shape.precision) + TypedText(shape, rest)
  }

  function TypedText(shape: Shape, rest: string): string {
    TypeText(shape.typeCode) + rest
  }

  function FieldText(which: Which, shape: Shape, rest: string): string {
    WhichText(which) + if shape == PLAIN then "}" + rest else ":" + SpecText(shape, "}" + rest)
  }

  function FormatText(pieces: seq<Piece>): string {
    if pieces == [] then ""
    else
      var rest := FormatText(pieces[1..]);
      match pieces[0]
      case Literal(text) => Escaped(text) + rest
      case Field(which, shape) => "{" + FieldText(which, shape, rest)
  }

  // What the parts mean.
  function ArgumentOf(args: seq<Arg>, which: Which, next: int): Result<Arg> {
    var index := if which.Next? then next else which.index;
    if if which.Next? then next < 0 else next > 0 then Error("mixed indexing")
    else if index < |args| && index < ArgList.MAX_ARGS && args[index].kind != NONE then Ok(args[index])
    else Error("no such argument")
  }

  function IndexAfter(which: Which, next: int): int {
    if which.Next? then next + 1 else -1
  }

  predicate IsText(kind: Kind) {
    kind.CSTRING? || kind.STRING? || kind.WSTRING? || kind.ADDRESS?
  }

  predicate Allowed(shape: Shape, kind: Kind) {
    && (shape.align == ALIGN_NUMERIC || shape.hash || shape.zero || shape.sign != NoSign ==> !IsText(kind))
    && (shape.sign != NoSign ==> !kind.UINT? && !kind.ULONG_LONG?)
    && (shape.precision != NoDigits ==> kind.DOUBLE? || kind.LONG_DOUBLE?)
  }

  function PrecisionMeant(args: seq<Arg>, precision: Digits, next: int): Result<(int, int)> {
    match precision
    case NoDigits => var none: int := -1; Ok((none, next))
    case Fixed(value) => Ok((value, next))
    case Nested(which) =>
      var arg :- ArgumentOf(args, which, next);
      if arg.kind in {INT, UINT, LONG_LONG, ULONG_LONG} && 0 <= arg.number < 0x8000_0000
      then Ok((arg.number, IndexAfter(which, next)))
      else Error("no precision")
  }

  function FillOf(fill: Option<char>): char {
    if fill.Some? then fill.value else ' '
  }

  function SpecMeant(shape: Shape, precision: int): FormatSpec {
    FormatSpec(shape.width, if shape.zero then '0' else FillOf(shape.fill),
               if shape.zero then ALIGN_NUMERIC else shape.align,
               shape.sign.PlusSign? || shape.sign.SpaceSign?, shape.sign.PlusSign?, shape.sign.MinusSign?,
               shape.hash, false, precision, shape.typeCode)
  }

  // A field's text and the index state after it.
  function FieldMeant(args: seq<Arg>, render: Renderer, which: Which, shape: Shape, next: int): Result<(string, int)> {
    var arg :- ArgumentOf(args, which, next);
    var precision :- PrecisionMeant(args, shape.precision, IndexAfter(which, next));
    var _ :- if Allowed(shape, arg.kind) then Ok(()) else Error("not allowed");
    var text :- render(SpecMeant(shape, precision.0), arg);
    Ok((text, precision.1))
  }

  function Meant(args: seq<Arg>, render: Renderer, pieces: seq<Piece>, next: int): Result<string> {
    if pieces == [] then Ok("")
    else
      var first :- match pieces[0]
                   case Literal(text) => Ok((text, next))
                   case Field(which, shape) => FieldMeant(args, render, which, shape, next);
      var rest :- Meant(args, render, pieces[1..], first.1);
      Ok(first.0 + rest)
  }

  lemma WhichThere(args: seq<Arg>, s: string, i: nat, which: Which, next: int, rest: string)
    requires i <= |s| && s[i..] == WhichText(which) + rest
    requires WhichFits(which) && !IsDigit(At(rest, 0))
    ensures var meant, taken := ArgumentOf(args, which, next), Take(args, s, i, next);
            && (meant.Error? ==> taken.Error?)
            && (meant.Ok? ==> (taken.Ok? && taken.value.arg == meant.value && taken.value.next == IndexAfter(which, next)
                           && taken.value.end == i + |WhichText(which)|))
  {
    hide Scan, Decimal;
    Move(s, i, WhichText(which), rest);
    if which.Numbered? { NumberThere(s, i, which.index, rest); }
  }

  predicate PlainAt(t: string, k: nat) {
    AlignmentOf(At(t, k)) == ALIGN_DEFAULT
  }

  lemma AlignmentThere(s: string, i: nat, shape: Shape, arg: Arg, rest: string)
    requires i <= |s| && s[i..] == AlignText(shape) + rest && Canonical(shape)
    requires shape.fill.None? ==> PlainAt(rest, 0)
    requires shape.align == ALIGN_DEFAULT ==> PlainAt(rest, 1)
    ensures ReadAlignment(s, i, arg, DEFAULT_SPEC) ==
            if shape.align == ALIGN_NUMERIC && !IsNumeric(arg.kind) then RequireNumericError(arg, '=')
            else Ok(Stage(i + |AlignText(shape)|, DEFAULT_SPEC.(align := shape.align, fill := FillOf(shape.fill))))
  {
    Move(s, i, AlignText(shape), rest);
    if shape.align != ALIGN_DEFAULT {
      assert shape.fill.Some? ==> At(s, i) == shape.fill.value && At(s, i + 1) == AlignText(shape)[1];
      assert shape.fill.None? ==> At(s, i) == AlignText(shape)[0] && At(s, i + 1) == At(rest, 0);
    }
  }

  function RequireNumericError(arg: Arg, c: char): Result<Stage>
    requires !IsNumeric(arg.kind)
  {
    Error(RequireNumeric(arg, c).message)
  }

  lemma SignThere(s: string, i: nat, shape: Shape, arg: Arg, spec: FormatSpec, rest: string)
    requires i <= |s| && s[i..] == SignText(shape.sign) + rest
    requires At(rest, 0) !in "+- "
    ensures var r := ReadSign(s, i, arg, spec);
            && (shape.sign != NoSign && (!IsNumeric(arg.kind) || IsUnsigned(arg.kind)) ==> r.Error?)
            && (shape.sign == NoSign || (IsNumeric(arg.kind) && !IsUnsigned(arg.kind)) ==>
                r == Ok(Stage(i + |SignText(shape.sign)|, WithSign(spec, shape.sign))))
  {
    Move(s, i, SignText(shape.sign), rest);
  }

  function WithSign(spec: FormatSpec, sign: Sign): FormatSpec {
    match sign
    case NoSign => spec
    case PlusSign => spec.(sign := true, plus := true)
    case MinusSign => spec.(minus := true)
    case SpaceSign => spec.(sign := true, plus := false)
  }

  lemma HashThere(s: string, i: nat, shape: Shape, arg: Arg, spec: FormatSpec, rest: string)
    requires i <= |s| && s[i..] == HashText(shape.hash) + rest
    requires At(rest, 0) != '#'
    ensures var r := ReadHash(s, i, arg, spec);
            if shape.hash && !IsNumeric(arg.kind) then r.Error?
            else r == Ok(Stage(i + |HashText(shape.hash)|, if shape.hash then spec.(hash := true) else spec))
  {
    Move(s, i, HashText(shape.hash), rest);
  }

  lemma WidthThere(s: string, i: nat, shape: Shape, arg: Arg, spec: FormatSpec, rest: string)
    requires i <= |s| && s[i..] == WidthText(shape.zero, shape.width) + rest
    requires shape.width <= INT_MAX && !IsDigit(At(rest, 0)) && spec.width == 0
    ensures var r := ReadWidth(s, i, arg, spec);
            if shape.zero && !IsNumeric(arg.kind) then r.Error?
            else r == Ok(Stage(i + |WidthText(shape.zero, shape.width)|,
                               if shape.zero then spec.(align := ALIGN_NUMERIC, fill := '0', width := shape.width)
                               else spec.(width := shape.width)))
  {
    var text := WidthText(shape.zero, shape.width);
    hide Decimal;
    Move(s, i, text, rest);
    if shape.zero {
      if shape.width > 0 {
        Move(s, i, "0", Decimal(shape.width) + rest);
        NumberThere(s, i + 1, shape.width, rest);
      }
    } else if shape.width > 0 {
      NumberThere(s, i, shape.width, rest);
      NotZero(s, i, shape.width, rest);
    }
  }

  // A positive width does not start with the zero that would ask for zeros.
  lemma NotZero(s: string, i: nat, width: nat, rest: string)
    requires i <= |s| && s[i..] == Decimal(width) + rest && width > 0
    ensures At(s, i) != '0'
  {
    NoLeadingZero(width, 10, false);
    Move(s, i, Decimal(width), rest);
  }

  lemma PrecisionThere(args: seq<Arg>, s: string, i: nat, shape: Shape, arg: Arg, next: int, rest: string)
    requires i <= |s| && s[i..] == PrecisionText(shape.precision) + rest
    requires Canonical(shape) && !IsDigit(At(rest, 0)) && At(rest, 0) != '.'
    ensures var r, meant := ReadPrecision(args, s, i, arg, next), PrecisionMeant(args, shape.precision, next);
            if meant.Error? || (shape.precision != NoDigits && !arg.kind.DOUBLE? && !arg.kind.LONG_DOUBLE?) then r.Error?
            else (r.Ok? && r.value.value == meant.value.0 && r.value.next == meant.value.1
                  && r.value.i == i + |PrecisionText(shape.precision)|)
  {
    hide Decimal, Take, Scan, PrecisionOf, Canonical;
    Move(s, i, PrecisionText(shape.precision), rest);
    match shape.precision
    case NoDigits =>
    case Fixed(value) =>
      assert value <= INT_MAX by { CanonicalNumbers(shape); }
      assert "." + Decimal(value) + rest == "." + (Decimal(value) + rest);
      Move(s, i, ".", Decimal(value) + rest);
      NumberThere(s, i + 1, value, rest);
    case Nested(which) =>
      assert WhichFits(which) by { CanonicalNumbers(shape); }
      NestedThere(args, s, i + 1, which, next, rest) by {
        assert ".{" + WhichText(which) + "}" + rest == "." + ("{" + WhichText(which) + "}" + rest);
        Move(s, i, ".", "{" + WhichText(which) + "}" + rest);
      }
  }

  lemma CanonicalNumbers(shape: Shape)
    requires Canonical(shape)
    ensures shape.width <= INT_MAX
    ensures shape.precision.Fixed? ==> shape.precision.value <= INT_MAX
    ensures shape.precision.Nested? ==> WhichFits(shape.precision.which)
  {
  }

  lemma NestedThere(args: seq<Arg>, s: string, i: nat, which: Which, next: int, rest: string)
    requires i <= |s| && s[i..] == "{" + WhichText(which) + "}" + rest && WhichFits(which)
    ensures At(s, i) == '{'
    ensures var r, meant := ReadPrecisionValue(args, s, i, next), PrecisionMeant(args, Nested(which), next);
            if meant.Error? then r.Error?
            else (r.Ok? && r.value.value == meant.value.0 && r.value.next == meant.value.1
                  && r.value.i == i + |WhichText(which)| + 2)
  {
    hide Take, Scan, WhichText, ArgumentOf;
    assert "{" + WhichText(which) + "}" + rest == "{" + (WhichText(which) + ("}" + rest));
    Move(s, i, "{", WhichText(which) + ("}" + rest));
    Move(s, i + 1, WhichText(which), "}" + rest);
    WhichThere(args, s, i + 1, which, next, "}" + rest);
  }

  // What each part can be followed by.
  lemma NumberStart(n: nat)
    ensures |Decimal(n)| > 0 && IsDigit(Decimal(n)[0])
    ensures forall k :: 0 <= k < |Decimal(n)| ==> PlainAt(Decimal(n), k)
  {
    forall k | 0 <= k < |Decimal(n)| ensures IsDigit(Decimal(n)[k]) {
      DecimalDigits(n, k);
    }
  }

  lemma Followers(shape: Shape, rest: string)
    requires Canonical(shape)
    ensures var t := TypedText(shape, "}" + rest);
            PlainAt(t, 0) && !IsDigit(At(t, 0)) && At(t, 0) !in ".+- #\0"
    ensures var t := PreciseText(shape, "}" + rest); PlainAt(t, 0) && !IsDigit(At(t, 0)) && At(t, 0) !in "+- #\0"
    ensures var t := WideText(shape, "}" + rest); PlainAt(t, 0) && At(t, 0) !in "+- #\0"
    ensures var t := HashedText(shape, "}" + rest); PlainAt(t, 0) && At(t, 0) !in "+- \0"
    ensures PlainAt(SignedText(shape, "}" + rest), 0)
  {
    hide Decimal;
    NumberStart(shape.width);
    var typed := TypedText(shape, "}" + rest);
    assert At(typed, 0) == '}' || IsTypeCode(At(typed, 0));
    var precise := PreciseText(shape, "}" + rest);
    assert At(precise, 0) == '.' || At(precise, 0) == At(typed, 0);
    var wide := WideText(shape, "}" + rest);
    assert IsDigit(At(wide, 0)) || At(wide, 0) == At(precise, 0);
  }

  lemma FirstTwo(part: string, rest: string)
    requires forall k :: 0 <= k < |part| ==> PlainAt(part, k)
    requires PlainAt(rest, 0) && (part == "" ==> PlainAt(rest, 1))
    ensures PlainAt(part + rest, 0) && PlainAt(part + rest, 1)
  {
    var t := part + rest;
    assert part == "" ==> t == rest;
    assert |part| > 0 ==> PlainAt(part, 0) && At(t, 0) == At(part, 0);
    assert |part| == 1 ==> At(t, 1) == At(rest, 0);
    assert |part| > 1 ==> PlainAt(part, 1) && At(t, 1) == At(part, 1);
  }

  // A specifier that does not start with an alignment does not look as if it did.
  lemma NoAlignment(shape: Shape, rest: string)
    requires Canonical(shape) && shape.align == ALIGN_DEFAULT && shape != PLAIN
    ensures PlainAt(SignedText(shape, "}" + rest), 0) && PlainAt(SignedText(shape, "}" + rest), 1)
  {
    hide Decimal;
    Followers(shape, rest);
    NumberStart(shape.width);
    var tail := "}" + rest;
    if shape.typeCode != NO_TYPE { FirstTwo(TypeText(shape.typeCode), tail); }
    if shape.precision != NoDigits || shape.typeCode != NO_TYPE {
      PrecisionPlain(shape.precision);
      FirstTwo(PrecisionText(shape.precision), TypedText(shape, tail));
    }
    if shape.zero || shape.width > 0 || PlainAt(PreciseText(shape, tail), 1) {
      WidthPlain(shape.zero, shape.width);
      FirstTwo(WidthText(shape.zero, shape.width), PreciseText(shape, tail));
    }
    if shape.hash || PlainAt(WideText(shape, tail), 1) {
      FirstTwo(HashText(shape.hash), WideText(shape, tail));
    }
    FirstTwo(SignText(shape.sign), HashedText(shape, tail));
  }

  lemma PlainTogether(t: string, u: string)
    requires forall k :: 0 <= k < |t| ==> PlainAt(t, k)
    requires forall k :: 0 <= k < |u| ==> PlainAt(u, k)
    ensures forall k :: 0 <= k < |t + u| ==> PlainAt(t + u, k)
  {
    forall k | 0 <= k < |t + u| ensures PlainAt(t + u, k) {
      assert if k < |t| then PlainAt(t, k) else PlainAt(u, k - |t|);
    }
  }

  lemma WidthPlain(zero: bool, width: nat)
    ensures forall k :: 0 <= k < |WidthText(zero, width)| ==> PlainAt(WidthText(zero, width), k)
  {
    hide Decimal;
    NumberStart(width);
    PlainTogether(if zero then "0" else "", if width > 0 then Decimal(width) else "");
  }

  lemma PrecisionPlain(precision: Digits)
    ensures forall k :: 0 <= k < |PrecisionText(precision)| ==> PlainAt(PrecisionText(precision), k)
  {
    hide Decimal;
    match precision
    case NoDigits =>
    case Fixed(value) =>
      NumberStart(value);
      PlainTogether(".", Decimal(value));
    case Nested(which) =>
      if which.Numbered? { NumberStart(which.index); }
      PlainTogether(".{", WhichText(which));
      PlainTogether(".{" + WhichText(which), "}");
  }

  // The parts before the precision.
  function FlagsMeant(shape: Shape): FormatSpec {
    SpecMeant(shape, -1).(typeCode := NO_TYPE)
  }

  predicate AfterAlignmentAllowed(shape: Shape, kind: Kind) {
    && (shape.hash || shape.zero || shape.sign != NoSign ==> IsNumeric(kind))
    && (shape.sign != NoSign ==> !IsUnsigned(kind))
  }

  predicate FlagsAllowed(shape: Shape, kind: Kind) {
    (shape.align == ALIGN_NUMERIC ==> IsNumeric(kind)) && AfterAlignmentAllowed(shape, kind)
  }

  function AfterAlignmentLength(shape: Shape): nat {
    |SignText(shape.sign)| + |HashText(shape.hash)| + |WidthText(shape.zero, shape.width)|
  }

  function FlagsLength(shape: Shape): nat {
    |AlignText(shape)| + AfterAlignmentLength(shape)
  }

  lemma FlagsEnd(s: string, i: nat, shape: Shape, rest: string)
    requires i <= |s| && s[i..] == SpecText(shape, "}" + rest)
    ensures i + FlagsLength(shape) <= |s| && s[i + FlagsLength(shape)..] == PreciseText(shape, "}" + rest)
    ensures i + |AlignText(shape)| <= |s| && s[i + |AlignText(shape)|..] == SignedText(shape, "}" + rest)
  {
    hide AlignText, SignedText, PreciseText, AfterAlignmentLength;
    Move(s, i, AlignText(shape), SignedText(shape, "}" + rest));
    AfterAlignmentEnd(s, i + |AlignText(shape)|, shape, rest);
  }

  lemma FlagsThere(s: string, i: nat, shape: Shape, arg: Arg, rest: string)
    requires i <= |s| && s[i..] == SpecText(shape, "}" + rest) && Canonical(shape) && shape != PLAIN
    ensures var r := ReadFlags(s, i, arg);
            if !FlagsAllowed(shape, arg.kind) then r.Error?
            else r == Ok(Stage(i + FlagsLength(shape), FlagsMeant(shape)))
  {
    hide ReadAlignment, ReadAfterAlignment, Canonical, AlignText, SignedText, AfterAlignmentLength;
    hide FlagsMeant, AfterAlignmentAllowed, PreciseText, IsNumeric;
    Followers(shape, rest);
    if shape.align == ALIGN_DEFAULT { NoAlignment(shape, rest); }
    AlignmentThere(s, i, shape, arg, SignedText(shape, "}" + rest));
    FlagsEnd(s, i, shape, rest);
    var spec := DEFAULT_SPEC.(align := shape.align, fill := FillOf(shape.fill));
    AfterAlignmentThere(s, i + |AlignText(shape)|, shape, arg, spec, rest);
  }

  lemma AfterAlignmentEnd(s: string, i: nat, shape: Shape, rest: string)
    requires i <= |s| && s[i..] == SignedText(shape, "}" + rest)
    ensures var i2 := i + |SignText(shape.sign)|;
            var i3 := i2 + |HashText(shape.hash)|;
            var i4 := i3 + |WidthText(shape.zero, shape.width)|;
            && i4 <= |s| && i4 == i + AfterAlignmentLength(shape)
            && s[i2..] == HashedText(shape, "}" + rest)
            && s[i3..] == WideText(shape, "}" + rest)
            && s[i4..] == PreciseText(shape, "}" + rest)
  {
    hide SignText, HashText, WidthText, PreciseText;
    var tail := "}" + rest;
    Move(s, i, SignText(shape.sign), HashedText(shape, tail));
    Move(s, i + |SignText(shape.sign)|, HashText(shape.hash), WideText(shape, tail));
    Move(s, i + |SignText(shape.sign)| + |HashText(shape.hash)|, WidthText(shape.zero, shape.width), PreciseText(shape, tail));
  }

  lemma AfterAlignmentThere(s: string, i: nat, shape: Shape, arg: Arg, spec: FormatSpec, rest: string)
    requires i <= |s| && s[i..] == SignedText(shape, "}" + rest) && Canonical(shape)
    requires spec == DEFAULT_SPEC.(align := shape.align, fill := FillOf(shape.fill))
    ensures var r := ReadAfterAlignment(s, i, arg, spec);
            if !AfterAlignmentAllowed(shape, arg.kind) then r.Error?
            else r == Ok(Stage(i + AfterAlignmentLength(shape), FlagsMeant(shape)))
  {
    hide Decimal, ReadSign, ReadHash, ReadWidth, Canonical, SignText, HashText, WidthText, PreciseText;
    hide WithSign, FlagsMeant, IsNumeric, IsUnsigned, AfterAlignmentLength;
    var tail := "}" + rest;
    AfterAlignmentEnd(s, i, shape, rest);
    Followers(shape, rest);
    CanonicalNumbers(shape);
    FlagsTogether(shape, spec);
    SignThere(s, i, shape, arg, spec, HashedText(shape, tail));
    if shape.sign == NoSign || (IsNumeric(arg.kind) && !IsUnsigned(arg.kind)) {
      var i2, spec2 := i + |SignText(shape.sign)|, WithSign(spec, shape.sign);
      HashThere(s, i2, shape, arg, spec2, WideText(shape, tail));
      if !shape.hash || IsNumeric(arg.kind) {
        var i3, spec3 := i2 + |HashText(shape.hash)|, if shape.hash then spec2.(hash := true) else spec2;
        WidthThere(s, i3, shape, arg, spec3, PreciseText(shape, tail));
      }
    }
  }

  lemma FlagsTogether(shape: Shape, spec: FormatSpec)
    requires spec == DEFAULT_SPEC.(align := shape.align, fill := FillOf(shape.fill))
    ensures var signed := WithSign(spec, shape.sign);
            var hashed := if shape.hash then signed.(hash := true) else signed;
            hashed.width == 0 &&
            FlagsMeant(shape) == if shape.zero then hashed.(align := ALIGN_NUMERIC, fill := '0', width := shape.width)
                                 else hashed.(width := shape.width)
  {
  }

  lemma TypeThere(s: string, i: nat, shape: Shape, rest: string)
    requires i <= |s| && s[i..] == TypedText(shape, "}" + rest) && Canonical(shape)
    ensures var typed := At(s, i) != '}' && At(s, i) != '\0';
            && (typed <==> shape.typeCode != NO_TYPE) && (typed ==> At(s, i) == shape.typeCode)
            && (if typed then i + 1 else i) <= |s| && s[if typed then i + 1 else i..] == "}" + rest
  {
    Move(s, i, TypeText(shape.typeCode), "}" + rest);
  }

  // A specifier is read as what it means.
  lemma SpecifierThere(args: seq<Arg>, s: string, i: nat, shape: Shape, arg: Arg, next: int, rest: string)
    requires i <= |s| && s[i..] == SpecText(shape, "}" + rest) && Canonical(shape) && shape != PLAIN
    ensures var r, meant := ReadSpecifier(args, s, i, arg, next), PrecisionMeant(args, shape.precision, next);
            if meant.Error? || !Allowed(shape, arg.kind) then r.Error?
            else (r.Ok? && r.value.spec == SpecMeant(shape, meant.value.0) && r.value.next == meant.value.1
                  && s[r.value.i..] == "}" + rest)
  {
    hide ReadFlags, ReadPrecision, PrecisionMeant, PrecisionText, FlagsLength, SpecText, TypedText, Canonical;
    hide FlagsAllowed, Allowed, SpecMeant;
    Followers(shape, rest);
    FlagsThere(s, i, shape, arg, rest);
    FlagsEnd(s, i, shape, rest);
    AllowedInParts(shape, arg.kind);
    if FlagsAllowed(shape, arg.kind) {
      var i4 := i + FlagsLength(shape);
      PrecisionThere(args, s, i4, shape, arg, next, TypedText(shape, "}" + rest));
      Move(s, i4, PrecisionText(shape.precision), TypedText(shape, "}" + rest));
      TypeThere(s, i4 + |PrecisionText(shape.precision)|, shape, rest);
      var meant := PrecisionMeant(args, shape.precision, next);
      if meant.Ok? { SpecInParts(shape, meant.value.0); }
    }
  }

  lemma AllowedInParts(shape: Shape, kind: Kind)
    ensures Allowed(shape, kind) <==>
            FlagsAllowed(shape, kind) && (shape.precision == NoDigits || kind.DOUBLE? || kind.LONG_DOUBLE?)
  {
  }

  lemma SpecInParts(shape: Shape, precision: int)
    ensures SpecMeant(shape, precision) == FlagsMeant(shape).(precision := precision, typeCode := shape.typeCode)
    ensures FlagsMeant(shape).typeCode == NO_TYPE
  {
  }

  lemma FieldStart(which: Which, shape: Shape, rest: string)
    ensures At(FieldText(which, shape, rest), 0) != '{'
    ensures var t := if shape == PLAIN then "}" + rest else ":" + SpecText(shape, "}" + rest);
            !IsDigit(At(t, 0)) && FieldText(which, shape, rest) == WhichText(which) + t
  {
    hide Decimal, SpecText;
    if which.Numbered? { NumberStart(which.index); }
  }

  // A field is replaced by what it means, and reading goes on right behind it.
  lemma FieldThere(args: seq<Arg>, render: Renderer, s: string, i: nat, which: Which, shape: Shape, next: int, rest: string)
    requires i <= |s| && s[i..] == FieldText(which, shape, rest) && PieceFits(Field(which, shape))
    ensures var r, meant := Replace(args, render, s, i, next), FieldMeant(args, render, which, shape, next);
            if meant.Error? then r.Error?
            else r.Ok? && r.value.text == meant.value.0 && r.value.next == meant.value.1 && s[r.value.i..] == rest
  {
    hide Take, ReadField, Canonical, SpecText, FieldText, WhichText, ArgumentOf, PrecisionMeant, SpecMeant, Allowed, IndexAfter;
    FieldStart(which, shape, rest);
    var tail := if shape == PLAIN then "}" + rest else ":" + SpecText(shape, "}" + rest);
    WhichThere(args, s, i, which, next, tail);
    Move(s, i, WhichText(which), tail);
    var end := i + |WhichText(which)|;
    if ArgumentOf(args, which, next).Ok? {
      var arg := ArgumentOf(args, which, next).value;
      FieldEndThere(args, s, end, shape, arg, IndexAfter(which, next), rest);
    }
  }

  lemma FieldEndThere(args: seq<Arg>, s: string, i: nat, shape: Shape, arg: Arg, next: int, rest: string)
    requires i <= |s| && Canonical(shape)
    requires s[i..] == if shape == PLAIN then "}" + rest else ":" + SpecText(shape, "}" + rest)
    ensures var r, meant := ReadField(args, s, i, arg, next), PrecisionMeant(args, shape.precision, next);
            if meant.Error? || !Allowed(shape, arg.kind) then r.Error?
            else (r.Ok? && r.value.spec == SpecMeant(shape, meant.value.0) && r.value.next == meant.value.1
                  && s[r.value.i..] == rest)
  {
    hide ReadSpecifier, Canonical, SpecText;
    if shape == PLAIN {
      Move(s, i, "}", rest);
    } else {
      Move(s, i, ":", SpecText(shape, "}" + rest));
      SpecifierThere(args, s, i + 1, shape, arg, next, rest);
      var r := ReadSpecifier(args, s, i + 1, arg, next);
      if r.Ok? { Move(s, r.value.i, "}", rest); }
    }
  }

  // A literal with its braces doubled is copied as it was before.
  lemma {:induction false} LiteralThere(args: seq<Arg>, render: Renderer, s: string, i: nat, text: string, next: int, rest: string)
    requires i <= |s| && s[i..] == Escaped(text) + rest && '\0' !in text
    ensures i + |Escaped(text)| <= |s| && s[i + |Escaped(text)|..] == rest
    ensures Render(args, render, s, i, next) ==
            Prepend(text, [], Render(args, render, s, i + |Escaped(text)|, next))
    decreases |text|
  {
    hide Render, Prepend;
    if text == "" {
      assert Escaped(text) + rest == rest;
      AtTheStart(Render(args, render, s, i, next));
    } else {
      var part := if text[0] == '{' || text[0] == '}' then [text[0], text[0]] else [text[0]];
      assert Escaped(text) + rest == part + (Escaped(text[1..]) + rest);
      Move(s, i, part, Escaped(text[1..]) + rest);
      assert At(s, i) == part[0] && (|part| == 2 ==> At(s, i + 1) == part[1]);
      LiteralThere(args, render, s, i + |part|, text[1..], next, rest);
      CharacterThere(args, render, s, i, text, next, i + |part|, Render(args, render, s, i + |Escaped(text)|, next));
    }
  }

  lemma CharacterThere(args: seq<Arg>, render: Renderer, s: string, i: nat, text: string, next: int, after: nat, left: Result<Rendered>)
    requires i < |s| && text != "" && s[i] == text[0] && s[i] != '\0' && after <= |s|
    requires if s[i] == '{' || s[i] == '}' then At(s, i + 1) == s[i] && after == i + 2 else after == i + 1
    requires Render(args, render, s, after, next) == Prepend(text[1..], [], left)
    ensures Render(args, render, s, i, next) == Prepend(text, [], left)
  {
    hide Replace, Prepend;
    AtTheStart(Render(args, render, s, i, next));
    CopyCharacter(args, render, s, i, next, "", [], after);
    PrependTwice([s[i]], [], text[1..], [], left);
    assert [text[0]] + text[1..] == text && "" + [s[i]] == [s[i]];
    var none: seq<Reference> := [];
    assert none + [] == [];
  }

  lemma BracedFieldThere(args: seq<Arg>, render: Renderer, s: string, i: nat, which: Which, shape: Shape, next: int, rest: string)
    requires i <= |s| && s[i..] == "{" + FieldText(which, shape, rest) && PieceFits(Field(which, shape))
    ensures i < |s|
    ensures var meant, field := FieldMeant(args, render, which, shape, next), Replace(args, render, s, i + 1, next);
            && (meant.Error? ==> Render(args, render, s, i, next).Error?)
            && (meant.Ok? ==> field.Ok? && s[field.value.i..] == rest)
            && (meant.Ok? ==>
                 Render(args, render, s, i, next) ==
                 Prepend(meant.value.0, field.value.references, Render(args, render, s, field.value.i, meant.value.1)))
  {
    hide Replace, FieldMeant, FieldText, PieceFits;
    Move(s, i, "{", FieldText(which, shape, rest));
    FieldStart(which, shape, rest);
    FieldThere(args, render, s, i + 1, which, shape, next, rest);
  }

  // What is written down as pieces comes out as the pieces mean, in order, each exactly once; and
  // formatting fails exactly when one of them has no meaning.
  lemma {:induction false} PiecesThere(args: seq<Arg>, render: Renderer, s: string, i: nat, pieces: seq<Piece>, next: int)
    requires i <= |s| && s[i..] == FormatText(pieces)
    requires forall piece <- pieces :: PieceFits(piece)
    ensures var r, meant := Render(args, render, s, i, next), Meant(args, render, pieces, next);
            if meant.Error? then r.Error? else r.Ok? && r.value.text == meant.value
    decreases |pieces|
  {
    hide Replace, FieldMeant, Escaped, FieldText, Canonical;
    if pieces == [] {
      assert At(s, i) == '\0';
    } else {
      hide Render;
      var rest := FormatText(pieces[1..]);
      assert PieceFits(pieces[0]);
      match pieces[0]
      case Literal(text) =>
        LiteralThere(args, render, s, i, text, next, rest);
        PiecesThere(args, render, s, i + |Escaped(text)|, pieces[1..], next);
      case Field(which, shape) =>
        BracedFieldThere(args, render, s, i, which, shape, next, rest);
        var meant, field := FieldMeant(args, render, which, shape, next), Replace(args, render, s, i + 1, next);
        if meant.Ok? { PiecesThere(args, render, s, field.value.i, pieces[1..], meant.value.1); }
    }
  }

  // So formatting a string built from pieces gives their meanings.
  lemma FormatMeansItsPieces(args: seq<Arg>, render: Renderer, pieces: seq<Piece>)
    requires forall piece <- pieces :: PieceFits(piece)
    ensures var r, meant := Render(args, render, FormatText(pieces), 0, 0), Meant(args, render, pieces, 0);
            && (r.Ok? <==> meant.Ok?)
            && (r.Ok? ==> r.value.text == meant.value)
  {
    var s := FormatText(pieces);
    assert s[0..] == s;
    PiecesThere(args, render, s, 0, pieces, 0);
  }

  // Text with its braces doubled formats to itself, whatever the arguments.
  lemma DoubledBracesAreText(args: seq<Arg>, render: Renderer, text: string)
    requires '\0' !in text
    ensures var r := Render(args, render, Escaped(text), 0, 0); r.Ok? && r.value.text == text && r.value.references == []
  {
    var s := Escaped(text);
    assert s[0..] == s + "";
    LiteralThere(args, render, s, 0, text, 0, "");
  }

  // An empty specifier is the default one exactly when the next character is not an alignment:
  // "{:}<" sets the alignment from outside the field.
  lemma EmptySpecifier(args: seq<Arg>, arg: Arg, next: int, rest: string)
    ensures ReadField(args, ":}" + rest, 0, arg, next) ==
            Ok(Specifier(2, DEFAULT_SPEC.(align := AlignmentOf(At(rest, 0))), next, []))
  {
    var s := ":}" + rest;
    assert At(s, 1) == '}' && At(s, 2) == At(rest, 0);
    assert DEFAULT_SPEC.(align := ALIGN_DEFAULT) == DEFAULT_SPEC;
  }
}
