/** Every run of the printf formatter uses automatic references only or manual references only, too. */
module PrintfDiscipline {
  import opened NumberParser
  import opened RadixDigits
  import opened IntegerField
  import opened Collections
  import opened FormatArgs
  import opened PrintfFormat
  import opened PrintfPieces
  import opened ArgumentDiscipline
  import BraceFormat

  type Reference = BraceFormat.Reference

  // A part of a conversion that ends with a star has taken its value from the next argument.
  predicate Starred(s: string, from: nat, to: nat) {
    from < to <= |s| && s[to - 1] == '*'
  }

  function StarReferences(s: string, from: nat, to: nat, next: int): seq<Reference>
    requires Starred(s, from, to) ==> next >= 0
  {
    if Starred(s, from, to) then [BraceFormat.Automatic(next)] else []
  }

  function ReferenceOf(number: Option<nat>, next: int): Reference
    requires if number.Some? then number.value > 0 else next >= 0
  {
    if number.Some? then BraceFormat.Manual(number.value - 1) else BraceFormat.Automatic(next)
  }

  lemma ArgLeads(args: seq<Arg>, s: string, i: nat, number: Option<nat>, next: int)
    ensures var r := GetArg(args, s, i, number, next);
            r.Ok? ==>
              && (if number.Some? then number.value > 0 else next >= 0)
              && Leads(next, [ReferenceOf(number, next)], r.value.next)
              && InRange([ReferenceOf(number, next)], args)
  {
  }

  lemma {:induction false} FlagsEndFlag(s: string, i: nat, spec: FormatSpec)
    requires i <= |s|
    ensures !Starred(s, i, ReadFlags(s, i, spec).i)
    decreases |s| - i
  {
    if IsFlag(At(s, i)) { FlagsEndFlag(s, i + 1, WithFlag(spec, s[i])); }
  }

  lemma NumberEndsDigit(s: string, i: nat)
    requires IsDigit(At(s, i))
    ensures Scan(s, i, 0).Number? ==> !Starred(s, i, Scan(s, i, 0).next)
  {
    ParserIsCongruent(s, i);
    hide Scan;
    if Scan(s, i, 0).Number? { assert IsDigit(At(s, Scan(s, i, 0).next - 1)); }
  }

  // What a step takes from stars is what the discipline says.
  ghost predicate TakesStars(args: seq<Arg>, s: string, from: nat, to: nat, next: int, after: int) {
    && (Starred(s, from, to) ==> next >= 0)
    && Leads(next, StarReferences(s, from, to, next), after) && InRange(StarReferences(s, from, to, next), args)
  }

  lemma FlagsAndWidthLead(args: seq<Arg>, s: string, i: nat, spec: FormatSpec, number: Option<nat>, next: int)
    requires i <= |s|
    ensures var r := ReadFlagsAndWidth(args, s, i, spec, number, next);
            r.Ok? ==> r.value.number == number && TakesStars(args, s, i, r.value.i, next, r.value.next)
  {
    hide Scan, ReadFlags, Leads, InRange, GetArg;
    var f := ReadFlags(s, i, spec);
    FlagsEndFlag(s, i, spec);
    NothingLeads(args, next);
    if IsDigit(At(s, f.i)) {
      NumberEndsDigit(s, f.i);
    } else if At(s, f.i) == '*' {
      ArgLeads(args, s, f.i + 1, None, next);
    }
  }

  lemma NothingLeads(args: seq<Arg>, next: int)
    ensures Leads(next, [], next) && InRange([], args)
  {
  }

  lemma HeaderLeads(args: seq<Arg>, s: string, i: nat, next: int)
    requires i <= |s|
    ensures var r := ReadHeader(args, s, i, START, next);
            r.Ok? ==> TakesStars(args, s, i, r.value.i, next, r.value.next)
  {
    hide Scan, ReadFlagsAndWidth, TakesStars;
    if !IsDigit(At(s, i)) {
      FlagsAndWidthLead(args, s, i, START, None, next);
    } else {
      var scanned := Scan(s, i, 0);
      if scanned.Number? {
        var end, filled := scanned.next, if At(s, i) == '0' then START.(fill := '0') else START;
        NumberEndsDigit(s, i);
        if At(s, end) == '$' {
          FlagsAndWidthLead(args, s, end + 1, START, Some(scanned.value), next);
          BehindNoStar(args, s, i, end + 1, next);
        } else if scanned.value == 0 {
          FlagsAndWidthLead(args, s, end, filled, None, next);
          BehindNoStar(args, s, i, end, next);
        } else {
          NoStarLeads(args, s, i, end, next);
        }
      }
    }
  }

  lemma NoStarLeads(args: seq<Arg>, s: string, from: nat, to: nat, next: int)
    requires !Starred(s, from, to)
    ensures TakesStars(args, s, from, to, next, next)
  {
    NothingLeads(args, next);
  }

  // Other characters before a part that may end with a star make no difference.
  lemma BehindNoStar(args: seq<Arg>, s: string, from: nat, at: nat, next: int)
    requires from < at && !Starred(s, from, at)
    ensures forall to: nat, after :: at <= to && TakesStars(args, s, at, to, next, after) ==> TakesStars(args, s, from, to, next, after)
  {
    hide Leads, InRange;
  }

  lemma PrecisionLeads(args: seq<Arg>, s: string, i: nat, next: int)
    requires i <= |s|
    ensures var r := ReadPrecision(args, s, i, next);
            r.Ok? ==> TakesStars(args, s, i, r.value.i, next, r.value.next)
  {
    hide Scan, Leads, InRange, GetArg;
    NothingLeads(args, next);
    if At(s, i) == '.' {
      if IsDigit(At(s, i + 1)) {
        NumberEndsDigit(s, i + 1);
      } else if At(s, i + 1) == '*' {
        ArgLeads(args, s, i + 2, None, next);
      }
    }
  }

  lemma ConversionTakes(args: seq<Arg>, s: string, i: nat, next: int)
    requires i <= |s| && ReadConversion(args, s, i, next).Ok?
    ensures var header := ReadHeader(args, s, i, START, next);
            && header.Ok? && TakesStars(args, s, i, header.value.i, next, header.value.next)
            && var precision := ReadPrecision(args, s, header.value.i, header.value.next);
               && precision.Ok?
               && TakesStars(args, s, header.value.i, precision.value.i, header.value.next, precision.value.next)
               && (if header.value.number.Some? then header.value.number.value > 0 else precision.value.next >= 0)
               && var reference := ReferenceOf(header.value.number, precision.value.next);
                  && Leads(precision.value.next, [reference], ReadConversion(args, s, i, next).value.next)
                  && InRange([reference], args)
  {
    hide ReadHeader, ReadPrecision, GetArg, TakesStars, Leads, InRange, Adjusted, ConvertArg, Normalized, ReadLength;
    HeaderLeads(args, s, i, next);
    var header := ReadHeader(args, s, i, START, next).value;
    PrecisionLeads(args, s, header.i, header.next);
    var precision := ReadPrecision(args, s, header.i, header.next).value;
    ArgLeads(args, s, precision.i, header.number, precision.next);
  }

  // The references of a conversion: star width, star precision and the argument it is for.
  function ConversionReferences(args: seq<Arg>, s: string, i: nat, next: int): seq<Reference>
    requires i <= |s| && ReadConversion(args, s, i, next).Ok?
  {
    ConversionTakes(args, s, i, next);
    var header := ReadHeader(args, s, i, START, next).value;
    var precision := ReadPrecision(args, s, header.i, header.next).value;
    StarReferences(s, i, header.i, next) + StarReferences(s, header.i, precision.i, header.next)
    + [ReferenceOf(header.number, precision.next)]
  }

  lemma ConversionLeads(args: seq<Arg>, s: string, i: nat, next: int)
    requires i <= |s| && ReadConversion(args, s, i, next).Ok?
    ensures var references := ConversionReferences(args, s, i, next);
            Leads(next, references, ReadConversion(args, s, i, next).value.next) && InRange(references, args)
  {
    ConversionTakes(args, s, i, next);
    hide ReadHeader, ReadPrecision, ReadConversion, Leads, StarReferences, ReferenceOf, Starred;
    var header := ReadHeader(args, s, i, START, next).value;
    var precision := ReadPrecision(args, s, header.i, header.next).value;
    var wide, precise := StarReferences(s, i, header.i, next), StarReferences(s, header.i, precision.i, header.next);
    var reference := ReferenceOf(header.number, precision.next);
    LeadsFollows(next, wide, header.next);
    LeadsFollows(header.next, precise, precision.next);
    LeadsOn(next, wide, header.next, precise);
    LeadsFollows(precision.next, [reference], ReadConversion(args, s, i, next).value.next);
    LeadsOn(next, wide + precise, precision.next, [reference]);
  }

  lemma LeadsFollows(next: int, references: seq<Reference>, after: int)
    requires Leads(next, references, after)
    ensures Follows(references, next)
  {
  }

  // A part that is written down, between what comes before and behind it, ends with a star when it is one.
  lemma PartEnds(s: string, i: nat, before: string, part: string, rest: string)
    requires i <= |s| && s[i..] == before + (part + rest)
    ensures var to := i + |before| + |part|;
            Starred(s, i, to) <==> before + part != "" && (before + part)[|before + part| - 1] == '*'
  {
    assert s[i..] == (before + part) + rest;
    Move(s, i, before + part, rest);
    var whole := before + part;
    if whole != "" { assert At(s, i + (|whole| - 1)) == whole[|whole| - 1]; }
  }

  lemma AmountEnds(amount: Amount, before: string)
    requires before != "" ==> before[|before| - 1] != '*'
    ensures var whole := before + AmountText(amount); whole != "" && whole[|whole| - 1] == '*' <==> amount.FromArg?
  {
    hide InRadix;
    var text := AmountText(amount);
    if amount.Fixed? { DecimalDigits(amount.value, |text| - 1); }
    if text != "" {
      assert (before + text)[|before + text| - 1] == text[|text| - 1];
    } else {
      assert before + text == before;
    }
  }

  function StarText(amount: Amount, next: int): seq<Reference>
    requires amount.FromArg? ==> next >= 0
  {
    if amount.FromArg? then [BraceFormat.Automatic(next)] else []
  }

  lemma HeaderStarred(s: string, i: nat, shape: Shape, rest: string)
    requires i <= |s| && s[i..] == ConversionText(shape, rest) && Canonical(shape)
    ensures var end := i + |NumberText(shape.number)| + |shape.flags| + |AmountText(shape.width)|;
            Starred(s, i, end) <==> shape.width.FromArg?
  {
    hide NumberText, AmountText, PreciseText, Starred;
    var before := NumberText(shape.number) + shape.flags;
    assert s[i..] == before + (AmountText(shape.width) + PreciseText(shape, rest));
    PartEnds(s, i, before, AmountText(shape.width), PreciseText(shape, rest));
    NoStarBefore(shape);
    AmountEnds(shape.width, before);
  }

  lemma PrecisionStarred(s: string, i: nat, shape: Shape, rest: string)
    requires i <= |s| && s[i..] == PreciseText(shape, rest) && Canonical(shape)
    ensures Starred(s, i, i + |PointText(shape.point)|) <==> shape.point.Point? && shape.point.amount.FromArg?
  {
    hide AmountText, TypedText;
    if shape.point.Point? {
      var text := AmountText(shape.point.amount);
      assert s[i..] == "." + (text + TypedText(shape, rest));
      PartEnds(s, i, ".", text, TypedText(shape, rest));
      AmountEnds(shape.point.amount, ".");
    }
  }

  // For a conversion written down from its parts these are a reference for each star and the argument's.
  lemma WrittenReferences(args: seq<Arg>, s: string, i: nat, shape: Shape, next: int, rest: string)
    requires i <= |s| && s[i..] == ConversionText(shape, rest) && Canonical(shape) && ConversionMeant(args, shape, next).Some?
    ensures ReadConversion(args, s, i, next).Ok? && WidthMeant(args, shape, next).Some?
    ensures var after := WidthMeant(args, shape, next).value.1;
            && PrecisionMeant(args, shape, after).Some?
            && var at := PrecisionMeant(args, shape, after).value.1;
               var precise := if shape.point.Point? then shape.point.amount else Nothing;
               && (shape.width.FromArg? ==> next >= 0) && (precise.FromArg? ==> after >= 0)
               && (if shape.number.Some? then shape.number.value > 0 else at >= 0)
               && ConversionReferences(args, s, i, next) ==
                  StarText(shape.width, next) + StarText(precise, after) + [ReferenceOf(shape.number, at)]
  {
    hide ReadHeader, ReadPrecision, ReadConversion, GetArg, ArgumentOf, AmountMeant, WidthMeant, PrecisionMeant,
      ConversionMeant, Leads, InRange, SpecRead, ConversionText, PreciseText, TypedText, NumberText, AmountText, PointText,
      ReferenceOf, Starred, Canonical, TakesStars;
    MeantParts(args, shape, next);
    ConversionThere(args, s, i, shape, next, rest);
    ConversionTakes(args, s, i, next);
    HeaderThere(args, s, i, shape, next, rest);
    HeaderStarred(s, i, shape, rest);
    TakesWhat(args, s, i, next);
    var end := i + |NumberText(shape.number)| + |shape.flags| + |AmountText(shape.width)|;
    PrecisionThere(args, s, end, shape, WidthMeant(args, shape, next).value.1, rest);
    PrecisionStarred(s, end, shape, rest);
  }

  lemma MeantParts(args: seq<Arg>, shape: Shape, next: int)
    requires ConversionMeant(args, shape, next).Some?
    ensures WidthMeant(args, shape, next).Some? && PrecisionMeant(args, shape, WidthMeant(args, shape, next).value.1).Some?
  {
  }

  lemma TakesWhat(args: seq<Arg>, s: string, i: nat, next: int)
    requires i <= |s| && ReadConversion(args, s, i, next).Ok?
    ensures var header := ReadHeader(args, s, i, START, next);
            && header.Ok? && (Starred(s, i, header.value.i) ==> next >= 0)
            && var precision := ReadPrecision(args, s, header.value.i, header.value.next);
               && precision.Ok? && (Starred(s, header.value.i, precision.value.i) ==> header.value.next >= 0)
  {
    ConversionTakes(args, s, i, next);
    hide ReadHeader, ReadPrecision, ReadConversion, Leads, InRange, Starred;
  }

  lemma NoStarBefore(shape: Shape)
    requires Canonical(shape)
    ensures var before := NumberText(shape.number) + shape.flags; before != "" ==> before[|before| - 1] != '*'
  {
    hide InRadix;
    var number, before := NumberText(shape.number), NumberText(shape.number) + shape.flags;
    if shape.flags != "" {
      assert before[|before| - 1] == shape.flags[|shape.flags| - 1] && IsFlag(shape.flags[|shape.flags| - 1]);
    } else {
      assert before == number;
    }
  }

  // All references of a successful run, in the order in which the arguments are taken.
  function References(args: seq<Arg>, write: Renderer, s: string, i: nat, next: int): seq<Reference>
    requires i <= |s| && Render(args, write, s, i, next).Ok?
    decreases |s| - i
  {
    if At(s, i) == '\0' then []
    else if At(s, i) != '%' then References(args, write, s, i + 1, next)
    else if At(s, i + 1) == '%' then References(args, write, s, i + 2, next)
    else
      var conversion := ReadConversion(args, s, i + 1, next).value;
      ConversionReferences(args, s, i + 1, next) + References(args, write, s, conversion.i, conversion.next)
  }

  lemma {:induction false} RunLeads(args: seq<Arg>, write: Renderer, s: string, i: nat, next: int)
    requires i <= |s| && Render(args, write, s, i, next).Ok?
    ensures var used := References(args, write, s, i, next); Follows(used, next) && InRange(used, args)
    decreases |s| - i
  {
    hide ReadConversion, ConversionReferences, Leads, Follows;
    if At(s, i) == '\0' {
      NothingLeads(args, next);
      LeadsFollows(next, [], next);
    } else if At(s, i) != '%' {
      RunLeads(args, write, s, i + 1, next);
    } else if At(s, i + 1) == '%' {
      RunLeads(args, write, s, i + 2, next);
    } else {
      var conversion := ReadConversion(args, s, i + 1, next).value;
      ConversionLeads(args, s, i + 1, next);
      RunLeads(args, write, s, conversion.i, conversion.next);
      LeadsOn(next, ConversionReferences(args, s, i + 1, next), conversion.next,
              References(args, write, s, conversion.i, conversion.next));
    }
  }

  // The k-th argument taken in a successful run, star widths and precisions included, is argument k, or
  // every reference is a number; and all of them were passed.
  lemma AllAutomaticOrAllManual(args: seq<Arg>, write: Renderer, s: string)
    requires Render(args, write, s, 0, 0).Ok?
    ensures var used := References(args, write, s, 0, 0);
            && InRange(used, args)
            && ((forall k :: 0 <= k < |used| ==> used[k] == BraceFormat.Automatic(k))
                || (forall k :: 0 <= k < |used| ==> used[k].Manual?))
  {
    RunLeads(args, write, s, 0, 0);
    hide Render, References;
  }
}
