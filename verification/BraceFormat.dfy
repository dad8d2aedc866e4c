/** The brace formatter: literals, replacement fields, argument references and format specifiers. */
module BraceFormat {
  import opened MachineWords
  import opened NumberParser
  import opened IntegerField
  import opened FormatArgs

  // One use of an argument: the next one or the one a number names.
  datatype Reference = Automatic(index: nat) | Manual(index: nat)

  // What taking an argument gives: it, the position after its number, and the new index state.
  datatype Taken = Taken(arg: Arg, end: nat, next: int, reference: Reference)

  function ReferenceError(s: string, i: nat, message: string): Result<Taken> {
    Error(if At(s, i) != '}' && At(s, i) != ':' then "invalid format string" else message)
  }

  function TakeAt(args: seq<Arg>, s: string, i: nat, next: int, reference: Reference): Result<Taken> {
    if ArgAt(args, reference.index).kind.NONE? then ReferenceError(s, i, "argument index out of range")
    else Ok(Taken(ArgAt(args, reference.index), i, next, reference))
  }

  // An argument reference at position i; next is negative once a number has been used.
  function Take(args: seq<Arg>, s: string, i: nat, next: int): (r: Result<Taken>)
    requires i <= |s|
    ensures r.Ok? ==> i <= r.value.end <= |s|
  {
    if !IsDigit(At(s, i)) then
      if next >= 0 then TakeAt(args, s, i, next + 1, Automatic(next))
      else ReferenceError(s, i, "cannot switch from manual to automatic argument indexing")
    else
      match Scan(s, i, 0)
      case TooBig => Error("number is too big")
      case Number(index, end) =>
        if next <= 0 then TakeAt(args, s, end, -1, Manual(index))
        else ReferenceError(s, end, "cannot switch from automatic to manual argument indexing")
  }

  // A stage of reading a specifier: the position reached and what has been read.
  datatype Stage = Stage(i: nat, spec: FormatSpec)

  function RequireNumeric(arg: Arg, c: char): Result<()> {
    if IsNumeric(arg.kind) then Ok(())
    else Error("format specifier '" + [c] + "' requires numeric argument")
  }

  function CheckSign(arg: Arg, c: char): Result<()> {
    var _ :- RequireNumeric(arg, c);
    if IsUnsigned(arg.kind) then Error("format specifier '" + [c] + "' requires signed argument") else Ok(())
  }

  function AlignmentOf(c: char): Alignment {
    match c
    case '<' => ALIGN_LEFT
    case '>' => ALIGN_RIGHT
    case '=' => ALIGN_NUMERIC
    case '^' => ALIGN_CENTER
    case _ => ALIGN_DEFAULT
  }

  // An alignment character, perhaps after a fill character. One that follows the closing brace is
  // looked at too: it sets the alignment without being part of the field.
  function ReadAlignment(s: string, i: nat, arg: Arg, spec: FormatSpec): (r: Result<Stage>)
    requires i <= |s|
    ensures r.Ok? ==> i <= r.value.i <= |s|
  {
    var c := At(s, i);
    var second, first := AlignmentOf(At(s, i + 1)), AlignmentOf(c);
    if c == '\0' then Ok(Stage(i, spec))
    else if second != ALIGN_DEFAULT then
      if c == '}' then Ok(Stage(i, spec.(align := second)))
      else if c == '{' then Error("invalid fill character '{'")
      else
        var _ :- if second == ALIGN_NUMERIC then RequireNumeric(arg, '=') else Ok(());
        Ok(Stage(i + 2, spec.(align := second, fill := c)))
    else if first != ALIGN_DEFAULT then
      var _ :- if first == ALIGN_NUMERIC then RequireNumeric(arg, '=') else Ok(());
      Ok(Stage(i + 1, spec.(align := first)))
    else Ok(Stage(i, spec))
  }

  function ReadSign(s: string, i: nat, arg: Arg, spec: FormatSpec): (r: Result<Stage>)
    requires i <= |s|
    ensures r.Ok? ==> i <= r.value.i <= |s|
  {
    var c := At(s, i);
    if c == '+' || c == '-' || c == ' ' then
      var _ :- CheckSign(arg, c);
      Ok(Stage(i + 1, if c == '-' then spec.(minus := true) else spec.(sign := true, plus := c == '+')))
    else Ok(Stage(i, spec))
  }

  function ReadHash(s: string, i: nat, arg: Arg, spec: FormatSpec): (r: Result<Stage>)
    requires i <= |s|
    ensures r.Ok? ==> i <= r.value.i <= |s|
  {
    if At(s, i) == '#' then
      var _ :- RequireNumeric(arg, '#');
      Ok(Stage(i + 1, spec.(hash := true)))
    else Ok(Stage(i, spec))
  }

  // A width; one that starts with zero also asks for zeros after the sign.
  function ReadWidth(s: string, i: nat, arg: Arg, spec: FormatSpec): (r: Result<Stage>)
    requires i <= |s|
    ensures r.Ok? ==> i <= r.value.i <= |s|
  {
    if !IsDigit(At(s, i)) then Ok(Stage(i, spec))
    else
      var zero := At(s, i) == '0';
      var _ :- if zero then RequireNumeric(arg, '0') else Ok(());
      match Scan(s, i, 0)
      case TooBig => Error("number is too big")
      case Number(width, end) =>
        Ok(Stage(end, if zero then spec.(align := ALIGN_NUMERIC, fill := '0', width := width)
                      else spec.(width := width)))
  }

  // A precision read: its value, the position after it, and the argument it took if any.
  datatype Precision = Precision(i: nat, value: int, next: int, references: seq<Reference>)

  function PrecisionOf(arg: Arg): Result<nat> {
    if arg.kind.INT? || arg.kind.UINT? || arg.kind.LONG_LONG? || arg.kind.ULONG_LONG? then
      if arg.number < 0 then Error("negative precision")
      else if arg.number > INT_MAX then Error("number is too big")
      else Ok(arg.number)
    else Error("precision is not integer")
  }

  function ReadPrecision(args: seq<Arg>, s: string, i: nat, arg: Arg, next: int): (r: Result<Precision>)
    requires i <= |s|
    ensures r.Ok? ==> i <= r.value.i <= |s|
  {
    if At(s, i) != '.' then Ok(Precision(i, -1, next, []))
    else
      var p :- ReadPrecisionValue(args, s, i + 1, next);
      if arg.kind.DOUBLE? || arg.kind.LONG_DOUBLE? then Ok(p)
      else Error("precision specifier requires floating-point argument")
  }

  function ReadPrecisionValue(args: seq<Arg>, s: string, i: nat, next: int): (r: Result<Precision>)
    requires i <= |s|
    ensures r.Ok? ==> i <= r.value.i <= |s|
  {
    if IsDigit(At(s, i)) then
      match Scan(s, i, 0)
      case TooBig => Error("number is too big")
      case Number(value, end) => Ok(Precision(end, value, next, []))
    else if At(s, i) == '{' then
      var taken :- Take(args, s, i + 1, next);
      if At(s, taken.end) != '}' then Error("invalid format string")
      else
        var value :- PrecisionOf(taken.arg);
        Ok(Precision(taken.end + 1, value, taken.next, [taken.reference]))
    else Error("missing precision specifier")
  }

  function ReadFlags(s: string, i: nat, arg: Arg): (r: Result<Stage>)
    requires i <= |s|
    ensures r.Ok? ==> i <= r.value.i <= |s|
  {
    var a :- ReadAlignment(s, i, arg, DEFAULT_SPEC);
    ReadAfterAlignment(s, a.i, arg, a.spec)
  }

  function ReadAfterAlignment(s: string, i: nat, arg: Arg, spec: FormatSpec): (r: Result<Stage>)
    requires i <= |s|
    ensures r.Ok? ==> i <= r.value.i <= |s|
  {
    var b :- ReadSign(s, i, arg, spec);
    var c :- ReadHash(s, b.i, arg, b.spec);
    ReadWidth(s, c.i, arg, c.spec)
  }

  // A whole specifier, from after the colon to its closing brace or the end of the string.
  datatype Specifier = Specifier(i: nat, spec: FormatSpec, next: int, references: seq<Reference>)

  function ReadSpecifier(args: seq<Arg>, s: string, i: nat, arg: Arg, next: int): (r: Result<Specifier>)
    requires i <= |s|
    ensures r.Ok? ==> i <= r.value.i <= |s|
  {
    var d :- ReadFlags(s, i, arg);
    var p :- ReadPrecision(args, s, d.i, arg, next);
    var typed := At(s, p.i) != '}' && At(s, p.i) != '\0';
    Ok(Specifier(if typed then p.i + 1 else p.i,
                 d.spec.(precision := p.value, typeCode := if typed then At(s, p.i) else d.spec.typeCode),
                 p.next, p.references))
  }

  // The rest of a field after its argument reference, up to and including the closing brace.
  function ReadField(args: seq<Arg>, s: string, i: nat, arg: Arg, next: int): (r: Result<Specifier>)
    requires i <= |s|
    ensures r.Ok? ==> i < r.value.i <= |s|
  {
    var f: Specifier :- if At(s, i) == ':' then ReadSpecifier(args, s, i + 1, arg, next)
             else Ok(Specifier(i, DEFAULT_SPEC, next, []));
    if At(s, f.i) != '}' then Error("missing '}' in format string")
    else Ok(f.(i := f.i + 1))
  }

  // A replacement field after its opening brace: the text it becomes, and where it ends.
  datatype Replaced = Replaced(text: string, i: nat, next: int, references: seq<Reference>)

  function Replace(args: seq<Arg>, render: Renderer, s: string, i: nat, next: int): (r: Result<Replaced>)
    requires i <= |s|
    ensures r.Ok? ==> i < r.value.i <= |s|
  {
    var taken :- Take(args, s, i, next);
    var field :- ReadField(args, s, taken.end, taken.arg, taken.next);
    var text :- render(field.spec, taken.arg);
    Ok(Replaced(text, field.i, field.next, [taken.reference] + field.references))
  }

  // What a whole run gives: the text and the uses of arguments, in order.
  datatype Rendered = Rendered(text: string, references: seq<Reference>)

  function Prepend(text: string, references: seq<Reference>, r: Result<Rendered>): Result<Rendered> {
    match r
    case Ok(rest) => Ok(Rendered(text + rest.text, references + rest.references))
    case Error(_) => r
  }

  // The meaning of a format string from position i on, one character or field at a time.
  function Render(args: seq<Arg>, render: Renderer, s: string, i: nat, next: int): Result<Rendered>
    requires i <= |s|
    decreases |s| - i
  {
    var c := At(s, i);
    if c == '\0' then Ok(Rendered("", []))
    else if c != '{' && c != '}' then Prepend([c], [], Render(args, render, s, i + 1, next))
    else if At(s, i + 1) == c then Prepend([c], [], Render(args, render, s, i + 2, next))
    else if c == '}' then Error("unmatched '}' in format string")
    else
      var field :- Replace(args, render, s, i + 1, next);
      Prepend(field.text, field.references, Render(args, render, s, field.i, field.next))
  }

  lemma PrependTwice(t0: string, r0: seq<Reference>, t1: string, r1: seq<Reference>, r: Result<Rendered>)
    ensures Prepend(t0, r0, Prepend(t1, r1, r)) == Prepend(t0 + t1, r0 + r1, r)
  {
    if r.Ok? {
      assert t0 + (t1 + r.value.text) == t0 + t1 + r.value.text;
      assert r0 + (r1 + r.value.references) == r0 + r1 + r.value.references;
    }
  }

  // The loop's steps, as they move a character or a field from what is left to what is done.
  lemma AtTheStart(r: Result<Rendered>)
    ensures Prepend("", [], r) == r
  {
    if r.Ok? {
      assert "" + r.value.text == r.value.text;
      assert [] + r.value.references == r.value.references;
    }
  }

  lemma CopyCharacter(args: seq<Arg>, render: Renderer, s: string, i: nat, next: int,
                      done: string, used: seq<Reference>, after: nat)
    requires i < |s| && s[i] != '\0'
    requires if s[i] == '{' || s[i] == '}' then At(s, i + 1) == s[i] && after == i + 2 else after == i + 1
    ensures Prepend(done, used, Render(args, render, s, i, next)) ==
            Prepend(done + [s[i]], used, Render(args, render, s, after, next))
  {
    PrependTwice(done, used, [s[i]], [], Render(args, render, s, after, next));
    assert used + [] == used;
  }

  lemma CopyField(args: seq<Arg>, render: Renderer, s: string, i: nat, next: int,
                  done: string, used: seq<Reference>)
    requires i < |s| && s[i] == '{' && At(s, i + 1) != '{'
    ensures var field := Replace(args, render, s, i + 1, next);
            && (field.Error? ==> Prepend(done, used, Render(args, render, s, i, next)) == Error(field.message))
            && (field.Ok? ==> Prepend(done, used, Render(args, render, s, i, next)) ==
                              Prepend(done + field.value.text, used + field.value.references,
                                      Render(args, render, s, field.value.i, field.value.next)))
  {
    hide Replace;
    var field := Replace(args, render, s, i + 1, next);
    if field.Ok? {
      PrependTwice(done, used, field.value.text, field.value.references,
                   Render(args, render, s, field.value.i, field.value.next));
    }
  }

  lemma AtTheEnd(args: seq<Arg>, render: Renderer, s: string, i: nat, next: int,
                 done: string, used: seq<Reference>)
    requires i <= |s| && At(s, i) == '\0'
    ensures Prepend(done, used, Render(args, render, s, i, next)) == Ok(Rendered(done, used))
  {
    assert done + "" == done;
    assert used + [] == used;
  }

  lemma Unmatched(args: seq<Arg>, render: Renderer, s: string, i: nat, next: int,
                  done: string, used: seq<Reference>)
    requires i < |s| && s[i] == '}' && At(s, i + 1) != '}'
    ensures Prepend(done, used, Render(args, render, s, i, next)) == Error("unmatched '}' in format string")
  {
  }

  class BasicFormatter {
    var args: seq<Arg>
    var nextArgIndex: int
    var start: nat
    var output: string
    const render: Renderer
    ghost var references: seq<Reference>

    constructor (render: Renderer)
      ensures output == "" && this.render == render
    {
      args, nextArgIndex, start, output, references := [], 0, 0, "", [];
      this.render := render;
    }

    method DoGetArg(index: nat) returns (arg: Arg, error: string)
      ensures arg == ArgAt(args, index)
      ensures error == if arg.kind.NONE? then "argument index out of range" else ""
    {
      arg, error := ArgAt(args, index), "";
      if arg.kind.NONE? { error := "argument index out of range"; }
    }

    method NextArg() returns (arg: Arg, error: string)
      modifies this`nextArgIndex
      ensures nextArgIndex == if old(nextArgIndex) >= 0 then old(nextArgIndex) + 1 else old(nextArgIndex)
      ensures old(nextArgIndex) >= 0 ==> arg == ArgAt(args, old(nextArgIndex))
      ensures old(nextArgIndex) >= 0 ==> (error == "" <==> !arg.kind.NONE?)
      ensures error != "" ==> error == if old(nextArgIndex) >= 0 then "argument index out of range"
                                       else "cannot switch from manual to automatic argument indexing"
      ensures old(nextArgIndex) < 0 ==> error != ""
    {
      if nextArgIndex >= 0 {
        nextArgIndex := nextArgIndex + 1;
        arg, error := DoGetArg(nextArgIndex - 1);
      } else {
        arg, error := NO_ARG, "cannot switch from manual to automatic argument indexing";
      }
    }

    method GetArg(index: nat) returns (arg: Arg, error: string)
      modifies this`nextArgIndex
      ensures nextArgIndex == if old(nextArgIndex) <= 0 then -1 else old(nextArgIndex)
      ensures old(nextArgIndex) <= 0 ==> arg == ArgAt(args, index)
      ensures old(nextArgIndex) <= 0 ==> (error == "" <==> !arg.kind.NONE?)
      ensures error != "" ==> error == if old(nextArgIndex) <= 0 then "argument index out of range"
                                       else "cannot switch from automatic to manual argument indexing"
      ensures old(nextArgIndex) > 0 ==> error != ""
    {
      if nextArgIndex <= 0 {
        nextArgIndex := -1;
        arg, error := DoGetArg(index);
      } else {
        arg, error := NO_ARG, "cannot switch from automatic to manual argument indexing";
      }
    }

    method ParseArgIndex(s: string, i: nat) returns (r: Result<Arg>, end: nat)
      requires i <= |s|
      modifies this`nextArgIndex, this`references
      ensures var t := Take(args, s, i, old(nextArgIndex));
              && (r.Error? ==> t == Error(r.message))
              && (r.Ok? ==> (t.Ok? && t.value.arg == r.value && t.value.end == end && t.value.next == nextArgIndex
                         && references == old(references) + [t.value.reference]))
    {
      var arg, error;
      end := i;
      ghost var reference;
      if !IsDigit(At(s, i)) {
        reference := Automatic(if nextArgIndex >= 0 then nextArgIndex else 0);
        arg, error := NextArg();
      } else {
        var parsed := ParseNonnegativeInt(s, i);
        if parsed.TooBig? { return Error("number is too big"), end; }
        reference := Manual(parsed.value);
        end := parsed.next;
        arg, error := GetArg(parsed.value);
      }
      if error != "" {
        return Error(if At(s, end) != '}' && At(s, end) != ':' then "invalid format string" else error), end;
      }
      references := references + [reference];
      r := Ok(arg);
    }

    // A fill character and an alignment, looking at the second character before the first.
    static method ParseAlignment(s: string, i: nat, arg: Arg, spec: FormatSpec) returns (r: Result<Stage>)
      requires i <= |s| && spec.align == ALIGN_DEFAULT
      ensures r == ReadAlignment(s, i, arg, spec)
    {
      var c := At(s, i);
      if c == '\0' { return Ok(Stage(i, spec)); }
      var p := i + 1;
      while true
        invariant p == i + 1 || (p == i && AlignmentOf(At(s, i + 1)) == ALIGN_DEFAULT)
        decreases p
      {
        var align := AlignmentOf(At(s, p));
        if align != ALIGN_DEFAULT {
          var end, fill := i, spec.fill;
          if p != i {
            if c == '}' { return Ok(Stage(i, spec.(align := align))); }
            if c == '{' { return Error("invalid fill character '{'"); }
            end := i + 2;
            fill := c;
          } else {
            end := i + 1;
          }
          if align == ALIGN_NUMERIC {
            var _ :- RequireNumeric(arg, '=');
          }
          return Ok(Stage(end, spec.(align := align, fill := fill)));
        }
        if p == i { break; }
        p := p - 1;
      }
      r := Ok(Stage(i, spec));
    }

    static method ParseWidth(s: string, i: nat, arg: Arg, spec: FormatSpec) returns (r: Result<Stage>)
      requires i <= |s|
      ensures r == ReadWidth(s, i, arg, spec)
    {
      var read := spec;
      if !IsDigit(At(s, i)) { return Ok(Stage(i, spec)); }
      if At(s, i) == '0' {
        var _ :- RequireNumeric(arg, '0');
        read := read.(align := ALIGN_NUMERIC, fill := '0');
      }
      var parsed := ParseNonnegativeInt(s, i);
      if parsed.TooBig? { return Error("number is too big"); }
      r := Ok(Stage(parsed.next, read.(width := parsed.value)));
    }

    method ParsePrecision(s: string, start: nat, arg: Arg) returns (r: Result<int>, i: nat)
      requires start <= |s|
      modifies this`nextArgIndex, this`references
      ensures var p := ReadPrecision(args, s, start, arg, old(nextArgIndex));
              && (r.Error? ==> p == Error(r.message))
              && (r.Ok? ==> (p.Ok? && p.value.value == r.value && p.value.i == i && p.value.next == nextArgIndex
                         && references == old(references) + p.value.references))
    {
      i := start;
      var precision: int := -1;
      if At(s, i) == '.' {
        i := i + 1;
        if IsDigit(At(s, i)) {
          var parsed := ParseNonnegativeInt(s, i);
          if parsed.TooBig? { return Error("number is too big"), i; }
          precision, i := parsed.value, parsed.next;
        } else if At(s, i) == '{' {
          var taken, end := ParseArgIndex(s, i + 1);
          if taken.Error? { return Error(taken.message), i; }
          if At(s, end) != '}' { return Error("invalid format string"), i; }
          i := end + 1;
          var value := PrecisionOf(taken.value);
          if value.Error? { return Error(value.message), i; }
          precision := value.value;
        } else {
          return Error("missing precision specifier"), i;
        }
        if !arg.kind.DOUBLE? && !arg.kind.LONG_DOUBLE? {
          return Error("precision specifier requires floating-point argument"), i;
        }
      }
      r := Ok(precision);
    }

    static method ParseFlags(s: string, i: nat, arg: Arg) returns (r: Result<Stage>)
      requires i <= |s|
      ensures r == ReadFlags(s, i, arg)
    {
      hide ReadAlignment, ReadSign, ReadHash, ReadWidth;
      var aligned :- ParseAlignment(s, i, arg, DEFAULT_SPEC);
      var signed :- ReadSign(s, aligned.i, arg, aligned.spec);
      var hashed :- ReadHash(s, signed.i, arg, signed.spec);
      r := ParseWidth(s, hashed.i, arg, hashed.spec);
    }

    method ParseSpecifier(s: string, start: nat, arg: Arg) returns (r: Result<FormatSpec>, i: nat)
      requires start <= |s|
      modifies this`nextArgIndex, this`references
      ensures var f := ReadSpecifier(args, s, start, arg, old(nextArgIndex));
              && (r.Error? ==> f == Error(r.message))
              && (r.Ok? ==> (f.Ok? && f.value.spec == r.value && f.value.i == i && f.value.next == nextArgIndex
                         && references == old(references) + f.value.references))
    {
      hide ReadFlags, ReadPrecision;
      i := start;
      var flags := ParseFlags(s, i, arg);
      if flags.Error? { return Error(flags.message), i; }
      var precision, end := ParsePrecision(s, flags.value.i, arg);
      if precision.Error? { return Error(precision.message), i; }
      var spec := flags.value.spec.(precision := precision.value);
      i := end;
      if At(s, i) != '}' && At(s, i) != '\0' {
        spec := spec.(typeCode := s[i]);
        i := i + 1;
      }
      r := Ok(spec);
    }

    // Reads one field after its argument reference and writes the argument.
    method FormatField(s: string, i: nat, arg: Arg) returns (r: Result<nat>)
      requires i <= |s|
      modifies this`nextArgIndex, this`references, this`start, this`output
      ensures var f := ReadField(args, s, i, arg, old(nextArgIndex));
              && (f.Error? ==> r == Error(f.message))
              && (f.Ok? ==> var text := render(f.value.spec, arg);
                  && (text.Error? ==> r == Error(text.message))
                  && (text.Ok? ==> (r == Ok(f.value.i) && start == f.value.i && output == old(output) + text.value
                                && nextArgIndex == f.value.next && references == old(references) + f.value.references)))
      ensures r.Error? ==> output == old(output)
    {
      hide ReadSpecifier;
      var end, spec := i, DEFAULT_SPEC;
      if At(s, i) == ':' {
        var read, after := ParseSpecifier(s, i + 1, arg);
        if read.Error? { return Error(read.message); }
        end, spec := after, read.value;
      }
      if At(s, end) != '}' { return Error("missing '}' in format string"); }
      start := end + 1;
      var text :- render(spec, arg);
      output := output + text;
      r := Ok(start);
    }

    // A replacement field after its opening brace.
    method ReplaceField(s: string, i: nat) returns (r: Result<nat>)
      requires i <= |s|
      modifies this`nextArgIndex, this`references, this`start, this`output
      ensures var f := Replace(args, render, s, i, old(nextArgIndex));
              && (f.Error? ==> r == Error(f.message) && output == old(output))
              && (f.Ok? ==> (r == Ok(f.value.i) && start == f.value.i && output == old(output) + f.value.text
                         && nextArgIndex == f.value.next && references == old(references) + f.value.references))
    {
      hide Take, ReadField;
      var taken, end := ParseArgIndex(s, i);
      if taken.Error? { return Error(taken.message); }
      ghost var used := references;
      r := FormatField(s, end, taken.value);
      if r.Ok? {
        var f := ReadField(args, s, end, taken.value, Take(args, s, i, old(nextArgIndex)).value.next);
        assert used + f.value.references == old(references) + Replace(args, render, s, i, old(nextArgIndex)).value.references;
      }
    }

    // The output of a run is what the string means; the loop itself copies whole literals at once.
    method Format(s: string, args: seq<Arg>) returns (r: Result<()>)
      modifies this
      ensures var meaning := Render(args, render, s, 0, 0);
              && (meaning.Error? ==> r == Error(meaning.message))
              && (meaning.Ok? ==> (r.Ok? && output == old(output) + meaning.value.text
                               && references == meaning.value.references))
      ensures old(output) <= output
    {
      hide Replace, Prepend, Render;
      var i := 0;
      start, this.args, nextArgIndex := 0, args, 0;
      references := [];
      ghost var before, written := output, "";
      ghost var meaning := Render(args, render, s, 0, 0);
      AtTheStart(meaning);
      assert written + s[start..i] == "";
      while At(s, i) != '\0'
        invariant start <= i <= |s| && this.args == args && output == before + written
        invariant Prepend(written + s[start..i], references, Render(args, render, s, i, nextArgIndex)) == meaning
        decreases |s| - i
      {
        var c := s[i];
        ghost var pending := written + s[start..i];
        i := i + 1;
        assert written + s[start..i] == pending + [c];
        if c != '{' && c != '}' {
          CopyCharacter(args, render, s, i - 1, nextArgIndex, pending, references, i);
          continue;
        }
        if At(s, i) == c {
          CopyCharacter(args, render, s, i - 1, nextArgIndex, pending, references, i + 1);
          output := output + s[start..i];
          written := written + s[start..i];
          assert output == before + written;
          i := i + 1;
          start := i;
          assert written + s[start..i] == written;
          continue;
        }
        if c == '}' {
          Unmatched(args, render, s, i - 1, nextArgIndex, pending, references);
          return Error("unmatched '}' in format string");
        }
        output := output + s[start..i - 1];
        written := pending;
        assert output == before + written;
        ghost var field := Replace(args, render, s, i, nextArgIndex);
        CopyField(args, render, s, i - 1, nextArgIndex, pending, references);
        var after := ReplaceField(s, i);
        if after.Error? { return Error(after.message); }
        i := after.value;
        assert before + written + field.value.text == before + (written + field.value.text);
        written := written + field.value.text;
        assert written + s[start..i] == written;
      }
      AtTheEnd(args, render, s, i, nextArgIndex, written + s[start..i], references);
      output := output + s[start..i];
      r := Ok(());
    }
  }
}
