/** The printf formatter: literals, doubled percent signs, and conversions with their arguments. */
module PrintfFormat {
  import opened MachineWords
  import opened NumberParser
  import opened IntegerField
  import opened Collections
  import opened FormatArgs

  const INT_MIN: int := -0x8000_0000

  // Reading argument number k, counted from one, or the next one; the state is negative once an
  // argument has been named by number.  Number zero wraps around to an index no list has.
  datatype Taken = Taken(arg: Arg, next: int)

  function GetArg(args: seq<Arg>, s: string, i: nat, number: Option<nat>, next: int): Result<Taken> {
    if number.None? then
      if next < 0 then GetArgError(s, i, "cannot switch from manual to automatic argument indexing")
      else if ArgAt(args, next).kind.NONE? then GetArgError(s, i, "argument index out of range")
      else Ok(Taken(ArgAt(args, next), next + 1))
    else if next > 0 then GetArgError(s, i, "cannot switch from automatic to manual argument indexing")
    else if number.value == 0 || ArgAt(args, number.value - 1).kind.NONE? then
      GetArgError(s, i, "argument index out of range")
    else Ok(Taken(ArgAt(args, number.value - 1), -1))
  }

  function GetArgError(s: string, i: nat, message: string): Result<Taken> {
    Error(if At(s, i) == '\0' then "invalid format string" else message)
  }

  predicate IsFlag(c: char) {
    c == '-' || c == '+' || c == '0' || c == ' ' || c == '#'
  }

  function WithFlag(spec: FormatSpec, c: char): FormatSpec {
    if c == '-' then spec.(align := ALIGN_LEFT)
    else if c == '+' then spec.(sign := true, plus := true)
    else if c == '0' then spec.(fill := '0')
    else if c == ' ' then spec.(sign := true)
    else spec.(hash := true)
  }

  // A stage of reading a conversion: the position reached and what has been read.
  datatype Stage = Stage(i: nat, spec: FormatSpec)

  function ReadFlags(s: string, i: nat, spec: FormatSpec): (r: Stage)
    requires i <= |s|
    ensures i <= r.i <= |s| && !IsFlag(At(s, r.i))
    decreases |s| - i
  {
    if IsFlag(At(s, i)) then ReadFlags(s, i + 1, WithFlag(spec, s[i])) else Stage(i, spec)
  }

  predicate IsAnyInteger(kind: Kind) {
    1 <= Code(kind) <= 5
  }

  // A width taken from an argument: a negative one aligns to the left.
  function StarWidth(arg: Arg, spec: FormatSpec): Result<FormatSpec> {
    if !IsAnyInteger(arg.kind) then Error("width is not integer")
    else
      var width := if arg.number < 0 then -arg.number else arg.number;
      if width > INT_MAX then Error("number is too big")
      else Ok(spec.(width := width, align := if arg.number < 0 then ALIGN_LEFT else spec.align))
  }

  // A precision taken from an argument; a negative one is like none.
  function StarPrecision(arg: Arg): Result<int> {
    if !IsAnyInteger(arg.kind) then Error("precision is not integer")
    else if !(INT_MIN <= arg.number <= INT_MAX) then Error("number is too big")
    else Ok(arg.number)
  }

  // What stands before the precision: the number of the argument, flags and width.
  datatype Header = Header(i: nat, spec: FormatSpec, number: Option<nat>, next: int)

  function ReadFlagsAndWidth(args: seq<Arg>, s: string, i: nat, spec: FormatSpec, number: Option<nat>, next: int):
      (r: Result<Header>)
    requires i <= |s|
    ensures r.Ok? ==> i <= r.value.i <= |s|
  {
    var f := ReadFlags(s, i, spec);
    if IsDigit(At(s, f.i)) then
      match Scan(s, f.i, 0)
      case TooBig => Error("number is too big")
      case Number(width, end) => Ok(Header(end, f.spec.(width := width), number, next))
    else if At(s, f.i) == '*' then
      var taken :- GetArg(args, s, f.i + 1, None, next);
      var wide :- StarWidth(taken.arg, f.spec);
      Ok(Header(f.i + 1, wide, number, taken.next))
    else Ok(Header(f.i, f.spec, number, next))
  }

  function ReadHeader(args: seq<Arg>, s: string, i: nat, spec: FormatSpec, next: int): (r: Result<Header>)
    requires i <= |s|
    ensures r.Ok? ==> i <= r.value.i <= |s|
  {
    if !IsDigit(At(s, i)) then ReadFlagsAndWidth(args, s, i, spec, None, next)
    else
      match Scan(s, i, 0)
      case TooBig => Error("number is too big")
      case Number(value, end) =>
        var filled := if At(s, i) == '0' then spec.(fill := '0') else spec;
        if At(s, end) == '$' then ReadFlagsAndWidth(args, s, end + 1, spec, Some(value), next)
        else if value != 0 then Ok(Header(end, filled.(width := value), None, next))
        else ReadFlagsAndWidth(args, s, end, filled, None, next)
  }

  datatype Precision = Precision(i: nat, value: int, next: int)

  function ReadPrecision(args: seq<Arg>, s: string, i: nat, next: int): (r: Result<Precision>)
    requires i <= |s|
    ensures r.Ok? ==> i <= r.value.i <= |s|
  {
    if At(s, i) != '.' then Ok(Precision(i, -1, next))
    else if IsDigit(At(s, i + 1)) then
      match Scan(s, i + 1, 0)
      case TooBig => Error("number is too big")
      case Number(value, end) => Ok(Precision(end, value, next))
    else if At(s, i + 1) == '*' then
      var taken :- GetArg(args, s, i + 2, None, next);
      var value :- StarPrecision(taken.arg);
      Ok(Precision(i + 2, value, taken.next))
    else Ok(Precision(i + 1, -1, next))
  }

  // The specifier as the argument's type and value change it.
  function Adjusted(spec: FormatSpec, arg: Arg): FormatSpec {
    var hashed := if IsAnyInteger(arg.kind) && arg.number == 0 then spec.(hash := false) else spec;
    if spec.fill != '0' then hashed
    else if IsNumeric(arg.kind) then hashed.(align := ALIGN_NUMERIC)
    else hashed.(fill := ' ')
  }

  datatype Length = NO_LENGTH | HH | H | LONG | LONG2 | INTMAX | SIZE | PTRDIFF | LONGDOUBLE

  function ReadLength(s: string, i: nat): (r: (Length, nat))
    requires i <= |s|
    ensures i <= r.1 <= |s|
  {
    match At(s, i)
    case 'h' => if At(s, i + 1) == 'h' then (HH, i + 2) else (H, i + 1)
    case 'l' => if At(s, i + 1) == 'l' then (LONG2, i + 2) else (LONG, i + 1)
    case 'j' => (INTMAX, i + 1)
    case 'z' => (SIZE, i + 1)
    case 't' => (PTRDIFF, i + 1)
    case 'L' => (LONGDOUBLE, i + 1)
    case _ => (NO_LENGTH, i)
  }

  // Two's complement values of a word.
  function ToUnsigned(n: int, modulus: nat): nat
    requires modulus > 0
  {
    n % modulus
  }

  function ToSigned(n: int, modulus: nat): int
    requires modulus > 0
  {
    if n % modulus >= modulus / 2 then n % modulus - modulus else n % modulus
  }

  const TWO64: nat := 0x1_0000_0000_0000_0000

  // Values of the type an argument is passed in, as unsigned words of that type.
  function OwnModulus(kind: Kind): nat {
    if kind.LONG_LONG? || kind.ULONG_LONG? then TWO64 else TWO32
  }

  // An integer converted to the type its length asks for, on a machine with 64-bit longs.  Towards a
  // 64-bit type it goes through the unsigned type of its own width.
  function ConvertArg(arg: Arg, length: Length, typeCode: char): Arg {
    var isSigned := typeCode == 'd' || typeCode == 'i';
    if !IsAnyInteger(arg.kind) || length.LONGDOUBLE? then arg
    else if length.HH? || length.H? || length.NO_LENGTH? then
      var modulus := if length.HH? then 0x100 else if length.H? then 0x1_0000 else TWO32;
      if isSigned then Arg(INT, ToSigned(arg.number, modulus), arg.text)
      else Arg(UINT, ToUnsigned(arg.number, modulus), arg.text)
    else
      var word := ToUnsigned(arg.number, OwnModulus(arg.kind));
      if isSigned then Arg(LONG_LONG, ToSigned(word, TWO64), arg.text) else Arg(ULONG_LONG, word, arg.text)
  }

  // The type letter and, for 'c', the character.
  function Normalized(typeCode: char, arg: Arg): (char, Arg) {
    if !IsAnyInteger(arg.kind) then (typeCode, arg)
    else if typeCode == 'i' || typeCode == 'u' then ('d', arg)
    else if typeCode == 'c' then ('c', Arg(CHAR, ToSigned(arg.number, 0x100), arg.text))
    else (typeCode, arg)
  }

  // A whole conversion after its percent sign: what is written with which specifier, the position
  // after it and the index state.
  datatype Conversion = Conversion(spec: FormatSpec, arg: Arg, i: nat, next: int)

  const START: FormatSpec := DEFAULT_SPEC.(align := ALIGN_RIGHT)

  function ReadConversion(args: seq<Arg>, s: string, i: nat, next: int): (r: Result<Conversion>)
    requires i <= |s|
    ensures r.Ok? ==> i < r.value.i <= |s|
  {
    var header :- ReadHeader(args, s, i, START, next);
    var precision :- ReadPrecision(args, s, header.i, header.next);
    var taken :- GetArg(args, s, precision.i, header.number, precision.next);
    var spec := Adjusted(header.spec.(precision := precision.value), taken.arg);
    ReadType(s, precision.i, spec, taken)
  }

  function ReadType(s: string, i: nat, spec: FormatSpec, taken: Taken): (r: Result<Conversion>)
    requires i <= |s|
    ensures r.Ok? ==> i < r.value.i <= |s|
  {
    var (length, end) := ReadLength(s, i);
    if At(s, end) == '\0' then Error("invalid format string")
    else
      var (typeCode, arg) := Normalized(s[end], ConvertArg(taken.arg, length, s[end]));
      Ok(Conversion(spec.(typeCode := typeCode), arg, end + 1, taken.next))
  }

  function Prepend(text: string, r: Result<string>): Result<string> {
    match r
    case Ok(rest) => Ok(text + rest)
    case Error(_) => r
  }

  // The meaning of a format string from position i on, one character or conversion at a time.
  function Render(args: seq<Arg>, write: Renderer, s: string, i: nat, next: int): Result<string>
    requires i <= |s|
    decreases |s| - i
  {
    var c := At(s, i);
    if c == '\0' then Ok("")
    else if c != '%' then Prepend([c], Render(args, write, s, i + 1, next))
    else if At(s, i + 1) == '%' then Prepend("%", Render(args, write, s, i + 2, next))
    else
      var conversion :- ReadConversion(args, s, i + 1, next);
      var text :- write(conversion.spec, conversion.arg);
      Prepend(text, Render(args, write, s, conversion.i, conversion.next))
  }

  lemma PrependTwice(t: string, u: string, r: Result<string>)
    ensures Prepend(t, Prepend(u, r)) == Prepend(t + u, r)
    ensures Prepend("", r) == r
  {
    if r.Ok? {
      assert t + (u + r.value) == t + u + r.value;
      assert "" + r.value == r.value;
    }
  }

  // The loop's steps, as they move characters or a conversion from what is left to what is done.
  lemma CopyCharacter(args: seq<Arg>, write: Renderer, s: string, i: nat, next: int, done: string, after: nat)
    requires i < |s| && s[i] != '\0'
    requires if s[i] == '%' then At(s, i + 1) == '%' && after == i + 2 else after == i + 1
    ensures Prepend(done, Render(args, write, s, i, next)) == Prepend(done + [s[i]], Render(args, write, s, after, next))
  {
    PrependTwice(done, [s[i]], Render(args, write, s, after, next));
  }

  lemma CopyConversion(args: seq<Arg>, write: Renderer, s: string, i: nat, next: int, done: string)
    requires i < |s| && s[i] == '%' && At(s, i + 1) != '%'
    ensures var r, c := Prepend(done, Render(args, write, s, i, next)), ReadConversion(args, s, i + 1, next);
            && (c.Error? ==> r == Error(c.message))
            && (c.Ok? ==>
                 var text := write(c.value.spec, c.value.arg);
                 && (text.Error? ==> r == Error(text.message))
                 && (text.Ok? ==> r == Prepend(done + text.value, Render(args, write, s, c.value.i, c.value.next))))
  {
    hide ReadConversion;
    var c := ReadConversion(args, s, i + 1, next);
    if c.Ok? {
      var text := write(c.value.spec, c.value.arg);
      if text.Ok? { PrependTwice(done, text.value, Render(args, write, s, c.value.i, c.value.next)); }
    }
  }

  lemma AtTheEnd(args: seq<Arg>, write: Renderer, s: string, i: nat, next: int, done: string)
    requires i <= |s| && At(s, i) == '\0'
    ensures Prepend(done, Render(args, write, s, i, next)) == Ok(done)
  {
    assert done + "" == done;
  }

  class PrintfFormatter {
    var args: seq<Arg>
    var nextArgIndex: int
    var output: string
    const write: Renderer

    constructor (write: Renderer)
      ensures output == "" && this.write == write
    {
      args, nextArgIndex, output := [], 0, "";
      this.write := write;
    }

    method TakeArg(s: string, i: nat, number: Option<nat>) returns (r: Result<Arg>)
      modifies this`nextArgIndex
      ensures var t := GetArg(args, s, i, number, old(nextArgIndex));
              && (t.Error? ==> r == Error(t.message))
              && (t.Ok? ==> r == Ok(t.value.arg) && nextArgIndex == t.value.next)
    {
      var arg, error := NO_ARG, "";
      if number.None? {
        if nextArgIndex >= 0 {
          arg := ArgAt(args, nextArgIndex);
          nextArgIndex := nextArgIndex + 1;
          if arg.kind.NONE? { error := "argument index out of range"; }
        } else {
          error := "cannot switch from manual to automatic argument indexing";
        }
      } else if nextArgIndex <= 0 {
        nextArgIndex := -1;
        if number.value > 0 { arg := ArgAt(args, number.value - 1); }
        if arg.kind.NONE? { error := "argument index out of range"; }
      } else {
        error := "cannot switch from automatic to manual argument indexing";
      }
      if error != "" { return Error(if At(s, i) == '\0' then "invalid format string" else error); }
      r := Ok(arg);
    }

    static method ParseFlags(s: string, start: nat, before: FormatSpec) returns (spec: FormatSpec, i: nat)
      requires start <= |s|
      ensures Stage(i, spec) == ReadFlags(s, start, before)
    {
      spec, i := before, start;
      while true
        invariant i <= |s| && ReadFlags(s, i, spec) == ReadFlags(s, start, before)
        decreases |s| - i
      {
        match At(s, i) {
          case '-' => spec := spec.(align := ALIGN_LEFT);
          case '+' => spec := spec.(sign := true, plus := true);
          case '0' => spec := spec.(fill := '0');
          case ' ' => spec := spec.(sign := true);
          case '#' => spec := spec.(hash := true);
          case _ => return;
        }
        i := i + 1;
      }
    }

    method ParseFlagsAndWidth(s: string, start: nat, before: FormatSpec) returns (r: Result<FormatSpec>, i: nat)
      requires start <= |s|
      modifies this`nextArgIndex
      ensures forall number :: var h := ReadFlagsAndWidth(args, s, start, before, number, old(nextArgIndex));
                && (h.Error? ==> r == Error(h.message))
                && (h.Ok? ==> r.Ok? && h.value == Header(i, r.value, number, nextArgIndex))
    {
      hide Scan;
      var spec, end := ParseFlags(s, start, before);
      i := end;
      if IsDigit(At(s, i)) {
        var parsed := ParseNonnegativeInt(s, i);
        if parsed.TooBig? { return Error("number is too big"), i; }
        spec, i := spec.(width := parsed.value), parsed.next;
      } else if At(s, i) == '*' {
        i := i + 1;
        var arg := TakeArg(s, i, None);
        if arg.Error? { return Error(arg.message), i; }
        r := StarWidth(arg.value, spec);
        return;
      }
      r := Ok(spec);
    }

    method ParseHeader(s: string, start: nat, before: FormatSpec)
      returns (r: Result<FormatSpec>, i: nat, number: Option<nat>)
      requires start <= |s|
      modifies this`nextArgIndex
      ensures var h := ReadHeader(args, s, start, before, old(nextArgIndex));
              && (h.Error? ==> r == Error(h.message))
              && (h.Ok? ==> r.Ok? && h.value == Header(i, r.value, number, nextArgIndex))
    {
      hide Scan, ReadFlagsAndWidth;
      var spec := before;
      i, number := start, None;
      var c := At(s, i);
      if IsDigit(c) {
        var parsed := ParseNonnegativeInt(s, i);
        if parsed.TooBig? { return Error("number is too big"), i, number; }
        i := parsed.next;
        if At(s, i) == '$' {
          i := i + 1;
          number := Some(parsed.value);
        } else {
          if c == '0' { spec := spec.(fill := '0'); }
          if parsed.value != 0 {
            return Ok(spec.(width := parsed.value)), i, number;
          }
        }
      }
      ghost var h := ReadFlagsAndWidth(args, s, i, spec, number, nextArgIndex);
      assert h == ReadHeader(args, s, start, before, nextArgIndex);
      r, i := ParseFlagsAndWidth(s, i, spec);
    }

    method ParsePrecision(s: string, start: nat) returns (r: Result<int>, i: nat)
      requires start <= |s|
      modifies this`nextArgIndex
      ensures var p := ReadPrecision(args, s, start, old(nextArgIndex));
              && (p.Error? ==> r == Error(p.message))
              && (p.Ok? ==> r == Ok(p.value.value) && i == p.value.i && nextArgIndex == p.value.next)
    {
      i := start;
      var none: int := -1;
      r := Ok(none);
      if At(s, i) == '.' {
        i := i + 1;
        if IsDigit(At(s, i)) {
          var parsed := ParseNonnegativeInt(s, i);
          if parsed.TooBig? { return Error("number is too big"), i; }
          r, i := Ok(parsed.value), parsed.next;
        } else if At(s, i) == '*' {
          i := i + 1;
          var arg := TakeArg(s, i, None);
          if arg.Error? { return Error(arg.message), i; }
          r := StarPrecision(arg.value);
        }
      }
    }

    // One conversion after its percent sign.
    method FormatConversion(s: string, start: nat) returns (r: Result<nat>)
      requires start <= |s|
      modifies this`nextArgIndex, this`output
      ensures var c := ReadConversion(args, s, start, old(nextArgIndex));
              && (c.Error? ==> r == Error(c.message))
              && (c.Ok? ==>
                   var text := write(c.value.spec, c.value.arg);
                   && (text.Error? ==> r == Error(text.message))
                   && (text.Ok? ==> r == Ok(c.value.i) && output == old(output) + text.value && nextArgIndex == c.value.next))
      ensures r.Error? ==> output == old(output)
    {
      hide ReadHeader, ReadPrecision, GetArg, Adjusted, ReadLength, ConvertArg, Normalized;
      var header, i, number := ParseHeader(s, start, START);
      if header.Error? { return Error(header.message); }
      var precision, end := ParsePrecision(s, i);
      if precision.Error? { return Error(precision.message); }
      var taken := TakeArg(s, end, number);
      if taken.Error? { return Error(taken.message); }
      var spec := Adjusted(header.value.(precision := precision.value), taken.value);
      var (length, at) := ReadLength(s, end);
      if At(s, at) == '\0' { return Error("invalid format string"); }
      var (typeCode, arg) := Normalized(s[at], ConvertArg(taken.value, length, s[at]));
      var text :- write(spec.(typeCode := typeCode), arg);
      output := output + text;
      r := Ok(at + 1);
    }

    // The output of a run is what the string means; the loop copies whole literals at once.
    method Format(s: string, args: seq<Arg>) returns (r: Result<()>)
      modifies this
      ensures var meaning := Render(args, write, s, 0, 0);
              && (meaning.Error? ==> r == Error(meaning.message))
              && (meaning.Ok? ==> r.Ok? && output == old(output) + meaning.value)
      ensures old(output) <= output
    {
      hide Render, Prepend, ReadConversion;
      var start, i := 0, 0;
      this.args, nextArgIndex := args, 0;
      ghost var written := "";
      ghost var meaning := Render(args, write, s, 0, 0);
      PrependTwice("", "", meaning);
      assert written + s[start..i] == "";
      while At(s, i) != '\0'
        invariant start <= i <= |s| && this.args == args && output == old(output) + written
        invariant Prepend(written + s[start..i], Render(args, write, s, i, nextArgIndex)) == meaning
        decreases |s| - i
      {
        ghost var pending := written + s[start..i];
        var c := s[i];
        i := i + 1;
        assert s[start..i] == s[start..i - 1] + [c];
        assert written + s[start..i] == pending + [c];
        if c != '%' {
          CopyCharacter(args, write, s, i - 1, nextArgIndex, pending, i);
          continue;
        }
        if At(s, i) == c {
          CopyCharacter(args, write, s, i - 1, nextArgIndex, pending, i + 1);
          output := output + s[start..i];
          written := written + s[start..i];
          i := i + 1;
          start := i;
          assert written + s[start..i] == written;
          continue;
        }
        output := output + s[start..i - 1];
        written := pending;
        ghost var conversion := ReadConversion(args, s, i, nextArgIndex);
        CopyConversion(args, write, s, i - 1, nextArgIndex, pending);
        var after := FormatConversion(s, i);
        if after.Error? { return Error(after.message); }
        i := after.value;
        start := i;
        written := pending + write(conversion.value.spec, conversion.value.arg).value;
        assert written + s[start..i] == written;
      }
      AtTheEnd(args, write, s, i, nextArgIndex, written + s[start..i]);
      output := output + s[start..i];
      r := Ok(());
    }
  }
}
