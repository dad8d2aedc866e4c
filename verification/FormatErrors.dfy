/** What both formatters say of format strings with one mistake. */
module FormatErrors {
  import opened IntegerField
  import opened FormatArgs
  import BraceFormat
  import PrintfFormat

  // A format string and its message, whatever writes the values.
  predicate BraceSays(args: seq<Arg>, render: Renderer, format: string, message: string) {
    BraceFormat.Render(args, render, format, 0, 0) == Error(message)
  }

  predicate PrintfSays(args: seq<Arg>, write: Renderer, format: string, message: string) {
    PrintfFormat.Render(args, write, format, 0, 0) == Error(message)
  }

  function Int(n: int): Arg {
    Arg(INT, n, "")
  }

  const WORD: Arg := Arg(STRING, 0, "word")
  const REAL: Arg := Arg(DOUBLE, 0, "")

  lemma UnmatchedBrace(args: seq<Arg>, render: Renderer)
    ensures BraceSays(args, render, "}", "unmatched '}' in format string")
  {
  }

  lemma MissingBrace(n: int, render: Renderer)
    ensures BraceSays([Int(n)], render, "{", "missing '}' in format string")
    ensures BraceSays([Int(n)], render, "{:d", "missing '}' in format string")
  {
  }

  lemma MissingArgument(n: int, render: Renderer)
    ensures BraceSays([], render, "{}", "argument index out of range")
    ensures BraceSays([], render, "{", "invalid format string")
    ensures BraceSays([Int(n)], render, "{1}", "argument index out of range")
  {
  }

  lemma ManualThenAutomatic(n: int, render: Renderer)
    requires render(DEFAULT_SPEC, Int(n)) == Ok("")
    ensures BraceSays([Int(n)], render, "{0}{}", "cannot switch from manual to automatic argument indexing")
  {
  }

  lemma AutomaticThenManual(n: int, render: Renderer)
    requires render(DEFAULT_SPEC, Int(n)) == Ok("")
    ensures BraceSays([Int(n)], render, "{}{0}", "cannot switch from automatic to manual argument indexing")
  {
  }

  lemma BadFill(n: int, render: Renderer)
    ensures BraceSays([Int(n)], render, "{:{<}", "invalid fill character '{'")
  {
  }

  function Requires(c: char, what: string): string {
    "format specifier '" + [c] + "' requires " + what + " argument"
  }

  lemma SignNotNumeric(render: Renderer)
    ensures BraceSays([WORD], render, "{:+}", Requires('+', "numeric"))
  {
    RequiresIs('+');
  }

  lemma HashNotNumeric(render: Renderer)
    ensures BraceSays([WORD], render, "{:#}", Requires('#', "numeric"))
  {
    RequiresIs('#');
  }

  lemma FillNotNumeric(render: Renderer)
    ensures BraceSays([WORD], render, "{:=}", Requires('=', "numeric"))
  {
    RequiresIs('=');
  }

  lemma ZeroNotNumeric(render: Renderer)
    ensures BraceSays([WORD], render, "{:05}", Requires('0', "numeric"))
  {
    RequiresIs('0');
  }

  lemma NotSigned(n: int, render: Renderer)
    ensures BraceSays([Arg(UINT, n, "")], render, "{:+}", Requires('+', "signed"))
  {
    RequiresIs('+');
  }

  lemma RequiresIs(c: char)
    ensures Requires(c, "numeric") == "format specifier '" + [c] + "' requires numeric argument"
    ensures Requires(c, "signed") == "format specifier '" + [c] + "' requires signed argument"
  {
    assert "' requires " + "numeric" + " argument" == "' requires numeric argument";
    assert "' requires " + "signed" + " argument" == "' requires signed argument";
  }

  lemma BadPrecision(n: int, render: Renderer)
    ensures BraceSays([Int(n)], render, "{:.1}", "precision specifier requires floating-point argument")
  {
  }

  lemma MissingPrecision(render: Renderer)
    ensures BraceSays([REAL], render, "{:.}", "missing precision specifier")
  {
  }

  lemma BadNestedPrecision(render: Renderer)
    ensures BraceSays([REAL, WORD], render, "{:.{}}", "precision is not integer")
  {
  }

  lemma NegativePrecision(render: Renderer)
    ensures BraceSays([REAL, Int(-1)], render, "{:.{}}", "negative precision")
  {
  }

  lemma PrintfMistakes(n: int, write: Renderer)
    ensures PrintfSays([Int(n)], write, "%", "invalid format string")
    ensures PrintfSays([], write, "%d", "argument index out of range")
  {
  }

  lemma BadStars(n: int, write: Renderer)
    ensures PrintfSays([WORD, Int(n)], write, "%*d", "width is not integer")
    ensures PrintfSays([WORD, Int(n)], write, "%.*d", "precision is not integer")
  {
  }

  lemma BigStars(n: int, write: Renderer)
    ensures PrintfSays([Arg(LONG_LONG, 2147483648, ""), Int(n)], write, "%*d", "number is too big")
    ensures PrintfSays([Arg(LONG_LONG, 2147483648, ""), Int(n)], write, "%.*d", "number is too big")
  {
  }

  lemma PrintfMixed(n: int, write: Renderer)
    requires forall spec: FormatSpec, arg: Arg :: write(spec, arg) == Ok("")
    ensures PrintfSays([Int(n)], write, "%1$d%d", "cannot switch from manual to automatic argument indexing")
  {
  }

  lemma PrintfMixedBack(n: int, write: Renderer)
    requires forall spec: FormatSpec, arg: Arg :: write(spec, arg) == Ok("")
    ensures PrintfSays([Int(n)], write, "%d%1$d", "cannot switch from automatic to manual argument indexing")
  {
  }
}
