/** The arguments of both formatters: typed values, and how a value is written. */
module FormatArgs {
  import opened IntegerField
  import ArgList

  // Argument types in the order of their codes; user-defined types are not part of this model.
  datatype Kind =
    | NONE | INT | UINT | LONG_LONG | ULONG_LONG | CHAR | DOUBLE | LONG_DOUBLE
    | CSTRING | STRING | WSTRING | ADDRESS

  // The number stands for an integer's value and identifies any other value that is not a string.
  datatype Arg = Arg(kind: Kind, number: int, text: string)

  const NO_ARG: Arg := Arg(NONE, 0, "")

  datatype Result<+T> = Ok(value: T) | Error(message: string) {
    predicate IsFailure() {
      Error?
    }

    function PropagateFailure<U>(): Result<U>
      requires Error?
    {
      Error(message)
    }

    function Extract(): T
      requires Ok?
    {
      value
    }
  }

  // How a value is written in a field: any function may stand here.
  type Renderer = (FormatSpec, Arg) -> Result<string>

  // The code of a type, as it is packed into an argument list.
  function Code(kind: Kind): nat {
    match kind
    case NONE => 0
    case INT => 1
    case UINT => 2
    case LONG_LONG => 3
    case ULONG_LONG => 4
    case CHAR => 5
    case DOUBLE => 6
    case LONG_DOUBLE => 7
    case CSTRING => 8
    case STRING => 9
    case WSTRING => 10
    case ADDRESS => 11
  }

  const LAST_NUMERIC_TYPE: nat := 7

  predicate IsNumeric(kind: Kind) {
    Code(kind) <= LAST_NUMERIC_TYPE
  }

  predicate IsUnsigned(kind: Kind) {
    kind.UINT? || kind.ULONG_LONG?
  }

  function ArgAt(args: seq<Arg>, index: nat): Arg {
    if index < ArgList.MAX_ARGS && index < |args| then args[index] else NO_ARG
  }
}
