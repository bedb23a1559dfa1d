/**
 * The command-line check of the generator: exactly one argument after the
 * program name, and it must parse as a positive i32 row count. Every other
 * invocation takes the same usage-and-exit path, modelled here as `false`.
 */
module Args {
  import opened Decimal

  /** `check_args`: true when the program continues, false when it prints the usage text and exits with status 1. */
  function CheckArgs(args: seq<string>): (accepted: bool)
    ensures accepted <==> |args| == 2 && WellFormed(args[1]) && 1 <= SignedValue(args[1]) <= I32Max
  {
    !(|args| != 2 || ParsedOrZero(args[1]) <= 0)
  }

  /** `parse::<i32>().unwrap_or(0)`. */
  function ParsedOrZero(s: string): (v: int)
    ensures WellFormed(s) && IsI32(SignedValue(s)) ==> v == SignedValue(s)
    ensures !(WellFormed(s) && IsI32(SignedValue(s))) ==> v == 0
  {
    match ParseI32(s)
    case Ok(v) => v
    case Err(_) => 0
  }

  /** The row count that `main` unwraps after the check: the unwrap cannot fail, and the count is positive. */
  function RowCount(args: seq<string>): (rows: int)
    requires CheckArgs(args)
    ensures 1 <= rows <= I32Max
    ensures rows == SignedValue(args[1])
  {
    ParseI32(args[1]).value
  }

  /** Digit-group separators are not accepted, whatever the usage text suggests. */
  lemma UnderscoreRejected(args: seq<string>, i: int)
    requires |args| == 2 && 0 <= i < |args[1]| && args[1][i] == '_'
    ensures !CheckArgs(args)
  {
  }

  /** Whitespace around the number is not trimmed. */
  lemma WhitespaceRejected(args: seq<string>, i: int)
    requires |args| == 2 && 0 <= i < |args[1]| && args[1][i] in {' ', '\t', '\n', '\r'}
    ensures !CheckArgs(args)
  {
  }

  /** Every positive i32, written in decimal, is accepted; zero and every negative value is not. */
  lemma AcceptsExactlyPositiveI32(program: string, n: int)
    requires IsI32(n)
    ensures n >= 1 ==> CheckArgs([program, Show(n)])
    ensures n <= 0 ==> !CheckArgs([program, if n == 0 then Show(0) else "-" + Show(-n)])
  {
    if n >= 0 {
      ParseShow(n);
    } else {
      ParseShowNegative(-n);
    }
  }

  /** A plain decimal row count is accepted. */
  lemma AcceptsThousand()
    ensures CheckArgs(["create_measurements", "1000"])
  {
  }

  /** Text, zero and negative counts are refused. */
  lemma RejectsNonPositiveOrText()
    ensures !CheckArgs(["create_measurements", "abc"])
    ensures !CheckArgs(["create_measurements", "-1"])
    ensures !CheckArgs(["create_measurements", "0"])
  {
  }

  /** A missing or an extra argument is refused. */
  lemma RejectsWrongCount()
    ensures !CheckArgs(["create_measurements"])
    ensures !CheckArgs(["create_measurements", "1000", "2000"])
  {
  }
}
