/**
 * Decimal text for integers: the `str::parse::<i32>` used by the argument
 * check, and the `{}` rendering of non-negative integers used by the
 * elapsed-time and progress messages.
 */
module Decimal {

  const I32Min: int := -0x8000_0000
  const I32Max: int := 0x7fff_ffff

  predicate IsI32(x: int) {
    I32Min <= x <= I32Max
  }

  datatype Result<T, E> = Ok(value: T) | Err(error: E)

  /** The error kinds of Rust's integer parser. */
  datatype ParseError = Empty | InvalidDigit | PosOverflow | NegOverflow

  predicate IsDigit(c: char) {
    '0' <= c <= '9'
  }

  function DigitValue(c: char): nat
    requires IsDigit(c)
  {
    c as int - '0' as int
  }

  function DigitChar(d: nat): char
    requires d < 10
  {
    ('0' as int + d) as char
  }

  predicate AllDigits(s: string) {
    forall i :: 0 <= i < |s| ==> IsDigit(s[i])
  }

  /** Unbounded left-to-right reading of a digit run, starting from `acc`. */
  function Fold(acc: int, s: string): int
    requires AllDigits(s)
    decreases |s|
  {
    if s == [] then acc else Fold(acc * 10 + DigitValue(s[0]), s[1..])
  }

  /** The text after an optional leading sign. */
  function Unsigned(s: string): string {
    if |s| > 0 && (s[0] == '+' || s[0] == '-') then s[1..] else s
  }

  /** What `parse::<i32>` accepts, bounds aside: an optional sign, then one or more ASCII digits. */
  predicate WellFormed(s: string) {
    |Unsigned(s)| > 0 && AllDigits(Unsigned(s))
  }

  /** The mathematical value of a well-formed decimal text. */
  function SignedValue(s: string): int
    requires WellFormed(s)
  {
    if s[0] == '-' then -Fold(0, Unsigned(s)) else Fold(0, Unsigned(s))
  }

  /**
   * The digit loop of the parser: each character must be a digit, and the
   * running value (multiplied by ten, then the digit added, or subtracted
   * for a negative number) must stay within i32. The multiply and the add
   * are checked separately in Rust; since the digit has the same sign as
   * the running value, if the product leaves the range so does the sum, so
   * one check on the sum gives the same decision.
   */
  function Accumulate(acc: int, s: string, positive: bool): (r: Result<int, ParseError>)
    ensures r.Ok? ==> AllDigits(s)
    ensures r.Ok? && IsI32(acc) ==> IsI32(r.value)
    ensures r.Err? ==> r.error != Empty
    ensures r.Err? && r.error == InvalidDigit ==> exists i :: 0 <= i < |s| && !IsDigit(s[i])
    decreases |s|
  {
    if s == [] then Ok(acc)
    else if !IsDigit(s[0]) then Err(InvalidDigit)
    else
      var next := if positive then acc * 10 + DigitValue(s[0]) else acc * 10 - DigitValue(s[0]);
      if !IsI32(next) then Err(if positive then PosOverflow else NegOverflow)
      else Accumulate(next, s[1..], positive)
  }

  /** `str::parse::<i32>`: no whitespace, no underscores, no other radix. */
  function ParseI32(s: string): (r: Result<int, ParseError>)
    ensures r.Ok? <==> WellFormed(s) && IsI32(SignedValue(s))
    ensures r.Ok? ==> r.value == SignedValue(s)
    ensures s == [] ==> r == Err(Empty)
  {
    if s == [] then Err(Empty)
    else if (s[0] == '+' || s[0] == '-') && |s| == 1 then Err(InvalidDigit)
    else
      var digits := Unsigned(s);
      var positive := s[0] != '-';
      AccumulateFromZero(digits, positive);
      Accumulate(0, digits, positive)
  }

  /** The digit loop started from zero yields the signed unbounded value exactly when it fits i32. */
  lemma AccumulateFromZero(digits: string, positive: bool)
    ensures Accumulate(0, digits, positive).Ok? <==>
      AllDigits(digits) && IsI32(if positive then Fold(0, digits) else -Fold(0, digits))
    ensures Accumulate(0, digits, positive).Ok? ==>
      Accumulate(0, digits, positive).value == if positive then Fold(0, digits) else -Fold(0, digits)
  {
    if positive {
      AccumulatePositive(0, digits);
    } else {
      AccumulateNegative(0, digits);
    }
    if AllDigits(digits) {
      FoldGrows(0, digits);
    }
  }

  lemma {:induction false} FoldGrows(acc: int, s: string)
    requires acc >= 0 && AllDigits(s)
    ensures Fold(acc, s) >= acc
    decreases |s|
  {
    if s != [] {
      FoldGrows(acc * 10 + DigitValue(s[0]), s[1..]);
    }
  }

  /** The checked loop for a positive number succeeds exactly when the unbounded value fits. */
  lemma {:induction false} AccumulatePositive(acc: int, s: string)
    requires 0 <= acc <= I32Max
    ensures Accumulate(acc, s, true).Ok? <==> AllDigits(s) && Fold(acc, s) <= I32Max
    ensures Accumulate(acc, s, true).Ok? ==> Accumulate(acc, s, true).value == Fold(acc, s)
    decreases |s|
  {
    if s != [] && IsDigit(s[0]) {
      var next := acc * 10 + DigitValue(s[0]);
      assert AllDigits(s) <==> AllDigits(s[1..]) by {
        assert forall i :: 1 <= i < |s| ==> s[i] == s[1..][i - 1];
      }
      if next > I32Max {
        if AllDigits(s) {
          FoldGrows(next, s[1..]);
        }
      } else {
        AccumulatePositive(next, s[1..]);
      }
    }
  }

  /** The checked loop for a negative number succeeds exactly when the unbounded value fits. */
  lemma {:induction false} AccumulateNegative(acc: int, s: string)
    requires I32Min <= acc <= 0
    ensures Accumulate(acc, s, false).Ok? <==> AllDigits(s) && -Fold(-acc, s) >= I32Min
    ensures Accumulate(acc, s, false).Ok? ==> Accumulate(acc, s, false).value == -Fold(-acc, s)
    decreases |s|
  {
    if s != [] && IsDigit(s[0]) {
      var next := acc * 10 - DigitValue(s[0]);
      assert AllDigits(s) <==> AllDigits(s[1..]) by {
        assert forall i :: 1 <= i < |s| ==> s[i] == s[1..][i - 1];
      }
      if next < I32Min {
        if AllDigits(s) {
          FoldGrows(-next, s[1..]);
        }
      } else {
        AccumulateNegative(next, s[1..]);
      }
    }
  }

  /** A character that is not a digit, other than a leading sign, makes the parse fail. */
  lemma NonDigitRejected(s: string, i: int)
    requires 0 <= i < |s| && !IsDigit(s[i])
    requires i > 0 || (s[i] != '+' && s[i] != '-')
    ensures ParseI32(s).Err?
  {
  }

  /** `{}` formatting of a non-negative integer: its decimal digits, most significant first. */
  function Show(n: nat): (r: string)
    ensures |r| > 0 && AllDigits(r)
    ensures n == 0 ==> r == "0"
    ensures n > 0 ==> r[0] != '0'
    decreases n
  {
    if n < 10 then [DigitChar(n)] else Show(n / 10) + [DigitChar(n % 10)]
  }

  lemma {:induction false} FoldSnoc(acc: int, s: string, c: char)
    requires AllDigits(s) && IsDigit(c)
    ensures AllDigits(s + [c])
    ensures Fold(acc, s + [c]) == Fold(acc, s) * 10 + DigitValue(c)
    decreases |s|
  {
    if s == [] {
      assert [] + [c] == [c];
    } else {
      assert (s + [c])[1..] == s[1..] + [c];
      FoldSnoc(acc * 10 + DigitValue(s[0]), s[1..], c);
    }
  }

  /** Reading back the rendering of `n` gives `n`. */
  lemma {:induction false} FoldShow(n: nat)
    ensures Fold(0, Show(n)) == n
    decreases n
  {
    if n >= 10 {
      FoldShow(n / 10);
      FoldSnoc(0, Show(n / 10), DigitChar(n % 10));
    }
  }

  /** Round trip: every non-negative i32 rendered with `{}` parses back to itself. */
  lemma ParseShow(n: nat)
    requires n <= I32Max
    ensures ParseI32(Show(n)) == Ok(n)
  {
    FoldShow(n);
  }

  /** Round trip for negative i32 values written with a leading minus. */
  lemma ParseShowNegative(n: nat)
    requires 0 < n <= -I32Min
    ensures ParseI32("-" + Show(n)) == Ok(-(n as int))
  {
    var s := "-" + Show(n);
    assert Unsigned(s) == Show(n);
    FoldShow(n);
  }
}
