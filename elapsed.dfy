/**
 * The elapsed-time text of the completion summary: whole seconds split into
 * hours, minutes and seconds, with leading zero units left out.
 */
module Elapsed {
  import opened Decimal

  type U64 = x: int | 0 <= x < 0x1_0000_0000_0000_0000

  /** The three shapes of the message. */
  datatype Elapsed =
    | HoursForm(hours: nat, minutes: nat, seconds: nat)
    | MinutesForm(minutes: nat, seconds: nat)
    | SecondsForm(seconds: nat)

  /** The duration an elapsed-time value stands for. */
  function TotalSeconds(e: Elapsed): nat {
    match e
    case HoursForm(h, m, s) => h * 3600 + m * 60 + s
    case MinutesForm(m, s) => m * 60 + s
    case SecondsForm(s) => s
  }

  /** Minutes and seconds below 60, and no leading zero unit. */
  predicate Canonical(e: Elapsed) {
    match e
    case HoursForm(h, m, s) => h > 0 && m < 60 && s < 60
    case MinutesForm(m, s) => m > 0 && m < 60 && s < 60
    case SecondsForm(s) => s < 60
  }

  /** The div/mod decomposition and the three-way choice of `format_elapsed_time`. */
  function Decompose(total: U64): (e: Elapsed)
    ensures Canonical(e) && TotalSeconds(e) == total
    ensures e.HoursForm? <==> total >= 3600
    ensures e.MinutesForm? <==> 60 <= total < 3600
    ensures e.SecondsForm? <==> total < 60
  {
    var minutes := total / 60;
    var seconds := total % 60;
    var hours := minutes / 60;
    var minutes := minutes % 60;
    if hours > 0 then HoursForm(hours, minutes, seconds)
    else if minutes > 0 then MinutesForm(minutes, seconds)
    else SecondsForm(seconds)
  }

  /** There is only one canonical way to write a duration, so the decomposition is it. */
  lemma DecomposeUnique(e: Elapsed)
    requires Canonical(e) && TotalSeconds(e) < 0x1_0000_0000_0000_0000
    ensures Decompose(TotalSeconds(e)) == e
  {
    var t := TotalSeconds(e);
    match e
    case HoursForm(h, m, s) =>
      assert t / 60 == h * 60 + m;
      assert t % 60 == s;
    case MinutesForm(m, s) =>
      assert t / 60 == m;
    case SecondsForm(s) =>
  }

  /** The text of each shape: it always ends in the seconds, and its first unit is never written as zero. */
  function Render(e: Elapsed): (text: string)
    ensures |text| > 8 && text[|text| - 8..] == " seconds"
    ensures Canonical(e) && !e.SecondsForm? ==> text[0] != '0'
  {
    match e
    case HoursForm(h, m, s) => Show(h) + " hours " + Show(m) + " minutes " + Show(s) + " seconds"
    case MinutesForm(m, s) => Show(m) + " minutes " + Show(s) + " seconds"
    case SecondsForm(s) => Show(s) + " seconds"
  }

  /** The first number written for each shape. */
  function Lead(e: Elapsed): nat {
    match e
    case HoursForm(h, _, _) => h
    case MinutesForm(m, _) => m
    case SecondsForm(s) => s
  }

  /** The text after the first number: it starts with a space, then the initial of the first unit. */
  function Words(e: Elapsed): string {
    match e
    case HoursForm(_, m, s) => " hours " + Show(m) + " minutes " + Show(s) + " seconds"
    case MinutesForm(_, s) => " minutes " + Show(s) + " seconds"
    case SecondsForm(_) => " seconds"
  }

  /** The initial of the first unit tells the shape. */
  lemma WordsInitial(e: Elapsed)
    ensures |Words(e)| > 1 && Words(e)[0] == ' '
    ensures e.HoursForm? <==> Words(e)[1] == 'h'
    ensures e.MinutesForm? <==> Words(e)[1] == 'm'
  {
    match e
    case HoursForm(_, m, s) =>
      Regroup(" hours ", Show(m), " minutes ", Show(s), " seconds", "");
    case MinutesForm(_, s) =>
      Regroup(" minutes ", Show(s), " seconds", "", "", "");
    case SecondsForm(_) =>
  }

  /** Moving the first piece of a concatenation out of the bracket. */
  lemma Regroup(a: string, b: string, c: string, d: string, f: string, g: string)
    ensures a + b + c == a + (b + c)
    ensures a + b + c + d == a + (b + c + d)
    ensures a + b + c + d + f == a + (b + c + d + f)
    ensures a + b + c + d + f + g == a + (b + c + d + f + g)
  {
  }

  lemma RenderLead(e: Elapsed)
    ensures Render(e) == Show(Lead(e)) + Words(e)
  {
    match e
    case HoursForm(h, m, s) =>
      Regroup(Show(h), " hours ", Show(m), " minutes ", Show(s), " seconds");
    case MinutesForm(m, s) =>
      Regroup(Show(m), " minutes ", Show(s), " seconds", "", "");
    case SecondsForm(s) =>
  }

  /** A decimal number followed by a space can be read back: the digits stop at the space. */
  lemma ShowThenSpace(x: nat, y: nat, u: string, v: string)
    requires |u| > 0 && u[0] == ' ' && |v| > 0 && v[0] == ' '
    requires Show(x) + u == Show(y) + v
    ensures x == y && u == v
  {
    var text := Show(x) + u;
    assert forall i :: 0 <= i < |Show(x)| ==> text[i] == Show(x)[i] && IsDigit(text[i]);
    assert forall i :: 0 <= i < |Show(y)| ==> text[i] == Show(y)[i] && IsDigit(text[i]);
    assert text[|Show(x)|] == ' ' && text[|Show(y)|] == ' ';
    assert |Show(x)| == |Show(y)|;
    assert Show(x) == text[..|Show(x)|] == Show(y);
    FoldShow(x);
    FoldShow(y);
  }

  /** A common first piece can be dropped from both sides. */
  lemma DropPrefix(p: string, x: string, y: string)
    requires p + x == p + y
    ensures x == y
  {
    assert x == (p + x)[|p|..];
  }

  /** The minutes-and-seconds text gives back its seconds. */
  lemma MinutesWordsInjective(s1: nat, s2: nat)
    requires " minutes " + Show(s1) + " seconds" == " minutes " + Show(s2) + " seconds"
    ensures s1 == s2
  {
    Regroup(" minutes ", Show(s1), " seconds", "", "", "");
    Regroup(" minutes ", Show(s2), " seconds", "", "", "");
    DropPrefix(" minutes ", Show(s1) + " seconds", Show(s2) + " seconds");
    ShowThenSpace(s1, s2, " seconds", " seconds");
  }

  /** The hours text after the hours gives back its minutes and seconds. */
  lemma HoursWordsInjective(m1: nat, s1: nat, m2: nat, s2: nat)
    requires " hours " + Show(m1) + " minutes " + Show(s1) + " seconds" == " hours " + Show(m2) + " minutes " + Show(s2) + " seconds"
    ensures m1 == m2 && s1 == s2
  {
    var tail1, tail2 := " minutes " + Show(s1) + " seconds", " minutes " + Show(s2) + " seconds";
    Regroup(" hours ", Show(m1), " minutes ", Show(s1), " seconds", "");
    Regroup(" hours ", Show(m2), " minutes ", Show(s2), " seconds", "");
    Regroup(Show(m1), " minutes ", Show(s1), " seconds", "", "");
    Regroup(Show(m2), " minutes ", Show(s2), " seconds", "", "");
    DropPrefix(" hours ", Show(m1) + tail1, Show(m2) + tail2);
    ShowThenSpace(m1, m2, tail1, tail2);
    MinutesWordsInjective(s1, s2);
  }

  /** Two shapes with the same text are the same shape with the same numbers: the message determines the duration. */
  lemma RenderInjective(e1: Elapsed, e2: Elapsed)
    requires Render(e1) == Render(e2)
    ensures e1 == e2
  {
    RenderLead(e1);
    RenderLead(e2);
    WordsInitial(e1);
    WordsInitial(e2);
    ShowThenSpace(Lead(e1), Lead(e2), Words(e1), Words(e2));
    match e1
    case HoursForm(_, m1, s1) =>
      var HoursForm(_, m2, s2) := e2;
      HoursWordsInjective(m1, s1, m2, s2);
    case MinutesForm(_, s1) =>
      var MinutesForm(_, s2) := e2;
      MinutesWordsInjective(s1, s2);
    case SecondsForm(_) =>
  }

  /** Different durations give different messages. */
  lemma FormatElapsedTimeInjective(a: U64, b: U64)
    requires FormatElapsedTime(a) == FormatElapsedTime(b)
    ensures a == b
  {
    RenderInjective(Decompose(a), Decompose(b));
  }

  /** `format_elapsed_time`: the text of the one canonical shape whose total is `seconds`. */
  function FormatElapsedTime(seconds: U64): (text: string)
    ensures forall e :: Canonical(e) && TotalSeconds(e) == seconds ==> text == Render(e)
  {
    forall e | Canonical(e) && TotalSeconds(e) == seconds ensures Render(e) == Render(Decompose(seconds)) {
      DecomposeUnique(e);
    }
    Render(Decompose(seconds))
  }

  /** Under a minute: seconds only. */
  lemma ExampleSeconds()
    ensures FormatElapsedTime(45) == "45 seconds"
  {
  }

  /** Under an hour: minutes and seconds. */
  lemma ExampleMinutes()
    ensures FormatElapsedTime(125) == "2 minutes 5 seconds"
  {
  }

  /** An hour or more: all three units, with the zero-padding-free numbers. */
  lemma ExampleHours()
    ensures FormatElapsedTime(3725) == "1 hours 2 minutes 5 seconds"
  {
  }
}
