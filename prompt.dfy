/**
 * `prompt_for_guess(srange, erange)`: show a prompt naming the bounds, read one
 * line, and return its integer value; on a line that is not an integer, print
 * an error message and ask again.
 *
 * Console input is the sequence of lines still to be read; console output is
 * the sequence of texts written, the prompt included (Python's `input(prompt)`
 * writes it). Running out of lines, where `input()` raises EOFError, gives `None`.
 */
module Prompt {
  import opened Wrappers
  import opened Decimal

  const ErrorMessage := "Your guess must be an integer. Example: 42"

  function PromptText(srange: int, erange: int): string {
    "Guess a number between " + Show(srange) + " and " + Show(erange) + ": "
  }

  /** The prompt names both bounds: each can be read back from its place in the text. */
  lemma PromptNamesBounds(srange: int, erange: int)
    ensures var t, a, b := PromptText(srange, erange), |Show(srange)|, |Show(erange)|;
      && |t| == 23 + a + 5 + b + 2
      && ParseInt(t[23..23 + a]) == Some(srange)
      && ParseInt(t[28 + a..28 + a + b]) == Some(erange)
  {
    var lead, low, mid, high, tail := "Guess a number between ", Show(srange), " and ", Show(erange), ": ";
    assert |lead| == 23 && |mid| == 5 && |tail| == 2;
    assert PromptText(srange, erange) == lead + low + (mid + high + tail);
    assert PromptText(srange, erange) == (lead + low + mid) + high + tail;
    Middle(lead, low, mid + high + tail);
    Middle(lead + low + mid, high, tail);
    ParseShow(srange);
    ParseShow(erange);
  }

  /** `n` copies of `[ask, refuse]` followed by one `ask`. */
  function Alternate<T>(ask: T, refuse: T, n: nat): seq<T>
    decreases n
  {
    if n == 0 then [ask] else [ask, refuse] + Alternate(ask, refuse, n - 1)
  }

  /** What one call writes when `rejected` lines are refused before one is accepted. */
  function Transcript(srange: int, erange: int, rejected: nat): seq<string> {
    Alternate(PromptText(srange, erange), ErrorMessage, rejected)
  }

  /** `Alternate` starts and ends with `ask` and alternates in between. */
  lemma {:induction false} AlternateShape<T>(ask: T, refuse: T, n: nat)
    ensures |Alternate(ask, refuse, n)| == 2 * n + 1
    ensures forall j :: 0 <= j <= n ==> Alternate(ask, refuse, n)[2 * j] == ask
    ensures forall j :: 0 <= j < n ==> Alternate(ask, refuse, n)[2 * j + 1] == refuse
    decreases n
  {
    if n > 0 {
      var rest := Alternate(ask, refuse, n - 1);
      AlternateShape(ask, refuse, n - 1);
      var t := [ask, refuse] + rest;
      assert t[0] == ask && t[1] == refuse;
      forall j | 1 <= j <= n
        ensures t[2 * j] == ask && (j < n ==> t[2 * j + 1] == refuse)
      {
        var i := j - 1;
        assert t[2 * j] == rest[2 * i];
        if j < n {
          assert t[2 * j + 1] == rest[2 * i + 1];
        }
      }
    }
  }

  /** When the two differ, `Alternate` holds `n` of `refuse` and `n + 1` of `ask`. */
  lemma {:induction false} AlternateCounts<T>(ask: T, refuse: T, n: nat)
    requires ask != refuse
    ensures multiset(Alternate(ask, refuse, n))[refuse] == n
    ensures multiset(Alternate(ask, refuse, n))[ask] == n + 1
    decreases n
  {
    if n > 0 {
      var rest := Alternate(ask, refuse, n - 1);
      AlternateCounts(ask, refuse, n - 1);
      assert multiset([ask, refuse] + rest) == multiset{ask, refuse} + multiset(rest);
    }
  }

  /**
   * A transcript alternates prompt and error message, starting and ending with
   * a prompt: one prompt per line read and exactly one error per rejected line.
   */
  lemma TranscriptShape(srange: int, erange: int, rejected: nat)
    ensures |Transcript(srange, erange, rejected)| == 2 * rejected + 1
    ensures forall j :: 0 <= j <= rejected ==> Transcript(srange, erange, rejected)[2 * j] == PromptText(srange, erange)
    ensures forall j :: 0 <= j < rejected ==> Transcript(srange, erange, rejected)[2 * j + 1] == ErrorMessage
    ensures multiset(Transcript(srange, erange, rejected))[ErrorMessage] == rejected
    ensures multiset(Transcript(srange, erange, rejected))[PromptText(srange, erange)] == rejected + 1
  {
    var text := PromptText(srange, erange);
    assert text[0] == 'G' && ErrorMessage[0] == 'Y';
    AlternateShape(text, ErrorMessage, rejected);
    AlternateCounts(text, ErrorMessage, rejected);
  }

  /** What one call returns: the guess, how many lines it read, and what it wrote. */
  datatype Prompted = Prompted(guess: int, consumed: nat, output: seq<string>)

  /**
   * One call of `prompt_for_guess` on the remaining input `lines`. The guess is
   * the value of the first line that parses; every line before it is rejected,
   * and the output alternates prompt and error message, one error per rejected
   * line, ending with the prompt that was answered. The bounds are only shown,
   * never checked.
   */
  function PromptForGuess(srange: int, erange: int, lines: seq<string>): (r: Option<Prompted>)
    ensures r.None? <==> forall i :: 0 <= i < |lines| ==> ParseInt(lines[i]).None?
    ensures r.Some? ==>
      && 0 < r.value.consumed <= |lines|
      && ParseInt(lines[r.value.consumed - 1]) == Some(r.value.guess)
      && (forall i :: 0 <= i < r.value.consumed - 1 ==> ParseInt(lines[i]).None?)
    ensures r.Some? ==> r.value.output == Transcript(srange, erange, r.value.consumed - 1)
    decreases |lines|
  {
    if |lines| == 0 then None
    else match ParseInt(lines[0])
      case Some(v) => Some(Prompted(v, 1, [PromptText(srange, erange)]))
      case None =>
        match PromptForGuess(srange, erange, lines[1..])
        case None => None
        case Some(p) =>
          var out := [PromptText(srange, erange), ErrorMessage] + p.output;
          Some(Prompted(p.guess, p.consumed + 1, out))
  }

  /** The values of the lines that parse, in input order. */
  function ParsedLines(lines: seq<string>): seq<int>
    decreases |lines|
  {
    if lines == [] then []
    else match ParseInt(lines[0])
      case Some(v) => [v] + ParsedLines(lines[1..])
      case None => ParsedLines(lines[1..])
  }

  /** The guesses that successive calls of `prompt_for_guess` return until input runs out. */
  function PromptAll(srange: int, erange: int, lines: seq<string>): seq<int>
    decreases |lines|
  {
    match PromptForGuess(srange, erange, lines)
    case None => []
    case Some(p) => [p.guess] + PromptAll(srange, erange, lines[p.consumed..])
  }

  /** Lines that do not parse contribute nothing to `ParsedLines`. */
  lemma {:induction false} SkipRejected(lines: seq<string>, n: nat)
    requires n <= |lines|
    requires forall i :: 0 <= i < n ==> ParseInt(lines[i]).None?
    ensures ParsedLines(lines) == ParsedLines(lines[n..])
    decreases n
  {
    if n > 0 {
      assert lines[1..][n - 1..] == lines[n..];
      SkipRejected(lines[1..], n - 1);
    }
  }

  /**
   * Successive prompts return exactly the values of the parseable lines, in
   * order: each call consumes the rejected lines before its answer and nothing
   * after it.
   */
  lemma {:induction false} PromptAllReadsEveryLine(srange: int, erange: int, lines: seq<string>)
    ensures PromptAll(srange, erange, lines) == ParsedLines(lines)
    decreases |lines|
  {
    match PromptForGuess(srange, erange, lines)
    case None =>
      SkipRejected(lines, |lines|);
    case Some(p) =>
      var n := p.consumed - 1;
      SkipRejected(lines, n);
      assert lines[n..][1..] == lines[p.consumed..];
      PromptAllReadsEveryLine(srange, erange, lines[p.consumed..]);
  }

  /** Input "invalid" then "4" with bounds 1 and 5: the answer 4, after exactly one error message. */
  lemma RetryAfterInvalidLine()
    ensures PromptForGuess(1, 5, ["invalid", "4"])
         == Some(Prompted(4, 2, [PromptText(1, 5), ErrorMessage, PromptText(1, 5)]))
  {
    assert ParseInt("invalid").None?;
    assert "4"[..0] == [];
    assert ParseInt("4") == Some(4);
    var p := PromptForGuess(1, 5, ["invalid", "4"]);
    assert ["invalid", "4"][1..] == ["4"];
    assert PromptForGuess(1, 5, ["4"]) == Some(Prompted(4, 1, [PromptText(1, 5)]));
    assert [PromptText(1, 5), ErrorMessage] + [PromptText(1, 5)] == [PromptText(1, 5), ErrorMessage, PromptText(1, 5)];
  }

  /** Input "1", "2", "3" with bounds 1 and 3: three prompts return 1, 2, 3, one line each, and none writes an error. */
  lemma SuccessivePrompts()
    ensures PromptForGuess(1, 3, ["1", "2", "3"]) == Some(Prompted(1, 1, [PromptText(1, 3)]))
    ensures PromptForGuess(1, 3, ["2", "3"]) == Some(Prompted(2, 1, [PromptText(1, 3)]))
    ensures PromptForGuess(1, 3, ["3"]) == Some(Prompted(3, 1, [PromptText(1, 3)]))
    ensures PromptAll(1, 3, ["1", "2", "3"]) == [1, 2, 3]
  {
    assert "1"[..0] == [] && "2"[..0] == [] && "3"[..0] == [];
    assert ParseInt("1") == Some(1) && ParseInt("2") == Some(2) && ParseInt("3") == Some(3);
    PromptAllReadsEveryLine(1, 3, ["1", "2", "3"]);
    assert ["1", "2", "3"][1..] == ["2", "3"];
    assert ["2", "3"][1..] == ["3"];
  }
}
