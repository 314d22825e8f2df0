/**
 * The consumer in `start_game`: it walks the hints of one round, printing the
 * message for each, stops after the first `'='`, and raises
 * NotImplementedError on any other hint.
 */
module Game {
  import opened Wrappers
  import opened Decimal
  import opened Attempts

  const TooHighMessage := "Too high. Guess again."
  const TooLowMessage := "Too low. Guess again."

  const UnexpectedSuffix := " is not an expected result of function: attempts"

  function WinMessage(answer: int): string {
    "You win! " + Show(answer) + " is correct!"
  }

  /** The victory message reveals the answer: it can be read back from the text. */
  lemma WinMessageRevealsAnswer(answer: int)
    ensures var w := WinMessage(answer);
      && |w| == 9 + |Show(answer)| + 12
      && w[..9] == "You win! "
      && ParseInt(w[9..|w| - 12]) == Some(answer)
      && w[|w| - 12..] == " is correct!"
  {
    var w := WinMessage(answer);
    assert w[9..|w| - 12] == Show(answer);
    ParseShow(answer);
  }

  /** The three messages differ, so the printed text tells the hints apart. */
  lemma MessagesDistinct(answer: int)
    ensures WinMessage(answer) != TooHighMessage
    ensures WinMessage(answer) != TooLowMessage
    ensures TooHighMessage != TooLowMessage
  {
    assert WinMessage(answer)[0] == 'Y' && TooHighMessage[0] == 'T' && TooLowMessage[0] == 'T';
    assert TooHighMessage[4] == 'h' && TooLowMessage[4] == 'l';
  }

  /** The hints `attempts` is documented to yield. */
  predicate IsExpectedHint(hint: char) {
    hint == '=' || hint == '+' || hint == '-'
  }

  /** The message printed for one hint, or the text of the NotImplementedError raised for it. */
  function Message(answer: int, hint: char): (r: Result<string, string>)
    ensures r.Success? <==> IsExpectedHint(hint)
    ensures r.Failure? ==> |r.error| > 0 && r.error[0] == hint && r.error[1..] == UnexpectedSuffix
  {
    if hint == '=' then Success(WinMessage(answer))
    else if hint == '+' then Success(TooHighMessage)
    else if hint == '-' then Success(TooLowMessage)
    else Failure([hint] + UnexpectedSuffix)
  }

  /** Distinct expected hints print distinct messages: the output determines the hints. */
  lemma MessageInjective(answer: int, h1: char, h2: char)
    requires IsExpectedHint(h1) && IsExpectedHint(h2)
    requires Message(answer, h1) == Message(answer, h2)
    ensures h1 == h2
  {
    MessagesDistinct(answer);
  }

  /** How the consumer's loop ends. */
  datatype Outcome =
    | Won                   // broke out after printing the victory message
    | Exhausted             // the hints ran out without an `'='`
    | Raised(error: string) // NotImplementedError for an unexpected hint

  /**
   * `messages` and `outcome` are what the consumer produces from `hints`: the
   * message of each hint in order, up to the first `'='` (then `Won`), up to
   * an unexpected hint (then `Raised` with its error), or to the end.
   */
  ghost predicate IsPlay(answer: int, hints: seq<char>, messages: seq<string>, outcome: Outcome) {
    && |messages| <= |hints|
    && (forall k :: 0 <= k < |messages| ==> Message(answer, hints[k]) == Success(messages[k]))
    && (forall k :: 0 <= k < |messages| - 1 ==> hints[k] != '=')
    && (outcome == Won <==> 0 < |messages| && hints[|messages| - 1] == '=')
    && (outcome.Raised? ==> |messages| < |hints| && Message(answer, hints[|messages|]) == Failure(outcome.error))
    && (outcome == Exhausted ==> |messages| == |hints| && '=' !in hints)
  }

  /** The `for attempt in attempts(...)` loop with its dispatch and its `break`. */
  method PlayRound(answer: int, hints: seq<char>) returns (messages: seq<string>, outcome: Outcome)
    ensures IsPlay(answer, hints, messages, outcome)
  {
    messages, outcome := [], Exhausted;
    for i := 0 to |hints|
      invariant |messages| == i
      invariant forall k :: 0 <= k < i ==> Message(answer, hints[k]) == Success(messages[k])
      invariant forall k :: 0 <= k < i ==> hints[k] != '='
    {
      var attempt := hints[i];
      if attempt == '=' {
        messages := messages + [WinMessage(answer)];
        outcome := Won;
        break;
      } else if attempt == '+' {
        messages := messages + [TooHighMessage];
      } else if attempt == '-' {
        messages := messages + [TooLowMessage];
      } else {
        outcome := Raised([attempt] + UnexpectedSuffix);
        break;
      }
    }
  }

  /**
   * Fed the hints of a round, the consumer never raises NotImplementedError:
   * it prints one message per hint, and it ends with the victory message
   * exactly when some guess was the answer.
   */
  lemma RoundNeverRaises(answer: int, guesses: seq<int>, messages: seq<string>, outcome: Outcome)
    requires IsPlay(answer, Round(answer, guesses), messages, outcome)
    ensures !outcome.Raised?
    ensures |messages| == |Round(answer, guesses)|
    ensures outcome == Won <==> answer in guesses
    ensures outcome == Won ==> messages[|messages| - 1] == WinMessage(answer)
  {
    var hints := Round(answer, guesses);
    RoundHints(answer, guesses);
    if answer in guesses {
      var i :| 0 <= i < |guesses| && guesses[i] == answer;
      if |hints| == |guesses| {
        assert hints[i] == '=';
      } else {
        assert hints[|hints| - 1] == '=';
      }
    }
  }
}
