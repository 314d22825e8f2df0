/**
 * `attempts(srange, erange, answer, prompt_callable)`: the round evaluator.
 * It asks the guess provider for one guess at a time, passing it the bounds,
 * and yields `'+'` for a guess above the answer, `'-'` for one below it, and
 * `'='` for the first guess equal to the answer, after which it stops.
 *
 * The provider is the finite sequence of guesses it would return, in order;
 * hints are the one-character strings the generator yields, as `char`.
 */
module Attempts {

  /** The bounds handed to the provider on every call. */
  datatype Bounds = Bounds(srange: int, erange: int)

  /** The hints of one round: the finite sequence the generator yields when the provider returns `guesses`. */
  function Round(answer: int, guesses: seq<int>): (r: seq<char>)
    ensures |r| <= |guesses|
    decreases |guesses|
  {
    if guesses == [] then []
    else if guesses[0] == answer then ['=']
    else [if guesses[0] > answer then '+' else '-'] + Round(answer, guesses[1..])
  }

  /** One step of a round, from the guess at `next`. */
  lemma RoundStep(answer: int, guesses: seq<int>, next: nat)
    requires next < |guesses|
    ensures Round(answer, guesses[next..]) ==
      if guesses[next] == answer then ['=']
      else [if guesses[next] > answer then '+' else '-'] + Round(answer, guesses[next + 1..])
  {
    assert guesses[next..][1..] == guesses[next + 1..];
  }

  /**
   * The generator driven to exhaustion: the hints it yields and the arguments
   * of every call it makes to the provider. Each call receives the bounds
   * unchanged, one call per hint, and the bounds never filter a guess.
   */
  method Attempts(srange: int, erange: int, answer: int, guesses: seq<int>)
    returns (hints: seq<char>, calls: seq<Bounds>)
    ensures hints == Round(answer, guesses)
    ensures |calls| == |hints|
    ensures forall c :: c in calls ==> c == Bounds(srange, erange)
  {
    hints, calls := [], [];
    var next := 0;
    while next < |guesses|
      invariant 0 <= next <= |guesses|
      invariant |calls| == next == |hints|
      invariant forall c :: c in calls ==> c == Bounds(srange, erange)
      invariant Round(answer, guesses) == hints + Round(answer, guesses[next..])
    {
      var guess := guesses[next];
      calls := calls + [Bounds(srange, erange)];
      RoundStep(answer, guesses, next);
      next := next + 1;
      if guess == answer {
        hints := hints + ['='];
        break;
      }
      if guess > answer {
        hints := hints + ['+'];
      } else if guess < answer {
        hints := hints + ['-'];
      }
    }
  }

  /**
   * What a round is: one hint per guess consumed, giving the direction of the
   * guess from the answer, up to and including the first guess equal to the
   * answer and no further; if no guess is equal, every guess has its hint.
   */
  lemma {:induction false} RoundHints(answer: int, guesses: seq<int>)
    ensures forall k :: 0 <= k < |Round(answer, guesses)| ==>
      && (Round(answer, guesses)[k] == '+' <==> guesses[k] > answer)
      && (Round(answer, guesses)[k] == '-' <==> guesses[k] < answer)
      && (Round(answer, guesses)[k] == '=' <==> guesses[k] == answer)
    ensures forall k :: 0 <= k < |Round(answer, guesses)| - 1 ==> guesses[k] != answer
    ensures |Round(answer, guesses)| == |guesses|
         || (0 < |Round(answer, guesses)| && guesses[|Round(answer, guesses)| - 1] == answer)
    decreases |guesses|
  {
    if guesses != [] && guesses[0] != answer {
      var rest := Round(answer, guesses[1..]);
      RoundHints(answer, guesses[1..]);
      var r := [if guesses[0] > answer then '+' else '-'] + rest;
      assert forall k :: 1 <= k < |r| ==> r[k] == rest[k - 1] && guesses[k] == guesses[1..][k - 1];
    }
  }

  /** `'='` occurs exactly once when some guess is the answer, and never otherwise. */
  lemma {:induction false} EqualsOnce(answer: int, guesses: seq<int>)
    ensures multiset(Round(answer, guesses))['='] == if answer in guesses then 1 else 0
    decreases |guesses|
  {
    if guesses != [] && guesses[0] != answer {
      EqualsOnce(answer, guesses[1..]);
      var h: char := if guesses[0] > answer then '+' else '-';
      assert multiset([h] + Round(answer, guesses[1..])) == multiset{h} + multiset(Round(answer, guesses[1..]));
      assert answer in guesses <==> answer in guesses[1..];
    }
  }

  /** Guesses after the first correct one are never requested: they cannot change the round. */
  lemma {:induction false} LaterGuessesUnused(answer: int, guesses: seq<int>, later: seq<int>)
    requires answer in guesses
    ensures Round(answer, guesses + later) == Round(answer, guesses)
    decreases |guesses|
  {
    if guesses[0] != answer {
      assert (guesses + later)[1..] == guesses[1..] + later;
      LaterGuessesUnused(answer, guesses[1..], later);
    }
  }

  /** The round's length is one more than the index of the first correct guess. */
  lemma {:induction false} RoundEndsAtFirstMatch(answer: int, guesses: seq<int>, i: nat)
    requires i < |guesses| && guesses[i] == answer
    requires forall j :: 0 <= j < i ==> guesses[j] != answer
    ensures |Round(answer, guesses)| == i + 1
    ensures Round(answer, guesses)[i] == '='
    decreases i
  {
    if i > 0 {
      RoundEndsAtFirstMatch(answer, guesses[1..], i - 1);
    }
  }

  /** Provider returning 1, 3, 2 with answer 2: the round is `-`, `+`, `=`. */
  lemma LowHighCorrect()
    ensures Round(2, [1, 3, 2]) == ['-', '+', '=']
  {
  }
}
