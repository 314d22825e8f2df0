# Guess-the-number round, modelled in Dafny

This project models the core of a console number-guessing game. The game is one Python script with three parts:

- `prompt_for_guess(srange, erange)` prompts for a guess. It names the bounds, reads a line and returns its integer value. On a line that is not an integer it prints `Your guess must be an integer. Example: 42` and asks again by calling itself.
- `attempts(srange, erange, answer, prompt_callable)` is the round evaluator. This generator asks its guess provider for one guess at a time and passes the bounds on every call. It yields `'+'` for a guess above the answer and `'-'` for one below it. At the first guess equal to the answer it yields `'='` and stops.
- `start_game` consumes the hints of a round. It prints `Too high. Guess again.`, `Too low. Guess again.` or `You win! <answer> is correct!` for each hint and leaves the round at `'='`. Any other hint raises `NotImplementedError`.

Modules:

- `Wrappers`: `Option` and `Result`.
- `Decimal`: a decimal parser `ParseInt` stands in for Python's `int(text)`. `Show` stands in for an integer's rendering inside an f-string. The round trip `ParseInt(Show(n)) == Some(n)` is proved.
- `Prompt`: `PromptForGuess` is the retry rule, written as a recursive function over the input lines still to be read. It returns the guess, the number of lines read and the text written. `PromptAll` is a sequence of successive calls, and it is proved to return exactly the values of the parseable lines, in order.
- `Attempts`: `Round` is the hint sequence of one round, given the guesses the provider returns. `Attempts` is the generator's loop as a method. It records the arguments of every provider call and is proved to yield `Round`. Lemmas state the round's meaning:
  - every hint gives the direction of its guess;
  - `'='` appears exactly once and only last;
  - the round ends at the first correct guess;
  - later guesses are never requested.
- `Game`: `Message` maps one hint to its message or to the error. `PlayRound` is the consumer's loop, with its `break`. `RoundNeverRaises` proves that the `NotImplementedError` branch is unreachable for every hint sequence a round produces.

## Model

| member | source | states |
|---|---|---|
| `Decimal.ParseInt` | python-debugging-assessment/challenge_1.py:12 | an accepted line is non-empty; a line starting with `-` gives a non-positive value and any other accepted line a non-negative one |
| `Decimal.ParseIntAccepts` | python-debugging-assessment/challenge_1.py:12 | a line is accepted exactly when it is an optionally signed run of ASCII digits |
| `Decimal.ParseIntValue` | python-debugging-assessment/challenge_1.py:12 | every accepted line gives the integer whose rendering is the line without its `+` sign and leading zeros, so `+5` and `007` give 5 and `-0` gives 0 |
| `Decimal.ParseIntCanonical` | python-debugging-assessment/challenge_1.py:12 | a line with no `+` sign, no leading zero and no negative zero is exactly the rendering of the value it parses to |
| `Decimal.ShowNatDigits` | python-debugging-assessment/challenge_1.py:12 | the rendering of a natural number is a non-empty digit string without a leading zero whose decimal value is the number |
| `Decimal.Show` | python-debugging-assessment/challenge_1.py:12 | the rendering of an integer is never empty and starts with `-` exactly when the integer is negative |
| `Decimal.ParseShow` | python-debugging-assessment/challenge_1.py:48 | parsing the rendering of any integer gives that integer back |
| `Prompt.PromptNamesBounds` | python-debugging-assessment/challenge_1.py:12 | the prompt names both bounds: the lower bound follows a 23-character lead, the upper bound follows a 5-character separator after it, a 2-character tail ends the text, and each bound parses back from its place |
| `Prompt.PromptForGuess` | python-debugging-assessment/challenge_1.py:11-15 | the call returns nothing exactly when no remaining line parses; otherwise it returns the value of the first parseable line, having read every rejected line before it and nothing after it, and writes the transcript for that many rejections |
| `Prompt.TranscriptShape` | python-debugging-assessment/challenge_1.py:11-15 | the text written alternates prompt and error message, starting and ending with a prompt: exactly one error message per rejected line and one prompt per line read |
| `Prompt.PromptAllReadsEveryLine` | python-debugging-assessment/challenge_1.py:11-15 | successive prompts over the input return the values of the parseable lines in input order: none is skipped or read twice |
| `Prompt.RetryAfterInvalidLine` | python-debugging-assessment/challenge_1.py:80-82 | lines `invalid`, `4` with bounds 1 and 5 give 4 after reading both lines, writing one error message between two prompts |
| `Prompt.SuccessivePrompts` | python-debugging-assessment/challenge_1.py:74-77 | lines `1`, `2`, `3` with bounds 1 and 3: each of the three successive prompts reads one line and writes only its prompt, with no error, and they return 1, 2, 3 |
| `Attempts.Round` | python-debugging-assessment/challenge_1.py:30-37 | a round holds at most one hint per guess the provider returns |
| `Attempts.Attempts` | python-debugging-assessment/challenge_1.py:18-37 | the generator's loop yields exactly the round's hints; it makes one provider call per hint, and every call receives the bounds unchanged; no guess is range-checked |
| `Attempts.RoundHints` | python-debugging-assessment/challenge_1.py:30-37 | each hint is `'+'` exactly when its guess is above the answer, `'-'` exactly when below and `'='` exactly when equal; no guess before the last hint equals the answer; the round either uses every guess or ends at a correct guess |
| `Attempts.EqualsOnce` | python-debugging-assessment/challenge_1.py:30-37 | `'='` occurs exactly once in a round when some guess is the answer, and not at all otherwise |
| `Attempts.RoundEndsAtFirstMatch` | python-debugging-assessment/challenge_1.py:30-37 | when guess `i` is the first one equal to the answer, the round has exactly `i + 1` hints and hint `i` is `'='`, so it consumes `i + 1` guesses |
| `Attempts.LaterGuessesUnused` | python-debugging-assessment/challenge_1.py:30-37 | once some guess equals the answer, appending any further guesses leaves the round unchanged: they are never requested |
| `Attempts.LowHighCorrect` | python-debugging-assessment/challenge_1.py:84-87 | guesses 1, 3, 2 with answer 2 give hints `-`, `+`, `=` |
| `Game.Message` | python-debugging-assessment/challenge_1.py:47-55 | a hint has a message exactly when it is `'='`, `'+'` or `'-'`; for any other hint the NotImplementedError text is that hint followed by ` is not an expected result of function: attempts` |
| `Game.WinMessageRevealsAnswer` | python-debugging-assessment/challenge_1.py:48 | the victory message is `You win! `, the answer and ` is correct!`; the answer parses back from its place in the text |
| `Game.MessagesDistinct` | python-debugging-assessment/challenge_1.py:48-53 | the victory, too-high and too-low messages are pairwise different |
| `Game.MessageInjective` | python-debugging-assessment/challenge_1.py:47-53 | two expected hints with the same message are the same hint, so the printed output determines the hints |
| `Game.PlayRound` | python-debugging-assessment/challenge_1.py:46-55 | the consumer prints the message of each hint in order; it stops right after the first `'='` with `Won`, or at an unexpected hint with its error, or when the hints run out with no `'='` |
| `Game.RoundNeverRaises` | python-debugging-assessment/challenge_1.py:46-55 | on the hints of any round the consumer never raises; it prints one message per hint, and it wins with the victory message as its last message exactly when some guess was the answer |

## Left out

- The random draw of the answer (`random.randint`, challenge_1.py:44): the answer is a parameter.
- The three-round loop of `start_game` is left out. So are its fixed bounds 1 and 100 and the closing `Thanks for playing!` (challenge_1.py:42-43, 57). Each round is an independent repeat of the modelled round with a fresh answer.
- Console effects: input is a sequence of lines and output is a sequence of texts. The interleaving of prompt text with hint messages on the one console is not modelled: `PromptForGuess` and `PlayRound` each return their own output.
- Python's `int()` also accepts surrounding whitespace, underscores between digits and non-ASCII digits. `ParseInt` accepts only an optional sign followed by ASCII digits.
- ParseInt has no limit on length. Python 3.11 and later rejects a decimal string of more than 4300 digits with ValueError (`sys.int_max_str_digits`), so `prompt_for_guess` prints the error and asks again for such a line. The model accepts the line instead.
- Show has no limit on length. Python also refuses to render an integer of more than 4300 digits, so the f-string in the prompt or in the victory message would raise for such a bound or answer. `PromptText` and `WinMessage` render it.
- Running out of input: `input()` raises EOFError. `PromptForGuess` returns `None` there instead, and the text written before the failure is not kept.
- The recursion depth of the retry in `prompt_for_guess` (challenge_1.py:15) is not modelled. The model recurses once per remaining line, and input is finite.
- Attempts: when the provider runs out before a correct guess, the source's provider raises; the model ends the round there, and the round has no `'='`.
- Generator laziness is not modelled: a round is the finite sequence the generator yields. The consumer's `break` is the point after which the generator is never resumed.
- The `elif guess < answer` in `attempts` has no `else`. For integers it cannot fall through, because the loop runs only while the guess differs from the answer. `Round` therefore writes it as a plain `else`.
- The unittest and mock plumbing (challenge_1.py:65-91) is not modelled. The asserted values are the concrete lemmas `RetryAfterInvalidLine`, `SuccessivePrompts` and `LowHighCorrect`.
