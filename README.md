# Mastermind in Dafny

A verified model of the console game `Mastermind.java`. One player picks a secret code of four
colours and the other guesses it. The secret is chosen either by the computer at random or by
player 1 at the keyboard. The alphabet has six colours, compared ignoring case. After each guess
the game prints two numbers: the pegs of the right colour in the right position, and the pegs of
the right colour in the wrong position. The guesser wins when all four pegs are in position. The
game is lost when the chosen number of attempts is used up.

The modules follow the program's parts:

- `Colors` holds the constants `CODE_LENGTH` and `VALID_COLORS` and the case-insensitive colour
  comparison. It also holds `areValidColors` and `IsCode`, the acceptance test of `getValidCode`.
  `equalsIgnoreCase` is modelled as ASCII case folding (`Fold`). The model proves that this is
  an equivalence relation whose classes are the folded names.
- `Evaluate` holds `evaluateGuess`. The two passes keep the source's boolean `codeUsed` and
  `guessUsed` arrays, updated in place. They are proved against reference definitions that do not
  depend on the algorithm:
  - the exact count is the number of positions where guess and secret agree;
  - all matches are the size of the intersection of the two codes' colour multisets;
  - the colour-only count is the difference of the two.

  A closed form is also proved: the sum over the six colours of the smaller of the colour's two
  counts. The source's loops sit in separate methods: the first pass `MarkExactMatches`, the
  inner scan `ClaimFirstUnused` and the second pass `MarkColorOnlyMatches`. `EvaluateGuess`
  allocates the arrays and runs the two passes, as `evaluateGuess` does.
- `Input` holds the three retry loops `getChoice`, `getPositiveInteger` and `getValidCode`, plus
  `generateRandomCode`. It models them as loops over a finite sequence of input lines. Each
  loop returns the first acceptable line and where reading stopped.
- `Game` holds `main`: the set-up that reads the mode, the secret and the budget, the attempt
  loop, and the whole run. The attempt loop is proved against
  `Result`, a reference definition of its outcome. Lemmas state when `Result` is a win, a loss or
  the end of the input.
- `Scores` works three guesses through the reference definitions: repeated colours, a missing
  colour, and the reversed secret.

An input line is modelled as a `Line` with two fields:
- `number`: what `Integer.parseInt` makes of the whole line, or `None` where it throws
  `NumberFormatException`;
- `tokens`: what `trim().split("\\s+")` makes of the line.

The random draws of `generateRandomCode` are a parameter. Where `Scanner.nextLine` would throw
for lack of input, the model reports `None` or `InputEnded`.

## Model

| member | source | states |
|---|---|---|
| Colors.EqualsIgnoreCase | Mastermind.java:91 | `equalsIgnoreCase` holds exactly when the two tokens have the same length and the characters at every position are equal up to case |
| Colors.CharEqualsIgnoreCaseIsLowerEquality | Mastermind.java:91 | two characters are equal up to case (equal, equal upper-cased, or equal lower-cased) exactly when their lower-case forms are equal |
| Colors.EqualsIgnoreCaseIsFoldEquality | Mastermind.java:91 | two tokens are equal ignoring case exactly when their case-folded forms are equal |
| Colors.EqualsIgnoreCaseIsEquivalence | Mastermind.java:91 | the case-insensitive comparison is reflexive, symmetric and transitive |
| Colors.FoldedColorNames | Mastermind.java:8 | the six colour names fold to six pairwise distinct names: red, blue, green, yellow, orange, purple |
| Colors.ValidColorFolds | Mastermind.java:87-101 | a token names a colour exactly when its folded form is one of the six folded colour names |
| Colors.AreValidColors | Mastermind.java:87-101 | the answer is true exactly when every token equals some colour name ignoring case (so true for no tokens) |
| Colors.IsCodeFolds | Mastermind.java:73-81 | a line is accepted as a code exactly when it has four tokens and each folds to one of the six folded colour names |
| Evaluate.MarkExactMatches | Mastermind.java:110-116 | the count is the number of positions where guess and secret agree ignoring case; exactly those positions are marked on both sides; the marked secret pegs number the count |
| Evaluate.ExactMarksCount | Mastermind.java:110-116 | after the first pass has looked at `n` positions, the marked secret pegs are as many as the exact matches among them |
| Evaluate.ExactMarksLeaveCommon | Mastermind.java:110-116 | the exact matches plus the colours the unmarked pegs of both sides share are all the matches of the two codes |
| Evaluate.ExactMarksStep | Mastermind.java:110-116 | after `n` positions, the exact count plus the shared colours of the unmarked pegs equals the shared colours of the whole codes |
| Evaluate.ExactMarksNext | Mastermind.java:111-115 | looking at one more position marks it exactly when guess and secret agree there, and changes no other mark |
| Evaluate.ExactStep | Mastermind.java:111-115 | marking one exact match removes one shared colour from the unmarked pegs of both sides |
| Evaluate.ClaimFirstUnused | Mastermind.java:120-127 | when a claim is made, it is the first unmarked secret peg of the guess peg's colour, it was unmarked before, and only it becomes marked; with no claim, nothing changes and no unmarked secret peg has that colour |
| Evaluate.ClaimStep | Mastermind.java:121-125 | a guess peg that claims a secret peg of its colour uses up exactly one shared colour |
| Evaluate.NoClaimStep | Mastermind.java:119-127 | a guess peg whose colour no unmarked secret peg has leaves the shared colours unchanged |
| Evaluate.UnmarkedMark | Mastermind.java:114 | marking an unmarked peg removes exactly its colour from the unmarked pegs' colour multiset |
| Evaluate.CountTrueMark | Mastermind.java:114 | flipping one marker from false to true raises the number of marked pegs by exactly one |
| Evaluate.MarkColorOnlyMatches | Mastermind.java:118-128 | the colour-only count is the number of colours shared by the unmarked secret pegs and the unmarked guess pegs; the secret pegs marked grow by exactly that count; pegs marked before stay marked; guess markers are untouched |
| Evaluate.EvaluateGuess | Mastermind.java:103-131 | the first number is the count of exact positions; the two numbers sum to the size of the intersection of the two codes' colour multisets; their sum is at most the secret's length |
| Evaluate.ExactAtMostTotal | Mastermind.java:103-131 | exact matches never exceed all matches, so the colour-only count is never negative |
| Evaluate.ScoreBound | Mastermind.java:103-131 | exact plus colour-only matches are at most the number of secret pegs |
| Evaluate.ExactCountFull | Mastermind.java:110-116 | the exact count over `n` positions is `n` exactly when every one of them matches |
| Evaluate.ExactMatchesAllIffSameCode | Mastermind.java:44 | all pegs are exact exactly when the guess has the secret's colour at every position |
| Evaluate.SelfScore | Mastermind.java:103-131 | a code scored against itself has every peg exact and none colour-only |
| Evaluate.ExactCountSymmetric | Mastermind.java:110-116 | swapping secret and guess does not change the exact count |
| Evaluate.ScoreSymmetric | Mastermind.java:103-131 | for codes of equal length, both numbers are the same when secret and guess are swapped |
| Evaluate.ColorCountIsMultiplicity | Mastermind.java:118-128 | a code's number of pegs of a colour is that colour's multiplicity in the code's colour multiset |
| Evaluate.TotalMatchesIsSumOfMins | Mastermind.java:118-128 | for a secret of valid colours, all matches are the sum over the six colours of the smaller of the colour's counts in secret and guess |
| Scores.DuplicateColorsExample | Mastermind.java:103-131 | secret Red Red Blue Blue against guess Red Blue Red Blue scores 2 exact and 2 colour-only |
| Scores.AbsentColorExample | Mastermind.java:103-131 | secret Red Blue Green Yellow against four Orange pegs scores 0 and 0 |
| Scores.ReversedExample | Mastermind.java:103-131 | secret Red Blue Green Yellow against its reverse scores 0 exact and 4 colour-only |
| Input.GetChoice | Mastermind.java:133-145 | the value returned is the number on the line read last, within `[min, max]`; every earlier line read failed to parse or was out of range; with no such line, all lines were read and rejected |
| Input.GetPositiveInteger | Mastermind.java:147-159 | the value returned is the number on the line read last and is above zero; every earlier line read failed to parse or was not positive; with no such line, all lines were read and rejected |
| Input.GetValidCode | Mastermind.java:67-85 | the code returned is the tokens of the line read last and has four valid colours; every earlier line read was rejected; it is the first of the codes the lines hold and the rest remain unread; with none, the input holds no code |
| Input.AcceptedCodes | Mastermind.java:67-85 | the codes successive calls of `getValidCode` would return from a list of lines: each has four tokens, and there are no more of them than lines |
| Input.AcceptedCodesAreCodes | Mastermind.java:73-83 | every code `getValidCode` can return has exactly four tokens, each naming a colour |
| Input.WrongLengthRejected | Mastermind.java:73-76 | a line with the wrong number of tokens (three colours, say) never yields a code |
| Input.GenerateRandomCode | Mastermind.java:58-65 | the code has four pegs; peg `i` is the colour at index `draws[i]` of the alphabet; the code passes `getValidCode`'s test |
| Game.ResultWon | Mastermind.java:36-47 | the game is won at attempt `k` exactly when `k` is within the budget and the guesses, guess `k` has every peg in place, and no earlier guess does |
| Game.ResultLost | Mastermind.java:36-50 | the game is lost exactly when the budget's worth of guesses is read and none of them cracks the secret |
| Game.ResultInputEnded | Mastermind.java:36-48 | the input ends first exactly when there are fewer guesses than the budget and none cracks the secret |
| Game.ResultStep | Mastermind.java:36-47 | with an attempt and a guess left, that guess wins at once or leaves the outcome to the next attempt |
| Game.ResultEnds | Mastermind.java:36 | with the budget spent the game is lost; with attempts but no guess left, the input has ended |
| Game.SingleAttempt | Mastermind.java:36-50 | with a budget of one, a correct first guess wins at attempt 1 and any other first guess loses |
| Game.Score | Mastermind.java:40-44 | the feedback of a guess never counts more matches than the secret has pegs, and its first number is the secret's length exactly when the guess has every colour in place |
| Game.ScoresAt | Mastermind.java:40-42 | feedback line `k` is the score of guess `k` |
| Game.ScoresSnoc | Mastermind.java:40-42 | reading one more guess adds its score as one more feedback line |
| Game.NextGuess | Mastermind.java:38 | the guess read by an attempt is the next code of the input and the codes after it remain |
| Game.PlayAttempt | Mastermind.java:37-42 | the guess read is the next code of the input, four tokens long, and its feedback is its score; the first number is four exactly when the guess has every peg in place; with none, the input holds no code |
| Game.PlayAttempts | Mastermind.java:36-48 | the outcome is the one `Result` gives for the codes the input holds; exactly the guesses up to the outcome are read, each reported with its score; the codes after them remain unread |
| Game.ReportedFeedback | Mastermind.java:40-47 | only the last feedback line, and only in a won game, shows all pegs exact; no line counts more matches than the secret has pegs; a won game ends within the budget; a lost one uses the whole budget |
| Game.SetUp | Mastermind.java:19-30 | the mode is the first line holding 1 or 2, every earlier line rejected; mode 1 draws the secret from `draws` and reads no line for it; mode 2 takes the first code after the mode line, the lines between rejected; the budget is the first positive line after that, the lines between rejected; each phase runs only when the one before succeeded |
| Game.RunGame | Mastermind.java:19-48 | the set-up reads the lines as `SetUp` states; the outcome is what `Result` gives for the secret, the budget and the codes after the budget line; the feedback is the scores of exactly the guesses played; at most the budget of lines is reported, all of it when the game is lost; only a winning game's last line shows all pegs exact |
| Game.Increment | Mastermind.java:36 | `attempt++` on an `int` is the successor reduced to the range of `int` modulo 2^32 |
| Game.AttemptAsWritten | Mastermind.java:36 | the counter as written, before its `n + 1`-th guard, is `n + 1` reduced to the range of `int` modulo 2^32 |
| Game.AttemptAsWrittenCounts | Mastermind.java:36 | below the `int` wrap-around, Java's counter `attempt` holds the attempt number |
| Game.GuardAsWrittenBelowWrap | Mastermind.java:36 | below the wrap-around, the guard `attempt <= maxAttempts` lets an attempt start exactly when the budget allows it |
| Game.AttemptCounterWraps | Mastermind.java:36 | with `maxAttempts` at `Integer.MAX_VALUE`, the counter wraps to `Integer.MIN_VALUE` after the last allowed attempt and still passes the guard |

## Left out

- Console output, prompts and messages (lines 13-17, 24, 29-34, 37, 45, 50, 69, 74, 79, 140,
  142, 154, 156) are not modelled. So `getValidCode`'s `prompt` parameter, which is only
  printed, is dropped from `GetValidCode`. The two numbers printed per guess are the `Feedback` sequence.
- The reveal of the secret after a loss (lines 51-55) only prints and is not modelled.
- `Integer.parseInt` and `trim().split("\\s+")` are library calls. Their results are the given
  fields of `Line`.
- `java.util.Random` is left out. Its four results are the parameter `draws`, each in `[0, 6)`
  as `nextInt(6)` promises.
- `Scanner.nextLine` on exhausted input throws `NoSuchElementException`. The model ends the
  loop instead and reports `None` or `InputEnded`.
- `equalsIgnoreCase` is folded for ASCII only. Java also equates a few non-ASCII letters with
  `i`, `k` and `s`, and no colour name contains those letters. So the two agree on everything
  `getValidCode` accepts, which are the only tokens ever scored.
- The retry loops of Java never end without acceptable input. The model reads a finite sequence
  of lines instead.
- Evaluate.EvaluateGuess: requires the guess to be at least as long as the secret. Java would
  throw `ArrayIndexOutOfBoundsException` otherwise, and every call passes two four-peg codes.
- Game.PlayAttempts: counts attempts with an unbounded integer, which is the corrected
  behaviour. Java's `int` counter is modelled separately by `AttemptAsWritten` (see Findings).

## Findings

The attempt loop is meant to end after at most `maxAttempts` guesses, since the budget is a
finite positive number. At one budget it does not:

| source | as written | input that shows it | evidently intended | confidence | as-written member | corrected member |
|---|---|---|---|---|---|---|
| Mastermind.java:36 | `attempt` is a Java `int`; after attempt `Integer.MAX_VALUE`, `attempt++` wraps to `Integer.MIN_VALUE`, which still satisfies `attempt <= maxAttempts` | a budget of 2147483647 followed by 2147483647 wrong guesses: a further guess is read instead of "Game Over" | the game is lost after exactly `maxAttempts` wrong guesses | not executed; follows from Java `int` arithmetic | Game.AttemptCounterWraps | Game.PlayAttempts |
