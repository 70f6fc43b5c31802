/**
 * The game itself (`main`): choose the mode, obtain the secret, ask for the
 * number of attempts, then score guesses until one has every colour in
 * place or the attempts are used up.
 */
module Game {
  import opened Wrappers
  import opened Colors
  import opened Evaluate
  import opened Input

  /** How a game ends: cracked at an attempt, out of attempts, or out of input lines. */
  datatype Outcome = Won(attempt: nat) | Lost | InputEnded

  /** The two numbers printed after each guess. */
  datatype Feedback = Feedback(exact: nat, colorOnly: nat)

  /** The number of attempts `maxAttempts` allows: none when it is not positive. */
  function Budget(maxAttempts: int32): nat
  {
    if maxAttempts <= 0 then 0 else maxAttempts as nat
  }

  /**
   * The feedback the reference definitions give for a guess: never more
   * matches than the secret has pegs, and every peg exact exactly when the
   * guess has the secret's colours in place.
   */
  function Score(secret: seq<string>, guess: seq<string>): (r: Feedback)
    requires |secret| <= |guess|
    ensures r.exact + r.colorOnly <= |secret|
    ensures r.exact == |secret| <==> SameCode(secret, guess)
  {
    ScoreBound(secret, guess);
    ExactMatchesAllIffSameCode(secret, guess);
    Feedback(ExactMatches(secret, guess), ColorOnlyMatches(secret, guess))
  }

  /** Every guess can be scored against the secret. */
  predicate Scorable(secret: seq<string>, guesses: seq<seq<string>>)
  {
    forall k :: 0 <= k < |guesses| ==> |secret| <= |guesses[k]|
  }

  /**
   * The outcome the rules of the attempt loop give once `i` attempts have
   * failed: lost when the budget is spent, input ended when no guess is left,
   * won at attempt `i + 1` when guess `i` has the secret's colours in place,
   * and otherwise the outcome of the remaining attempts.
   */
  function Result(secret: seq<string>, guesses: seq<seq<string>>, budget: nat, i: nat): Outcome
    requires Scorable(secret, guesses)
    decreases budget - i
  {
    if budget <= i then Lost
    else if |guesses| <= i then InputEnded
    else if SameCode(secret, guesses[i]) then Won(i + 1)
    else Result(secret, guesses, budget, i + 1)
  }

  /** The feedback lines for a list of guesses, in order. */
  function Scores(secret: seq<string>, guesses: seq<seq<string>>): (r: seq<Feedback>)
    requires Scorable(secret, guesses)
    ensures |r| == |guesses|
  {
    if guesses == [] then []
    else Scores(secret, guesses[..|guesses| - 1]) + [Score(secret, guesses[|guesses| - 1])]
  }

  /** Feedback line `k` is the score of guess `k`. */
  lemma {:induction false} ScoresAt(secret: seq<string>, guesses: seq<seq<string>>, k: nat)
    requires Scorable(secret, guesses) && k < |guesses|
    ensures Scores(secret, guesses)[k] == Score(secret, guesses[k])
  {
    if k < |guesses| - 1 {
      ScoresAt(secret, guesses[..|guesses| - 1], k);
    }
  }

  /** One more guess read: one more feedback line. */
  lemma ScoresSnoc(secret: seq<string>, guesses: seq<seq<string>>, n: nat)
    requires Scorable(secret, guesses) && n < |guesses|
    ensures Scores(secret, guesses[..n + 1]) == Scores(secret, guesses[..n]) + [Score(secret, guesses[n])]
  {
    assert guesses[..n + 1][..n] == guesses[..n];
  }

  /** The number of guesses read before the outcome. */
  function Played(outcome: Outcome, guesses: seq<seq<string>>, budget: nat): nat
  {
    match outcome
    case Won(k) => k
    case Lost => budget
    case InputEnded => |guesses|
  }

  /**
   * The game is won at attempt `k` exactly when `k` is within the budget and
   * the guesses, guess `k` cracks the secret and no earlier guess from `i` on does.
   */
  lemma {:induction false} ResultWon(secret: seq<string>, guesses: seq<seq<string>>, budget: nat, i: nat, k: nat)
    requires Scorable(secret, guesses)
    ensures Result(secret, guesses, budget, i) == Won(k)
            <==> i < k <= budget && k <= |guesses| && SameCode(secret, guesses[k - 1])
                 && forall j :: i <= j < k - 1 ==> !SameCode(secret, guesses[j])
    decreases budget - i
  {
    if i < budget && i < |guesses| && !SameCode(secret, guesses[i]) {
      ResultWon(secret, guesses, budget, i + 1, k);
    }
  }

  /** The game is lost exactly when every guess the budget allows is read and none cracks the secret. */
  lemma {:induction false} ResultLost(secret: seq<string>, guesses: seq<seq<string>>, budget: nat, i: nat)
    requires Scorable(secret, guesses) && i <= budget && i <= |guesses|
    ensures Result(secret, guesses, budget, i) == Lost
            <==> budget <= |guesses| && forall j :: i <= j < budget ==> !SameCode(secret, guesses[j])
    decreases budget - i
  {
    if i < budget && i < |guesses| && !SameCode(secret, guesses[i]) {
      ResultLost(secret, guesses, budget, i + 1);
    }
  }

  /** The input ends first exactly when there are fewer guesses than the budget and none cracks the secret. */
  lemma {:induction false} ResultInputEnded(secret: seq<string>, guesses: seq<seq<string>>, budget: nat, i: nat)
    requires Scorable(secret, guesses) && i <= |guesses|
    ensures Result(secret, guesses, budget, i) == InputEnded
            <==> |guesses| < budget && forall j :: i <= j < |guesses| ==> !SameCode(secret, guesses[j])
    decreases budget - i
  {
    if i < budget && i < |guesses| && !SameCode(secret, guesses[i]) {
      ResultInputEnded(secret, guesses, budget, i + 1);
    }
  }

  /** With a budget of one attempt, a correct first guess wins and any other first guess loses. */
  lemma SingleAttempt(secret: seq<string>, guesses: seq<seq<string>>)
    requires Scorable(secret, guesses) && 1 <= |guesses|
    ensures SameCode(secret, guesses[0]) ==> Result(secret, guesses, 1, 0) == Won(1)
    ensures !SameCode(secret, guesses[0]) ==> Result(secret, guesses, 1, 0) == Lost
  {
  }

  /**
   * One pass of the body of `main`'s `for` loop: read a guess with
   * `getValidCode` and score it with `evaluateGuess`. `after` is the position
   * after the guess's line; `None` when the lines run out first.
   */
  method PlayAttempt(secret: seq<string>, input: seq<Line>, next: nat)
    returns (guess: Option<seq<string>>, f: Feedback, after: nat)
    requires |secret| == CODE_LENGTH && next <= |input|
    ensures next <= after <= |input|
    ensures guess.None? ==> AcceptedCodes(input[next..]) == [] && after == |input|
    ensures guess.Some? ==> AcceptedCodes(input[next..]) == [guess.value] + AcceptedCodes(input[after..])
    ensures guess.Some? ==> |guess.value| == CODE_LENGTH
    ensures guess.Some? ==> f == Score(secret, guess.value)
    ensures guess.Some? ==> (f.exact == |secret| <==> SameCode(secret, guess.value))
  {
    f := Feedback(0, 0);
    guess, after := GetValidCode(input, next);
    if guess.Some? {
      var exact, colorOnly := EvaluateGuess(secret, guess.value);
      ExactMatchesAllIffSameCode(secret, guess.value);
      f := Feedback(exact, colorOnly);
    }
  }

  /**
   * The `for` loop of `main`: for attempts `1..maxAttempts`,
   * read a guess with `getValidCode`, score it, and stop with a win when all
   * of its pegs are exact. With `G` the codes the input holds from `pos` on,
   * the outcome is the one the rules give for `G`, exactly the guesses up to
   * the outcome are read, each with its score, and the lines after the last
   * of them are left unread. The attempt counter is an unbounded integer.
   */
  method PlayAttempts(secret: seq<string>, maxAttempts: int32, input: seq<Line>, pos: nat)
    returns (outcome: Outcome, feedback: seq<Feedback>, next: nat)
    requires |secret| == CODE_LENGTH && pos <= |input|
    ensures Scorable(secret, AcceptedCodes(input[pos..]))
    ensures outcome == Result(secret, AcceptedCodes(input[pos..]), Budget(maxAttempts), 0)
    ensures |feedback| == Played(outcome, AcceptedCodes(input[pos..]), Budget(maxAttempts))
    ensures |feedback| <= |AcceptedCodes(input[pos..])|
    ensures feedback == Scores(secret, AcceptedCodes(input[pos..])[..|feedback|])
    ensures pos <= next <= |input|
    ensures AcceptedCodes(input[next..]) == AcceptedCodes(input[pos..])[|feedback|..]
    ensures outcome.InputEnded? ==> next == |input|
  {
    ghost var guesses := AcceptedCodes(input[pos..]);
    ghost var budget := Budget(maxAttempts);
    feedback := [];
    next := pos;
    var attempt: int := 1;
    while attempt <= maxAttempts as int
      invariant 1 <= attempt && |feedback| == attempt - 1 <= budget
      invariant pos <= next <= |input| && |feedback| <= |guesses|
      invariant AcceptedCodes(input[next..]) == guesses[|feedback|..]
      invariant feedback == Scores(secret, guesses[..|feedback|])
      invariant Result(secret, guesses, budget, 0) == Result(secret, guesses, budget, |feedback|)
      decreases maxAttempts as int - attempt
    {
      var guess, f, after := PlayAttempt(secret, input, next);
      if guess.None? {
        assert |feedback| == |guesses|;
        ResultEnds(secret, guesses, budget, |feedback|);
        return InputEnded, feedback, after;
      }
      NextGuess(guesses, |feedback|, guess.value, AcceptedCodes(input[after..]));
      ScoresSnoc(secret, guesses, |feedback|);
      ResultStep(secret, guesses, budget, |feedback|);
      next := after;
      feedback := feedback + [f];
      if f.exact == CODE_LENGTH {
        return Won(attempt), feedback, next;
      }
      attempt := attempt + 1;
    }
    ResultEnds(secret, guesses, budget, |feedback|);
    return Lost, feedback, next;
  }

  /** One attempt of the rules: guess `n` either cracks the secret or leaves the outcome to the rest. */
  lemma ResultStep(secret: seq<string>, guesses: seq<seq<string>>, budget: nat, n: nat)
    requires Scorable(secret, guesses) && n < budget && n < |guesses|
    ensures Result(secret, guesses, budget, n)
            == if SameCode(secret, guesses[n]) then Won(n + 1) else Result(secret, guesses, budget, n + 1)
  {
  }

  /** No attempt left, or no guess left: the outcome is decided without looking further. */
  lemma ResultEnds(secret: seq<string>, guesses: seq<seq<string>>, budget: nat, n: nat)
    requires Scorable(secret, guesses)
    ensures budget <= n ==> Result(secret, guesses, budget, n) == Lost
    ensures n < budget && |guesses| <= n ==> Result(secret, guesses, budget, n) == InputEnded
  {
  }

  /** The guess read next is the next code of the list, and the rest follows it. */
  lemma NextGuess(guesses: seq<seq<string>>, n: nat, code: seq<string>, rest: seq<seq<string>>)
    requires n <= |guesses| && guesses[n..] == [code] + rest
    ensures n < |guesses| && guesses[n] == code && guesses[n + 1..] == rest
  {
  }

  /**
   * What the player sees: the last feedback line shows all pegs exact exactly
   * when the game is won, no earlier one does, and no feedback counts more
   * matches than the secret has pegs.
   */
  lemma ReportedFeedback(secret: seq<string>, guesses: seq<seq<string>>, budget: nat, outcome: Outcome, feedback: seq<Feedback>)
    requires Scorable(secret, guesses)
    requires outcome == Result(secret, guesses, budget, 0)
    requires |feedback| == Played(outcome, guesses, budget) <= |guesses|
    requires feedback == Scores(secret, guesses[..|feedback|])
    ensures forall k :: 0 <= k < |feedback| ==>
              (feedback[k].exact == |secret| <==> outcome.Won? && k == |feedback| - 1)
    ensures forall k :: 0 <= k < |feedback| ==> feedback[k].exact + feedback[k].colorOnly <= |secret|
    ensures |feedback| <= budget
    ensures outcome.Won? ==> 1 <= outcome.attempt <= budget
    ensures outcome.Lost? ==> |feedback| == budget
  {
    match outcome {
      case Won(w) => ResultWon(secret, guesses, budget, 0, w);
      case Lost => ResultLost(secret, guesses, budget, 0);
      case InputEnded => ResultInputEnded(secret, guesses, budget, 0);
    }
    forall k | 0 <= k < |feedback|
      ensures feedback[k].exact == |secret| <==> SameCode(secret, guesses[k])
      ensures feedback[k].exact + feedback[k].colorOnly <= |secret|
    {
      ScoresAt(secret, guesses[..|feedback|], k);
      ExactMatchesAllIffSameCode(secret, guesses[k]);
      ScoreBound(secret, guesses[k]);
    }
  }

  /**
   * What the set-up of `main` reads before its `for` loop, given where each
   * phase starts reading: the mode is the first line holding 1 or 2; mode 1
   * draws the secret and reads nothing for it; mode 2 takes the first code
   * after the mode line; the budget is the first positive line after the
   * secret. Each phase is reached only when the one before it succeeded.
   */
  ghost predicate SetUpReads(input: seq<Line>, draws: seq<nat>, mode: Option<int32>,
                             secret: Option<seq<string>>, maxAttempts: Option<int32>,
                             secretFrom: nat, budgetFrom: nat, guessesFrom: nat)
    requires |draws| == CODE_LENGTH && forall i :: 0 <= i < |draws| ==> draws[i] < |VALID_COLORS|
  {
    && secretFrom <= budgetFrom <= guessesFrom <= |input|
    // the mode
    && (mode.Some? ==> 0 < secretFrom && input[secretFrom - 1].number == mode && InRange(input[secretFrom - 1], 1, 2))
    && (mode.Some? ==> forall k :: 0 <= k < secretFrom - 1 ==> !InRange(input[k], 1, 2))
    && (mode.None? ==> secret.None? && forall k :: 0 <= k < |input| ==> !InRange(input[k], 1, 2))
    // the secret
    && (secret.Some? ==> mode.Some? && IsCode(secret.value))
    && (mode == Some(1) ==> secret.Some? && budgetFrom == secretFrom)
    && (mode == Some(1) ==> forall i :: 0 <= i < CODE_LENGTH ==> secret.value[i] == VALID_COLORS[draws[i]])
    && (mode == Some(2) ==> (secret.Some? <==> AcceptedCodes(input[secretFrom..]) != []))
    && (mode == Some(2) && secret.Some? ==>
          && secretFrom < budgetFrom && input[budgetFrom - 1].tokens == secret.value
          && (forall k :: secretFrom <= k < budgetFrom - 1 ==> !IsCode(input[k].tokens))
          && AcceptedCodes(input[secretFrom..]) == [secret.value] + AcceptedCodes(input[budgetFrom..]))
    // the budget
    && (maxAttempts.Some? ==>
          && secret.Some? && budgetFrom < guessesFrom
          && input[guessesFrom - 1].number == maxAttempts && IsPositive(input[guessesFrom - 1])
          && (forall k :: budgetFrom <= k < guessesFrom - 1 ==> !IsPositive(input[k])))
    && (secret.Some? && maxAttempts.None? ==> forall k :: budgetFrom <= k < |input| ==> !IsPositive(input[k]))
  }

  /**
   * The set-up of `main`: the mode is read with `getChoice(1, 2)`; mode 1
   * draws the secret with `generateRandomCode`, mode 2 reads it with
   * `getValidCode`; the budget is read with `getPositiveInteger`. The ghost
   * outputs are where the secret and the budget start being read; `next`
   * is where the guesses start.
   */
  method SetUp(input: seq<Line>, draws: seq<nat>)
    returns (mode: Option<int32>, secret: Option<seq<string>>, maxAttempts: Option<int32>,
             ghost secretFrom: nat, ghost budgetFrom: nat, next: nat)
    requires |draws| == CODE_LENGTH && forall i :: 0 <= i < |draws| ==> draws[i] < |VALID_COLORS|
    ensures SetUpReads(input, draws, mode, secret, maxAttempts, secretFrom, budgetFrom, next)
    ensures next <= |input|
    ensures mode.Some? ==> mode.value == 1 || mode.value == 2
    ensures secret.Some? ==> mode.Some? && IsCode(secret.value)
    ensures mode == Some(1) ==> secret.Some? && forall i :: 0 <= i < CODE_LENGTH ==> secret.value[i] == VALID_COLORS[draws[i]]
    ensures maxAttempts.Some? ==> secret.Some? && 0 < next && input[next - 1].number == maxAttempts && maxAttempts.value > 0
  {
    secret, maxAttempts := None, None;
    mode, next := GetChoice(input, 0, 1, 2);
    secretFrom, budgetFrom := next, next;
    if mode.None? {
      return;
    }
    if mode.value == 1 {
      var code := GenerateRandomCode(draws);
      secret := Some(code);
    } else {
      secret, next := GetValidCode(input, next);
      budgetFrom := next;
      if secret.None? {
        return;
      }
    }
    maxAttempts, next := GetPositiveInteger(input, next);
  }

  /**
   * The whole of `main`: the set-up, then the attempts played on the lines
   * after the budget line. `draws` are the random numbers mode 1 would draw.
   * The ghost outputs are where each phase starts reading: the secret
   * (mode 2), the budget, and the guesses.
   */
  method RunGame(input: seq<Line>, draws: seq<nat>)
    returns (mode: Option<int32>, secret: Option<seq<string>>, maxAttempts: Option<int32>,
             outcome: Outcome, feedback: seq<Feedback>,
             ghost secretFrom: nat, ghost budgetFrom: nat, ghost guessesFrom: nat)
    requires |draws| == CODE_LENGTH && forall i :: 0 <= i < |draws| ==> draws[i] < |VALID_COLORS|
    ensures SetUpReads(input, draws, mode, secret, maxAttempts, secretFrom, budgetFrom, guessesFrom)
    ensures secret.Some? ==> |secret.value| == CODE_LENGTH
    // The attempts follow the rules on the codes after the budget line.
    ensures maxAttempts.None? ==> outcome.InputEnded? && feedback == []
    ensures maxAttempts.Some? ==> secret.Some? && Scorable(secret.value, AcceptedCodes(input[guessesFrom..]))
    ensures maxAttempts.Some? ==>
              outcome == Result(secret.value, AcceptedCodes(input[guessesFrom..]), Budget(maxAttempts.value), 0)
    ensures maxAttempts.Some? ==>
              |feedback| == Played(outcome, AcceptedCodes(input[guessesFrom..]), Budget(maxAttempts.value))
              <= |AcceptedCodes(input[guessesFrom..])|
    ensures maxAttempts.Some? ==> feedback == Scores(secret.value, AcceptedCodes(input[guessesFrom..])[..|feedback|])
    // What the player sees.
    ensures maxAttempts.Some? ==> |feedback| <= maxAttempts.value as int
    ensures outcome.Lost? ==> maxAttempts.Some? && |feedback| == maxAttempts.value as int
    ensures outcome.Won? ==> maxAttempts.Some? && 1 <= outcome.attempt == |feedback|
    ensures forall k :: 0 <= k < |feedback| ==>
              (feedback[k].exact == CODE_LENGTH <==> outcome.Won? && k == |feedback| - 1)
    ensures forall k :: 0 <= k < |feedback| ==> feedback[k].exact + feedback[k].colorOnly <= CODE_LENGTH
  {
    outcome, feedback := InputEnded, [];
    var pos;
    mode, secret, maxAttempts, secretFrom, budgetFrom, pos := SetUp(input, draws);
    guessesFrom := pos;
    if maxAttempts.None? {
      return;
    }
    var next;
    outcome, feedback, next := PlayAttempts(secret.value, maxAttempts.value, input, pos);
    ReportedFeedback(secret.value, AcceptedCodes(input[pos..]), Budget(maxAttempts.value), outcome, feedback);
  }

  // ---------------------------------------------------------------------------
  // The attempt counter as written: Java `int` arithmetic
  // ---------------------------------------------------------------------------

  /** Two's-complement reduction of an integer to Java's `int` range. */
  function Wrap32(x: int): int
  {
    (x - INT32_MIN as int) % 0x1_0000_0000 + INT32_MIN as int
  }

  /** `attempt++` on a Java `int`: the successor reduced modulo 2^32, so the largest value wraps to the smallest. */
  function Increment(a: int32): (r: int32)
    ensures r as int == Wrap32(a as int + 1)
  {
    if a == INT32_MAX then INT32_MIN else a + 1
  }

  /**
   * The value of `attempt` when the loop guard is evaluated for the `n + 1`-th
   * time, as written: `n + 1` reduced to Java's `int` range.
   */
  function AttemptAsWritten(n: nat): (r: int32)
    ensures r as int == Wrap32(n + 1)
  {
    if n == 0 then 1 else Increment(AttemptAsWritten(n - 1))
  }

  /** Below the wrap-around the counter holds the attempt number. */
  lemma {:induction false} AttemptAsWrittenCounts(n: nat)
    requires n < INT32_MAX as int
    ensures AttemptAsWritten(n) as int == n + 1
  {
    if n > 0 {
      AttemptAsWrittenCounts(n - 1);
    }
  }

  /**
   * Before the wrap-around, the guard as written (`attempt <= maxAttempts`)
   * lets iteration `n + 1` run exactly when the budget allows it.
   */
  lemma GuardAsWrittenBelowWrap(n: nat, maxAttempts: int32)
    requires n < INT32_MAX as int
    ensures AttemptAsWritten(n) <= maxAttempts <==> n < Budget(maxAttempts)
  {
    AttemptAsWrittenCounts(n);
  }

  /**
   * With `maxAttempts == Integer.MAX_VALUE`, after the last allowed attempt
   * the counter wraps to `Integer.MIN_VALUE`, the guard still holds, and the
   * loop reads an attempt beyond the budget: the game is never lost.
   */
  lemma AttemptCounterWraps()
    ensures AttemptAsWritten(INT32_MAX as nat) == INT32_MIN
    ensures AttemptAsWritten(INT32_MAX as nat) <= INT32_MAX
    ensures INT32_MAX as nat == Budget(INT32_MAX)
  {
    AttemptAsWrittenCounts(INT32_MAX as nat - 1);
  }
}
