/**
 * The console-reading helpers of Mastermind (`getChoice`, `getPositiveInteger`,
 * `getValidCode`) and the secret generator (`generateRandomCode`).
 *
 * The console is a finite sequence of lines read from a position onwards.
 * Each line is given as what the program derives from it: the outcome of
 * `Integer.parseInt` on the raw line (`None` when it throws
 * `NumberFormatException`) and the tokens of `trim().split("\\s+")`.
 * Java's retry loops run until a line is accepted; here they also stop when
 * the lines run out, which is where `Scanner.nextLine` would throw.
 */
module Input {
  import opened Wrappers
  import opened Colors

  /** Java's `int`. */
  newtype int32 = x: int | -0x8000_0000 <= x < 0x8000_0000

  const INT32_MIN: int32 := -0x8000_0000
  const INT32_MAX: int32 := 0x7fff_ffff

  /** One console line: its value as an `int`, if it parses as one, and its tokens. */
  datatype Line = Line(number: Option<int32>, tokens: seq<string>)

  /** The acceptance test of `getChoice`: a number in `[min, max]`. */
  predicate InRange(line: Line, min: int32, max: int32)
  {
    line.number.Some? && min <= line.number.value <= max
  }

  /** The acceptance test of `getPositiveInteger`: a number above zero. */
  predicate IsPositive(line: Line)
  {
    line.number.Some? && line.number.value > 0
  }

  /**
   * `getChoice`: read lines until one holds a number in `[min, max]`; a line
   * that does not parse or is out of range is skipped. `next` is the position
   * after the last line read.
   */
  method GetChoice(input: seq<Line>, pos: nat, min: int32, max: int32) returns (choice: Option<int32>, next: nat)
    requires pos <= |input|
    ensures pos <= next <= |input|
    ensures choice.Some? ==> pos < next && input[next - 1].number == choice && min <= choice.value <= max
    ensures choice.Some? ==> forall k :: pos <= k < next - 1 ==> !InRange(input[k], min, max)
    ensures choice.None? ==> next == |input| && forall k :: pos <= k < |input| ==> !InRange(input[k], min, max)
  {
    next := pos;
    while next < |input|
      invariant pos <= next <= |input|
      invariant forall k :: pos <= k < next ==> !InRange(input[k], min, max)
    {
      var line := input[next];
      next := next + 1;
      if line.number.Some? {
        var value := line.number.value;
        if value >= min && value <= max {
          return Some(value), next;
        }
      }
    }
    return None, next;
  }

  /**
   * `getPositiveInteger`: read lines until one holds a number above zero; a
   * line that does not parse or is not positive is skipped.
   */
  method GetPositiveInteger(input: seq<Line>, pos: nat) returns (value: Option<int32>, next: nat)
    requires pos <= |input|
    ensures pos <= next <= |input|
    ensures value.Some? ==> pos < next && input[next - 1].number == value && value.value > 0
    ensures value.Some? ==> forall k :: pos <= k < next - 1 ==> !IsPositive(input[k])
    ensures value.None? ==> next == |input| && forall k :: pos <= k < |input| ==> !IsPositive(input[k])
  {
    next := pos;
    while next < |input|
      invariant pos <= next <= |input|
      invariant forall k :: pos <= k < next ==> !IsPositive(input[k])
    {
      var line := input[next];
      next := next + 1;
      if line.number.Some? && line.number.value > 0 {
        return line.number, next;
      }
    }
    return None, next;
  }

  /** The codes `getValidCode` would accept from these lines, in order: the lines holding a code. */
  function AcceptedCodes(lines: seq<Line>): (r: seq<seq<string>>)
    ensures forall k :: 0 <= k < |r| ==> |r[k]| == CODE_LENGTH
    ensures |r| <= |lines|
  {
    if lines == [] then []
    else (if IsCode(lines[0].tokens) then [lines[0].tokens] else []) + AcceptedCodes(lines[1..])
  }

  /** Every code `getValidCode` can accept has four tokens, each naming a colour. */
  lemma {:induction false} AcceptedCodesAreCodes(lines: seq<Line>)
    ensures forall k :: 0 <= k < |AcceptedCodes(lines)| ==> IsCode(AcceptedCodes(lines)[k])
  {
    if lines != [] {
      AcceptedCodesAreCodes(lines[1..]);
    }
  }

  /** Unfolding `AcceptedCodes` at position `k` of a longer input. */
  lemma AcceptedCodesAt(input: seq<Line>, k: nat)
    requires k < |input|
    ensures AcceptedCodes(input[k..])
            == (if IsCode(input[k].tokens) then [input[k].tokens] else []) + AcceptedCodes(input[k + 1..])
  {
  }

  /**
   * `getValidCode`: read lines until one splits into exactly `CODE_LENGTH`
   * tokens that are all valid colours; a line of the wrong length is
   * skipped before its colours are looked at.
   */
  method GetValidCode(input: seq<Line>, pos: nat) returns (code: Option<seq<string>>, next: nat)
    requires pos <= |input|
    ensures pos <= next <= |input|
    ensures code.Some? ==> pos < next && code.value == input[next - 1].tokens && IsCode(code.value)
    ensures code.Some? ==> forall k :: pos <= k < next - 1 ==> !IsCode(input[k].tokens)
    ensures code.Some? ==> AcceptedCodes(input[pos..]) == [code.value] + AcceptedCodes(input[next..])
    ensures code.None? ==> next == |input| && forall k :: pos <= k < |input| ==> !IsCode(input[k].tokens)
    ensures code.None? ==> AcceptedCodes(input[pos..]) == []
  {
    next := pos;
    while next < |input|
      invariant pos <= next <= |input|
      invariant forall k :: pos <= k < next ==> !IsCode(input[k].tokens)
      invariant AcceptedCodes(input[pos..]) == AcceptedCodes(input[next..])
    {
      var tokens := input[next].tokens;
      AcceptedCodesAt(input, next);
      next := next + 1;
      if |tokens| != CODE_LENGTH {
        continue;
      }
      var ok := AreValidColors(tokens);
      if !ok {
        continue;
      }
      return Some(tokens), next;
    }
    assert input[next..] == [];
    return None, next;
  }

  /**
   * `generateRandomCode`: fill a code of `CODE_LENGTH` pegs, peg `i` being
   * the colour at index `draws[i]` of the alphabet. The draws stand for the
   * successive results of `random.nextInt(VALID_COLORS.length)`, each in
   * `[0, 6)` as `Random.nextInt` guarantees.
   */
  method GenerateRandomCode(draws: seq<nat>) returns (code: seq<string>)
    requires |draws| == CODE_LENGTH
    requires forall i :: 0 <= i < |draws| ==> draws[i] < |VALID_COLORS|
    ensures |code| == CODE_LENGTH
    ensures forall i :: 0 <= i < CODE_LENGTH ==> code[i] == VALID_COLORS[draws[i]]
    ensures IsCode(code)
  {
    var pegs := new string[CODE_LENGTH](_ => "");
    for i := 0 to CODE_LENGTH
      invariant forall k :: 0 <= k < i ==> pegs[k] == VALID_COLORS[draws[k]]
    {
      pegs[i] := VALID_COLORS[draws[i]];
    }
    code := pegs[..];
    forall i | 0 <= i < |code|
      ensures IsValidColor(code[i])
    {
      EqualsIgnoreCaseIsEquivalence(code[i], code[i], code[i]);
    }
  }

  /** A line of the wrong length never contributes a code, whatever its colours. */
  lemma WrongLengthRejected(lines: seq<Line>, line: Line)
    requires |line.tokens| != CODE_LENGTH
    ensures AcceptedCodes([line] + lines) == AcceptedCodes(lines)
  {
  }
}
