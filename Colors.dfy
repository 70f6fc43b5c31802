/**
 * The colour alphabet of Mastermind: the six colour names, the
 * case-insensitive comparison of colour tokens, and the validation of a
 * tokenised code (`areValidColors` and the acceptance test of `getValidCode`).
 */
module Colors {

  /** Number of pegs in a code (`CODE_LENGTH`). */
  const CODE_LENGTH: nat := 4

  /** The fixed alphabet (`VALID_COLORS`), in the source's own casing. */
  const VALID_COLORS: seq<string> := ["Red", "Blue", "Green", "Yellow", "Orange", "Purple"]

  /** ASCII upper-case mapping of one character. */
  function UpperChar(c: char): char
  {
    if 'a' <= c <= 'z' then (c as int - 32) as char else c
  }

  /** ASCII lower-case mapping of one character. */
  function LowerChar(c: char): char
  {
    if 'A' <= c <= 'Z' then (c as int + 32) as char else c
  }

  /**
   * Character comparison of `String.equalsIgnoreCase`: equal, or equal after
   * upper-casing, or equal after lower-casing (restricted to ASCII).
   */
  predicate CharEqualsIgnoreCase(a: char, b: char)
  {
    a == b || UpperChar(a) == UpperChar(b) || LowerChar(a) == LowerChar(b)
  }

  /**
   * `a.equalsIgnoreCase(b)`, compared from the first character on: the two
   * have the same length and every pair of characters at the same position
   * is equal up to case.
   */
  predicate EqualsIgnoreCase(a: string, b: string): (r: bool)
    ensures r <==> |a| == |b| && forall i :: 0 <= i < |a| ==> CharEqualsIgnoreCase(a[i], b[i])
  {
    |a| == |b| && (a == [] || (CharEqualsIgnoreCase(a[0], b[0]) && EqualsIgnoreCase(a[1..], b[1..])))
  }

  /** The case-folded form of a token: the canonical name of its colour class. */
  function Fold(s: string): (r: string)
    ensures |r| == |s|
    ensures forall i :: 0 <= i < |s| ==> r[i] == LowerChar(s[i])
  {
    seq(|s|, i requires 0 <= i < |s| => LowerChar(s[i]))
  }

  /** The folded form of every token of a code, position by position. */
  function FoldAll(code: seq<string>): (r: seq<string>)
    ensures |r| == |code|
    ensures forall i :: 0 <= i < |code| ==> r[i] == Fold(code[i])
  {
    seq(|code|, i requires 0 <= i < |code| => Fold(code[i]))
  }

  /** Case-insensitive character equality is equality of the lower-case forms. */
  lemma CharEqualsIgnoreCaseIsLowerEquality(a: char, b: char)
    ensures CharEqualsIgnoreCase(a, b) <==> LowerChar(a) == LowerChar(b)
  {
  }

  /**
   * `equalsIgnoreCase` relates exactly the tokens with the same folded form, so
   * it is an equivalence relation and its classes are named by `Fold`.
   */
  lemma EqualsIgnoreCaseIsFoldEquality(a: string, b: string)
    ensures EqualsIgnoreCase(a, b) <==> Fold(a) == Fold(b)
  {
    if |a| == |b| {
      forall i | 0 <= i < |a|
        ensures CharEqualsIgnoreCase(a[i], b[i]) <==> Fold(a)[i] == Fold(b)[i]
      {
        CharEqualsIgnoreCaseIsLowerEquality(a[i], b[i]);
      }
    }
  }

  /** `equalsIgnoreCase` is reflexive, symmetric and transitive. */
  lemma EqualsIgnoreCaseIsEquivalence(a: string, b: string, c: string)
    ensures EqualsIgnoreCase(a, a)
    ensures EqualsIgnoreCase(a, b) ==> EqualsIgnoreCase(b, a)
    ensures EqualsIgnoreCase(a, b) && EqualsIgnoreCase(b, c) ==> EqualsIgnoreCase(a, c)
  {
    EqualsIgnoreCaseIsFoldEquality(a, a);
    EqualsIgnoreCaseIsFoldEquality(a, b);
    EqualsIgnoreCaseIsFoldEquality(b, a);
    EqualsIgnoreCaseIsFoldEquality(b, c);
    EqualsIgnoreCaseIsFoldEquality(a, c);
  }

  /** A token names one of the six colours, ignoring case. */
  predicate IsValidColor(token: string)
  {
    exists k :: 0 <= k < |VALID_COLORS| && EqualsIgnoreCase(token, VALID_COLORS[k])
  }

  /** Every token of the sequence names a colour. */
  predicate AllValidColors(tokens: seq<string>)
  {
    forall i :: 0 <= i < |tokens| ==> IsValidColor(tokens[i])
  }

  /** What `getValidCode` accepts: exactly `CODE_LENGTH` tokens, all valid colours. */
  predicate IsCode(tokens: seq<string>)
  {
    |tokens| == CODE_LENGTH && AllValidColors(tokens)
  }

  /** A code is `CODE_LENGTH` tokens, each folding to one of the six folded colour names. */
  lemma IsCodeFolds(tokens: seq<string>)
    ensures IsCode(tokens) <==> |tokens| == CODE_LENGTH && forall i :: 0 <= i < |tokens| ==> Fold(tokens[i]) in FoldAll(VALID_COLORS)
  {
    forall i | 0 <= i < |tokens| {
      ValidColorFolds(tokens[i]);
    }
  }

  /** The folded colour names: the six colour classes, pairwise distinct. */
  lemma FoldedColorNames()
    ensures FoldAll(VALID_COLORS) == ["red", "blue", "green", "yellow", "orange", "purple"]
  {
    FoldsTo("Red", "red");
    FoldsTo("Blue", "blue");
    FoldsTo("Green", "green");
    FoldsTo("Yellow", "yellow");
    FoldsTo("Orange", "orange");
    FoldsTo("Purple", "purple");
  }

  /** Helper: `Fold(s)` is `t` when it is so character by character. */
  lemma FoldsTo(s: string, t: string)
    requires |s| == |t| && forall i :: 0 <= i < |s| ==> LowerChar(s[i]) == t[i]
    ensures Fold(s) == t
  {
  }

  /** A valid token folds to one of the six folded colour names, and conversely. */
  lemma ValidColorFolds(token: string)
    ensures IsValidColor(token) <==> Fold(token) in FoldAll(VALID_COLORS)
  {
    var names := FoldAll(VALID_COLORS);
    if IsValidColor(token) {
      var k :| 0 <= k < |VALID_COLORS| && EqualsIgnoreCase(token, VALID_COLORS[k]);
      EqualsIgnoreCaseIsFoldEquality(token, VALID_COLORS[k]);
      assert Fold(token) == names[k];
    }
    if Fold(token) in names {
      var k :| 0 <= k < |names| && names[k] == Fold(token);
      EqualsIgnoreCaseIsFoldEquality(token, VALID_COLORS[k]);
      assert EqualsIgnoreCase(token, VALID_COLORS[k]);
    }
  }

  /**
   * `areValidColors`: for each token, scan the alphabet for a case-insensitive
   * match; answer false at the first token without one, true otherwise
   * (in particular true for no tokens at all).
   */
  method AreValidColors(guess: seq<string>) returns (ok: bool)
    ensures ok <==> AllValidColors(guess)
  {
    for i := 0 to |guess|
      invariant forall k :: 0 <= k < i ==> IsValidColor(guess[k])
    {
      var isValid := false;
      for j := 0 to |VALID_COLORS|
        invariant !isValid
        invariant forall m :: 0 <= m < j ==> !EqualsIgnoreCase(guess[i], VALID_COLORS[m])
      {
        if EqualsIgnoreCase(guess[i], VALID_COLORS[j]) {
          isValid := true;
          break;
        }
      }
      if !isValid {
        assert !IsValidColor(guess[i]);
        return false;
      }
    }
    return true;
  }
}
