/**
 * Scoring a guess against the secret (`evaluateGuess`).
 *
 * The reference definitions are independent of the two-pass algorithm:
 * the exact score counts the positions where guess and secret hold the same
 * colour, and the total score is the size of the intersection of the two
 * codes' colour multisets (for each colour, the smaller of its two counts).
 * The method runs the source's two passes over boolean "used" arrays and is
 * proved to compute exactly these numbers.
 */
module Evaluate {
  import opened Colors

  // ---------------------------------------------------------------------------
  // Reference definitions
  // ---------------------------------------------------------------------------

  /** Number of positions below `n` where the guess has the secret's colour. */
  function ExactCount(code: seq<string>, guess: seq<string>, n: nat): (r: nat)
    requires n <= |code| && n <= |guess|
    ensures r <= n
  {
    if n == 0 then 0
    else ExactCount(code, guess, n - 1) + (if EqualsIgnoreCase(guess[n - 1], code[n - 1]) then 1 else 0)
  }

  /** Exact-position matches over the whole secret. */
  function ExactMatches(code: seq<string>, guess: seq<string>): nat
    requires |code| <= |guess|
  {
    ExactCount(code, guess, |code|)
  }

  /** The multiset of colour classes of a code. */
  function Classes(code: seq<string>): multiset<string>
  {
    multiset(FoldAll(code))
  }

  /** All matches, exact or not: the colours the two codes have in common, with multiplicity. */
  function TotalMatches(code: seq<string>, guess: seq<string>): nat
  {
    |Classes(code) * Classes(guess)|
  }

  /** Colour-only matches: the common colours not accounted for by exact positions. */
  function ColorOnlyMatches(code: seq<string>, guess: seq<string>): nat
    requires |code| <= |guess|
  {
    ExactAtMostTotal(code, guess);
    TotalMatches(code, guess) - ExactMatches(code, guess)
  }

  /** The guess has the secret's colour at every position of the secret. */
  predicate SameCode(code: seq<string>, guess: seq<string>)
    requires |code| <= |guess|
  {
    forall k :: 0 <= k < |code| ==> EqualsIgnoreCase(guess[k], code[k])
  }

  /** Number of tokens of `code` that name the colour `v`. */
  function ColorCount(code: seq<string>, v: string): nat
  {
    if code == [] then 0
    else (if EqualsIgnoreCase(code[0], v) then 1 else 0) + ColorCount(code[1..], v)
  }

  /** The sum, over the colours `vs`, of the smaller of the two codes' counts of that colour. */
  function SumOfMins(vs: seq<string>, code: seq<string>, guess: seq<string>): nat
  {
    if vs == [] then 0
    else Min(ColorCount(code, vs[0]), ColorCount(guess, vs[0])) + SumOfMins(vs[1..], code, guess)
  }

  function Min(a: nat, b: nat): nat
  {
    if a <= b then a else b
  }

  // ---------------------------------------------------------------------------
  // The marker arrays as multisets
  // ---------------------------------------------------------------------------

  /**
   * The marker contents after the first pass has looked at positions below
   * `i`: exactly the exact-position matches among them are marked.
   */
  ghost function ExactMarks(code: seq<string>, guess: seq<string>, i: nat, len: nat): (r: seq<bool>)
    requires i <= |code| <= |guess| && len <= |guess|
    ensures |r| == len
  {
    seq(len, k requires 0 <= k < len => k < i && EqualsIgnoreCase(guess[k], code[k]))
  }

  /** Colour classes of the positions `lo..` that are not yet marked used. */
  ghost function Unmarked(s: seq<string>, used: seq<bool>, lo: nat): multiset<string>
    requires |used| == |s| && lo <= |s|
    decreases |s| - lo
  {
    if lo == |s| then multiset{}
    else (if used[lo] then multiset{} else multiset{Fold(s[lo])}) + Unmarked(s, used, lo + 1)
  }

  /** Number of `true` entries of a marker sequence (`codeUsed` marks consumed secret pegs). */
  function CountTrue(used: seq<bool>): (r: nat)
    ensures r <= |used|
  {
    if used == [] then 0
    else (if used[0] then 1 else 0) + CountTrue(used[1..])
  }

  lemma {:induction false} CountTrueNone(used: seq<bool>)
    requires forall k :: 0 <= k < |used| ==> !used[k]
    ensures CountTrue(used) == 0
  {
    if used != [] {
      CountTrueNone(used[1..]);
    }
  }

  /** Flipping one entry from false to true raises the count by exactly one. */
  lemma {:induction false} CountTrueMark(used: seq<bool>, j: nat)
    requires j < |used| && !used[j]
    ensures CountTrue(used[j := true]) == CountTrue(used) + 1
  {
    if j == 0 {
      assert used[j := true][1..] == used[1..];
    } else {
      assert used[j := true][1..] == used[1..][j - 1 := true];
      CountTrueMark(used[1..], j - 1);
    }
  }

  lemma {:induction false} UnmarkedFrame(s: seq<string>, u1: seq<bool>, u2: seq<bool>, lo: nat)
    requires |u1| == |s| && |u2| == |s| && lo <= |s|
    requires forall k :: lo <= k < |s| ==> u1[k] == u2[k]
    ensures Unmarked(s, u1, lo) == Unmarked(s, u2, lo)
    decreases |s| - lo
  {
    if lo < |s| {
      UnmarkedFrame(s, u1, u2, lo + 1);
    }
  }

  /** Marking an unused position removes exactly its colour from the unused multiset. */
  lemma {:induction false} UnmarkedMark(s: seq<string>, used: seq<bool>, lo: nat, j: nat)
    requires |used| == |s| && lo <= j < |s| && !used[j]
    ensures Unmarked(s, used, lo) == Unmarked(s, used[j := true], lo) + multiset{Fold(s[j])}
    decreases |s| - lo
  {
    if lo == j {
      UnmarkedFrame(s, used, used[j := true], j + 1);
    } else {
      UnmarkedMark(s, used, lo + 1, j);
    }
  }

  /** A colour that no unused position holds is not in the unused multiset. */
  lemma {:induction false} UnmarkedAbsent(s: seq<string>, used: seq<bool>, lo: nat, c: string)
    requires |used| == |s| && lo <= |s|
    requires forall k :: lo <= k < |s| && !used[k] ==> Fold(s[k]) != c
    ensures c !in Unmarked(s, used, lo)
    decreases |s| - lo
  {
    if lo < |s| {
      UnmarkedAbsent(s, used, lo + 1, c);
    }
  }

  /** With nothing marked, the unused multiset is the code's whole colour multiset. */
  lemma {:induction false} UnmarkedAllFree(s: seq<string>, used: seq<bool>, lo: nat)
    requires |used| == |s| && lo <= |s|
    requires forall k :: lo <= k < |s| ==> !used[k]
    ensures Unmarked(s, used, lo) == multiset(FoldAll(s)[lo..])
    decreases |s| - lo
  {
    if lo < |s| {
      UnmarkedAllFree(s, used, lo + 1);
      assert FoldAll(s)[lo..] == [Fold(s[lo])] + FoldAll(s)[lo + 1..];
    }
  }

  /** A colour present on both sides contributes one more common element. */
  lemma IntersectAddBoth(a: multiset<string>, b: multiset<string>, c: string)
    ensures (a + multiset{c}) * (b + multiset{c}) == (a * b) + multiset{c}
  {
  }

  /** A colour absent from one side adds nothing to the intersection. */
  lemma IntersectAddAbsent(a: multiset<string>, b: multiset<string>, c: string)
    requires c !in a
    ensures a * (b + multiset{c}) == a * b
  {
  }

  /** First pass, one exact match: both unused multisets lose the same colour. */
  lemma ExactStep(code: seq<string>, guess: seq<string>, cu: seq<bool>, gu: seq<bool>, i: nat)
    requires |cu| == |code| && |gu| == |guess| && i < |code| && i < |guess|
    requires !cu[i] && !gu[i] && EqualsIgnoreCase(guess[i], code[i])
    ensures |Unmarked(code, cu, 0) * Unmarked(guess, gu, 0)|
            == |Unmarked(code, cu[i := true], 0) * Unmarked(guess, gu[i := true], 0)| + 1
  {
    EqualsIgnoreCaseIsFoldEquality(guess[i], code[i]);
    UnmarkedMark(code, cu, 0, i);
    UnmarkedMark(guess, gu, 0, i);
    IntersectAddBoth(Unmarked(code, cu[i := true], 0), Unmarked(guess, gu[i := true], 0), Fold(code[i]));
  }

  /** Second pass, guess peg `i` claims secret peg `j` of its colour: one common colour is used up. */
  lemma ClaimStep(code: seq<string>, guess: seq<string>, cu: seq<bool>, gu: seq<bool>, i: nat, j: nat)
    requires |cu| == |code| && |gu| == |guess| && i < |guess| && j < |code|
    requires !gu[i] && !cu[j] && EqualsIgnoreCase(guess[i], code[j])
    ensures |Unmarked(code, cu, 0) * Unmarked(guess, gu, i)|
            == |Unmarked(code, cu[j := true], 0) * Unmarked(guess, gu, i + 1)| + 1
  {
    EqualsIgnoreCaseIsFoldEquality(guess[i], code[j]);
    assert Unmarked(guess, gu, i) == Unmarked(guess, gu, i + 1) + multiset{Fold(guess[i])};
    UnmarkedMark(code, cu, 0, j);
    IntersectAddBoth(Unmarked(code, cu[j := true], 0), Unmarked(guess, gu, i + 1), Fold(guess[i]));
  }

  /** Second pass, no unused secret peg has the colour of guess peg `i`: nothing common is lost. */
  lemma NoClaimStep(code: seq<string>, guess: seq<string>, cu: seq<bool>, gu: seq<bool>, i: nat)
    requires |cu| == |code| && |gu| == |guess| && i < |guess| && !gu[i]
    requires forall m :: 0 <= m < |code| ==> cu[m] || !EqualsIgnoreCase(guess[i], code[m])
    ensures |Unmarked(code, cu, 0) * Unmarked(guess, gu, i)|
            == |Unmarked(code, cu, 0) * Unmarked(guess, gu, i + 1)|
  {
    forall k | 0 <= k < |code| && !cu[k]
      ensures Fold(code[k]) != Fold(guess[i])
    {
      EqualsIgnoreCaseIsFoldEquality(guess[i], code[k]);
    }
    UnmarkedAbsent(code, cu, 0, Fold(guess[i]));
    assert Unmarked(guess, gu, i) == Unmarked(guess, gu, i + 1) + multiset{Fold(guess[i])};
    IntersectAddAbsent(Unmarked(code, cu, 0), Unmarked(guess, gu, i + 1), Fold(guess[i]));
  }

  // ---------------------------------------------------------------------------
  // evaluateGuess
  // ---------------------------------------------------------------------------

  /**
   * The first pass of `evaluateGuess`: count the positions where the guess
   * has the secret's colour and mark each of them used on both sides.
   */
  method MarkExactMatches(code: seq<string>, guess: seq<string>, codeUsed: array<bool>, guessUsed: array<bool>)
    returns (exact: nat)
    requires |code| <= |guess| && codeUsed.Length == |code| && guessUsed.Length == |guess|
    requires codeUsed != guessUsed
    requires forall k :: 0 <= k < |code| ==> !codeUsed[k]
    requires forall k :: 0 <= k < |guess| ==> !guessUsed[k]
    modifies codeUsed, guessUsed
    ensures exact == ExactMatches(code, guess)
    ensures codeUsed[..] == ExactMarks(code, guess, |code|, |code|)
    ensures guessUsed[..] == ExactMarks(code, guess, |code|, |guess|)
    ensures CountTrue(codeUsed[..]) == exact
  {
    exact := 0;
    assert codeUsed[..] == ExactMarks(code, guess, 0, |code|);
    assert guessUsed[..] == ExactMarks(code, guess, 0, |guess|);
    for i := 0 to |code|
      invariant codeUsed[..] == ExactMarks(code, guess, i, |code|)
      invariant guessUsed[..] == ExactMarks(code, guess, i, |guess|)
      invariant exact == ExactCount(code, guess, i)
    {
      if EqualsIgnoreCase(guess[i], code[i]) {
        exact := exact + 1;
        codeUsed[i] := true;
        guessUsed[i] := true;
      }
      assert codeUsed[..] == ExactMarks(code, guess, i + 1, |code|);
      assert guessUsed[..] == ExactMarks(code, guess, i + 1, |guess|);
    }
    ExactMarksCount(code, guess, |code|);
  }

  /**
   * The inner scan of the second pass: walk the secret in order and mark the
   * first unused peg whose colour is that of the guess peg `peg`, stopping
   * there. `claimed` tells whether one was found, `j` is its position.
   */
  method ClaimFirstUnused(code: seq<string>, codeUsed: array<bool>, peg: string) returns (claimed: bool, j: nat)
    requires codeUsed.Length == |code|
    modifies codeUsed
    ensures claimed ==> j < |code| && !old(codeUsed[j]) && EqualsIgnoreCase(peg, code[j])
    ensures claimed ==> codeUsed[..] == old(codeUsed[..])[j := true]
    ensures claimed ==> forall m :: 0 <= m < j ==> old(codeUsed[m]) || !EqualsIgnoreCase(peg, code[m])
    ensures !claimed ==> codeUsed[..] == old(codeUsed[..])
    ensures !claimed ==> forall m :: 0 <= m < |code| ==> codeUsed[m] || !EqualsIgnoreCase(peg, code[m])
  {
    claimed, j := false, 0;
    while j < |code|
      invariant j <= |code|
      invariant codeUsed[..] == old(codeUsed[..])
      invariant forall m :: 0 <= m < j ==> codeUsed[m] || !EqualsIgnoreCase(peg, code[m])
    {
      if !codeUsed[j] && EqualsIgnoreCase(peg, code[j]) {
        codeUsed[j] := true;
        claimed := true;
        return;
      }
      j := j + 1;
    }
  }

  /**
   * The second pass of `evaluateGuess`: each guess peg not marked by the first
   * pass claims the first unmarked secret peg of its colour. The colour-only
   * count is the number of colours the unmarked pegs of the two sides have in
   * common, and every claim consumes exactly one secret peg.
   */
  method MarkColorOnlyMatches(code: seq<string>, guess: seq<string>, codeUsed: array<bool>, guessUsed: array<bool>)
    returns (colorOnly: nat)
    requires codeUsed.Length == |code| && guessUsed.Length == |guess|
    requires codeUsed != guessUsed
    modifies codeUsed
    ensures colorOnly == |Unmarked(code, old(codeUsed[..]), 0) * Unmarked(guess, guessUsed[..], 0)|
    ensures CountTrue(codeUsed[..]) == CountTrue(old(codeUsed[..])) + colorOnly
    ensures forall j :: 0 <= j < |code| && old(codeUsed[j]) ==> codeUsed[j]
  {
    colorOnly := 0;
    ghost var marks := guessUsed[..];
    for i := 0 to |guess|
      invariant guessUsed[..] == marks
      invariant forall j :: 0 <= j < |code| && old(codeUsed[j]) ==> codeUsed[j]
      invariant CountTrue(codeUsed[..]) == CountTrue(old(codeUsed[..])) + colorOnly
      invariant colorOnly + |Unmarked(code, codeUsed[..], 0) * Unmarked(guess, marks, i)|
                == |Unmarked(code, old(codeUsed[..]), 0) * Unmarked(guess, marks, 0)|
    {
      if !guessUsed[i] {
        ghost var before := codeUsed[..];
        var claimed, j := ClaimFirstUnused(code, codeUsed, guess[i]);
        if claimed {
          ClaimStep(code, guess, before, marks, i, j);
          CountTrueMark(before, j);
          colorOnly := colorOnly + 1;
        } else {
          NoClaimStep(code, guess, before, marks, i);
        }
      } else {
        assert Unmarked(guess, marks, i) == Unmarked(guess, marks, i + 1);
      }
    }
  }

  /**
   * The two-pass scoring of `evaluateGuess`. The first pass counts and marks
   * the exact-position matches; the second gives each unmarked guess peg the
   * first unmarked secret peg of its colour. Java only needs the guess to be
   * at least as long as the secret (the first pass indexes `guess[i]` for
   * every secret position).
   */
  method EvaluateGuess(code: seq<string>, guess: seq<string>) returns (exact: nat, colorOnly: nat)
    requires |code| <= |guess|
    ensures exact == ExactMatches(code, guess)
    ensures exact + colorOnly == TotalMatches(code, guess)
    ensures colorOnly == ColorOnlyMatches(code, guess)
    ensures exact + colorOnly <= |code|
  {
    var codeUsed := new bool[|code|](_ => false);
    var guessUsed := new bool[|guess|](_ => false);
    exact := MarkExactMatches(code, guess, codeUsed, guessUsed);
    ExactMarksLeaveCommon(code, guess);
    colorOnly := MarkColorOnlyMatches(code, guess, codeUsed, guessUsed);
    ScoreBound(code, guess);
  }

  /**
   * What the first pass leaves for the second: the exact matches plus the
   * colours the unmarked pegs have in common are all the matches.
   */
  lemma ExactMarksLeaveCommon(code: seq<string>, guess: seq<string>)
    requires |code| <= |guess|
    ensures ExactMatches(code, guess)
            + |Unmarked(code, ExactMarks(code, guess, |code|, |code|), 0)
               * Unmarked(guess, ExactMarks(code, guess, |code|, |guess|), 0)|
            == TotalMatches(code, guess)
  {
    var none := ExactMarks(code, guess, 0, |code|);
    var noneG := ExactMarks(code, guess, 0, |guess|);
    UnmarkedAllFree(code, none, 0);
    UnmarkedAllFree(guess, noneG, 0);
    assert FoldAll(code)[0..] == FoldAll(code);
    assert FoldAll(guess)[0..] == FoldAll(guess);
    ExactMarksStep(code, guess, |code|);
  }

  /** Induction step of `ExactMarksLeaveCommon`: the first `n` positions marked. */
  lemma {:induction false} ExactMarksStep(code: seq<string>, guess: seq<string>, n: nat)
    requires n <= |code| <= |guess|
    ensures ExactCount(code, guess, n)
            + |Unmarked(code, ExactMarks(code, guess, n, |code|), 0)
               * Unmarked(guess, ExactMarks(code, guess, n, |guess|), 0)|
            == |Unmarked(code, ExactMarks(code, guess, 0, |code|), 0)
               * Unmarked(guess, ExactMarks(code, guess, 0, |guess|), 0)|
  {
    if n > 0 {
      ExactMarksStep(code, guess, n - 1);
      var cu, gu := ExactMarks(code, guess, n - 1, |code|), ExactMarks(code, guess, n - 1, |guess|);
      ExactMarksNext(code, guess, n - 1, |code|);
      ExactMarksNext(code, guess, n - 1, |guess|);
      if EqualsIgnoreCase(guess[n - 1], code[n - 1]) {
        ExactStep(code, guess, cu, gu, n - 1);
      }
    }
  }

  /** After the first pass has looked at `n` positions, the marked secret pegs are the exact matches among them. */
  lemma {:induction false} ExactMarksCount(code: seq<string>, guess: seq<string>, n: nat)
    requires n <= |code| <= |guess|
    ensures CountTrue(ExactMarks(code, guess, n, |code|)) == ExactCount(code, guess, n)
  {
    if n == 0 {
      CountTrueNone(ExactMarks(code, guess, 0, |code|));
    } else {
      ExactMarksCount(code, guess, n - 1);
      ExactMarksNext(code, guess, n - 1, |code|);
      if EqualsIgnoreCase(guess[n - 1], code[n - 1]) {
        CountTrueMark(ExactMarks(code, guess, n - 1, |code|), n - 1);
      }
    }
  }

  /** Looking at position `i` marks it exactly when it is an exact match. */
  lemma ExactMarksNext(code: seq<string>, guess: seq<string>, i: nat, len: nat)
    requires i < |code| <= |guess| && i < len <= |guess|
    ensures ExactMarks(code, guess, i + 1, len)
            == if EqualsIgnoreCase(guess[i], code[i]) then ExactMarks(code, guess, i, len)[i := true]
               else ExactMarks(code, guess, i, len)
  {
  }

  // ---------------------------------------------------------------------------
  // Properties of the reference definitions
  // ---------------------------------------------------------------------------

  lemma MultisetSubsetCard(a: multiset<string>, b: multiset<string>)
    requires a <= b
    ensures |a| <= |b|
  {
    assert b == a + (b - a);
  }

  /** Exact matches never exceed all matches: the colour-only count is never negative. */
  lemma {:induction false} ExactCountAtMostCommon(code: seq<string>, guess: seq<string>, n: nat)
    requires n <= |code| && n <= |guess|
    ensures ExactCount(code, guess, n) <= |multiset(FoldAll(code)[..n]) * multiset(FoldAll(guess)[..n])|
  {
    if n > 0 {
      ExactCountAtMostCommon(code, guess, n - 1);
      var a, b := multiset(FoldAll(code)[..n - 1]), multiset(FoldAll(guess)[..n - 1]);
      var x, y := Fold(code[n - 1]), Fold(guess[n - 1]);
      assert FoldAll(code)[..n] == FoldAll(code)[..n - 1] + [x];
      assert FoldAll(guess)[..n] == FoldAll(guess)[..n - 1] + [y];
      if EqualsIgnoreCase(guess[n - 1], code[n - 1]) {
        EqualsIgnoreCaseIsFoldEquality(guess[n - 1], code[n - 1]);
        IntersectAddBoth(a, b, x);
      } else {
        MultisetSubsetCard(a * b, (a + multiset{x}) * (b + multiset{y}));
      }
    }
  }

  lemma ExactAtMostTotal(code: seq<string>, guess: seq<string>)
    requires |code| <= |guess|
    ensures ExactMatches(code, guess) <= TotalMatches(code, guess)
  {
    ExactCountAtMostCommon(code, guess, |code|);
    assert FoldAll(code)[..|code|] == FoldAll(code);
    var a, b := Classes(code), Classes(guess);
    var p := multiset(FoldAll(guess)[..|code|]);
    assert FoldAll(guess) == FoldAll(guess)[..|code|] + FoldAll(guess)[|code|..];
    assert p <= b;
    MultisetSubsetCard(a * p, a * b);
  }

  /** The score never exceeds the secret's length: at most one match per secret peg. */
  lemma ScoreBound(code: seq<string>, guess: seq<string>)
    requires |code| <= |guess|
    ensures ExactMatches(code, guess) + ColorOnlyMatches(code, guess) <= |code|
  {
    MultisetSubsetCard(Classes(code) * Classes(guess), Classes(code));
  }

  /** The exact count reaches `n` exactly when every position below `n` matches. */
  lemma {:induction false} ExactCountFull(code: seq<string>, guess: seq<string>, n: nat)
    requires n <= |code| && n <= |guess|
    ensures ExactCount(code, guess, n) == n
            <==> forall k :: 0 <= k < n ==> EqualsIgnoreCase(guess[k], code[k])
  {
    if n > 0 {
      ExactCountFull(code, guess, n - 1);
    }
  }

  /** `feedback[0] == CODE_LENGTH` holds exactly when the guess has the secret's colours in order. */
  lemma ExactMatchesAllIffSameCode(code: seq<string>, guess: seq<string>)
    requires |code| <= |guess|
    ensures ExactMatches(code, guess) == |code| <==> SameCode(code, guess)
  {
    ExactCountFull(code, guess, |code|);
  }

  /** A code scored against itself: every peg exact, none colour-only. */
  lemma SelfScore(code: seq<string>)
    ensures ExactMatches(code, code) == |code|
    ensures ColorOnlyMatches(code, code) == 0
  {
    forall k | 0 <= k < |code|
      ensures EqualsIgnoreCase(code[k], code[k])
    {
      EqualsIgnoreCaseIsEquivalence(code[k], code[k], code[k]);
    }
    ExactMatchesAllIffSameCode(code, code);
    var a := Classes(code);
    assert a * a == a;
  }

  /** Swapping secret and guess (of equal length) leaves the exact count unchanged. */
  lemma {:induction false} ExactCountSymmetric(code: seq<string>, guess: seq<string>, n: nat)
    requires n <= |code| && n <= |guess|
    ensures ExactCount(code, guess, n) == ExactCount(guess, code, n)
  {
    if n > 0 {
      ExactCountSymmetric(code, guess, n - 1);
      EqualsIgnoreCaseIsEquivalence(guess[n - 1], code[n - 1], code[n - 1]);
      EqualsIgnoreCaseIsEquivalence(code[n - 1], guess[n - 1], guess[n - 1]);
    }
  }

  /** Both counts are symmetric in secret and guess (multiset intersection is commutative). */
  lemma ScoreSymmetric(code: seq<string>, guess: seq<string>)
    requires |code| == |guess|
    ensures ExactMatches(code, guess) == ExactMatches(guess, code)
    ensures ColorOnlyMatches(code, guess) == ColorOnlyMatches(guess, code)
  {
    ExactCountSymmetric(code, guess, |code|);
    var a, b := Classes(code), Classes(guess);
    assert a * b == b * a;
  }

  // ---------------------------------------------------------------------------
  // The closed form: a sum of minimum counts over the six colours
  // ---------------------------------------------------------------------------

  /** Sum of the multiplicities in `m` of the names `ns`. */
  function SumCounts(ns: seq<string>, m: multiset<string>): nat
  {
    if ns == [] then 0 else m[ns[0]] + SumCounts(ns[1..], m)
  }

  /** A code's count of colour `v` is the multiplicity of `v`'s class in its colour multiset. */
  lemma {:induction false} ColorCountIsMultiplicity(code: seq<string>, v: string)
    ensures ColorCount(code, v) == Classes(code)[Fold(v)]
  {
    if code != [] {
      ColorCountIsMultiplicity(code[1..], v);
      assert FoldAll(code) == [Fold(code[0])] + FoldAll(code[1..]);
      EqualsIgnoreCaseIsFoldEquality(code[0], v);
    }
  }

  lemma {:induction false} SumCountsAgree(ns: seq<string>, m1: multiset<string>, m2: multiset<string>)
    requires forall k :: 0 <= k < |ns| ==> m1[ns[k]] == m2[ns[k]]
    ensures SumCounts(ns, m1) == SumCounts(ns, m2)
  {
    if ns != [] {
      SumCountsAgree(ns[1..], m1, m2);
    }
  }

  /** Removing one copy of a listed name lowers the sum by one (names pairwise distinct). */
  lemma {:induction false} SumCountsRemove(ns: seq<string>, m: multiset<string>, x: string)
    requires forall i, j :: 0 <= i < j < |ns| ==> ns[i] != ns[j]
    requires x in m && x in ns
    ensures SumCounts(ns, m) == SumCounts(ns, m - multiset{x}) + 1
  {
    var m' := m - multiset{x};
    if ns[0] == x {
      assert forall k :: 0 <= k < |ns[1..]| ==> ns[1..][k] != x;
      SumCountsAgree(ns[1..], m, m');
    } else {
      assert x in ns[1..];
      SumCountsRemove(ns[1..], m, x);
    }
  }

  lemma {:induction false} SumCountsEmpty(ns: seq<string>)
    ensures SumCounts(ns, multiset{}) == 0
  {
    if ns != [] {
      SumCountsEmpty(ns[1..]);
    }
  }

  /** A multiset whose elements all appear among distinct names has the sum of their multiplicities as its size. */
  lemma {:induction false} CardBySupport(ns: seq<string>, m: multiset<string>)
    requires forall i, j :: 0 <= i < j < |ns| ==> ns[i] != ns[j]
    requires forall x :: x in m ==> x in ns
    ensures |m| == SumCounts(ns, m)
    decreases |m|
  {
    if |m| == 0 {
      assert m == multiset{};
      SumCountsEmpty(ns);
    } else {
      var x :| x in m;
      var m' := m - multiset{x};
      assert m == m' + multiset{x};
      CardBySupport(ns, m');
      SumCountsRemove(ns, m, x);
    }
  }

  lemma {:induction false} SumOfMinsAsCounts(vs: seq<string>, code: seq<string>, guess: seq<string>)
    ensures SumOfMins(vs, code, guess) == SumCounts(FoldAll(vs), Classes(code) * Classes(guess))
  {
    if vs != [] {
      SumOfMinsAsCounts(vs[1..], code, guess);
      assert FoldAll(vs)[1..] == FoldAll(vs[1..]);
      ColorCountIsMultiplicity(code, vs[0]);
      ColorCountIsMultiplicity(guess, vs[0]);
    }
  }

  /**
   * The duplicate-colour rule in closed form: for a secret drawn from the six
   * colours, all matches number the sum over the colours of the smaller of
   * the colour's count in the secret and in the guess.
   */
  lemma TotalMatchesIsSumOfMins(code: seq<string>, guess: seq<string>)
    requires AllValidColors(code)
    ensures TotalMatches(code, guess) == SumOfMins(VALID_COLORS, code, guess)
  {
    var ns := FoldAll(VALID_COLORS);
    FoldedColorNames();
    var m := Classes(code) * Classes(guess);
    forall x | x in m
      ensures x in ns
    {
      var i :| 0 <= i < |code| && FoldAll(code)[i] == x;
      ValidColorFolds(code[i]);
    }
    CardBySupport(ns, m);
    SumOfMinsAsCounts(VALID_COLORS, code, guess);
  }
}
