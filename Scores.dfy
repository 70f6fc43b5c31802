/** Worked scores of `evaluateGuess` for codes with repeated and absent colours. */
module Scores {
  import opened Colors
  import opened Evaluate

  /** Secret Red Red Blue Blue, guess Red Blue Red Blue: two exact, two colour-only. */
  lemma DuplicateColorsExample()
    ensures ExactMatches(["Red", "Red", "Blue", "Blue"], ["Red", "Blue", "Red", "Blue"]) == 2
    ensures ColorOnlyMatches(["Red", "Red", "Blue", "Blue"], ["Red", "Blue", "Red", "Blue"]) == 2
  {
    var code, guess := ["Red", "Red", "Blue", "Blue"], ["Red", "Blue", "Red", "Blue"];
    FoldsTo("Red", "red");
    FoldsTo("Blue", "blue");
    assert FoldAll(code) == ["red", "red", "blue", "blue"];
    assert FoldAll(guess) == ["red", "blue", "red", "blue"];
    assert Classes(guess) == Classes(code);
    assert Classes(code) * Classes(guess) == Classes(code);
    EqualsIgnoreCaseIsFoldEquality("Red", "Red");
    EqualsIgnoreCaseIsFoldEquality("Blue", "Blue");
    assert ExactCount(code, guess, 2) == 1;
    assert ExactCount(code, guess, 4) == 2;
  }

  /** Secret Red Blue Green Yellow, guess Orange four times: nothing in common. */
  lemma AbsentColorExample()
    ensures ExactMatches(["Red", "Blue", "Green", "Yellow"], ["Orange", "Orange", "Orange", "Orange"]) == 0
    ensures ColorOnlyMatches(["Red", "Blue", "Green", "Yellow"], ["Orange", "Orange", "Orange", "Orange"]) == 0
  {
    var code, guess := ["Red", "Blue", "Green", "Yellow"], ["Orange", "Orange", "Orange", "Orange"];
    FoldedColorNames();
    assert FoldAll(code) == FoldAll(VALID_COLORS)[..4];
    assert FoldAll(guess) == [FoldAll(VALID_COLORS)[4], FoldAll(VALID_COLORS)[4], FoldAll(VALID_COLORS)[4], FoldAll(VALID_COLORS)[4]];
    assert "orange" !in Classes(code);
    assert Classes(code) * Classes(guess) == multiset{};
  }

  /** Secret Red Blue Green Yellow against its reverse: no peg in place, all four colours shared. */
  lemma ReversedExample()
    ensures ExactMatches(["Red", "Blue", "Green", "Yellow"], ["Yellow", "Green", "Blue", "Red"]) == 0
    ensures ColorOnlyMatches(["Red", "Blue", "Green", "Yellow"], ["Yellow", "Green", "Blue", "Red"]) == 4
  {
    var code, guess := ["Red", "Blue", "Green", "Yellow"], ["Yellow", "Green", "Blue", "Red"];
    FoldedColorNames();
    var names := FoldAll(VALID_COLORS);
    assert FoldAll(code) == [names[0], names[1], names[2], names[3]];
    assert FoldAll(guess) == [names[3], names[2], names[1], names[0]];
    assert Classes(guess) == Classes(code);
    assert Classes(code) * Classes(guess) == Classes(code);
    assert ExactCount(code, guess, 4) == 0;
  }
}
