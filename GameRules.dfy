/**
 * The round logic of the Assembly: Endgame word-guessing game.
 *
 * A round is described by two values: the target word and the
 * insertion-ordered list of guessed letters. Everything the game shows is
 * derived from these two values and from the length of the language
 * registry (`languageCount`), which fixes the wrong-guess budget.
 */
module GameRules {

  datatype Option<T> = None | Some(value: T)

  /** No letter occurs twice. */
  predicate Distinct(s: seq<char>)
  {
    forall i, j :: 0 <= i < j < |s| ==> s[i] != s[j]
  }

  // ---------------------------------------------------------------------
  // The guess updater
  // ---------------------------------------------------------------------

  /**
   * The state updater passed to the guessed-letters setter: a letter that is
   * already present leaves the list alone, a new one is appended at the end.
   */
  function AddLetter(prev: seq<char>, letter: char): (r: seq<char>)
    ensures letter in r
    ensures |prev| <= |r| && r[..|prev|] == prev
    ensures letter in prev ==> r == prev
    ensures letter !in prev ==> |r| == |prev| + 1 && r[|prev|] == letter
    ensures forall x :: x in r <==> x in prev || x == letter
    ensures Distinct(prev) ==> Distinct(r)
  {
    if letter in prev then prev else prev + [letter]
  }

  // ---------------------------------------------------------------------
  // Derived values
  // ---------------------------------------------------------------------

  /** The guessed letters that do not occur in the word, in guessing order. */
  function WrongLetters(word: seq<char>, guessed: seq<char>): (r: seq<char>)
    ensures |r| <= |guessed|
    ensures forall x :: x in r <==> x in guessed && x !in word
  {
    if guessed == [] then []
    else (if guessed[0] in word then [] else [guessed[0]]) + WrongLetters(word, guessed[1..])
  }

  /** Number of guessed letters absent from the word. */
  function WrongGuessCount(word: seq<char>, guessed: seq<char>): (r: nat)
    ensures r <= |guessed|
    ensures r == 0 <==> forall x :: x in guessed ==> x in word
  {
    var wrong := WrongLetters(word, guessed);
    assert wrong != [] ==> wrong[0] in wrong;
    |wrong|
  }

  /** Wrong guesses allowed before the round is lost: one less than the registry size. */
  function GuessBudget(languageCount: nat): (r: int)
    ensures r < languageCount
    ensures languageCount > 0 ==> r >= 0 && r + 1 == languageCount
  {
    languageCount - 1
  }

  /** Every letter of the word has been guessed (vacuously true of the empty word). */
  predicate IsGameWon(word: seq<char>, guessed: seq<char>)
    ensures IsGameWon(word, guessed) <==> forall c :: c in word ==> c in guessed
    ensures |word| == 0 ==> IsGameWon(word, guessed)
  {
    forall i :: 0 <= i < |word| ==> word[i] in guessed
  }

  /** The wrong guesses have reached the budget. */
  predicate IsGameLost(word: seq<char>, guessed: seq<char>, languageCount: nat)
    ensures languageCount <= 1 ==> IsGameLost(word, guessed, languageCount)
    ensures IsGameLost(word, guessed, languageCount) ==> |guessed| >= GuessBudget(languageCount)
  {
    WrongGuessCount(word, guessed) >= GuessBudget(languageCount)
  }

  predicate IsGameOver(word: seq<char>, guessed: seq<char>, languageCount: nat)
    ensures !IsGameOver(word, guessed, languageCount) ==>
      |word| > 0 && WrongGuessCount(word, guessed) < GuessBudget(languageCount)
    ensures (forall x :: x in guessed ==> x in word) && languageCount >= 2 ==>
      (IsGameOver(word, guessed, languageCount) <==> IsGameWon(word, guessed))
  {
    IsGameWon(word, guessed) || IsGameLost(word, guessed, languageCount)
  }

  /** The most recently appended letter; `None` stands for JavaScript's `undefined`. */
  function LastGuessedLetter(guessed: seq<char>): (r: Option<char>)
    ensures r.None? <==> guessed == []
    ensures r.Some? ==> guessed == guessed[..|guessed| - 1] + [r.value]
  {
    if guessed == [] then None else Some(guessed[|guessed| - 1])
  }

  /** There is a last guess and it does not occur in the word. */
  predicate IsLastGuessIncorrect(word: seq<char>, guessed: seq<char>)
    ensures IsLastGuessIncorrect(word, guessed) ==>
      guessed != [] && guessed[|guessed| - 1] in WrongLetters(word, guessed)
    ensures IsLastGuessIncorrect(word, guessed) ==> WrongGuessCount(word, guessed) >= 1
    ensures guessed != [] && guessed[|guessed| - 1] !in word ==> IsLastGuessIncorrect(word, guessed)
  {
    match LastGuessedLetter(guessed)
    case None => false
    case Some(c) =>
      assert c in guessed;
      c !in word
  }

  // ---------------------------------------------------------------------
  // Facts about the derived values
  // ---------------------------------------------------------------------

  /** The filter over a list with one more letter at its end. */
  lemma {:induction false} WrongLettersAppend(word: seq<char>, guessed: seq<char>, c: char)
    ensures WrongLetters(word, guessed + [c])
         == WrongLetters(word, guessed) + (if c in word then [] else [c])
  {
    if guessed == [] {
      assert guessed + [c] == [c];
    } else {
      assert (guessed + [c])[1..] == guessed[1..] + [c];
      WrongLettersAppend(word, guessed[1..], c);
    }
  }

  /** The distinct guessed letters absent from the word. */
  function WrongLetterSet(word: seq<char>, guessed: seq<char>): set<char>
  {
    set x | x in guessed && x !in word
  }

  /** When no letter repeats, the wrong-guess count is the number of distinct wrong letters. */
  lemma {:induction false} WrongCountIsDistinctWrongLetters(word: seq<char>, guessed: seq<char>)
    requires Distinct(guessed)
    ensures WrongGuessCount(word, guessed) == |WrongLetterSet(word, guessed)|
  {
    if guessed != [] {
      var h, t := guessed[0], guessed[1..];
      assert forall j :: 0 <= j < |t| ==> t[j] == guessed[j + 1];
      assert Distinct(t);
      assert h !in t;
      WrongCountIsDistinctWrongLetters(word, t);
      var st := WrongLetterSet(word, t);
      var sg := WrongLetterSet(word, guessed);
      if h in word {
        assert sg == st;
      } else {
        assert sg == st + {h};
        assert h !in st;
      }
    }
  }

  /**
   * How one call of the updater changes the wrong-guess count, the win and
   * loss conditions and the last guessed letter.
   */
  lemma AddLetterEffect(word: seq<char>, guessed: seq<char>, c: char, languageCount: nat)
    ensures var next := AddLetter(guessed, c);
      && WrongGuessCount(word, next)
         == WrongGuessCount(word, guessed) + (if c in guessed || c in word then 0 else 1)
      && (c in word ==> IsGameLost(word, next, languageCount) == IsGameLost(word, guessed, languageCount))
      && (c !in word ==> IsGameWon(word, next) == IsGameWon(word, guessed))
      && (IsGameWon(word, guessed) ==> IsGameWon(word, next))
      && (IsGameLost(word, guessed, languageCount) ==> IsGameLost(word, next, languageCount))
      && LastGuessedLetter(next) == (if c in guessed then LastGuessedLetter(guessed) else Some(c))
  {
    if c !in guessed {
      WrongLettersAppend(word, guessed, c);
    }
  }

  /**
   * A single guess cannot take a round that is neither won nor lost into one
   * that is both: a letter either occurs in the word or it does not.
   */
  lemma OneGuessNotBoth(word: seq<char>, guessed: seq<char>, c: char, languageCount: nat)
    requires !IsGameWon(word, guessed) && !IsGameLost(word, guessed, languageCount)
    ensures var next := AddLetter(guessed, c);
      !(IsGameWon(word, next) && IsGameLost(word, next, languageCount))
  {
    AddLetterEffect(word, guessed, c, languageCount);
  }

  // ---------------------------------------------------------------------
  // Guessing behind the disabled keyboard
  // ---------------------------------------------------------------------

  /**
   * A guess as the keyboard lets it through: once the game is over, nothing
   * changes; while it is open, the letter is recorded (appended when new).
   */
  function GatedGuess(word: seq<char>, guessed: seq<char>, languageCount: nat, c: char): (r: seq<char>)
    ensures IsGameOver(word, guessed, languageCount) ==> r == guessed
    ensures !IsGameOver(word, guessed, languageCount) ==> c in r
    ensures c in guessed ==> r == guessed
    ensures |guessed| <= |r| <= |guessed| + 1 && r[..|guessed|] == guessed
    ensures forall x :: x in r ==> x in guessed || x == c
    ensures Distinct(guessed) ==> Distinct(r)
  {
    if IsGameOver(word, guessed, languageCount) then guessed else AddLetter(guessed, c)
  }

  /** Guesses made one after the other, starting from `guessed`. */
  function PlayGuesses(word: seq<char>, languageCount: nat, guessed: seq<char>, letters: seq<char>): (r: seq<char>)
    ensures |guessed| <= |r| <= |guessed| + |letters| && r[..|guessed|] == guessed
    ensures forall x :: x in r ==> x in guessed || x in letters
    ensures Distinct(guessed) ==> Distinct(r)
    decreases |letters|
  {
    if letters == [] then guessed
    else PlayGuesses(word, languageCount, GatedGuess(word, guessed, languageCount, letters[0]), letters[1..])
  }

  /**
   * What holds of every round played through the keyboard: no repeated
   * letters, the wrong-guess count within the budget, and never won and
   * lost at once.
   */
  predicate RoundInvariant(word: seq<char>, guessed: seq<char>, languageCount: nat)
  {
    && Distinct(guessed)
    && WrongGuessCount(word, guessed) <= GuessBudget(languageCount)
    && !(IsGameWon(word, guessed) && IsGameLost(word, guessed, languageCount))
  }

  /** A new round: no guesses, no wrong guesses, no last letter, and not yet over. */
  lemma FreshRound(word: seq<char>, languageCount: nat)
    requires |word| > 0 && languageCount >= 1
    ensures RoundInvariant(word, [], languageCount)
    ensures WrongGuessCount(word, []) == 0 && LastGuessedLetter([]) == None
    ensures !IsGameWon(word, [])
    ensures languageCount >= 2 ==> !IsGameOver(word, [], languageCount)
  {
    assert word[0] !in [];
  }

  lemma GatedGuessKeepsInvariant(word: seq<char>, guessed: seq<char>, languageCount: nat, c: char)
    requires RoundInvariant(word, guessed, languageCount)
    ensures RoundInvariant(word, GatedGuess(word, guessed, languageCount, c), languageCount)
  {
    if !IsGameOver(word, guessed, languageCount) {
      AddLetterEffect(word, guessed, c, languageCount);
      OneGuessNotBoth(word, guessed, c, languageCount);
    }
  }

  lemma {:induction false} PlayKeepsInvariant(word: seq<char>, languageCount: nat, guessed: seq<char>, letters: seq<char>)
    requires RoundInvariant(word, guessed, languageCount)
    ensures RoundInvariant(word, PlayGuesses(word, languageCount, guessed, letters), languageCount)
    decreases |letters|
  {
    if letters != [] {
      GatedGuessKeepsInvariant(word, guessed, languageCount, letters[0]);
      PlayKeepsInvariant(word, languageCount, GatedGuess(word, guessed, languageCount, letters[0]), letters[1..]);
    }
  }

  /** Every round started fresh and played through the keyboard keeps the round invariant. */
  lemma PlayedRoundsKeepInvariant(word: seq<char>, languageCount: nat, letters: seq<char>)
    requires |word| > 0 && languageCount >= 1
    ensures RoundInvariant(word, PlayGuesses(word, languageCount, [], letters), languageCount)
  {
    FreshRound(word, languageCount);
    PlayKeepsInvariant(word, languageCount, [], letters);
  }

  /** Every letter of a list that occurs nowhere in the word is counted as wrong. */
  lemma {:induction false} AllWrongLetters(word: seq<char>, guessed: seq<char>)
    requires forall x :: x in guessed ==> x !in word
    ensures WrongLetters(word, guessed) == guessed
  {
    if guessed != [] {
      assert guessed[0] in guessed;
      assert forall x :: x in guessed[1..] ==> x in guessed;
      AllWrongLetters(word, guessed[1..]);
      assert [guessed[0]] + guessed[1..] == guessed;
    }
  }

  /**
   * Distinct letters that all miss the word, no more of them than the budget,
   * are all accepted: once the first `k` of them are recorded, the remaining
   * ones are appended in order and the round does not end before the last.
   */
  lemma {:induction false} WrongGuessesAccumulate(word: seq<char>, languageCount: nat, letters: seq<char>, k: nat)
    requires |word| > 0 && Distinct(letters)
    requires forall x :: x in letters ==> x !in word
    requires k <= |letters| <= GuessBudget(languageCount)
    ensures PlayGuesses(word, languageCount, letters[..k], letters[k..]) == letters
    decreases |letters| - k
  {
    if k < |letters| {
      var done := letters[..k];
      assert forall x :: x in done ==> x in letters;
      AllWrongLetters(word, done);
      assert word[0] !in done;
      assert !IsGameOver(word, done, languageCount);
      assert letters[k] !in done;
      assert AddLetter(done, letters[k]) == letters[..k + 1];
      assert letters[k..][1..] == letters[k + 1..];
      WrongGuessesAccumulate(word, languageCount, letters, k + 1);
    } else {
      assert letters[..k] == letters;
    }
  }

  /** Distinct wrong letters, fewer than the budget, leave the round open once all are guessed. */
  lemma WrongGuessesLeaveRoundOpen(word: seq<char>, languageCount: nat, letters: seq<char>)
    requires |word| > 0 && Distinct(letters)
    requires forall x :: x in letters ==> x !in word
    requires |letters| < GuessBudget(languageCount)
    ensures !IsGameOver(word, PlayGuesses(word, languageCount, [], letters), languageCount)
  {
    assert letters[..0] == [] && letters[0..] == letters;
    WrongGuessesAccumulate(word, languageCount, letters, 0);
    AllWrongLetters(word, letters);
    assert word[0] !in letters;
  }

  /** Fewer distinct wrong letters than the budget never end the round, after any of them. */
  lemma WrongGuessesBelowBudget(word: seq<char>, languageCount: nat, letters: seq<char>)
    requires |word| > 0 && Distinct(letters)
    requires forall x :: x in letters ==> x !in word
    requires |letters| < GuessBudget(languageCount)
    ensures forall k :: 0 <= k <= |letters| ==>
      !IsGameOver(word, PlayGuesses(word, languageCount, [], letters[..k]), languageCount)
  {
    forall k | 0 <= k <= |letters|
      ensures !IsGameOver(word, PlayGuesses(word, languageCount, [], letters[..k]), languageCount)
    {
      var p := letters[..k];
      assert forall i :: 0 <= i < |p| ==> p[i] == letters[i];
      assert forall x :: x in p ==> x in letters;
      WrongGuessesLeaveRoundOpen(word, languageCount, p);
    }
  }

  /**
   * Exactly as many distinct wrong letters as the budget lose the round, do
   * not win it, and every further guess is ignored.
   */
  lemma WrongGuessesExhaustBudget(word: seq<char>, languageCount: nat, letters: seq<char>)
    requires |word| > 0 && Distinct(letters)
    requires forall x :: x in letters ==> x !in word
    requires |letters| == GuessBudget(languageCount)
    ensures var g := PlayGuesses(word, languageCount, [], letters);
      && IsGameLost(word, g, languageCount)
      && !IsGameWon(word, g)
      && IsGameOver(word, g, languageCount)
      && forall c :: GatedGuess(word, g, languageCount, c) == g
  {
    assert letters[..0] == [] && letters[0..] == letters;
    WrongGuessesAccumulate(word, languageCount, letters, 0);
    AllWrongLetters(word, letters);
    assert word[0] !in letters;
  }

  /** A subset is no larger than its superset. */
  lemma {:induction false} SubsetCardinality(a: set<char>, b: set<char>)
    requires a <= b
    ensures |a| <= |b|
  {
    if a != {} {
      var x :| x in a;
      SubsetCardinality(a - {x}, b - {x});
    }
  }

  /**
   * While the distinct wrong letters among the recorded and the pending
   * guesses cannot exhaust the budget, the round is not lost, and either it
   * is won or every letter offered so far has been recorded.
   */
  lemma {:induction false} PlayWithinBudget(word: seq<char>, languageCount: nat, guessed: seq<char>, letters: seq<char>)
    requires Distinct(guessed)
    requires |WrongLetterSet(word, guessed + letters)| < GuessBudget(languageCount)
    ensures var r := PlayGuesses(word, languageCount, guessed, letters);
      && !IsGameLost(word, r, languageCount)
      && (IsGameWon(word, r) || forall x :: x in guessed + letters ==> x in r)
    decreases |letters|
  {
    WrongCountIsDistinctWrongLetters(word, guessed);
    SubsetCardinality(WrongLetterSet(word, guessed), WrongLetterSet(word, guessed + letters));
    if letters != [] {
      var c, rest := letters[0], letters[1..];
      var next := GatedGuess(word, guessed, languageCount, c);
      assert WrongLetterSet(word, next + rest) <= WrongLetterSet(word, guessed + letters) by {
        forall x | x in next + rest ensures x in guessed + letters {
          assert x in guessed || x == c || x in rest;
        }
      }
      SubsetCardinality(WrongLetterSet(word, next + rest), WrongLetterSet(word, guessed + letters));
      PlayWithinBudget(word, languageCount, next, rest);
      var r := PlayGuesses(word, languageCount, next, rest);
      if IsGameOver(word, guessed, languageCount) {
        assert IsGameWon(word, guessed);
      } else {
        if !IsGameWon(word, r) {
          forall x | x in guessed + letters ensures x in r {
            assert x in guessed || x == c || x in rest;
            assert x in next + rest;
          }
        }
      }
    }
  }

  /**
   * Offering every letter of the word, in any order and with repeats, wins
   * the round as long as the distinct wrong letters among the guesses stay
   * below the budget.
   */
  lemma GuessingTheWordWins(word: seq<char>, languageCount: nat, letters: seq<char>)
    requires forall i :: 0 <= i < |word| ==> word[i] in letters
    requires |WrongLetterSet(word, letters)| < GuessBudget(languageCount)
    ensures var g := PlayGuesses(word, languageCount, [], letters);
      IsGameWon(word, g) && !IsGameLost(word, g, languageCount)
  {
    assert [] + letters == letters;
    PlayWithinBudget(word, languageCount, [], letters);
  }
}
