/**
 * The game component's state: the target word and the guessed letters,
 * which the two handlers update in place, and the registry size, which is
 * fixed for the life of the component.
 */
module Endgame {
  import opened GameRules

  class AssemblyEndgame {
    var currentWord: seq<char>
    var guessedLetters: seq<char>
    const languageCount: nat

    /** The word is never empty and no letter is recorded twice. */
    ghost predicate Valid()
      reads this
    {
      |currentWord| > 0 && Distinct(guessedLetters)
    }

    /** The state reachable by guessing through the keyboard (see `GameRules.RoundInvariant`). */
    ghost predicate InPlay()
      reads this
    {
      RoundInvariant(currentWord, guessedLetters, languageCount)
    }

    /** A new component: the word comes from the word source, no letter guessed yet. */
    constructor (word: seq<char>, languageCount: nat)
      requires |word| > 0
      ensures Valid()
      ensures currentWord == word && guessedLetters == [] && this.languageCount == languageCount
      ensures languageCount >= 1 ==> InPlay()
      ensures languageCount >= 2 ==> !IsGameOver(currentWord, guessedLetters, languageCount)
    {
      currentWord := word;
      guessedLetters := [];
      this.languageCount := languageCount;
      new;
      if languageCount >= 1 {
        FreshRound(word, languageCount);
      }
    }

    /**
     * The letter handler itself: records a letter that is not yet present,
     * whatever the state of the round.
     */
    method AddGuessedLetter(letter: char)
      requires Valid()
      modifies this
      ensures Valid()
      ensures currentWord == old(currentWord)
      ensures guessedLetters == AddLetter(old(guessedLetters), letter)
      ensures letter in guessedLetters
      ensures WrongGuessCount(currentWord, guessedLetters) == WrongGuessCount(currentWord, old(guessedLetters))
        + (if letter in old(guessedLetters) || letter in currentWord then 0 else 1)
    {
      AddLetterEffect(currentWord, guessedLetters, letter, languageCount);
      if letter !in guessedLetters {
        guessedLetters := guessedLetters + [letter];
      }
    }

    /**
     * A click on a letter button: the buttons are disabled once the round is
     * over, so a guess then changes nothing; otherwise the letter handler runs.
     */
    method Guess(letter: char)
      requires Valid()
      modifies this
      ensures Valid()
      ensures currentWord == old(currentWord)
      ensures guessedLetters == GatedGuess(old(currentWord), old(guessedLetters), languageCount, letter)
      ensures old(IsGameOver(currentWord, guessedLetters, languageCount)) ==> guessedLetters == old(guessedLetters)
      ensures !old(IsGameOver(currentWord, guessedLetters, languageCount)) ==> letter in guessedLetters
      ensures old(InPlay()) ==> InPlay()
    {
      if InPlay() {
        GatedGuessKeepsInvariant(currentWord, guessedLetters, languageCount, letter);
      }
      if !IsGameOver(currentWord, guessedLetters, languageCount) {
        AddGuessedLetter(letter);
      }
    }

    /** The new-game handler: a fresh word from the word source and no guesses. */
    method StartNewGame(word: seq<char>)
      requires |word| > 0
      modifies this
      ensures Valid()
      ensures currentWord == word && guessedLetters == []
      ensures WrongGuessCount(currentWord, guessedLetters) == 0
      ensures LastGuessedLetter(guessedLetters) == None
      ensures languageCount >= 1 ==> InPlay()
      ensures languageCount >= 2 ==> !IsGameOver(currentWord, guessedLetters, languageCount)
    {
      currentWord := word;
      guessedLetters := [];
      if languageCount >= 1 {
        FreshRound(word, languageCount);
      }
    }
  }
}
