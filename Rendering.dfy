/**
 * What the game screen shows, derived from the round state: the language
 * chips, the tiles of the target word, the marks on the keyboard and the
 * status banner. Markup, class strings and styles are not modelled; each
 * view is reduced to the facts the markup is built from.
 */
module Rendering {
  import opened GameRules

  function Min(a: nat, b: nat): nat
  {
    if a <= b then a else b
  }

  // ---------------------------------------------------------------------
  // Language chips
  // ---------------------------------------------------------------------

  /**
   * One flag per registry entry, true where the chip is shown as lost: the
   * entries are eliminated by position, the first `wrongCount` of them.
   */
  function LanguageChips(languageCount: nat, wrongCount: nat): (r: seq<bool>)
    ensures |r| == languageCount
    ensures forall i, j :: 0 <= i <= j < |r| && r[j] ==> r[i]
  {
    seq(languageCount, i => i < wrongCount)
  }

  /** Number of chips marked lost. */
  function CountLost(chips: seq<bool>): nat
  {
    if chips == [] then 0
    else CountLost(chips[..|chips| - 1]) + (if chips[|chips| - 1] then 1 else 0)
  }

  lemma {:induction false} LostChipCount(languageCount: nat, wrongCount: nat)
    ensures CountLost(LanguageChips(languageCount, wrongCount)) == Min(wrongCount, languageCount)
  {
    if languageCount > 0 {
      var chips := LanguageChips(languageCount, wrongCount);
      assert chips[..languageCount - 1] == LanguageChips(languageCount - 1, wrongCount);
      LostChipCount(languageCount - 1, wrongCount);
    }
  }

  /**
   * In a round played through the keyboard the lost chips are exactly as
   * many as the wrong guesses, and the last registry entry is never lost.
   */
  lemma EliminatedChipsMatchWrongGuesses(word: seq<char>, guessed: seq<char>, languageCount: nat)
    requires RoundInvariant(word, guessed, languageCount)
    ensures var chips := LanguageChips(languageCount, WrongGuessCount(word, guessed));
      && CountLost(chips) == WrongGuessCount(word, guessed)
      && languageCount >= 1 && !chips[languageCount - 1]
  {
    LostChipCount(languageCount, WrongGuessCount(word, guessed));
  }

  // ---------------------------------------------------------------------
  // Word tiles
  // ---------------------------------------------------------------------

  /** One position of the target word: the letter shown (if any), and the missed-letter flag. */
  datatype LetterTile = LetterTile(shown: Option<char>, missed: bool)

  /** Upper-casing of the ASCII lower-case letters; other characters are kept. */
  function Upper(c: char): (r: char)
    ensures 'a' <= c <= 'z' ==> 'A' <= r <= 'Z' && r as int + 32 == c as int
    ensures !('a' <= c <= 'z') ==> r == c
    ensures !('a' <= r <= 'z')
  {
    if 'a' <= c <= 'z' then (c as int - 32) as char else c
  }

  function WordTiles(word: seq<char>, guessed: seq<char>, languageCount: nat): (r: seq<LetterTile>)
    ensures |r| == |word|
  {
    var lost := IsGameLost(word, guessed, languageCount);
    seq(|word|, i requires 0 <= i < |word| =>
      LetterTile(
        if lost || word[i] in guessed then Some(Upper(word[i])) else None,
        lost && word[i] !in guessed))
  }

  /**
   * A position is revealed when the round is lost or its letter was guessed;
   * it is flagged missed only in a lost round whose letter was never
   * guessed. Hence a missed position is always shown, a won round has no
   * missed position, and before the round ends only guessed letters show.
   */
  lemma WordTileRules(word: seq<char>, guessed: seq<char>, languageCount: nat, i: nat)
    requires i < |word|
    ensures var t := WordTiles(word, guessed, languageCount)[i];
      && (t.shown.Some? <==> IsGameLost(word, guessed, languageCount) || word[i] in guessed)
      && (t.shown.Some? ==> t.shown.value == Upper(word[i]))
      && (t.missed <==> IsGameLost(word, guessed, languageCount) && word[i] !in guessed)
      && (t.missed ==> t.shown.Some?)
      && (IsGameWon(word, guessed) ==> t.shown.Some? && !t.missed)
      && (!IsGameOver(word, guessed, languageCount) ==> (t.shown.Some? <==> word[i] in guessed))
  {
  }

  // ---------------------------------------------------------------------
  // Keyboard
  // ---------------------------------------------------------------------

  /** The state of one letter button. */
  datatype KeyMarks = KeyMarks(disabled: bool, guessed: bool, correct: bool, wrong: bool)

  /**
   * A guessed key is marked either correct or wrong, never both, according
   * to the word; an unguessed key carries neither mark; every key is
   * disabled exactly when the round is over.
   */
  function KeyboardKey(word: seq<char>, guessed: seq<char>, languageCount: nat, letter: char): (k: KeyMarks)
    ensures k.guessed <==> letter in guessed
    ensures !(k.correct && k.wrong)
    ensures k.correct || k.wrong <==> letter in guessed
    ensures k.correct ==> letter in word
    ensures k.wrong ==> letter !in word && letter in WrongLetters(word, guessed)
    ensures k.disabled <==> IsGameOver(word, guessed, languageCount)
  {
    var isGuessed := letter in guessed;
    KeyMarks(
      IsGameOver(word, guessed, languageCount),
      isGuessed,
      isGuessed && letter in word,
      isGuessed && letter !in word)
  }

  // ---------------------------------------------------------------------
  // Status banner
  // ---------------------------------------------------------------------

  /** The banner message; a farewell names the registry entry at `languageIndex`. */
  datatype StatusMessage = Farewell(languageIndex: nat) | WinMessage | LossMessage | NoMessage

  /**
   * The banner, by priority: farewell to the language just eliminated, then
   * the win message, then the loss message, then nothing.
   */
  function GameStatus(word: seq<char>, guessed: seq<char>, languageCount: nat): (r: StatusMessage)
    ensures r.Farewell? <==>
      !IsGameOver(word, guessed, languageCount) && IsLastGuessIncorrect(word, guessed)
    ensures r.Farewell? ==>
      r.languageIndex + 1 == WrongGuessCount(word, guessed) && r.languageIndex < languageCount
    ensures r == WinMessage <==> IsGameWon(word, guessed)
    ensures r == LossMessage <==> IsGameLost(word, guessed, languageCount) && !IsGameWon(word, guessed)
    ensures r == NoMessage <==>
      !IsGameOver(word, guessed, languageCount) && !IsLastGuessIncorrect(word, guessed)
  {
    if !IsGameOver(word, guessed, languageCount) && IsLastGuessIncorrect(word, guessed) then
      Farewell(WrongGuessCount(word, guessed) - 1)
    else if IsGameWon(word, guessed) then WinMessage
    else if IsGameLost(word, guessed, languageCount) then LossMessage
    else NoMessage
  }

  /** The farewell names the chip eliminated last: it is lost and the next one is not. */
  lemma FarewellNamesLastEliminated(word: seq<char>, guessed: seq<char>, languageCount: nat)
    requires GameStatus(word, guessed, languageCount).Farewell?
    ensures var i := GameStatus(word, guessed, languageCount).languageIndex;
      var chips := LanguageChips(languageCount, WrongGuessCount(word, guessed));
      && i + 1 < languageCount
      && chips[i] && !chips[i + 1]
  {
  }

  /**
   * A new letter that misses the word and leaves the round open brings up
   * the farewell, naming the language this very guess eliminated.
   */
  lemma WrongGuessBringsFarewell(word: seq<char>, guessed: seq<char>, languageCount: nat, c: char)
    requires c !in guessed && c !in word
    requires !IsGameOver(word, AddLetter(guessed, c), languageCount)
    ensures GameStatus(word, AddLetter(guessed, c), languageCount) == Farewell(WrongGuessCount(word, guessed))
  {
    AddLetterEffect(word, guessed, c, languageCount);
  }

  /** The won, lost and farewell modifiers of the banner. */
  datatype StatusClasses = StatusClasses(won: bool, lost: bool, farewell: bool)

  /**
   * The farewell modifier excludes the other two and agrees with the banner
   * message; in a round played through the keyboard won and lost never
   * appear together.
   */
  function BannerClasses(word: seq<char>, guessed: seq<char>, languageCount: nat): (c: StatusClasses)
    ensures c.farewell ==> !c.won && !c.lost
    ensures c.farewell <==> GameStatus(word, guessed, languageCount).Farewell?
    ensures c.won <==> GameStatus(word, guessed, languageCount) == WinMessage
    ensures c.lost && !c.won <==> GameStatus(word, guessed, languageCount) == LossMessage
    ensures RoundInvariant(word, guessed, languageCount) ==> !(c.won && c.lost)
  {
    StatusClasses(
      IsGameWon(word, guessed),
      IsGameLost(word, guessed, languageCount),
      !IsGameOver(word, guessed, languageCount) && IsLastGuessIncorrect(word, guessed))
  }
}
