# Assembly: Endgame — round logic

A model of the game component of *Assembly: Endgame*. In this hangman-style
game the player guesses the letters of a hidden word. Each wrong guess
eliminates one programming language from an ordered registry. The round is
won when every letter of the word has been guessed. It is lost when the wrong
guesses reach the registry size minus one.

The component holds two pieces of state: the target word `currentWord` and
the insertion-ordered list `guessedLetters`. Everything else is recomputed
from them:

- `GameRules.dfy` (module `GameRules`) holds the derived values and the
  updater that the letter handler passes to the setter (`AddLetter`). The
  derived values are the wrong-guess count, the budget, won, lost, game over,
  the last guessed letter and whether that guess missed. The module also
  models guessing behind the disabled keyboard (`GatedGuess`, and
  `PlayGuesses` for a series of guesses) and proves what such rounds keep.
- `Rendering.dfy` (module `Rendering`) holds the display rules, reduced to
  the facts the markup is built from. These are the lost language chips, the
  revealed and missed word positions, the correct and wrong keyboard marks,
  and the priority of the status banner.
- `Endgame.dfy` (module `Endgame`) holds the class `AssemblyEndgame`. Its
  two fields are updated in place by the handlers `AddGuessedLetter` and
  `StartNewGame`. `Guess` is a click on a letter button: the buttons are
  disabled once the round is over, so `Guess` is then a no-op.

The language registry is represented only by its length, `languageCount`.
The random word source is a parameter: the constructor and `StartNewGame`
take the word and require it to be non-empty.

Behaviour of the code that the model keeps:

- The letter handler accepts any character and checks neither the alphabet
  nor the game state. Only the disabled buttons (App.jsx:108) keep guesses
  out after the round ends. `AddGuessedLetter` is therefore unguarded;
  `Guess` stands for a click on a button and changes nothing once the round
  is over.
- An empty word counts as won, because `every` over an empty array is true.
  A registry of length 0 or 1 gives a round that is lost from the start.

## Model

| member | source | states |
|---|---|---|
| `GameRules.AddLetter` | App.jsx:51-55 | the new letter is always present; earlier letters keep their order; a repeated letter leaves the list unchanged, a new one becomes the last element; a list without duplicates stays without duplicates |
| `GameRules.WrongLetters` | App.jsx:24-26 | the filtered letters are exactly the guessed letters absent from the word, and there are no more of them than guesses |
| `GameRules.WrongGuessCount` | App.jsx:24-26 | the count is at most the number of guesses, and it is zero exactly when every guessed letter occurs in the word |
| `GameRules.GuessBudget` | App.jsx:22 | the budget is one less than the registry size, below it, and not negative for a non-empty registry |
| `GameRules.IsGameWon` | App.jsx:29-31 | won exactly when every character of the word is among the guessed letters; an empty word is won |
| `GameRules.IsGameLost` | App.jsx:34 | lost exactly when the wrong-guess count reaches the budget; a registry of at most one entry is lost from the start; losing takes at least budget guesses |
| `GameRules.IsGameOver` | App.jsx:37 | over is won or lost; a round that is not over has a non-empty word and fewer wrong guesses than the budget; with only correct guesses and a registry of at least 2, over means won |
| `GameRules.LastGuessedLetter` | App.jsx:40 | undefined exactly for an empty list; otherwise the list is its earlier letters followed by this one |
| `GameRules.IsLastGuessIncorrect` | App.jsx:43-44 | holds exactly when there is a last letter and it is absent from the word; that letter is then one of the counted wrong letters, so the wrong-guess count is at least 1 |
| `GameRules.WrongLettersAppend` | App.jsx:24-26 | appending a letter extends the wrong letters by that letter exactly when it is absent from the word |
| `GameRules.WrongCountIsDistinctWrongLetters` | App.jsx:24-26 | with no repeated guesses, the wrong-guess count equals the number of distinct guessed letters absent from the word |
| `GameRules.AddLetterEffect` | App.jsx:24-44 | one guess raises the wrong-guess count by 1 exactly when the letter is new and absent from the word, and leaves it unchanged otherwise; a hit cannot change lost, a miss cannot change won; won and lost never revert; the last letter becomes the new letter, or stays as it was on a repeat |
| `GameRules.OneGuessNotBoth` | App.jsx:29-37 | one guess cannot turn a round that is neither won nor lost into one that is both |
| `GameRules.FreshRound` | App.jsx:58-61 | a round with no guesses has wrong-guess count 0, no last letter and is not won; with a budget of at least 1 it is not over; with a registry of at least one entry it satisfies the round invariant |
| `GameRules.GatedGuess` | App.jsx:108-111 | a click on a letter button: once the round is over nothing changes; otherwise the clicked letter is recorded (appended when new, the list unchanged when already guessed); earlier guesses are kept in order, nothing else is added, and distinctness is kept |
| `GameRules.PlayGuesses` | App.jsx:108-111 | a series of clicks only extends the guess list, keeps earlier guesses in order, adds only offered letters, and keeps distinctness |
| `GameRules.GatedGuessKeepsInvariant` | App.jsx:108 | a guess through the keyboard keeps the guesses distinct, the wrong-guess count within the budget, and won and lost exclusive |
| `GameRules.PlayKeepsInvariant` | App.jsx:108 | any series of keyboard guesses keeps the round invariant |
| `GameRules.PlayedRoundsKeepInvariant` | App.jsx:16-18 | every round started with a non-empty word, with a registry of at least one entry, and played through the keyboard keeps the wrong-guess count within `languageCount - 1` and is never both won and lost |
| `GameRules.AllWrongLetters` | App.jsx:24-26 | if no guessed letter occurs in the word, every guess counts as wrong |
| `GameRules.WrongGuessesAccumulate` | App.jsx:51-55 | distinct missing letters, no more than the budget, are all recorded in order by keyboard guesses |
| `GameRules.WrongGuessesLeaveRoundOpen` | App.jsx:22-37 | after fewer than budget distinct wrong letters, all guessed, the round is neither won nor lost |
| `GameRules.WrongGuessesBelowBudget` | App.jsx:22-37 | after each of fewer than budget distinct wrong letters the round is not over |
| `GameRules.WrongGuessesExhaustBudget` | App.jsx:22-37 | exactly budget distinct wrong letters lose the round without winning it, and any further keyboard guess changes nothing |
| `GameRules.PlayWithinBudget` | App.jsx:29-37 | while the distinct wrong letters among recorded and pending guesses cannot exhaust the budget, the round is not lost, and either it is won or every letter offered has been recorded |
| `GameRules.GuessingTheWordWins` | App.jsx:29-34 | offering every letter of the word, in any order and with repeats, with fewer distinct wrong letters than the budget, wins and does not lose the round (a repeated wrong letter is counted once, as the updater ignores it) |
| `Rendering.LanguageChips` | App.jsx:66-67 | one flag per registry entry, and the lost chips form a prefix of the registry |
| `Rendering.LostChipCount` | App.jsx:66-67 | the number of chips marked lost is `min(wrongGuessCount, languageCount)` |
| `Rendering.EliminatedChipsMatchWrongGuesses` | App.jsx:66-67 | in a round played through the keyboard the lost chips are exactly as many as the wrong guesses, and the last registry entry is never lost |
| `Rendering.WordTiles` | App.jsx:81-91 | one tile per position of the word |
| `Rendering.Upper` | App.jsx:88 | a lower-case ASCII letter becomes its upper-case form, every other character is kept, and no lower-case ASCII letter is left |
| `Rendering.WordTileRules` | App.jsx:81-88 | a position is revealed (upper-cased) exactly when the round is lost or its letter was guessed; it is flagged missed exactly when the round is lost and its letter was not guessed; a missed position is always shown; a won round has no missed position; before the round ends only guessed letters show |
| `Rendering.KeyboardKey` | App.jsx:94-110 | a key is guessed when its letter is; the correct and wrong marks exclude each other and together cover exactly the guessed keys; correct implies the letter is in the word, wrong implies it is a counted wrong letter; every key is disabled exactly when the round is over |
| `Rendering.GameStatus` | App.jsx:126-154 | the farewell shows exactly when the round is not over and the last guess missed, and then names a valid registry index, the one at wrong-guess count minus 1; the win message shows exactly when the round is won; the loss message exactly when lost and not won; nothing otherwise |
| `Rendering.FarewellNamesLastEliminated` | App.jsx:127-130 | the language named by the farewell is a lost chip and the chip after it is not lost |
| `Rendering.WrongGuessBringsFarewell` | App.jsx:127-130 | a new letter absent from the word that leaves the round open brings up the farewell, naming the registry entry at the old wrong-guess count: the language this guess eliminated |
| `Rendering.BannerClasses` | App.jsx:119-123 | the farewell modifier excludes won and lost and agrees with the farewell message; won agrees with the win message, lost-and-not-won with the loss message; in a keyboard-played round won and lost never appear together |
| `Endgame.AssemblyEndgame.constructor` | App.jsx:16-18 | the component starts with the given word and no guesses; with a registry of at least 1 it satisfies the round invariant, with at least 2 it is not over |
| `Endgame.AssemblyEndgame.AddGuessedLetter` | App.jsx:51-55 | the guessed letters become the updater's result, the word is unchanged, the letter is present, and the wrong-guess count grows by 1 exactly on a new letter absent from the word |
| `Endgame.AssemblyEndgame.Guess` | App.jsx:105-111 | a guess while the round is over changes nothing; otherwise it is `AddGuessedLetter` and the letter is recorded; the round invariant is kept |
| `Endgame.AssemblyEndgame.StartNewGame` | App.jsx:58-61 | the word is replaced and the guesses cleared; the wrong-guess count is 0, there is no last letter, and with a registry of at least 2 the round is not over |

## Left out

- `getRandomWord` and `getFarewellText` (App.jsx:4): their code is not part of this model. The word is a parameter of the constructor and of `StartNewGame`; a farewell is represented by the registry index it is given.
- The language registry data (App.jsx:3): only its length is modelled. Names and colours are presentation data.
- React machinery: `useState` and re-rendering, `clsx` class strings, inline styles, JSX markup, keys, and the `Confetti` effect shown on a win (App.jsx:1-5, 68-77, 99-102, 160).
- The alphabet constant and the button wiring (App.jsx:47, 105-115): a guess is a single `char`. The `New Game` button shown only when the round is over (App.jsx:204-208) is not modelled; `StartNewGame` may be called in any state, as its code allows.
- Accessibility text: aria labels, the screen-reader sentences, and their "attempts left" figure (App.jsx:182-197). That figure is the static budget and does not decrease; it is not modelled.
- The hard-coded "8 attempts" header text (App.jsx:165).
- Rendering.Upper (used by Rendering.WordTiles): `toUpperCase` is modelled for the ASCII letters `a`-`z` only; other characters are shown unchanged.
