# Assembly: Endgame — round engine

Assembly: Endgame is a word-guessing game. A player guesses the letters of
a hidden word one at a time. Each guess that is absent from the word costs
one programming-language chip. The round is won when every letter of the
word has been guessed. It is lost when the wrong guesses reach one less than
the number of chips.

This project models the round engine of the game component `src/App.jsx`.
The engine is made of three parts:

- The round's two pieces of state, the hidden word and the ordered guess
  list. They are the fields of the `GameRound.Round` class. Two of its
  methods update them in place: `AddGuessedLetter` submits a guess and
  `StartNewGame` starts a new round. `CountWrongGuesses` reads the
  wrong-guess count.
- The facts derived on every render, as pure functions in module
  `GameState`: the wrong guesses and their count, won, lost, over, the last
  guess, whether it was wrong, and the farewell state.
- The flags the view derives from the same state, as pure functions in
  module `GameView`: the status banner and the precedence between its
  cases, the status-section classes, the lost mark of each language chip,
  the revealed and missed marks of each word position, and the
  correct/wrong/disabled marks of each keyboard key.

Module `GameScenarios` plays concrete rounds on the word "cat" with a
nine-chip catalog through the `Round` class.

Modelling choices:

- The language catalog is a `seq<Language>` that keeps only each chip's
  name. The loss threshold is its length minus one.
- The random word source is not part of the model. The new word is an
  argument of the constructor and of `StartNewGame`.
- The farewell-text helper is not part of the model either. A farewell
  banner carries the name of the chip that would be handed to it.
- Guesses are single characters. Submission does not check that a guess
  is a letter or that the round is still going on. Only the keyboard stops
  input once the round is over (`src/App.jsx:106`), and that gate is
  modelled by the predicate `PlayedWhileInProgress`.

The header promises a round of under eight attempts
(`src/App.jsx:127`), but the rules in the code are only the derived values
at `src/App.jsx:14-20`. The model follows those rules, with these
consequences:

- A catalog of one chip or none makes every round lost from the start,
  because `0 >= length - 1`. Lemmas that need a live round ask for at least
  two chips.
- An empty word is won from the start, because `every` holds on an empty
  list.
- A duplicate press is possible, because keys stay enabled after being
  guessed. Such a press changes nothing. So a repeated correct letter right
  after a wrong guess does not clear the farewell.

## Model

| member | source | states |
|---|---|---|
| GameState.AddLetter | src/App.jsx:27 | the submitted letter ends up in the list; the earlier entries are kept as a prefix; the list grows by one exactly when the letter was new; the set of letters gains exactly that letter; no-duplicates is preserved |
| GameState.AddLetterIdempotent | src/App.jsx:25-29 | a letter already guessed leaves the list unchanged, so submitting twice equals submitting once |
| GameState.NumGuessesLeft | src/App.jsx:14 | the loss threshold is less than the catalog size, and is not negative for a non-empty catalog |
| GameState.WrongGuesses | src/App.jsx:15 | the wrong guesses are exactly the guessed letters that are absent from the word, and there are no more of them than guesses |
| GameState.WrongGuessCount | src/App.jsx:15 | the wrong-guess count never exceeds the number of guesses |
| GameState.NoMissesNoWrongGuesses | src/App.jsx:15 | when every guess is in the word, the filter keeps nothing |
| GameState.IsGameWon | src/App.jsx:16 | the round is won iff every letter of the word occurs among the guesses |
| GameState.IsGameLost | src/App.jsx:17 | a loss needs at least length - 1 guesses; without a wrong guess the round is lost iff the catalog has at most one chip |
| GameState.IsGameOver | src/App.jsx:18 | while the round is not over, some letter of the word is unguessed and the wrong-guess count is at most length - 2 |
| GameState.WrongGuessesAppend | src/App.jsx:15 | appending a guess extends the wrong guesses by that guess exactly when it is absent from the word |
| GameState.WrongGuessesDistinct | src/App.jsx:15 | filtering a guess list without repeats gives a list without repeats |
| GameState.WrongCountAfterGuess | src/App.jsx:15-29 | a submission never lowers the wrong-guess count and raises it by at most one, exactly when the letter is new and absent from the word |
| GameState.WrongCountIsDistinctMisses | src/App.jsx:15 | for a list without repeats, the wrong-guess count equals the number of distinct guessed letters absent from the word, so it is independent of guess order |
| GameState.WonStaysWon | src/App.jsx:16 | a won round stays won after any further submission |
| GameState.WrongGuessKeepsWon | src/App.jsx:16 | a guess absent from the word does not change whether the round is won |
| GameState.WonIffLettersCovered | src/App.jsx:16 | the round is won iff every distinct letter of the word is among the guesses, repeats in the word needing one guess |
| GameState.WonIgnoresOrder | src/App.jsx:16 | two guess lists with the same letters agree on winning, whatever their order |
| GameState.WinWithoutMisses | src/App.jsx:14-18 | guessing exactly the distinct letters of the word, in any order, wins with zero wrong guesses and is not lost, given at least two chips |
| GameState.LoseByDistinctMisses | src/App.jsx:14-17 | a list without repeats holding at least length-1 letters absent from the word is lost, whatever correct letters it also holds; reaching the threshold exactly loses |
| GameState.LastGuessedLetter | src/App.jsx:19 | there is no last guess exactly when the list is empty; a last guess is one of the guesses |
| GameState.LastGuessAfterSubmit | src/App.jsx:19-29 | after submitting a new letter the last guess is that letter; after a repeated one the last guess is unchanged |
| GameState.IsLastGuessIncorrect | src/App.jsx:20 | when the last guess is wrong, there is a last guess, at least one wrong guess, and the last wrong guess is the last guess |
| GameState.IsFarewell | src/App.jsx:34-41 | in the farewell state 1 <= wrongGuessCount and wrongGuessCount - 1 < length - 1, so the chip lookup at wrongGuessCount - 1 is in range and never the final chip |
| GameState.FarewellAfterGuess | src/App.jsx:19-20 | after a new guess the farewell holds iff that guess is absent from the word and the round is not over; a repeated guess leaves the farewell as it was |
| GameState.FreshRound | src/App.jsx:116-118 | with no guesses the wrong-guess count is 0, the round is not lost (at least two chips), it is won only for the empty word, there is no last guess and no farewell |
| GameState.GatedPlayNeverWonAndLost | src/App.jsx:106 | when every guess was made while the round was not over, it is never both won and lost, and the wrong-guess count never passes length - 1 |
| GameRound.Round.constructor | src/App.jsx:10-11 | the round starts with the supplied word and an empty guess list, and without duplicates |
| GameRound.Round.AddGuessedLetter | src/App.jsx:25-29 | with no game-over precondition, the word is unchanged; a new letter is appended; a repeated one leaves the list as it was; the list stays free of duplicates; the wrong-guess count grows by one exactly for a new miss |
| GameRound.Round.CountWrongGuesses | src/App.jsx:15 | the round's wrong-guess count is the number of distinct guessed letters absent from the word |
| GameRound.Round.StartNewGame | src/App.jsx:116-119 | word and guess list are replaced together; the list is empty, the wrong-guess count is 0 and there is no last guess |
| GameView.GameStatus | src/App.jsx:37-60 | the banner is a farewell iff the farewell state holds; it reports the win iff the round is won, even when also lost; it reports the loss iff lost and not won; it is blank iff the round is not over and the last guess was not wrong |
| GameView.GameStatusClass | src/App.jsx:31-35 | the farewell class never appears with the won or lost class |
| GameView.StatusClassMatchesStatus | src/App.jsx:31-60 | the section classes agree with the banner: farewell with farewell, won with won, lost-and-not-won with lost, none with blank; both won and lost classes appear exactly when the banner reports a win in a lost round |
| GameView.FarewellNamesLastLostChip | src/App.jsx:41 | a farewell banner names the chip at wrongGuessCount - 1, which is the last chip marked lost and is never the final chip |
| GameView.LanguageChips | src/App.jsx:63-64 | one flag per chip, and the chips marked lost form a prefix of the catalog |
| GameView.LostChipCount | src/App.jsx:64 | the number of chips marked lost is the wrong-guess count, capped at the catalog size |
| GameView.ChipStaysLost | src/App.jsx:64 | a chip marked lost stays marked after any further submission |
| GameView.LostIffAllButLastChipLost | src/App.jsx:63-64 | with at least two chips, the round is lost iff every chip but the final one is marked lost |
| GameView.LetterCells | src/App.jsx:81-85 | one cell per word position holding its letter; a missed cell is always revealed; a cell is revealed and not missed iff its letter was guessed |
| GameView.WonShowsWholeWord | src/App.jsx:82-84 | a won round reveals every position and marks none as missed |
| GameView.LostShowsWholeWord | src/App.jsx:82-84 | a lost round reveals every position, and marks a position missed iff its letter was never guessed |
| GameView.UnlostHidesUnguessed | src/App.jsx:82-84 | while not lost, a position is revealed iff its letter was guessed, and none is missed |
| GameView.Keyboard | src/App.jsx:93-107 | one key per alphabet letter; a key is correct iff its letter was guessed and is in the word, wrong iff guessed and absent from the word; no key is both; a key is marked correct or wrong iff its letter was guessed, which is when it is announced disabled; every key is disabled iff the round is over |
| GameView.WrongKeysMatchWrongCount | src/App.jsx:94-96 | when all guesses came from the keyboard, the letters of the keys marked wrong are exactly the distinct misses, and there are as many as the wrong-guess count |
| GameScenarios.CatGuesses | src/App.jsx:15-16 | on "cat", "a" alone neither wins nor misses, and "a", "c", "t" give the win banner |
| GameScenarios.PlayCatToWin | src/App.jsx:15-16 | on "cat", guessing "a" neither wins nor misses, and "c" then "t" win |
| GameScenarios.PlayCatToLoss | src/App.jsx:17 | on "cat" with nine chips, eight distinct misses give the loss banner |
| GameScenarios.BlankAfterHit | src/App.jsx:37-60 | a round that is not won, has at least two chips left to lose and whose last guess is in the word shows the blank banner |
| GameScenarios.CatMiss | src/App.jsx:37-41 | on "cat" with nine chips, a first guess "b" shows the farewell for chip 0 |
| GameScenarios.CatMissThenHit | src/App.jsx:37-60 | on "cat" with nine chips, "a" right after the miss "b" leaves the banner blank |
| GameScenarios.PlayCatFarewell | src/App.jsx:37-44 | on "cat", one miss shows the farewell for chip 0, and a correct guess right after clears the banner |
| GameScenarios.CatAfterMisses | src/App.jsx:15-17 | eight misses from 'd' to 'k' followed by "c", "a", "t" leave the round on "cat" both lost and won |
| GameScenarios.PlayCatPastLoss | src/App.jsx:45-60 | without the keyboard's gate, eight misses then "c", "a", "t" leave the round both lost and won, and the banner reports the win |

## Left out

- Markup, CSS class strings, `clsx`, the confetti effect and the header text (`src/App.jsx:5-6`, `121-172`): presentation and third-party code. Only the flags that decide them are modelled.
- Upper-casing of revealed letters and key captions (`src/App.jsx:88`, `111`) and the keys' `aria-label`: display text only.
- The screen-reader live region (`src/App.jsx:147-163`): accessibility text. It reads the last guess even when there is none, which relies on JavaScript's `undefined`.
- `getRandomWord` and `getFarewellText`: `src/data/utils.js` is not part of this model, and word choice is random. The new word is a parameter, and a farewell banner carries the chip name given to the text helper.
- The language data file: `src/data/languages.js` is not part of this model. Only the catalog's length and each chip's name are kept; colours are dropped.
- React's state scheduling and re-rendering: each setter call is an atomic field update. The two setters in `startNewGame` are batched, so `StartNewGame` is one assignment.
- Guesses that are strings rather than single characters: the keyboard only submits single letters. A one-character `includes` on a string is modelled as character membership.
