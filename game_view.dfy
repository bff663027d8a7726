/** What the screen shows of a round, as flags derived from the round's
    state: the status banner and its class, the lost marks on the language
    chips, the revealed and missed marks on the word's letters, and the
    correct and wrong marks on the keyboard. Markup and styling are not
    modelled; only the flags that decide them are. */
module GameView {
  import opened GameState

  /** The status banner. A farewell names the chip whose name is handed to
      the farewell-text helper; Blank is the empty banner. */
  datatype Status = Farewell(language: string) | Won | Lost | Blank

  /** Farewell is checked first, then won, then lost. */
  function GameStatus(word: string, guessed: seq<char>, languages: seq<Language>): (s: Status)
    ensures s.Farewell? <==> IsFarewell(word, guessed, languages)
    ensures s.Won? <==> IsGameWon(word, guessed)
    ensures s.Lost? <==> IsGameLost(word, guessed, languages) && !IsGameWon(word, guessed)
    ensures s.Blank? <==> !IsGameOver(word, guessed, languages) && !IsLastGuessIncorrect(word, guessed)
  {
    if IsFarewell(word, guessed, languages) then
      Farewell(languages[WrongGuessCount(word, guessed) - 1].name)
    else if IsGameWon(word, guessed) then Won
    else if IsGameLost(word, guessed, languages) then Lost
    else Blank
  }

  /** The three modifier classes of the status section. */
  datatype StatusClass = StatusClass(won: bool, lost: bool, farewell: bool)

  function GameStatusClass(word: string, guessed: seq<char>, languages: seq<Language>): (k: StatusClass)
    ensures k.farewell ==> !k.won && !k.lost
  {
    StatusClass(IsGameWon(word, guessed), IsGameLost(word, guessed, languages), IsFarewell(word, guessed, languages))
  }

  /** The class of the status section agrees with the banner it holds; the
      one mismatch is that a round both won and lost carries both classes
      while its banner reports the win. */
  lemma StatusClassMatchesStatus(word: string, guessed: seq<char>, languages: seq<Language>)
    ensures var k, s := GameStatusClass(word, guessed, languages), GameStatus(word, guessed, languages);
      (k.farewell <==> s.Farewell?) &&
      (k.won <==> s.Won?) &&
      (k.lost && !k.won <==> s.Lost?) &&
      (!k.won && !k.lost && !k.farewell <==> s.Blank?) &&
      (k.won && k.lost <==> s.Won? && IsGameLost(word, guessed, languages))
  {
  }

  /** A farewell banner names a chip that is marked lost, the last one so
      marked, and never the final chip of the catalog. */
  lemma FarewellNamesLastLostChip(word: string, guessed: seq<char>, languages: seq<Language>)
    requires GameStatus(word, guessed, languages).Farewell?
    ensures var i := WrongGuessCount(word, guessed) - 1;
      0 <= i < |languages| - 1 &&
      GameStatus(word, guessed, languages).language == languages[i].name &&
      LanguageChips(word, guessed, languages)[i] &&
      !LanguageChips(word, guessed, languages)[i + 1]
  {
  }

  // ---------------------------------------------------------------------
  // Language chips

  /** For each chip of the catalog, whether it is marked lost. */
  function LanguageChips(word: string, guessed: seq<char>, languages: seq<Language>): (lost: seq<bool>)
    ensures |lost| == |languages|
    ensures forall i, j :: 0 <= i < j < |lost| && lost[j] ==> lost[i]
  {
    var wrong := WrongGuessCount(word, guessed);
    seq(|languages|, i => i < wrong)
  }

  /** The number of true flags in a list. */
  function CountMarked(flags: seq<bool>): nat {
    if flags == [] then 0 else (if flags[0] then 1 else 0) + CountMarked(flags[1..])
  }

  /** A list whose marks come first holds its marks on exactly its first
      CountMarked positions. */
  lemma {:induction false} MarkedPrefix(flags: seq<bool>, m: nat)
    requires m <= |flags|
    requires forall i :: 0 <= i < |flags| ==> (flags[i] <==> i < m)
    ensures CountMarked(flags) == m
  {
    if flags != [] {
      var rest := flags[1..];
      if m > 0 {
        MarkedPrefix(rest, m - 1);
      } else {
        MarkedPrefix(rest, 0);
      }
    }
  }

  /** As many chips are marked lost as there were wrong guesses, up to
      the size of the catalog. */
  lemma LostChipCount(word: string, guessed: seq<char>, languages: seq<Language>)
    ensures var wrong := WrongGuessCount(word, guessed);
      CountMarked(LanguageChips(word, guessed, languages)) == if wrong < |languages| then wrong else |languages|
  {
    var wrong := WrongGuessCount(word, guessed);
    MarkedPrefix(LanguageChips(word, guessed, languages), if wrong < |languages| then wrong else |languages|);
  }

  /** A chip marked lost stays marked after any further guess. */
  lemma ChipStaysLost(word: string, guessed: seq<char>, letter: char, languages: seq<Language>, i: nat)
    requires i < |languages|
    requires LanguageChips(word, guessed, languages)[i]
    ensures LanguageChips(word, AddLetter(guessed, letter), languages)[i]
  {
    WrongCountAfterGuess(word, guessed, letter);
  }

  /** With a chip to lose, the round is lost exactly when every chip but
      the final one is marked lost. */
  lemma LostIffAllButLastChipLost(word: string, guessed: seq<char>, languages: seq<Language>)
    requires |languages| >= 2
    ensures IsGameLost(word, guessed, languages) <==>
      forall i :: 0 <= i < |languages| - 1 ==> LanguageChips(word, guessed, languages)[i]
  {
    var chips := LanguageChips(word, guessed, languages);
    if !IsGameLost(word, guessed, languages) {
      assert !chips[|languages| - 2];
    }
  }

  // ---------------------------------------------------------------------
  // Letters of the word

  /** One position of the word: its letter, whether it is shown, and
      whether it is shown as missed (revealed only because the round was lost). */
  datatype LetterCell = LetterCell(letter: char, revealed: bool, missed: bool)

  function LetterCells(word: string, guessed: seq<char>, languages: seq<Language>): (cells: seq<LetterCell>)
    ensures |cells| == |word|
    ensures forall i :: 0 <= i < |word| ==> cells[i].letter == word[i]
    ensures forall i :: 0 <= i < |word| ==> cells[i].missed ==> cells[i].revealed
    ensures forall i :: 0 <= i < |word| ==> (cells[i].revealed && !cells[i].missed <==> word[i] in guessed)
  {
    var lost := IsGameLost(word, guessed, languages);
    seq(|word|, i requires 0 <= i < |word| =>
      LetterCell(word[i], lost || word[i] in guessed, lost && word[i] !in guessed))
  }

  /** A won round shows every letter and none as missed. */
  lemma WonShowsWholeWord(word: string, guessed: seq<char>, languages: seq<Language>)
    requires IsGameWon(word, guessed)
    ensures forall cell :: cell in LetterCells(word, guessed, languages) ==> cell.revealed && !cell.missed
  {
  }

  /** A lost round shows every letter; the missed ones are exactly those
      never guessed. */
  lemma LostShowsWholeWord(word: string, guessed: seq<char>, languages: seq<Language>)
    requires IsGameLost(word, guessed, languages)
    ensures forall i :: 0 <= i < |word| ==>
      LetterCells(word, guessed, languages)[i].revealed &&
      (LetterCells(word, guessed, languages)[i].missed <==> word[i] !in guessed)
  {
  }

  /** While the round is not lost, a letter is shown exactly when guessed
      and none is shown as missed. */
  lemma UnlostHidesUnguessed(word: string, guessed: seq<char>, languages: seq<Language>)
    requires !IsGameLost(word, guessed, languages)
    ensures forall i :: 0 <= i < |word| ==>
      (LetterCells(word, guessed, languages)[i].revealed <==> word[i] in guessed) &&
      !LetterCells(word, guessed, languages)[i].missed
  {
  }

  // ---------------------------------------------------------------------
  // Keyboard

  const Alphabet: string := "abcdefghijklmnopqrstuvwxyz"

  /** One key: its letter, whether it is marked correct or wrong, whether
      the key is disabled (the round is over) and whether it is announced
      as disabled (the letter was guessed). */
  datatype Key = Key(letter: char, correct: bool, wrong: bool, disabled: bool, announcedDisabled: bool)

  function Keyboard(word: string, guessed: seq<char>, languages: seq<Language>): (keys: seq<Key>)
    ensures |keys| == |Alphabet|
    ensures forall i :: 0 <= i < |keys| ==> keys[i].letter == Alphabet[i]
    ensures forall i :: 0 <= i < |keys| ==> (keys[i].correct <==> Alphabet[i] in guessed && Alphabet[i] in word)
    ensures forall i :: 0 <= i < |keys| ==> (keys[i].wrong <==> Alphabet[i] in guessed && Alphabet[i] !in word)
    ensures forall i :: 0 <= i < |keys| ==> !(keys[i].correct && keys[i].wrong)
    ensures forall i :: 0 <= i < |keys| ==> (keys[i].correct || keys[i].wrong <==> keys[i].announcedDisabled)
    ensures forall i :: 0 <= i < |keys| ==> (keys[i].announcedDisabled <==> Alphabet[i] in guessed)
    ensures forall i :: 0 <= i < |keys| ==> (keys[i].disabled <==> IsGameOver(word, guessed, languages))
  {
    var over := IsGameOver(word, guessed, languages);
    seq(|Alphabet|, i requires 0 <= i < |Alphabet| =>
      var c := Alphabet[i];
      var isGuessed := c in guessed;
      Key(c, isGuessed && c in word, isGuessed && c !in word, over, isGuessed))
  }

  /** The letters whose keys are marked wrong. */
  function WrongKeyLetters(keys: seq<Key>): set<char> {
    set k | k in keys && k.wrong :: k.letter
  }

  /** When every guess came from the keyboard, the keys marked wrong are
      exactly the wrong guesses, so there are as many of them as wrong
      guesses counted for the chips. */
  lemma WrongKeysMatchWrongCount(word: string, guessed: seq<char>, languages: seq<Language>)
    requires NoDuplicates(guessed)
    requires Elements(guessed) <= Elements(Alphabet)
    ensures WrongKeyLetters(Keyboard(word, guessed, languages)) == Elements(guessed) - Elements(word)
    ensures |WrongKeyLetters(Keyboard(word, guessed, languages))| == WrongGuessCount(word, guessed)
  {
    var keys := Keyboard(word, guessed, languages);
    forall c | c in Elements(guessed) - Elements(word) ensures c in WrongKeyLetters(keys) {
      assert c in Elements(Alphabet);
      var i :| 0 <= i < |Alphabet| && Alphabet[i] == c;
      assert keys[i] in keys;
    }
    WrongCountIsDistinctMisses(word, guessed);
  }
}
