/** Concrete rounds on the word "cat" with a catalog of nine chips, so
    that eight wrong guesses lose. Each round is played on a Round object
    through its guess submission, as the keyboard would. */
module GameScenarios {
  import opened GameState
  import opened GameView
  import opened GameRound

  /** Submits the eight letters 'd' to 'k', none of which is in "cat". */
  method MissEight(round: Round)
    requires round.Valid() && round.word == "cat" && round.guessed == []
    modifies round
    ensures round.Valid() && round.word == "cat"
    ensures |round.guessed| == 8
    ensures forall c :: c in round.guessed ==> 'd' <= c <= 'k'
    ensures WrongGuessCount(round.word, round.guessed) == 8
  {
    for k := 0 to 8
      invariant round.Valid() && round.word == "cat"
      invariant |round.guessed| == k
      invariant forall c :: c in round.guessed ==> 'd' <= c < ('d' as int + k) as char
      invariant WrongGuessCount(round.word, round.guessed) == k
    {
      var letter := ('d' as int + k) as char;
      assert letter !in round.word;
      round.AddGuessedLetter(letter);
    }
  }

  /** On "cat", "a" neither wins nor misses; "a", "c", "t" win. */
  lemma CatGuesses(languages: seq<Language>)
    requires |languages| == 9
    ensures var g1 := AddLetter([], 'a');
      !IsGameWon("cat", g1) && WrongGuessCount("cat", g1) == 0
    ensures var g3 := AddLetter(AddLetter(AddLetter([], 'a'), 'c'), 't');
      GameStatus("cat", g3, languages) == Won
  {
    var word: string := "cat";
    assert word[0] == 'c' && word[1] == 'a' && word[2] == 't';
    var g1 := AddLetter([], 'a');
    assert g1 == ['a'];
    assert word[0] !in g1;
    NoMissesNoWrongGuesses(word, g1);
    var g3 := AddLetter(AddLetter(g1, 'c'), 't');
    assert 'c' in g3 && 'a' in g3 && 't' in g3;
  }

  /** "a" is in the word, so nothing is lost and the round is not won;
      "c" then "t" win. */
  method PlayCatToWin(languages: seq<Language>) returns (wonAfterA: bool, wrongAfterA: nat, status: Status)
    requires |languages| == 9
    ensures !wonAfterA && wrongAfterA == 0
    ensures status == Won
  {
    var round := new Round("cat");
    CatGuesses(languages);
    round.AddGuessedLetter('a');
    wonAfterA, wrongAfterA := IsGameWon(round.word, round.guessed), WrongGuessCount(round.word, round.guessed);
    round.AddGuessedLetter('c');
    round.AddGuessedLetter('t');
    status := GameStatus(round.word, round.guessed, languages);
  }

  /** Eight letters absent from "cat", 'd' to 'k', lose, and the round is not won. */
  method PlayCatToLoss(languages: seq<Language>) returns (status: Status)
    requires |languages| == 9
    ensures status == Lost
  {
    var round := new Round("cat");
    MissEight(round);
    assert round.word[0] !in round.guessed;
    status := GameStatus(round.word, round.guessed, languages);
  }

  /** On "cat", a first guess "b" is a miss while the round goes on. */
  lemma CatMiss(languages: seq<Language>)
    requires |languages| == 9
    ensures GameStatus("cat", AddLetter([], 'b'), languages) == Farewell(languages[0].name)
  {
    var word: string := "cat";
    var g1 := AddLetter([], 'b');
    assert g1 == ['b'];
    WrongGuessesAppend(word, [], 'b');
    assert WrongGuessCount(word, g1) == 1;
    assert !IsGameWon(word, g1) by { assert word[0] !in g1; }
    assert !IsGameLost(word, g1, languages);
    assert IsLastGuessIncorrect(word, g1);
  }

  /** A round neither won nor near the loss threshold, whose last guess
      is in the word, shows the blank banner. */
  lemma BlankAfterHit(word: string, guessed: seq<char>, languages: seq<Language>)
    requires guessed != [] && guessed[|guessed| - 1] in word
    requires !IsGameWon(word, guessed)
    requires WrongGuessCount(word, guessed) + 2 <= |languages|
    ensures GameStatus(word, guessed, languages) == Blank
  {
  }

  /** On "cat", "a" right after the miss "b" is a hit that leaves the
      round in progress. */
  lemma CatMissThenHit(languages: seq<Language>)
    requires |languages| == 9
    ensures GameStatus("cat", AddLetter(AddLetter([], 'b'), 'a'), languages) == Blank
  {
    var word: string := "cat";
    var g1 := AddLetter([], 'b');
    assert g1 == [] + ['b'];
    WrongGuessesAppend(word, [], 'b');
    var g2 := AddLetter(g1, 'a');
    assert g2 == g1 + ['a'];
    WrongGuessesAppend(word, g1, 'a');
    assert word[0] !in g2 && word[1] == 'a';
    BlankAfterHit(word, g2, languages);
  }

  /** One wrong guess shows the farewell for the first chip; a correct
      guess right after clears it. */
  method PlayCatFarewell(languages: seq<Language>) returns (afterMiss: Status, afterHit: Status)
    requires |languages| == 9
    ensures afterMiss == Farewell(languages[0].name)
    ensures afterHit == Blank
  {
    var round := new Round("cat");
    CatMiss(languages);
    CatMissThenHit(languages);
    round.AddGuessedLetter('b');
    afterMiss := GameStatus(round.word, round.guessed, languages);
    round.AddGuessedLetter('a');
    afterHit := GameStatus(round.word, round.guessed, languages);
  }

  /** Eight misses from 'd' to 'k' followed by "c", "a", "t" leave the
      round on "cat" both lost and won. */
  lemma CatAfterMisses(misses: seq<char>, languages: seq<Language>)
    requires |languages| == 9
    requires forall c :: c in misses ==> 'd' <= c <= 'k'
    requires WrongGuessCount("cat", misses) == 8
    ensures var g := AddLetter(AddLetter(AddLetter(misses, 'c'), 'a'), 't');
      IsGameLost("cat", g, languages) && IsGameWon("cat", g)
  {
    var word: string := "cat";
    assert word[0] == 'c' && word[1] == 'a' && word[2] == 't';
    var g1 := AddLetter(misses, 'c');
    WrongCountAfterGuess(word, misses, 'c');
    var g2 := AddLetter(g1, 'a');
    WrongCountAfterGuess(word, g1, 'a');
    var g3 := AddLetter(g2, 't');
    WrongCountAfterGuess(word, g2, 't');
    assert 'c' in g3 && 'a' in g3 && 't' in g3;
  }

  /** The engine itself keeps taking guesses after a loss (eight misses,
      then "c", "a", "t"): a round can end both lost and won, and the
      banner then reports the win. */
  method PlayCatPastLoss(languages: seq<Language>) returns (lost: bool, won: bool, status: Status)
    requires |languages| == 9
    ensures lost && won && status == Won
  {
    var round := new Round("cat");
    MissEight(round);
    ghost var misses := round.guessed;
    round.AddGuessedLetter('c');
    round.AddGuessedLetter('a');
    round.AddGuessedLetter('t');
    CatAfterMisses(misses, languages);
    lost, won := IsGameLost(round.word, round.guessed, languages), IsGameWon(round.word, round.guessed);
    status := GameStatus(round.word, round.guessed, languages);
  }
}
