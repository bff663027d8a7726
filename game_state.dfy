/** The state of one round of Assembly: Endgame and the facts derived from it.

    A round is a hidden word and the ordered list of letters guessed so far.
    Every other fact (how many guesses were wrong, whether the round is won
    or lost, what the last guess was) is recomputed from those two values,
    together with the catalog of programming-language chips whose length
    fixes how many wrong guesses the player may make. */
module GameState {

  datatype Option<T> = None | Some(value: T)

  /** One chip of the language catalog. Only its name reaches the engine;
      its colours are presentation. */
  datatype Language = Language(name: string)

  /** The letters of a word or of a guess list, as a set. */
  function Elements(s: seq<char>): set<char> {
    set c | c in s
  }

  predicate NoDuplicates(s: seq<char>) {
    forall i, j :: 0 <= i < j < |s| ==> s[i] != s[j]
  }

  /** The updater handed to the guess-list setter: a letter not yet guessed
      goes to the end of the list, a letter already guessed changes nothing. */
  function AddLetter(guessed: seq<char>, letter: char): (r: seq<char>)
    ensures letter in r
    ensures Elements(r) == Elements(guessed) + {letter}
    ensures |r| == (if letter in guessed then |guessed| else |guessed| + 1)
    ensures r[..|guessed|] == guessed
    ensures NoDuplicates(guessed) ==> NoDuplicates(r)
  {
    if letter !in guessed then guessed + [letter] else guessed
  }

  /** The number of wrong guesses that ends the round: one chip less than
      the catalog holds (the last chip is never lost). */
  function NumGuessesLeft(languages: seq<Language>): (r: int)
    ensures r < |languages|
    ensures |languages| >= 1 ==> 0 <= r
  {
    |languages| - 1
  }

  /** The guessed letters that do not occur in the word, in guess order. */
  function WrongGuesses(word: string, guessed: seq<char>): (r: seq<char>)
    ensures |r| <= |guessed|
    ensures forall c :: c in r <==> c in guessed && c !in word
  {
    if guessed == [] then []
    else (if guessed[0] in word then [] else [guessed[0]]) + WrongGuesses(word, guessed[1..])
  }

  function WrongGuessCount(word: string, guessed: seq<char>): (r: nat)
    ensures r <= |guessed|
  {
    |WrongGuesses(word, guessed)|
  }

  /** A guess list with no letter absent from the word has no wrong guesses. */
  lemma NoMissesNoWrongGuesses(word: string, guessed: seq<char>)
    requires forall c :: c in guessed ==> c in word
    ensures WrongGuesses(word, guessed) == []
  {
    var w := WrongGuesses(word, guessed);
    forall c ensures multiset(w)[c] == 0 {
      assert c !in w;
    }
    assert multiset(w) == multiset{};
  }

  /** Every position of the word, repeats included, holds a guessed letter;
      that is, every distinct letter of the word was guessed once. */
  predicate IsGameWon(word: string, guessed: seq<char>)
    ensures IsGameWon(word, guessed) <==> forall c :: c in word ==> c in guessed
  {
    forall i :: 0 <= i < |word| ==> word[i] in guessed
  }

  /** The loss threshold is inclusive: reaching it exactly loses. A loss
      takes at least as many guesses as the threshold, and a round without
      a wrong guess is lost only when the catalog has no chip to lose. */
  predicate IsGameLost(word: string, guessed: seq<char>, languages: seq<Language>)
    ensures IsGameLost(word, guessed, languages) ==> |guessed| + 1 >= |languages|
    ensures (forall c :: c in guessed ==> c in word) ==>
      (IsGameLost(word, guessed, languages) <==> |languages| <= 1)
  {
    if forall c :: c in guessed ==> c in word then
      NoMissesNoWrongGuesses(word, guessed);
      WrongGuessCount(word, guessed) >= NumGuessesLeft(languages)
    else
      WrongGuessCount(word, guessed) >= NumGuessesLeft(languages)
  }

  /** While the round goes on, some letter of the word is still hidden and
      at least two chips are not yet lost. */
  predicate IsGameOver(word: string, guessed: seq<char>, languages: seq<Language>)
    ensures !IsGameOver(word, guessed, languages) ==>
      !(Elements(word) <= Elements(guessed)) && WrongGuessCount(word, guessed) + 2 <= |languages|
  {
    WonIffLettersCovered(word, guessed);
    IsGameWon(word, guessed) || IsGameLost(word, guessed, languages)
  }

  function LastGuessedLetter(guessed: seq<char>): (r: Option<char>)
    ensures r.None? <==> guessed == []
    ensures r.Some? ==> r.value in guessed
  {
    if guessed == [] then None else Some(guessed[|guessed| - 1])
  }

  /** There is a last guess and it does not occur in the word. Then at
      least one guess was wrong, and the last wrong guess is the last guess. */
  predicate IsLastGuessIncorrect(word: string, guessed: seq<char>)
    ensures IsLastGuessIncorrect(word, guessed) ==>
      var wrong := WrongGuesses(word, guessed);
      guessed != [] && |wrong| >= 1 && wrong[|wrong| - 1] == guessed[|guessed| - 1]
  {
    match LastGuessedLetter(guessed)
    case None => false
    case Some(letter) =>
      var n := |guessed| - 1;
      assert guessed == guessed[..n] + [letter];
      WrongGuessesAppend(word, guessed[..n], letter);
      letter !in word
  }

  /** The transitional "farewell" state: the round goes on and the most
      recent guess just cost a chip. It holds only after at least one
      wrong guess and before the last chip but one is lost, so the chip at
      index wrongGuessCount - 1 exists and is not the final chip. */
  predicate IsFarewell(word: string, guessed: seq<char>, languages: seq<Language>)
    ensures IsFarewell(word, guessed, languages) ==>
      1 <= WrongGuessCount(word, guessed) && WrongGuessCount(word, guessed) - 1 < |languages| - 1
  {
    !IsGameOver(word, guessed, languages) && IsLastGuessIncorrect(word, guessed)
  }

  // ---------------------------------------------------------------------
  // Guess submission

  /** A guess that is already in the list leaves the list, and so every
      derived fact, exactly as it was; submitting twice is submitting once. */
  lemma AddLetterIdempotent(guessed: seq<char>, letter: char)
    ensures letter in guessed ==> AddLetter(guessed, letter) == guessed
    ensures AddLetter(AddLetter(guessed, letter), letter) == AddLetter(guessed, letter)
  {
  }

  /** Appending one guess adds it to the wrong guesses exactly when it is
      absent from the word. */
  lemma {:induction false} WrongGuessesAppend(word: string, guessed: seq<char>, letter: char)
    ensures WrongGuesses(word, guessed + [letter])
         == WrongGuesses(word, guessed) + (if letter in word then [] else [letter])
  {
    if guessed == [] {
      assert guessed + [letter] == [letter];
    } else {
      assert (guessed + [letter])[1..] == guessed[1..] + [letter];
      WrongGuessesAppend(word, guessed[1..], letter);
    }
  }

  /** The wrong-guess count never decreases, grows by at most one per
      submission, and grows exactly when a new letter is absent from the word. */
  lemma WrongCountAfterGuess(word: string, guessed: seq<char>, letter: char)
    ensures var before, after := WrongGuessCount(word, guessed), WrongGuessCount(word, AddLetter(guessed, letter));
      before <= after <= before + 1 &&
      (after == before + 1 <==> letter !in guessed && letter !in word)
  {
    if letter !in guessed {
      WrongGuessesAppend(word, guessed, letter);
    }
  }

  /** Once won, a round stays won whatever is guessed next. */
  lemma WonStaysWon(word: string, guessed: seq<char>, letter: char)
    requires IsGameWon(word, guessed)
    ensures IsGameWon(word, AddLetter(guessed, letter))
  {
  }

  /** A guess absent from the word cannot change whether the round is won. */
  lemma WrongGuessKeepsWon(word: string, guessed: seq<char>, letter: char)
    requires letter !in word
    ensures IsGameWon(word, AddLetter(guessed, letter)) == IsGameWon(word, guessed)
  {
    var r := AddLetter(guessed, letter);
    if IsGameWon(word, r) {
      forall i | 0 <= i < |word| ensures word[i] in guessed {
        assert word[i] in Elements(r);
      }
    }
  }

  /** The last guess is the letter just submitted when it was new; a
      repeated letter leaves the last guess as it was. */
  lemma LastGuessAfterSubmit(guessed: seq<char>, letter: char)
    ensures letter !in guessed ==> LastGuessedLetter(AddLetter(guessed, letter)) == Some(letter)
    ensures letter in guessed ==> LastGuessedLetter(AddLetter(guessed, letter)) == LastGuessedLetter(guessed)
  {
  }

  /** After a new guess the farewell state depends only on that guess;
      a repeated guess leaves it as it was. */
  lemma FarewellAfterGuess(word: string, guessed: seq<char>, letter: char, languages: seq<Language>)
    ensures letter !in guessed ==>
      (IsFarewell(word, AddLetter(guessed, letter), languages) <==>
         letter !in word && !IsGameOver(word, AddLetter(guessed, letter), languages))
    ensures letter in guessed ==>
      IsFarewell(word, AddLetter(guessed, letter), languages) == IsFarewell(word, guessed, languages)
  {
  }

  // ---------------------------------------------------------------------
  // Winning, losing and the farewell lookup

  /** Winning asks only that every distinct letter of the word was guessed. */
  lemma WonIffLettersCovered(word: string, guessed: seq<char>)
    ensures IsGameWon(word, guessed) <==> Elements(word) <= Elements(guessed)
  {
    if Elements(word) <= Elements(guessed) {
      forall i | 0 <= i < |word| ensures word[i] in guessed {
        assert word[i] in Elements(word);
      }
    }
  }

  /** The order of the guesses does not matter for winning. */
  lemma WonIgnoresOrder(word: string, g1: seq<char>, g2: seq<char>)
    requires Elements(g1) == Elements(g2)
    ensures IsGameWon(word, g1) == IsGameWon(word, g2)
  {
    WonIffLettersCovered(word, g1);
    WonIffLettersCovered(word, g2);
  }

  /** A sequence without repeats has as many elements as its set. */
  lemma {:induction false} DistinctCard(s: seq<char>)
    requires NoDuplicates(s)
    ensures |Elements(s)| == |s|
  {
    if s != [] {
      assert NoDuplicates(s[1..]) by {
        forall i, j | 0 <= i < j < |s[1..]| ensures s[1..][i] != s[1..][j] {
          assert s[1..][i] == s[i + 1] && s[1..][j] == s[j + 1];
        }
      }
      DistinctCard(s[1..]);
      assert Elements(s) == {s[0]} + Elements(s[1..]) by {
        forall c | c in Elements(s) ensures c in {s[0]} + Elements(s[1..]) {
          var k :| 0 <= k < |s| && s[k] == c;
          if k > 0 { assert s[1..][k - 1] == c; }
        }
      }
    }
  }

  /** Filtering keeps a list free of repeats. */
  lemma {:induction false} WrongGuessesDistinct(word: string, guessed: seq<char>)
    requires NoDuplicates(guessed)
    ensures NoDuplicates(WrongGuesses(word, guessed))
  {
    if guessed != [] {
      var rest := guessed[1..];
      assert NoDuplicates(rest) by {
        forall i, j | 0 <= i < j < |rest| ensures rest[i] != rest[j] {
          assert rest[i] == guessed[i + 1] && rest[j] == guessed[j + 1];
        }
      }
      WrongGuessesDistinct(word, rest);
      var tail := WrongGuesses(word, rest);
      if guessed[0] !in word {
        assert guessed[0] !in tail;
        var r := [guessed[0]] + tail;
        forall i, j | 0 <= i < j < |r| ensures r[i] != r[j] {
          if i == 0 {
            assert r[j] == tail[j - 1];
          } else {
            assert r[i] == tail[i - 1] && r[j] == tail[j - 1];
          }
        }
      } else {
        assert WrongGuesses(word, guessed) == tail;
      }
    }
  }

  /** In a list without repeats, the wrong-guess count is the number of
      distinct guessed letters that are absent from the word; in
      particular it does not depend on the order of the guesses. */
  lemma WrongCountIsDistinctMisses(word: string, guessed: seq<char>)
    requires NoDuplicates(guessed)
    ensures WrongGuessCount(word, guessed) == |Elements(guessed) - Elements(word)|
  {
    var w := WrongGuesses(word, guessed);
    WrongGuessesDistinct(word, guessed);
    DistinctCard(w);
    assert Elements(w) == Elements(guessed) - Elements(word);
  }

  /** Guessing exactly the distinct letters of the word, in any order and
      with no wrong guess, wins and does not lose (given a catalog with a
      chip to lose). */
  lemma WinWithoutMisses(word: string, guessed: seq<char>, languages: seq<Language>)
    requires Elements(guessed) == Elements(word)
    requires |languages| >= 2
    ensures IsGameWon(word, guessed)
    ensures WrongGuessCount(word, guessed) == 0
    ensures !IsGameLost(word, guessed, languages)
  {
    WonIffLettersCovered(word, guessed);
    assert forall c :: c in guessed ==> c in Elements(word);
    NoMissesNoWrongGuesses(word, guessed);
  }

  /** As many distinct misses as the threshold lose the round, whatever
      correct letters were guessed besides. */
  lemma LoseByDistinctMisses(word: string, guessed: seq<char>, languages: seq<Language>)
    requires NoDuplicates(guessed)
    requires |Elements(guessed) - Elements(word)| >= |languages| - 1
    ensures IsGameLost(word, guessed, languages)
  {
    WrongCountIsDistinctMisses(word, guessed);
  }

  /** The state right after a new game: no guesses, no wrong guesses, not
      lost (given a catalog with a chip to lose), not won for a non-empty
      word, and no farewell. */
  lemma FreshRound(word: string, languages: seq<Language>)
    requires |languages| >= 2
    ensures WrongGuessCount(word, []) == 0
    ensures !IsGameLost(word, [], languages)
    ensures IsGameWon(word, []) <==> word == []
    ensures LastGuessedLetter([]) == None
    ensures !IsFarewell(word, [], languages)
  {
    if word != [] {
      assert word[0] !in [];
    }
  }

  // ---------------------------------------------------------------------
  // Play gated by the keyboard

  /** Every guess was submitted while the round was still going on, which
      is what the keyboard enforces by disabling its keys once the round is over. */
  ghost predicate PlayedWhileInProgress(word: string, guessed: seq<char>, languages: seq<Language>) {
    forall k :: 0 <= k < |guessed| ==> !IsGameOver(word, guessed[..k], languages)
  }

  /** Under gated play the round is never won and lost at once, and the
      wrong-guess count never passes the threshold. */
  lemma {:induction false} GatedPlayNeverWonAndLost(word: string, guessed: seq<char>, languages: seq<Language>)
    requires |languages| >= 2
    requires PlayedWhileInProgress(word, guessed, languages)
    ensures !(IsGameWon(word, guessed) && IsGameLost(word, guessed, languages))
    ensures WrongGuessCount(word, guessed) <= NumGuessesLeft(languages)
  {
    if guessed == [] {
    } else {
      var n := |guessed| - 1;
      var prev, letter := guessed[..n], guessed[n];
      assert guessed == prev + [letter];
      assert PlayedWhileInProgress(word, prev, languages) by {
        forall k | 0 <= k < |prev| ensures !IsGameOver(word, prev[..k], languages) {
          assert prev[..k] == guessed[..k];
        }
      }
      assert guessed[..n] == prev;
      assert !IsGameOver(word, prev, languages);
      WrongGuessesAppend(word, prev, letter);
      if letter !in word {
        assert forall i :: 0 <= i < |word| ==> (word[i] in guessed <==> word[i] in prev);
      }
    }
  }
}
