/** The mutable round held by the game component: the hidden word and the
    guess list, updated in place by guess submission and by a new game.
    The random word source is outside the model: the new word is an argument. */
module GameRound {
  import opened GameState

  class Round {
    var word: string
    var guessed: seq<char>

    /** The guess list never holds a letter twice. */
    ghost predicate Valid()
      reads this
    {
      NoDuplicates(guessed)
    }

    /** The round at start-up, with the word drawn by the word source. */
    constructor (initialWord: string)
      ensures Valid()
      ensures word == initialWord && guessed == []
    {
      word := initialWord;
      guessed := [];
    }

    /** Submits a letter. There is no check that the round is still going
        on: only the keyboard stops input once the round is over. A new
        letter is appended, a repeated one changes nothing. */
    method AddGuessedLetter(letter: char)
      requires Valid()
      modifies this
      ensures Valid()
      ensures word == old(word)
      ensures guessed == AddLetter(old(guessed), letter)
      ensures letter in old(guessed) ==> guessed == old(guessed)
      ensures letter !in old(guessed) ==> guessed == old(guessed) + [letter]
      ensures WrongGuessCount(word, guessed) ==
        WrongGuessCount(word, old(guessed)) + (if letter !in old(guessed) && letter !in word then 1 else 0)
    {
      WrongCountAfterGuess(word, guessed, letter);
      guessed := AddLetter(guessed, letter);
    }

    /** The wrong-guess count of the round. Because the list holds no
        letter twice, it is the number of distinct guessed letters absent
        from the word. */
    method CountWrongGuesses() returns (count: nat)
      requires Valid()
      ensures count == WrongGuessCount(word, guessed)
      ensures count == |Elements(guessed) - Elements(word)|
    {
      count := |WrongGuesses(word, guessed)|;
      WrongCountIsDistinctMisses(word, guessed);
    }

    /** Starts a new round: the new word and the empty guess list are set
        together, so no state mixing the old list with the new word exists. */
    method StartNewGame(newWord: string)
      modifies this
      ensures Valid()
      ensures word == newWord && guessed == []
      ensures WrongGuessCount(word, guessed) == 0
      ensures LastGuessedLetter(guessed) == None
    {
      word, guessed := newWord, [];
    }
  }
}
