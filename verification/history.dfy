/**
 * Sequences of guesses against a fixed word: the score and the remaining
 * attempts as functions of the guess history, and the guarantees the button
 * guard gives to a player who only guesses through enabled buttons.
 */
module History {
  import opened Letters
  import opened Hangman

  /** The state after guessing `letters` in order, starting from `s` (messages dropped). */
  function Play(s: GameState, letters: seq<char>): (r: GameState)
    ensures r.guesses == s.guesses + LowerWord(letters)
    ensures r.(guesses := s.guesses, score := s.score, remainingAttempts := s.remainingAttempts) == s
    decreases |letters|
  {
    if |letters| == 0 then s
    else
      var prefix := letters[..|letters| - 1];
      var last := letters[|letters| - 1];
      assert letters == prefix + [last];
      LowerWordSnoc(prefix, last);
      Guess(Play(s, prefix), last).state
  }

  /** Guessing one more letter is one more step. */
  lemma PlaySnoc(s: GameState, letters: seq<char>, c: char)
    ensures Play(s, letters + [c]) == Guess(Play(s, letters), c).state
  {
    assert (letters + [c])[..|letters|] == letters;
  }

  /**
   * Over any guess history the score rises by the reward for every hit and
   * the attempts fall by one for every wrong guess, repeats counted.
   */
  lemma {:induction false} PlayTotals(s: GameState, letters: seq<char>)
    ensures Play(s, letters).score == s.score + Reward * Hits(LowerWord(letters), s.word)
    ensures Play(s, letters).remainingAttempts == s.remainingAttempts - |Wrong(LowerWord(letters), s.word)|
    decreases |letters|
  {
    if |letters| > 0 {
      var prefix := letters[..|letters| - 1];
      var last := letters[|letters| - 1];
      PlayTotals(s, prefix);
      assert letters == prefix + [last];
      PlaySnoc(s, prefix, last);
      LowerWordSnoc(prefix, last);
      var folded := LowerWord(letters);
      assert folded[..|folded| - 1] == LowerWord(prefix);
      assert folded[|folded| - 1] == Lower(last);
    }
  }

  /**
   * The relation the page keeps between its counters and its guesses: the
   * score is the reward times the hits, and the attempts plus the wrong
   * guesses `renderHangman` counts make up the initial attempts.
   */
  predicate Consistent(s: GameState) {
    && s.score == Reward * Hits(s.guesses, s.word)
    && s.remainingAttempts + WrongGuesses(s) == InitialAttempts
  }

  lemma GuessPreservesConsistent(s: GameState, letter: char)
    requires Consistent(s)
    ensures Consistent(Guess(s, letter).state)
  {
    var g := Guess(s, letter).state.guesses;
    assert g[..|g| - 1] == s.guesses;
  }

  lemma {:induction false} PlayPreservesConsistent(s: GameState, letters: seq<char>)
    requires Consistent(s)
    ensures Consistent(Play(s, letters))
    decreases |letters|
  {
    if |letters| > 0 {
      var prefix := letters[..|letters| - 1];
      PlayPreservesConsistent(s, prefix);
      GuessPreservesConsistent(Play(s, prefix), letters[|letters| - 1]);
    }
  }

  /**
   * The events other than guesses and game start keep the relation between
   * counters and guesses, so it survives whatever socket traffic arrives
   * between two guesses.
   */
  lemma SideEventsKeepConsistent(s: GameState, name: string, success: bool, opponentScore: int)
    requires Consistent(s)
    ensures Consistent(UsernameChanged(s, name))
    ensures Consistent(JoinAcknowledged(s, success))
    ensures Consistent(OpponentGuessMade(s, opponentScore))
    ensures Consistent(GameOverReceived(s))
  {
  }

  /** The state the page is in once the game has started on a fresh page. */
  function Started(room: string, word: string, opponent: string): GameState {
    GameStarted(Initial(), room, word, opponent)
  }

  /**
   * From the start of a game, whatever letters are guessed: the guesses are
   * the letters lower-cased, the score is the reward times the hits, and
   * the remaining attempts plus the wrong guesses are the initial attempts.
   */
  lemma FromStart(room: string, word: string, opponent: string, letters: seq<char>)
    ensures Play(Started(room, word, opponent), letters).guesses == LowerWord(letters)
    ensures Play(Started(room, word, opponent), letters).score
      == Reward * Hits(LowerWord(letters), LowerWord(word))
    ensures Play(Started(room, word, opponent), letters).remainingAttempts
      + |Wrong(LowerWord(letters), LowerWord(word))| == InitialAttempts
  {
    PlayPreservesConsistent(Started(room, word, opponent), letters);
  }

  /** A restart followed by a new game also starts from a consistent state. */
  lemma RestartThenStartIsConsistent(s: GameState, room: string, word: string, opponent: string, letters: seq<char>)
    ensures Consistent(Play(GameStarted(Restart(s), room, word, opponent), letters))
  {
    PlayPreservesConsistent(GameStarted(Restart(s), room, word, opponent), letters);
  }

  /** No letter occurs twice. */
  predicate NoDuplicates(g: seq<char>) {
    forall i, j :: 0 <= i < j < |g| ==> g[i] != g[j]
  }

  /** Every letter of the run was pressed on an enabled button, in the state reached before it. */
  predicate ButtonRun(s: GameState, letters: seq<char>)
    decreases |letters|
  {
    |letters| == 0 ||
    (ButtonRun(s, letters[..|letters| - 1])
     && Pressable(Play(s, letters[..|letters| - 1]), letters[|letters| - 1]))
  }

  /** One enabled press keeps the guesses free of duplicates and the attempts non-negative. */
  lemma PressKeepsGuard(s: GameState, c: char)
    requires Pressable(s, c) && NoDuplicates(s.guesses)
    ensures NoDuplicates(Guess(s, c).state.guesses)
    ensures Guess(s, c).state.remainingAttempts >= 0
  {
    PressDisablesButton(s, c);
  }

  /** One more enabled press keeps the guesses free of duplicates and the attempts non-negative. */
  lemma ButtonRunStep(s: GameState, letters: seq<char>)
    requires |letters| > 0
    requires Pressable(Play(s, letters[..|letters| - 1]), letters[|letters| - 1])
    requires NoDuplicates(Play(s, letters[..|letters| - 1]).guesses)
    ensures NoDuplicates(Play(s, letters).guesses)
    ensures Play(s, letters).remainingAttempts >= 0
  {
    PressKeepsGuard(Play(s, letters[..|letters| - 1]), letters[|letters| - 1]);
  }

  /** One more enabled press records exactly the letter pressed. */
  lemma ButtonRunRecords(s: GameState, letters: seq<char>)
    requires |letters| > 0
    requires Pressable(Play(s, letters[..|letters| - 1]), letters[|letters| - 1])
    requires Play(s, letters[..|letters| - 1]).guesses == s.guesses + letters[..|letters| - 1]
    ensures Play(s, letters).guesses == s.guesses + letters
  {
    var prefix := letters[..|letters| - 1];
    var last := letters[|letters| - 1];
    assert letters == prefix + [last];
    PlaySnoc(s, prefix, last);
    PressDisablesButton(Play(s, prefix), last);
    assert (s.guesses + prefix) + [last] == s.guesses + letters;
  }

  /**
   * Guessing only through enabled buttons never records a letter twice and
   * never takes the attempts below zero; the guesses grow by exactly the
   * letters pressed.
   */
  lemma {:induction false} ButtonRunSafe(s: GameState, letters: seq<char>)
    requires ButtonRun(s, letters) && NoDuplicates(s.guesses) && s.remainingAttempts >= 0
    ensures NoDuplicates(Play(s, letters).guesses)
    ensures Play(s, letters).remainingAttempts >= 0
    ensures Play(s, letters).guesses == s.guesses + letters
    decreases |letters|
  {
    if |letters| > 0 {
      var prefix := letters[..|letters| - 1];
      ButtonRunSafe(s, prefix);
      ButtonRunStep(s, letters);
      ButtonRunRecords(s, letters);
    }
  }

  /** Dropping the last letter of a duplicate-free history leaves one, and the last letter was new. */
  lemma NoDuplicatesInit(g: seq<char>)
    requires |g| > 0 && NoDuplicates(g)
    ensures NoDuplicates(g[..|g| - 1])
    ensures g[|g| - 1] !in g[..|g| - 1]
  {
  }

  /** The distinct guessed letters of the word grow by the last guess exactly when it is new and a hit. */
  lemma HitSetSnoc(prefix: seq<char>, last: char, word: string)
    requires last !in prefix
    ensures |set c | c in prefix + [last] && c in word|
      == |set c | c in prefix && c in word| + (if last in word then 1 else 0)
  {
    var before := set c | c in prefix && c in word;
    var after := set c | c in prefix + [last] && c in word;
    if last in word {
      assert after == before + {last};
    } else {
      assert after == before;
    }
  }

  /** With no repeated guesses, the hits are the number of distinct word letters guessed. */
  lemma {:induction false} HitsCountsDistinctLetters(g: seq<char>, word: string)
    requires NoDuplicates(g)
    ensures Hits(g, word) == |set c | c in g && c in word|
    decreases |g|
  {
    if |g| > 0 {
      var prefix := g[..|g| - 1];
      var last := g[|g| - 1];
      NoDuplicatesInit(g);
      HitsCountsDistinctLetters(prefix, word);
      HitSetSnoc(prefix, last, word);
      assert g == prefix + [last];
    }
  }

  /** A game played from its start through enabled buttons records exactly the letters pressed, once each. */
  lemma ButtonGameGuesses(room: string, word: string, opponent: string, letters: seq<char>)
    requires ButtonRun(Started(room, word, opponent), letters)
    ensures Play(Started(room, word, opponent), letters).guesses == letters
    ensures NoDuplicates(letters)
    ensures Play(Started(room, word, opponent), letters).remainingAttempts >= 0
  {
    var s0 := Started(room, word, opponent);
    ButtonRunSafe(s0, letters);
    assert s0.guesses + letters == letters;
  }

  /**
   * A game played through enabled buttons from its start: the guesses are
   * the letters pressed, none twice; the score is the reward times the
   * number of distinct word letters found; the attempts stay non-negative
   * and the wrong guesses (the hangman picture's index) stay between 0 and
   * the initial attempts.
   */
  lemma ButtonGameBounds(room: string, word: string, opponent: string, letters: seq<char>)
    requires ButtonRun(Started(room, word, opponent), letters)
    ensures Play(Started(room, word, opponent), letters).guesses == letters
    ensures NoDuplicates(letters)
    ensures Play(Started(room, word, opponent), letters).remainingAttempts >= 0
    ensures Play(Started(room, word, opponent), letters).score
      == Reward * |set c | c in letters && c in LowerWord(word)|
    ensures 0 <= WrongGuesses(Play(Started(room, word, opponent), letters)) <= InitialAttempts
  {
    var s0 := Started(room, word, opponent);
    var s1 := Play(s0, letters);
    ButtonGameGuesses(room, word, opponent, letters);
    PlayPreservesConsistent(s0, letters);
    assert s1.word == LowerWord(word);
    HitsCountsDistinctLetters(s1.guesses, s1.word);
  }
}
