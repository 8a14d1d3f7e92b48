/**
 * The client-side rule set of the two-player hangman page: one immutable
 * record of everything the page keeps in component state, one pure
 * transition per handler, and the views the page renders from the record.
 * Each handler is modelled as an atomic step; React's deferred state updates
 * and the DOM side effects of the handlers are not part of the record.
 */
module Hangman {
  import opened Letters

  datatype Option<T> = None | Some(value: T)

  /** Attempts a player starts with. */
  const InitialAttempts: int := 6

  /** Points for a guessed letter that occurs in the word. */
  const Reward: int := 10

  /** The page's component state (the socket handle is reduced to whether one is held). */
  datatype GameState = GameState(
    gameStarted: bool,
    room: string,
    username: string,
    waitingForSecondPlayer: bool,
    word: string,
    guesses: seq<char>,
    remainingAttempts: int,
    score: int,
    connected: bool,
    opponentUsername: string,
    opponentScore: int,
    gameOver: bool,
    buttonDisabled: bool)

  /** The `guessMade` message a guess sends over the socket. */
  datatype GuessMade = GuessMade(
    letter: char,
    room: string,
    username: string,
    score: int,
    word: string,
    remainingAttempts: int,
    guesses: seq<char>)

  /** The state after a guess, and the message sent, if a socket is held. */
  datatype Step = Step(state: GameState, sent: Option<GuessMade>)

  /** The state a freshly loaded page starts from. */
  function Initial(): GameState {
    GameState(
      gameStarted := false, room := "", username := "", waitingForSecondPlayer := false,
      word := "", guesses := [], remainingAttempts := InitialAttempts, score := 0,
      connected := false, opponentUsername := "", opponentScore := 0,
      gameOver := false, buttonDisabled := false)
  }

  // ---------------------------------------------------------------------------
  // Handlers
  // ---------------------------------------------------------------------------

  /** The text field's change handler. */
  function UsernameChanged(s: GameState, name: string): (r: GameState)
    ensures r.username == name
    ensures r.(username := s.username) == s
  {
    s.(username := name)
  }

  /** `joinRoom` opens a connection only when a username has been entered. */
  predicate CanJoin(s: GameState) {
    s.username != ""
  }

  /**
   * The Join Room button starts a connection attempt when it is on screen
   * (the game has not started), not disabled, and a username has been entered.
   */
  predicate JoinEnabled(s: GameState) {
    !s.gameStarted && !s.buttonDisabled && CanJoin(s)
  }

  /**
   * On a fresh page a join is possible exactly once a non-empty username is
   * typed; a successful acknowledgement disables it, a failed one leaves it
   * as it was; after a restart it depends on the typed name and on whether
   * the button was disabled before, since the restart handler does not
   * re-enable the button.
   */
  lemma JoinNeedsUsername(s: GameState, name: string)
    ensures JoinEnabled(UsernameChanged(Initial(), name)) <==> name != ""
    ensures !JoinEnabled(JoinAcknowledged(s, true))
    ensures JoinEnabled(JoinAcknowledged(s, false)) == JoinEnabled(s)
    ensures !JoinEnabled(Restart(s))
    ensures JoinEnabled(UsernameChanged(Restart(s), name)) <==> name != "" && !s.buttonDisabled
  {
  }

  /** The server's acknowledgement of `joinRoom`: on success the page waits for an opponent. */
  function JoinAcknowledged(s: GameState, success: bool): (r: GameState)
    ensures success ==> r.waitingForSecondPlayer && r.buttonDisabled && r.connected
    ensures success ==> r.(waitingForSecondPlayer := s.waitingForSecondPlayer,
                           buttonDisabled := s.buttonDisabled, connected := s.connected) == s
    ensures !success ==> r == s
  {
    if success then s.(buttonDisabled := true, waitingForSecondPlayer := true, connected := true)
    else s
  }

  /** The `gameStarted` event: the page records the room, the opponent and the lower-cased word. */
  function GameStarted(s: GameState, room: string, word: string, opponent: string): (r: GameState)
    ensures r.gameStarted && !r.waitingForSecondPlayer
    ensures r.room == room && r.opponentUsername == opponent
    ensures |r.word| == |word| && forall c :: c in r.word ==> !IsUpper(c)
    ensures forall i :: 0 <= i < |word| ==> r.word[i] == Lower(word[i])
    ensures r.guesses == s.guesses && r.score == s.score && r.remainingAttempts == s.remainingAttempts
    ensures r.(room := s.room, gameStarted := s.gameStarted, waitingForSecondPlayer := s.waitingForSecondPlayer,
               word := s.word, opponentUsername := s.opponentUsername) == s
  {
    LowerWordHasNoUpper(word);
    s.(room := room, gameStarted := true, waitingForSecondPlayer := false,
       word := LowerWord(word), opponentUsername := opponent)
  }

  /** The `opponentGuessMade` event: only the displayed opponent score changes. */
  function OpponentGuessMade(s: GameState, opponentScore: int): (r: GameState)
    ensures r.opponentScore == opponentScore
    ensures r.(opponentScore := s.opponentScore) == s
  {
    s.(opponentScore := opponentScore)
  }

  /** The `gameOver` event: the page marks the game finished (the result is only announced). */
  function GameOverReceived(s: GameState): (r: GameState)
    ensures r.gameOver
    ensures r.(gameOver := s.gameOver) == s
  {
    s.(gameOver := true)
  }

  /** Whether a lower-cased guess occurs in the word (`word.includes`). */
  predicate Hit(word: string, c: char) {
    c in word
  }

  /**
   * `handleGuess`: the lower-cased letter is appended to the guesses; a hit
   * earns the reward, a miss costs one attempt; the updated values go into
   * the `guessMade` message, which carries the letter as it was pressed.
   */
  function Guess(s: GameState, letter: char): (r: Step)
    ensures r.state.guesses == s.guesses + [Lower(letter)]
    ensures Lower(letter) in s.word ==>
      r.state.score == s.score + Reward && r.state.remainingAttempts == s.remainingAttempts
    ensures Lower(letter) !in s.word ==>
      r.state.score == s.score && r.state.remainingAttempts == s.remainingAttempts - 1
    ensures r.state.(guesses := s.guesses, score := s.score, remainingAttempts := s.remainingAttempts) == s
    ensures r.sent.Some? <==> s.connected
    ensures r.sent.Some? ==> r.sent.value == GuessMade(
      letter, s.room, s.username, r.state.score, s.word, r.state.remainingAttempts, r.state.guesses)
  {
    var c := Lower(letter);
    var sendGuesses := s.guesses + [c];
    var hit := Hit(s.word, c);
    var updatedScore := if hit then s.score + Reward else s.score;
    var updatedAttempts := if hit then s.remainingAttempts else s.remainingAttempts - 1;
    var next := s.(guesses := sendGuesses, score := updatedScore, remainingAttempts := updatedAttempts);
    var sent := if s.connected
      then Some(GuessMade(letter, s.room, s.username, updatedScore, s.word, updatedAttempts, sendGuesses))
      else None;
    Step(next, sent)
  }

  /**
   * `handleRestart`: the fields the handler resets go back to their initial
   * values; the game-over flag, the opponent's name, the join button and the
   * socket are left as they were (the page reload that follows discards them).
   */
  function Restart(s: GameState): (r: GameState)
    ensures r == Initial().(connected := s.connected, opponentUsername := s.opponentUsername,
                            gameOver := s.gameOver, buttonDisabled := s.buttonDisabled)
  {
    s.(room := "", guesses := [], remainingAttempts := InitialAttempts, score := 0, word := "",
       opponentScore := 0, gameStarted := false, username := "", waitingForSecondPlayer := false)
  }

  /** Restarting twice is restarting once. */
  lemma RestartIdempotent(s: GameState)
    ensures Restart(Restart(s)) == Restart(s)
  {
  }

  /** Restart yields the initial state exactly when the untouched fields already hold their initial values. */
  lemma RestartIsInitial(s: GameState)
    ensures Restart(s) == Initial() <==>
      !s.connected && s.opponentUsername == "" && !s.gameOver && !s.buttonDisabled
  {
  }

  // ---------------------------------------------------------------------------
  // Views
  // ---------------------------------------------------------------------------

  /** The word with every letter not yet guessed shown as `_`. */
  function MaskWord(word: string, guesses: seq<char>): (r: string)
    ensures |r| == |word|
    ensures forall i :: 0 <= i < |word| ==> (word[i] in guesses ==> r[i] == word[i])
    ensures forall i :: 0 <= i < |word| ==> (word[i] !in guesses ==> r[i] == '_')
    decreases |word|
  {
    if |word| == 0 then []
    else
      var last := word[|word| - 1];
      MaskWord(word[..|word| - 1], guesses) + [if last in guesses then last else '_']
  }

  /** `renderWord`: nothing before the game starts or while the word is empty, else the masked word. */
  function Mask(s: GameState): (r: Option<string>)
    ensures r.None? <==> !s.gameStarted || s.word == ""
    ensures r.Some? ==> |r.value| == |s.word|
    ensures r.Some? ==> forall i :: 0 <= i < |s.word| ==>
      r.value[i] == (if s.word[i] in s.guesses then s.word[i] else '_')
  {
    if s.gameStarted && s.word != "" then Some(MaskWord(s.word, s.guesses)) else None
  }

  /** The guesses that do not occur in the word, in order, repeats kept (`guesses.filter`). */
  function Wrong(guesses: seq<char>, word: string): (r: seq<char>)
    ensures |r| <= |guesses|
    ensures forall c :: c in r <==> c in guesses && c !in word
    decreases |guesses|
  {
    if |guesses| == 0 then []
    else
      var prefix := guesses[..|guesses| - 1];
      var g := guesses[|guesses| - 1];
      assert guesses == prefix + [g];
      if g in word then Wrong(prefix, word) else Wrong(prefix, word) + [g]
  }

  /** The number of guesses that occur in the word, repeats counted. */
  function Hits(guesses: seq<char>, word: string): nat
    decreases |guesses|
  {
    if |guesses| == 0 then 0
    else
      Hits(guesses[..|guesses| - 1], word) + (if guesses[|guesses| - 1] in word then 1 else 0)
  }

  /** Every guess is either a hit or a wrong guess. */
  lemma {:induction false} HitsPlusWrong(guesses: seq<char>, word: string)
    ensures Hits(guesses, word) + |Wrong(guesses, word)| == |guesses|
    decreases |guesses|
  {
    if |guesses| > 0 {
      HitsPlusWrong(guesses[..|guesses| - 1], word);
    }
  }

  /** The wrong-guess count `renderHangman` picks the hangman picture by. */
  function WrongGuesses(s: GameState): nat {
    |Wrong(s.guesses, s.word)|
  }

  /** The same count, computed by one pass over the guesses. */
  method CountWrongGuesses(guesses: seq<char>, word: string) returns (n: nat)
    ensures n == |Wrong(guesses, word)|
    ensures n + Hits(guesses, word) == |guesses|
  {
    n := 0;
    var hits := 0;
    var i := 0;
    while i < |guesses|
      invariant 0 <= i <= |guesses|
      invariant n == |Wrong(guesses[..i], word)|
      invariant hits == Hits(guesses[..i], word)
      invariant n + hits == i
    {
      assert guesses[..i + 1][..i] == guesses[..i];
      if guesses[i] in word {
        hits := hits + 1;
      } else {
        n := n + 1;
      }
      i := i + 1;
    }
    assert guesses[..i] == guesses;
  }

  /** The `disabled` attribute of the button for letter `c`. */
  predicate Disabled(s: GameState, c: char) {
    c in s.guesses || s.remainingAttempts <= 0 || s.gameOver
  }

  /** A letter whose button is on screen and enabled: the game is shown and the guard lets it through. */
  predicate Pressable(s: GameState, c: char) {
    s.gameStarted && c in Alphabet && !Disabled(s, c)
  }

  /** `renderButtons`: whether each alphabet button is enabled, in alphabet order. */
  function Buttons(s: GameState): (r: seq<bool>)
    ensures |r| == |Alphabet|
    ensures forall i :: 0 <= i < |Alphabet| ==>
      (r[i] <==> Alphabet[i] !in s.guesses && s.remainingAttempts > 0 && !s.gameOver)
  {
    seq(|Alphabet|, i requires 0 <= i < |Alphabet| => !Disabled(s, Alphabet[i]))
  }

  /**
   * Pressing an enabled button records exactly that letter, disables its
   * button, and leaves the attempts non-negative.
   */
  lemma PressDisablesButton(s: GameState, c: char)
    requires Pressable(s, c)
    ensures Guess(s, c).state.guesses == s.guesses + [c]
    ensures Disabled(Guess(s, c).state, c)
    ensures Guess(s, c).state.remainingAttempts >= 0
  {
    AlphabetIsLower(c);
  }

  /** A guess is case-insensitive in its effect on the state; only the message keeps the raw letter. */
  lemma GuessIgnoresCase(s: GameState, letter: char)
    ensures Guess(s, letter).state == Guess(s, Lower(letter)).state
    ensures s.connected ==> Guess(s, letter).sent.value.letter == letter
  {
    LowerIdempotent(letter);
  }

  /**
   * A guess reveals exactly the positions holding its lower-cased letter;
   * every other position of the mask is unchanged.
   */
  lemma GuessRevealsMask(s: GameState, letter: char, i: int)
    requires Mask(s).Some? && 0 <= i < |s.word|
    ensures Mask(Guess(s, letter).state).Some?
    ensures s.word[i] == Lower(letter) ==> Mask(Guess(s, letter).state).value[i] == s.word[i]
    ensures s.word[i] != Lower(letter) ==> Mask(Guess(s, letter).state).value[i] == Mask(s).value[i]
  {
  }

  /**
   * For a word without underscores, the mask shows no blank exactly when
   * every letter of the word has been guessed.
   */
  lemma MaskSolved(s: GameState)
    requires Mask(s).Some? && '_' !in s.word
    ensures '_' !in Mask(s).value <==> forall i :: 0 <= i < |s.word| ==> s.word[i] in s.guesses
    ensures Mask(s).value == s.word <==> forall i :: 0 <= i < |s.word| ==> s.word[i] in s.guesses
  {
    var m := Mask(s).value;
    if forall i :: 0 <= i < |s.word| ==> s.word[i] in s.guesses {
      assert m == s.word;
    }
  }

  /** Once the game is over every letter button is disabled, so no further guess can be pressed. */
  lemma GameOverDisablesButtons(s: GameState)
    ensures forall i :: 0 <= i < |Alphabet| ==> !Buttons(GameOverReceived(s))[i]
    ensures forall c :: !Pressable(GameOverReceived(s), c)
  {
  }

  /**
   * The socket and text-field events that arrive between guesses (a typed
   * username, a join acknowledgement, an opponent's score) leave the masked
   * word, the wrong-guess count and every button as they were.
   */
  lemma SideEventsKeepViews(s: GameState, name: string, success: bool, opponentScore: int)
    ensures Mask(UsernameChanged(s, name)) == Mask(s)
    ensures Mask(JoinAcknowledged(s, success)) == Mask(s)
    ensures Mask(OpponentGuessMade(s, opponentScore)) == Mask(s)
    ensures WrongGuesses(UsernameChanged(s, name)) == WrongGuesses(s)
    ensures WrongGuesses(JoinAcknowledged(s, success)) == WrongGuesses(s)
    ensures WrongGuesses(OpponentGuessMade(s, opponentScore)) == WrongGuesses(s)
    ensures Buttons(UsernameChanged(s, name)) == Buttons(s)
    ensures Buttons(JoinAcknowledged(s, success)) == Buttons(s)
    ensures Buttons(OpponentGuessMade(s, opponentScore)) == Buttons(s)
  {
  }
}
