# Hangman client rules, in Dafny

This project models the rule set of the two-player hangman page (`Game` in
`src/pages/index.tsx`): the record the page keeps in component state, one
pure transition per handler (`handleGuess`, `handleRestart`, the socket
events `gameStarted`, `opponentGuessMade`, `gameOver`, the join
acknowledgement), and the views the page renders from that record (the
masked word, the wrong-guess count behind the hangman picture, the enabled
state of each letter button). Each handler is an atomic step on an immutable
`GameState`; the socket handle becomes a `connected` flag and an emitted
`guessMade` message becomes part of the step's result.

Modules:

- `Letters` (`letters.dfy`): the button alphabet and ASCII `toLowerCase`, on
  characters and on whole words.
- `Hangman` (`game.dfy`): the state, the handlers, the views, and the facts
  about a single step.
- `History` (`history.dfy`): guess sequences against a fixed word. The score
  and attempts are functions of the guess history. The button guard gives
  no repeated guesses and never-negative attempts.

Matchmaking, rooms, server-side score authority, win/draw decisions and
forfeit handling have no code in this repository. The client only receives
their results, so they are not modelled. The client code is what the
model follows. In that code each client computes its own score and attempts
and reports them in `guessMade`.

## Model

| member | source | states |
|---|---|---|
| Letters.Lower | src/pages/index.tsx:83 | Folding maps an upper-case ASCII letter to its lower-case partner. It leaves every other character alone. The result is never upper case. |
| Letters.LowerIdempotent | src/pages/index.tsx:83 | Lower-casing an already lower-cased letter changes nothing. |
| Letters.LowerIdentifiesCase | src/pages/index.tsx:83 | Two characters fold to the same letter exactly when they are equal or are the upper and lower case of one ASCII letter. |
| Letters.AlphabetIsLower | src/pages/index.tsx:147 | Every button letter is a lower-case letter, so lower-casing it is the identity. |
| Letters.LowerWord | src/pages/index.tsx:62 | The lower-cased word has the same length as the original, and each position is the folded original character. |
| Letters.LowerWordHasNoUpper | src/pages/index.tsx:62 | The word stored at game start contains no upper-case letter. |
| Letters.LowerWordIdempotent | src/pages/index.tsx:62 | Lower-casing a stored word again leaves it unchanged. |
| Letters.LowerWordSnoc | src/pages/index.tsx:83-84 | Lower-casing a history and then appending one folded letter gives the same result as lower-casing the extended history. |
| Letters.LowerWordOfAlphabet | src/pages/index.tsx:147-154 | A sequence of button letters is unchanged by lower-casing. |
| Hangman.UsernameChanged | src/pages/index.tsx:22-24 | The text field sets the username and nothing else. |
| Hangman.JoinNeedsUsername | src/pages/index.tsx:26-45 | The Join Room button starts a connection when it is shown, not disabled, and a username has been entered. On a fresh page that happens exactly once a non-empty name is typed. A successful acknowledgement disables it, and a failed one leaves it as it was. Restart does not re-enable the button, so after a successful join, typing a name again does not make joining possible. |
| Hangman.JoinAcknowledged | src/pages/index.tsx:37-45 | A successful acknowledgement disables the join button, shows the waiting notice and keeps the socket; all other fields stay the same. A failed one leaves the state unchanged. |
| Hangman.GameStarted | src/pages/index.tsx:47-65 | Game start records the room and the opponent and marks the game started. It stops the waiting notice and stores the word lower-cased position by position. Every other field, including guesses, score, attempts, opponent score and the game-over flag, is untouched. |
| Hangman.OpponentGuessMade | src/pages/index.tsx:67-69 | Only the displayed opponent score changes, to the received value. |
| Hangman.GameOverReceived | src/pages/index.tsx:70-79 | The game-over flag is set, whatever the result string; nothing else changes. |
| Hangman.Guess | src/pages/index.tsx:82-112 | A guess appends exactly the lower-cased letter to the guesses. A hit adds 10 to the score and keeps the attempts. A miss removes one attempt and keeps the score. No other field changes. A `guessMade` message is sent exactly when a socket is held. It carries the raw letter, the room, the username, the word and the post-step score, attempts and guesses. |
| Hangman.Restart | src/pages/index.tsx:164-173 | Restart puts room, guesses, attempts, score, word, opponent score, username and the started and waiting flags back to their initial values. It leaves the game-over flag, the opponent name, the join button and the socket as they were. |
| Hangman.RestartIdempotent | src/pages/index.tsx:164-173 | Restarting twice gives the same state as restarting once. |
| Hangman.RestartIsInitial | src/pages/index.tsx:8-20 | Restart reproduces the initial page state exactly when the four fields it does not reset already hold their initial values. |
| Hangman.MaskWord | src/pages/index.tsx:116-120 | The mask has the word's length. Each position shows the word's letter if that letter has been guessed and `_` otherwise. |
| Hangman.Mask | src/pages/index.tsx:114-124 | Nothing is rendered exactly when the game has not started or the word is empty. Otherwise the rendered word has the word's length and shows a letter at a position if it has been guessed, and `_` if not. |
| Hangman.Wrong | src/pages/index.tsx:127-129 | The filtered list is no longer than the guesses. A letter is in it exactly when it was guessed and does not occur in the word. |
| Hangman.HitsPlusWrong | src/pages/index.tsx:127-129 | Every guess is counted either as a hit or as a wrong guess, so the two counts add up to the number of guesses. |
| Hangman.CountWrongGuesses | src/pages/index.tsx:127-129 | A single pass over the guesses computes the wrong-guess count the hangman picture uses. That count plus the hits is the number of guesses. |
| Hangman.Buttons | src/pages/index.tsx:149-161 | There is one button per alphabet letter. A button is enabled exactly when its letter is not yet guessed, attempts remain above 0 and the game is not over. |
| Hangman.PressDisablesButton | src/pages/index.tsx:155-157 | Pressing an enabled button records exactly that letter. It then disables that button, and the attempts stay non-negative. |
| Hangman.GuessIgnoresCase | src/pages/index.tsx:82-110 | Guessing a letter in either case has the same effect on the state. The outgoing message still carries the letter as pressed. |
| Hangman.GuessRevealsMask | src/pages/index.tsx:114-120 | A guess uncovers exactly the positions holding its lower-cased letter. Every other position of the mask is unchanged. |
| Hangman.MaskSolved | src/pages/index.tsx:114-120 | For a word without underscores, the mask has no blank, and equals the word, exactly when every letter of the word has been guessed. |
| Hangman.GameOverDisablesButtons | src/pages/index.tsx:70-71 | After the `gameOver` event every letter button is disabled, so no further guess can be pressed. |
| Hangman.SideEventsKeepViews | src/pages/index.tsx:22-79 | A typed username, a join acknowledgement or an opponent's score leaves the masked word, the wrong-guess count and every button unchanged. |
| History.Play | src/pages/index.tsx:83-85 | After a sequence of guesses, the guesses are the earlier ones followed by the new letters lower-cased, in order. Only guesses, score and attempts change. |
| History.PlaySnoc | src/pages/index.tsx:82-112 | Guessing one more letter is one more `handleGuess` step. |
| History.PlayTotals | src/pages/index.tsx:87-98 | Over any guess history, the score grows by 10 per hit and the attempts shrink by 1 per wrong guess, repeats counted. |
| History.GuessPreservesConsistent | src/pages/index.tsx:90-98 | A guess keeps two relations. The score is 10 times the hits. The attempts plus the wrong-guess count are 6. |
| History.PlayPreservesConsistent | src/pages/index.tsx:90-98 | Any sequence of guesses keeps the same two relations. |
| History.FromStart | src/pages/index.tsx:13-15 | From the initial state and game start, any guess sequence gives: guesses equal to the letters lower-cased, a score of 10 times the hits, and attempts plus wrong guesses equal to 6. |
| History.RestartThenStartIsConsistent | src/pages/index.tsx:164-173 | A new game started after a restart satisfies the same relations for any guess sequence. |
| History.SideEventsKeepConsistent | src/pages/index.tsx:22-79 | The username, join-acknowledgement, opponent-score and game-over events keep the score equal to 10 times the hits and the attempts plus wrong guesses equal to 6. |
| History.PressKeepsGuard | src/pages/index.tsx:155-157 | One press of an enabled button keeps the guesses free of duplicates and the attempts non-negative. |
| History.ButtonRunStep | src/pages/index.tsx:155-157 | Ending a history with one enabled press after a duplicate-free prefix keeps it duplicate-free and keeps the attempts non-negative. |
| History.ButtonRunRecords | src/pages/index.tsx:82-85 | Ending a history with one enabled press records exactly the letter pressed. |
| History.ButtonRunSafe | src/pages/index.tsx:149-161 | Guessing only through enabled buttons never records a letter twice and never takes the attempts below 0. The guesses grow by exactly the letters pressed. |
| History.HitsCountsDistinctLetters | src/pages/index.tsx:90-94 | With no repeated guesses, the hit count is the number of distinct guessed letters that occur in the word. |
| History.ButtonGameGuesses | src/pages/index.tsx:149-161 | From game start, guessing only through enabled buttons records exactly the letters pressed, none of them twice, and the attempts never go below 0. |
| History.ButtonGameBounds | src/pages/index.tsx:126-157 | A game played from its start through enabled buttons ends with duplicate-free guesses equal to the letters pressed. The score is 10 times the number of distinct word letters found. The wrong-guess count, which selects the hangman picture, stays between 0 and 6, and the attempts stay non-negative. |

## Left out

- Socket.io connection, the `/api/socket` request and the listener registration: network I/O. A held socket is a `connected` flag, and an emitted `guessMade` is the `sent` part of a guess step.
- `joinRoom` (26-30) is reduced to its guard. `CanJoin` is the username check, and `JoinEnabled` adds the Join Room button's visibility and `disabled` attribute (187, 201). The connection it starts is I/O.
- `alert` messages for the game result and for a failed join, the hangman image path, CSS classes, and the DOM mutations (`disabled` and `founded` attributes, `querySelectorAll`, `window.location.reload`): UI side effects. The reload after `handleRestart` discards every field. That is why `Restart` states only the fields the handler itself resets.
- React's deferred `useState` updates and re-rendering: each handler is one atomic transition.
- Hangman.Guess: takes one character. The source accepts any string, and `word.includes` on a multi-character or empty string would test for a substring. Every caller passes a single alphabet letter.
- Letters.Lower: folds only the ASCII letters A-Z. JavaScript's `toLowerCase` also folds other Unicode letters.
- Letters.LowerWord: folds a word one character at a time and keeps its length. JavaScript can lengthen a word when it lower-cases it. For example, 'İ' becomes 'i' followed by a combining dot, which adds a guessable 'i'. Words with such characters are not modelled.
- Hangman.MaskWord: takes a word as a sequence of Unicode code points. `word.split("")` splits it into UTF-16 code units, so a character outside the Basic Multilingual Plane becomes two spans on the page but one position in the model. Such words are not modelled.
- Hangman.Mask: its length and positions are stated per code point, as for `MaskWord`. Characters outside the Basic Multilingual Plane are not modelled.
- Scores and attempts are unbounded integers. JavaScript numbers are doubles, which are exact for every value these counters can reach.
- The relation between score, attempts and guesses is stated for one fixed word. A second `gameStarted` arriving after guesses were made would replace the word and break it. The model assumes `gameStarted` arrives once per game. The client code does not enforce this.
- Matchmaking, rooms, authoritative scoring, win/lose/draw decisions, and reconnection and forfeit: no code for them exists in the source.
