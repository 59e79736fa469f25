# Memory game — a verified model of the `MemoryGame` class

`script.js` is a browser card-matching game. The board holds face-down
cards in pairs of animal emoji. The player flips two cards at a time by
click, tap or gamepad. Equal pairs stay face up. Unequal pairs are turned
back after half a second. The game ends when every pair is matched.

This project models the logic of the `MemoryGame` class in Dafny:

- the deal: board size per difficulty, the deck built from a fixed pool of
  32 emoji, the Fisher–Yates shuffle, and the reset;
- the flip and match state machine, with the delayed un-flip of a mismatch
  as a method of its own;
- the gamepad cursor on the row-major grid;
- the `MM:SS` text of the elapsed-time display.

The modules are:

- `Options`: the option type.
- `Cards`: a card as a value (`symbol`, `isFlipped`, `isMatched`) and the
  symbols of a row of cards.
- `Shuffling`: the shuffle's swap sweep as a function of the random draws.
- `Board`: difficulty levels, the pool, the deck, and what a paired deck is.
- `Timer`: minutes and seconds of elapsed milliseconds, the padded text,
  and reading that text back.
- `Cursor`: the gamepad input as signs and button states, the cursor's
  step, and the grid arithmetic behind it.
- `Play`: the flip rules as functions on a state value (`PlayState`). It
  holds the game's invariant `Inv` and the lemmas that every transition
  keeps it.
- `Game`: the class `MemoryGame`. Its fields are the JavaScript fields.
  Every event method is proved to change them as the matching `Play`
  function says (`State() == AfterFlip(old(State()), index, now)`, and so
  on).

How the JavaScript state is represented:

- The card objects become `Card` values in a `seq<Card>` field. Setting
  `card.isFlipped` on an object of `this.cards` is a sequence update.
- Every `createCards` builds new card objects. The field `deal` counts the
  deals, so it stands for the identity of the current card objects.
- A mismatch schedules a callback that holds `card1` and `card2`. The field
  `mismatchTimeout` records that callback as the deal and positions of its
  two cards. `resetGame` does not cancel it (script.js:255-277). When it
  fires after a new game, it flips back objects that are no longer on the
  board: nothing visible changes. It still empties `flippedCards` and clears
  `isProcessingMatch`. Until it fires, every flip on the new board is
  ignored (`Play.DealDuringMismatch`).
- `timerInterval` runs exactly while `gameStarted` is true, and
  `previewTimer` is pending exactly while `previewMode` is true. So neither
  is a field of its own. `gameOver` records whether the game-over panel is
  shown.
- The timer callbacks are the methods `EndPreviewMode`, `ResolveMismatch`
  and `UpdateTimer`. Times are `nat` milliseconds passed in as `now`.
- The shuffle's `Math.random()` draws are a parameter `picks`. The draw at
  step `i` is `picks[i]`, with `0 <= picks[i] <= i`.
- A gamepad axis becomes a sign relative to the ±0.85 threshold
  (`Cursor.AxisSign`). A missing button reads as released.

The invariant (`Play.Inv`, and `Game.MemoryGame.Valid` on the class):

- the board is non-empty and holds two cards per symbol;
- at most two cards are pending, on distinct positions on the board;
- the pending cards are exactly the face-up unmatched ones;
- `2 * matchedPairs` is the number of matched cards;
- input is blocked exactly while an un-flip is scheduled, and at most one
  card is pending otherwise;
- the scheduled un-flip refers to the two pending cards of this deal,
  which differ, or to cards of an earlier deal;
- a running clock has a start time;
- the panel shows exactly when every pair is matched.

The constructor and `StartNewGame` establish `Valid`. The other event
methods are proved against their `Play` transition, and `Play` proves that
each transition keeps `Inv` (`FlipKeepsInv`, `ResolveKeepsInv`,
`PreviewEndKeepsInv`). This keeps the invariant out of the methods' own
proofs, which would otherwise be too large to check.

## Model

| member | source | states |
|---|---|---|
| Board.GetBoardSize | script.js:48-55 | "medium" gives 6×6, "hard" 8×8, and any other value 4×4 (each an if-and-only-if). Every board is square, has an even number of cells, and needs at most 32 pairs. |
| Board.PoolDistinct | script.js:23-28 | The pool has 32 symbols and no symbol occurs twice. |
| Board.DeckShape | script.js:57-71 | Card `i` of the deck in pool order is the face-down, unmatched card of pool symbol `i / 2`. |
| Board.DeckPairs | script.js:57-71 | Each of the first `pairs` pool symbols lies on exactly two cards of the deck. No other symbol lies on any. |
| Board.PairedDeckCounts | script.js:57-71 | On any paired deck, each pool symbol among the first half-length many occurs exactly twice and no other symbol occurs. |
| Board.FlagsKeepPairs | script.js:173 | Changing only the flags of cards keeps the board paired. |
| Board.ShuffledDeck | script.js:57-78 | A shuffled deck has 2·pairs cards and two per symbol, all face down and unmatched. |
| Game.MemoryGame.CreateCards | script.js:57-71 | `cards` becomes the deck of rows·cols/2 pool symbols in pool order. The deal number rises by one, since the card objects are new. |
| Shuffling.Swap | script.js:76 | Positions `i` and `j` exchange their elements; the length is kept. |
| Shuffling.SwapPermutes | script.js:76 | A swap keeps the multiset and changes no other position. |
| Shuffling.SweepPermutes | script.js:74-77 | The sweep from index `i` down to 1 keeps the length and the multiset, for any valid draws. |
| Shuffling.ShufflePermutes | script.js:73-78 | The whole shuffle is a permutation, for any draws `j` in [0, i]. |
| Shuffling.SweepIdentity | script.js:74-77 | Drawing `j = i` at every step leaves the order unchanged. |
| Shuffling.SweepSymbols | script.js:74-77 | Shuffling cards shuffles their symbols in the same way. |
| Shuffling.ShuffleSymbols | script.js:73-78 | The shuffle keeps the multiset of symbols. |
| Game.MemoryGame.ShuffleCards | script.js:73-78 | The in-place swap loop leaves `cards` equal to `Shuffle(old(cards), picks)`, a permutation of the old cards. |
| Cards.Cleared | script.js:273-276 | Clearing keeps the length and every symbol, and leaves each card face down and unmatched. |
| Cards.ClearedIdle | script.js:273-276 | Clearing a face-down, unmatched row changes nothing, and clearing twice is clearing once. |
| Game.MemoryGame.ResetGame | script.js:255-277 | The counters are zero, nothing is pending, and the clock and preview are stopped. Every card is face down and unmatched with its symbol kept. The scheduled un-flip and `isProcessingMatch` are not touched. |
| Game.MemoryGame.InitializeGame | script.js:35-41 | `cards` is the shuffled deck for the difficulty, of rows·cols cards. It is a new deal: nothing is pending, the counters are zero, the clock is stopped and the preview is on. |
| Game.MemoryGame.constructor | script.js:2-33 | The field defaults and then the first deal: `Valid()` holds, the cards are the shuffled deck, nothing is scheduled, and the cursor is at 0 with all buttons released. |
| Game.MemoryGame.StartNewGame | script.js:337-345 | The state after a new game is `AfterDeal` of the old one: a new deal of the shuffled deck, the panel hidden, and the cursor at 0. It keeps `Valid()`, and a scheduled un-flip survives. |
| Play.DealKeepsInv | script.js:255-277 | A deal of face-down, unmatched cards with two per symbol establishes the invariant, with or without an un-flip from an earlier deal. |
| Play.ShuffledDealKeepsInv | script.js:337-345 | The same for the shuffled deck, for any valid draws. |
| Play.DealDuringMismatch | script.js:255-277 | A new game does not cancel a pending un-flip. Until it fires, every flip is ignored. When it fires, it leaves the new cards as they are, empties the pending list and unblocks input. |
| Game.MemoryGame.StartPreviewMode | script.js:279-290 | The preview is on. |
| Game.MemoryGame.EndPreviewMode | script.js:292-296 | The preview ends and nothing else changes. |
| Play.PreviewEndKeepsInv | script.js:292-296 | Ending the preview keeps the invariant and the cards. |
| Game.MemoryGame.StartTimer | script.js:220-225 | The start time is `now`. |
| Game.MemoryGame.FlipCard | script.js:160-184 | The new state is `AfterFlip` of the old one, for every index on the board. |
| Play.FlipRejected | script.js:160-164 | During the preview, on a face-up or matched card, or while a mismatch is shown, a flip changes nothing. |
| Play.FlipAccepted | script.js:166-183 | An accepted flip belongs to the same deal. It counts one attempt exactly when it is the second card. It starts the clock at `now` only if the clock was stopped. A first card is turned face up and becomes the only pending card. |
| Play.FlipKeepsShape | script.js:160-218 | A flip keeps the number of cards and keeps the pending cards on the board. |
| Play.FirstFlipKeepsInv | script.js:166-174 | An accepted first flip keeps the invariant. |
| Play.MatchKeepsInv | script.js:194-207 | An accepted second flip with the first card's symbol keeps the invariant. |
| Play.MismatchKeepsInv | script.js:208-216 | An accepted second flip with a different symbol keeps the invariant. |
| Play.FlipKeepsInv | script.js:160-218 | Every flip keeps the invariant, so at most two cards are ever pending. |
| Play.MatchedBoard | script.js:194-198 | Matching the pair keeps the board paired and adds two matched cards. Afterwards no card is face up and unmatched. |
| Game.MemoryGame.CheckMatch | script.js:186-218 | The new state is `AfterCheck` of the old one. |
| Play.MatchOutcome | script.js:194-207 | Equal symbols: both cards are matched and keep their symbols, and one more pair and one attempt are counted. Nothing is pending or scheduled and input is open. The game is over exactly when every card is matched, and then the clock is stopped. |
| Play.MismatchOutcome | script.js:208-216 | Different symbols: both cards stay face up, input is blocked, and the un-flip of exactly these two cards is scheduled. When it runs, both are face down, nothing is pending, input is open, and every other card and both counts are as they were. |
| Play.GameOverWhenAllMatched | script.js:204-207 | With the invariant, the game is over exactly when every card is matched, and then nothing is pending. |
| Game.MemoryGame.EndGame | script.js:239-249 | The clock is stopped and the game-over panel shows. |
| Game.MemoryGame.HideGameOver | script.js:251-253 | The panel is hidden. |
| Game.MemoryGame.ResolveMismatch | script.js:210-216 | The new state is `AfterResolve` of the old one. |
| Play.ResolveKeepsInv | script.js:210-216 | The delayed un-flip keeps the invariant. |
| Timer.Split | script.js:229-230 | Seconds are in [0, 59], and minutes·60000 + seconds·1000 ≤ elapsed < minutes·60000 + seconds·1000 + 1000. |
| Timer.SplitUnique | script.js:229-230 | Only one pair of fields meets these bounds. |
| Timer.Decimal | script.js:231 | `toString` of a natural number: at least one digit and no leading zero. One digit below 10, two below 100. |
| Timer.PadStart2 | script.js:231 | `padStart(2, '0')`: the result is as long as the input or 2, whichever is larger. It ends with the input and starts with zeros. |
| Timer.Field | script.js:231 | A display field has at least two digits, and exactly two below 100. |
| Timer.DisplayRoundTrip | script.js:231 | The text of a clock, with seconds below 60, reads back as that clock. |
| Timer.TimerText | script.js:229-231 | Reading the text back gives exactly the minutes and seconds of the elapsed time. The text has at least five characters, and exactly five below 100 minutes. |
| Timer.DecimalValue | script.js:231 | The digits of `n` denote `n`. |
| Timer.FieldValue | script.js:231 | Zero-padding does not change the number a field denotes. |
| Timer.ParseFields | script.js:231 | A display built from two digit fields reads back as those two numbers. |
| Game.MemoryGame.UpdateTimer | script.js:227-233 | The text shown reads back as exactly the whole minutes and seconds elapsed since `startTime`. |
| Cursor.ChooseIndex | script.js:445-476 | The requested index is the target of the chosen step. A newly pressed D-pad direction (right, left, down, up) wins. Otherwise the stick's vertical step wins over its horizontal one. |
| Cursor.NextCursor | script.js:445-482 | From a cell on the board, the cursor stays on the board. It either stays put or moves to a cell adjacent in its row or column. |
| Cursor.StepLands | script.js:451-476 | Every step the guards allow lands on an adjacent cell of the board. So the range check at line 479 never rejects such a step. |
| Cursor.HeldButtonsDoNotRepeat | script.js:468-476 | With the stick centred and no D-pad direction newly pressed, the cursor stays put. |
| Cursor.DpadOverridesStick | script.js:451-476 | Whenever the D-pad steps, in any of the four directions, the cursor takes that step, whatever the stick says. |
| Cursor.StickVerticalOverridesHorizontal | script.js:451-465 | Without a D-pad step, a vertical stick step that stays on the grid is taken, up or down, whatever the horizontal axis says. Only when it cannot move is the horizontal step taken, left or right. |
| Game.MemoryGame.HandleGamepadInput | script.js:426-497 | While a mismatch is shown, the poll changes nothing, not even the button snapshot. Otherwise the cursor becomes `NextCursor` and the buttons are remembered. The state is `AfterFlip` on the new cursor when A was newly pressed, and unchanged otherwise. The board and cursor stay in range. |

## Left out

- DOM reads and writes are not modelled: `renderBoard`, `updateAttempts`, the text and panel updates in `endGame`, `showPreviewMessage` and `hidePreviewMessage`, and `updateGamepadStatus`. `setDifficulty` reads a `<select>`, so the difficulty is a parameter.
- Event-listener wiring (`setupEventListeners`, `setupGamepad`), the `DOMContentLoaded` bootstrap, `isMobileDevice`, `pollGamepad`, and the polling interval are browser plumbing. The event methods stand for the events they deliver.
- `setTimeout` and `setInterval` scheduling is not modelled. A timer's expiry is a method call, and the 5 s and 500 ms delays are not represented.
- The countdown interval of `startCountdown` is not modelled. It writes only to the DOM. It stops itself at 0, and `resetGame` and `startNewGame` do not cancel it.
- `Math.random` is not modelled: the shuffle draws are a parameter, and card `id`s, which the logic never reads, are omitted.
- `Date.now()` is not modelled; the time is a parameter `now`.
- Floating-point axis values are not modelled. Only their comparison with ±0.85 is kept, as a sign per axis.
- Object identity is modelled only as far as the logic needs it: the deal number says whether the cards a callback holds are still on the board. Aliasing between card objects is not modelled otherwise.
- Game.MemoryGame.UpdateTimer: requires `startTime <= now`. A clock running backwards would give a negative elapsed time in JavaScript.
- Game.MemoryGame.UpdateTimer: the contract says what the text means, not how it is spelled. The method returns `Timer.TimerText`, which fixes the spelling.
- Game.MemoryGame.FlipCard: requires the index to be on the board. `flipCard` has no range check. Outside the preview, an index off the board would make it fail on `undefined`. During the preview the `previewMode` test returns first.
- Game.MemoryGame.FlipCard: the contract does not restate the invariant. `Play.FlipKeepsInv` proves that every flip keeps it.
- Game.MemoryGame.HandleGamepadInput: the contract does not restate the invariant. `Play.FlipKeepsInv` proves it for the flip; the cursor part is covered by `OnBoard`.
- Game.MemoryGame.EndPreviewMode: the contract does not restate the invariant. `Play.PreviewEndKeepsInv` proves that ending the preview keeps it.
- Game.MemoryGame.ResolveMismatch: the contract does not restate the invariant. `Play.ResolveKeepsInv` proves that the delayed un-flip keeps it.
- Game.MemoryGame.ShuffleCards: the JavaScript swaps elements of the `cards` array in place. Here `cards` is a sequence field that the loop reassigns.
- Game.MemoryGame.InitializeGame: `startNewGame` repeats `initializeGame`'s steps instead of calling it, and the model has it call `InitializeGame`. The effect is the same.
- Cursor.ChooseIndex: the cursor part of `handleGamepadInput` (lines 445-476) is a separate method, and the handler calls it. The other lines stay in `HandleGamepadInput`.
- JavaScript's `cards.length / 2` is real division. The board always has an even number of cards, so the model writes the end-of-game test as `2 * matchedPairs == |cards|`.
