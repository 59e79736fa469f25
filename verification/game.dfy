/** The game object: its fields, updated in place by the flip, match check,
    timer callbacks, new-game and gamepad handlers. Each event method is
    proved to follow a transition function of module Play, and Play proves
    that every transition keeps the game's invariant; the constructor and a
    new game establish it. */
module Game {
  import opened Options
  import opened Cards
  import opened Shuffling
  import opened Board
  import opened Timer
  import opened Cursor
  import opened Play

  class MemoryGame {
    var cards: seq<Card>
    /** Which card objects `cards` holds: every deal creates new ones. */
    var deal: nat
    var flippedCards: seq<nat>
    var matchedPairs: nat
    var attempts: nat
    /** True exactly while the elapsed-time interval runs. */
    var gameStarted: bool
    /** The time of the first flip of the current clock; none before any. */
    var startTime: Option<nat>
    var difficulty: string
    /** True exactly while the five-second preview timeout is pending. */
    var previewMode: bool
    var isProcessingMatch: bool
    /** The 500 ms un-flip a mismatch scheduled and that has not yet run. */
    var mismatchTimeout: Option<MismatchTimeout>
    var selectedCardIndex: nat
    var lastGamepadState: Buttons
    /** True while the game-over panel is shown. */
    var gameOver: bool

    /** The fields the flip rules read and write, as a value. */
    ghost function State(): PlayState
      reads this`deal, this`cards, this`flippedCards, this`matchedPairs, this`attempts, this`gameStarted
      reads this`startTime, this`previewMode, this`isProcessingMatch, this`mismatchTimeout, this`gameOver
    {
      PlayState(deal, cards, flippedCards, matchedPairs, attempts, gameStarted, startTime,
                previewMode, isProcessingMatch, mismatchTimeout, gameOver)
    }

    /** A board of the size the difficulty asks for, the cursor on it and
        the pending cards on it. */
    ghost predicate OnBoard()
      reads this`cards, this`difficulty, this`selectedCardIndex, this`flippedCards
    {
      |cards| == TotalCards(GetBoardSize(difficulty)) && selectedCardIndex < |cards|
      && forall k :: 0 <= k < |flippedCards| ==> flippedCards[k] < |cards|
    }

    /** The flip rules' invariant on a board that fits the difficulty. */
    ghost predicate Valid()
      reads this`deal, this`cards, this`flippedCards, this`matchedPairs, this`attempts, this`gameStarted
      reads this`startTime, this`previewMode, this`isProcessingMatch, this`mismatchTimeout, this`gameOver
      reads this`difficulty, this`selectedCardIndex
    {
      Inv(State()) && OnBoard()
    }

    /** A new game object: the deck for `difficulty` is dealt, shuffled with
        the draws `picks`, reset and shown in preview. */
    constructor (difficulty: string, picks: seq<nat>)
      requires |picks| == TotalCards(GetBoardSize(difficulty)) && ValidPicks(picks)
      ensures Valid()
      ensures cards == Shuffle(Deck(TotalCards(GetBoardSize(difficulty)) / 2), picks)
      ensures this.difficulty == difficulty && flippedCards == [] && matchedPairs == 0 && attempts == 0
      ensures !gameStarted && startTime == None && previewMode && !isProcessingMatch
      ensures mismatchTimeout == None && !gameOver
      ensures selectedCardIndex == 0 && lastGamepadState == Released
    {
      cards := [];
      deal := 0;
      flippedCards := [];
      matchedPairs := 0;
      attempts := 0;
      gameStarted := false;
      startTime := None;
      this.difficulty := "easy";
      previewMode := false;
      isProcessingMatch := false;
      mismatchTimeout := None;
      selectedCardIndex := 0;
      lastGamepadState := Released;
      gameOver := false;
      new;
      ghost var before := State();
      InitializeGame(difficulty, picks);
      assert State() == AfterDeal(before, cards);
      ShuffledDealKeepsInv(before, TotalCards(GetBoardSize(difficulty)) / 2, picks);
    }

    /** New card objects: the deck for the current difficulty, in pool
        order. */
    method CreateCards()
      modifies this`cards, this`deal
      ensures cards == Deck(TotalCards(GetBoardSize(difficulty)) / 2)
      ensures deal == old(deal) + 1
    {
      var size := GetBoardSize(difficulty);
      var pairsNeeded := TotalCards(size) / 2;
      deal := deal + 1;
      cards := [];
      for k := 0 to pairsNeeded
        modifies this`cards
        invariant cards == Deck(k)
      {
        var emoji := Pool[k];
        cards := cards + [FaceDown(emoji)];
        cards := cards + [FaceDown(emoji)];
      }
    }

    /** The Fisher–Yates sweep over the board, from the last position down to
        the second, position `i` swapped with position `picks[i]`. */
    method ShuffleCards(picks: seq<nat>)
      requires |picks| == |cards| && ValidPicks(picks)
      modifies this`cards
      ensures cards == Shuffle(old(cards), picks)
      ensures multiset(cards) == multiset(old(cards))
    {
      ShufflePermutes(cards, picks);
      if |cards| == 0 {
        return;
      }
      var i := |cards| - 1;
      while i > 0
        invariant 0 <= i < |cards| == |picks|
        invariant Sweep(cards, picks, i) == Shuffle(old(cards), picks)
        decreases i
      {
        var j := picks[i];
        cards := cards[i := cards[j]][j := cards[i]];
        i := i - 1;
      }
    }

    /** Counters and pending cards cleared, clock and preview stopped, every
        card face down and unmatched. A scheduled mismatch un-flip and the
        flag that blocks input while it is pending are not touched. */
    method ResetGame()
      modifies this`matchedPairs, this`attempts, this`flippedCards, this`gameStarted, this`previewMode, this`cards
      ensures matchedPairs == 0 && attempts == 0 && flippedCards == [] && !gameStarted && !previewMode
      ensures cards == Cleared(old(cards))
    {
      matchedPairs := 0;
      attempts := 0;
      flippedCards := [];
      gameStarted := false;
      previewMode := false;
      for i := 0 to |cards|
        modifies this`cards
        invariant |cards| == |old(cards)|
        invariant forall k :: 0 <= k < i ==> cards[k] == FaceDown(old(cards)[k].symbol)
        invariant forall k :: i <= k < |cards| ==> cards[k] == old(cards)[k]
      {
        cards := cards[i := cards[i].(isFlipped := false, isMatched := false)];
      }
      assert forall k :: 0 <= k < |cards| ==> cards[k] == Cleared(old(cards))[k];
    }

    /** The game's set-up with the difficulty `difficulty` and the shuffle's
        draws `picks`: the deck is created, shuffled, reset and shown in
        preview. */
    method InitializeGame(difficulty: string, picks: seq<nat>)
      requires |picks| == TotalCards(GetBoardSize(difficulty)) && ValidPicks(picks)
      modifies this`difficulty, this`cards, this`deal, this`matchedPairs, this`attempts, this`flippedCards
      modifies this`gameStarted, this`previewMode
      ensures this.difficulty == difficulty && |cards| == TotalCards(GetBoardSize(difficulty))
      ensures cards == Shuffle(Deck(TotalCards(GetBoardSize(difficulty)) / 2), picks)
      ensures deal == old(deal) + 1
      ensures matchedPairs == 0 && attempts == 0 && flippedCards == [] && !gameStarted && previewMode
    {
      this.difficulty := difficulty;
      CreateCards();
      ShuffleCards(picks);
      ghost var shuffled := cards;
      ShuffledDeck(TotalCards(GetBoardSize(difficulty)) / 2, picks);
      ClearedIdle(shuffled);
      ResetGame();
      StartPreviewMode();
    }

    /** The preview begins; its end is the EndPreviewMode callback. */
    method StartPreviewMode()
      modifies this`previewMode
      ensures previewMode
    {
      previewMode := true;
    }

    /** The preview timeout fires: cards may be flipped from now on. */
    method EndPreviewMode()
      modifies this`previewMode
      ensures State() == AfterPreview(old(State()))
    {
      previewMode := false;
    }

    /** The clock starts at `now`. */
    method StartTimer(now: nat)
      modifies this`startTime
      ensures startTime == Some(now)
    {
      startTime := Some(now);
    }

    /** The clock stops and the game-over panel shows. */
    method EndGame()
      modifies this`gameStarted, this`gameOver
      ensures !gameStarted && gameOver
    {
      gameStarted := false;
      gameOver := true;
    }

    method HideGameOver()
      modifies this`gameOver
      ensures !gameOver
    {
      gameOver := false;
    }

    /** A click, tap or A-button press on card `index` at time `now`. The
        caller keeps the invariant: see Play.FlipKeepsInv. */
    method FlipCard(index: nat, now: nat)
      requires index < |cards| && forall k :: 0 <= k < |flippedCards| ==> flippedCards[k] < |cards|
      modifies this`cards, this`flippedCards, this`attempts, this`gameStarted, this`startTime, this`matchedPairs
      modifies this`isProcessingMatch, this`mismatchTimeout, this`gameOver
      ensures State() == AfterFlip(old(State()), index, now)
    {
      var card := cards[index];
      if previewMode || card.isFlipped || card.isMatched || isProcessingMatch {
        return;
      }
      if !gameStarted {
        StartTimer(now);
        gameStarted := true;
      }
      cards := cards[index := card.(isFlipped := true)];
      flippedCards := flippedCards + [index];
      if |flippedCards| == 2 {
        attempts := attempts + 1;
        CheckMatch();
      }
    }

    /** The match check on the two pending cards. */
    method CheckMatch()
      requires |flippedCards| == 2 && flippedCards[0] < |cards| && flippedCards[1] < |cards|
      modifies this`cards, this`flippedCards, this`matchedPairs, this`isProcessingMatch, this`mismatchTimeout
      modifies this`gameStarted, this`gameOver
      ensures State() == AfterCheck(old(State()))
    {
      var index1, index2 := flippedCards[0], flippedCards[1];
      var card1, card2 := cards[index1], cards[index2];
      isProcessingMatch := true;
      if card1.symbol == card2.symbol {
        cards := cards[index1 := card1.(isMatched := true)];
        cards := cards[index2 := card2.(isMatched := true)];
        matchedPairs := matchedPairs + 1;
        flippedCards := [];
        isProcessingMatch := false;
        if 2 * matchedPairs == |cards| {
          EndGame();
        }
      } else {
        mismatchTimeout := Some(MismatchTimeout(deal, index1, index2));
      }
    }

    /** The mismatch timeout fires: its two cards are turned face down (a
        change that shows only when they belong to the current deal),
        nothing is pending, input is accepted again. */
    method ResolveMismatch()
      requires mismatchTimeout.Some?
      requires mismatchTimeout.value.deal == deal ==>
        mismatchTimeout.value.first < |cards| && mismatchTimeout.value.second < |cards|
      modifies this`cards, this`flippedCards, this`isProcessingMatch, this`mismatchTimeout
      ensures State() == AfterResolve(old(State()))
    {
      var t := mismatchTimeout.value;
      if t.deal == deal {
        cards := cards[t.first := cards[t.first].(isFlipped := false)];
        cards := cards[t.second := cards[t.second].(isFlipped := false)];
      }
      flippedCards := [];
      isProcessingMatch := false;
      mismatchTimeout := None;
    }

    /** The clock's text at time `now`, read every second while it runs. */
    method UpdateTimer(now: nat) returns (text: string)
      requires startTime.Some? && startTime.value <= now
      ensures ParseTimer(text) == Some(Split(now - startTime.value))
    {
      text := TimerText(now - startTime.value);
    }

    /** The new-game button or a change of difficulty, with the difficulty
        then selected and the shuffle's draws. */
    method StartNewGame(difficulty: string, picks: seq<nat>)
      requires Scheduled(State())
      requires |picks| == TotalCards(GetBoardSize(difficulty)) && ValidPicks(picks)
      modifies this`gameOver, this`difficulty, this`cards, this`deal, this`matchedPairs, this`attempts
      modifies this`flippedCards, this`gameStarted, this`previewMode, this`selectedCardIndex
      ensures cards == Shuffle(Deck(TotalCards(GetBoardSize(difficulty)) / 2), picks)
      ensures State() == AfterDeal(old(State()), cards)
      ensures Valid() && this.difficulty == difficulty && selectedCardIndex == 0
    {
      ghost var before := State();
      HideGameOver();
      InitializeGame(difficulty, picks);
      selectedCardIndex := 0;
      assert State() == AfterDeal(before, cards);
      ShuffledDealKeepsInv(before, TotalCards(GetBoardSize(difficulty)) / 2, picks);
    }

    /** One poll of the gamepad at time `now`. While a mismatch is shown the
        poll is ignored entirely, including the button snapshot. Otherwise
        the cursor makes its step, a newly pressed A flips the selected card,
        and the buttons are remembered for the next poll. */
    method HandleGamepadInput(sample: Sample, now: nat)
      requires OnBoard()
      modifies this`cards, this`flippedCards, this`attempts, this`gameStarted, this`startTime, this`matchedPairs
      modifies this`isProcessingMatch, this`mismatchTimeout, this`gameOver
      modifies this`selectedCardIndex, this`lastGamepadState
      ensures OnBoard()
      ensures old(isProcessingMatch) ==>
        State() == old(State()) && selectedCardIndex == old(selectedCardIndex)
        && lastGamepadState == old(lastGamepadState)
      ensures !old(isProcessingMatch) ==>
        var size := GetBoardSize(difficulty);
        selectedCardIndex
          == NextCursor(sample, old(lastGamepadState), old(selectedCardIndex), size.rows, size.cols)
        && lastGamepadState == sample.buttons
        && State() == if NewlyPressed(sample.buttons.aButton, old(lastGamepadState).aButton)
                      then AfterFlip(old(State()), selectedCardIndex, now)
                      else old(State())
    {
      var size := GetBoardSize(difficulty);
      var rows, cols := size.rows, size.cols;
      var totalCards := rows * cols;
      if isProcessingMatch {
        return;
      }
      var b := sample.buttons;
      var newIndex := ChooseIndex(sample, lastGamepadState, selectedCardIndex, rows, cols);
      if 0 <= newIndex < totalCards && newIndex != selectedCardIndex {
        selectedCardIndex := newIndex;
      }
      if b.aButton && !lastGamepadState.aButton {
        FlipKeepsShape(State(), selectedCardIndex, now);
        FlipCard(selectedCardIndex, now);
      }
      lastGamepadState := b;
    }
  }
}
