/** The flip-and-match rules of the game as a specification on values: what a
    flip, the match check and the delayed un-flip of a mismatch do to the
    game's state, the invariant they keep, and what they promise. The class
    in module Game is proved to follow these functions. */
module Play {
  import opened Options
  import opened Cards
  import opened Board
  import opened Shuffling

  /** The delayed un-flip a mismatch schedules. It holds the two cards it will
      turn back: the deal they belong to and their positions in it. */
  datatype MismatchTimeout = MismatchTimeout(deal: nat, first: nat, second: nat)

  /** The part of the game that the flip rules read and write. Every deal
      creates new card objects; `deal` numbers them, so that a callback
      holding cards of an earlier deal can be told apart. `gameStarted` is
      true exactly while the elapsed-time clock runs; `gameOver` is true
      while the game-over panel shows. */
  datatype PlayState = PlayState(
    deal: nat,
    cards: seq<Card>,
    flippedCards: seq<nat>,
    matchedPairs: nat,
    attempts: nat,
    gameStarted: bool,
    startTime: Option<nat>,
    previewMode: bool,
    isProcessingMatch: bool,
    mismatchTimeout: Option<MismatchTimeout>,
    gameOver: bool)

  // ----- counting matched cards -----

  function M(c: Card): nat { if c.isMatched then 1 else 0 }

  /** The number of matched cards. */
  function MatchedCount(s: seq<Card>): nat
  {
    if s == [] then 0 else MatchedCount(s[..|s| - 1]) + M(s[|s| - 1])
  }

  /** Replacing one card changes the count by that card's contribution only. */
  lemma {:induction false} MatchedCountUpdate(s: seq<Card>, i: nat, c: Card)
    requires i < |s|
    ensures MatchedCount(s[i := c]) == MatchedCount(s) - M(s[i]) + M(c)
    decreases |s|
  {
    var n := |s| - 1;
    if i == n {
      assert s[i := c][..n] == s[..n];
    } else {
      assert s[i := c][..n] == s[..n][i := c];
      MatchedCountUpdate(s[..n], i, c);
    }
  }

  /** At most every card is matched, and all are exactly when the count
      reaches the number of cards. */
  lemma {:induction false} MatchedCountFull(s: seq<Card>)
    ensures MatchedCount(s) <= |s|
    ensures MatchedCount(s) == |s| <==> forall i :: 0 <= i < |s| ==> s[i].isMatched
    decreases |s|
  {
    if s != [] {
      var n := |s| - 1;
      MatchedCountFull(s[..n]);
      if MatchedCount(s) == |s| {
        forall i | 0 <= i < |s| ensures s[i].isMatched {
          if i < n {
            assert s[i] == s[..n][i];
          }
        }
      }
      if forall i :: 0 <= i < |s| ==> s[i].isMatched {
        assert forall i :: 0 <= i < n ==> s[..n][i].isMatched;
      }
    }
  }

  /** A row with no matched card counts none. */
  lemma {:induction false} NoneMatched(s: seq<Card>)
    requires forall i :: 0 <= i < |s| ==> !s[i].isMatched
    ensures MatchedCount(s) == 0
    decreases |s|
  {
    if s != [] {
      NoneMatched(s[..|s| - 1]);
    }
  }

  /** Changing the flags of one card keeps the symbols of the board, and
      hence that it holds two cards per symbol. */
  lemma FlagUpdate(s: seq<Card>, i: nat, c: Card)
    requires i < |s| && c.symbol == s[i].symbol
    ensures IsPairedDeck(s[i := c]) <==> IsPairedDeck(s)
    ensures MatchedCount(s[i := c]) == MatchedCount(s) - M(s[i]) + M(c)
  {
    FlagsKeepPairs(s, s[i := c]);
    MatchedCountUpdate(s, i, c);
  }

  // ----- the invariant -----

  /** What the scheduled un-flip refers to: two cards of this deal or of an
      earlier one. In this deal they are the two pending cards, which
      differ; a callback left over from an earlier deal finds nothing
      pending in the new one. */
  ghost predicate TimeoutConsistent(p: PlayState)
    requires p.mismatchTimeout.Some?
  {
    var t := p.mismatchTimeout.value;
    t.deal <= p.deal
    && if t.deal == p.deal
       then p.flippedCards == [t.first, t.second] && t.first < |p.cards| && t.second < |p.cards|
            && p.cards[t.first].symbol != p.cards[t.second].symbol
       else p.flippedCards == []
  }

  /** Input is blocked exactly while an un-flip is scheduled, and that
      un-flip belongs to this deal or an earlier one. */
  predicate Scheduled(p: PlayState)
  {
    (p.isProcessingMatch <==> p.mismatchTimeout.Some?)
    && (p.mismatchTimeout.Some? ==> p.mismatchTimeout.value.deal <= p.deal)
  }

  /** The game's invariant between events. */
  ghost predicate Inv(p: PlayState)
  {
    0 < |p.cards| && IsPairedDeck(p.cards)
    // at most two pending cards, distinct positions on the board
    && |p.flippedCards| <= 2
    && (forall k :: 0 <= k < |p.flippedCards| ==> p.flippedCards[k] < |p.cards|)
    && (|p.flippedCards| == 2 ==> p.flippedCards[0] != p.flippedCards[1])
    // the pending cards are exactly the face-up unmatched ones
    && (forall i :: 0 <= i < |p.cards| ==> (Revealed(p.cards[i]) <==> i in p.flippedCards))
    && 2 * p.matchedPairs == MatchedCount(p.cards)
    // a mismatch is being shown exactly while its un-flip is scheduled
    && Scheduled(p)
    && (!p.isProcessingMatch ==> |p.flippedCards| <= 1)
    && (p.mismatchTimeout.Some? ==> TimeoutConsistent(p))
    && (p.gameStarted ==> p.startTime.Some?)
    // the game is over exactly when every pair is matched
    && (p.gameOver <==> 2 * p.matchedPairs == |p.cards|)
  }

  // ----- the transitions -----

  /** Whether a flip of card `index` is accepted: not during the preview, not
      on a card that is face up or matched, not while a mismatch is shown. */
  predicate Accepts(p: PlayState, index: nat)
    requires index < |p.cards|
  {
    !p.previewMode && !p.cards[index].isFlipped && !p.cards[index].isMatched && !p.isProcessingMatch
  }

  /** Stopping the clock and showing the game-over panel. */
  function AfterEndGame(p: PlayState): PlayState
  {
    p.(gameStarted := false, gameOver := true)
  }

  /** The match check on the two pending cards: equal symbols are matched at
      once; unequal ones stay face up and an un-flip is scheduled. */
  function AfterCheck(p: PlayState): PlayState
    requires |p.flippedCards| == 2 && p.flippedCards[0] < |p.cards| && p.flippedCards[1] < |p.cards|
  {
    var i, j := p.flippedCards[0], p.flippedCards[1];
    if p.cards[i].symbol == p.cards[j].symbol then
      var q := p.(cards := p.cards[i := p.cards[i].(isMatched := true)][j := p.cards[j].(isMatched := true)],
                  matchedPairs := p.matchedPairs + 1,
                  flippedCards := [],
                  isProcessingMatch := false);
      if 2 * q.matchedPairs == |q.cards| then AfterEndGame(q) else q
    else
      p.(isProcessingMatch := true, mismatchTimeout := Some(MismatchTimeout(p.deal, i, j)))
  }

  /** The clock started at `now` unless it already runs. */
  function StartClock(p: PlayState, now: nat): PlayState
  {
    if p.gameStarted then p else p.(startTime := Some(now), gameStarted := true)
  }

  /** Card `index` turned face up and added to the pending cards. */
  function Reveal(p: PlayState, index: nat): PlayState
    requires index < |p.cards|
  {
    p.(cards := p.cards[index := p.cards[index].(isFlipped := true)], flippedCards := p.flippedCards + [index])
  }

  /** With two cards pending, one more attempt and the match check. */
  function Settle(p: PlayState): PlayState
    requires forall k :: 0 <= k < |p.flippedCards| ==> p.flippedCards[k] < |p.cards|
  {
    if |p.flippedCards| == 2 then AfterCheck(p.(attempts := p.attempts + 1)) else p
  }

  /** A flip request for card `index` at time `now` (milliseconds). */
  function AfterFlip(p: PlayState, index: nat, now: nat): PlayState
    requires index < |p.cards|
    requires forall k :: 0 <= k < |p.flippedCards| ==> p.flippedCards[k] < |p.cards|
  {
    if !Accepts(p, index) then p else Settle(Reveal(StartClock(p, now), index))
  }

  /** A flip keeps the number of cards and the pending cards on the board. */
  lemma FlipKeepsShape(p: PlayState, index: nat, now: nat)
    requires index < |p.cards| && (forall k :: 0 <= k < |p.flippedCards| ==> p.flippedCards[k] < |p.cards|)
    ensures var q := AfterFlip(p, index, now);
      |q.cards| == |p.cards| && forall k :: 0 <= k < |q.flippedCards| ==> q.flippedCards[k] < |q.cards|
  {
  }

  /** The delayed un-flip after a mismatch: the two cards it holds are turned
      face down (which shows only when they belong to the current deal),
      nothing is pending any more, and input is accepted again. */
  function AfterResolve(p: PlayState): PlayState
    requires p.mismatchTimeout.Some?
    requires p.mismatchTimeout.value.deal == p.deal ==>
      p.mismatchTimeout.value.first < |p.cards| && p.mismatchTimeout.value.second < |p.cards|
  {
    var t := p.mismatchTimeout.value;
    var cards := if t.deal == p.deal
      then p.cards[t.first := p.cards[t.first].(isFlipped := false)][t.second := p.cards[t.second].(isFlipped := false)]
      else p.cards;
    p.(cards := cards, flippedCards := [], isProcessingMatch := false, mismatchTimeout := None)
  }

  /** A new deal: new card objects replace the board, counts and pending
      cards are cleared, the clock is stopped, the panel hidden and the preview
      begins. A mismatch un-flip still scheduled from before, the flag that
      blocks input while it is pending, and the start time of the previous
      clock are left as they are. */
  function AfterDeal(p: PlayState, cards: seq<Card>): PlayState
  {
    p.(deal := p.deal + 1, cards := cards, flippedCards := [], matchedPairs := 0, attempts := 0,
       gameStarted := false, previewMode := true, gameOver := false)
  }

  /** The end of the preview. */
  function AfterPreview(p: PlayState): PlayState
  {
    p.(previewMode := false)
  }

  // ----- what the transitions promise -----

  /** A first accepted flip keeps the invariant. */
  lemma FirstFlipKeepsInv(p: PlayState, index: nat, now: nat)
    requires Inv(p) && index < |p.cards| && Accepts(p, index) && p.flippedCards == []
    ensures Inv(AfterFlip(p, index, now))
  {
    var c := p.cards[index].(isFlipped := true);
    FlagUpdate(p.cards, index, c);
    var q := AfterFlip(p, index, now);
    assert q.cards == p.cards[index := c] && q.flippedCards == [index];
    forall i | 0 <= i < |q.cards| ensures Revealed(q.cards[i]) <==> i in q.flippedCards {
      if i != index {
        assert q.cards[i] == p.cards[i];
      }
    }
  }

  /** The state a matching second flip leads to, spelled out. */
  lemma MatchStep(p: PlayState, index: nat, now: nat)
    requires Inv(p) && index < |p.cards| && Accepts(p, index) && |p.flippedCards| == 1
    requires p.cards[p.flippedCards[0]].symbol == p.cards[index].symbol
    ensures var j := p.flippedCards[0];
      var cards := p.cards[index := p.cards[index].(isFlipped := true, isMatched := true)]
                          [j := p.cards[j].(isMatched := true)];
      var q := p.(cards := cards, flippedCards := [], matchedPairs := p.matchedPairs + 1,
                  attempts := p.attempts + 1, isProcessingMatch := false,
                  startTime := if p.gameStarted then p.startTime else Some(now), gameStarted := true);
      j != index && AfterFlip(p, index, now) == if 2 * q.matchedPairs == |cards| then AfterEndGame(q) else q
  {
    var j := p.flippedCards[0];
    assert Revealed(p.cards[j]);
    var s1 := p.cards[index := p.cards[index].(isFlipped := true)];
    var s3 := p.cards[index := p.cards[index].(isFlipped := true, isMatched := true)]
                     [j := p.cards[j].(isMatched := true)];
    assert s1[j := s1[j].(isMatched := true)][index := s1[index].(isMatched := true)] == s3;
  }

  /** The board after a matching second flip: still two cards per symbol,
      two more matched cards, and no card face up and unmatched. */
  lemma MatchedBoard(s: seq<Card>, index: nat, j: nat)
    requires index < |s| && j < |s| && index != j
    requires !s[index].isMatched && Revealed(s[j]) && s[index].symbol == s[j].symbol
    requires forall i :: 0 <= i < |s| && i != j ==> !Revealed(s[i])
    ensures var t := s[index := s[index].(isFlipped := true, isMatched := true)][j := s[j].(isMatched := true)];
      |t| == |s| && (IsPairedDeck(t) <==> IsPairedDeck(s)) && MatchedCount(t) == MatchedCount(s) + 2
      && forall i :: 0 <= i < |t| ==> !Revealed(t[i])
  {
    var s1 := s[index := s[index].(isFlipped := true, isMatched := true)];
    FlagUpdate(s, index, s1[index]);
    var s2 := s1[j := s1[j].(isMatched := true)];
    FlagUpdate(s1, j, s2[j]);
    forall i | 0 <= i < |s2| ensures !Revealed(s2[i]) {
      if i != index && i != j {
        assert s2[i] == s[i];
      }
    }
  }

  /** A second accepted flip whose symbol equals the first's keeps the
      invariant. */
  lemma MatchKeepsInv(p: PlayState, index: nat, now: nat)
    requires Inv(p) && index < |p.cards| && Accepts(p, index) && |p.flippedCards| == 1
    requires p.cards[p.flippedCards[0]].symbol == p.cards[index].symbol
    ensures Inv(AfterFlip(p, index, now))
  {
    MatchStep(p, index, now);
    var j := p.flippedCards[0];
    assert Revealed(p.cards[j]);
    MatchedBoard(p.cards, index, j);
    var s := p.cards[index := p.cards[index].(isFlipped := true, isMatched := true)]
                    [j := p.cards[j].(isMatched := true)];
    var q := p.(cards := s, flippedCards := [], matchedPairs := p.matchedPairs + 1,
                attempts := p.attempts + 1, isProcessingMatch := false,
                startTime := if p.gameStarted then p.startTime else Some(now), gameStarted := true);
    MatchedCountFull(p.cards);
    assert !p.cards[index].isMatched;
    assert 2 * q.matchedPairs == MatchedCount(s);
    if 2 * q.matchedPairs == |s| {
      assert AfterFlip(p, index, now) == AfterEndGame(q);
    } else {
      assert AfterFlip(p, index, now) == q;
    }
  }

  /** A second accepted flip whose symbol differs from the first's keeps the
      invariant. */
  lemma MismatchKeepsInv(p: PlayState, index: nat, now: nat)
    requires Inv(p) && index < |p.cards| && Accepts(p, index) && |p.flippedCards| == 1
    requires p.cards[p.flippedCards[0]].symbol != p.cards[index].symbol
    ensures Inv(AfterFlip(p, index, now))
  {
    var j := p.flippedCards[0];
    var c := p.cards[index].(isFlipped := true);
    FlagUpdate(p.cards, index, c);
    var q := AfterFlip(p, index, now);
    assert q.cards == p.cards[index := c] && q.flippedCards == [j, index];
    forall i | 0 <= i < |q.cards| ensures Revealed(q.cards[i]) <==> i in q.flippedCards {
      if i != index {
        assert q.cards[i] == p.cards[i];
      }
    }
  }

  /** Every flip request keeps the invariant; in particular no more than two
      cards are ever pending. */
  lemma FlipKeepsInv(p: PlayState, index: nat, now: nat)
    requires Inv(p) && index < |p.cards|
    ensures Inv(AfterFlip(p, index, now))
    ensures |AfterFlip(p, index, now).flippedCards| <= 2
  {
    if Accepts(p, index) {
      if p.flippedCards == [] {
        FirstFlipKeepsInv(p, index, now);
      } else if p.cards[p.flippedCards[0]].symbol == p.cards[index].symbol {
        MatchKeepsInv(p, index, now);
      } else {
        MismatchKeepsInv(p, index, now);
      }
    }
  }

  /** The scheduled un-flip keeps the invariant. */
  lemma ResolveKeepsInv(p: PlayState)
    requires Inv(p) && p.mismatchTimeout.Some?
    ensures Inv(AfterResolve(p))
  {
    var t := p.mismatchTimeout.value;
    var q := AfterResolve(p);
    if t.deal == p.deal {
      var s1 := p.cards[t.first := p.cards[t.first].(isFlipped := false)];
      FlagUpdate(p.cards, t.first, s1[t.first]);
      var s2 := s1[t.second := s1[t.second].(isFlipped := false)];
      FlagUpdate(s1, t.second, s2[t.second]);
      assert q.cards == s2;
      forall i | 0 <= i < |q.cards| ensures !Revealed(q.cards[i]) {
        if i != t.first && i != t.second {
          assert q.cards[i] == p.cards[i];
        }
      }
    }
  }

  /** Ending the preview keeps the invariant. */
  lemma PreviewEndKeepsInv(p: PlayState)
    requires Inv(p)
    ensures Inv(AfterPreview(p))
    ensures AfterPreview(p).cards == p.cards && !AfterPreview(p).previewMode
  {
  }

  /** A deal of face-down unmatched cards with two per symbol establishes the
      invariant, whether or not an un-flip from an earlier deal is still
      scheduled; so does the game's first deal, where nothing is. */
  lemma DealKeepsInv(p: PlayState, cards: seq<Card>)
    requires 0 < |cards| && IsPairedDeck(cards)
    requires forall i :: 0 <= i < |cards| ==> !cards[i].isFlipped && !cards[i].isMatched
    requires Scheduled(p)
    ensures Inv(AfterDeal(p, cards))
  {
    NoneMatched(cards);
  }

  /** The same for the game's own deal: the deck of `pairs` pool symbols,
      shuffled with any valid draws. */
  lemma ShuffledDealKeepsInv(p: PlayState, pairs: nat, picks: seq<nat>)
    requires 0 < pairs <= |Pool| && |picks| == 2 * pairs && ValidPicks(picks)
    requires Scheduled(p)
    ensures Inv(AfterDeal(p, Shuffle(Deck(pairs), picks)))
  {
    ShuffledDeck(pairs, picks);
    DealKeepsInv(p, Shuffle(Deck(pairs), picks));
  }

  /** A new game dealt while a mismatch is shown does not cancel its un-flip:
      until that runs every flip on the new board is ignored, and when it
      runs it leaves the new board's cards as they are and lets input in
      again. */
  lemma DealDuringMismatch(p: PlayState, cards: seq<Card>, index: nat, now: nat)
    requires Inv(p) && p.mismatchTimeout.Some? && index < |cards|
    ensures var d := AfterDeal(p, cards);
      AfterFlip(d, index, now) == d
      && AfterResolve(d).cards == cards && AfterResolve(d).flippedCards == []
      && !AfterResolve(d).isProcessingMatch && AfterResolve(d).mismatchTimeout == None
  {
  }

  /** A rejected flip changes nothing: during the preview, on a card that is
      face up or matched, and whenever a mismatch is being shown. The last
      case is what keeps a third card from being revealed. */
  lemma FlipRejected(p: PlayState, index: nat, now: nat)
    requires index < |p.cards| && (forall k :: 0 <= k < |p.flippedCards| ==> p.flippedCards[k] < |p.cards|)
    requires p.previewMode || p.cards[index].isFlipped || p.cards[index].isMatched || p.isProcessingMatch
    ensures AfterFlip(p, index, now) == p
  {
  }

  /** An accepted flip turns the card face up and adds it to the pending
      cards, or (when it is the second) settles the pair; the number of
      attempts rises by one exactly when it is the second card. The clock is
      started by the flip that finds it stopped, and only then. */
  lemma FlipAccepted(p: PlayState, index: nat, now: nat)
    requires Inv(p) && index < |p.cards| && Accepts(p, index)
    ensures var q := AfterFlip(p, index, now);
      q.deal == p.deal
      && q.attempts == p.attempts + |p.flippedCards|
      && q.startTime == (if p.gameStarted then p.startTime else Some(now))
      && (q.gameStarted || q.gameOver)
      && (p.flippedCards == [] ==>
            q.flippedCards == [index] && q.cards == p.cards[index := p.cards[index].(isFlipped := true)]
            && q.matchedPairs == p.matchedPairs && !q.isProcessingMatch && q.gameStarted)
  {
  }

  /** The second card of a pair with the same symbol: both cards become
      matched in the same step, one more pair is counted, nothing is pending
      and input is accepted at once. The game is over exactly when this was
      the last pair. */
  lemma MatchOutcome(p: PlayState, index: nat, now: nat)
    requires Inv(p) && index < |p.cards| && Accepts(p, index) && |p.flippedCards| == 1
    requires p.cards[p.flippedCards[0]].symbol == p.cards[index].symbol
    ensures var q, j := AfterFlip(p, index, now), p.flippedCards[0];
      q.cards[index].isMatched && q.cards[j].isMatched
      && q.cards[index].symbol == p.cards[index].symbol && q.cards[j].symbol == p.cards[j].symbol
      && q.matchedPairs == p.matchedPairs + 1 && q.attempts == p.attempts + 1
      && q.flippedCards == [] && !q.isProcessingMatch && q.mismatchTimeout == None
      && (q.gameOver <==> forall i :: 0 <= i < |q.cards| ==> q.cards[i].isMatched)
      && (q.gameOver ==> !q.gameStarted)
  {
    MatchKeepsInv(p, index, now);
    MatchedCountFull(AfterFlip(p, index, now).cards);
  }

  /** The second card of a pair with different symbols: both cards stay face
      up, input is blocked and the un-flip of exactly these two cards is
      scheduled. When it runs, both are face down again, nothing is pending,
      input is accepted, and the counts are as they were after the flip. */
  lemma MismatchOutcome(p: PlayState, index: nat, now: nat)
    requires Inv(p) && index < |p.cards| && Accepts(p, index) && |p.flippedCards| == 1
    requires p.cards[p.flippedCards[0]].symbol != p.cards[index].symbol
    ensures var q, j := AfterFlip(p, index, now), p.flippedCards[0];
      q.isProcessingMatch && q.flippedCards == [j, index]
      && Revealed(q.cards[j]) && Revealed(q.cards[index])
      && q.mismatchTimeout == Some(MismatchTimeout(p.deal, j, index))
      && q.attempts == p.attempts + 1 && q.matchedPairs == p.matchedPairs
      && var r := AfterResolve(q);
         !r.cards[j].isFlipped && !r.cards[index].isFlipped
         && (forall i :: 0 <= i < |r.cards| && i != j && i != index ==> r.cards[i] == p.cards[i])
         && r.flippedCards == [] && !r.isProcessingMatch
         && r.attempts == p.attempts + 1 && r.matchedPairs == p.matchedPairs
  {
    MismatchKeepsInv(p, index, now);
  }

  /** With the invariant, the game is over exactly when every card is
      matched, and then nothing is pending. */
  lemma GameOverWhenAllMatched(p: PlayState)
    requires Inv(p)
    ensures p.gameOver <==> forall i :: 0 <= i < |p.cards| ==> p.cards[i].isMatched
    ensures p.gameOver ==> p.flippedCards == []
  {
    MatchedCountFull(p.cards);
    if p.flippedCards != [] {
      assert Revealed(p.cards[p.flippedCards[0]]);
    }
  }
}
