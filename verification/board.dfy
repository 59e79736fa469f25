/** The deck of the memory game: difficulty levels and board geometry, the
    fixed symbol pool, the deck dealt in pool order, and what a shuffled
    deck looks like. */
module Board {

  import opened Cards
  import opened Shuffling

  datatype BoardSize = BoardSize(rows: nat, cols: nat)

  function TotalCards(size: BoardSize): nat { size.rows * size.cols }

  /** The 32 animal emoji, in the order the game lists them. */
  const Pool: seq<Symbol> :=
    "\U{1F436}\U{1F431}\U{1F42D}\U{1F439}\U{1F430}\U{1F98A}\U{1F43B}\U{1F43C}"
    + "\U{1F428}\U{1F42F}\U{1F981}\U{1F42E}\U{1F437}\U{1F438}\U{1F435}\U{1F414}"
    + "\U{1F427}\U{1F426}\U{1F424}\U{1F986}\U{1F985}\U{1F989}\U{1F987}\U{1F43A}"
    + "\U{1F417}\U{1F434}\U{1F984}\U{1F41D}\U{1F41B}\U{1F98B}\U{1F40C}\U{1F41E}"

  /** No symbol occurs twice in the pool, so a deck drawn from it has exactly
      two cards per symbol. */
  lemma PoolDistinct()
    ensures |Pool| == 32
    ensures forall i, j :: 0 <= i < j < |Pool| ==> Pool[i] != Pool[j]
  {
  }

  /** The grid for a difficulty: "easy" 4×4, "medium" 6×6, "hard" 8×8, and
      4×4 for any other value. Every grid has an even number of cells and
      needs no more pairs than the pool holds. */
  function GetBoardSize(difficulty: string): (size: BoardSize)
    ensures size.rows == size.cols
    ensures size.rows == 6 <==> difficulty == "medium"
    ensures size.rows == 8 <==> difficulty == "hard"
    ensures size.rows == 4 <==> difficulty != "medium" && difficulty != "hard"
    ensures TotalCards(size) % 2 == 0 && 16 <= TotalCards(size) <= 2 * |Pool|
  {
    match difficulty
    case "easy" => BoardSize(4, 4)
    case "medium" => BoardSize(6, 6)
    case "hard" => BoardSize(8, 8)
    case _ => BoardSize(4, 4)
  }

  /** The deck before shuffling: for each of the first `pairs` pool symbols,
      in pool order, two face-down unmatched cards. */
  function Deck(pairs: nat): (d: seq<Card>)
    requires pairs <= |Pool|
    ensures |d| == 2 * pairs
  {
    if pairs == 0 then [] else Deck(pairs - 1) + [FaceDown(Pool[pairs - 1]), FaceDown(Pool[pairs - 1])]
  }

  /** Card `i` of the deck is the face-down card of pool symbol `i / 2`. */
  lemma {:induction false} DeckShape(pairs: nat)
    requires pairs <= |Pool|
    ensures |Deck(pairs)| == 2 * pairs
    ensures forall i :: 0 <= i < 2 * pairs ==> Deck(pairs)[i] == FaceDown(Pool[i / 2])
  {
    if pairs > 0 {
      DeckShape(pairs - 1);
      var n := 2 * (pairs - 1);
      forall i | 0 <= i < 2 * pairs ensures Deck(pairs)[i] == FaceDown(Pool[i / 2]) {
        if i < n {
          assert Deck(pairs)[i] == Deck(pairs - 1)[i];
        } else {
          assert i / 2 == pairs - 1;
        }
      }
    }
  }

  /** The first `pairs` pool symbols, as a set. */
  lemma PoolPrefixStep(pairs: nat, x: Symbol)
    requires 0 < pairs <= |Pool|
    ensures x in Pool[..pairs] <==> x in Pool[..pairs - 1] || x == Pool[pairs - 1]
    ensures x == Pool[pairs - 1] ==> x !in Pool[..pairs - 1]
  {
    assert Pool[..pairs] == Pool[..pairs - 1] + [Pool[pairs - 1]];
    PoolDistinct();
  }

  /** Symbol `x` lies on two cards of the deck if it is one of the first
      `pairs` pool symbols, and on none otherwise. */
  lemma {:induction false} DeckCount(pairs: nat, x: Symbol)
    requires pairs <= |Pool|
    ensures multiset(Symbols(Deck(pairs)))[x] == if x in Pool[..pairs] then 2 else 0
  {
    if pairs > 0 {
      DeckCount(pairs - 1, x);
      var p := Pool[pairs - 1];
      var a := Symbols(Deck(pairs - 1));
      assert Symbols(Deck(pairs)) == a + [p, p];
      assert multiset(a + [p, p]) == multiset(a) + multiset{p, p};
      PoolPrefixStep(pairs, x);
    }
  }

  /** Each of the first `pairs` pool symbols lies on exactly two cards of the
      deck, and no other symbol lies on any. */
  lemma DeckPairs(pairs: nat)
    requires pairs <= |Pool|
    ensures forall x :: multiset(Symbols(Deck(pairs)))[x] == if x in Pool[..pairs] then 2 else 0
  {
    forall x ensures multiset(Symbols(Deck(pairs)))[x] == if x in Pool[..pairs] then 2 else 0 {
      DeckCount(pairs, x);
    }
  }

  /** A row of cards that holds, in some order, the symbols of the deck of
      half its length: two cards for each of the first |s|/2 pool symbols. */
  ghost predicate IsPairedDeck(s: seq<Card>)
  {
    |s| % 2 == 0 && |s| / 2 <= |Pool| && multiset(Symbols(s)) == multiset(Symbols(Deck(|s| / 2)))
  }

  /** In a paired deck every symbol of the first |s|/2 pool symbols lies on
      exactly two cards and no other symbol occurs. */
  lemma PairedDeckCounts(s: seq<Card>, x: Symbol)
    requires IsPairedDeck(s)
    ensures multiset(Symbols(s))[x] == if x in Pool[..|s| / 2] then 2 else 0
  {
    DeckPairs(|s| / 2);
  }

  /** Changing only the flags of cards keeps every symbol in its place, and
      hence that a row holds two cards per symbol. */
  lemma FlagsKeepPairs(s: seq<Card>, t: seq<Card>)
    requires |s| == |t| && forall i :: 0 <= i < |s| ==> s[i].symbol == t[i].symbol
    ensures IsPairedDeck(s) <==> IsPairedDeck(t)
  {
    SymbolsKept(s, t);
  }

  /** A shuffled deck is a paired deck, and every card of it is face down
      and unmatched. */
  lemma ShuffledDeck(pairs: nat, picks: seq<nat>)
    requires pairs <= |Pool| && |picks| == 2 * pairs && ValidPicks(picks)
    ensures |Shuffle(Deck(pairs), picks)| == 2 * pairs
    ensures IsPairedDeck(Shuffle(Deck(pairs), picks))
    ensures forall i :: 0 <= i < 2 * pairs ==> !Shuffle(Deck(pairs), picks)[i].isFlipped && !Shuffle(Deck(pairs), picks)[i].isMatched
  {
    DeckShape(pairs);
    var d := Deck(pairs);
    ShufflePermutes(d, picks);
    ShuffleSymbols(d, picks);
    var s := Shuffle(d, picks);
    assert |s| / 2 == pairs;
    forall i | 0 <= i < |s| ensures !s[i].isFlipped && !s[i].isMatched {
      assert s[i] in multiset(s);
      assert s[i] in multiset(d);
      var k :| 0 <= k < |d| && d[k] == s[i];
    }
  }
}
