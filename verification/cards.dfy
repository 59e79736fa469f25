/** A card of the memory game and the symbols a row of cards shows. */
module Cards {

  /** A card face. Every symbol of the pool is a single Unicode code point. */
  type Symbol = char

  /** One card. The random `id` the game also attaches to a card is never
      read by the game logic and is not modelled. */
  datatype Card = Card(symbol: Symbol, isFlipped: bool, isMatched: bool)

  /** A card that is face up and not yet part of a matched pair. */
  predicate Revealed(c: Card) { c.isFlipped && !c.isMatched }

  function FaceDown(x: Symbol): Card { Card(x, false, false) }

  /** The symbols of a row of cards, position by position. */
  function Symbols(s: seq<Card>): (r: seq<Symbol>)
    ensures |r| == |s| && forall i :: 0 <= i < |s| ==> r[i] == s[i].symbol
  {
    seq(|s|, i requires 0 <= i < |s| => s[i].symbol)
  }

  /** Every card of a row turned face down and unmatched, each keeping its
      symbol. */
  function Cleared(s: seq<Card>): (r: seq<Card>)
    ensures |r| == |s| && Symbols(r) == Symbols(s)
    ensures forall i :: 0 <= i < |r| ==> !r[i].isFlipped && !r[i].isMatched
  {
    seq(|s|, i requires 0 <= i < |s| => FaceDown(s[i].symbol))
  }

  /** Clearing a row whose cards are all face down and unmatched changes
      nothing, and clearing twice is clearing once. */
  lemma ClearedIdle(s: seq<Card>)
    ensures (forall i :: 0 <= i < |s| ==> !s[i].isFlipped && !s[i].isMatched) ==> Cleared(s) == s
    ensures Cleared(Cleared(s)) == Cleared(s)
  {
  }

  /** Changing only the flags of cards keeps every symbol in its place. */
  lemma SymbolsKept(s: seq<Card>, t: seq<Card>)
    requires |s| == |t| && forall i :: 0 <= i < |s| ==> s[i].symbol == t[i].symbol
    ensures Symbols(s) == Symbols(t)
  {
  }
}
