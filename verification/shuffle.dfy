/** The Fisher–Yates sweep that shuffles the deck, with the random draws
    given as a parameter. */
module Shuffling {
  import opened Cards

  /** The swap the shuffle makes at one step. */
  function Swap<T>(s: seq<T>, i: nat, j: nat): (r: seq<T>)
    requires i < |s| && j < |s|
    ensures |r| == |s| && r[i] == s[j] && r[j] == s[i]
  {
    s[i := s[j]][j := s[i]]
  }

  /** A swap rearranges the row and changes no other position. */
  lemma SwapPermutes<T>(s: seq<T>, i: nat, j: nat)
    requires i < |s| && j < |s|
    ensures multiset(Swap(s, i, j)) == multiset(s)
    ensures forall k :: 0 <= k < |s| && k != i && k != j ==> Swap(s, i, j)[k] == s[k]
  {
  }

  /** The indices drawn by the shuffle: at step `i` (from the last index down
      to 1) it swaps position `i` with position `picks[i]`, some index in
      [0, i]. `picks[0]` is never used. */
  predicate ValidPicks(picks: seq<nat>)
  {
    forall i :: 0 < i < |picks| ==> picks[i] <= i
  }

  /** The shuffle's loop from index `i` down to 1. */
  function Sweep<T>(s: seq<T>, picks: seq<nat>, i: nat): seq<T>
    requires i < |s| && |picks| == |s| && ValidPicks(picks)
    decreases i
  {
    if i == 0 then s else Sweep(Swap(s, i, picks[i]), picks, i - 1)
  }

  /** The whole shuffle of a row of cards with the given draws. */
  function Shuffle<T>(s: seq<T>, picks: seq<nat>): seq<T>
    requires |picks| == |s| && ValidPicks(picks)
  {
    if |s| == 0 then s else Sweep(s, picks, |s| - 1)
  }

  /** Whatever indices are drawn, the sweep only rearranges the cards. */
  lemma {:induction false} SweepPermutes<T>(s: seq<T>, picks: seq<nat>, i: nat)
    requires i < |s| && |picks| == |s| && ValidPicks(picks)
    ensures |Sweep(s, picks, i)| == |s|
    ensures multiset(Sweep(s, picks, i)) == multiset(s)
    decreases i
  {
    if i > 0 {
      var t := Swap(s, i, picks[i]);
      SwapPermutes(s, i, picks[i]);
      SweepPermutes(t, picks, i - 1);
      assert Sweep(s, picks, i) == Sweep(t, picks, i - 1);
    }
  }

  /** The shuffle is a permutation of its input, for every choice of draws. */
  lemma ShufflePermutes<T>(s: seq<T>, picks: seq<nat>)
    requires |picks| == |s| && ValidPicks(picks)
    ensures |Shuffle(s, picks)| == |s|
    ensures multiset(Shuffle(s, picks)) == multiset(s)
  {
    if |s| > 0 {
      SweepPermutes(s, picks, |s| - 1);
    }
  }

  /** Drawing `i` itself at every step leaves the order unchanged. */
  lemma {:induction false} SweepIdentity<T>(s: seq<T>, picks: seq<nat>, i: nat)
    requires i < |s| && |picks| == |s| && ValidPicks(picks)
    requires forall k :: 0 < k <= i ==> picks[k] == k
    ensures Sweep(s, picks, i) == s
    decreases i
  {
    if i > 0 {
      assert Swap(s, i, picks[i]) == s;
      SweepIdentity(s, picks, i - 1);
      assert Sweep(s, picks, i) == Sweep(s, picks, i - 1);
    }
  }

  /** Shuffling moves symbols together with their cards. */
  lemma {:induction false} SweepSymbols(s: seq<Card>, picks: seq<nat>, i: nat)
    requires i < |s| && |picks| == |s| && ValidPicks(picks)
    ensures Symbols(Sweep(s, picks, i)) == Sweep(Symbols(s), picks, i)
    decreases i
  {
    if i > 0 {
      var t := Swap(s, i, picks[i]);
      SwapPermutes(s, i, picks[i]);
      assert Symbols(t) == Swap(Symbols(s), i, picks[i]);
      SweepSymbols(t, picks, i - 1);
      assert Sweep(s, picks, i) == Sweep(t, picks, i - 1);
    }
  }

  /** Shuffling keeps the multiset of symbols. */
  lemma ShuffleSymbols(s: seq<Card>, picks: seq<nat>)
    requires |picks| == |s| && ValidPicks(picks)
    ensures |Shuffle(s, picks)| == |s|
    ensures multiset(Symbols(Shuffle(s, picks))) == multiset(Symbols(s))
  {
    ShufflePermutes(s, picks);
    if |s| > 0 {
      var n := |s| - 1;
      assert Shuffle(s, picks) == Sweep(s, picks, n);
      SweepSymbols(s, picks, n);
      assert Symbols(Shuffle(s, picks)) == Sweep(Symbols(s), picks, n);
      SweepPermutes(Symbols(s), picks, n);
    }
  }
}
