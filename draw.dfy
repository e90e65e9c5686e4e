/** Dealing a hand off the front of the deck, and replacing chosen hand
    slots with cards drawn from the front of the deck. */
module Draw {
  import opened SeqFacts
  import opened Cards

  /** The number of cards dealt to the player. */
  const HandSize := 5

  /** Where a list slice `[:n]` stops on a list of length `len`: a negative
      `n` counts from the end, and the result is clipped to 0..len. */
  function SliceStop(n: int, len: nat): (k: nat)
    ensures k <= len
  {
    if n >= 0 then (if n <= len then n else len)
    else if len + n >= 0 then len + n else 0
  }

  /** Takes the first `n` cards of the deck as the hand and deletes them from
      the deck. */
  method DealHand(deck: Deck, n: int) returns (hand: array<Card>)
    modifies deck
    ensures fresh(hand)
    ensures hand[..] == old(deck.cards)[..SliceStop(n, |old(deck.cards)|)]
    ensures deck.cards == old(deck.cards)[SliceStop(n, |old(deck.cards)|)..]
    ensures hand[..] + deck.cards == old(deck.cards)
  {
    var k := SliceStop(n, |deck.cards|);
    var dealt := deck.cards[..k];
    hand := new Card[k](i requires 0 <= i < k => dealt[i]);
    deck.cards := deck.cards[k..];
    assert hand[..] == dealt;
  }

  /** Dealing moves cards from the deck into the hand and creates none, so a
      deck without duplicates leaves deck and hand together without
      duplicates. */
  lemma DealKeepsNoDuplicates(cards: seq<Card>, k: nat)
    requires k <= |cards|
    requires NoDuplicates(cards)
    ensures NoDuplicates(cards[k..] + cards[..k])
  {
  }

  /** Dealing five from a freshly built, shuffled deck gives five distinct
      standard cards and leaves 47 in the deck, none also in the hand. */
  lemma DealFromFullDeck(cards: seq<Card>)
    requires IsFullDeck(cards)
    ensures SliceStop(HandSize, |cards|) == 5
    ensures |cards[5..]| == 47
    ensures forall c :: c in cards[..5] ==> IsStandard(c)
    ensures NoDuplicates(cards[5..] + cards[..5])
  {
    FullDeckFacts(cards);
    DealKeepsNoDuplicates(cards, 5);
  }

  /** Every index addresses a slot of a hand holding `size` cards. */
  predicate InRange(indices: seq<int>, size: nat)
  {
    forall k :: 0 <= k < |indices| ==> 0 <= indices[k] < size
  }

  /** The hand after writing `drawn[k]` into slot `indices[k]` for each k in
      turn. */
  function Replaced(hand: seq<Card>, indices: seq<int>, drawn: seq<Card>): (r: seq<Card>)
    requires |indices| == |drawn|
    requires InRange(indices, |hand|)
    ensures |r| == |hand|
  {
    if indices == [] then hand
    else
      var n := |indices| - 1;
      Replaced(hand, indices[..n], drawn[..n])[indices[n] := drawn[n]]
  }

  /** A slot that no index names keeps its card. */
  lemma {:induction false} ReplacedOutside(hand: seq<Card>, indices: seq<int>, drawn: seq<Card>, p: int)
    requires |indices| == |drawn|
    requires InRange(indices, |hand|)
    requires 0 <= p < |hand|
    requires p !in indices
    ensures Replaced(hand, indices, drawn)[p] == hand[p]
  {
    if indices != [] {
      var n := |indices| - 1;
      assert indices[n] != p;
      assert p !in indices[..n];
      ReplacedOutside(hand, indices[..n], drawn[..n], p);
    }
  }

  /** With distinct indices, slot `indices[k]` ends up holding `drawn[k]`. */
  lemma {:induction false} ReplacedAt(hand: seq<Card>, indices: seq<int>, drawn: seq<Card>, k: int)
    requires |indices| == |drawn|
    requires InRange(indices, |hand|)
    requires NoDuplicates(indices)
    requires 0 <= k < |indices|
    ensures Replaced(hand, indices, drawn)[indices[k]] == drawn[k]
  {
    var n := |indices| - 1;
    if k < n {
      assert NoDuplicates(indices[..n]);
      ReplacedAt(hand, indices[..n], drawn[..n], k);
    }
  }

  /** Drawing the first |indices| cards of the deck into the hand moves cards
      and creates none: if deck and hand together had no duplicate, the
      shorter deck and the new hand together have none either. The indices
      need not be distinct: a card overwritten twice is simply gone. */
  lemma {:induction false} ReplacedNoDuplicates(deck: seq<Card>, hand: seq<Card>, indices: seq<int>)
    requires |indices| <= |deck|
    requires InRange(indices, |hand|)
    requires NoDuplicates(deck + hand)
    ensures NoDuplicates(deck[|indices|..] + Replaced(hand, indices, deck[..|indices|]))
  {
    if indices != [] {
      var n := |indices| - 1;
      assert deck[..|indices|][..n] == deck[..n];
      ReplacedNoDuplicates(deck, hand, indices[..n]);
      var h := Replaced(hand, indices[..n], deck[..n]);
      var rest := deck[n + 1..];
      var i := indices[n];
      // before the step: deck[n..] + h, that is [deck[n]] + rest + h
      var before := deck[n..] + h;
      var after := rest + h[i := deck[n]];
      assert before[0] == deck[n];
      forall p, q | 0 <= p < q < |after| ensures after[p] != after[q] {
        var fp := if p < |rest| then p + 1 else if p - |rest| == i then 0 else p + 1;
        var fq := if q < |rest| then q + 1 else if q - |rest| == i then 0 else q + 1;
        assert after[p] == before[fp];
        assert after[q] == before[fq];
      }
      assert after == deck[|indices|..] + Replaced(hand, indices, deck[..|indices|]);
    }
  }

  /** What `DrawReplace` reports: every index was served, or the deck ran
      out first. */
  datatype Outcome = AllReplaced | OutOfCards

  /** For each index in turn, fails with `OutOfCards` if the deck is empty,
      and otherwise overwrites that hand slot with the card popped from the
      front of the deck. Replacements made before a failure stay made. */
  method DrawReplace(deck: Deck, hand: array<Card>, indices: seq<int>) returns (outcome: Outcome)
    requires InRange(indices, hand.Length)
    modifies deck, hand
    ensures outcome == (if |indices| <= |old(deck.cards)| then AllReplaced else OutOfCards)
    ensures var served := if |indices| <= |old(deck.cards)| then |indices| else |old(deck.cards)|;
      && deck.cards == old(deck.cards)[served..]
      && hand[..] == Replaced(old(hand[..]), indices[..served], old(deck.cards)[..served])
  {
    var i := 0;
    while i < |indices|
      invariant 0 <= i <= |indices| && i <= |old(deck.cards)|
      invariant deck.cards == old(deck.cards)[i..]
      invariant hand[..] == Replaced(old(hand[..]), indices[..i], old(deck.cards)[..i])
    {
      if deck.cards == [] {
        return OutOfCards;
      }
      assert indices[..i + 1][..i] == indices[..i];
      assert old(deck.cards)[..i + 1][..i] == old(deck.cards)[..i];
      hand[indices[i]] := deck.cards[0];
      deck.cards := deck.cards[1..];
      i := i + 1;
    }
    assert indices[..i] == indices;
    return AllReplaced;
  }
}
