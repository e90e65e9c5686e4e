/** Cards and the deck: the 13 ranks and 4 suits, the unshuffled
    suit-by-rank product, the in-place shuffle, and `MakeDeck`. */
module Cards {
  import opened SeqFacts

  /** An immutable (rank, suit) pair; two cards are equal iff both match. */
  datatype Card = Card(rank: string, suit: string)

  /** Spades, hearts, diamonds, clubs. */
  const SUITS: seq<string> := ["\U{2660}", "\U{2665}", "\U{2666}", "\U{2663}"]
  const RANKS: seq<string> := ["2", "3", "4", "5", "6", "7", "8", "9", "10", "J", "Q", "K", "A"]

  /** A card whose rank and suit both come from the fixed lists. */
  predicate IsStandard(c: Card)
  {
    c.rank in RANKS && c.suit in SUITS
  }

  /** The unshuffled deck, suit in the outer position: the thirteen ranks of
      the first suit, then those of the second suit, and so on. */
  function FreshDeck(): seq<Card>
  {
    seq(|SUITS| * |RANKS|, k requires 0 <= k < |SUITS| * |RANKS| =>
      Card(RANKS[k % |RANKS|], SUITS[k / |RANKS|]))
  }

  /** The unshuffled deck has 52 cards, and card 13 * s + r is rank r of
      suit s. */
  lemma FreshDeckOrder()
    ensures |FreshDeck()| == 52
    ensures forall s, r :: 0 <= s < 4 && 0 <= r < 13 ==>
      FreshDeck()[13 * s + r] == Card(RANKS[r], SUITS[s])
  {
    forall s, r | 0 <= s < 4 && 0 <= r < 13
      ensures FreshDeck()[13 * s + r] == Card(RANKS[r], SUITS[s])
    {
      assert (13 * s + r) % 13 == r && (13 * s + r) / 13 == s;
    }
  }

  /** Every standard card, and nothing else, is in the unshuffled deck. */
  lemma FreshDeckMembers(c: Card)
    ensures c in FreshDeck() <==> IsStandard(c)
  {
    FreshDeckOrder();
    if IsStandard(c) {
      var s :| 0 <= s < 4 && SUITS[s] == c.suit;
      var r :| 0 <= r < 13 && RANKS[r] == c.rank;
      assert FreshDeck()[13 * s + r] == c;
    }
  }

  /** No card occurs twice in the unshuffled deck. */
  lemma FreshDeckNoDuplicates()
    ensures NoDuplicates(FreshDeck())
  {
    assert NoDuplicates(RANKS) && NoDuplicates(SUITS);
    forall i, j | 0 <= i < j < |FreshDeck()| ensures FreshDeck()[i] != FreshDeck()[j] {
      assert i % 13 != j % 13 || i / 13 != j / 13;
    }
  }

  /** A rearrangement of the unshuffled deck. */
  predicate IsFullDeck(cards: seq<Card>)
  {
    multiset(cards) == multiset(FreshDeck())
  }

  /** Any rearrangement of the unshuffled deck, in particular a shuffled
      deck, still has 52 cards, each standard card once. */
  lemma FullDeckFacts(cards: seq<Card>)
    requires IsFullDeck(cards)
    ensures |cards| == 52
    ensures forall c :: c in cards <==> IsStandard(c)
    ensures NoDuplicates(cards)
  {
    FreshDeckOrder();
    assert |cards| == |multiset(cards)|;
    forall c ensures c in cards <==> IsStandard(c) {
      assert c in cards <==> c in multiset(cards);
      assert c in FreshDeck() <==> c in multiset(FreshDeck());
      FreshDeckMembers(c);
    }
    FreshDeckNoDuplicates();
    PermutationKeepsNoDuplicates(FreshDeck(), cards);
  }

  /** The deck is a list the program changes in place: shuffled, dealt
      from and drawn from at the front. */
  class Deck {
    var cards: seq<Card>

    constructor (cards: seq<Card>)
      ensures this.cards == cards
    {
      this.cards := cards;
    }

    /** The in-place shuffle: for i from the last position down to 1, swap
        position i with a position j in 0..i. The random choice of j is a
        nondeterministic choice here. */
    method Shuffle()
      modifies this
      ensures |cards| == |old(cards)|
      ensures multiset(cards) == multiset(old(cards))
    {
      var i := |cards|;
      while i > 1
        invariant 0 <= i <= |cards| == |old(cards)|
        invariant multiset(cards) == multiset(old(cards))
      {
        i := i - 1;
        var j :| 0 <= j <= i;
        cards := cards[i := cards[j]][j := cards[i]];
      }
    }
  }

  /** Builds the suit-by-rank product and shuffles it. */
  method MakeDeck() returns (deck: Deck)
    ensures fresh(deck)
    ensures IsFullDeck(deck.cards)
  {
    deck := new Deck(FreshDeck());
    deck.Shuffle();
  }
}
