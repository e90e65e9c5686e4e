/** One round as the program runs it, with the player's reply given as a
    parameter instead of read from the console. */
module Game {
  import opened SeqFacts
  import opened Cards
  import opened Draw
  import opened Selection

  /** Builds and shuffles a deck, deals a hand of `HandSize`, parses the
      reply and, if it names any slot, replaces those slots. `dealt` is the
      hand as first shown. The deck cannot run out: at most five slots are
      replaced from the 47 cards left. */
  method PlayRound(reply: string) returns (deck: Deck, dealt: seq<Card>, hand: array<Card>,
                                          replaced: seq<int>, outcome: Outcome)
    ensures fresh(deck) && fresh(hand)
    ensures |dealt| == hand.Length == HandSize
    ensures forall i :: i in replaced <==> Selected(reply, i)
    ensures StrictlyAscending(replaced)
    ensures outcome == AllReplaced
    ensures |deck.cards| == 47 - |replaced|
    ensures forall p :: 0 <= p < HandSize && p !in replaced ==> hand[p] == dealt[p]
    ensures forall c :: c in hand[..] ==> IsStandard(c)
    ensures NoDuplicates(deck.cards + hand[..])
  {
    deck := MakeDeck();
    ghost var full := deck.cards;
    FullDeckFacts(full);
    hand := DealHand(deck, HandSize);
    dealt := hand[..];
    DealKeepsNoDuplicates(full, HandSize);
    replaced := ParseSelection(reply);
    outcome := AllReplaced;
    if replaced != [] {
      ghost var before := deck.cards;
      assert InRange(replaced, hand.Length) by {
        forall k | 0 <= k < |replaced| ensures 0 <= replaced[k] < hand.Length {
          assert replaced[k] in replaced;
        }
      }
      assert NoDuplicates(replaced);
      outcome := DrawReplace(deck, hand, replaced);
      assert replaced[..|replaced|] == replaced;
      ReplacedNoDuplicates(before, dealt, replaced);
      forall p | 0 <= p < HandSize && p !in replaced ensures hand[p] == dealt[p] {
        ReplacedOutside(dealt, replaced, before[..|replaced|], p);
      }
      forall c | c in hand[..] ensures IsStandard(c) {
        var p :| 0 <= p < hand.Length && hand[p] == c;
        if p in replaced {
          var k :| 0 <= k < |replaced| && replaced[k] == p;
          ReplacedAt(dealt, replaced, before[..|replaced|], k);
          assert c == before[k] && before[k] in full;
        } else {
          ReplacedOutside(dealt, replaced, before[..|replaced|], p);
          assert c == dealt[p] && dealt[p] in full;
        }
      }
    }
  }
}
