# Five-card draw, single draw phase — a Dafny model

The program plays one round of five-card draw. It builds a 52-card deck and
shuffles it. It deals a five-card hand off the front of the deck and reads
which positions the player wants to replace. It then overwrites those hand
slots with cards popped from the front of the deck.

This project models that logic and proves properties of it:

- `SeqFacts` (`seqfacts.dfy`): shared sequence facts.
  - "no duplicates", stated on positions and on multisets;
  - `Join`, putting a separator between the parts of a sequence.
- `Cards` (`cards.dfy`): cards and the deck.
  - `Card` is an immutable (rank, suit) pair; `RANKS` and `SUITS` hold the thirteen ranks and four suit symbols.
  - `FreshDeck` is the suit-by-rank product before shuffling.
  - the deck is a `Deck` object. Its field `cards` is the list the program shortens in place.
  - `Deck.Shuffle` is the in-place Fisher–Yates loop of the shuffle. The random choice in it is a nondeterministic choice `j :| 0 <= j <= i`.
  - `MakeDeck` builds the product and shuffles it.
- `Draw` (`draw.dfy`): dealing and replacing.
  - `DealHand` slices the first `n` cards off the deck, with the language's slice clipping, negative `n` included. The hand is a fresh `array<Card>`.
  - `DrawReplace` loops over the chosen indices. It overwrites `hand[idx]` with the card popped from the front of the deck. When the deck is empty it stops with `OutOfCards`.
  - `Replaced` is the specification of the final hand.
- `Selection` (`selection.dfy`): parsing the player's reply.
  - commas become spaces;
  - the text is split on whitespace;
  - tokens made only of decimal digits with a value in 1..5 name slot value − 1;
  - the distinct slots are sorted.
  - `ParseSelection` is the loop with its membership-checked append, followed by the sort. It is proved against the set characterisation `Selected`.
- `Display` (`display.dfy`): `ShowHand`, the `"1:<rank><suit> | 2:…"` line, and the decimal labels it prints.
- `Game` (`game.dfy`): `PlayRound`, one round as `main` runs it: build, deal five, parse the reply, replace.

What the code decides for dealing:

- `deal_hand` does not check `len(deck) >= n`: a short deck gives a short hand, so `DealHand` has no such precondition.
- `HandSize` is `deal_hand`'s default `n = 5`, the count `main` passes.

## Model

| member | source | states |
|---|---|---|
| `Cards.FreshDeckOrder` | Chris_McCathern_Programming_Exercise_11.py:17 | the unshuffled deck has 52 cards, and card 13·s + r is rank r of suit s (suits outer, ranks inner) |
| `Cards.FreshDeckMembers` | Chris_McCathern_Programming_Exercise_11.py:7-17 | a card is in the unshuffled deck iff its rank is in RANKS and its suit in SUITS |
| `Cards.FreshDeckNoDuplicates` | Chris_McCathern_Programming_Exercise_11.py:17 | no card occurs twice in the unshuffled deck |
| `Cards.FullDeckFacts` | Chris_McCathern_Programming_Exercise_11.py:17-18 | any rearrangement of the unshuffled deck has 52 cards, holds exactly the standard cards, and has no duplicates |
| `Cards.Deck.Shuffle` | Chris_McCathern_Programming_Exercise_11.py:18 | the in-place shuffle keeps the length and the multiset of cards, for every choice of swap partners |
| `Cards.MakeDeck` | Chris_McCathern_Programming_Exercise_11.py:15-19 | the returned deck is a fresh object whose cards are a permutation of the suit-by-rank product |
| `Draw.SliceStop` | Chris_McCathern_Programming_Exercise_11.py:25-26 | the stop of the slice `deck[:n]` lies in 0..len(deck); the body is the clipping rule: a negative n counts from the end, and the result is clipped to 0..len |
| `Draw.DealHand` | Chris_McCathern_Programming_Exercise_11.py:23-27 | the hand is the first n cards (slice-clipped), the deck keeps the rest, and hand + new deck == old deck |
| `Draw.DealKeepsNoDuplicates` | Chris_McCathern_Programming_Exercise_11.py:25-26 | dealing from a deck without duplicates leaves deck + hand without duplicates |
| `Draw.DealFromFullDeck` | Chris_McCathern_Programming_Exercise_11.py:23-27 | dealing 5 from a shuffled full deck gives 5 standard cards and leaves 47, with no card twice in deck + hand |
| `Draw.Replaced` | Chris_McCathern_Programming_Exercise_11.py:55 | writing drawn cards into hand slots never changes the hand's length |
| `Draw.ReplacedOutside` | Chris_McCathern_Programming_Exercise_11.py:52-55 | a slot no index names keeps its card |
| `Draw.ReplacedAt` | Chris_McCathern_Programming_Exercise_11.py:52-55 | with distinct indices, slot indices[k] ends up holding the k-th drawn card |
| `Draw.ReplacedNoDuplicates` | Chris_McCathern_Programming_Exercise_11.py:52-55 | if deck + hand had no duplicate, the shortened deck + the new hand has none either, distinct indices or not |
| `Draw.DrawReplace` | Chris_McCathern_Programming_Exercise_11.py:50-55 | the outcome is OutOfCards exactly when there are more indices than cards; the first min(|indices|, |deck|) indices are served from the deck's front; those cards leave the deck; the hand equals `Replaced` of the served prefix |
| `Selection.SplitWords` | Chris_McCathern_Programming_Exercise_11.py:39 | every token produced by whitespace splitting is non-empty and contains no whitespace |
| `Selection.SplitJoinSpaced` | Chris_McCathern_Programming_Exercise_11.py:39 | splitting words joined by single spaces gives the words back |
| `Selection.SplitBlank` | Chris_McCathern_Programming_Exercise_11.py:39 | whitespace-only text has no tokens |
| `Selection.Insert` | Chris_McCathern_Programming_Exercise_11.py:48 | inserting into an ascending list keeps it ascending and adds exactly that element |
| `Selection.Sort` | Chris_McCathern_Programming_Exercise_11.py:48 | the sorted list is ascending and a permutation of its input |
| `Selection.SortDistinct` | Chris_McCathern_Programming_Exercise_11.py:46-48 | sorting a duplicate-free list gives a strictly ascending list with the same members |
| `Selection.StrictlyAscendingUnique` | Chris_McCathern_Programming_Exercise_11.py:46-48 | a strictly ascending list is determined by its members, so the parse result is unique |
| `Selection.StrictlyAscendingBounded` | Chris_McCathern_Programming_Exercise_11.py:44-48 | a strictly ascending list of values in lo..hi−1 has at most hi − lo elements |
| `Selection.ParseSelection` | Chris_McCathern_Programming_Exercise_11.py:33-48 | i is in the result iff some comma-to-space, whitespace-split token is all digits with value i + 1 in 1..5; every index is in 0..4; the result is strictly ascending and has at most 5 elements |
| `Selection.ExampleCommaList` | Chris_McCathern_Programming_Exercise_11.py:35-48 | "1, 3,5" can only parse to [0, 2, 4] |
| `Selection.ExampleMixedTokens` | Chris_McCathern_Programming_Exercise_11.py:39-48 | "0,6,abc,3" can only parse to [2] |
| `Selection.ExampleRepeated` | Chris_McCathern_Programming_Exercise_11.py:39-48 | "3,3,1" can only parse to [0, 2] |
| `Selection.BlankSelectsNothing` | Chris_McCathern_Programming_Exercise_11.py:39-48 | text made only of whitespace and commas parses to [] |
| `Display.DecimalStringRoundTrip` | Chris_McCathern_Programming_Exercise_11.py:31 | the printed decimal form of a position is all digits and reads back as that position |
| `Display.ShowHand` | Chris_McCathern_Programming_Exercise_11.py:29-31 | only the empty hand renders as the empty string, and a non-empty hand's line starts with the entry "1:<rank><suit>" of its first card |
| `Display.PositionLabelSelects` | Chris_McCathern_Programming_Exercise_11.py:31-45 | typing the position label shown for a card (1..5) selects exactly that card's slot |
| `Game.PlayRound` | Chris_McCathern_Programming_Exercise_11.py:63-75 | for any reply, a round never runs out of cards; the replaced slots are exactly the selected ones, strictly ascending; slots not chosen keep the dealt card; the hand holds only standard cards; the deck keeps 47 − (number replaced) cards; no card is in both deck and hand or twice in either |

## Left out

- `main` (lines 59-82): its console output is left out. `Game.PlayRound` models its steps, with the line the player types as a parameter. The `strip()` of that line is not modelled, because whitespace splitting already ignores leading and trailing whitespace.
- The distribution of the shuffle is left out. `Deck.Shuffle` keeps the loop of the library shuffle, but the random index is a nondeterministic choice. Only "the result is a permutation" is proved.
- Digits are ASCII `'0'..'9'` only. The language's `isdigit` also accepts the other Unicode decimal digits, such as U+FF13 or U+0663, and `int` converts them, so a token "３" selects slot 2 in the program but nothing in the model. Characters such as "²" pass `isdigit` but make `int` raise ValueError; the model has no such character.
- Selection.ParseSelection: it does not model the ValueError that `int` raises on an all-digit token longer than the interpreter's digit limit for string conversion (4300 digits by default since Python 3.11). The model reads such a token by its value like any other token; the program ends with the error.
- Whitespace is the fixed ASCII set: space, tab, line feed, vertical tab, form feed, carriage return and the characters 0x1C-0x1F. The language's `split()` also splits on Unicode whitespace such as U+00A0.
- Draw.DrawReplace: it requires every index to be in 0..len(hand)-1. The code would also accept negative indices; out-of-range indices raise IndexError there.
- Aliasing between deck and hand is not modelled. The deck is a `Deck` object and the hand an array, so one list cannot be passed as both.
- Display.ShowHand: its contract states only emptiness and the first entry. The full format is its definition.
- The message text of the exhaustion error is not modelled. `OutOfCards` stands for the raised error.
