/** The one-line rendering of a hand: entries "position:rank suit" for the
    1-based positions, joined with " | ". */
module Display {
  import opened SeqFacts
  import opened Cards
  import opened Selection

  function DigitChar(d: nat): char
    requires d < 10
  {
    ('0' as int + d) as char
  }

  /** The decimal form of `n`, without leading zeros. */
  function DecimalString(n: nat): string
  {
    if n < 10 then [DigitChar(n)] else DecimalString(n / 10) + [DigitChar(n % 10)]
  }

  /** Reading back the decimal form of `n` gives `n`. */
  lemma {:induction false} DecimalStringRoundTrip(n: nat)
    ensures IsDigits(DecimalString(n))
    ensures DecimalValue(DecimalString(n)) == n
  {
    var s := DecimalString(n);
    if n >= 10 {
      DecimalStringRoundTrip(n / 10);
      assert s[..|s| - 1] == DecimalString(n / 10);
    } else {
      assert s[..0] == [];
    }
  }

  /** One card as shown at 1-based position `pos`. */
  function Entry(pos: nat, c: Card): string
  {
    DecimalString(pos) + ":" + c.rank + c.suit
  }

  /** The entries of the hand, in hand order. */
  function Entries(hand: seq<Card>): seq<string>
  {
    seq(|hand|, i requires 0 <= i < |hand| => Entry(i + 1, hand[i]))
  }

  /** The hand as one line. Only the empty hand shows as the empty string. */
  function ShowHand(hand: seq<Card>): (r: string)
    ensures r == [] <==> hand == []
    ensures hand != [] ==> Entry(1, hand[0]) <= r
  {
    var parts := Entries(hand);
    assert hand != [] ==> parts[0] == Entry(1, hand[0]) && |parts[0]| > 0;
    Join(" | ", parts)
  }

  /** Typing the position shown in front of a card (1..MaxPosition) selects
      exactly that card's slot, pos - 1. */
  lemma PositionLabelSelects(pos: nat)
    requires 1 <= pos <= MaxPosition
    ensures forall j :: Selected(DecimalString(pos), j) <==> j == pos - 1
  {
    var shown := DecimalString(pos);
    DecimalStringRoundTrip(pos);
    assert |shown| == 1 && '0' <= shown[0] <= '9';
    assert CommasToSpaces(shown) == shown;
    assert IsWord(shown);
    SplitJoinSpaced([shown]);
    assert Tokens(shown) == [shown];
    assert Picks(shown, pos - 1);
  }
}
