/** The 54-card deck (backend/src/model/poker.rs): four suits of thirteen
    numbered cards in suit order, then the black and the red joker. */
module Poker {
  import opened Base

  datatype Color = Red | Black

  /** Declaration order, which is also the order `all::<Suit>()` yields. */
  datatype Suit = Diamonds | Clubs | Hearts | Spades

  const SUITS: seq<Suit> := [Diamonds, Clubs, Hearts, Spades]

  /** Numbered cards per suit. */
  const SUIT_LENGTH: nat := 13

  /** Cards in a deck. */
  const DECK_SIZE: nat := 54

  /** `Suit::color`: diamonds and hearts are red, clubs and spades black. */
  function SuitColor(s: Suit): (c: Color)
    ensures c == Red <==> s == Diamonds || s == Hearts
  {
    match s
    case Diamonds => Red
    case Clubs => Black
    case Hearts => Red
    case Spades => Black
  }

  datatype Card = Card(intrinsicId: U32, suit: Option<Suit>, color: Color, numericCardNum: Option<U32>)

  /** `Card::of_numeric_num_and_suit`: the colour is the suit's. */
  function OfNumericNumAndSuit(suit: Suit, num: U32, id: U32): (c: Card)
    ensures c.intrinsicId == id && c.suit == Some(suit) && c.numericCardNum == Some(num)
    ensures c.color == SuitColor(suit)
  {
    Card(id, Some(suit), SuitColor(suit), Some(num))
  }

  /** `Card::of_black_joker`: id 52, no suit, no number. */
  function OfBlackJoker(): (c: Card)
    ensures c.intrinsicId == 52 && c.suit.None? && c.numericCardNum.None? && c.color == Black
  {
    Card(52, None, Black, None)
  }

  /** `Card::of_red_joker`: id 53, no suit, no number. */
  function OfRedJoker(): (c: Card)
    ensures c.intrinsicId == 53 && c.suit.None? && c.numericCardNum.None? && c.color == Red
  {
    Card(53, None, Red, None)
  }

  /** `Card::is_joker`: decided by the id alone. */
  function IsJoker(c: Card): (b: bool)
    ensures b <==> c.intrinsicId in {52, 53}
  {
    c.intrinsicId == 52 || c.intrinsicId == 53
  }

  /** The card at position `i` of the deck, by the layout. */
  function CardAt(i: nat): Card
    requires i < DECK_SIZE
  {
    if i < 52 then OfNumericNumAndSuit(SUITS[i / SUIT_LENGTH], i % SUIT_LENGTH + 1, i)
    else if i == 52 then OfBlackJoker()
    else OfRedJoker()
  }

  /** The reference layout of the deck. */
  function Deck(): (d: seq<Card>)
    ensures |d| == DECK_SIZE
    ensures forall i :: 0 <= i < DECK_SIZE ==> d[i] == CardAt(i)
  {
    seq(DECK_SIZE, i requires 0 <= i < DECK_SIZE => CardAt(i))
  }

  /** `Cards::default`: the nested loop over suits and numbers 1 to 13,
      counting ids from 0, then the two jokers; the final conversion to a
      54-element array cannot fail. */
  method DefaultCards() returns (cards: seq<Card>)
    ensures |cards| == DECK_SIZE
    ensures cards == Deck()
  {
    cards := [];
    var intrinsicId := 0;
    var s := 0;
    while s < |SUITS|
      invariant 0 <= s <= |SUITS|
      invariant intrinsicId == |cards| == SUIT_LENGTH * s
      invariant forall j :: 0 <= j < |cards| ==> cards[j] == CardAt(j)
    {
      var suit := SUITS[s];
      var num := 1;
      while num < 14
        invariant 1 <= num <= 14
        invariant intrinsicId == |cards| == SUIT_LENGTH * s + num - 1
        invariant forall j :: 0 <= j < |cards| ==> cards[j] == CardAt(j)
      {
        assert intrinsicId / SUIT_LENGTH == s && intrinsicId % SUIT_LENGTH == num - 1;
        cards := cards + [OfNumericNumAndSuit(suit, num, intrinsicId)];
        intrinsicId := intrinsicId + 1;
        num := num + 1;
      }
      s := s + 1;
    }
    cards := cards + [OfBlackJoker()];
    cards := cards + [OfRedJoker()];
  }

  /** `Cards::by_id`: any u32 picks a card, cyclically. */
  function ById(id: U32): (c: Card)
    ensures c == Deck()[id % DECK_SIZE]
    ensures c.intrinsicId == id % DECK_SIZE
  {
    Deck()[id % DECK_SIZE]
  }

  /** Every card's id is its position; position 13s + (n - 1) holds number
      n of the s-th suit, in that suit's colour. */
  lemma DeckLayout(s: nat, n: nat)
    requires s < 4 && 1 <= n <= SUIT_LENGTH
    ensures forall i :: 0 <= i < DECK_SIZE ==> Deck()[i].intrinsicId == i
    ensures var c := Deck()[SUIT_LENGTH * s + (n - 1)];
      && c.suit == Some(SUITS[s])
      && c.numericCardNum == Some(n)
      && c.color == SuitColor(SUITS[s])
      && !IsJoker(c)
  {
    var i := SUIT_LENGTH * s + (n - 1);
    assert i / SUIT_LENGTH == s && i % SUIT_LENGTH == n - 1;
  }

  /** Exactly the last two cards are jokers: 52 black, 53 red. */
  lemma JokersAreLast(i: nat)
    requires i < DECK_SIZE
    ensures IsJoker(Deck()[i]) <==> i == 52 || i == 53
    ensures IsJoker(Deck()[i]) <==> Deck()[i].suit.None?
    ensures Deck()[52] == OfBlackJoker() && Deck()[53] == OfRedJoker()
  {
  }

  /** `by_id` repeats every 54 ids and finds each card by its own id. */
  lemma ByIdCycles(id: U32)
    ensures id + DECK_SIZE < U32_LIMIT ==> ById(id + DECK_SIZE) == ById(id)
    ensures id < DECK_SIZE ==> ById(id).intrinsicId == id
  {
  }
}
