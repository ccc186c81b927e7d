/** Scoring and suit roles of the Baodatui game
    (backend/src/model/baodatui_poker.rs). */
module BaodatuiPoker {
  import opened Base
  import opened Poker

  /** `i32`. */
  type I32 = x: int | -0x8000_0000 <= x < 0x8000_0000

  /** `score_of_numeric_number`: multiples of five score their number,
      the king (13) scores ten, everything else nothing. */
  function ScoreOfNumericNumber(num: U32): (s: U32)
    ensures s % 5 == 0 && s <= num
    ensures num % 5 == 0 ==> s == num
    ensures num % 5 != 0 ==> s == (if num == 13 then 10 else 0)
  {
    if num % 5 == 0 then num
    else if num == 13 then 10
    else 0
  }

  /** Points in one suit's numbered cards, 1 to `n`. */
  function SuitPoints(n: nat): nat
    requires n < U32_LIMIT
  {
    if n == 0 then 0 else SuitPoints(n - 1) + ScoreOfNumericNumber(n)
  }

  /** Only the 5, 10 and king score, and a suit is worth 25 points, so a
      deck's numbered cards are worth 100. */
  lemma ScoringCards(n: U32)
    requires 1 <= n <= SUIT_LENGTH
    ensures ScoreOfNumericNumber(n) > 0 <==> n in {5, 10, 13}
    ensures ScoreOfNumericNumber(n) <= 10
    ensures SuitPoints(SUIT_LENGTH) == 25
    ensures |SUITS| * SuitPoints(SUIT_LENGTH) == 100
  {
  }

  /** `num as i32` keeps values below 2^31 and wraps larger ones. */
  function AsI32(num: U32): (r: I32)
    ensures num < 0x8000_0000 ==> r == num
    ensures num >= 0x8000_0000 ==> r == num - U32_LIMIT
  {
    if num < 0x8000_0000 then num else num - U32_LIMIT
  }

  /** `raw_power_of_numeric_number`: the ace ranks above the king. */
  function RawPowerOfNumericNumber(num: U32): (p: I32)
    ensures num == 1 ==> p == 14
    ensures num != 1 ==> p == AsI32(num)
  {
    if num == 1 then 14 else AsI32(num)
  }

  /** On the card numbers, raw power is one-to-one onto 2..14 with the
      ace highest; outside them the `as i32` cast can turn it negative. */
  lemma RawPowerRanksCards(a: U32, b: U32)
    requires 1 <= a <= SUIT_LENGTH && 1 <= b <= SUIT_LENGTH
    ensures 2 <= RawPowerOfNumericNumber(a) <= 14
    ensures a != b ==> RawPowerOfNumericNumber(a) != RawPowerOfNumericNumber(b)
    ensures a != 1 ==> RawPowerOfNumericNumber(a) < RawPowerOfNumericNumber(1)
    ensures RawPowerOfNumericNumber(0x8000_0000) < 0
  {
  }

  /** `PrimeOrSub`: a prime role (with an optional prime suit) or a sub
      role with its suit. */
  datatype PrimeOrSub = PrimeOrSub(primeSuit: Option<Suit>, subSuit: Option<Suit>)

  /** `PrimeOrSub::of_prime_suit`. */
  function OfPrimeSuit(primeSuit: Option<Suit>): (r: PrimeOrSub)
    ensures r.primeSuit == primeSuit && r.subSuit.None?
  {
    PrimeOrSub(primeSuit, None)
  }

  /** `PrimeOrSub::of_sub_suit`. */
  function OfSubSuit(subSuit: Suit): (r: PrimeOrSub)
    ensures r.primeSuit.None? && r.subSuit == Some(subSuit)
  {
    PrimeOrSub(None, Some(subSuit))
  }

  /** `is_prime`: prime exactly when there is no sub suit. */
  function IsPrime(p: PrimeOrSub): (b: bool)
    ensures b <==> p.subSuit.None?
  {
    match p.subSuit
    case Some(_) => false
    case None => true
  }

  /** `is_sub`. */
  function IsSub(p: PrimeOrSub): (b: bool)
    ensures b <==> p.subSuit.Some?
  {
    !IsPrime(p)
  }

  /** Each constructor gives its role, even a prime role without a prime
      suit, and every value has exactly one role. */
  lemma RolesOfConstructors(x: Option<Suit>, s: Suit, p: PrimeOrSub)
    ensures IsPrime(OfPrimeSuit(x)) && !IsSub(OfPrimeSuit(x))
    ensures IsSub(OfSubSuit(s)) && !IsPrime(OfSubSuit(s))
    ensures IsSub(p) == !IsPrime(p)
  {
  }
}
