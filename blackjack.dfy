/**
 * Blackjack hand scoring: face cards count 10, number cards their face
 * value, aces 11; while the hand busts, aces are demoted to 1 one at a time.
 */
module Blackjack {
  /** The face values of the number ranks "2" to "10". */
  type PipValue = n: int | 2 <= n <= 10 witness 2

  /** A card rank; `Pip(n)` stands for the number rank with face value n. */
  datatype Rank = Pip(n: PipValue) | Jack | Queen | King | Ace

  datatype Card = Card(rank: Rank, suit: char)

  /** Points of a rank before any ace is demoted. */
  function Points(r: Rank): int
  {
    match r
    case Jack | Queen | King => 10
    case Ace => 11
    case Pip(n) => n
  }

  /** Sum of the points of a hand, every ace counted as 11. */
  function Total(hand: seq<Card>): int
  {
    if hand == [] then 0 else Total(hand[..|hand| - 1]) + Points(hand[|hand| - 1].rank)
  }

  function Aces(hand: seq<Card>): nat
  {
    if hand == [] then 0 else Aces(hand[..|hand| - 1]) + (if hand[|hand| - 1].rank == Ace then 1 else 0)
  }

  /**
   * How many of `aces` aces must be demoted (each by 10 points) so that
   * `total` no longer exceeds 21: the fewest that suffice, or all of them
   * when none suffice.
   */
  function Demotions(total: int, aces: nat): (k: nat)
    ensures k <= aces
    ensures total - 10 * k <= 21 || k == aces
    ensures k > 0 ==> total - 10 * (k - 1) > 21
  {
    if total <= 21 then 0
    else if (total - 12) / 10 < aces then (total - 12) / 10
    else aces
  }

  /**
   * The value of a hand: of all the ways to count each ace as 1 or 11, the
   * largest total that does not exceed 21, or the smallest total when every
   * way exceeds 21.
   */
  function Score(hand: seq<Card>): (v: int)
    ensures forall j :: 0 <= j <= Aces(hand) && Total(hand) - 10 * j <= 21 ==> Total(hand) - 10 * j <= v <= 21
    ensures v > 21 ==> v == Total(hand) - 10 * Aces(hand)
    ensures exists j :: 0 <= j <= Aces(hand) && v == Total(hand) - 10 * j
  {
    Total(hand) - 10 * Demotions(Total(hand), Aces(hand))
  }

  /** The score computed as the game computes it: one pass to sum, one loop to demote aces. */
  method HandValue(hand: seq<Card>) returns (value: int)
    ensures value == Score(hand)
  {
    value := 0;
    var aces := 0;
    for i := 0 to |hand|
      invariant value == Total(hand[..i]) && aces == Aces(hand[..i])
    {
      assert hand[..i + 1][..i] == hand[..i];
      var rank := hand[i].rank;
      if rank == Jack || rank == Queen || rank == King {
        value := value + 10;
      } else if rank == Ace {
        value := value + 11;
        aces := aces + 1;
      } else {
        value := value + rank.n;
      }
    }
    assert hand[..|hand|] == hand;
    ghost var demoted := 0;
    while value > 21 && aces > 0
      invariant value == Total(hand) - 10 * demoted && aces == Aces(hand) - demoted
      invariant demoted <= Demotions(Total(hand), Aces(hand))
    {
      value := value - 10;
      aces := aces - 1;
      demoted := demoted + 1;
    }
  }
}
