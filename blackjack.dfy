/**
 * A hand of cards and its score (challenge 6 of src/main.rs).
 *
 * `Hand::value` first adds up every card that is not an ace (King, Queen and
 * Jack are worth 10, One to Nine their face value) while counting the aces;
 * then each ace adds 11 if the running total is at most 10, and 1 otherwise.
 * The card set is the source's: it has `One` and no `Ten`.
 */
module Blackjack {

  datatype Card = Ace | One | Two | Three | Four | Five | Six | Seven | Eight | Nine | Jack | Queen | King

  /** What a card adds in the first pass of the scoring: an ace adds nothing
      there, it is only counted. */
  function Points(c: Card): nat
  {
    match c
    case King | Queen | Jack => 10
    case Ace => 0
    case One => 1
    case Two => 2
    case Three => 3
    case Four => 4
    case Five => 5
    case Six => 6
    case Seven => 7
    case Eight => 8
    case Nine => 9
  }

  /** Sum of the points of the cards that are not aces. */
  function NonAceTotal(cards: seq<Card>): nat
  {
    if cards == [] then 0 else NonAceTotal(cards[..|cards| - 1]) + Points(cards[|cards| - 1])
  }

  function AceCount(cards: seq<Card>): nat
  {
    if cards == [] then 0 else AceCount(cards[..|cards| - 1]) + if cards[|cards| - 1] == Ace then 1 else 0
  }

  /** The value of a hand: every ace counts 1, except that one ace counts 11
      when the other cards total at most 10. */
  function HandValue(cards: seq<Card>): nat
  {
    var base := NonAceTotal(cards);
    var aces := AceCount(cards);
    base + aces + if aces > 0 && base <= 10 then 10 else 0
  }

  class Hand {
    var cards: seq<Card>

    /** `Hand::new`: an empty hand. */
    constructor ()
      ensures cards == []
    {
      cards := [];
    }

    /** `Hand::add`: the card goes to the end of the hand. */
    method Add(card: Card)
      modifies this
      ensures cards == old(cards) + [card]
    {
      cards := cards + [card];
    }

    /** `Hand::value`, with its two passes. */
    method Value() returns (result: nat)
      ensures result == HandValue(cards)
    {
      result := 0;
      var acesSeen := 0;
      for i := 0 to |cards|
        invariant result == NonAceTotal(cards[..i])
        invariant acesSeen == AceCount(cards[..i])
      {
        assert cards[..i + 1][..i] == cards[..i];
        var c := cards[i];
        if c == Ace {
          acesSeen := acesSeen + 1;
        }
        result := result + Points(c);
      }
      assert cards[..|cards|] == cards;
      ghost var base := result;
      for k := 0 to acesSeen
        invariant result == base + k + if k > 0 && base <= 10 then 10 else 0
      {
        var aceValue := if result <= 10 then 11 else 1;
        result := result + aceValue;
      }
    }
  }

  lemma {:induction false} CardsCounted(cards: seq<Card>)
    ensures NonAceTotal(cards) + AceCount(cards) >= |cards|
  {
    if cards != [] {
      CardsCounted(cards[..|cards| - 1]);
    }
  }

  /** Every card is worth at least 1, so a hand is worth at least as much as
      it has cards. */
  lemma HandValueAtLeastCardCount(cards: seq<Card>)
    ensures HandValue(cards) >= |cards|
  {
    CardsCounted(cards);
  }

  /** At most one ace counts 11: the value exceeds the count of points with
      every ace taken as 1 by either 0 or 10, and by 10 only when the hand
      has an ace and its other cards total at most 10. This reads the
      closed form `HandValue`; that the second loop of `Hand.Value` really
      adds 11 for at most the first ace is its loop invariant, which relates
      the running total to `HandValue`. */
  lemma AtMostOneAceCountsEleven(cards: seq<Card>)
    ensures var hard := NonAceTotal(cards) + AceCount(cards);
            HandValue(cards) == hard || HandValue(cards) == hard + 10
    ensures HandValue(cards) > NonAceTotal(cards) + AceCount(cards)
        <==> AceCount(cards) > 0 && NonAceTotal(cards) <= 10
  {
  }

  lemma {:induction false} CountsConcat(a: seq<Card>, b: seq<Card>)
    ensures NonAceTotal(a + b) == NonAceTotal(a) + NonAceTotal(b)
    ensures AceCount(a + b) == AceCount(a) + AceCount(b)
  {
    if b == [] {
      assert a + b == a;
    } else {
      assert (a + b)[..|a + b| - 1] == a + b[..|b| - 1];
      CountsConcat(a, b[..|b| - 1]);
    }
  }

  /** Taking the card at position `j` out of a hand takes away its points
      and its ace count. */
  lemma CountsRemove(b: seq<Card>, j: nat)
    requires j < |b|
    ensures NonAceTotal(b) == NonAceTotal(b[..j] + b[j + 1..]) + Points(b[j])
    ensures AceCount(b) == AceCount(b[..j] + b[j + 1..]) + if b[j] == Ace then 1 else 0
  {
    var x := b[j];
    assert b == b[..j] + [x] + b[j + 1..];
    CountsConcat(b[..j], [x]);
    CountsConcat(b[..j] + [x], b[j + 1..]);
    CountsConcat(b[..j], b[j + 1..]);
    assert [x][..0] == [];
  }

  /** Taking the same card out of two hands holding the same cards leaves
      two hands holding the same cards. */
  lemma MultisetRemove(a: seq<Card>, b: seq<Card>, j: nat)
    requires multiset(a) == multiset(b)
    requires |a| > 0 && j < |b| && b[j] == a[|a| - 1]
    ensures multiset(a[..|a| - 1]) == multiset(b[..j] + b[j + 1..])
  {
    var x := b[j];
    assert a == a[..|a| - 1] + [x];
    assert b == b[..j] + [x] + b[j + 1..];
    assert multiset(b) == multiset(b[..j]) + multiset{x} + multiset(b[j + 1..]);
    assert multiset(a) == multiset(a[..|a| - 1]) + multiset{x};
    var others := b[..j] + b[j + 1..];
    assert multiset(others) == multiset(b[..j]) + multiset(b[j + 1..]);
    forall c ensures multiset(others)[c] == multiset(a[..|a| - 1])[c] {
      assert multiset(b)[c] == multiset(a)[c];
    }
  }

  /** Hands holding the same cards, in any order, have the same non-ace
      total and the same number of aces. The proof takes the last card of
      `a` out of `b`, wherever it sits there. */
  lemma {:induction false} CountsPermutation(a: seq<Card>, b: seq<Card>)
    requires multiset(a) == multiset(b)
    ensures NonAceTotal(a) == NonAceTotal(b)
    ensures AceCount(a) == AceCount(b)
    decreases |a|
  {
    if |a| == 0 {
      assert |b| == |multiset(b)| == 0;
    } else {
      var x := a[|a| - 1];
      assert x in multiset(b);
      assert x in b;
      var j :| 0 <= j < |b| && b[j] == x;
      MultisetRemove(a, b, j);
      CountsPermutation(a[..|a| - 1], b[..j] + b[j + 1..]);
      CountsRemove(b, j);
      CountsRemove(a, |a| - 1);
      assert a[..|a| - 1] + a[|a|..] == a[..|a| - 1];
    }
  }

  /** The order in which cards were added does not change the value: any
      two hands holding the same cards are worth the same. */
  lemma HandValueIgnoresOrder(a: seq<Card>, b: seq<Card>)
    requires multiset(a) == multiset(b)
    ensures HandValue(a) == HandValue(b)
  {
    CountsPermutation(a, b);
  }

  /** The hand built in the demonstration: a King and an Ace make 21. */
  method KingAndAce() returns (value: nat)
    ensures value == 21
  {
    var hand := new Hand();
    hand.Add(King);
    hand.Add(Ace);
    assert hand.cards == [King, Ace];
    assert NonAceTotal([King, Ace]) == 10 by {
      assert [King, Ace][..1] == [King];
    }
    assert AceCount([King, Ace]) == 1 by {
      assert [King, Ace][..1] == [King];
    }
    value := hand.Value();
  }
}
