/** The deck: all 52 `[suit, value]` pairs, shuffled once, dealt as a prefix. */
module Decks {
  import opened Cards

  const DeckCapacity := 52

  /** The deck before shuffling: suits in order, and within a suit the values in order. */
  function Universe(): (u: seq<Card>)
    ensures |u| == DeckCapacity
    ensures forall k :: 0 <= k < DeckCapacity ==> u[k] == Card(k / NumValues, k % NumValues)
  {
    seq(DeckCapacity, k requires 0 <= k < DeckCapacity => Card(k / NumValues, k % NumValues))
  }

  /** The unshuffled deck holds every valid card exactly once, and nothing else. */
  lemma UniverseComplete()
    ensures Distinct(Universe())
    ensures forall c :: c in Universe() <==> ValidCard(c)
  {
    var u := Universe();
    forall i, j | 0 <= i < j < |u| ensures u[i] != u[j] {
      assert i == NumValues * (i / NumValues) + i % NumValues;
      assert j == NumValues * (j / NumValues) + j % NumValues;
    }
    forall c | ValidCard(c) ensures c in u {
      var k := c.suit * NumValues + c.value;
      assert k / NumValues == c.suit && k % NumValues == c.value;
      assert u[k] == c;
    }
  }

  /** Any rearrangement of the unshuffled deck, which is what a shuffle produces. */
  ghost predicate IsShuffledDeck(s: seq<Card>) {
    multiset(s) == multiset(Universe())
  }

  /** A shuffled deck has 52 pairwise distinct cards covering every suit and value. */
  lemma ShuffledDeckComplete(s: seq<Card>)
    requires IsShuffledDeck(s)
    ensures |s| == DeckCapacity && Distinct(s)
    ensures forall c :: c in s <==> ValidCard(c)
  {
    UniverseComplete();
    assert |s| == |multiset(s)| == |multiset(Universe())| == DeckCapacity;
    MultisetKeepsDistinct(s, Universe());
    forall c ensures c in s <==> ValidCard(c) {
      assert c in s <==> c in multiset(s);
      assert c in Universe() <==> c in multiset(Universe());
    }
  }

  /** The random numbers Python's `random.shuffle` draws for a 52-element list:
      the k-th draw picks a position in 0..51-k to swap with position 51-k. */
  predicate ShuffleDraws(draws: seq<int>) {
    |draws| == DeckCapacity - 1 &&
    forall k :: 0 <= k < |draws| ==> 0 <= draws[k] <= DeckCapacity - 1 - k
  }

  class Deck {
    var deck: seq<Card>

    /** Builds the 52 pairs suit by suit, then shuffles them in place (Fisher-Yates,
        from the last position down to position 1), the random draws being given. */
    constructor (draws: seq<int>)
      requires ShuffleDraws(draws)
      ensures IsShuffledDeck(deck)
    {
      var cards := [];
      for suit := 0 to NumSuits
        invariant cards == Universe()[..suit * NumValues]
      {
        for value := 0 to NumValues
          invariant cards == Universe()[..suit * NumValues + value]
        {
          assert Universe()[suit * NumValues + value] == Card(suit, value);
          cards := cards + [Card(suit, value)];
        }
      }
      assert cards == Universe();
      var i := |cards| - 1;
      while i > 0
        invariant 0 <= i < |cards| == DeckCapacity
        invariant multiset(cards) == multiset(Universe())
      {
        var j := draws[DeckCapacity - 1 - i];
        cards := cards[i := cards[j]][j := cards[i]];
        i := i - 1;
      }
      deck := cards;
    }

    /** The first `numCards` cards, with the clamping of a Python slice `deck[0:numCards]`. */
    function DrawCards(numCards: int): (hand: seq<Card>)
      reads this
      ensures hand <= deck
      ensures 0 <= numCards <= |deck| ==> |hand| == numCards
      ensures numCards >= |deck| ==> hand == deck
      ensures numCards < 0 ==> |hand| == if |deck| + numCards < 0 then 0 else |deck| + numCards
    {
      var stop := if numCards < 0 then (if |deck| + numCards < 0 then 0 else |deck| + numCards)
                  else if numCards > |deck| then |deck| else numCards;
      deck[..stop]
    }
  }

  /** Dealing up to 52 cards from a shuffled deck gives that many distinct valid cards. */
  lemma DealtHandDistinct(d: Deck, n: int)
    requires IsShuffledDeck(d.deck) && 0 <= n <= DeckCapacity
    ensures |d.deck| == DeckCapacity
    ensures |d.DrawCards(n)| == n && Distinct(d.DrawCards(n))
    ensures forall k :: 0 <= k < n ==> ValidCard(d.DrawCards(n)[k])
  {
    ShuffledDeckComplete(d.deck);
    var h := d.DrawCards(n);
    assert h == d.deck[..n];
    forall k | 0 <= k < n ensures ValidCard(h[k]) {
      assert h[k] == d.deck[k] && d.deck[k] in d.deck;
    }
  }
}
