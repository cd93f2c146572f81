/** The penalty score of a group of cards, and of the player's selection. */
module Scoring {
  import opened Cards
  import opened Sorting

  /** `pointify`: the larger distance from `index` to the two extremes, squared. */
  function Pointify(under: int, index: int, over: int): (r: int)
    ensures r >= 0
  {
    var d := if index - under >= over - index then index - under else over - index;
    d * d
  }

  lemma SquareMono(x: int, y: int)
    requires 0 <= x <= y
    ensures x * x <= y * y
  {
    assert y * y - x * x == (y - x) * (y + x);
  }

  /** On a group in value order each card costs at most the squared spread, at least a quarter
      of it, and both extremes cost exactly the squared spread. */
  lemma PointifyBounds(under: int, index: int, over: int)
    requires under <= index <= over
    ensures Pointify(under, index, over) <= (over - under) * (over - under)
    ensures 4 * Pointify(under, index, over) >= (over - under) * (over - under)
    ensures Pointify(under, under, over) == (over - under) * (over - under)
    ensures Pointify(under, over, over) == (over - under) * (over - under)
  {
    var w := over - under;
    var d := if index - under >= over - index then index - under else over - index;
    assert Pointify(under, index, over) == d * d;
    assert 0 <= d <= w <= 2 * d;
    SquareMono(d, w);
    SquareMono(w, 2 * d);
    assert (2 * d) * (2 * d) == 4 * (d * d);
  }

  /** The cost of the first `k` cards of `g`, measured against `g`'s first and last card. */
  function PartialScore(g: seq<Card>, k: nat): (r: int)
    requires k <= |g|
    ensures r >= 0
  {
    if k == 0 then 0
    else PartialScore(g, k - 1) + Pointify(g[0].value, g[k - 1].value, g[|g| - 1].value)
  }

  /** Every card of the group scored against the group's first and last card. */
  function GroupScore(g: seq<Card>): (r: int)
    ensures r >= 0
  {
    PartialScore(g, |g|)
  }

  lemma {:induction false} PartialScoreBounds(g: seq<Card>, k: nat)
    requires SortedValues(g) && 0 < k <= |g|
    ensures var w := g[|g| - 1].value - g[0].value;
            w * w <= PartialScore(g, k) <= k * (w * w)
  {
    var u, o := g[0].value, g[|g| - 1].value;
    var W := (o - u) * (o - u);
    var p := Pointify(u, g[k - 1].value, o);
    assert PartialScore(g, k) == PartialScore(g, k - 1) + p;
    if k - 1 > 0 {
      assert g[k - 1].value <= o;
    }
    PointifyBounds(u, g[k - 1].value, o);
    assert p <= W;
    if k == 1 {
      assert p == Pointify(u, u, o) == W;
    } else {
      PartialScoreBounds(g, k - 1);
      assert PartialScore(g, k - 1) <= (k - 1) * W;
      assert (k - 1) * W + W == k * W;
    }
  }

  /** A group in value order with at least two cards scores between twice and |g| times the
      squared spread of its values. */
  lemma GroupScoreBounds(g: seq<Card>)
    requires SortedValues(g) && |g| >= 2
    ensures var w := g[|g| - 1].value - g[0].value;
            2 * (w * w) <= GroupScore(g) <= |g| * (w * w)
  {
    var u, o := g[0].value, g[|g| - 1].value;
    PartialScoreBounds(g, |g|);
    PartialScoreBounds(g, |g| - 1);
    PointifyBounds(u, o, o);
  }

  /** The worked example: values 3, 5 and 9 cost 36 + 16 + 36. */
  lemma GroupScoreExample()
    ensures GroupScore([Card(0, 3), Card(1, 5), Card(2, 9)]) == 88
  {
    var g := [Card(0, 3), Card(1, 5), Card(2, 9)];
    assert PartialScore(g, 1) == 36;
    assert PartialScore(g, 2) == 36 + 16;
  }

  /** A two-card group whose second card is not above its first costs nothing at all, however
      far apart the values are: the formula expects the smaller value first. */
  lemma DescendingPairScoresZero(x: Card, p: Card)
    requires p.value <= x.value
    ensures GroupScore([x, p]) == 0
  {
    assert PartialScore([x, p], 1) == 0;
  }

  /** The filler card added to a one-card selection. */
  const Filler := Card(0, 0)

  /** A lone selected card is paired with the filler. */
  function Padded(selection: seq<Card>): seq<Card>
  {
    if |selection| == 1 then selection + [Filler] else selection
  }

  /** What `flip_cards` adds to the player's points for the cards of a selection. */
  function SelectionScore(selection: seq<Card>): (r: int)
    ensures r >= 0
  {
    GroupScore(SortedByValue(Padded(selection)))
  }

  /** Sorting a card with the filler puts the filler first unless the card's value is 0 too,
      in which case stability keeps the card first. */
  lemma SortWithFiller(c: Card)
    requires 0 <= c.value < NumValues
    ensures SortedByValue([c, Filler]) == if c.value == 0 then [c, Filler] else [Filler, c]
  {
    if c.value == 0 {
      SortedIsFixedPoint([c, Filler]);
    } else {
      SortedPairSwap([c, Filler]);
    }
  }

  /** A lone card of value v scores as the pair [0, v]: 2 v squared. */
  lemma SingletonSelectionScore(c: Card)
    requires 0 <= c.value < NumValues
    ensures SelectionScore([c]) == 2 * c.value * c.value
    ensures SelectionScore([c]) == GroupScore([Filler, c])
  {
    assert Padded([c]) == [c, Filler];
    SortWithFiller(c);
    var ordered := if c.value == 0 then [c, Filler] else [Filler, c];
    assert PartialScore(ordered, 1) == c.value * c.value;
    assert PartialScore([Filler, c], 1) == c.value * c.value;
    assert GroupScore([Filler, c]) == 2 * c.value * c.value;
  }

  /** The score of a selection of at least two cards depends only on its cards' values in order:
      it lies between twice and |selection| times the squared spread of the values. */
  lemma SelectionScoreBounds(selection: seq<Card>)
    requires ValidValues(selection) && |selection| >= 2
    ensures var s := SortedByValue(selection);
            |s| == |selection| && multiset(s) == multiset(selection) &&
            var w := s[|s| - 1].value - s[0].value;
            2 * (w * w) <= SelectionScore(selection) <= |selection| * (w * w)
  {
    SortedByValueCorrect(selection);
    GroupScoreBounds(SortedByValue(selection));
  }
}
