/** The game session: the cards on the table with their selection and lock state, the player's
    selection and points, and the goal computed once per deal. */
module Session {
  import opened Cards
  import opened Decks
  import opened Sorting
  import opened Scoring
  import opened Planner

  /** What a `Card` widget carries besides its suit and value: the index of its background
      image for the next selection toggle (1 shows it selected, 0 unselected) and whether it
      reacts to presses. */
  datatype CardState = CardState(card: Card, backFlipCounter: int, flippable: bool)

  /** A freshly created `Card` widget. */
  function NewCardState(c: Card): CardState {
    CardState(c, 1, true)
  }

  function Abs(x: int): int {
    if x < 0 then -x else x
  }

  /** `toggle_select_background`: the counter becomes `abs(counter - 1)`, which flips 0 and 1. */
  function ToggleSelectBackground(s: CardState): (r: CardState)
    ensures r.card == s.card && r.flippable == s.flippable
    ensures s.backFlipCounter == 0 ==> r.backFlipCounter == 1
    ensures s.backFlipCounter == 1 ==> r.backFlipCounter == 0
  {
    s.(backFlipCounter := Abs(s.backFlipCounter - 1))
  }

  /** Python's `list.remove`: drops the first occurrence of `x`. */
  function RemoveFirst(s: seq<nat>, x: nat): (r: seq<nat>)
    ensures x !in s ==> r == s
    ensures x in s ==> |r| == |s| - 1
  {
    if s == [] then []
    else if s[0] == x then s[1..]
    else [s[0]] + RemoveFirst(s[1..], x)
  }

  /** When `i` is the first position holding `x`, exactly that element is taken out, and the
      other elements keep their order. */
  lemma {:induction false} RemoveFirstAt(s: seq<nat>, x: nat, i: nat)
    requires i < |s| && s[i] == x && x !in s[..i]
    ensures RemoveFirst(s, x) == s[..i] + s[i + 1..]
  {
    if i == 0 {
      assert s[..0] + s[1..] == s[1..];
    } else {
      assert s[..i][0] == s[0];
      var t := s[1..];
      assert t[..i - 1] == s[..i][1..];
      assert x !in t[..i - 1];
      assert t[i - 1] == x;
      RemoveFirstAt(t, x, i - 1);
      assert s[..i] == [s[0]] + t[..i - 1];
      assert s[i + 1..] == t[i..];
    }
  }

  /** Removing from a list without repetitions takes out exactly `x` and keeps it repetition-free. */
  lemma {:induction false} RemoveFromDistinct(s: seq<nat>, x: nat)
    requires Distinct(s)
    ensures Distinct(RemoveFirst(s, x))
    ensures forall y :: y in RemoveFirst(s, x) <==> y in s && y != x
  {
    if s != [] {
      assert Distinct(s[1..]) by {
        forall i, j | 0 <= i < j < |s[1..]| ensures s[1..][i] != s[1..][j] {
          assert s[1..][i] == s[i + 1] && s[1..][j] == s[j + 1];
        }
      }
      assert s[0] !in s[1..] by {
        forall k | 0 <= k < |s[1..]| ensures s[1..][k] != s[0] {
          assert s[1..][k] == s[k + 1];
        }
      }
      assert s == [s[0]] + s[1..];
      if s[0] != x {
        RemoveFromDistinct(s[1..], x);
        var r := RemoveFirst(s[1..], x);
        assert RemoveFirst(s, x) == [s[0]] + r;
        forall i, j | 0 <= i < j < |[s[0]] + r| ensures ([s[0]] + r)[i] != ([s[0]] + r)[j] {
          if i == 0 {
            assert ([s[0]] + r)[j] == r[j - 1] && r[j - 1] in r;
          } else {
            assert ([s[0]] + r)[i] == r[i - 1] && ([s[0]] + r)[j] == r[j - 1];
          }
        }
      }
    }
  }

  lemma AppendDistinct(s: seq<nat>, x: nat)
    requires Distinct(s) && x !in s
    ensures Distinct(s + [x])
  {
    forall i, j | 0 <= i < j < |s + [x]| ensures (s + [x])[i] != (s + [x])[j] {
      assert (s + [x])[i] == s[i] && s[i] in s;
    }
  }

  /** Every card on the table is a valid pair and its counter is 0 or 1. */
  ghost predicate ValidTable(t: seq<CardState>) {
    forall k :: 0 <= k < |t| ==>
      ValidCard(t[k].card) && (t[k].backFlipCounter == 0 || t[k].backFlipCounter == 1)
  }

  /** The selection holds positions of the table, each at most once. */
  ghost predicate ValidSelection(t: seq<CardState>, selection: seq<nat>) {
    (forall k :: 0 <= k < |selection| ==> selection[k] < |t|) && Distinct(selection)
  }

  /** A card is in the selection exactly when it reacts to presses and shows as selected. */
  ghost predicate Consistent(t: seq<CardState>, selection: seq<nat>) {
    forall k :: 0 <= k < |t| ==> (k in selection <==> t[k].flippable && t[k].backFlipCounter == 0)
  }

  /** The cards at the positions of `selection`, in the order they were selected. */
  function SelectedCards(t: seq<CardState>, selection: seq<nat>): seq<Card>
    requires forall k :: 0 <= k < |selection| ==> selection[k] < |t|
  {
    seq(|selection|, k requires 0 <= k < |selection| && selection[k] < |t| => t[selection[k]].card)
  }

  /** The table after every card at a position in `selection` has stopped reacting. */
  function Locked(t: seq<CardState>, selection: seq<nat>): (r: seq<CardState>)
    ensures |r| == |t|
    ensures forall k :: 0 <= k < |t| && k in selection ==> r[k] == t[k].(flippable := false)
    ensures forall k :: 0 <= k < |t| && k !in selection ==> r[k] == t[k]
  {
    seq(|t|, k requires 0 <= k < |t| => if k in selection then t[k].(flippable := false) else t[k])
  }

  /** Locking one more position is one more update of the table. */
  lemma LockedStep(t: seq<CardState>, selection: seq<nat>, x: nat)
    requires x < |t|
    ensures Locked(t, selection + [x]) == Locked(t, selection)[x := Locked(t, selection)[x].(flippable := false)]
  {
    var a, b := Locked(t, selection + [x]), Locked(t, selection)[x := Locked(t, selection)[x].(flippable := false)];
    forall k | 0 <= k < |t| ensures a[k] == b[k] {
      assert k in selection + [x] <==> k in selection || k == x;
    }
  }

  /** Locking the whole selection of a consistent table and emptying the selection leaves
      no card selected: every formerly selected card no longer reacts. */
  lemma LockedClearsSelection(t: seq<CardState>, selection: seq<nat>)
    requires Consistent(t, selection)
    ensures Consistent(Locked(t, selection), [])
    ensures forall k :: 0 <= k < |t| && k in selection ==> !Locked(t, selection)[k].flippable
  {
  }

  /** The loop `flip_cards` and `calculate_computer_points` share: every card of the group
      scored against the group's first and last card, summed. */
  method ScoreGroup(group: seq<Card>) returns (total: int)
    ensures total == GroupScore(group)
    ensures total >= 0
  {
    total := 0;
    for x := 0 to |group|
      invariant total == PartialScore(group, x)
    {
      total := total + Pointify(group[0].value, group[x].value, group[|group| - 1].value);
    }
  }

  /** The scoring half of `flip_cards`: a lone card is paired with the filler, the cards are
      sorted by value, and the sorted group is scored. */
  method ScoreSelection(selection: seq<Card>) returns (gained: int)
    requires ValidValues(selection)
    ensures gained == SelectionScore(selection)
    ensures gained >= 0
  {
    var group := selection;
    if |group| == 1 {
      group := group + [Filler];
    }
    group := SortCards(group);
    gained := ScoreGroup(group);
  }

  /** The table right after dealing: a fresh widget for every dealt card, in dealing order. */
  function NewTable(hand: seq<Card>): (t: seq<CardState>)
    ensures |t| == |hand|
    ensures forall k :: 0 <= k < |hand| ==> t[k] == NewCardState(hand[k])
  {
    seq(|hand|, k requires 0 <= k < |hand| => NewCardState(hand[k]))
  }

  /** The table after `flipall`: every card's `flippable` negated. */
  function Flipped(t: seq<CardState>): (r: seq<CardState>)
    ensures |r| == |t|
    ensures forall k :: 0 <= k < |t| ==> r[k] == t[k].(flippable := !t[k].flippable)
  {
    seq(|t|, k requires 0 <= k < |t| => t[k].(flippable := !t[k].flippable))
  }

  /** The timer's `flipall` undoes the one made at dealing time. */
  lemma FlippedTwice(t: seq<CardState>)
    ensures Flipped(Flipped(t)) == t
  {
    assert forall k :: 0 <= k < |t| ==> Flipped(Flipped(t))[k] == t[k];
  }

  /** While the dealt cards are shown for memorizing none of them reacts to presses, and
      nothing counts as selected; once the timer flips them back every card reacts, still
      with nothing selected. */
  lemma MemorizingThenPlaying(hand: seq<Card>)
    ensures forall k :: 0 <= k < |hand| ==> !Flipped(NewTable(hand))[k].flippable
    ensures Consistent(Flipped(NewTable(hand)), [])
    ensures forall k :: 0 <= k < |hand| ==> Flipped(Flipped(NewTable(hand)))[k].flippable
    ensures Consistent(Flipped(Flipped(NewTable(hand))), [])
  {
    FlippedTwice(NewTable(hand));
  }

  /** A freshly dealt table of valid cards is valid, and so is every table `flipall` produces
      from a valid one. */
  lemma TableStaysValid(hand: seq<Card>, t: seq<CardState>)
    requires forall k :: 0 <= k < |hand| ==> ValidCard(hand[k])
    ensures ValidTable(NewTable(hand))
    ensures ValidTable(t) ==> ValidTable(Flipped(t))
  {
  }

  /** The loop of `start_game` that creates a fresh `Card` widget for every dealt pair. */
  method LayOut(hand: seq<Card>) returns (cards: seq<CardState>)
    ensures cards == NewTable(hand)
  {
    cards := [];
    for i := 0 to |hand|
      invariant cards == NewTable(hand[..i])
    {
      assert hand[..i + 1] == hand[..i] + [hand[i]];
      cards := cards + [NewCardState(hand[i])];
    }
    assert hand[..|hand|] == hand;
  }

  /** The first two steps of `start_game`: a new shuffled deck, and the first `numCards` of its
      cards as the hand. */
  method Deal(numCards: int, draws: seq<int>) returns (deck: Deck, hand: seq<Card>)
    requires 0 <= numCards <= DeckCapacity && ShuffleDraws(draws)
    ensures fresh(deck) && IsShuffledDeck(deck.deck) && |deck.deck| == DeckCapacity
    ensures hand == deck.deck[..numCards] && Distinct(hand)
    ensures forall k :: 0 <= k < |hand| ==> ValidCard(hand[k])
  {
    deck := new Deck(draws);
    hand := deck.DrawCards(numCards);
    DealtHandDistinct(deck, numCards);
  }

  /** `Game`, restricted to its engine: one deal, the table of cards, the selection
      (`matching_list`, as table positions), the player's points and the goal. */
  class Game {
    var numCards: int
    var points: int
    var computerPoints: int
    var myDeck: Deck
    var myCards: seq<Card>
    var table: seq<CardState>
    var matchingList: seq<nat>
    var goalList: seq<seq<Card>>

    /** Every card is a valid pair with counter 0 or 1, and the selection holds table
        positions without repetitions. */
    ghost predicate Valid()
      reads this`table, this`matchingList
    {
      ValidTable(table) && ValidSelection(table, matchingList)
    }

    /** A card is in the selection exactly when it reacts to presses and shows as selected. */
    ghost predicate SelectionConsistent()
      reads this`table, this`matchingList
    {
      Consistent(table, matchingList)
    }

    /** `Game.__init__` followed by the first `start_game`: deal `numCards` cards from a deck
        shuffled with the given draws, lay them out, reveal them for memorizing (the first
        `flipall`, after which no card reacts), and compute the goal and its score. */
    constructor (numCards: int, draws: seq<int>)
      requires 5 <= numCards <= DeckCapacity && ShuffleDraws(draws)
      ensures Valid() && SelectionConsistent()
      ensures this.numCards == numCards && points == 0 && matchingList == []
      ensures fresh(myDeck) && IsShuffledDeck(myDeck.deck) && |myDeck.deck| == DeckCapacity
      ensures table == Flipped(NewTable(myDeck.deck[..numCards]))
      ensures goalList == GoalPlan(myDeck.deck[..numCards])
      ensures computerPoints == BenchmarkScore(goalList)
      ensures myCards == Spliced(SortedByValue(myDeck.deck[..numCards]))
    {
      this.numCards := numCards;
      matchingList := [];
      points := 0;
      var deck, dealt := Deal(numCards, draws);
      ghost var shuffled := deck.deck;
      myDeck := deck;
      myCards := dealt;
      var cards := LayOut(dealt);
      table := cards;
      goalList := [];
      computerPoints := 0;
      new;
      TableStaysValid(dealt, table);
      assert ValidValues(myCards) by {
        forall k | 0 <= k < |dealt| ensures 0 <= dealt[k].value < NumValues {
          assert ValidCard(dealt[k]);
        }
      }
      ShowAndPlan();
      assert myDeck == deck && deck.deck == shuffled;
      assert IsShuffledDeck(myDeck.deck) && myDeck.deck[..numCards] == dealt;
    }

    /** The rest of `start_game` once the cards are laid out: `flipall` shows them, and the goal
        and the computer's points are computed from the dealt hand. */
    method ShowAndPlan()
      requires Valid() && matchingList == [] && table == NewTable(myCards)
      requires ValidValues(myCards) && |myCards| >= 5
      modifies this`table, this`goalList, this`myCards, this`computerPoints
      ensures Valid() && SelectionConsistent()
      ensures table == Flipped(NewTable(old(myCards)))
      ensures goalList == GoalPlan(old(myCards))
      ensures myCards == Spliced(SortedByValue(old(myCards)))
      ensures computerPoints == BenchmarkScore(goalList)
    {
      ghost var hand := myCards;
      FlipAll();
      MemorizingThenPlaying(hand);
      assert table == Flipped(NewTable(hand)) && SelectionConsistent();
      PlanGoal();
    }

    /** `calculate_goal` on a fresh `goal_list`, then `calculate_computer_points`. */
    method PlanGoal()
      requires ValidValues(myCards) && |myCards| >= 5
      modifies this`goalList, this`myCards, this`computerPoints
      ensures goalList == GoalPlan(old(myCards))
      ensures myCards == Spliced(SortedByValue(old(myCards)))
      ensures computerPoints == BenchmarkScore(goalList)
    {
      goalList := [];
      CalculateGoal();
      computerPoints := CalculateComputerPoints();
    }

    /** `flipall`: every card on the table toggles whether it reacts to presses. Called once
        when the cards are dealt and once more when the memorizing time is over. */
    method FlipAll()
      requires Valid()
      modifies this`table
      ensures Valid()
      ensures table == Flipped(old(table))
    {
      TableStaysValid([], table);
      for x := 0 to |table|
        invariant |table| == |old(table)|
        invariant forall k :: 0 <= k < x ==> table[k] == old(table[k]).(flippable := !old(table[k]).flippable)
        invariant forall k :: x <= k < |table| ==> table[k] == old(table[k])
      {
        table := table[x := table[x].(flippable := !table[x].flippable)];
      }
    }

    /** `card_callback`: pressing a card that reacts toggles its background and its membership
        in the selection; pressing any other card changes nothing. */
    method CardCallback(k: nat)
      requires Valid() && k < |table|
      modifies this`table, this`matchingList
      ensures Valid()
      ensures !old(table[k].flippable) ==> table == old(table) && matchingList == old(matchingList)
      ensures old(table[k].flippable) ==>
                table == old(table)[k := ToggleSelectBackground(old(table[k]))] &&
                matchingList == if k in old(matchingList) then RemoveFirst(old(matchingList), k)
                                else old(matchingList) + [k]
      ensures forall m :: m in matchingList <==>
                if m == k && old(table[k].flippable) then m !in old(matchingList) else m in old(matchingList)
      ensures old(SelectionConsistent()) ==> SelectionConsistent()
    {
      var card := table[k];
      if card.flippable {
        table := table[k := ToggleSelectBackground(card)];
        RemoveFromDistinct(matchingList, k);
        if k in matchingList {
          var old_list := matchingList;
          matchingList := RemoveFirst(matchingList, k);
          forall i | 0 <= i < |matchingList| ensures matchingList[i] < |table| {
            assert matchingList[i] in old_list;
            var j :| 0 <= j < |old_list| && old_list[j] == matchingList[i];
          }
        } else {
          AppendDistinct(matchingList, k);
          matchingList := matchingList + [k];
        }
      }
    }

    /** `flip_cards`: a lone selected card is paired with the filler, the selection is sorted,
        every card of it is scored against the sorted selection's first and last card, the
        selected cards stop reacting for good, and the selection is emptied. */
    method FlipCards()
      requires Valid()
      modifies this`points, this`table, this`matchingList
      ensures Valid()
      ensures points == old(points) + SelectionScore(SelectedCards(old(table), old(matchingList)))
      ensures points >= old(points)
      ensures matchingList == []
      ensures table == Locked(old(table), old(matchingList))
      ensures old(SelectionConsistent()) ==> SelectionConsistent()
    {
      var selection := SelectedCards(table, matchingList);
      assert ValidValues(selection) by {
        forall k | 0 <= k < |selection| ensures 0 <= selection[k].value < NumValues {
          assert selection[k] == table[matchingList[k]].card;
        }
      }
      var gained := ScoreSelection(selection);
      points := points + gained;
      LockSelection();
      matchingList := [];
      if old(SelectionConsistent()) {
        LockedClearsSelection(old(table), old(matchingList));
      }
    }

    /** The locking half of `flip_cards`: every selected card stops reacting to presses. */
    method LockSelection()
      requires Valid()
      modifies this`table
      ensures table == Locked(old(table), matchingList)
    {
      for m := 0 to |matchingList|
        invariant table == Locked(old(table), matchingList[..m])
      {
        assert matchingList[..m + 1] == matchingList[..m] + [matchingList[m]];
        LockedStep(old(table), matchingList[..m], matchingList[m]);
        table := table[matchingList[m] := table[matchingList[m]].(flippable := false)];
      }
      assert matchingList[..|matchingList|] == matchingList;
    }

    /** `calculate_goal`: sort the dealt cards, set the second-to-last aside, partition the
        rest, and add the placeholder to the first group appended. */
    method CalculateGoal()
      requires ValidValues(myCards) && |myCards| >= 5
      modifies this`goalList, this`myCards
      ensures goalList == GoalPlan(old(myCards))
      ensures myCards == Spliced(SortedByValue(old(myCards)))
    {
      goalList := [];
      myCards := SortCards(myCards);
      assert |myCards| == |multiset(myCards)| == |old(myCards)|;
      var placeholder := myCards[|myCards| - 2];
      myCards := myCards[..|myCards| - 2] + [myCards[|myCards| - 1]];
      RecursiveCalculation1(myCards);
      goalList := [goalList[0] + [placeholder]] + goalList[1..];
    }

    /** `recursive_calculation1`: on more than three cards, start a group with the first two,
        let the scan extend it, and append it after the groups the scan appended. On three
        cards or fewer, append nothing. */
    method RecursiveCalculation1(cardList: seq<Card>)
      modifies this`goalList
      ensures goalList == old(goalList) + StartGroup(cardList)
      decreases |cardList|, 1, 0
    {
      if |cardList| <= 3 {
        return;
      }
      var rest := RecursiveCalculation2(cardList, 2);
      goalList := goalList + [cardList[..2] + rest];
    }

    /** `recursive_calculation2`: the last card becomes a group of its own; a card that is no
        farther from the group's first card than from the next card joins and the scan goes
        on; otherwise a new partition starts at this card. */
    method RecursiveCalculation2(cardList: seq<Card>, index: nat) returns (members: seq<Card>)
      requires 2 <= index < |cardList|
      modifies this`goalList
      ensures members == ContinueGroup(cardList, index).members
      ensures goalList == old(goalList) + ContinueGroup(cardList, index).groups
      decreases |cardList|, 0, |cardList| - index
    {
      if |cardList| == index + 1 {
        goalList := goalList + [[cardList[index]]];
        return [];
      }
      if cardList[index].value - cardList[0].value <= cardList[index + 1].value - cardList[index].value {
        var more := RecursiveCalculation2(cardList, index + 1);
        return [cardList[index]] + more;
      }
      RecursiveCalculation1(cardList[index..]);
      return [];
    }

    /** `calculate_computer_points`: every card of every goal group scored against its group's
        first and last card, summed. */
    method CalculateComputerPoints() returns (total: int)
      ensures total == BenchmarkScore(goalList)
      ensures total >= 0
    {
      total := 0;
      for x := 0 to |goalList|
        invariant total == BenchmarkScore(goalList[..x])
      {
        var gained := ScoreGroup(goalList[x]);
        total := total + gained;
        assert goalList[..x + 1][..x] == goalList[..x];
      }
      assert goalList[..|goalList|] == goalList;
    }
  }

  /** The number of cards `MemoryGame.build` deals. */
  const CardsOnTable := 30

  datatype BuildResult = Built(game: Game) | ValueError

  /** `MemoryGame.build`: a game with 5 to 52 cards, anything else is a `ValueError`. */
  method Build(cardsOnTable: int, draws: seq<int>) returns (r: BuildResult)
    requires ShuffleDraws(draws)
    ensures r.Built? <==> 5 <= cardsOnTable <= DeckCapacity
    ensures r.Built? ==> fresh(r.game) && r.game.numCards == cardsOnTable && r.game.Valid()
  {
    if cardsOnTable <= DeckCapacity && cardsOnTable >= 5 {
      var game := new Game(cardsOnTable, draws);
      return Built(game);
    }
    return ValueError;
  }

  /** `MemoryGame.build` with its hard-coded count: the check passes and a 30-card game is built. */
  method BuildApp(draws: seq<int>) returns (r: BuildResult)
    requires ShuffleDraws(draws)
    ensures r.Built? && fresh(r.game) && r.game.numCards == CardsOnTable && r.game.Valid()
  {
    r := Build(CardsOnTable, draws);
  }

  /** The table through one round that starts right after dealing: the timer's `flipall`,
      a press on the first card, and `flip_cards` on that lone selection. */
  lemma LoneCardRound(t0: seq<CardState>)
    requires ValidTable(t0) && |t0| >= 1
    requires forall k :: 0 <= k < |t0| ==> t0[k].backFlipCounter == 1 && !t0[k].flippable
    ensures var t1 := Flipped(t0);
            var t2 := t1[0 := ToggleSelectBackground(t1[0])];
            var t3 := Locked(t2, [0]);
            Consistent(t1, []) && t1[0].flippable && Consistent(t2, [0]) &&
            |t3| == |t0| && t3[0].card == t0[0].card && !t3[0].flippable &&
            (forall k :: 1 <= k < |t3| ==> t3[k].flippable) && Consistent(t3, [])
  {
    var t1 := Flipped(t0);
    var t2 := t1[0 := ToggleSelectBackground(t1[0])];
    LockedClearsSelection(t2, [0]);
  }

  /** One round on a freshly dealt game, as the program runs it: the memorizing time runs out
      (the second `flipall`), the first card is pressed, the selection is flipped. The lone card
      is locked, the other cards react again, the selection is empty, and pressing the locked
      card changes nothing. The points grow by the lone card's score, which
      `SingletonSelectionScore` shows to be 2 v squared. */
  method SingleCardRound(game: Game)
    requires game.Valid() && game.matchingList == [] && |game.table| >= 1
    requires forall k :: 0 <= k < |game.table| ==>
               game.table[k].backFlipCounter == 1 && !game.table[k].flippable
    modifies game`table, game`matchingList, game`points
    ensures game.Valid() && game.SelectionConsistent() && game.matchingList == []
    ensures |game.table| == |old(game.table)|
    ensures !game.table[0].flippable
    ensures forall k :: 1 <= k < |game.table| ==> game.table[k].flippable
    ensures game.points == old(game.points) + SelectionScore([old(game.table)[0].card])
    ensures game.table == Locked(Flipped(old(game.table))[0 := ToggleSelectBackground(Flipped(old(game.table))[0])], [0])
  {
    ghost var t0 := game.table;
    ghost var p0 := game.points;
    LoneCardRound(t0);
    game.FlipAll();
    ghost var t1 := game.table;
    assert t1 == Flipped(t0) && game.matchingList == [];
    game.CardCallback(0);
    ghost var t2 := game.table;
    assert t2 == t1[0 := ToggleSelectBackground(t1[0])] && game.matchingList == [0];
    game.FlipCards();
    ghost var t3 := game.table;
    assert t3 == Locked(t2, [0]);
    assert SelectedCards(t2, [0]) == [t0[0].card];
    assert game.points == p0 + SelectionScore([t0[0].card]);
    game.CardCallback(0);
    assert game.table == t3;
  }
}
