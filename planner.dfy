/** The goal planner: a greedy partition of the sorted hand into groups, and the benchmark
    score summed over those groups. Groups are listed in the order the recursion appends them,
    which is deepest first: the group latest in sorted order comes first. */
module Planner {
  import opened Cards
  import opened Sorting
  import opened Scoring

  /** What `recursive_calculation2` contributes: the cards it returns to the group being
      built, and the groups it appends to the goal list, in append order. */
  datatype Scan = Scan(members: seq<Card>, groups: seq<seq<Card>>)

  /** The card at scan index i joins the group that starts at L[0]: its distance to the
      group's first card is not larger than its distance to the next card. */
  predicate Joins(L: seq<Card>, i: nat)
    requires i + 1 < |L|
  {
    L[i].value - L[0].value <= L[i + 1].value - L[i].value
  }

  /** `recursive_calculation1`: the groups appended for the list `L`. A list of at most three
      cards appends nothing. Otherwise a group starts with L[0] and L[1], the scan from index 2
      appends its own groups first, and this group is appended after them. */
  function StartGroup(L: seq<Card>): (groups: seq<seq<Card>>)
    ensures groups == [] <==> |L| <= 3
    ensures |L| > 3 ==> |groups[|groups| - 1]| >= 2 && groups[|groups| - 1][..2] == L[..2]
    decreases |L|, 1, 0
  {
    if |L| <= 3 then []
    else
      var scan := ContinueGroup(L, 2);
      scan.groups + [L[..2] + scan.members]
  }

  /** `recursive_calculation2`: the scan at index `i` of the group that starts at L[0]. */
  function ContinueGroup(L: seq<Card>, i: nat): (r: Scan)
    requires 2 <= i < |L|
    ensures |r.members| <= |L| - 1 - i
    decreases |L|, 0, |L| - i
  {
    if |L| == i + 1 then Scan([], [[L[i]]])
    else if Joins(L, i) then
      var scan := ContinueGroup(L, i + 1);
      Scan([L[i]] + scan.members, scan.groups)
    else Scan([], StartGroup(L[i..]))
  }

  /** Where the scan starting at index i stops: every index before it joins, and it is either
      the last index of L or an index that does not join. */
  function GroupEnd(L: seq<Card>, i: nat): (j: nat)
    requires 2 <= i < |L|
    ensures i <= j < |L|
    ensures forall k :: i <= k < j ==> k + 1 < |L| && Joins(L, k)
    ensures j == |L| - 1 || !Joins(L, j)
    decreases |L| - i
  {
    if i == |L| - 1 || !Joins(L, i) then i else GroupEnd(L, i + 1)
  }

  /** The scan from index i returns exactly the cards up to where it stops; at the last index
      that card becomes a group of its own, otherwise a new partition starts there. */
  lemma {:induction false} ContinueGroupShape(L: seq<Card>, i: nat)
    requires 2 <= i < |L|
    ensures var j := GroupEnd(L, i);
            ContinueGroup(L, i).members == L[i..j] &&
            ContinueGroup(L, i).groups == if j == |L| - 1 then [[L[j]]] else StartGroup(L[j..])
    decreases |L| - i
  {
    if i == |L| - 1 || !Joins(L, i) {
    } else {
      ContinueGroupShape(L, i + 1);
      var j := GroupEnd(L, i + 1);
      assert [L[i]] + L[i + 1..j] == L[i..j];
    }
  }

  /** A list of four or more cards: the group of L[0] is the run L[..j] up to where the scan
      stops, and it is appended after the groups of what follows. */
  lemma StartGroupShape(L: seq<Card>)
    requires |L| >= 4
    ensures var j := GroupEnd(L, 2);
            StartGroup(L) ==
              (if j == |L| - 1 then [[L[j]]] else StartGroup(L[j..])) + [L[..j]]
  {
    ContinueGroupShape(L, 2);
    var j := GroupEnd(L, 2);
    assert L[..2] + L[2..j] == L[..j];
  }

  /** The groups read from last appended to first appended, which is their order in L. */
  function InSortedOrder(groups: seq<seq<Card>>): seq<Card>
  {
    if groups == [] then [] else groups[|groups| - 1] + InSortedOrder(groups[..|groups| - 1])
  }

  /** The number of cards in all groups together. */
  function TotalSize(groups: seq<seq<Card>>): nat
  {
    if groups == [] then 0 else TotalSize(groups[..|groups| - 1]) + |groups[|groups| - 1]|
  }

  lemma {:induction false} TotalSizeInSortedOrder(groups: seq<seq<Card>>)
    ensures TotalSize(groups) == |InSortedOrder(groups)|
  {
    if groups != [] {
      TotalSizeInSortedOrder(groups[..|groups| - 1]);
    }
  }

  /** The shape of the groups appended for a list L of at least four cards. Read back to
      front, they are consecutive runs that cover L except for a trailing run of two or three
      cards that a restart on a short tail drops. The first group appended is the last run in
      L; it is a lone card exactly when nothing is dropped, and then it is L's last card. Every
      other group has at least two cards. */
  ghost predicate Covers(L: seq<Card>, G: seq<seq<Card>>) {
    var F := InSortedOrder(G);
    |G| > 0 && F <= L &&
    (|L| - |F| == 0 || |L| - |F| == 2 || |L| - |F| == 3) &&
    |G[0]| <= |F| && F[|F| - |G[0]|..] == G[0] &&
    (|G[0]| == 1 <==> |F| == |L|) &&
    (|F| == |L| ==> G[0] == [L[|L| - 1]]) &&
    (forall k :: 0 < k < |G| ==> |G[k]| >= 2) &&
    |G[|G| - 1]| >= 2
  }

  /** The scan reached the last card: the run before it and the lone last card cover L. */
  lemma CoversWithLastCard(L: seq<Card>, j: nat)
    requires 2 <= j == |L| - 1
    ensures Covers(L, [[L[j]], L[..j]])
  {
    var G := [[L[j]], L[..j]];
    assert G[..1] == [[L[j]]];
    assert InSortedOrder([[L[j]]]) == [L[j]] + InSortedOrder([]);
    assert InSortedOrder(G) == L[..j] + InSortedOrder([[L[j]]]);
    assert L[..j] + [L[j]] == L;
  }

  /** The restart found at most three cards: only the run before them is appended. */
  lemma CoversWithShortTail(L: seq<Card>, j: nat)
    requires 2 <= j && |L| - 3 <= j < |L| - 1
    ensures Covers(L, [L[..j]])
  {
    var G := [L[..j]];
    assert G[..0] == [];
    assert InSortedOrder(G) == L[..j] + InSortedOrder([]);
  }

  /** The restart on M appended the groups T: appending the run X in front of M after them
      keeps the shape. */
  lemma CoversExtend(L: seq<Card>, X: seq<Card>, M: seq<Card>, T: seq<seq<Card>>)
    requires L == X + M && |X| >= 2 && Covers(M, T)
    ensures Covers(L, T + [X])
  {
    var G := T + [X];
    assert G[..|G| - 1] == T;
    assert InSortedOrder(G) == X + InSortedOrder(T);
    assert G[0] == T[0];
    forall k | 0 < k < |G| ensures |G[k]| >= 2 {
      if k < |T| {
        assert G[k] == T[k];
      }
    }
  }

  /** One step of the partition keeps the shape: the run L[..j] appended after either the lone
      last card, or nothing for a short tail, or the groups T of the restart on L[j..]. */
  lemma CoversStep(L: seq<Card>, j: nat, T: seq<seq<Card>>)
    requires 2 <= j < |L|
    requires j < |L| - 1 && |L| - j <= 3 ==> T == []
    requires j < |L| - 1 && |L| - j > 3 ==> Covers(L[j..], T)
    ensures Covers(L, (if j == |L| - 1 then [[L[j]]] else T) + [L[..j]])
  {
    if j == |L| - 1 {
      assert [[L[j]]] + [L[..j]] == [[L[j]], L[..j]];
      CoversWithLastCard(L, j);
    } else if |L| - j <= 3 {
      assert T + [L[..j]] == [L[..j]];
      CoversWithShortTail(L, j);
    } else {
      assert L == L[..j] + L[j..];
      CoversExtend(L, L[..j], L[j..], T);
    }
  }

  /** The partition of a list of at least four cards has the shape `Covers` describes. */
  lemma {:induction false} StartGroupCovers(L: seq<Card>)
    requires |L| >= 4
    ensures Covers(L, StartGroup(L))
    decreases |L|
  {
    StartGroupShape(L);
    var j := GroupEnd(L, 2);
    if j < |L| - 1 && |L| - j > 3 {
      StartGroupCovers(L[j..]);
    }
    CoversStep(L, j, if j == |L| - 1 then [] else StartGroup(L[j..]));
  }

  /** The list the planner partitions: the sorted hand without its second-to-last card. */
  function Spliced(sorted: seq<Card>): (L: seq<Card>)
    requires |sorted| >= 2
    ensures |L| == |sorted| - 1
  {
    sorted[..|sorted| - 2] + [sorted[|sorted| - 1]]
  }

  /** Adds the placeholder to the first group appended. */
  function Attach(groups: seq<seq<Card>>, placeholder: Card): seq<seq<Card>>
    requires groups != []
  {
    [groups[0] + [placeholder]] + groups[1..]
  }

  /** `calculate_goal`: sort the hand, set the second-to-last card aside as the placeholder,
      partition the rest, and add the placeholder to the first group appended. */
  function GoalPlan(hand: seq<Card>): (goal: seq<seq<Card>>)
    requires ValidValues(hand) && |hand| >= 5
    ensures goal != [] && goal[0] != []
    ensures var sorted := SortedByValue(hand);
            |sorted| == |hand| && goal[0][|goal[0]| - 1] == sorted[|sorted| - 2]
  {
    SortedByValueCorrect(hand);
    var sorted := SortedByValue(hand);
    Attach(StartGroup(Spliced(sorted)), sorted[|sorted| - 2])
  }

  lemma {:induction false} InSortedOrderFirst(groups: seq<seq<Card>>)
    requires groups != []
    ensures InSortedOrder(groups) == InSortedOrder(groups[1..]) + groups[0]
    decreases |groups|
  {
    if |groups| > 1 {
      var init := groups[..|groups| - 1];
      InSortedOrderFirst(init);
      assert init[1..] == groups[1..][..|groups[1..]| - 1];
      assert init[0] == groups[0];
    } else {
      assert groups[1..] == [];
    }
  }

  /** Attaching the placeholder puts it behind everything the groups cover, in the first group. */
  lemma AttachShape(groups: seq<seq<Card>>, placeholder: Card)
    requires groups != []
    ensures var goal := Attach(groups, placeholder);
            |goal| > 0 && goal[0][|goal[0]| - 1] == placeholder &&
            InSortedOrder(goal) == InSortedOrder(groups) + [placeholder] &&
            TotalSize(goal) == TotalSize(groups) + 1
  {
    var goal := Attach(groups, placeholder);
    InSortedOrderFirst(groups);
    InSortedOrderFirst(goal);
    assert goal[1..] == groups[1..];
    TotalSizeInSortedOrder(goal);
    TotalSizeInSortedOrder(groups);
  }

  lemma SplicedMultiset(sorted: seq<Card>)
    requires |sorted| >= 2
    ensures multiset(Spliced(sorted)) + multiset{sorted[|sorted| - 2]} == multiset(sorted)
  {
    var n := |sorted|;
    assert sorted == sorted[..n - 2] + [sorted[n - 2]] + [sorted[n - 1]];
  }

  /** The goal of a hand of n >= 5 cards: its groups hold n cards, less a dropped run of 0, 2 or
      3; the placeholder (the second-to-last card in sorted order) closes the first group, which
      is the one latest in sorted order; and the groups, read back to front, are the sorted hand
      with the placeholder moved behind the covered part. */
  lemma GoalPlanShape(hand: seq<Card>)
    requires ValidValues(hand) && |hand| >= 5
    ensures var sorted := SortedByValue(hand); var goal := GoalPlan(hand);
            var n := |hand|; var d := n - TotalSize(goal);
            |sorted| == n &&
            |goal| > 0 && goal[0][|goal[0]| - 1] == sorted[n - 2] &&
            (d == 0 || d == 2 || d == 3) &&
            InSortedOrder(goal) == Spliced(sorted)[..n - 1 - d] + [sorted[n - 2]]
  {
    SortedByValueCorrect(hand);
    var sorted := SortedByValue(hand);
    var L := Spliced(sorted);
    StartGroupCovers(L);
    AttachShape(StartGroup(L), sorted[|hand| - 2]);
    TotalSizeInSortedOrder(StartGroup(L));
  }

  /** A prefix of the spliced list followed by the placeholder takes each card of the sorted
      list at most as often as it occurs there, and all of them when the prefix is everything. */
  lemma PrefixAndPlaceholder(sorted: seq<Card>, F: seq<Card>, m: nat)
    requires |sorted| >= 2 && m <= |sorted| - 1
    requires F == Spliced(sorted)[..m] + [sorted[|sorted| - 2]]
    ensures multiset(F) <= multiset(sorted)
    ensures m == |sorted| - 1 ==> multiset(F) == multiset(sorted)
  {
    var L := Spliced(sorted);
    SplicedMultiset(sorted);
    assert L == L[..m] + L[m..];
    assert multiset(L) == multiset(L[..m]) + multiset(L[m..]);
    assert multiset(F) == multiset(L[..m]) + multiset{sorted[|sorted| - 2]};
    if m == |L| {
      assert L[..m] == L;
    }
  }

  /** The goal never counts a card twice, and when nothing is dropped it covers the whole hand. */
  lemma GoalPlanCoverage(hand: seq<Card>)
    requires ValidValues(hand) && |hand| >= 5
    ensures multiset(InSortedOrder(GoalPlan(hand))) <= multiset(hand)
    ensures TotalSize(GoalPlan(hand)) == |hand| ==> multiset(InSortedOrder(GoalPlan(hand))) == multiset(hand)
  {
    GoalPlanShape(hand);
    SortedByValueCorrect(hand);
    CoverageFromShape(hand, SortedByValue(hand), GoalPlan(hand));
  }

  lemma CoverageFromShape(hand: seq<Card>, sorted: seq<Card>, goal: seq<seq<Card>>)
    requires |sorted| == |hand| >= 5 && multiset(sorted) == multiset(hand)
    requires var d := |hand| - TotalSize(goal);
             0 <= d <= |hand| - 1 &&
             InSortedOrder(goal) == Spliced(sorted)[..|hand| - 1 - d] + [sorted[|hand| - 2]]
    ensures multiset(InSortedOrder(goal)) <= multiset(hand)
    ensures TotalSize(goal) == |hand| ==> multiset(InSortedOrder(goal)) == multiset(hand)
  {
    var d := |hand| - TotalSize(goal);
    PrefixAndPlaceholder(sorted, InSortedOrder(goal), |hand| - 1 - d);
  }

  /** Every group's score, summed: what `calculate_computer_points` computes. */
  function BenchmarkScore(groups: seq<seq<Card>>): (r: int)
    ensures r >= 0
  {
    if groups == [] then 0
    else BenchmarkScore(groups[..|groups| - 1]) + GroupScore(groups[|groups| - 1])
  }

  /** The placeholder can close a lone last card, and then that pair costs nothing. */
  lemma PlaceholderPairScoresZero(hand: seq<Card>)
    requires ValidValues(hand) && |hand| >= 5
    requires |GoalPlan(hand)[0]| == 2
    ensures GroupScore(GoalPlan(hand)[0]) == 0
  {
    SortedByValueCorrect(hand);
    var sorted := SortedByValue(hand);
    var n := |hand|;
    var L := Spliced(sorted);
    StartGroupCovers(L);
    var G := StartGroup(L);
    assert GoalPlan(hand) == Attach(G, sorted[n - 2]);
    assert GoalPlan(hand)[0] == G[0] + [sorted[n - 2]];
    assert |G[0]| == 1;
    assert G[0] == [L[n - 2]] && L[n - 2] == sorted[n - 1];
    assert GoalPlan(hand)[0] == [sorted[n - 1], sorted[n - 2]];
    assert sorted[n - 2].value <= sorted[n - 1].value;
    DescendingPairScoresZero(sorted[n - 1], sorted[n - 2]);
  }

  /** On a hand already in value order the plan partitions the hand itself. */
  lemma GoalPlanOfSorted(hand: seq<Card>)
    requires ValidValues(hand) && SortedValues(hand) && |hand| >= 5
    ensures GoalPlan(hand) == Attach(StartGroup(Spliced(hand)), hand[|hand| - 2])
  {
    SortedIsFixedPoint(hand);
  }

  /** The hand with values 1, 1, 4, 5, 9, whatever the suits: the placeholder 5 is set aside,
      [1, 1, 4, 9] splits into the run [1, 1, 4] and the lone last card 9, which the placeholder
      joins; the benchmark is 0 for [9, 5] plus 9 + 9 + 9 for [1, 1, 4]. */
  lemma EndToEndExample(a: Card, b: Card, c: Card, d: Card, e: Card)
    requires a.value == 1 && b.value == 1 && c.value == 4 && d.value == 5 && e.value == 9
    ensures GoalPlan([a, b, c, d, e]) == [[e, d], [a, b, c]]
    ensures BenchmarkScore(GoalPlan([a, b, c, d, e])) == 27
  {
    var hand := [a, b, c, d, e];
    GoalPlanOfSorted(hand);
    var L := [a, b, c, e];
    assert Spliced(hand) == L;
    assert StartGroup(L) == [[e], [a, b, c]] by {
      assert ContinueGroup(L, 3) == Scan([], [[e]]);
      assert Joins(L, 2);
      assert ContinueGroup(L, 2) == Scan([c], [[e]]);
      assert L[..2] + [c] == [a, b, c];
    }
    var goal := [[e, d], [a, b, c]];
    assert hand[|hand| - 2] == d;
    var G := StartGroup(L);
    assert G[0] + [d] == [e, d] && G[1..] == [[a, b, c]];
    assert Attach(G, d) == [G[0] + [d]] + G[1..];
    assert GoalPlan(hand) == goal;
    assert goal[..1] == [[e, d]];
    assert goal[..1][..0] == [];
    DescendingPairScoresZero(e, d);
    assert BenchmarkScore(goal[..1]) == 0;
    assert PartialScore(goal[1], 1) == 9;
    assert PartialScore(goal[1], 2) == 18;
    assert GroupScore(goal[1]) == 27;
  }

  /** The hand with values 0, 1, 5, 6, 6: the scan stops at 5 (5 - 0 > 6 - 5), the restart on
      the two-card tail [5, 6] appends nothing, so the goal holds three of the five cards and
      the benchmark is 36 + 25 + 36 for [0, 1, 6]. */
  lemma DroppedTailExample(a: Card, b: Card, c: Card, d: Card, e: Card)
    requires a.value == 0 && b.value == 1 && c.value == 5 && d.value == 6 && e.value == 6
    ensures GoalPlan([a, b, c, d, e]) == [[a, b, d]]
    ensures TotalSize(GoalPlan([a, b, c, d, e])) == 3
    ensures BenchmarkScore(GoalPlan([a, b, c, d, e])) == 97
  {
    var hand := [a, b, c, d, e];
    GoalPlanOfSorted(hand);
    var L := [a, b, c, e];
    assert Spliced(hand) == L;
    assert StartGroup(L) == [[a, b]] by {
      assert !Joins(L, 2);
      assert StartGroup(L[2..]) == [];
      assert ContinueGroup(L, 2) == Scan([], []);
      assert L[..2] + [] == [a, b];
    }
    var goal := [[a, b, d]];
    assert hand[|hand| - 2] == d;
    var G := StartGroup(L);
    assert G[0] + [d] == [a, b, d] && G[1..] == [];
    assert Attach(G, d) == [G[0] + [d]] + G[1..];
    assert GoalPlan(hand) == goal;
    assert goal[..0] == [];
    assert PartialScore(goal[0], 1) == 36;
    assert PartialScore(goal[0], 2) == 36 + 25;
  }
}
