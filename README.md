# Super Memory Game — the game engine in Dafny

The game deals a hand of cards from a shuffled 52-card deck and shows them face up for
a short time. The player then picks groups of cards whose values lie close together. Each
group is scored by a quadratic penalty. The player tries to stay below a benchmark that a
greedy planner computes from the dealt hand.

This project models the integer-only engine of `main.py`. The Kivy interface around it is
not modelled. The modules are:

- `Cards` (cards.dfy): a card is a `(suit, value)` pair. It also states what a valid card
  is and what "no repetitions" means.
- `Decks` (deck.dfy): the 52 pairs, a shuffled deck as a class, and `draw_cards` as a
  prefix slice. The slice clamps its bounds the way a Python slice does.
- `Sorting` (sorting.dfy): `sort_cards`, the 13-bucket counting sort. A method with the
  source's loops is proved equal to a functional specification. That specification is
  proved sorted, a permutation of its input, and stable. Stability is stated as "for every
  value, the cards of that value keep their input order".
- `Scoring` (scoring.dfy): `pointify` and the score of a group. This includes the
  one-card padding of `flip_cards`, with bounds and the worked example.
- `Planner` (planner.dfy): `recursive_calculation1/2` as two mutually recursive functions.
  Their result lists the groups in the order the source appends them to `goal_list`,
  deepest first. `calculate_goal` and `calculate_computer_points` are modelled too. The
  shape of the partition is proved.
- `Session` (game.dfy): the `Game` object as a class with the fields the engine updates.
  These are the table of cards (each with `back_flip_counter` and `flippable`),
  `matching_list`, `points`, `my_cards`, `goal_list` and `computer_points`. Its methods
  follow the source's loops and recursion. They are proved against the functions above.
  `MemoryGame.build`'s 5..52 check returns a `ValueError` outside that range.

A card on the table is identified by its position in the dealt hand. `matching_list`
holds positions.

Behaviour of the source that the model keeps, and that is proved:

- The planner drops a trailing run of two or three cards. This happens when a restart
  reaches a sub-list of at most three cards: `recursive_calculation1` returns it, and its
  caller discards it. `Planner.StartGroupCovers` proves that nothing else is ever dropped.
  `Planner.DroppedTailExample` shows a hand where it happens.
- The placeholder goes into `goal_list[0]`. Because the groups are appended deepest
  first, that is the group latest in sorted order. When that group is the lone last card,
  the pair is `[last, placeholder]`, the placeholder's value is not above the last card's,
  and the pair scores 0
  (`Planner.PlaceholderPairScoresZero`).

Other behaviour of `main.py` that the model keeps:

- Cards start `flippable`. The first `flipall` clears the flag while the cards are shown,
  and the timer's `flipall` sets it again, so `flippable == true` means the card can be
  selected.
- `draw_cards` accepts any integer, with Python slice semantics.

## Model

| member | source | states |
|---|---|---|
| `Decks.Universe` | main.py:97-100 | the unshuffled deck has 52 entries, and entry k is suit k div 13 with value k mod 13 (suit-major comprehension order) |
| `Decks.UniverseComplete` | main.py:100 | the 52 pairs are pairwise distinct, and a pair occurs in them iff its suit is in 0..3 and its value is in 0..12 |
| `Decks.ShuffledDeckComplete` | main.py:100-101 | every permutation of the 52 pairs has 52 distinct cards covering exactly the valid suit/value space |
| `Decks.Deck.constructor` | main.py:95-101 | building the pairs in comprehension order and then running the in-place Fisher-Yates swaps of `random.shuffle` yields a permutation of the 52 pairs |
| `Decks.Deck.DrawCards` | main.py:102-104 | the drawn hand is a prefix of the deck: exactly n cards for 0 <= n <= 52, the whole deck above that, and Python's negative-stop slice below 0 |
| `Decks.DealtHandDistinct` | main.py:100-104 | drawing n <= 52 cards from a shuffled deck gives n pairwise distinct valid cards |
| `Sorting.SortCards` | main.py:168-179 | the bucket loops return a list in non-decreasing value order that is a permutation of the input, and for every value its cards keep their input order; the result equals `SortedByValue` |
| `Sorting.FillBuckets` | main.py:170-175 | the first loop leaves 13 buckets, and bucket v holds exactly the input's cards of value v, in input order |
| `Sorting.AppendAll` | main.py:177-178 | appending a bucket card by card leaves the earlier result as a prefix, followed by the whole bucket |
| `Sorting.GatherFilter` | main.py:176-178 | after the buckets below b are concatenated, the cards of value v in the result are exactly the input's cards of value v, in input order, when v < b, and there are none otherwise |
| `Sorting.SortedByValueCorrect` | main.py:168-179 | the concatenated buckets are sorted by value, a permutation of the input (same multiset, same length), and stable per value |
| `Sorting.SortedStableUnique` | main.py:176-179 | two value-sorted sequences with the same cards of each value in the same order are equal, so the stable sort's result is unique |
| `Sorting.SortedIsFixedPoint` | main.py:168-179 | sorting a list that is already in value order returns it unchanged |
| `Sorting.SortedPairSwap` | main.py:168-179 | sorting two cards given in strictly descending value order swaps them |
| `Scoring.Pointify` | main.py:270-271 | `max(index-under, over-index)^2` is never negative |
| `Scoring.PointifyBounds` | main.py:270-271 | for under <= index <= over the term is at most (over-under)^2 and at least a quarter of it, and both extremes cost exactly (over-under)^2 |
| `Scoring.PartialScoreBounds` | main.py:199-202 | the first k terms of a group's score, each scored against the group's extremes, lie between 0 and k times the squared spread |
| `Scoring.GroupScoreBounds` | main.py:199-202 | a value-sorted group of at least two cards scores between 2 and \|g\| times the squared spread of its values |
| `Scoring.GroupScoreExample` | main.py:199-202 | values 3, 5, 9 score 36 + 16 + 36 = 88 |
| `Scoring.DescendingPairScoresZero` | main.py:270-271 | a two-card group whose second value is not above its first scores 0, however far apart the values are |
| `Scoring.SelectionScore` | main.py:195-202 | the score added for a selection (padded if alone, sorted, each card scored against the extremes) is never negative |
| `Scoring.SortWithFiller` | main.py:195-198 | sorting a card with the value-0 filler puts the filler first, unless the card's value is 0, when stability keeps the card first |
| `Scoring.SingletonSelectionScore` | main.py:195-202 | a lone selected card of value v scores 2·v^2, the same as the group [0, v] scored on its own |
| `Scoring.SelectionScoreBounds` | main.py:198-202 | a selection of at least two cards scores between 2 and \|selection\| times the squared spread of its values, read from the sorted permutation |
| `Planner.StartGroup` | main.py:225-235 | `recursive_calculation1` appends nothing exactly when its list has at most three cards; otherwise the group it appends last has at least two cards and starts with L[0], L[1] |
| `Planner.ContinueGroup` | main.py:240-254 | the cards `recursive_calculation2` returns from index i never reach the last card of the list |
| `Planner.GoalPlan` | main.py:208-220 | the goal is non-empty, and its first group ends with the placeholder, the second-to-last card of the sorted hand |
| `Planner.GroupEnd` | main.py:244-250 | the scan from index i stops at the first index that is the last one or whose card does not join; every index before it joins |
| `Planner.ContinueGroupShape` | main.py:240-254 | `recursive_calculation2` returns exactly the cards from i up to where the scan stops; it appends a singleton of the last card if the scan reached the last index, or else the groups of a restart on the suffix from the stop index |
| `Planner.StartGroupShape` | main.py:225-235 | on four or more cards the group of L[0] is the run L[..j] up to the scan's stop, appended after the groups of the rest |
| `Planner.StartGroupCovers` | main.py:225-254 | (`Covers`) read back to front, the appended groups are consecutive disjoint runs that form a prefix of L, and only a trailing run of 2 or 3 cards is dropped; the list is non-empty; the first group appended is the latest run, and it is a singleton (the last card) exactly when nothing is dropped; every other group has at least two cards |
| `Planner.SplicedMultiset` | main.py:215-216 | the spliced list plus the placeholder are the sorted hand's cards |
| `Planner.AttachShape` | main.py:220 | appending the placeholder to `goal_list[0]` puts it last in that group, after every covered card in sorted-order reading, and adds one card |
| `Planner.GoalPlanShape` | main.py:208-220 | for a hand of n >= 5 the goal is non-empty; its first group ends with the second-to-last sorted card; it holds n cards less a dropped run of 0, 2 or 3; read back to front it is a prefix of the spliced sorted hand followed by the placeholder |
| `Planner.GoalPlanCoverage` | main.py:208-220 | the goal never holds a card more often than the hand does, and holds exactly the hand when nothing is dropped |
| `Planner.BenchmarkScore` | main.py:257-264 | the sum over all groups of every member scored against its group's first and last card is never negative |
| `Planner.PlaceholderPairScoresZero` | main.py:220 | when the placeholder joins the lone last card, that group is [last, placeholder] and scores 0 |
| `Planner.GoalPlanOfSorted` | main.py:212-219 | on a hand already in value order the plan partitions the hand itself |
| `Planner.EndToEndExample` | main.py:208-264 | values 1, 1, 4, 5, 9 give the groups [9, 5] and [1, 1, 4] in that order, with benchmark 27 |
| `Planner.DroppedTailExample` | main.py:229-230 | values 0, 1, 5, 6, 6 give the single group [0, 1, 6]: the tail [5, 6] is dropped, and the benchmark is 97 |
| `Session.ToggleSelectBackground` | main.py:81-83 | `abs(counter-1)` turns 0 into 1 and 1 into 0, and leaves the card and its `flippable` flag alone |
| `Session.RemoveFirst` | main.py:187-188 | on a list holding the element, one element fewer; `list.remove` is reached only after the membership test, so the absent case (where Python would raise `ValueError`) never occurs, and the function returns the list unchanged there |
| `Session.RemoveFirstAt` | main.py:188 | `list.remove` takes out the first occurrence of the element and keeps every other element in order |
| `Session.RemoveFromDistinct` | main.py:187-190 | removing from a list without repetitions keeps it without repetitions and takes out exactly that element |
| `Session.Locked` | main.py:203-204 | locking sets `flippable` to false on exactly the cards in the selection and leaves every other card as it was |
| `Session.LockedClearsSelection` | main.py:203-205 | after locking a consistent selection and emptying it, no card is selected and every formerly selected card is unselectable |
| `Session.ScoreGroup` | main.py:199-202 | the scoring loop returns the group's score, which is never negative |
| `Session.ScoreSelection` | main.py:195-202 | padding, `sort_cards` and the scoring loop return `SelectionScore` of the selection |
| `Session.Deal` | main.py:142-143 | a fresh deck that is a permutation of the 52 pairs is built, and the hand is its first n cards, pairwise distinct and valid |
| `Session.LayOut` | main.py:145-149 | the loop lays out one card per dealt card, in hand order, each with counter 1 and `flippable` set (`NewTable`) |
| `Session.TableStaysValid` | main.py:70-73 | a freshly laid-out table has every counter in 0..1, and flipping a table keeps that |
| `Session.FlippedTwice` | main.py:161-164 | two `flipall`s restore the table exactly |
| `Session.MemorizingThenPlaying` | main.py:151-153 | after the first `flipall` no card can be selected and nothing is selected; after the timer's second `flipall` every card can be selected and nothing is selected yet |
| `Session.Game.constructor` | main.py:137-158 | a new game has points 0, an empty selection and a shuffled deck; its table is the laid-out hand after one `flipall`; its goal is `GoalPlan` of the dealt hand, `my_cards` the spliced sorted hand, and the computer points the goal's benchmark |
| `Session.Game.ShowAndPlan` | main.py:151-158 | once the hand is laid out, `flipall` leaves the table as `Flipped` of the laid-out hand with nothing selected and the selection consistent, and the goal, spliced hand and computer points follow from the dealt hand |
| `Session.Game.PlanGoal` | main.py:156-158 | with `goal_list` emptied, `calculate_goal` and `calculate_computer_points` leave `GoalPlan` of the hand, the spliced sorted hand, and the goal's benchmark |
| `Session.Game.FlipAll` | main.py:161-164 | every card's `flippable` is negated and nothing else on the table changes (`table == Flipped(old(table))`), and counters stay in 0..1 |
| `Session.Game.CardCallback` | main.py:183-190 | a non-flippable card changes nothing; a flippable one toggles its counter and its membership in `matching_list` (removed if present, appended if not); the list stays repetition-free and consistent with the counters |
| `Session.Game.FlipCards` | main.py:193-205 | points grow by the selection's score and never decrease; every selected card becomes unselectable; `matching_list` is emptied; consistency is kept |
| `Session.Game.LockSelection` | main.py:199-204 | the loop sets `flippable` to false on exactly the selected cards |
| `Session.Game.CalculateGoal` | main.py:208-220 | `goal_list` becomes `GoalPlan` of the dealt cards, and `my_cards` becomes the spliced sorted hand |
| `Session.Game.RecursiveCalculation1` | main.py:225-235 | appends exactly the groups of `StartGroup`, in their order, to `goal_list` |
| `Session.Game.RecursiveCalculation2` | main.py:240-254 | returns the members of `ContinueGroup` and appends its groups, in their order, to `goal_list` |
| `Session.Game.CalculateComputerPoints` | main.py:257-264 | the nested loops return the benchmark score of `goal_list`, which is never negative |
| `Session.Build` | main.py:278-280 | a game is built iff the card count lies in 5..52, and then it has that many cards; otherwise the result is `ValueError` |
| `Session.BuildApp` | main.py:275-280 | with the hard-coded count of 30 (`CardsOnTable`), `build` always succeeds with a 30-card game |
| `Session.LoneCardRound` | main.py:161-205 | on a memorised table the timer's `flipall` makes every card selectable; selecting card 0 gives a consistent selection [0]; locking it leaves card 0 unselectable with its card unchanged, every other card selectable, and nothing selected |
| `Session.SingleCardRound` | main.py:183-205 | after the timer's second `flipall`, selecting and flipping a lone card locks that card, leaves the others selectable and the selection empty; the points grow by the lone card's selection score (2·v^2 by `SingletonSelectionScore`); the final table is the timer's flip of the starting table, with card 0 toggled and then locked, so pressing card 0 again changes nothing |

## Left out

- The Kivy interface is not modelled: the layout string, widget trees, `ids`, `add_widget`/`clear_widgets`, button binding and the window and grid geometry computed with `sqrt`, `ceil` and a float buffer ratio.
- `Card.flip` and all `background_normal` image paths are not modelled: they only choose which image a button shows. `front_flip_counter` is never read, so it is left out too.
- `random.shuffle` is not called. Its random draws are a parameter of the deck constructor, one position in `0..51-k` per step of the swap loop.
- `Decks.Deck.constructor`: states only that the deck is a permutation of the 52 pairs, not which one the given draws produce.
- `Clock.schedule_once` is not modelled. The timer's second `flipall` is the method `FlipAll`, which the caller invokes; `SingleCardRound` does so.
- `Session.Game.constructor`: models `Game.__init__` followed by the first `start_game`. A second "New Game" press is not modelled. In the source it keeps the old `matching_list` and may leave a stale timer.
- Cards are identified by their position on the table rather than by widget identity. The value-0 filler of `flip_cards` is never on the table, so setting its `flippable` flag is not modelled.
- `sort_cards` accepts both `Card` objects and raw pairs in the source. Here there is one card type. Values are required to lie in 0..12, which every dealt card and the filler satisfy. In Python a negative value would index buckets from the end.
- `print` in `flipall`, the score label text of `point_callback` and `App.run` are output only, and are left out.
