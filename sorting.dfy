/** The stable counting sort by value: 13 buckets filled in input order, then concatenated. */
module Sorting {
  import opened Cards

  /** The cards of `s` whose value is `v`, in their order in `s`. */
  function Filter(s: seq<Card>, v: int): (r: seq<Card>)
    ensures |r| <= |s|
  {
    if s == [] then []
    else Filter(s[..|s| - 1], v) + (if s[|s| - 1].value == v then [s[|s| - 1]] else [])
  }

  /** The cards of `s` whose value lies in 0..b-1, in their order in `s`. */
  function Below(s: seq<Card>, b: int): seq<Card>
  {
    if s == [] then []
    else Below(s[..|s| - 1], b) + (if 0 <= s[|s| - 1].value < b then [s[|s| - 1]] else [])
  }

  /** Buckets 0..b-1 concatenated in order. */
  function Gather(s: seq<Card>, b: nat): seq<Card>
  {
    if b == 0 then [] else Gather(s, b - 1) + Filter(s, b - 1)
  }

  /** What the counting sort returns: all 13 buckets, concatenated. */
  function SortedByValue(s: seq<Card>): seq<Card>
  {
    Gather(s, NumValues)
  }

  predicate SortedValues(s: seq<Card>) {
    forall i, j :: 0 <= i < j < |s| ==> s[i].value <= s[j].value
  }

  lemma {:induction false} FilterConcat(a: seq<Card>, b: seq<Card>, v: int)
    ensures Filter(a + b, v) == Filter(a, v) + Filter(b, v)
    decreases |b|
  {
    if b == [] {
      assert a + b == a;
    } else {
      assert (a + b)[..|a + b| - 1] == a + b[..|b| - 1];
      FilterConcat(a, b[..|b| - 1], v);
    }
  }

  lemma {:induction false} FilterMembers(s: seq<Card>, v: int)
    ensures forall c :: c in Filter(s, v) <==> c in s && c.value == v
  {
    if s != [] {
      FilterMembers(s[..|s| - 1], v);
      assert s == s[..|s| - 1] + [s[|s| - 1]];
    }
  }

  lemma {:induction false} FilterFilter(s: seq<Card>, w: int, v: int)
    ensures Filter(Filter(s, w), v) == if v == w then Filter(s, w) else []
  {
    if s != [] {
      var init, last := s[..|s| - 1], s[|s| - 1];
      FilterFilter(init, w, v);
      FilterConcat(Filter(init, w), if last.value == w then [last] else [], v);
    }
  }

  lemma {:induction false} FilterOutOfRange(s: seq<Card>, v: int)
    requires ValidValues(s) && !(0 <= v < NumValues)
    ensures Filter(s, v) == []
  {
    if s != [] {
      FilterOutOfRange(s[..|s| - 1], v);
    }
  }

  lemma {:induction false} BelowStep(s: seq<Card>, b: nat)
    ensures multiset(Below(s, b + 1)) == multiset(Below(s, b)) + multiset(Filter(s, b))
  {
    if s != [] {
      BelowStep(s[..|s| - 1], b);
    }
  }

  lemma {:induction false} BelowAll(s: seq<Card>)
    requires ValidValues(s)
    ensures Below(s, NumValues) == s
  {
    if s != [] {
      BelowAll(s[..|s| - 1]);
      assert s == s[..|s| - 1] + [s[|s| - 1]];
    }
  }

  lemma {:induction false} BelowNone(s: seq<Card>)
    ensures Below(s, 0) == []
  {
    if s != [] {
      BelowNone(s[..|s| - 1]);
    }
  }

  lemma {:induction false} FilterValues(s: seq<Card>, v: int)
    ensures forall i :: 0 <= i < |Filter(s, v)| ==> Filter(s, v)[i].value == v
  {
    if s != [] {
      FilterValues(s[..|s| - 1], v);
    }
  }

  lemma {:induction false} GatherRange(s: seq<Card>, b: nat)
    ensures forall i :: 0 <= i < |Gather(s, b)| ==> 0 <= Gather(s, b)[i].value < b
  {
    if b > 0 {
      GatherRange(s, b - 1);
      FilterValues(s, b - 1);
      var g: seq<Card>, f: seq<Card> := Gather(s, b - 1), Filter(s, b - 1);
      assert Gather(s, b) == g + f;
      forall i | 0 <= i < |g + f| ensures 0 <= (g + f)[i].value < b {
        if i < |g| {
          assert (g + f)[i] == g[i];
        } else {
          assert (g + f)[i] == f[i - |g|];
        }
      }
    }
  }

  /** Buckets 0..b-1 concatenated are in value order. */
  lemma {:induction false} GatherSorted(s: seq<Card>, b: nat)
    ensures SortedValues(Gather(s, b))
  {
    if b > 0 {
      GatherSorted(s, b - 1);
      GatherSortedInduct(s, b);
    }
  }

  /** One more bucket keeps the gathered prefix sorted. */
  lemma GatherSortedInduct(s: seq<Card>, b: nat)
    requires b > 0
    requires SortedValues(Gather(s, b - 1))
    ensures SortedValues(Gather(s, b))
  {
    GatherRange(s, b - 1);
    FilterValues(s, b - 1);
    SortedAppendBucket(Gather(s, b - 1), Filter(s, b - 1), b - 1);
    assert Gather(s, b) == Gather(s, b - 1) + Filter(s, b - 1);
  }

  /** A sorted run of values below `w`, followed by a run of value `w`, is sorted. */
  lemma SortedAppendBucket(g: seq<Card>, f: seq<Card>, w: int)
    requires SortedValues(g)
    requires forall i :: 0 <= i < |g| ==> 0 <= g[i].value < w
    requires forall i :: 0 <= i < |f| ==> f[i].value == w
    ensures SortedValues(g + f)
  {
    forall i, j | 0 <= i < j < |g + f| ensures (g + f)[i].value <= (g + f)[j].value {
      if j < |g| {
        assert (g + f)[i] == g[i] && (g + f)[j] == g[j];
      } else if i < |g| {
        assert (g + f)[i] == g[i] && (g + f)[j] == f[j - |g|];
      } else {
        assert (g + f)[i] == f[i - |g|] && (g + f)[j] == f[j - |g|];
      }
    }
  }

  /** Buckets 0..b-1 concatenated hold exactly the cards of value below b. */
  lemma {:induction false} GatherMultiset(s: seq<Card>, b: nat)
    ensures multiset(Gather(s, b)) == multiset(Below(s, b))
  {
    if b == 0 {
      BelowNone(s);
    } else {
      var b' := b - 1;
      GatherMultiset(s, b');
      BelowStep(s, b');
      assert b' + 1 == b;
      var g, f := Gather(s, b'), Filter(s, b');
      assert Gather(s, b) == g + f;
      assert multiset(g + f) == multiset(g) + multiset(f);
    }
  }

  /** Appending the bucket of value w adds those cards to the cards of value w, and nothing else. */
  lemma FilterAppendBucket(g: seq<Card>, s: seq<Card>, w: int, v: int)
    ensures Filter(g + Filter(s, w), v) == Filter(g, v) + (if v == w then Filter(s, v) else [])
  {
    FilterConcat(g, Filter(s, w), v);
    FilterFilter(s, w, v);
  }

  /** Adding bucket b-1 adds the cards of value b-1 to the cards of that value, and nothing else. */
  lemma GatherFilterStep(s: seq<Card>, b: nat, v: int)
    requires b > 0
    ensures Filter(Gather(s, b), v) ==
            Filter(Gather(s, b - 1), v) + (if v == b - 1 then Filter(s, v) else [])
  {
    assert Gather(s, b) == Gather(s, b - 1) + Filter(s, b - 1);
    FilterAppendBucket(Gather(s, b - 1), s, b - 1, v);
  }

  /** Buckets 0..b-1 concatenated keep the input order among the cards of each value. */
  lemma {:induction false} GatherFilter(s: seq<Card>, b: nat, v: int)
    ensures Filter(Gather(s, b), v) == if 0 <= v < b then Filter(s, v) else []
  {
    if b == 0 {
      GatherFilterBase(s, v);
    } else {
      GatherFilter(s, b - 1, v);
      GatherFilterInduct(s, b, v);
    }
  }

  lemma GatherFilterBase(s: seq<Card>, v: int)
    ensures Filter(Gather(s, 0), v) == if 0 <= v < 0 then Filter(s, v) else []
  {
    assert Gather(s, 0) == [];
  }

  /** One more bucket keeps the bucket-`v` view of the gathered prefix right. */
  lemma GatherFilterInduct(s: seq<Card>, b: nat, v: int)
    requires b > 0
    requires Filter(Gather(s, b - 1), v) == if 0 <= v < b - 1 then Filter(s, v) else []
    ensures Filter(Gather(s, b), v) == if 0 <= v < b then Filter(s, v) else []
  {
    GatherFilterStep(s, b, v);
    BucketStep(Filter(Gather(s, b - 1), v), Filter(Gather(s, b), v), Filter(s, v), v, b);
  }

  lemma BucketStep(prev: seq<Card>, next: seq<Card>, bucket: seq<Card>, v: int, b: int)
    requires b > 0
    requires prev == (if 0 <= v < b - 1 then bucket else [])
    requires next == prev + (if v == b - 1 then bucket else [])
    ensures next == if 0 <= v < b then bucket else []
  {
    if v == b - 1 {
      assert next == [] + bucket;
    } else {
      assert next == prev + [];
    }
  }

  lemma SortedByValueCorrect(s: seq<Card>)
    requires ValidValues(s)
    ensures SortedValues(SortedByValue(s))
    ensures multiset(SortedByValue(s)) == multiset(s) && |SortedByValue(s)| == |s|
    ensures forall v :: Filter(SortedByValue(s), v) == Filter(s, v)
  {
    GatherSorted(s, NumValues);
    GatherMultiset(s, NumValues);
    BelowAll(s);
    assert |multiset(SortedByValue(s))| == |multiset(s)|;
    forall v ensures Filter(SortedByValue(s), v) == Filter(s, v) {
      GatherFilter(s, NumValues, v);
      if !(0 <= v < NumValues) {
        FilterOutOfRange(s, v);
      }
    }
  }

  lemma MemberNotAboveLast(s: seq<Card>, c: Card)
    requires SortedValues(s) && c in s
    ensures c.value <= s[|s| - 1].value
  {
    var k :| 0 <= k < |s| && s[k] == c;
    if k < |s| - 1 {
      assert s[k].value <= s[|s| - 1].value;
    }
  }

  lemma SortedPrefix(s: seq<Card>, n: nat)
    requires SortedValues(s) && n <= |s|
    ensures SortedValues(s[..n])
  {
    forall i, j | 0 <= i < j < n ensures s[..n][i].value <= s[..n][j].value {
      assert s[..n][i] == s[i] && s[..n][j] == s[j];
    }
  }

  /** Two sorted sequences that agree on the cards of each value end with the same value. */
  lemma LastValuesAgree(s: seq<Card>, t: seq<Card>)
    requires SortedValues(s) && SortedValues(t) && s != [] && t != []
    requires forall v :: Filter(s, v) == Filter(t, v)
    ensures s[|s| - 1].value == t[|t| - 1].value
  {
    var a, b := s[|s| - 1], t[|t| - 1];
    FilterMembers(s, b.value);
    FilterMembers(t, b.value);
    assert b in Filter(t, b.value);
    MemberNotAboveLast(s, b);
    FilterMembers(s, a.value);
    FilterMembers(t, a.value);
    assert a in Filter(s, a.value);
    MemberNotAboveLast(t, a);
  }

  lemma FilterWithoutLast(s: seq<Card>, v: int)
    requires s != []
    ensures Filter(s[..|s| - 1], v) ==
            if s[|s| - 1].value == v then Filter(s, v)[..|Filter(s, v)| - 1] else Filter(s, v)
  {
  }

  lemma LastHasFilter(s: seq<Card>)
    requires s != []
    ensures Filter(s, s[|s| - 1].value) != []
  {
  }

  /** Two nonempty sorted sequences that agree on the cards of each value end with the same
      card, and agree on the cards of each value once that card is dropped. */
  lemma DropLastAgree(s: seq<Card>, t: seq<Card>, s': seq<Card>, t': seq<Card>)
    requires SortedValues(s) && SortedValues(t) && s != [] && t != []
    requires s' == s[..|s| - 1] && t' == t[..|t| - 1]
    requires forall v :: Filter(s, v) == Filter(t, v)
    ensures s[|s| - 1] == t[|t| - 1]
    ensures forall v :: Filter(s', v) == Filter(t', v)
  {
    LastValuesAgree(s, t);
    var a, b := s[|s| - 1], t[|t| - 1];
    var fs, ft := Filter(s, a.value), Filter(t, a.value);
    assert fs == Filter(s', a.value) + [a];
    assert ft == Filter(t', a.value) + [b];
    assert fs == ft;
    assert fs[|fs| - 1] == a && ft[|ft| - 1] == b;
    forall v ensures Filter(s', v) == Filter(t', v) {
      FilterWithoutLast(s, v);
      FilterWithoutLast(t, v);
    }
  }

  /** A sorted, stable arrangement is unique: two sorted sequences that agree on the
      order of the cards of each value are equal. */
  lemma {:induction false} SortedStableUnique(s: seq<Card>, t: seq<Card>)
    requires SortedValues(s) && SortedValues(t)
    requires forall v :: Filter(s, v) == Filter(t, v)
    ensures s == t
    decreases |s| + |t|
  {
    if s == [] && t != [] {
      LastHasFilter(t);
      assert false;
    } else if s != [] && t == [] {
      LastHasFilter(s);
      assert false;
    } else if s != [] {
      var s', t' := s[..|s| - 1], t[..|t| - 1];
      DropLastAgree(s, t, s', t');
      SortedPrefix(s, |s| - 1);
      SortedPrefix(t, |t| - 1);
      SortedStableUnique(s', t');
      assert s == s' + [s[|s| - 1]] && t == t' + [t[|t| - 1]];
    }
  }

  /** Sorting an input already in value order returns it unchanged. */
  lemma SortedIsFixedPoint(s: seq<Card>)
    requires ValidValues(s) && SortedValues(s)
    ensures SortedByValue(s) == s
  {
    SortedByValueCorrect(s);
    SortedStableUnique(SortedByValue(s), s);
  }

  lemma FilterPair(a: Card, b: Card, v: int)
    ensures Filter([a, b], v) == (if a.value == v then [a] else []) + (if b.value == v then [b] else [])
  {
    assert [a, b][..1] == [a];
    assert [a][..0] == [];
  }

  /** The only sorted arrangement of two cards out of value order, with the cards of each
      value as in the pair, is the swapped pair. */
  lemma PairArrangement(s: seq<Card>, r: seq<Card>)
    requires |s| == 2 && s[0].value > s[1].value
    requires SortedValues(r) && forall v :: Filter(r, v) == Filter(s, v)
    ensures r == [s[1], s[0]]
  {
    var t := [s[1], s[0]];
    assert s == [s[0], s[1]];
    forall v ensures Filter(r, v) == Filter(t, v) {
      FilterPair(s[0], s[1], v);
      FilterPair(s[1], s[0], v);
    }
    SortedStableUnique(r, t);
  }

  /** Two cards out of value order are swapped by the sort. */
  lemma SortedPairSwap(s: seq<Card>)
    requires |s| == 2 && ValidValues(s) && s[0].value > s[1].value
    ensures SortedByValue(s) == [s[1], s[0]]
  {
    SortedByValueCorrect(s);
    PairArrangement(s, SortedByValue(s));
  }

  /** The first loop of `sort_cards`: bucket v collects the cards of value v in input order. */
  method FillBuckets(cardList: seq<Card>) returns (countList: seq<seq<Card>>)
    requires ValidValues(cardList)
    ensures |countList| == NumValues
    ensures forall v :: 0 <= v < NumValues ==> countList[v] == Filter(cardList, v)
  {
    countList := seq(NumValues, _ => []);
    for k := 0 to |cardList|
      invariant |countList| == NumValues
      invariant forall v :: 0 <= v < NumValues ==> countList[v] == Filter(cardList[..k], v)
    {
      var x := cardList[k];
      assert cardList[..k + 1][..k] == cardList[..k];
      countList := countList[x.value := countList[x.value] + [x]];
    }
    assert cardList[..|cardList|] == cardList;
  }

  /** The inner loop of `sort_cards`'s second phase: append a bucket's cards one at a time. */
  method AppendAll(returnList: seq<Card>, bucket: seq<Card>) returns (r: seq<Card>)
    ensures |r| == |returnList| + |bucket|
    ensures r[..|returnList|] == returnList && r[|returnList|..] == bucket
  {
    r := returnList;
    for j := 0 to |bucket|
      invariant r == returnList + bucket[..j]
    {
      assert bucket[..j + 1] == bucket[..j] + [bucket[j]];
      r := r + [bucket[j]];
    }
    assert bucket[..|bucket|] == bucket;
  }

  /** `sort_cards`: append each card to the bucket of its value, then concatenate the buckets. */
  method SortCards(cardList: seq<Card>) returns (returnList: seq<Card>)
    requires ValidValues(cardList)
    ensures returnList == SortedByValue(cardList)
    ensures SortedValues(returnList) && multiset(returnList) == multiset(cardList)
    ensures forall v :: Filter(returnList, v) == Filter(cardList, v)
  {
    var countList := FillBuckets(cardList);
    returnList := [];
    for b := 0 to NumValues
      invariant returnList == Gather(cardList, b)
    {
      assert Gather(cardList, b + 1) == Gather(cardList, b) + countList[b];
      returnList := AppendAll(returnList, countList[b]);
    }
    assert returnList == SortedByValue(cardList);
    SortedByValueCorrect(cardList);
  }
}
