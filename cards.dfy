/** Playing cards as the game engine sees them: a suit and a value, both small integers. */
module Cards {

  const NumSuits := 4
  const NumValues := 13

  /** A `[suit, value]` pair of the deck, and the identity of a card on the table. */
  datatype Card = Card(suit: int, value: int)

  predicate ValidCard(c: Card) {
    0 <= c.suit < NumSuits && 0 <= c.value < NumValues
  }

  /** Every value lies in 0..12, so it can index one of the 13 buckets of the counting sort. */
  predicate ValidValues(s: seq<Card>) {
    forall k :: 0 <= k < |s| ==> 0 <= s[k].value < NumValues
  }

  predicate Distinct<T(==)>(s: seq<T>) {
    forall i, j :: 0 <= i < j < |s| ==> s[i] != s[j]
  }

  /** A sequence without repetitions holds each element at most once. */
  lemma {:induction false} DistinctCountsAtMostOne<T>(s: seq<T>, x: T)
    requires Distinct(s)
    ensures multiset(s)[x] <= 1
  {
    if s != [] {
      assert s == [s[0]] + s[1..];
      assert Distinct(s[1..]) by {
        forall i, j | 0 <= i < j < |s[1..]| ensures s[1..][i] != s[1..][j] {
          assert s[1..][i] == s[i + 1] && s[1..][j] == s[j + 1];
        }
      }
      DistinctCountsAtMostOne(s[1..], x);
      if s[0] == x {
        assert x !in s[1..] by {
          forall k | 0 <= k < |s[1..]| ensures s[1..][k] != x {
            assert s[1..][k] == s[k + 1];
          }
        }
      }
    }
  }

  /** Rearranging a sequence without repetitions cannot create one. */
  lemma MultisetKeepsDistinct<T>(a: seq<T>, b: seq<T>)
    requires multiset(a) == multiset(b) && Distinct(b)
    ensures Distinct(a)
  {
    forall i, j | 0 <= i < j < |a| ensures a[i] != a[j] {
      if a[i] == a[j] {
        var x := a[i];
        assert a == a[..j] + a[j..];
        assert x in a[..j] && x in a[j..];
        assert multiset(a)[x] == multiset(a[..j])[x] + multiset(a[j..])[x];
        DistinctCountsAtMostOne(b, x);
        assert false;
      }
    }
  }
}
