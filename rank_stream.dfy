/**
 * The tree built by tracking a stream of integers one at a time, and what
 * `get_rank_of_number` answers about it in terms of the stream alone.
 */
module RankStream {
  import opened RankTree

  /** The tree after `track` has been called with every value of `s`, in order, from an empty tree. */
  function Build(s: seq<int>): (t: Tree)
  {
    if s == [] then Leaf else Insert(Build(s[..|s| - 1]), s[|s| - 1])
  }

  /** How many values of the stream are at most `k`. */
  function CountAtMost(s: seq<int>, k: int): (n: nat)
  {
    if s == [] then 0 else (if s[0] <= k then 1 else 0) + CountAtMost(s[1..], k)
  }

  /** Counting does not depend on the order: a value appended at the end is counted like one in front. */
  lemma {:induction false} CountAtMostAppend(s: seq<int>, v: int, k: int)
    ensures CountAtMost(s + [v], k) == CountAtMost(s, k) + (if v <= k then 1 else 0)
  {
    if s != [] {
      assert (s + [v])[1..] == s[1..] + [v];
      CountAtMostAppend(s[1..], v, k);
    }
  }

  /**
   * After any sequence of `track` calls the tree is a binary search tree
   * whose keys are the distinct tracked values, each key's count is the
   * number of times it was tracked, and the counts add up to the number of calls.
   */
  lemma {:induction false} BuildInvariant(s: seq<int>)
    ensures IsBst(Build(s)) && Positive(Build(s))
    ensures forall y :: y in Keys(Build(s)) <==> y in s
    ensures forall y :: Mult(Build(s), y) == multiset(s)[y]
    ensures Total(Build(s)) == |s|
    ensures forall k :: AtMost(Build(s), k) == CountAtMost(s, k)
  {
    if s != [] {
      var p, v := s[..|s| - 1], s[|s| - 1];
      assert s == p + [v];
      BuildInvariant(p);
      var t := Build(p);
      assert Build(s) == Insert(t, v);
      InsertKeepsBst(t, v);
      InsertKeepsPositive(t, v);
      forall y ensures y in Keys(Build(s)) <==> y in s {
        assert y in s <==> y in p || y == v;
      }
      forall y ensures Mult(Build(s), y) == multiset(s)[y] {
        assert multiset(s) == multiset(p) + multiset{v};
      }
      forall k ensures AtMost(Build(s), k) == CountAtMost(s, k) {
        CountAtMostAppend(p, v, k);
      }
    }
  }

  /**
   * The answer to a rank query after tracking `s`: -1 for a value never
   * tracked, otherwise the number of tracked values at most `k`, minus one.
   */
  lemma RankOfStream(s: seq<int>, k: int)
    ensures RankOf(Build(s), k) == if k in s then CountAtMost(s, k) - 1 else -1
    ensures k in s ==> 0 <= RankOf(Build(s), k)
  {
    BuildInvariant(s);
    RankIsAtMostMinusOne(Build(s), k);
    RankMissing(Build(s), k);
  }

  /** The stream used by the driver of the original program. */
  const Example: seq<int> := [5, 1, 4, 4, 5, 9, 7, 13, 3]

  /** The driver's queries of present values 1, 3, 4, 5 and 13. */
  lemma ExamplePresentRanks()
    ensures RankOf(Build(Example), 1) == 0
    ensures RankOf(Build(Example), 3) == 1
    ensures RankOf(Build(Example), 4) == 3
    ensures RankOf(Build(Example), 5) == 5
    ensures RankOf(Build(Example), 13) == 8
  {
    assert CountAtMost(Example, 1) == 1;
    assert CountAtMost(Example, 3) == 2;
    assert CountAtMost(Example, 4) == 4;
    assert CountAtMost(Example, 5) == 6;
    assert CountAtMost(Example, 13) == 9;
    RankOfStream(Example, 1);
    RankOfStream(Example, 3);
    RankOfStream(Example, 4);
    RankOfStream(Example, 5);
    RankOfStream(Example, 13);
  }

  /** The driver's queries of values 0, 2, 6, 10, 14 and 15, never tracked. */
  lemma ExampleAbsentRanks()
    ensures forall k :: k in [0, 2, 6, 10, 14, 15] ==> RankOf(Build(Example), k) == -1
  {
    forall k | k in [0, 2, 6, 10, 14, 15] ensures RankOf(Build(Example), k) == -1 {
      assert k !in Example;
      RankOfStream(Example, k);
    }
  }
}
