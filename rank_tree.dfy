/**
 * The value view of the order-statistics tree kept by `BST` in
 * Level-3/rank_from_stream.py: a binary search tree whose nodes carry a key
 * and a multiplicity.  `Insert` is what `track` does to the tree,
 * `RankWalk` is the early-exit in-order walk of `get_rank_of_number`, and
 * the lemmas below state what both mean for the multiset of tracked values.
 */
module RankTree {

  /** A subtree: empty, or a node with a key, its multiplicity and two children. */
  datatype Tree = Leaf | Branch(left: Tree, key: int, count: nat, right: Tree)

  /**
   * Result of the rank walk: either the key has not been met yet and `sum`
   * is the running total, or the walk stopped at the key with total `rank`.
   */
  datatype WalkResult = NotFound(sum: int) | Found(rank: int)

  /** The keys held by the nodes of `t`. */
  function Keys(t: Tree): (keys: set<int>)
  {
    match t
    case Leaf => {}
    case Branch(l, x, _, r) => Keys(l) + {x} + Keys(r)
  }

  /** The number of nodes of `t`. */
  function Size(t: Tree): (nodes: nat)
  {
    match t
    case Leaf => 0
    case Branch(l, _, _, r) => Size(l) + 1 + Size(r)
  }

  /** How many times value `y` is recorded in `t` (summed over all nodes keyed `y`). */
  function Mult(t: Tree, y: int): (times: nat)
  {
    match t
    case Leaf => 0
    case Branch(l, x, c, r) => Mult(l, y) + (if x == y then c else 0) + Mult(r, y)
  }

  /** How many values are recorded in `t` in all: the sum of all counts. */
  function Total(t: Tree): (sum: nat)
  {
    match t
    case Leaf => 0
    case Branch(l, _, c, r) => Total(l) + c + Total(r)
  }

  /** How many recorded values are at most `k`. */
  function AtMost(t: Tree, k: int): (n: nat)
  {
    match t
    case Leaf => 0
    case Branch(l, x, c, r) => AtMost(l, k) + (if x <= k then c else 0) + AtMost(r, k)
  }

  /** Binary-search-tree ordering: smaller keys to the left, larger keys to the right. */
  ghost predicate IsBst(t: Tree)
  {
    match t
    case Leaf => true
    case Branch(l, x, _, r) =>
      && IsBst(l) && IsBst(r)
      && (forall y :: y in Keys(l) ==> y < x)
      && (forall y :: y in Keys(r) ==> x < y)
  }

  /** Every node records its key at least once. */
  ghost predicate Positive(t: Tree)
  {
    match t
    case Leaf => true
    case Branch(l, _, c, r) => Positive(l) && 1 <= c && Positive(r)
  }

  /** The (key, count) pairs in the order the in-order traversal visits them. */
  ghost function InOrder(t: Tree): (visits: seq<(int, nat)>)
  {
    match t
    case Leaf => []
    case Branch(l, x, c, r) => InOrder(l) + [(x, c)] + InOrder(r)
  }

  ghost predicate Ascending(s: seq<(int, nat)>)
  {
    forall i, j :: 0 <= i < j < |s| ==> s[i].0 < s[j].0
  }

  /**
   * `track`: descend by comparison; a key already present has its count
   * incremented, a new key becomes a leaf with count 1.
   */
  function Insert(t: Tree, k: int): (u: Tree)
    ensures Keys(u) == Keys(t) + {k}
    ensures Total(u) == Total(t) + 1
    ensures forall y :: Mult(u, y) == Mult(t, y) + (if y == k then 1 else 0)
    ensures forall b :: AtMost(u, b) == AtMost(t, b) + (if k <= b then 1 else 0)
  {
    match t
    case Leaf => Branch(Leaf, k, 1, Leaf)
    case Branch(l, x, c, r) =>
      if x > k then Branch(Insert(l, k), x, c, r)
      else if x < k then Branch(l, x, c, Insert(r, k))
      else Branch(l, x, c + 1, r)
  }

  /** Independent reference: `t` with the count of every node keyed `k` raised by one. */
  function Bump(t: Tree, k: int): (u: Tree)
  {
    match t
    case Leaf => Leaf
    case Branch(l, x, c, r) => Branch(Bump(l, k), x, if x == k then c + 1 else c, Bump(r, k))
  }

  /**
   * `u` is `t` with exactly one empty position replaced by the leaf node
   * `Branch(Leaf, k, 1, Leaf)`; every other node keeps its key, count and place.
   */
  ghost predicate GrowsLeaf(t: Tree, u: Tree, k: int)
  {
    match t
    case Leaf => u == Branch(Leaf, k, 1, Leaf)
    case Branch(l, x, c, r) =>
      && u.Branch? && u.key == x && u.count == c
      && ((GrowsLeaf(l, u.left, k) && u.right == r) || (u.left == l && GrowsLeaf(r, u.right, k)))
  }

  /**
   * `_get_rank`: in-order walk adding each visited node's count to the
   * running sum before comparing its key; it stops at the first node keyed
   * `k`, skipping that node's right subtree and everything after it.
   */
  function RankWalk(t: Tree, k: int, acc: int): (w: WalkResult)
  {
    match t
    case Leaf => NotFound(acc)
    case Branch(l, x, c, r) =>
      match RankWalk(l, k, acc)
      case Found(rank) => Found(rank)
      case NotFound(sum) =>
        if x == k then Found(sum + c) else RankWalk(r, k, sum + c)
  }

  /** `get_rank_of_number`: the walk started from -1, with -1 when the key is not met. */
  function RankOf(t: Tree, k: int): (rank: int)
  {
    match RankWalk(t, k, -1)
    case Found(rank) => rank
    case NotFound(_) => -1
  }

  // ---------------------------------------------------------------------
  // Helpers about the abstraction functions

  lemma {:induction false} AtMostAll(t: Tree, k: int)
    requires forall y :: y in Keys(t) ==> y <= k
    ensures AtMost(t, k) == Total(t)
  {
    match t
    case Leaf =>
    case Branch(l, x, c, r) =>
      assert x in Keys(t);
      assert forall y :: y in Keys(l) || y in Keys(r) ==> y in Keys(t);
      AtMostAll(l, k);
      AtMostAll(r, k);
  }

  lemma {:induction false} AtMostNone(t: Tree, k: int)
    requires forall y :: y in Keys(t) ==> k < y
    ensures AtMost(t, k) == 0
  {
    match t
    case Leaf =>
    case Branch(l, x, c, r) =>
      assert x in Keys(t);
      assert forall y :: y in Keys(l) || y in Keys(r) ==> y in Keys(t);
      AtMostNone(l, k);
      AtMostNone(r, k);
  }

  /** Between two bounds a < b, the count of any node keyed b is gained. */
  lemma {:induction false} AtMostGains(t: Tree, a: int, b: int)
    requires a < b
    ensures AtMost(t, a) + Mult(t, b) <= AtMost(t, b)
  {
    match t
    case Leaf =>
    case Branch(l, x, c, r) =>
      AtMostGains(l, a, b);
      AtMostGains(r, a, b);
  }

  /** A recorded key has positive multiplicity. */
  lemma {:induction false} MultPositive(t: Tree, y: int)
    requires Positive(t) && y in Keys(t)
    ensures 1 <= Mult(t, y)
  {
    match t
    case Branch(l, x, c, r) =>
      if y in Keys(l) { MultPositive(l, y); }
      else if y in Keys(r) { MultPositive(r, y); }
  }

  // ---------------------------------------------------------------------
  // track

  /** `track` keeps the binary-search-tree ordering. */
  lemma {:induction false} InsertKeepsBst(t: Tree, k: int)
    requires IsBst(t)
    ensures IsBst(Insert(t, k))
  {
    match t
    case Leaf =>
    case Branch(l, x, c, r) =>
      if x > k { InsertKeepsBst(l, k); }
      else if x < k { InsertKeepsBst(r, k); }
  }

  /** A key smaller than the root's that is in a search tree is in its left subtree. */
  lemma DescendLeft(t: Tree, k: int)
    requires IsBst(t) && t.Branch? && k < t.key && k in Keys(t)
    ensures IsBst(t.left) && k in Keys(t.left)
  {
  }

  /** A key larger than the root's that is in a search tree is in its right subtree. */
  lemma DescendRight(t: Tree, k: int)
    requires IsBst(t) && t.Branch? && t.key < k && k in Keys(t)
    ensures IsBst(t.right) && k in Keys(t.right)
  {
  }

  /** `track` keeps every count at least 1. */
  lemma {:induction false} InsertKeepsPositive(t: Tree, k: int)
    requires Positive(t)
    ensures Positive(Insert(t, k))
  {
    match t
    case Leaf =>
    case Branch(l, x, c, r) =>
      if x > k { InsertKeepsPositive(l, k); }
      else if x < k { InsertKeepsPositive(r, k); }
  }

  /**
   * Tracking a key already present creates no node: the tree keeps its
   * shape, keys and counts except that the node keyed `k` counts one more.
   */
  lemma {:induction false} InsertPresent(t: Tree, k: int)
    requires IsBst(t) && k in Keys(t)
    ensures Insert(t, k) == Bump(t, k)
    ensures Size(Insert(t, k)) == Size(t)
  {
    match t
    case Branch(l, x, c, r) =>
      if x > k {
        InsertPresent(l, k);
        BumpAbsent(r, k);
      } else if x < k {
        InsertPresent(r, k);
        BumpAbsent(l, k);
      } else {
        BumpAbsent(l, k);
        BumpAbsent(r, k);
      }
  }

  lemma {:induction false} BumpAbsent(t: Tree, k: int)
    requires k !in Keys(t)
    ensures Bump(t, k) == t
  {
    match t
    case Leaf =>
    case Branch(l, x, c, r) =>
      BumpAbsent(l, k);
      BumpAbsent(r, k);
  }

  /**
   * Tracking a new key adds exactly one leaf node, keyed `k` with count 1;
   * all other nodes keep their keys, counts and places.
   */
  lemma {:induction false} InsertAbsent(t: Tree, k: int)
    requires k !in Keys(t)
    ensures GrowsLeaf(t, Insert(t, k), k)
    ensures Size(Insert(t, k)) == Size(t) + 1
  {
    match t
    case Leaf =>
    case Branch(l, x, c, r) =>
      if x > k { InsertAbsent(l, k); }
      else { InsertAbsent(r, k); }
  }

  // ---------------------------------------------------------------------
  // traverse

  /** A value that is no key of `t` is recorded zero times. */
  lemma {:induction false} MultAbsent(t: Tree, y: int)
    requires y !in Keys(t)
    ensures Mult(t, y) == 0
  {
    match t
    case Leaf =>
    case Branch(l, x, c, r) =>
      MultAbsent(l, y);
      MultAbsent(r, y);
  }

  /** In a binary search tree the in-order walk lists keys in ascending order, one entry per node, and nothing else. */
  lemma {:induction false} InOrderAscending(t: Tree)
    requires IsBst(t)
    ensures Ascending(InOrder(t))
    ensures |InOrder(t)| == Size(t)
    ensures forall i :: 0 <= i < |InOrder(t)| ==> InOrder(t)[i].0 in Keys(t)
  {
    match t
    case Leaf =>
    case Branch(l, x, c, r) =>
      InOrderAscending(l);
      InOrderAscending(r);
      var a, b := InOrder(l), InOrder(r);
      var s := a + [(x, c)] + b;
      assert InOrder(t) == s;
      forall i | 0 <= i < |s| ensures s[i].0 in Keys(t) && (i < |a| ==> s[i].0 < x) && (|a| < i ==> x < s[i].0)
      {
        if i < |a| { assert s[i] == a[i]; }
        else if |a| < i { assert s[i] == b[i - |a| - 1]; }
      }
      forall i, j | 0 <= i < j < |s| ensures s[i].0 < s[j].0
      {
        if j < |a| { assert s[i] == a[i] && s[j] == a[j]; }
        else if |a| < i { assert s[i] == b[i - |a| - 1] && s[j] == b[j - |a| - 1]; }
      }
  }

  /** The in-order walk visits every key of the tree. */
  lemma {:induction false} InOrderCovers(t: Tree)
    ensures forall y :: y in Keys(t) ==> exists i :: 0 <= i < |InOrder(t)| && InOrder(t)[i].0 == y
  {
    match t
    case Leaf =>
    case Branch(l, x, c, r) =>
      InOrderCovers(l);
      InOrderCovers(r);
      var a, b := InOrder(l), InOrder(r);
      var s := a + [(x, c)] + b;
      assert InOrder(t) == s;
      forall y | y in Keys(t) ensures exists i :: 0 <= i < |s| && s[i].0 == y
      {
        if y in Keys(l) {
          var i :| 0 <= i < |a| && a[i].0 == y;
          assert s[i] == a[i];
        } else if y == x {
          assert s[|a|] == (x, c);
        } else {
          assert y in Keys(r);
          var j :| 0 <= j < |b| && b[j].0 == y;
          assert s[|a| + 1 + j] == b[j];
        }
      }
  }

  /** Each entry the in-order walk visits (what `traverse` prints) carries its key's multiplicity. */
  lemma {:induction false} InOrderCounts(t: Tree)
    requires IsBst(t)
    ensures forall i :: 0 <= i < |InOrder(t)| ==> InOrder(t)[i].1 == Mult(t, InOrder(t)[i].0)
  {
    match t
    case Leaf =>
    case Branch(l, x, c, r) =>
      InOrderAscending(l);
      InOrderAscending(r);
      InOrderCounts(l);
      InOrderCounts(r);
      var a, b := InOrder(l), InOrder(r);
      var s := a + [(x, c)] + b;
      assert InOrder(t) == s;
      forall i | 0 <= i < |s| ensures s[i].1 == Mult(t, s[i].0)
      {
        if i < |a| {
          assert s[i] == a[i] && a[i].0 in Keys(l);
          MultAbsent(r, a[i].0);
        } else if i == |a| {
          MultAbsent(l, x);
          MultAbsent(r, x);
        } else {
          assert s[i] == b[i - |a| - 1] && b[i - |a| - 1].0 in Keys(r);
          MultAbsent(l, s[i].0);
        }
      }
  }

  // ---------------------------------------------------------------------
  // get_rank_of_number

  /**
   * On any tree: the walk runs to completion exactly when `k` is not a key,
   * and then it has added every count; on positive counts a stopped walk has
   * added at least one count and no more than all of them.
   */
  lemma {:induction false} RankWalkShape(t: Tree, k: int, acc: int)
    ensures RankWalk(t, k, acc).NotFound? <==> k !in Keys(t)
    ensures RankWalk(t, k, acc).NotFound? ==> RankWalk(t, k, acc).sum == acc + Total(t)
    ensures Positive(t) && RankWalk(t, k, acc).Found? ==>
              acc < RankWalk(t, k, acc).rank <= acc + Total(t)
  {
    match t
    case Leaf =>
    case Branch(l, x, c, r) =>
      RankWalkShape(l, k, acc);
      match RankWalk(l, k, acc)
      case Found(_) =>
      case NotFound(sum) =>
        RankWalkShape(r, k, sum + c);
  }

  /**
   * In a binary search tree the walk started at `acc` stops at `k` with
   * `acc` plus the number of recorded values at most `k`.
   */
  lemma {:induction false} RankWalkAtMost(t: Tree, k: int, acc: int)
    requires IsBst(t)
    ensures RankWalk(t, k, acc) ==
              if k in Keys(t) then Found(acc + AtMost(t, k)) else NotFound(acc + Total(t))
  {
    match t
    case Leaf =>
    case Branch(l, x, c, r) =>
      RankWalkShape(l, k, acc);
      if k < x {
        RankWalkAtMost(l, k, acc);
        AtMostNone(r, k);
        if k !in Keys(l) {
          RankWalkShape(r, k, acc + Total(l) + c);
        }
      } else if k == x {
        AtMostAll(l, k);
        AtMostNone(r, k);
      } else {
        AtMostAll(l, k);
        RankWalkAtMost(r, k, acc + Total(l) + c);
      }
  }

  /** The rank is -1 exactly for keys that are not in the tree. */
  lemma RankMissing(t: Tree, k: int)
    requires Positive(t)
    ensures RankOf(t, k) == -1 <==> k !in Keys(t)
    ensures k in Keys(t) ==> 0 <= RankOf(t, k)
  {
    RankWalkShape(t, k, -1);
  }

  /** For a present key the rank is (values at most `k`) - 1: duplicates of `k` are included. */
  lemma RankIsAtMostMinusOne(t: Tree, k: int)
    requires IsBst(t)
    ensures RankOf(t, k) == if k in Keys(t) then AtMost(t, k) - 1 else -1
  {
    RankWalkAtMost(t, k, -1);
  }

  /** Present keys a < b have ranks rank(a) < rank(b). */
  lemma RankStrictlyIncreasing(t: Tree, a: int, b: int)
    requires IsBst(t) && Positive(t)
    requires a in Keys(t) && b in Keys(t) && a < b
    ensures 0 <= RankOf(t, a) < RankOf(t, b)
  {
    RankIsAtMostMinusOne(t, a);
    RankIsAtMostMinusOne(t, b);
    AtMostGains(t, a, b);
    MultPositive(t, b);
    MultPositive(t, a);
    AtMostGains(t, a - 1, a);
  }

  /**
   * Tracking `x` moves the rank of every present key `k >= x` up by one and
   * leaves the rank of every present key `k < x` alone.
   */
  lemma TrackShiftsRank(t: Tree, x: int, k: int)
    requires IsBst(t) && k in Keys(t)
    ensures RankOf(Insert(t, x), k) == RankOf(t, k) + (if x <= k then 1 else 0)
  {
    InsertKeepsBst(t, x);
    RankIsAtMostMinusOne(t, k);
    RankIsAtMostMinusOne(Insert(t, x), k);
  }
}
