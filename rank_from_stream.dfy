/**
 * The heap side of Level-3/rank_from_stream.py: `Node` objects linked through
 * `left`/`right`, updated in place by `BST.track`, and read by
 * `BST.get_rank_of_number`.  Every node carries a ghost footprint `Repr`
 * and a ghost value `Model` (a `RankTree.Tree`), and every method is proved
 * against the value functions of `RankTree`.
 */
module RankFromStream {
  import opened RankTree
  import opened RankStream

  /** The value of the subtree rooted at `n` (empty for `None`). */
  ghost function TreeOf(n: Node?): (t: Tree)
    reads n
  {
    if n == null then Leaf else n.Model
  }

  /** The objects of the subtree rooted at `n`. */
  ghost function ReprOf(n: Node?): (objs: set<object>)
    reads n
  {
    if n == null then {} else n.Repr
  }

  /** A tree node: a key, how many times it was tracked, and two exclusively owned children. */
  class Node {
    var k: int
    var count: nat
    var left: Node?
    var right: Node?

    ghost var Model: Tree
    ghost var Repr: set<object>

    /** The children are disjoint, acyclic subtrees, and `Model` is the value of this subtree. */
    ghost predicate Valid()
      reads this, Repr
      decreases Repr
    {
      && this in Repr
      && (left != null ==> left in Repr)
      && (right != null ==> right in Repr)
      && Repr == {this} + ReprOf(left) + ReprOf(right)
      && this !in ReprOf(left) && this !in ReprOf(right)
      && ReprOf(left) !! ReprOf(right)
      && (left != null ==> left.Valid())
      && (right != null ==> right.Valid())
      && 1 <= count
      && Model == Branch(TreeOf(left), k, count, TreeOf(right))
    }

    /** A fresh leaf for a key tracked for the first time: count 1, no children. */
    constructor (k: int)
      ensures Valid() && fresh(Repr)
      ensures this.k == k && count == 1 && left == null && right == null
      ensures Model == Branch(Leaf, k, 1, Leaf)
    {
      this.k := k;
      left := null;
      right := null;
      count := 1;
      Model := Branch(Leaf, k, 1, Leaf);
      Repr := {this};
    }

    /** `root.left = ...`: hangs the valid subtree `l` as the left child. */
    method SetLeft(l: Node)
      requires l.Valid() && this !in l.Repr
      requires right != null ==> right.Valid() && this !in right.Repr
      requires l.Repr !! ReprOf(right)
      requires 1 <= count
      modifies this
      ensures left == l && right == old(right) && k == old(k) && count == old(count)
      ensures Valid()
      ensures Repr == {this} + l.Repr + ReprOf(right)
      ensures Model == Branch(l.Model, k, count, TreeOf(right))
    {
      left := l;
      Repr := {this} + l.Repr + ReprOf(right);
      Model := Branch(l.Model, k, count, TreeOf(right));
    }

    /** `root.right = ...`: hangs the valid subtree `r` as the right child. */
    method SetRight(r: Node)
      requires r.Valid() && this !in r.Repr
      requires left != null ==> left.Valid() && this !in left.Repr
      requires ReprOf(left) !! r.Repr
      requires 1 <= count
      modifies this
      ensures right == r && left == old(left) && k == old(k) && count == old(count)
      ensures Valid()
      ensures Repr == {this} + ReprOf(left) + r.Repr
      ensures Model == Branch(TreeOf(left), k, count, r.Model)
    {
      right := r;
      Repr := {this} + ReprOf(left) + r.Repr;
      Model := Branch(TreeOf(left), k, count, r.Model);
    }

    /** `root.count += 1`: one more occurrence of this node's key. */
    method Increment()
      requires Valid()
      modifies this
      ensures Valid()
      ensures left == old(left) && right == old(right) && k == old(k) && count == old(count) + 1
      ensures Repr == old(Repr)
      ensures Model == old(Model).(count := old(Model).count + 1)
    {
      count := count + 1;
      Model := Model.(count := count);
    }
  }

  /** A subtree holds one node object per node of its value. */
  lemma ReprSize(n: Node?)
    requires n != null ==> n.Valid()
    ensures |ReprOf(n)| == Size(TreeOf(n))
    decreases ReprOf(n)
  {
    if n != null {
      ReprSize(n.left);
      ReprSize(n.right);
      DisjointUnionSize(n, ReprOf(n.left), ReprOf(n.right));
    }
  }

  lemma DisjointUnionSize(n: object, L: set<object>, R: set<object>)
    requires L !! R && n !in L && n !in R
    ensures |{n} + L + R| == 1 + |L| + |R|
  {
    assert L * R == {};
    assert |L + R| == |L| + |R|;
  }

  /** Every count in a valid subtree is at least 1. */
  lemma ValidPositive(n: Node?)
    requires n != null ==> n.Valid()
    ensures Positive(TreeOf(n))
    decreases ReprOf(n)
  {
    if n != null {
      ValidPositive(n.left);
      ValidPositive(n.right);
    }
  }

  /** The tree of the original program: a root reference and the values tracked so far. */
  class BST {
    var root: Node?

    ghost var Tracked: seq<int>
    ghost var Repr: set<object>

    /** The root's subtree is valid and its value is the tree built from the tracked stream. */
    ghost predicate Valid()
      reads this, Repr
    {
      && this in Repr
      && (root != null ==> root in Repr)
      && Repr == {this} + ReprOf(root)
      && this !in ReprOf(root)
      && (root != null ==> root.Valid())
      && TreeOf(root) == Build(Tracked)
    }

    /** An empty tree. */
    constructor ()
      ensures Valid() && fresh(Repr)
      ensures root == null && Tracked == []
    {
      root := null;
      Tracked := [];
      Repr := {this};
    }

    /**
     * `track`: walks down by comparison, incrementing the count of a node
     * with key `k` or hanging a fresh leaf where the walk falls off the
     * tree, and returns the (possibly new) root of the subtree.  Existing
     * nodes stay in place; the only new objects are fresh.
     */
    method Track(root: Node?, k: int) returns (r: Node)
      requires root != null ==> root.Valid()
      modifies ReprOf(root)
      decreases ReprOf(root), 1
      ensures r.Valid()
      ensures r.Model == Insert(old(TreeOf(root)), k)
      ensures root != null ==> r == root
      ensures old(ReprOf(root)) <= r.Repr && fresh(r.Repr - old(ReprOf(root)))
      ensures IsBst(old(TreeOf(root))) && k in Keys(old(TreeOf(root))) ==> r.Repr == old(ReprOf(root))
    {
      if root == null {
        r := new Node(k);
      } else if root.k > k {
        TrackLeft(root, k);
        r := root;
      } else if root.k < k {
        TrackRight(root, k);
        r := root;
      } else {
        root.Increment();
        r := root;
      }
    }

    /** `root.left = self.track(root.left, k)` for a key smaller than the node's. */
    method TrackLeft(root: Node, k: int)
      requires root.Valid() && k < root.k
      modifies root.Repr
      decreases root.Repr, 0
      ensures root.Valid()
      ensures root.Model == Insert(old(root.Model), k)
      ensures old(root.Repr) <= root.Repr && fresh(root.Repr - old(root.Repr))
      ensures IsBst(old(root.Model)) && k in Keys(old(root.Model)) ==> root.Repr == old(root.Repr)
    {
      ghost var L0, R0, tr := ReprOf(root.left), ReprOf(root.right), TreeOf(root.right);
      ghost var t0, tl := root.Model, TreeOf(root.left);
      assert Insert(t0, k) == Branch(Insert(tl, k), root.k, root.count, tr);
      ghost var present := IsBst(t0) && k in Keys(t0);
      assert present ==> IsBst(TreeOf(root.left)) && k in Keys(TreeOf(root.left)) by {
        if present { DescendLeft(t0, k); }
      }
      var l := Track(root.left, k);
      assert ReprOf(root.right) == R0 && TreeOf(root.right) == tr;
      root.SetLeft(l);
      assert root.Repr == {root} + l.Repr + R0;
      assert present ==> l.Repr == L0;
    }

    /** `root.right = self.track(root.right, k)` for a key larger than the node's. */
    method TrackRight(root: Node, k: int)
      requires root.Valid() && root.k < k
      modifies root.Repr
      decreases root.Repr, 0
      ensures root.Valid()
      ensures root.Model == Insert(old(root.Model), k)
      ensures old(root.Repr) <= root.Repr && fresh(root.Repr - old(root.Repr))
      ensures IsBst(old(root.Model)) && k in Keys(old(root.Model)) ==> root.Repr == old(root.Repr)
    {
      ghost var L0, R0, tl := ReprOf(root.left), ReprOf(root.right), TreeOf(root.left);
      ghost var t0, tr := root.Model, TreeOf(root.right);
      assert Insert(t0, k) == Branch(tl, root.k, root.count, Insert(tr, k));
      ghost var present := IsBst(t0) && k in Keys(t0);
      assert present ==> IsBst(TreeOf(root.right)) && k in Keys(TreeOf(root.right)) by {
        if present { DescendRight(t0, k); }
      }
      var r := Track(root.right, k);
      assert ReprOf(root.left) == L0 && TreeOf(root.left) == tl;
      root.SetRight(r);
      assert root.Repr == {root} + L0 + r.Repr;
      assert present ==> r.Repr == R0;
    }

    /**
     * The caller's `bst.root = bst.track(bst.root, k)`: one more value of the
     * stream.  A value tracked before creates no node; a new value creates
     * exactly one.
     */
    method TrackValue(k: int)
      requires Valid()
      modifies Repr
      ensures Valid() && old(Repr) <= Repr && fresh(Repr - old(Repr))
      ensures old(root) != null ==> root == old(root)
      ensures Tracked == old(Tracked) + [k]
      ensures k in old(Tracked) ==> Repr == old(Repr) && TreeOf(root) == Bump(old(TreeOf(root)), k)
      ensures k !in old(Tracked) ==> GrowsLeaf(old(TreeOf(root)), TreeOf(root), k)
    {
      ghost var t0 := TreeOf(root);
      var r := Track(root, k);
      assert old(Repr) <= {this} + r.Repr;
      root := r;
      Tracked := Tracked + [k];
      Repr := {this} + r.Repr;
      assert Tracked[..|Tracked| - 1] == old(Tracked);
      assert IsBst(t0) && (k in old(Tracked) <==> k in Keys(t0)) by { BuildInvariant(old(Tracked)); }
      assert k in old(Tracked) ==> Insert(t0, k) == Bump(t0, k) by {
        if k in old(Tracked) { InsertPresent(t0, k); }
      }
      assert k !in old(Tracked) ==> GrowsLeaf(t0, Insert(t0, k), k) by {
        if k !in old(Tracked) { InsertAbsent(t0, k); }
      }
    }

    /**
     * `_get_rank`: the in-order walk from running total `acc`.  Each visited
     * node's count is added before its key is compared; the walk stops at the
     * first node keyed `k`, and after a hit in the left subtree does nothing more.
     */
    method GetRank(n: Node?, k: int, acc: int) returns (w: WalkResult)
      requires n != null ==> n.Valid()
      decreases ReprOf(n)
      ensures w == RankWalk(TreeOf(n), k, acc)
    {
      if n == null {
        return NotFound(acc);
      }
      var status := GetRank(n.left, k, acc);
      if status.Found? {
        return status;
      }
      var rank := status.sum + n.count;
      if n.k == k {
        return Found(rank);
      }
      w := GetRank(n.right, k, rank);
    }

    /**
     * `get_rank_of_number`: the walk started from -1; -1 when no node has key
     * `k`, otherwise (values at most `k`) - 1 in a binary search tree.
     */
    method GetRankOfNumber(root: Node?, k: int) returns (rank: int)
      requires root != null ==> root.Valid()
      ensures rank == RankOf(TreeOf(root), k)
      ensures rank == -1 <==> k !in Keys(TreeOf(root))
      ensures IsBst(TreeOf(root)) ==>
                rank == if k in Keys(TreeOf(root)) then AtMost(TreeOf(root), k) - 1 else -1
    {
      var w := GetRank(root, k, -1);
      match w {
        case Found(r) => rank := r;
        case NotFound(_) => rank := -1;
      }
      ValidPositive(root);
      RankMissing(TreeOf(root), k);
      if IsBst(TreeOf(root)) {
        RankIsAtMostMinusOne(TreeOf(root), k);
      }
    }
  }

  /**
   * A rank query changes nothing, so asking twice with no `track` in
   * between gives the same answer, the stream-level rank.
   */
  method QueryTwice(bst: BST, k: int) returns (first: int, second: int)
    requires bst.Valid()
    ensures first == second
    ensures first == if k in bst.Tracked then CountAtMost(bst.Tracked, k) - 1 else -1
  {
    first := bst.GetRankOfNumber(bst.root, k);
    second := bst.GetRankOfNumber(bst.root, k);
    RankOfStream(bst.Tracked, k);
  }

  /** The driver's `for r in [...]: bst.get_rank_of_number(bst.root, r)`, answers collected in order. */
  method QueryAll(bst: BST, queries: seq<int>) returns (answers: seq<int>)
    requires bst.Valid()
    ensures |answers| == |queries|
    ensures forall m :: 0 <= m < |queries| ==> answers[m] == RankOf(TreeOf(bst.root), queries[m])
  {
    answers := [];
    for j := 0 to |queries|
      invariant |answers| == j
      invariant forall m :: 0 <= m < j ==> answers[m] == RankOf(TreeOf(bst.root), queries[m])
    {
      var r := bst.GetRankOfNumber(bst.root, queries[j]);
      answers := answers + [r];
    }
  }

  /** The driver's `for i in [...]: bst.root = bst.track(bst.root, i)` on a fresh tree. */
  method TrackAll(stream: seq<int>) returns (bst: BST)
    ensures bst.Valid() && fresh(bst.Repr)
    ensures bst.Tracked == stream
  {
    bst := new BST();
    for i := 0 to |stream|
      invariant bst.Valid() && fresh(bst.Repr)
      invariant bst.Tracked == stream[..i]
    {
      bst.TrackValue(stream[i]);
    }
  }

  /**
   * The original program's driver: track 5, 1, 4, 4, 5, 9, 7, 13, 3, then
   * query the present values 1, 3, 4, 5, 13 and the absent values
   * 0, 2, 6, 10, 14, 15; the answers are returned instead of printed.
   */
  method Driver() returns (present: seq<int>, absent: seq<int>)
    ensures present == [0, 1, 3, 5, 8]
    ensures absent == [-1, -1, -1, -1, -1, -1]
  {
    var bst := TrackAll(Example);
    present := QueryAll(bst, [1, 3, 4, 5, 13]);
    absent := QueryAll(bst, [0, 2, 6, 10, 14, 15]);
    ExamplePresentRanks();
    ExampleAbsentRanks();
  }
}
