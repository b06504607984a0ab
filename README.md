# Rank from a stream

This project models `Level-3/rank_from_stream.py`, which answers rank queries on a
stream of integers. Each value of the stream is passed to `BST.track`. That method
inserts the value into a binary search tree whose nodes carry a key and a count. A
value seen before only increments its node's count. `BST.get_rank_of_number` walks
the tree in order, adds up counts, and stops at the node holding the queried key.
It returns -1 when no node holds the key.

The model has three modules:

- `RankTree` (`rank_tree.dfy`) is the value view. A `Tree` datatype stands for a
  node and its subtrees. `Insert` is what `track` does to the tree. `RankWalk` and
  `RankOf` are the early-exit walk of `get_rank_of_number`. The abstraction
  functions `Keys`, `Mult`, `Total` and `AtMost` say what the tree records. The
  lemmas state BST ordering and what the rank means.
- `RankStream` (`rank_stream.dfy`) relates the tree built from a whole stream to
  the stream itself. It covers the header's worked example.
- `RankFromStream` (`rank_from_stream.dfy`) is the heap program. `Node` and `BST`
  are classes whose methods update `left`, `right`, `count` and `root` in place.
  Each node carries a ghost footprint and a ghost `Tree` value. Every method is
  proved against the `RankTree` functions.

On the meaning of the rank, the code is followed rather than the prose. The
header's first sentence says the rank is the number of values less than or equal
to `x`, "not including x itself". The code adds every count up to and including
the node keyed `x`, then subtracts one through its starting value of -1. So the
rank of a present key is (number of tracked values `<= x`) - 1. Every other copy
of `x` is counted. `RankTree.RankIsAtMostMinusOne` states this. The header's own
example agrees: 5, 1, 4, 4, 5, 9, 7, 13, 3 gives rank 3 for 4, not 2.

## Model

| member | source | states |
|---|---|---|
| RankTree.Insert | Level-3/rank_from_stream.py:51-60 | Tracking `k` adds `k` to the key set, adds one to the total count, and adds one to the multiplicity of `k` only. It adds one to the number of values `<= b` exactly for bounds `b >= k`. |
| RankTree.InsertKeepsBst | Level-3/rank_from_stream.py:51-60 | Tracking preserves the search-tree ordering: keys are smaller on the left and larger on the right. |
| RankTree.InsertKeepsPositive | Level-3/rank_from_stream.py:51-60 | Tracking keeps every node's count at least 1. |
| RankTree.InsertPresent | Level-3/rank_from_stream.py:58-59 | In a search tree, tracking a key already present creates no node. The result is the tree with that key's count raised by one (the reference `Bump`), with the same number of nodes. |
| RankTree.InsertAbsent | Level-3/rank_from_stream.py:52-53 | Tracking a key not present fills exactly one empty position with a node keyed `k` with count 1. Every other node keeps its key, count and place, and the node count grows by one. |
| RankTree.InOrderAscending | Level-3/rank_from_stream.py:62-66 | In a search tree, the in-order traversal visits strictly ascending keys, so no key appears twice. There is one entry per node, and every entry is a key of the tree. |
| RankTree.InOrderCovers | Level-3/rank_from_stream.py:62-66 | The in-order traversal visits every key of the tree. |
| RankTree.InOrderCounts | Level-3/rank_from_stream.py:65 | In a search tree, each visited entry's count (what `traverse` prints beside the key) is the key's multiplicity, the number of times it was tracked. |
| RankTree.RankWalkShape | Level-3/rank_from_stream.py:70-78 | On any tree, the walk runs off the end exactly when `k` is not a key, and then it has added every count. With positive counts, a stopped walk has added at least one count and at most all of them. |
| RankTree.RankWalkAtMost | Level-3/rank_from_stream.py:70-82 | In a search tree, the walk from `acc` stops at `k` with `acc` plus the number of values `<= k`. If `k` is absent, it ends with `acc` plus the total. |
| RankTree.RankMissing | Level-3/rank_from_stream.py:79-82 | The answer is -1 if and only if `k` is not a key. A present key's answer is at least 0. |
| RankTree.RankIsAtMostMinusOne | Level-3/rank_from_stream.py:68-82 | In a search tree, a present key's answer is (number of recorded values `<= k`) - 1, duplicates included. An absent key's answer is -1. |
| RankTree.RankStrictlyIncreasing | Level-3/rank_from_stream.py:6-12 | For present keys `a < b`, `0 <= rank(a) < rank(b)`. |
| RankTree.TrackShiftsRank | Level-3/rank_from_stream.py:6-12 | Tracking `x` raises the rank of each present key `k >= x` by one and leaves the rank of each present key `k < x` unchanged. |
| RankStream.BuildInvariant | Level-3/rank_from_stream.py:87-88 | After tracking a stream from an empty tree, the tree is a search tree with positive counts. Its keys are exactly the distinct stream values. Each key's count is its number of occurrences. The counts add up to the stream length. The count of values `<= k` matches the stream. |
| RankStream.RankOfStream | Level-3/rank_from_stream.py:6-12 | After a stream, a query answers -1 for a value never tracked. Otherwise it answers (number of stream values `<= k`) - 1, which is at least 0. |
| RankStream.ExamplePresentRanks | Level-3/rank_from_stream.py:14-17 | For the stream 5, 1, 4, 4, 5, 9, 7, 13, 3, the ranks of 1, 3, 4 are 0, 1, 3 as in the header. The ranks of 5 and 13, which the driver also queries at line 91, are 5 and 8. |
| RankStream.ExampleAbsentRanks | Level-3/rank_from_stream.py:94-95 | For the same stream, 0, 2, 6, 10, 14 and 15 all answer -1. |
| RankFromStream.Node.constructor | Level-3/rank_from_stream.py:40-45 | A new node holds key `k`, count 1 and no children, and is a valid one-node subtree. |
| RankFromStream.Node.SetLeft | Level-3/rank_from_stream.py:55 | Assigning the left child links a valid subtree. The node stays valid, with a value and footprint built from the new child. |
| RankFromStream.Node.SetRight | Level-3/rank_from_stream.py:57 | The same for the right child. |
| RankFromStream.Node.Increment | Level-3/rank_from_stream.py:59 | The count goes up by one. Links, key and footprint are unchanged, and the node stays valid. |
| RankFromStream.ReprSize | Level-3/rank_from_stream.py:40-45 | A valid subtree owns exactly one node object per node of its value. |
| RankFromStream.ValidPositive | Level-3/rank_from_stream.py:45 | Every count in a valid heap subtree is at least 1. |
| RankFromStream.BST.constructor | Level-3/rank_from_stream.py:48-49 | A new BST has no root and has tracked nothing. |
| RankFromStream.BST.Track | Level-3/rank_from_stream.py:51-60 | The returned node's value is `Insert` of the old subtree value, and a non-empty root is returned unchanged. Old objects stay in the footprint and new ones are fresh. In a search tree, tracking a present key allocates nothing. |
| RankFromStream.BST.TrackLeft | Level-3/rank_from_stream.py:54-55 | The recursive call into the left subtree, relinked: the node's value becomes `Insert` of its old value. |
| RankFromStream.BST.TrackRight | Level-3/rank_from_stream.py:56-57 | The same for the right subtree. |
| RankFromStream.BST.TrackValue | Level-3/rank_from_stream.py:88 | One more value of the stream: `Tracked` gains `k` at the end and the tree stays valid. Every old object stays in the footprint, new ones are fresh, and a non-empty root stays the same object. A value seen before changes no object set and only bumps its node's count. A new value adds exactly one leaf. |
| RankFromStream.BST.GetRank | Level-3/rank_from_stream.py:70-78 | The inner walk returns exactly `RankWalk` of the subtree value from the running total `acc`. |
| RankFromStream.BST.GetRankOfNumber | Level-3/rank_from_stream.py:68-82 | The answer is `RankOf` the tree. It is -1 if and only if `k` is not a key. In a search tree it is (number of values `<= k`) - 1 for a present key. |
| RankFromStream.QueryTwice | Level-3/rank_from_stream.py:91-92 | Two queries with no track in between agree, and both equal the stream-level rank. |
| RankFromStream.QueryAll | Level-3/rank_from_stream.py:91-95 | The driver's query loop returns one answer per query, in order, each the rank in the current tree. |
| RankFromStream.TrackAll | Level-3/rank_from_stream.py:87-88 | The driver's tracking loop leaves a valid BST whose tracked values are the stream. |
| RankFromStream.Driver | Level-3/rank_from_stream.py:84-95 | The original program's driver produces 0, 1, 3, 5, 8 for the present values and -1 six times for the absent ones. |

## Left out

- The printing in `traverse` (lines 62-66) and in `main` (lines 89-95) is I/O and is not modelled. `traverse` survives as the ghost in-order sequence `InOrder`, and the driver returns its answers instead of printing them.
- The O(log n) complexity claim in the header is not modelled. It holds only for balanced trees, and this tree is never rebalanced.
- `get_rank_of_number` keeps its running total in the attribute `self.rank`, which is captured by the inner function and left on the object after the call. The model threads the total as a parameter of `GetRank`, so the leftover attribute is not modelled.
- `track`, `_get_rank` and `traverse` recurse once per tree level, and the tree is never rebalanced. In CPython a sorted stream of about a thousand values therefore builds a chain deep enough to hit the interpreter's default recursion limit and raise `RecursionError`. The model ignores this limit: `Track`, `TrackLeft`, `TrackRight` and `GetRank` terminate at any height.
- The source compares keys with Python's `<` and `>` on any comparable values. The model fixes keys to unbounded integers, which is what the driver uses.
- RankFromStream.BST.TrackValue: the growth of the object count by one for a new key is stated on the value (`GrowsLeaf`, with `RankTree.InsertAbsent` giving one more node), together with `RankFromStream.ReprSize` relating object count to node count. Track's postcondition itself states no set-cardinality fact.
- RankFromStream.BST.Track: `track` is one recursive method in the source. The model splits it into `Track`, `TrackLeft` and `TrackRight`, plus the node updates `SetLeft`, `SetRight` and `Increment`, but keeps the same branches and order of updates.
