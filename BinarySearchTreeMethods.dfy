/** Algorithms over a binary search tree: its maximum, the values in a closed
    range (by a pruned descent, and by walking in-order successors), the
    in-order successor of a node, and the node an ordered descent stops at. */
module BinarySearchTreeMethods {
  import opened Sequences
  import opened InorderSpec
  import opened Trees
  import opened TreeFacts

  /** What evaluating an expression that reads a node's value yields: the
      value, or the failure of reading through a null reference. */
  datatype Outcome = Returned(value: int) | NullDereference

  /** Reading the value of a possibly null node. */
  function Dereference(n: BinarySearchTree?): Outcome {
    if n == null then NullDereference else Returned(n.data)
  }

  /** The maximum search as it is written: it follows right links and, at the
      node without a right child, reads the value of that missing child. */
  function FindMaxAsWritten(t: BinarySearchTree): (o: Outcome)
    reads t, t.Repr
    requires t.Valid()
    decreases t.Repr
    ensures o == NullDereference
  {
    if t.right == null then Dereference(t.right) else FindMaxAsWritten(t.right)
  }

  /** The maximum search as intended: the value of the rightmost node, which
      is the last in-order value and the largest value of the tree. */
  function FindMax(t: BinarySearchTree): (m: int)
    reads t, t.Repr
    requires t.Valid()
    decreases t.Repr
    ensures m == t.Contents[|t.Contents| - 1]
    ensures m in t.Contents && forall v :: v in t.Contents ==> v <= m
  {
    if t.right == null then
      LastIsMax(ContentsOf(t.left), t.data, []);
      t.data
    else
      var m := FindMax(t.right);
      LastIsMax(ContentsOf(t.left), t.data, t.right.Contents);
      m
  }

  /** The values of `t` within [min, max], by the pruned descent. */
  method FindElementsBetween(t: BinarySearchTree?, min: int, max: int) returns (vals: set<int>)
    requires t != null ==> t.Valid()
    ensures vals == InRange(ContentsOf(t), min, max)
  {
    vals := FindElementsBetweenHelper(t, min, max, {});
  }

  /** Adds to `vals` the values of `t` within [min, max]. A node below `min`
      has nothing in range on its left, and a node above `max` has nothing in
      range on its right, so those sides are not visited. */
  method FindElementsBetweenHelper(t: BinarySearchTree?, min: int, max: int, vals: set<int>)
    returns (result: set<int>)
    requires t != null ==> t.Valid()
    ensures result == vals + InRange(ContentsOf(t), min, max)
    decreases ReprOf(t)
  {
    result := vals;
    if t != null {
      PruningIsSafe(t, min, max);
      var curr := t.data;
      if curr < min {
        result := FindElementsBetweenHelper(t.right, min, max, result);
      }
      if curr > max {
        result := FindElementsBetweenHelper(t.left, min, max, result);
      }
      if curr >= min && curr <= max {
        result := result + {curr};
        result := FindElementsBetweenHelper(t.left, min, max, result);
        result := FindElementsBetweenHelper(t.right, min, max, result);
      }
    }
  }

  /** The values of a tree within [min, max] are those of its two subtrees
      and its own value when in range; a subtree on the far side of a node
      below `min` or above `max` has none. */
  lemma PruningIsSafe(t: BinarySearchTree, min: int, max: int)
    requires t.Valid()
    ensures InRange(t.Contents, min, max)
         == InRange(ContentsOf(t.left), min, max) + (if min <= t.data <= max then {t.data} else {})
            + InRange(ContentsOf(t.right), min, max)
    ensures t.data < min ==> InRange(ContentsOf(t.left), min, max) == {}
    ensures max < t.data ==> InRange(ContentsOf(t.right), min, max) == {}
  {
    InRangeConcat(ContentsOf(t.left) + [t.data], ContentsOf(t.right), min, max);
    InRangeConcat(ContentsOf(t.left), [t.data], min, max);
    if t.data < min {
      InRangeBelow(ContentsOf(t.left), t.data, min, max);
    }
    if max < t.data {
      InRangeAbove(ContentsOf(t.right), t.data, min, max);
    }
  }

  /** The node after `t` in the in-order walk of the tree whose root is
      `root`: the leftmost node of the right subtree when there is one,
      otherwise the first ancestor reached from its left child, or null when
      `t` is the last node. */
  method InorderSuccessor(t: BinarySearchTree, ghost root: BinarySearchTree) returns (r: BinarySearchTree?)
    requires root.Valid() && root.IsRoot() && t in root.Repr
    ensures Follows(root.Nodes(), t, r)
  {
    SubtreeValid(root, t);
    if t.right != null {
      var next := LeftmostOf(t.right);
      SuccessorBelow(root, t, next);
      r := next;
    } else {
      r := ClimbToLeftParent(t, root);
    }
  }

  /** Follows left links from `n` to the node without a left child: the first
      node of `n`'s in-order walk. */
  method LeftmostOf(n: BinarySearchTree) returns (r: BinarySearchTree)
    requires n.Valid()
    ensures r in n.Repr && r.left == null && r == n.Nodes()[0]
  {
    r := n;
    while r.left != null
      invariant r.Valid() && r in n.Repr && r.Repr <= n.Repr
      invariant r.Nodes()[0] == n.Nodes()[0]
      decreases r.Repr
    {
      LeftmostStep(r);
      r := r.left;
    }
    LeftmostFirst(r);
  }

  /** Climbs parent links from `t`, which has no right child, while the node
      reached is a right child; returns the parent of the node where the
      climb stops. */
  method ClimbToLeftParent(t: BinarySearchTree, ghost root: BinarySearchTree) returns (r: BinarySearchTree?)
    requires root.Valid() && root.IsRoot() && t in root.Repr && t.right == null
    ensures Follows(root.Nodes(), t, r)
    ensures r != null ==> r.left != null && t in r.left.Repr
  {
    SubtreeValid(root, t);
    LastOfLeaf(t);
    var next: BinarySearchTree := t;
    var parent := next.parent;
    while parent != null && parent.left != next
      invariant EndsAt(root, next, t)
      invariant parent == next.parent
      decreases root.Repr - next.Repr
    {
      ClimbStep(root, t, next);
      next := parent;
      parent := next.parent;
    }
    if parent == null {
      SuccessorAboveNone(root, t, next);
    } else {
      SuccessorAboveParent(root, t, next);
    }
    r := parent;
  }

  /** `n` is a node of the tree whose root is `root`, and `t` is the last
      node of `n`'s walk. */
  ghost predicate EndsAt(root: BinarySearchTree, n: BinarySearchTree, t: BinarySearchTree)
    reads root, root.Repr
  {
    n in root.Repr && n.Repr <= root.Repr && n.Valid() && t in n.Repr && Last(n.Nodes()) == t
  }

  /** Going left keeps the first node of the walk. */
  lemma LeftmostStep(n: BinarySearchTree)
    requires n.Valid() && n.left != null
    ensures n.left.Valid() && n.left.Repr < n.Repr && n.left.Nodes()[0] == n.Nodes()[0]
  {
    FirstAround(n.left.Nodes(), n, if n.right == null then [] else n.right.Nodes());
  }

  /** A node without a left child comes first in its own walk. */
  lemma LeftmostFirst(r: BinarySearchTree)
    requires r.Valid() && r.left == null
    ensures r.Nodes()[0] == r
  {
    FirstAround([], r, if r.right == null then [] else r.right.Nodes());
  }

  /** The first node of the right subtree follows `t`. */
  lemma SuccessorBelow(root: BinarySearchTree, t: BinarySearchTree, r: BinarySearchTree)
    requires root.Valid() && t in root.Repr && t.Valid() && t.right != null
    requires r == t.right.Nodes()[0]
    ensures Follows(root.Nodes(), t, r)
  {
    var before := if t.left == null then [] else t.left.Nodes();
    NeighboursAround(before, t, if t.right == null then [] else t.right.Nodes());
    FollowsInside(root, t, |before|, t, r);
  }

  /** A node without a right child is the last of its own walk. */
  lemma LastOfLeaf(t: BinarySearchTree)
    requires t.Valid() && t.right == null
    ensures Last(t.Nodes()) == t
  {
    var before := if t.left == null then [] else t.left.Nodes();
    assert t.Nodes() == before + [t] + [];
    LastAround(before, t, []);
  }

  /** Climbing from a right child: the parent's walk ends where the child's
      does. */
  lemma ClimbStep(root: BinarySearchTree, t: BinarySearchTree, next: BinarySearchTree)
    requires root.Valid() && root.IsRoot() && next in root.Repr && next.Valid()
    requires next.parent != null && next.parent.left != next
    requires Last(next.Nodes()) == t && t in next.Repr
    ensures next.parent in root.Repr && next.parent.Valid() && next.Repr < next.parent.Repr <= root.Repr
    ensures Last(next.parent.Nodes()) == t && t in next.parent.Repr
  {
    ParentLink(root, next);
    LastOfRightChild(next.parent, next);
  }

  /** A right child's walk ends where its parent's does. */
  lemma LastOfRightChild(p: BinarySearchTree, c: BinarySearchTree)
    requires p.Valid() && p.right == c
    ensures Last(p.Nodes()) == Last(c.Nodes())
  {
    LastAround(if p.left == null then [] else p.left.Nodes(), p, if p.right == null then [] else p.right.Nodes());
  }

  /** Where the climb stops at the root, nothing follows `t`: `t` ends the
      whole walk. */
  lemma SuccessorAboveNone(root: BinarySearchTree, t: BinarySearchTree, next: BinarySearchTree)
    requires root.Valid() && root.IsRoot() && next in root.Repr && next.Valid() && next.parent == null
    requires Last(next.Nodes()) == t
    ensures Follows(root.Nodes(), t, null)
  {
    OnlyRootIsRoot(root, next);
    FollowsLast(root, t);
  }

  /** Where the climb stops at a left child, its parent follows `t`: `t` ends
      the walk of that parent's left subtree. */
  lemma SuccessorAboveParent(root: BinarySearchTree, t: BinarySearchTree, next: BinarySearchTree)
    requires root.Valid() && root.IsRoot() && next in root.Repr && next.Valid()
    requires next.parent != null && next.parent.left == next
    requires Last(next.Nodes()) == t
    ensures Follows(root.Nodes(), t, next.parent)
  {
    ParentLink(root, next);
    var p := next.parent;
    NeighboursAround(if p.left == null then [] else p.left.Nodes(), p, if p.right == null then [] else p.right.Nodes());
    FollowsInside(root, p, |next.Nodes()| - 1, t, p);
  }

  /** The node where the ordered descent for `x` stops: one holding `x`, or
      one without a child on the side where `x` would be. */
  function FindNextSmallest(t: BinarySearchTree, x: int): (r: BinarySearchTree)
    reads t, t.Repr
    requires t.Valid()
    decreases t.Repr
    ensures r in t.Repr
    ensures r.data == x || (r.data < x && r.right == null) || (x < r.data && r.left == null)
    ensures x in t.Contents ==> r.data == x
  {
    if t.data == x then t
    else if t.data < x && t.right != null then
      assert x !in ContentsOf(t.left) by { NotInBelow(ContentsOf(t.left), t.data, x); }
      FindNextSmallest(t.right, x)
    else if t.data > x && t.left != null then
      assert x !in ContentsOf(t.right) by { NotInAtLeast(ContentsOf(t.right), t.data, x); }
      FindNextSmallest(t.left, x)
    else
      assert x !in t.Contents by {
        if t.data < x {
          NotInBelow(ContentsOf(t.left), t.data, x);
        } else {
          NotInAtLeast(ContentsOf(t.right), t.data, x);
        }
      }
      t
  }

  /** The node `FindNextSmallest` stops at sits, in the in-order walk, where
      the values stop being below `x`: every value before it is below `x`
      and every value after it is at least `x`. */
  lemma {:induction false} NextSmallestPosition(t: BinarySearchTree, x: int) returns (k: nat)
    requires t.Valid()
    ensures k < |t.Nodes()| && t.Nodes()[k] == FindNextSmallest(t, x)
    ensures SplitsAt(t.Contents, k, x)
    decreases t.Repr, 1
  {
    if t.data == x || (t.data < x && t.right == null) || (t.data > x && t.left == null) {
      k := NextSmallestHere(t, x);
    } else if t.data < x {
      k := NextSmallestOnRight(t, x);
    } else {
      k := NextSmallestOnLeft(t, x);
    }
  }

  /** `NextSmallestPosition` when the descent stops at `t` itself. */
  lemma NextSmallestHere(t: BinarySearchTree, x: int) returns (k: nat)
    requires t.Valid()
    requires t.data == x || (t.data < x && t.right == null) || (t.data > x && t.left == null)
    ensures k < |t.Nodes()| && t.Nodes()[k] == FindNextSmallest(t, x)
    ensures SplitsAt(t.Contents, k, x)
  {
    var a := if t.left == null then [] else t.left.Nodes();
    var b := if t.right == null then [] else t.right.Nodes();
    NeighboursAround(a, t, b);
    if t.left != null {
      NodesHoldContents(t.left);
    }
    k := |a|;
    SplitsAtMiddle(ContentsOf(t.left), t.data, ContentsOf(t.right), x);
  }

  /** `NextSmallestPosition` when the descent continues to the right. */
  lemma {:induction false} NextSmallestOnRight(t: BinarySearchTree, x: int) returns (k: nat)
    requires t.Valid() && t.data < x && t.right != null
    ensures k < |t.Nodes()| && t.Nodes()[k] == FindNextSmallest(t, x)
    ensures SplitsAt(t.Contents, k, x)
    decreases t.Repr, 0
  {
    var a := if t.left == null then [] else t.left.Nodes();
    var j := NextSmallestPosition(t.right, x);
    IndexRight(a, t, if t.right == null then [] else t.right.Nodes(), j);
    if t.left != null {
      NodesHoldContents(t.left);
    }
    k := |a| + 1 + j;
    SplitsOnRight(ContentsOf(t.left), t.data, t.right.Contents, x, j);
  }

  /** `NextSmallestPosition` when the descent continues to the left. */
  lemma {:induction false} NextSmallestOnLeft(t: BinarySearchTree, x: int) returns (k: nat)
    requires t.Valid() && x < t.data && t.left != null
    ensures k < |t.Nodes()| && t.Nodes()[k] == FindNextSmallest(t, x)
    ensures SplitsAt(t.Contents, k, x)
    decreases t.Repr, 0
  {
    k := NextSmallestPosition(t.left, x);
    IndexLeft(if t.left == null then [] else t.left.Nodes(), t, if t.right == null then [] else t.right.Nodes(), k);
    SplitsOnLeft(t.left.Contents, t.data, ContentsOf(t.right), x, k);
  }

  /** The values within [min, max], by starting at the node the descent for
      `min` stops at and walking in-order successors until a value exceeds
      `max`. The walk runs over the whole tree whose root is `root`; from
      wherever the descent stops, the walk collects exactly the values in
      range at and after that node, and from the root, all of them. */
  method FindElementsBetweenFast(t: BinarySearchTree, min: int, max: int, ghost root: BinarySearchTree)
    returns (vals: set<int>)
    requires root.Valid() && root.IsRoot() && t in root.Repr
    ensures t.Valid()
    ensures forall k :: 0 <= k < |root.Nodes()| && root.Nodes()[k] == FindNextSmallest(t, min) ==>
              vals == InRange(Values(root.Nodes()[k..]), min, max)
    ensures t == root ==> vals == InRange(root.Contents, min, max)
  {
    SubtreeValid(root, t);
    ghost var k0 := WalkStart(root, t, min);
    var next := FindNextSmallest(t, min);
    ghost var k;
    vals, k := CollectWhileAtMost(next, min, max, root, root.Nodes(), k0);
    WalkEnd(root, k0, k, min, max);
  }

  /** The loop of `FindElementsBetweenFast`: from position `k0` of the walk
      `ns` over the tree, follow in-order successors while the value is at
      most `max`, collecting the values in range. It stops at position `k`,
      either at the end of the walk or at the first node whose value exceeds
      `max`, and has collected the values in range between `k0` and `k`. */
  method CollectWhileAtMost(first: BinarySearchTree?, min: int, max: int,
                            ghost root: BinarySearchTree, ghost ns: seq<BinarySearchTree>, ghost k0: int)
    returns (vals: set<int>, ghost k: int)
    requires WalkOver(root, ns)
    requires 0 <= k0 <= |ns| && first == if k0 < |ns| then ns[k0] else null
    ensures k0 <= k <= |ns| && (k < |ns| ==> max < ns[k].data)
    ensures AllAtMost(Values(ns)[k0..k], max)
    ensures vals == InRange(Values(ns)[k0..k], min, max)
  {
    ghost var vs := Values(ns);
    vals := {};
    var next := first;
    k := k0;
    while next != null && next.data <= max
      invariant k0 <= k <= |ns|
      invariant next == if k < |ns| then ns[k] else null
      invariant AllAtMost(vs[k0..k], max)
      invariant vals == InRange(vs[k0..k], min, max)
      decreases |ns| - k
    {
      CollectStep(ns, k0, k, min, max, vals);
      AtMostExtend(vs, k0, k, max);
      if next.data >= min && next.data <= max {
        vals := vals + {next.data};
      }
      next := Advance(next, root, ns, k);
      k := k + 1;
    }
  }

  /** One more node visited: the values in range grow by its value exactly
      when that value is in range. */
  lemma CollectStep(ns: seq<BinarySearchTree>, k0: int, k: int, min: int, max: int, vals: set<int>)
    requires 0 <= k0 <= k < |ns| && vals == InRange(Values(ns)[k0..k], min, max)
    ensures InRange(Values(ns)[k0..k + 1], min, max)
      == if min <= ns[k].data <= max then vals + {ns[k].data} else vals
  {
    InRangeExtend(Values(ns), k0, k, min, max);
  }

  /** `ns` is the in-order walk of the whole tree whose root is `root`. */
  ghost predicate WalkOver(root: BinarySearchTree, ns: seq<BinarySearchTree>)
    reads root, root.Repr
  {
    root.Valid() && root.IsRoot() && ns == root.Nodes()
  }

  /** The successor step of the walk, in terms of positions: the in-order
      successor of the node at position `k` is the node at `k + 1`, or null
      after the last node. */
  method Advance(next: BinarySearchTree, ghost root: BinarySearchTree, ghost ns: seq<BinarySearchTree>, ghost k: int)
    returns (r: BinarySearchTree?)
    requires WalkOver(root, ns) && 0 <= k < |ns| && next == ns[k]
    ensures r == if k + 1 < |ns| then ns[k + 1] else null
  {
    WalkOn(root, k);
    r := InorderSuccessor(next, root);
    FollowsAt(ns, k, r);
  }

  /** Where the walk starts: the position in the whole walk of the node the
      descent for `min` stops at. Starting from the root, the values split
      there around `min`. */
  lemma WalkStart(root: BinarySearchTree, t: BinarySearchTree, min: int) returns (k0: nat)
    requires root.Valid() && t in root.Repr && t.Valid()
    ensures k0 < |root.Nodes()| && root.Nodes()[k0] == FindNextSmallest(t, min)
    ensures t == root ==> SplitsAt(root.Contents, k0, min)
  {
    var o := Subtree(root, t);
    var j := NextSmallestPosition(t, min);
    OccursIndex(t.Nodes(), root.Nodes(), o, j);
    k0 := o + j;
  }

  /** Each node the walk visits belongs to the tree. */
  lemma WalkOn(root: BinarySearchTree, k: int)
    requires root.Valid() && 0 <= k < |root.Nodes()|
    ensures root.Nodes()[k] in root.Repr
  {
    NodesAreRepr(root);
    assert root.Nodes()[k] in Elements(root.Nodes());
  }

  /** Where the walk stops, it has collected everything in range from its
      start on; from the root's own start, everything in range. */
  lemma WalkEnd(root: BinarySearchTree, k0: int, k: int, min: int, max: int)
    requires root.Valid() && 0 <= k0 < |root.Nodes()| && k0 <= k <= |root.Nodes()|
    requires k < |root.Nodes()| ==> max < root.Nodes()[k].data
    ensures forall j :: 0 <= j < |root.Nodes()| && root.Nodes()[j] == root.Nodes()[k0] ==>
              InRange(Values(root.Nodes())[k0..k], min, max) == InRange(Values(root.Nodes()[j..]), min, max)
    ensures SplitsAt(root.Contents, k0, min) ==>
              InRange(Values(root.Nodes())[k0..k], min, max) == InRange(root.Contents, min, max)
  {
    var ns := root.Nodes();
    NodesHoldContents(root);
    InorderSorted(root);
    NodesDistinct(root);
    ValuesFrom(ns, k0);
    WalkedInRange(Values(ns), k0, k, min, max);
  }

  /** A sorted walk that stops at a value above `max` has seen every value in
      range from its start on; started after only values below `min`, every
      value in range. */
  lemma WalkedInRange(cs: seq<int>, k0: int, k: int, min: int, max: int)
    requires Sorted(cs) && 0 <= k0 < |cs| && k0 <= k <= |cs| && (k < |cs| ==> max < cs[k])
    ensures InRange(cs[k0..k], min, max) == InRange(cs[k0..], min, max)
    ensures SplitsAt(cs, k0, min) ==> InRange(cs[k0..k], min, max) == InRange(cs, min, max)
  {
    InRangeStop(cs, k0, k, min, max);
    if SplitsAt(cs, k0, min) {
      InRangeSkip(cs, k0, min, max);
    }
  }
}
