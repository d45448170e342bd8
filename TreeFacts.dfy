/** Facts about the shape of a valid tree: its in-order walk of nodes, the
    subtrees inside it and the parent links that lead back to its root. */
module TreeFacts {
  import opened InorderSpec
  import opened Trees
  import opened Sequences

  /** The in-order walk of a valid tree is sorted. */
  lemma {:induction false} InorderSorted(t: BinarySearchTree)
    requires t.Valid()
    ensures Sorted(t.Contents)
    decreases t.Repr
  {
    if t.left != null {
      InorderSorted(t.left);
    }
    if t.right != null {
      InorderSorted(t.right);
    }
    SortedAround(ContentsOf(t.left), t.data, ContentsOf(t.right));
  }

  /** The values the nodes `ns` hold, in the same order. */
  ghost function Values(ns: seq<BinarySearchTree>): (vs: seq<int>)
    ensures |vs| == |ns| && forall i :: 0 <= i < |ns| ==> vs[i] == ns[i].data
  {
    seq(|ns|, i requires 0 <= i < |ns| => ns[i].data)
  }

  /** The values of a concatenation of walks are the concatenated values. */
  lemma ValuesAround(a: seq<BinarySearchTree>, t: BinarySearchTree, b: seq<BinarySearchTree>)
    ensures Values(a + [t] + b) == Values(a) + [t.data] + Values(b)
  {
  }

  /** The values of a suffix of the walk are the suffix of its values. */
  lemma ValuesFrom(ns: seq<BinarySearchTree>, k: int)
    requires 0 <= k <= |ns|
    ensures Values(ns[k..]) == Values(ns)[k..]
  {
  }

  /** Reading the nodes' values in order gives the tree's in-order values. */
  lemma {:induction false} NodesHoldContents(t: BinarySearchTree)
    requires t.Valid()
    ensures Values(t.Nodes()) == t.Contents
    decreases t.Repr
  {
    var a := if t.left == null then [] else t.left.Nodes();
    var b := if t.right == null then [] else t.right.Nodes();
    if t.left != null {
      NodesHoldContents(t.left);
    }
    if t.right != null {
      NodesHoldContents(t.right);
    }
    assert t.Nodes() == a + [t] + b;
    ValuesAround(a, t, b);
  }

  /** The in-order walk visits exactly the nodes of the tree. */
  lemma {:induction false} NodesAreRepr(t: BinarySearchTree)
    requires t.Valid()
    ensures Elements(t.Nodes()) == t.Repr
    decreases t.Repr
  {
    var a := if t.left == null then [] else t.left.Nodes();
    var b := if t.right == null then [] else t.right.Nodes();
    if t.left != null {
      NodesAreRepr(t.left);
    }
    if t.right != null {
      NodesAreRepr(t.right);
    }
    assert t.Nodes() == a + [t] + b;
    ElementsAround(a, t, b);
  }

  /** No node occurs twice in the in-order walk. */
  lemma {:induction false} NodesDistinct(t: BinarySearchTree)
    requires t.Valid()
    ensures Distinct(t.Nodes())
    decreases t.Repr
  {
    var a := if t.left == null then [] else t.left.Nodes();
    var b := if t.right == null then [] else t.right.Nodes();
    if t.left != null {
      NodesDistinct(t.left);
      NodesAreRepr(t.left);
    }
    if t.right != null {
      NodesDistinct(t.right);
      NodesAreRepr(t.right);
    }
    ElementsAround(a, t, b);
    assert Elements(a) == ReprOf(t.left) && Elements(b) == ReprOf(t.right);
    DistinctAround(a, t, b);
    assert t.Nodes() == a + [t] + b;
  }

  /** Every node of a valid tree roots a valid subtree inside it. */
  lemma {:induction false} SubtreeValid(t: BinarySearchTree, m: BinarySearchTree)
    requires t.Valid() && m in t.Repr
    ensures m.Valid() && m.Repr <= t.Repr
    decreases t.Repr
  {
    if m != t {
      if m in ReprOf(t.left) {
        SubtreeValid(t.left, m);
      } else {
        SubtreeValid(t.right, m);
      }
    }
  }

  /** The in-order walk of the subtree rooted at a node of a valid tree is a
      contiguous piece of the whole walk, starting at position `o`. */
  lemma {:induction false} Subtree(t: BinarySearchTree, m: BinarySearchTree) returns (o: nat)
    requires t.Valid() && m in t.Repr && m.Valid()
    ensures OccursAt(m.Nodes(), t.Nodes(), o)
    decreases t.Repr, 1
  {
    if m == t {
      o := 0;
    } else if m in ReprOf(t.left) {
      o := SubtreeOnLeft(t, m);
    } else {
      o := SubtreeOnRight(t, m);
    }
  }

  /** `Subtree` for a node of the left subtree. */
  lemma {:induction false} SubtreeOnLeft(t: BinarySearchTree, m: BinarySearchTree) returns (o: nat)
    requires t.Valid() && m in ReprOf(t.left) && m.Valid()
    ensures OccursAt(m.Nodes(), t.Nodes(), o)
    decreases t.Repr, 0
  {
    o := Subtree(t.left, m);
    OccursBefore(m.Nodes(), t.left.Nodes(), o, t, if t.right == null then [] else t.right.Nodes());
  }

  /** `Subtree` for a node of the right subtree. */
  lemma {:induction false} SubtreeOnRight(t: BinarySearchTree, m: BinarySearchTree) returns (o: nat)
    requires t.Valid() && m in ReprOf(t.right) && m.Valid()
    ensures OccursAt(m.Nodes(), t.Nodes(), o)
    decreases t.Repr, 0
  {
    var p := Subtree(t.right, m);
    var a := if t.left == null then [] else t.left.Nodes();
    OccursAfter(m.Nodes(), t.right.Nodes(), p, a, t);
    o := |a| + 1 + p;
  }

  /** Each node other than the root hangs from a parent in the same tree, as
      that parent's left or right child, and the parent's subtree strictly
      contains the node's. */
  lemma {:induction false} ParentLink(t: BinarySearchTree, m: BinarySearchTree)
    requires t.Valid() && m in t.Repr && m != t
    ensures m.parent != null && m.parent in t.Repr && m.parent.Valid()
    ensures m.parent.left == m || m.parent.right == m
    ensures m.Valid() && m.Repr < m.parent.Repr <= t.Repr
    decreases t.Repr
  {
    if m in ReprOf(t.left) {
      if m != t.left {
        ParentLink(t.left, m);
      }
    } else {
      if m != t.right {
        ParentLink(t.right, m);
      }
    }
  }

  /** In a tree known by its root, the root is the only node without a parent. */
  lemma OnlyRootIsRoot(root: BinarySearchTree, m: BinarySearchTree)
    requires root.Valid() && root.IsRoot() && m in root.Repr
    ensures m.IsRoot() <==> m == root
  {
    if m != root {
      ParentLink(root, m);
    }
  }

  /** A valid tree without children is the single node it starts as. */
  lemma LeafIsSingleton(t: BinarySearchTree)
    requires t.Valid() && t.IsLeaf()
    ensures t.Repr == {t} && t.Contents == [t.data] && t.Nodes() == [t]
  {
  }

  /** A tree has as many nodes as it has values: each node holds one value. */
  lemma {:induction false} ReprSize(t: BinarySearchTree)
    requires t.Valid()
    ensures |t.Repr| == |t.Contents|
    decreases t.Repr
  {
    if t.left != null {
      ReprSize(t.left);
    }
    if t.right != null {
      ReprSize(t.right);
    }
    assert ({t} + ReprOf(t.left)) * ReprOf(t.right) == {};
  }

  /** `r` comes right after `n` in the walk `ns`: wherever `n` stands before
      the end, `r` stands next; where `n` is last, `r` is null. */
  ghost predicate Follows(ns: seq<BinarySearchTree>, n: BinarySearchTree, r: BinarySearchTree?) {
    && (forall i :: 0 <= i < |ns| - 1 && ns[i] == n ==> r == ns[i + 1])
    && (ns != [] && Last(ns) == n ==> r == null)
  }

  /** Two neighbours in the walk of a subtree are neighbours in the walk of
      the whole tree. */
  lemma FollowsInside(root: BinarySearchTree, m: BinarySearchTree, j: int, n: BinarySearchTree, r: BinarySearchTree)
    requires root.Valid() && m in root.Repr && m.Valid()
    requires 0 <= j && j + 1 < |m.Nodes()| && m.Nodes()[j] == n && m.Nodes()[j + 1] == r
    ensures Follows(root.Nodes(), n, r)
  {
    var o := Subtree(root, m);
    NodesDistinct(root);
    FollowsWithin(m.Nodes(), root.Nodes(), o, j, n, r);
  }

  /** Neighbours in a piece of a walk without repeated nodes are neighbours
      in the whole walk. */
  lemma FollowsWithin(ms: seq<BinarySearchTree>, ns: seq<BinarySearchTree>, o: int, j: int,
                      n: BinarySearchTree, r: BinarySearchTree)
    requires OccursAt(ms, ns, o) && Distinct(ns)
    requires 0 <= j && j + 1 < |ms| && ms[j] == n && ms[j + 1] == r
    ensures Follows(ns, n, r)
  {
    OccursIndex(ms, ns, o, j);
    OccursIndex(ms, ns, o, j + 1);
  }

  /** Nothing follows the last node of the walk. */
  lemma FollowsLast(root: BinarySearchTree, n: BinarySearchTree)
    requires root.Valid() && Last(root.Nodes()) == n
    ensures Follows(root.Nodes(), n, null)
  {
    NodesDistinct(root);
  }

  /** The node following position `k` of a walk is the one at `k + 1`, or
      null at the end. */
  lemma FollowsAt(ns: seq<BinarySearchTree>, k: int, r: BinarySearchTree?)
    requires 0 <= k < |ns| && Follows(ns, ns[k], r)
    ensures if k + 1 < |ns| then r == ns[k + 1] else r == null
  {
  }
}
