/** A binary search tree made of linked nodes. Each node is itself a tree: it
    holds a value, its two children and a link back to its parent. Values that
    compare less than a node's value live in its left subtree; all others,
    equal values included, live in its right subtree. */
module Trees {
  import opened InorderSpec

  /** The nodes of a possibly absent subtree. */
  ghost function ReprOf(t: BinarySearchTree?): set<BinarySearchTree>
    reads t
  {
    if t == null then {} else t.Repr
  }

  /** The in-order values of a possibly absent subtree. */
  ghost function ContentsOf(t: BinarySearchTree?): seq<int>
    reads t
  {
    if t == null then [] else t.Contents
  }

  class BinarySearchTree {
    var left: BinarySearchTree?
    var right: BinarySearchTree?
    var parent: BinarySearchTree?
    const data: int

    /** The nodes of the subtree rooted here. */
    ghost var Repr: set<BinarySearchTree>
    /** The values of the subtree rooted here, in order. */
    ghost var Contents: seq<int>

    /** The subtree rooted here is a finite binary search tree: its children's
        subtrees are disjoint and do not contain this node, each child links
        back to this node, values on the left are smaller than `data` and
        values on the right are at least `data`. */
    ghost predicate Valid()
      reads this, Repr
      decreases Repr
      ensures Valid() ==> this in Repr
    {
      && this in Repr
      && (left != null ==> left in Repr)
      && (right != null ==> right in Repr)
      && Repr == {this} + ReprOf(left) + ReprOf(right)
      && this !in ReprOf(left) && this !in ReprOf(right) && ReprOf(left) !! ReprOf(right)
      && Contents == ContentsOf(left) + [data] + ContentsOf(right)
      && (left != null ==> left.parent == this && left.Valid() && AllBelow(left.Contents, data))
      && (right != null ==> right.parent == this && right.Valid() && AllAtLeast(right.Contents, data))
    }

    /** A single node with no children and no parent. */
    constructor (x: int)
      ensures Valid() && IsLeaf() && IsRoot()
      ensures data == x && Repr == {this} && Contents == [x]
    {
      data := x;
      left, right, parent := null, null, null;
      Repr := {this};
      Contents := [x];
    }

    /** A node without children; in a valid tree, exactly a subtree made of
        this node alone. */
    predicate IsLeaf()
      reads this, Repr
      ensures Valid() ==> (IsLeaf() <==> Repr == {this})
    {
      left == null && right == null
    }

    /** A node without a parent. */
    predicate IsRoot()
      reads this
    {
      parent == null
    }

    /** Hangs a new leaf holding `x` below the node where the descent ends:
        to the left of a node whose value is greater than `x`, to the right
        of one whose value is at most `x`. The new node is returned as
        `leaf`: it hangs from the empty child slot of a node that was already
        in the tree, and no other link of the tree changes. */
    method Insert(x: int) returns (ghost leaf: BinarySearchTree)
      requires Valid()
      modifies Repr
      ensures Valid() && parent == old(parent)
      ensures fresh(leaf) && Repr == old(Repr) + {leaf}
      ensures leaf.IsLeaf() && leaf.data == x && leaf.parent in old(Repr)
      ensures forall n :: n in old(Repr) && n != leaf.parent ==>
                n.left == old(n.left) && n.right == old(n.right) && n.parent == old(n.parent)
      ensures var p := leaf.parent;
                && p.parent == old(p.parent)
                && ((old(p.left) == null && p.left == leaf && p.right == old(p.right))
                    || (old(p.right) == null && p.right == leaf && p.left == old(p.left)))
      ensures Contents == InsertSorted(old(Contents), x)
      decreases Repr, 1
    {
      if x < data {
        if left == null {
          leaf := AttachLeft(x);
        } else {
          leaf := DescendLeft(x);
        }
      } else {
        if right == null {
          leaf := AttachRight(x);
        } else {
          leaf := DescendRight(x);
        }
      }
    }

    /** The `x < data` branch of `Insert` when there is no left child. */
    method AttachLeft(x: int) returns (ghost leaf: BinarySearchTree)
      requires x < data && left == null
      requires Valid()
      modifies Repr
      ensures Valid() && parent == old(parent)
      ensures leaf == left && right == old(right)
      ensures fresh(leaf) && Repr == old(Repr) + {leaf}
      ensures leaf.IsLeaf() && leaf.data == x && leaf.parent == this
      ensures forall n :: n in old(Repr) && n != leaf.parent ==>
                n.left == old(n.left) && n.right == old(n.right) && n.parent == old(n.parent)
      ensures Contents == InsertSorted(old(Contents), x)
      decreases Repr, 0
    {
      var node := new BinarySearchTree(x);
      left, Repr, Contents := node, {this} + {node} + ReprOf(right), [x] + [data] + ContentsOf(right);
      node.parent := this;
      AttachedLeft(this);
      leaf := node;
    }

    /** The `x < data` branch of `Insert` when there is a left child. */
    method DescendLeft(x: int) returns (ghost leaf: BinarySearchTree)
      requires x < data && left != null
      requires Valid()
      modifies Repr
      ensures Valid() && parent == old(parent)
      ensures left == old(left) && right == old(right)
      ensures fresh(leaf) && Repr == old(Repr) + {leaf}
      ensures leaf.IsLeaf() && leaf.data == x && leaf.parent in old(left.Repr)
      ensures forall n :: n in old(Repr) && n != leaf.parent ==>
                n.left == old(n.left) && n.right == old(n.right) && n.parent == old(n.parent)
      ensures var p := leaf.parent;
                && p.parent == old(p.parent)
                && ((old(p.left) == null && p.left == leaf && p.right == old(p.right))
                    || (old(p.right) == null && p.right == leaf && p.left == old(p.left)))
      ensures Contents == InsertSorted(old(Contents), x)
      decreases Repr, 0
    {
      leaf := left.Insert(x);
      JoinLeft(x, leaf, old(left.Repr), old(left.Contents));
    }

    /** Brings this node's footprint and values up to date after `x` went
        into its left subtree as `leaf`, where that subtree held the nodes
        `nodes` and the values `values` before. */
    ghost method JoinLeft(x: int, leaf: BinarySearchTree, nodes: set<BinarySearchTree>, values: seq<int>)
      requires x < data && left != null && left.Valid() && left.parent == this
      requires left.Repr == nodes + {leaf} && left.Contents == InsertSorted(values, x)
      requires AllBelow(values, data) && this !in left.Repr && this !in ReprOf(right) && left.Repr !! ReprOf(right)
      requires right != null ==> right.parent == this && right.Valid() && AllAtLeast(right.Contents, data)
      modifies this
      ensures left == old(left) && right == old(right) && parent == old(parent)
      ensures Valid() && Repr == {this} + nodes + old(ReprOf(right)) + {leaf}
      ensures Contents == InsertSorted(values + [data] + old(ContentsOf(right)), x)
    {
      Repr, Contents := {this} + left.Repr + ReprOf(right), left.Contents + [data] + ContentsOf(right);
      StillValid(left);
      StillValid(right);
      GrownBy({this}, nodes, old(ReprOf(right)), leaf);
      InsertSortedBelow(values, x, data);
      InsertSortedBefore(values, data, old(ContentsOf(right)), x);
    }

    /** The `x >= data` branch of `Insert` when there is no right child. */
    method AttachRight(x: int) returns (ghost leaf: BinarySearchTree)
      requires data <= x && right == null
      requires Valid()
      modifies Repr
      ensures Valid() && parent == old(parent)
      ensures leaf == right && left == old(left)
      ensures fresh(leaf) && Repr == old(Repr) + {leaf}
      ensures leaf.IsLeaf() && leaf.data == x && leaf.parent == this
      ensures forall n :: n in old(Repr) && n != leaf.parent ==>
                n.left == old(n.left) && n.right == old(n.right) && n.parent == old(n.parent)
      ensures Contents == InsertSorted(old(Contents), x)
      decreases Repr, 0
    {
      var node := new BinarySearchTree(x);
      right, Repr, Contents := node, {this} + ReprOf(left) + {node}, ContentsOf(left) + [data] + [x];
      node.parent := this;
      AttachedRight(this);
      leaf := node;
    }

    /** The `x >= data` branch of `Insert` when there is a right child. */
    method DescendRight(x: int) returns (ghost leaf: BinarySearchTree)
      requires data <= x && right != null
      requires Valid()
      modifies Repr
      ensures Valid() && parent == old(parent)
      ensures left == old(left) && right == old(right)
      ensures fresh(leaf) && Repr == old(Repr) + {leaf}
      ensures leaf.IsLeaf() && leaf.data == x && leaf.parent in old(right.Repr)
      ensures forall n :: n in old(Repr) && n != leaf.parent ==>
                n.left == old(n.left) && n.right == old(n.right) && n.parent == old(n.parent)
      ensures var p := leaf.parent;
                && p.parent == old(p.parent)
                && ((old(p.left) == null && p.left == leaf && p.right == old(p.right))
                    || (old(p.right) == null && p.right == leaf && p.left == old(p.left)))
      ensures Contents == InsertSorted(old(Contents), x)
      decreases Repr, 0
    {
      leaf := right.Insert(x);
      JoinRight(x, leaf, old(right.Repr), old(right.Contents));
    }

    /** Brings this node's footprint and values up to date after `x` went
        into its right subtree as `leaf`, where that subtree held the nodes
        `nodes` and the values `values` before. */
    ghost method JoinRight(x: int, leaf: BinarySearchTree, nodes: set<BinarySearchTree>, values: seq<int>)
      requires data <= x && right != null && right.Valid() && right.parent == this
      requires right.Repr == nodes + {leaf} && right.Contents == InsertSorted(values, x)
      requires AllAtLeast(values, data) && this !in right.Repr && this !in ReprOf(left) && ReprOf(left) !! right.Repr
      requires left != null ==> left.parent == this && left.Valid() && AllBelow(left.Contents, data)
      modifies this
      ensures left == old(left) && right == old(right) && parent == old(parent)
      ensures Valid() && Repr == {this} + old(ReprOf(left)) + nodes + {leaf}
      ensures Contents == InsertSorted(old(ContentsOf(left)) + [data] + values, x)
    {
      Repr, Contents := {this} + ReprOf(left) + right.Repr, ContentsOf(left) + [data] + right.Contents;
      StillValid(left);
      StillValid(right);
      GrownBy({this}, nodes, old(ReprOf(left)), leaf);
      InsertSortedAtLeast(values, x, data);
      AtMostPrefix(old(ContentsOf(left)), data, x);
      InsertSortedAfterPrefix(old(ContentsOf(left)) + [data], values, x);
    }

    /** The node the ordered descent for `x` stops at because its value equals
        `x`, or null when the descent runs off the tree. */
    function Contains(x: int): (r: BinarySearchTree?)
      reads this, Repr
      requires Valid()
      decreases Repr
      ensures r != null ==> r in Repr && r.data == x
      ensures r == null <==> x !in Contents
    {
      if x == data then this
      else if x < data then
        assert x !in ContentsOf(right) by { NotInAtLeast(ContentsOf(right), data, x); }
        if left == null then null else left.Contains(x)
      else
        assert x !in ContentsOf(left) by { NotInBelow(ContentsOf(left), data, x); }
        if right == null then null else right.Contains(x)
    }

    /** The in-order rendering: the left subtree, this value and the right
        subtree, separated by ", " where a subtree is present. */
    function ToString(): (s: string)
      reads this, Repr
      requires Valid()
      decreases Repr
      ensures s == Render(Contents)
    {
      RenderAround(ContentsOf(left), data, ContentsOf(right));
      (if left == null then "" else left.ToString() + ", ")
      + Show(data)
      + (if right == null then "" else ", " + right.ToString())
    }

    /** The nodes of the subtree rooted here, in order. */
    ghost function Nodes(): (ns: seq<BinarySearchTree>)
      reads this, Repr
      requires Valid()
      decreases Repr
      ensures ns != []
    {
      (if left == null then [] else left.Nodes()) + [this] + (if right == null then [] else right.Nodes())
    }
  }

  /** Hanging a fresh leaf to the left of `t` keeps `t` valid and inserts the
      leaf's value into `t`'s in-order values. */
  twostate lemma AttachedLeft(t: BinarySearchTree)
    requires old(allocated(t)) && old(t.Valid()) && old(t.left) == null
    requires t.left != null && fresh(t.left)
    requires t.left.left == null && t.left.right == null && t.left.parent == t
    requires t.left.Repr == {t.left} && t.left.Contents == [t.left.data] && t.left.data < t.data
    requires t.right == old(t.right) && unchanged(old(ReprOf(t.right)))
    requires t.Repr == {t} + {t.left} + old(ReprOf(t.right))
    requires t.Contents == [t.left.data] + [t.data] + old(ContentsOf(t.right))
    ensures t.Valid()
    ensures t.Contents == InsertSorted(old(t.Contents), t.left.data)
  {
    StillValid(t.right);
    SingletonValid(t.left);
    InsertSortedBefore([], t.data, old(ContentsOf(t.right)), t.left.data);
    assert InsertSorted([], t.left.data) == [t.left.data];
  }

  /** Hanging a fresh leaf to the right of `t` keeps `t` valid and inserts the
      leaf's value into `t`'s in-order values. */
  twostate lemma AttachedRight(t: BinarySearchTree)
    requires old(allocated(t)) && old(t.Valid()) && old(t.right) == null
    requires t.right != null && fresh(t.right)
    requires t.right.left == null && t.right.right == null && t.right.parent == t
    requires t.right.Repr == {t.right} && t.right.Contents == [t.right.data] && t.data <= t.right.data
    requires t.left == old(t.left) && unchanged(old(ReprOf(t.left)))
    requires t.Repr == {t} + old(ReprOf(t.left)) + {t.right}
    requires t.Contents == old(ContentsOf(t.left)) + [t.data] + [t.right.data]
    ensures t.Valid()
    ensures t.Contents == InsertSorted(old(t.Contents), t.right.data)
  {
    StillValid(t.left);
    SingletonValid(t.right);
    AtMostPrefix(old(ContentsOf(t.left)), t.data, t.right.data);
    InsertSortedAfterPrefix(old(ContentsOf(t.left)) + [t.data], [], t.right.data);
    assert InsertSorted([], t.right.data) == [t.right.data];
  }

  /** Adding `leaf` to one part of a union adds it to the union. */
  lemma GrownBy<T>(a: set<T>, b: set<T>, c: set<T>, leaf: T)
    ensures a + (b + {leaf}) + c == a + b + c + {leaf}
    ensures a + c + (b + {leaf}) == a + c + b + {leaf}
  {
  }

  /** A childless node whose footprint is itself is a valid tree. */
  lemma SingletonValid(t: BinarySearchTree)
    requires t.left == null && t.right == null && t.Repr == {t} && t.Contents == [t.data]
    ensures t.Valid()
  {
  }

  /** A subtree none of whose nodes changed is still valid, with the same
      nodes and values. */
  twostate lemma StillValid(t: BinarySearchTree?)
    requires t != null ==> old(allocated(t)) && old(t.Valid()) && unchanged(old(t.Repr))
    ensures t != null ==> t.Valid() && t.Repr == old(t.Repr) && t.Contents == old(t.Contents)
  {
  }
}
