/** The trees the tester builds, and what printing one of them, or the
    values of the other within [13, 25] by both range searches, yields. */
module Scenarios {
  import opened InorderSpec
  import opened Trees
  import opened TreeFacts
  import opened BinarySearchTreeMethods

  /** `s` after inserting the values of `xs` one after another. */
  function InsertAll(s: seq<int>, xs: seq<int>): seq<int>
    decreases |xs|
  {
    if xs == [] then s else InsertAll(InsertSorted(s, xs[0]), xs[1..])
  }

  /** Inserting several values adds exactly those values. */
  lemma {:induction false} InsertAllPermutes(s: seq<int>, xs: seq<int>)
    ensures multiset(InsertAll(s, xs)) == multiset(s) + multiset(xs)
    decreases |xs|
  {
    if xs != [] {
      InsertSortedPermutes(s, xs[0]);
      InsertAllPermutes(InsertSorted(s, xs[0]), xs[1..]);
      assert xs == [xs[0]] + xs[1..];
    }
  }

  /** The values present after inserting several are those present before
      and the inserted ones. */
  lemma {:induction false} InsertAllMembers(s: seq<int>, xs: seq<int>)
    ensures forall v :: v in InsertAll(s, xs) <==> v in s || v in xs
    decreases |xs|
  {
    if xs != [] {
      InsertSortedMembers(s, xs[0]);
      InsertAllMembers(InsertSorted(s, xs[0]), xs[1..]);
      assert xs == [xs[0]] + xs[1..];
    }
  }

  /** Inserts the values of `xs` into `t`, one after another. */
  method InsertEach(t: BinarySearchTree, xs: seq<int>)
    requires t.Valid()
    modifies t.Repr
    ensures t.Valid() && t.parent == old(t.parent)
    ensures t.Contents == InsertAll(old(t.Contents), xs)
  {
    for i := 0 to |xs|
      invariant t.Valid() && t.parent == old(t.parent)
      invariant old(t.Repr) <= t.Repr && fresh(t.Repr - old(t.Repr))
      invariant InsertAll(t.Contents, xs[i..]) == InsertAll(old(t.Contents), xs)
    {
      assert xs[i..][1..] == xs[i + 1..];
      var leaf := t.Insert(xs[i]);
    }
  }

  /** The first test: 5, then 3, 7, 2, 4, 6 and 8, printed in order. */
  method PrintSmallTree() returns (s: string)
    ensures s == "2, 3, 4, 5, 6, 7, 8"
  {
    var bst := new BinarySearchTree(5);
    InsertEach(bst, [3, 7, 2, 4, 6, 8]);
    s := bst.ToString();
    InorderSorted(bst);
    InsertAllPermutes([5], [3, 7, 2, 4, 6, 8]);
    SmallTreeValues(bst.Contents);
    SmallTreeText();
  }

  /** The sorted arrangement of the values of the first test. */
  lemma SmallTreeValues(c: seq<int>)
    requires Sorted(c) && multiset(c) == multiset([5]) + multiset([3, 7, 2, 4, 6, 8])
    ensures c == [2, 3, 4, 5, 6, 7, 8]
  {
    SmallTreeMultiset();
    SortedSmallTree();
    SortedUnique(c, [2, 3, 4, 5, 6, 7, 8]);
  }

  /** The values of the first test, counted. */
  lemma SmallTreeMultiset()
    ensures multiset([5]) + multiset([3, 7, 2, 4, 6, 8]) == multiset{2, 3, 4, 5, 6, 7, 8}
  {
  }

  /** The values of the first test in ascending order. */
  lemma SortedSmallTree()
    ensures Sorted([2, 3, 4, 5, 6, 7, 8])
    ensures multiset([2, 3, 4, 5, 6, 7, 8]) == multiset{2, 3, 4, 5, 6, 7, 8}
  {
  }

  /** The printed form of the values of the first test. */
  lemma SmallTreeText()
    ensures Render([2, 3, 4, 5, 6, 7, 8]) == "2, 3, 4, 5, 6, 7, 8"
  {
  }

  /** The values the second and third tests insert after the root 5. */
  const TesterValues: seq<int> := [1, -10, 4, 26, 14, 34, 9, 17, 7, 11, 15, 25]

  /** The second test: the pruned range search for [13, 25]. */
  method RangeOfTesterTree() returns (vals: set<int>)
    ensures vals == {14, 15, 17, 25}
  {
    var t1 := new BinarySearchTree(5);
    InsertEach(t1, TesterValues);
    vals := FindElementsBetween(t1, 13, 25);
    InsertAllMembers([5], TesterValues);
    TesterTreeInRange(t1.Contents);
  }

  /** The third test: the successor walk for [13, 25], from the root. */
  method FastRangeOfTesterTree() returns (vals: set<int>)
    ensures vals == {14, 15, 17, 25}
  {
    var t1 := new BinarySearchTree(5);
    InsertEach(t1, TesterValues);
    vals := FindElementsBetweenFast(t1, 13, 25, t1);
    InsertAllMembers([5], TesterValues);
    TesterTreeInRange(t1.Contents);
  }

  /** The values of the tester's tree within [13, 25]. */
  lemma TesterTreeInRange(c: seq<int>)
    requires forall v :: v in c <==> v in [5] || v in TesterValues
    ensures InRange(c, 13, 25) == {14, 15, 17, 25}
  {
    forall v ensures v in InRange(c, 13, 25) <==> v in {14, 15, 17, 25} {
      assert v in c <==> v in [5] || v in TesterValues;
    }
  }
}
