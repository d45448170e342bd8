# Binary search tree with parent links

A model of the teaching binary search tree of `teachingjava.trees` and the
algorithms written against it.

Each node is itself a tree. It holds a value, a left child, a right child and a
link back to its parent. Inserting descends from a node:

- to the left when the new value compares below the node's value;
- to the right otherwise, so equal values go right.

The new leaf hangs where the descent runs out of children, with its parent link
set. `contains` follows the same descent and returns the node holding the value,
or null. `toString` prints the in-order walk, with the values joined by ", ".

The algorithms are:

- the maximum, found by following right links;
- the values within a closed range [min, max], computed two ways:
  - a pruned recursive descent that skips a subtree when its side cannot hold
    values in range;
  - a walk that starts at the node where the descent for `min` stops and
    follows in-order successors while the values are at most `max`;
- the in-order successor of a node. It is the leftmost node of the right
  subtree, or else the first ancestor reached by climbing out of a left child.

The model keeps the source's shape:

- The tree is a Dafny `class BinarySearchTree` (module `Trees`) with mutable
  `left`, `right` and `parent` fields.
- Two ghost fields describe each subtree:
  - `Repr` is the set of its nodes;
  - `Contents` is its in-order sequence of values.
- `Valid()` states the invariant that every node keeps:
  - the subtrees are disjoint;
  - the children link back to their parent;
  - the values on the left are below the node's value;
  - the values on the right are at least the node's value.
- `Insert` is a method that changes the tree in place. Its new `Contents` is
  `InsertSorted(old(Contents), x)`, a function on sequences (module
  `InorderSpec`). The lemmas there show that this adds exactly one `x` and
  keeps the sequence sorted.
- `Insert` also returns the node it creates, as a ghost out-parameter `leaf`.
  This lets its contract say where the node hangs and that no other link
  changes. The ghost methods `JoinLeft` and `JoinRight` bring an ancestor's
  `Repr` and `Contents` up to date after the recursive call.
- The algorithms (module `BinarySearchTreeMethods`) are methods where the
  source loops or fills a set, and functions where the source only recurses
  and computes a value.
- The ghost in-order walk of nodes, `Nodes()`, is their common specification.
  Module `TreeFacts` proves that this walk:
  - holds the tree's values;
  - visits each node exactly once;
  - contains every subtree's walk as a contiguous piece.
- Module `Scenarios` builds the trees the tester builds. It proves:
  - printing the first tree yields "2, 3, 4, 5, 6, 7, 8";
  - both range searches, each over its own tree built from the values of the tester's range tests, yield {14, 15, 17, 25} for [13, 25].

## Model

| member | source | states |
|---|---|---|
| Trees.BinarySearchTree.constructor | res/java-code/TeachingJava/src/teachingjava/trees/BinarySearchTree.java:14-22 | a new tree is a single valid node holding `x`, with no children and no parent; its only value is `x` |
| Trees.BinarySearchTree.IsLeaf | res/java-code/TeachingJava/src/teachingjava/trees/BinarySearchTree.java:40-42 | in a valid tree, a node has no children if and only if its subtree is that node alone |
| Trees.BinarySearchTree.Insert | res/java-code/TeachingJava/src/teachingjava/trees/BinarySearchTree.java:48-65 | the tree stays a valid search tree and keeps its parent link; exactly one node is added, a fresh leaf holding `x`; it hangs from a node already in the tree, in a child slot that was empty, with that node's other child and parent unchanged; every other node keeps its left, right and parent links; the in-order values become `InsertSorted` of the old ones and `x`, which means exactly one more `x` and still sorted (see the `InsertSorted*` lemmas) |
| Trees.BinarySearchTree.AttachLeft | res/java-code/TeachingJava/src/teachingjava/trees/BinarySearchTree.java:50-53 | for `x < data` with no left child, the new left child is a fresh leaf holding `x` whose parent is this node; the right child and every other node's links stay as they were; the tree stays valid and holds `x` in order |
| Trees.BinarySearchTree.DescendLeft | res/java-code/TeachingJava/src/teachingjava/trees/BinarySearchTree.java:50-56 | for `x < data` with a left child, this node keeps both children; the fresh leaf holding `x` hangs from a node of the old left subtree, in an empty slot, and every other node keeps its links; the tree stays valid and holds `x` in order |
| Trees.BinarySearchTree.AttachRight | res/java-code/TeachingJava/src/teachingjava/trees/BinarySearchTree.java:57-60 | for `x >= data` with no right child, the new right child is a fresh leaf holding `x` whose parent is this node, so equal values go right; the left child and every other node's links stay as they were; the tree stays valid and holds `x` in order |
| Trees.BinarySearchTree.DescendRight | res/java-code/TeachingJava/src/teachingjava/trees/BinarySearchTree.java:57-63 | for `x >= data` with a right child, this node keeps both children; the fresh leaf holding `x` hangs from a node of the old right subtree, in an empty slot, and every other node keeps its links; the tree stays valid and holds `x` in order |
| Trees.BinarySearchTree.Contains | res/java-code/TeachingJava/src/teachingjava/trees/BinarySearchTree.java:67-76 | a non-null result is a node of the tree holding `x`; the result is null exactly when `x` is not among the tree's values |
| Trees.BinarySearchTree.ToString | res/java-code/TeachingJava/src/teachingjava/trees/BinarySearchTree.java:78-82 | the text is the tree's in-order values in decimal, joined by ", " (`Render(Contents)`) |
| InorderSpec.InsertSortedPermutes | res/java-code/TeachingJava/src/teachingjava/trees/BinarySearchTree.java:48-65 | insertion adds exactly one occurrence of `x` and loses no value |
| InorderSpec.InsertSortedMembers | res/java-code/TeachingJava/src/teachingjava/trees/BinarySearchTree.java:48-65 | after insertion a value is present if and only if it was present before or is `x` |
| InorderSpec.InsertSortedSorted | res/java-code/TeachingJava/src/teachingjava/trees/BinarySearchTree.java:48-65 | insertion keeps a sorted sequence sorted |
| InorderSpec.InsertSortedBetween | res/java-code/TeachingJava/src/teachingjava/trees/BinarySearchTree.java:57-64 | `x` lands after every value at most `x` and just before a following larger value, so it goes after equal values |
| InorderSpec.SortedUnique | res/java-code/TeachingJava/src/teachingjava/trees/BinarySearchTree.java:78-82 | two sorted sequences with the same values, counted with multiplicity, are equal, so the in-order print depends only on the inserted values |
| InorderSpec.RenderConcat | res/java-code/TeachingJava/src/teachingjava/trees/BinarySearchTree.java:81 | rendering two non-empty pieces puts exactly one ", " between their renderings |
| InorderSpec.RenderAround | res/java-code/TeachingJava/src/teachingjava/trees/BinarySearchTree.java:81 | the left part, ", " only when the left part is present, the value, then ", " and the right part only when the right part is present, together render the whole in-order sequence |
| TreeFacts.InorderSorted | res/java-code/TeachingJava/src/teachingjava/trees/BinarySearchTree.java:78-82 | the in-order values of a valid tree are sorted |
| TreeFacts.NodesHoldContents | res/java-code/TeachingJava/src/teachingjava/trees/BinarySearchTree.java:78-82 | reading the data of the nodes of the in-order walk gives the tree's in-order values |
| TreeFacts.NodesAreRepr | res/java-code/TeachingJava/src/teachingjava/trees/BinarySearchTree.java:7-9 | the in-order walk visits exactly the nodes of the tree |
| TreeFacts.NodesDistinct | res/java-code/TeachingJava/src/teachingjava/trees/BinarySearchTree.java:7-9 | no node occurs twice in the in-order walk |
| TreeFacts.ReprSize | res/java-code/TeachingJava/src/teachingjava/trees/BinarySearchTree.java:7-10 | a tree has as many nodes as values: each node holds one value |
| TreeFacts.SubtreeValid | res/java-code/TeachingJava/src/teachingjava/trees/BinarySearchTree.java:7-9 | every node of a valid tree roots a valid subtree inside it |
| TreeFacts.Subtree | res/java-code/TeachingJava/src/teachingjava/trees/BinarySearchTree.java:7-9 | the walk of the subtree at any node is a contiguous piece of the whole walk |
| TreeFacts.ParentLink | res/java-code/TeachingJava/src/teachingjava/trees/BinarySearchTree.java:52-53 | every node other than the root has a parent in the same tree, of which it is the left or right child, and whose subtree strictly contains its own |
| TreeFacts.OnlyRootIsRoot | res/java-code/TeachingJava/src/teachingjava/trees/BinarySearchTree.java:44-46 | in a tree known by its root, a node reports being the root if and only if it is that root |
| TreeFacts.LeafIsSingleton | res/java-code/TeachingJava/src/teachingjava/trees/BinarySearchTree.java:40-42 | a valid leaf is a one-node tree holding one value |
| TreeFacts.FollowsInside | res/java-code/TeachingJava/src/teachingjava/trees/BinarySearchTreeMethods.java:49-71 | two neighbours in the walk of a subtree are neighbours in the walk of the whole tree |
| TreeFacts.FollowsLast | res/java-code/TeachingJava/src/teachingjava/trees/BinarySearchTreeMethods.java:63-65 | nothing follows the last node of the whole walk |
| TreeFacts.FollowsAt | res/java-code/TeachingJava/src/teachingjava/trees/BinarySearchTreeMethods.java:82 | the node following position `k` is the one at `k + 1`, or null after the last position |
| BinarySearchTreeMethods.FindMaxAsWritten | res/java-code/TeachingJava/src/teachingjava/trees/BinarySearchTreeMethods.java:8-14 | as written, the search reads the value of a null node on every valid tree (see Findings) |
| BinarySearchTreeMethods.FindMax | res/java-code/TeachingJava/src/teachingjava/trees/BinarySearchTreeMethods.java:8-14 | the rightmost value is the last in-order value; it is one of the tree's values and no value exceeds it |
| BinarySearchTreeMethods.FindElementsBetween | res/java-code/TeachingJava/src/teachingjava/trees/BinarySearchTreeMethods.java:16-22 | the result is exactly the set of the tree's values within [min, max], and empty for an absent tree |
| BinarySearchTreeMethods.FindElementsBetweenHelper | res/java-code/TeachingJava/src/teachingjava/trees/BinarySearchTreeMethods.java:24-47 | the set grows by exactly the subtree's values within [min, max], although the pruning skips subtrees |
| BinarySearchTreeMethods.PruningIsSafe | res/java-code/TeachingJava/src/teachingjava/trees/BinarySearchTreeMethods.java:30-45 | the values in range split over the two subtrees and the node; a node below `min` has none in range on its left, and a node above `max` has none on its right |
| BinarySearchTreeMethods.InorderSuccessor | res/java-code/TeachingJava/src/teachingjava/trees/BinarySearchTreeMethods.java:49-71 | the result comes right after `t` in the in-order walk of the whole tree, or is null when `t` is last |
| BinarySearchTreeMethods.LeftmostOf | res/java-code/TeachingJava/src/teachingjava/trees/BinarySearchTreeMethods.java:52-56 | the loop stops at a node without a left child, which is the first node of the subtree's walk |
| BinarySearchTreeMethods.ClimbToLeftParent | res/java-code/TeachingJava/src/teachingjava/trees/BinarySearchTreeMethods.java:58-69 | climbing from a node without a right child returns the node after it in the whole walk: the parent of the first ancestor that is a left child, whose left subtree contains `t`, or null when `t` is last |
| BinarySearchTreeMethods.SuccessorBelow | res/java-code/TeachingJava/src/teachingjava/trees/BinarySearchTreeMethods.java:51-56 | the first node of the right subtree follows `t` in the whole walk |
| BinarySearchTreeMethods.ClimbStep | res/java-code/TeachingJava/src/teachingjava/trees/BinarySearchTreeMethods.java:63-67 | after climbing from a right child, `t` still ends the walk of the reached node's subtree |
| BinarySearchTreeMethods.SuccessorAboveNone | res/java-code/TeachingJava/src/teachingjava/trees/BinarySearchTreeMethods.java:63-65 | when the climb reaches the root, `t` is last in the walk and has no successor |
| BinarySearchTreeMethods.SuccessorAboveParent | res/java-code/TeachingJava/src/teachingjava/trees/BinarySearchTreeMethods.java:63-65 | when the climb stops at a left child, that child's parent follows `t` |
| BinarySearchTreeMethods.FindNextSmallest | res/java-code/TeachingJava/src/teachingjava/trees/BinarySearchTreeMethods.java:87-97 | the descent stops at a node of the tree that holds `x` or lacks the child on `x`'s side; it holds `x` whenever `x` is in the tree |
| BinarySearchTreeMethods.NextSmallestPosition | res/java-code/TeachingJava/src/teachingjava/trees/BinarySearchTreeMethods.java:87-97 | the stopping node splits the in-order values at `x`: every value before it is below `x`, and every value after it is at least `x` |
| BinarySearchTreeMethods.FindElementsBetweenFast | res/java-code/TeachingJava/src/teachingjava/trees/BinarySearchTreeMethods.java:73-85 | the result is exactly the values within [min, max] at and after the start node in the whole tree's walk; started from the root, it is the same set as `FindElementsBetween` |
| BinarySearchTreeMethods.CollectWhileAtMost | res/java-code/TeachingJava/src/teachingjava/trees/BinarySearchTreeMethods.java:78-83 | every value the loop passes is at most `max`, and it stops at the end of the walk or at a node above `max`, so at the first such node; it has collected exactly the values in range it passed |
| BinarySearchTreeMethods.CollectStep | res/java-code/TeachingJava/src/teachingjava/trees/BinarySearchTreeMethods.java:79-81 | one more visited node adds its value exactly when that value is in range |
| BinarySearchTreeMethods.Advance | res/java-code/TeachingJava/src/teachingjava/trees/BinarySearchTreeMethods.java:82 | the successor of the node at position `k` of the walk is the node at `k + 1`, or null after the last one |
| BinarySearchTreeMethods.WalkStart | res/java-code/TeachingJava/src/teachingjava/trees/BinarySearchTreeMethods.java:77 | the start node sits at some position of the whole walk; from the root, the values before that position are below `min` |
| BinarySearchTreeMethods.WalkEnd | res/java-code/TeachingJava/src/teachingjava/trees/BinarySearchTreeMethods.java:78-84 | stopping at the end or above `max` loses no value in range after the start; from the root's start it loses none at all |
| BinarySearchTreeMethods.WalkedInRange | res/java-code/TeachingJava/src/teachingjava/trees/BinarySearchTreeMethods.java:78 | in sorted values, a scan that stops above `max` has seen every value in range from its start on |
| InorderSpec.InRangeStop | res/java-code/TeachingJava/src/teachingjava/trees/BinarySearchTreeMethods.java:78 | in sorted values, nothing from the first value above the upper bound onward is in range |
| InorderSpec.InRangeSkip | res/java-code/TeachingJava/src/teachingjava/trees/BinarySearchTreeMethods.java:77 | a prefix of values below the lower bound contributes nothing in range |
| Scenarios.InsertAllPermutes | java-code/TeachingJava/src/teachingjava/trees/BinarySearchTreeTester.java:9-15 | a run of insertions adds exactly the inserted values |
| Scenarios.InsertAllMembers | java-code/TeachingJava/src/teachingjava/trees/BinarySearchTreeTester.java:21-33 | after a run of insertions, a value is present if and only if it was present before or was inserted |
| Scenarios.InsertEach | java-code/TeachingJava/src/teachingjava/trees/BinarySearchTreeTester.java:21-33 | inserting values one after another keeps the tree valid, and its values are those of the repeated in-order insertion |
| Scenarios.PrintSmallTree | java-code/TeachingJava/src/teachingjava/trees/BinarySearchTreeTester.java:8-17 | the tree built from 5, 3, 7, 2, 4, 6, 8 prints as "2, 3, 4, 5, 6, 7, 8" |
| Scenarios.SmallTreeValues | java-code/TeachingJava/src/teachingjava/trees/BinarySearchTreeTester.java:9-15 | the only sorted arrangement of those seven values is 2 through 8 |
| Scenarios.RangeOfTesterTree | java-code/TeachingJava/src/teachingjava/trees/BinarySearchTreeTester.java:20-35 | the pruned search for [13, 25] over the tester's tree yields {14, 15, 17, 25} |
| Scenarios.FastRangeOfTesterTree | java-code/TeachingJava/src/teachingjava/trees/BinarySearchTreeTester.java:38-53 | the successor walk for [13, 25] over a tree built from the same values yields the same {14, 15, 17, 25} |
| Scenarios.TesterTreeInRange | java-code/TeachingJava/src/teachingjava/trees/BinarySearchTreeTester.java:21-34 | whatever order the tester's values are held in, those within [13, 25] are 14, 15, 17 and 25 |

## Left out

- Generic values and comparators: values are `int`, and the comparator and `compareTo` are integer order. The two-argument constructor with a custom `Comparator` is covered only for natural order.
- The getters `getData`, `getLeft`, `getRight` and `getParent` are read as field accesses.
- `contains` returns `Tree<T>`. The model returns the node itself, which is the object the source returns.
- The `HashSet` that `findElementsBetweenHelper` fills is a `set<int>` value. The helper takes it in and returns it, instead of mutating a shared object.
- `inorderSuccessor`'s `while (true)` loop is written as a loop guarded by the exit test. Both versions run the same steps.
- `InorderSuccessor`, `ClimbToLeftParent` and `FindElementsBetweenFast` take a ghost `root` parameter. It names the whole tree that parent links lead back to. It exists only for the proof, and no caller has to compute it.
- `insert`'s four branches are the methods `AttachLeft`, `DescendLeft`, `AttachRight` and `DescendRight`. `findElementsBetweenFast`'s loop is the method `CollectWhileAtMost`, and its successor call sits in `Advance`. Together they run the same steps in the same order.
- BinarySearchTreeMethods.FindElementsBetweenFast: for a start node below the root, it is not claimed equal to the values in range of that node's subtree, because the source's successor walk climbs out of the subtree into the rest of the tree. The contract states what the walk does collect.
- Printing: `Integer.toString` is modelled as a decimal rendering (`Show`). The tester's `System.out.println` is not modelled; the scenarios return the string or set that would be printed.
- The tester's straight-line `insert` calls are the loop `InsertEach` over the same values in the same order.
- Null arguments and stack overflow on very deep trees: the source has no guard for either, and an `int` value cannot be null.
- The `Tree` interfaces (res/java-code/TeachingJava/src/teachingjava/trees/Tree.java and java-code/TeachingJava/src/teachingjava/trees/Tree.java) are not part of this model; they only declare `insert` and `contains`.

## Findings

| source | as written | input that shows it | evidently intended | confidence | as-written member | corrected member |
|---|---|---|---|---|---|---|
| res/java-code/TeachingJava/src/teachingjava/trees/BinarySearchTreeMethods.java:9-10 | at the node without a right child, `findMax` returns `t.getRight().getData()`, reading through the null right link | any tree, e.g. the single node 5: the first test finds no right child and dereferences null | return `t.getData()` there: the rightmost node's value, which is the largest value | not executed | BinarySearchTreeMethods.FindMaxAsWritten | BinarySearchTreeMethods.FindMax |
