# LinkedTree: a verified model of a linked N-ary tree

The modelled system is `LinkedTree<E>`, a mutable, ordered N-ary tree. Callers
address its nodes through positions. The tree keeps a root node and a node
counter `size`. Each node holds an element, an ordered list of children and a
link to its parent. The operations are:

- adding a root;
- adding a child, either at the end or at a given index;
- swapping and replacing elements;
- removing a subtree;
- extracting a subtree as a new tree;
- computing subtree sizes;
- three traversals (breadth-first with a FIFO queue, pre-order and post-order), which hand out positions.

## How the model is built

- `wrappers.dfy`: `Option` and `Result`.
- `trees.dfy` (module `Trees`):
  - A node is the value `Tree<E> = Node(elem, children)`.
  - A position is a `Path`: the sequence of child indices from the root to the node. The root is `[]`.
  - `ValidPath` says whether a path leads to a node. `At` returns the subtree at a path.
  - `Size` counts nodes: one plus the sizes of the children.
  - The edits are functions: `InsertChild`, `RemoveChild`, `SetElem` and `Swapped`. The first two are built on `WithSubtree`, which replaces the subtree at a path.
  - Lemmas say exactly what each edit changes and what it leaves alone.
- `traversals.dfy` (module `Traversals`):
  - `PreOrder`, `PostOrder` and the FIFO-queue order `Bfs` are reference functions.
  - `LevelOrder` is a second definition of breadth-first order, built level by level. It is proved equal to `Bfs`.
  - `Label(t, at)` replaces every element of `t` with its own position. A traversal of `Label(t, [])` is therefore the sequence of positions the linked tree hands out.
  - Lemmas prove that each traversal lists every position of the tree exactly once.
- `linked_tree.dfy` (module `LinkedTrees`):
  - `LinkedTree<E>` is a class with the source's two fields, `root: Option<Tree<E>>` and `size: int`.
  - `Valid()` is the invariant that `size` is the number of nodes reachable from `root`.
  - Every mutating method `modifies this`, keeps `Valid()`, and states its new root and size in terms of the old ones.
  - `ComputeSize` and the traversal helpers recurse or loop, as the source does. They are proved against the reference functions.
- `findings.dfy`: two source operations modelled as written, with the inputs that show their defects (see Findings).
- `scenario.dfy`: the sample tree with root A, children B and C, and D under B. It states the three traversal orders of that tree and the effect of removing B.

Modelling decisions where the source is incomplete or departs from its own description:

- **Child lists start empty.** The node class never creates its child list. As written, every `add` would fail on a null list. The model gives a new node an empty child list.
- **`add(e, p, n)` inserts at `n`,** as intended. The source checks `n` and then appends at the end; this is a Finding.
- **Breadth-first iteration is correct in the model.** `iterator()` uses a breadth-first helper that enqueues the start node's children every round, so it does not terminate; this is a Finding. `LinkedTree.Iterator` uses the correct `breadthFirstTraversal` loop instead.
- **`subTree` leaves the source tree alone.** The intended design moves the extracted nodes out of the original tree. The code only builds a new tree object over the same nodes and unlinks nothing. The model follows the code: `SubTree` has no `modifies` clause, so the original tree does not change.
- **Position validity is a precondition.** The source's position check is only a runtime type test. `IsPosition(p)` (the path leads to a node of the current tree) is a `requires` of every operation that takes a position.

## Model

| member | source | states |
|---|---|---|
| `LinkedTrees.LinkedTree.constructor` | TADArboles/src/LinkedTree.java:51-52 | a new tree has no root and size 0, and satisfies the size invariant |
| `LinkedTrees.LinkedTree.IsEmpty` | TADArboles/src/LinkedTree.java:150-152 | the tree is empty iff size is 0, and also iff there is no root |
| `LinkedTrees.LinkedTree.AddRoot` | TADArboles/src/LinkedTree.java:56-63 | on an empty tree: root becomes a single leaf holding e, size becomes 1, and the root position is returned; on a non-empty tree: fails with RootExists and changes nothing |
| `LinkedTrees.LinkedTree.Add` | TADArboles/src/LinkedTree.java:73-79 | the node at p gains the new leaf as its last child; the old children keep their order; size grows by exactly 1; the new leaf's position is returned |
| `LinkedTrees.LinkedTree.AddAt` | TADArboles/src/LinkedTree.java:82-95 | n < 0 or n > number of children of p: fails with IndexOutOfRange and changes nothing; otherwise the new leaf becomes child n of p, the children before n stay before it and those after shift right, size grows by exactly 1 |
| `Trees.InsertChildSpec` | TADArboles/src/LinkedTree.java:73-95 | inserting a child adds exactly one node (size + 1) at index n; the node at p keeps its element; positions beside p keep their subtrees |
| `LinkedTrees.LinkedTree.SwapElements` | TADArboles/src/LinkedTree.java:98-104 | the element at p2 becomes the old element at p1 and, when p1 != p2, vice versa; the set of positions and the size are unchanged |
| `Trees.SwappedSpec` | TADArboles/src/LinkedTree.java:98-104 | after a swap, every position other than p1 and p2 holds its old element; the shape and the node count are unchanged |
| `Trees.SwappedSelf` | TADArboles/src/LinkedTree.java:98-104 | swapping a position with itself is the identity |
| `Trees.SwappedTwice` | TADArboles/src/LinkedTree.java:98-104 | swapping the same two positions twice restores the original tree |
| `LinkedTrees.LinkedTree.Replace` | TADArboles/src/LinkedTree.java:107-112 | returns the element previously at p, stores e there, and keeps the positions and the size |
| `Trees.SetElemAt` | TADArboles/src/LinkedTree.java:107-112 | overwriting the element at p changes that element only; every other position keeps its element and its number of children |
| `Trees.ReplaceBack` | TADArboles/src/LinkedTree.java:107-112 | replacing with e and then with the returned old value restores the original tree |
| `LinkedTrees.LinkedTree.Remove` | TADArboles/src/LinkedTree.java:115-125 | removing the root empties the tree with size 0; removing another node deletes it from its parent's children, keeps the order of the remaining siblings, and decreases size by the size of the removed subtree |
| `Trees.RemoveChildSpec` | TADArboles/src/LinkedTree.java:121-123 | removing child i of the node at p: the node keeps its element, its other children keep their order, the node count drops by the removed subtree's size, and positions beside p are untouched |
| `Trees.WithSubtreeSize` | TADArboles/src/LinkedTree.java:123 | replacing a subtree changes the node count by the new subtree's size minus the old one's |
| `LinkedTrees.LinkedTree.ComputeSize` | TADArboles/src/LinkedTree.java:127-133 | the loop's result is the subtree's node count, at least 1 |
| `LinkedTrees.LinkedTree.SubTree` | TADArboles/src/LinkedTree.java:136-142 | returns a fresh valid tree whose root is the subtree at p and whose size is that subtree's node count |
| `LinkedTrees.LinkedTree.IteratorPreOrder` | TADArboles/src/LinkedTree.java:204-212 | an empty tree yields []; otherwise the result is the pre-order of the positions; its length equals size, and every position of the tree occurs exactly once |
| `LinkedTrees.LinkedTree.PreOrderTraversal` | TADArboles/src/LinkedTree.java:246-253 | appends to the given list the node, then the pre-orders of its children in child order |
| `Traversals.PreOrderVisitsAll` | TADArboles/src/LinkedTree.java:246-253 | the pre-order of positions has as many entries as the tree has nodes, contains each valid position exactly once, and starts at the root |
| `Traversals.PreOrderContents` | TADArboles/src/LinkedTree.java:246-253 | pre-order has one entry per node, and its multiset of elements is the tree's |
| `LinkedTrees.LinkedTree.IteratorPostOrder` | TADArboles/src/LinkedTree.java:215-223 | an empty tree yields []; otherwise the result is the post-order of the positions; its length equals size, and every position of the tree occurs exactly once |
| `LinkedTrees.LinkedTree.PostOrderTraversal` | TADArboles/src/LinkedTree.java:237-244 | appends to the given list the post-orders of the children in child order, then the node |
| `Traversals.PostOrderVisitsAll` | TADArboles/src/LinkedTree.java:237-244 | the post-order of positions has as many entries as the tree has nodes, contains each valid position exactly once, and ends at the root |
| `Traversals.PostOrderContents` | TADArboles/src/LinkedTree.java:237-244 | post-order has one entry per node, and its multiset of elements is the tree's |
| `LinkedTrees.LinkedTree.BreadthFirstTraversal` | TADArboles/src/LinkedTree.java:225-235 | the FIFO loop (take the head, emit it, enqueue its children) appends exactly the queue order of the subtree's positions |
| `LinkedTrees.LinkedTree.Iterator` | TADArboles/src/LinkedTree.java:185-189 | an empty tree yields []; otherwise the breadth-first order of positions, which is level by level and left to right within a level; its length equals size, and every position occurs exactly once |
| `Traversals.BfsIsLevelOrder` | TADArboles/src/LinkedTree.java:225-235 | FIFO-queue order equals level order: each level of the tree left to right, then the levels below it |
| `Traversals.BfsSplit` | TADArboles/src/LinkedTree.java:229-233 | dequeuing a queue prefix emits its roots in order and leaves their children, in order, behind the rest of the queue |
| `Traversals.BfsContents` | TADArboles/src/LinkedTree.java:225-235 | the queue order has one entry per node in the queue's trees, and its multiset of elements is theirs |
| `Traversals.BfsVisitsAll` | TADArboles/src/LinkedTree.java:225-235 | the breadth-first order of positions has as many entries as the tree has nodes, contains each valid position exactly once, and starts at the root |
| `Traversals.LabelCount` | TADArboles/src/LinkedTree.java:22-34 | the tree of positions contains every position below `at` that the tree has exactly once, and nothing else |
| `Trees.Size` | TADArboles/src/LinkedTree.java:127-133 | a subtree's node count is at least 1 |
| `Trees.SetElem` | TADArboles/src/LinkedTree.java:110 | writing an element leaves the set of valid positions unchanged |
| `Findings.AddAtAsWrittenKeepsOldChild` | TADArboles/src/LinkedTree.java:84-86 | as written, for every accepted index n short of the end, child n after the call is the old child n, and the new leaf is last |
| `Findings.AddAtAsWrittenExample` | TADArboles/src/LinkedTree.java:82-89 | as written, adding 2 at index 0 under a root whose only child is 1 gives the children [1, 2] |
| `Findings.BreadthOrderNeverDrains` | TADArboles/src/LinkedTree.java:191-201 | as written, when the start node has a child, the iterator's queue is non-empty after every round, so the loop never ends |
| `Scenario.SamplePreOrder` | TADArboles/src/LinkedTree.java:246-253 | for root A with children B, C and D under B, pre-order is [A, B, D, C] |
| `Scenario.SamplePostOrder` | TADArboles/src/LinkedTree.java:237-244 | for the same tree, post-order is [D, B, C, A] |
| `Scenario.SampleBreadthFirst` | TADArboles/src/LinkedTree.java:225-235 | for the same tree, breadth-first order is [A, B, C, D], and there are 4 nodes |
| `Scenario.SampleLabels` | TADArboles/src/LinkedTree.java:204-212 | for the same tree, pre-order visits the positions [], [0], [0, 0], [1] |
| `Scenario.SampleRemoveB` | TADArboles/src/LinkedTree.java:115-125 | removing B leaves the tree A with the single child C: 2 nodes, and breadth-first order [A, C] |

## Left out

- Node identity: a position is a path of child indices, not a reference to a node object. So after an insertion at an index, or a removal, the paths of later siblings and their descendants shift. In the source, a handle keeps denoting the same node. Stale handles into a removed subtree are not detected, because validity is checked against the current tree only.
- Sharing between a tree and its `subTree`: the source's new tree points at the same node objects, so later changes made through one tree are seen by the other. The model copies the subtree value, so it does not capture this aliasing.
- Parent links: they are not stored. The parent of position `p` is `Parent(p)`, the path without its last index.
- The runtime type test and unchecked cast in the position check, and the exception messages. Invalid positions are excluded by `requires`. The two checked failures, an existing root and a child index out of range, are `Result` failures.
- The 32-bit width of `size`: it is an unbounded integer here. A tree of more than 2^31 - 1 nodes, where the source's counter would wrap around, is not modelled.
- `attach`, `root`, `parent`, `children`, `isInternal`, `isLeaf`, `isRoot` and `size()`: in the source they only throw `UnsupportedOperationException`, so there is no behaviour to model.
- The Java `Iterator` objects: the traversals return the sequence of positions the iterator would produce.
- The null checks in the three traversal helpers: the model's helpers take a node. Their callers only pass the root of a non-empty tree.
- The non-terminating breadth-first loop behind `iterator()` is modelled only by its queue (`Findings.BreadthOrderQueue`), not as a method that never returns.
- The `material.Position` interface and the `NAryTree` interface are not part of this model.

## Findings

| source | as written | input that shows it | evidently intended | confidence | as-written member | corrected member |
|---|---|---|---|---|---|---|
| TADArboles/src/LinkedTree.java:84-86 | `add(e, p, n)` checks that 0 <= n <= number of children, then appends the new node at the end | a root 0 whose only child is 1; `add(2, root, 0)` gives the children [1, 2] | the new node becomes child n: [2, 1] | high; not executed | `Findings.AddAtAsWrittenKeepsOldChild` | `LinkedTrees.LinkedTree.AddAt` |
| TADArboles/src/LinkedTree.java:198 | the breadth-first helper behind `iterator()` enqueues the children of the start node every round, not those of the node just dequeued | any tree whose root has a child: the queue never becomes empty | enqueue the children of the dequeued node, as `breadthFirstTraversal` does at line 232 | high; not executed | `Findings.BreadthOrderNeverDrains` | `LinkedTrees.LinkedTree.Iterator` |
