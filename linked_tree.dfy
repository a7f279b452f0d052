/**
 * The linked N-ary tree: a root and a node counter, updated in place by the
 * structural operations, and the traversals that hand out positions.
 */
module LinkedTrees {
  import opened Wrappers
  import opened Trees
  import opened Traversals

  /** Why an operation refused to change the tree. */
  datatype TreeError =
    | RootExists       // addRoot on a tree that already has a root
    | IndexOutOfRange  // add at a child index outside 0 .. number of children

  /** An entry of the breadth-first queue: a position and the subtree found there. */
  datatype Entry<E> = Entry(at: Path, node: Tree<E>)

  /** The queue entries of the children of `node`, which sits at position `at`. */
  function ChildEntries<E>(at: Path, node: Tree<E>): seq<Entry<E>> {
    seq(|node.children|, i requires 0 <= i < |node.children| => Entry(at + [i], node.children[i]))
  }

  /** The queue seen as trees of positions. */
  ghost function Labels<E>(queue: seq<Entry<E>>): seq<Tree<Path>> {
    seq(|queue|, i requires 0 <= i < |queue| => Label(queue[i].node, queue[i].at))
  }

  class LinkedTree<E> {
    var root: Option<Tree<E>>
    var size: int

    /** The counter holds the number of nodes reachable from the root. */
    ghost predicate Valid()
      reads this
    {
      size == if root.None? then 0 else Size(root.value)
    }

    /** `p` denotes a node of this tree. */
    ghost predicate IsPosition(p: Path)
      reads this
    {
      root.Some? && ValidPath(root.value, p)
    }

    constructor ()
      ensures Valid() && root == None && size == 0
    {
      root := None;
      size := 0;
    }

    method IsEmpty() returns (empty: bool)
      requires Valid()
      ensures empty <==> size == 0
      ensures empty <==> root == None
    {
      empty := size == 0;
    }

    method AddRoot(e: E) returns (r: Result<Path, TreeError>)
      requires Valid()
      modifies this
      ensures Valid()
      ensures old(root).Some? ==> r == Failure(RootExists) && root == old(root) && size == old(size)
      ensures old(root).None? ==> r == Success([]) && root == Some(Leaf(e)) && size == 1
    {
      var empty := IsEmpty();
      if !empty {
        return Failure(RootExists);
      }
      root := Some(Leaf(e));
      size := size + 1;
      r := Success([]);
    }

    /** Appends a new leaf holding `e` as the last child of the node at `p`. */
    method Add(e: E, p: Path) returns (q: Path)
      requires Valid() && IsPosition(p)
      modifies this
      ensures Valid() && root.Some? && size == old(size) + 1
      ensures root.value == InsertChild(old(root.value), p, |At(old(root.value), p).children|, e)
      ensures q == p + [|At(old(root.value), p).children|]
      ensures IsPosition(p) && At(root.value, p).children == At(old(root.value), p).children + [Leaf(e)]
      ensures IsPosition(q) && At(root.value, q) == Leaf(e)
    {
      var t := root.value;
      var n := |At(t, p).children|;
      InsertChildSpec(t, p, n, e);
      assert At(t, p).children[..n] == At(t, p).children && At(t, p).children[n..] == [];
      root := Some(InsertChild(t, p, n, e));
      size := size + 1;
      q := p + [n];
    }

    /**
     * Inserts a new leaf holding `e` as child number `n` of the node at `p`,
     * after checking that `n` lies between 0 and the number of children.
     */
    method AddAt(e: E, p: Path, n: int) returns (r: Result<Path, TreeError>)
      requires Valid() && IsPosition(p)
      modifies this
      ensures Valid() && root.Some?
      ensures !(0 <= n <= |At(old(root.value), p).children|) ==>
        r == Failure(IndexOutOfRange) && root == old(root) && size == old(size)
      ensures 0 <= n <= |At(old(root.value), p).children| ==>
        && r == Success(p + [n])
        && root.value == InsertChild(old(root.value), p, n, e)
        && size == old(size) + 1
        && IsPosition(p + [n]) && At(root.value, p + [n]) == Leaf(e)
        && IsPosition(p)
        && At(root.value, p).children ==
             At(old(root.value), p).children[..n] + [Leaf(e)] + At(old(root.value), p).children[n..]
    {
      var t := root.value;
      if n < 0 || n > |At(t, p).children| {
        return Failure(IndexOutOfRange);
      }
      InsertChildSpec(t, p, n, e);
      root := Some(InsertChild(t, p, n, e));
      size := size + 1;
      r := Success(p + [n]);
    }

    /** Exchanges the elements stored at `p1` and `p2`. */
    method SwapElements(p1: Path, p2: Path)
      requires Valid() && IsPosition(p1) && IsPosition(p2)
      modifies this
      ensures Valid() && root.Some? && size == old(size)
      ensures root.value == Swapped(old(root.value), p1, p2)
      ensures forall q :: IsPosition(q) <==> old(IsPosition(q))
      ensures At(root.value, p2).elem == old(At(root.value, p1).elem)
      ensures p1 != p2 ==> At(root.value, p1).elem == old(At(root.value, p2).elem)
    {
      var t := root.value;
      var aux := At(t, p1).elem;
      var t1 := SetElem(t, p1, At(t, p2).elem);
      root := Some(SetElem(t1, p2, aux));
      SwappedSpec(t, p1, p2, p1);
      SwappedSpec(t, p1, p2, p2);
    }

    /** Stores `e` at `p` and returns the element that was there. */
    method Replace(p: Path, e: E) returns (previous: E)
      requires Valid() && IsPosition(p)
      modifies this
      ensures Valid() && root.Some? && size == old(size)
      ensures previous == At(old(root.value), p).elem
      ensures root.value == SetElem(old(root.value), p, e)
      ensures forall q :: IsPosition(q) <==> old(IsPosition(q))
      ensures At(root.value, p).elem == e
    {
      var t := root.value;
      previous := At(t, p).elem;
      root := Some(SetElem(t, p, e));
      SetElemSize(t, p, e);
      SetElemAt(t, p, e, p);
    }

    /**
     * Removes the node at `p` with its whole subtree: the root empties the tree,
     * any other node is taken out of its parent's children.
     */
    method Remove(p: Path)
      requires Valid() && IsPosition(p)
      modifies this
      ensures Valid()
      ensures p == [] ==> root == None && size == 0
      ensures p != [] ==>
        && ValidPath(old(root.value), Parent(p))
        && Last(p) < |At(old(root.value), Parent(p)).children|
        && root == Some(RemoveChild(old(root.value), Parent(p), Last(p)))
        && size == old(size) - Size(At(old(root.value), p))
        && IsPosition(Parent(p))
        && At(root.value, Parent(p)).children ==
             At(old(root.value), Parent(p)).children[..Last(p)] + At(old(root.value), Parent(p)).children[Last(p) + 1..]
    {
      if p == [] {
        root := None;
        size := 0;
      } else {
        var t := root.value;
        AtParent(t, p);
        RemoveChildSpec(t, Parent(p), Last(p));
        root := Some(RemoveChild(t, Parent(p), Last(p)));
        var removed := ComputeSize(At(t, p));
        size := size - removed;
      }
    }

    /** The number of nodes of the subtree `node`: one plus the sizes of its children. */
    static method ComputeSize(node: Tree<E>) returns (n: int)
      ensures n == Size(node) && n >= 1
      decreases node
    {
      n := 1;
      for i := 0 to |node.children|
        invariant n == 1 + SizeF(node.children[..i])
      {
        var c := ComputeSize(node.children[i]);
        SizeFSnoc(node.children, i);
        n := n + c;
      }
      assert node.children[..|node.children|] == node.children;
    }

    /** A new tree whose root is the node at `p`; this tree is left as it is. */
    method SubTree(p: Path) returns (t: LinkedTree<E>)
      requires Valid() && IsPosition(p)
      ensures fresh(t) && t.Valid()
      ensures t.root == Some(At(root.value, p)) && t.size == Size(At(root.value, p))
    {
      var node := At(root.value, p);
      t := new LinkedTree();
      t.root := Some(node);
      t.size := ComputeSize(node);
    }

    // -------------------------------------------------------------------------
    // Traversals

    /** The positions of the tree in pre-order. */
    method IteratorPreOrder() returns (positions: seq<Path>)
      requires Valid()
      ensures root.None? ==> positions == []
      ensures root.Some? ==> positions == PreOrder(Label(root.value, []))
      ensures |positions| == size
      ensures forall x :: multiset(positions)[x] == if IsPosition(x) then 1 else 0
    {
      var empty := IsEmpty();
      if empty {
        return [];
      }
      positions := PreOrderTraversal(root.value, [], []);
      PreOrderVisitsAll(root.value);
    }

    /** The positions of the tree in post-order. */
    method IteratorPostOrder() returns (positions: seq<Path>)
      requires Valid()
      ensures root.None? ==> positions == []
      ensures root.Some? ==> positions == PostOrder(Label(root.value, []))
      ensures |positions| == size
      ensures forall x :: multiset(positions)[x] == if IsPosition(x) then 1 else 0
    {
      var empty := IsEmpty();
      if empty {
        return [];
      }
      positions := PostOrderTraversal(root.value, [], []);
      PostOrderVisitsAll(root.value);
    }

    /** The positions of the tree in breadth-first order. */
    method Iterator() returns (positions: seq<Path>)
      requires Valid()
      ensures root.None? ==> positions == []
      ensures root.Some? ==> positions == Bfs([Label(root.value, [])])
      ensures root.Some? ==> positions == LevelOrder([Label(root.value, [])])
      ensures |positions| == size
      ensures forall x :: multiset(positions)[x] == if IsPosition(x) then 1 else 0
    {
      positions := [];
      if root.Some? {
        positions := BreadthFirstTraversal(root.value, [], positions);
        BfsVisitsAll(root.value);
        BfsIsLevelOrder([Label(root.value, [])]);
      }
    }

    /** Appends the positions of `node`, which sits at `at`, found by a FIFO queue. */
    static method BreadthFirstTraversal(node: Tree<E>, at: Path, positions: seq<Path>) returns (out: seq<Path>)
      ensures out == positions + Bfs([Label(node, at)])
    {
      out := positions;
      var queue := [Entry(at, node)];
      assert Labels(queue) == [Label(node, at)];
      while queue != []
        invariant out + Bfs(Labels(queue)) == positions + Bfs([Label(node, at)])
        decreases SizeF(Labels(queue))
      {
        var nodeToVisit := queue[0];
        ghost var ls := Labels(queue);
        queue := queue[1..];
        out := out + [nodeToVisit.at];
        queue := queue + ChildEntries(nodeToVisit.at, nodeToVisit.node);
        assert Labels(queue) == ls[1..] + ls[0].children;
        QueueStepSize(ls);
      }
    }

    /** Appends the positions of `node`, which sits at `at`, in post-order. */
    static method PostOrderTraversal(node: Tree<E>, at: Path, positions: seq<Path>) returns (out: seq<Path>)
      ensures out == positions + PostOrder(Label(node, at))
      decreases node
    {
      out := positions;
      ghost var ls := Label(node, at).children;
      for i := 0 to |node.children|
        invariant out == positions + PostOrderF(ls[..i])
      {
        out := PostOrderTraversal(node.children[i], at + [i], out);
        PostOrderFSnoc(ls, i);
      }
      assert ls[..|ls|] == ls;
      out := out + [at];
    }

    /** Appends the positions of `node`, which sits at `at`, in pre-order. */
    static method PreOrderTraversal(node: Tree<E>, at: Path, positions: seq<Path>) returns (out: seq<Path>)
      ensures out == positions + PreOrder(Label(node, at))
      decreases node
    {
      out := positions + [at];
      ghost var ls := Label(node, at).children;
      for i := 0 to |node.children|
        invariant out == positions + [at] + PreOrderF(ls[..i])
      {
        out := PreOrderTraversal(node.children[i], at + [i], out);
        PreOrderFSnoc(ls, i);
      }
      assert ls[..|ls|] == ls;
    }
  }
}
