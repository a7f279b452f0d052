/**
 * The three traversal orders as functions over trees, the tree of positions
 * (`Label`) whose traversals are the position sequences the linked tree hands
 * out, and the facts that each traversal lists every position exactly once.
 */
module Traversals {
  import opened Trees

  // ---------------------------------------------------------------------------
  // Orders

  /** A node, then the pre-orders of its children in child order. */
  function PreOrder<T>(t: Tree<T>): seq<T>
    decreases t
  {
    [t.elem] + PreOrderF(t.children)
  }

  function PreOrderF<T>(ts: seq<Tree<T>>): seq<T>
    decreases ts
  {
    if ts == [] then [] else PreOrder(ts[0]) + PreOrderF(ts[1..])
  }

  /** The post-orders of the children in child order, then the node. */
  function PostOrder<T>(t: Tree<T>): seq<T>
    decreases t
  {
    PostOrderF(t.children) + [t.elem]
  }

  function PostOrderF<T>(ts: seq<Tree<T>>): seq<T>
    decreases ts
  {
    if ts == [] then [] else PostOrder(ts[0]) + PostOrderF(ts[1..])
  }

  /** One dequeue step of a FIFO queue removes one node and enqueues its children. */
  lemma QueueStepSize<T>(q: seq<Tree<T>>)
    requires q != []
    ensures SizeF(q[1..] + q[0].children) == SizeF(q) - 1
  {
    SizeFAppend(q[1..], q[0].children);
  }

  /**
   * Breadth-first order of a FIFO queue of subtrees: dequeue the first, emit it,
   * enqueue its children at the back.
   */
  function Bfs<T>(q: seq<Tree<T>>): seq<T>
    decreases SizeF(q)
  {
    if q == [] then []
    else
      QueueStepSize(q);
      [q[0].elem] + Bfs(q[1..] + q[0].children)
  }

  /** The elements of the roots of a sequence of trees, left to right. */
  function Roots<T>(q: seq<Tree<T>>): (r: seq<T>)
    ensures |r| == |q|
    ensures forall i :: 0 <= i < |q| ==> r[i] == q[i].elem
    decreases q
  {
    if q == [] then [] else [q[0].elem] + Roots(q[1..])
  }

  /** The next level: all children of a sequence of trees, left to right. */
  function Kids<T>(q: seq<Tree<T>>): seq<Tree<T>>
    decreases q
  {
    if q == [] then [] else q[0].children + Kids(q[1..])
  }

  lemma {:induction false} SizeFKids<T>(q: seq<Tree<T>>)
    ensures SizeF(q) == |q| + SizeF(Kids(q))
    decreases q
  {
    if q != [] {
      SizeFKids(q[1..]);
      SizeFAppend(q[0].children, Kids(q[1..]));
    }
  }

  /** Level order: the current level left to right, then the levels below it. */
  function LevelOrder<T>(q: seq<Tree<T>>): seq<T>
    decreases SizeF(q)
  {
    if q == [] then []
    else
      SizeFKids(q);
      Roots(q) + LevelOrder(Kids(q))
  }

  // ---------------------------------------------------------------------------
  // Forest functions over concatenations

  lemma {:induction false} PreOrderFAppend<T>(a: seq<Tree<T>>, b: seq<Tree<T>>)
    ensures PreOrderF(a + b) == PreOrderF(a) + PreOrderF(b)
    decreases a
  {
    if a == [] {
      assert a + b == b;
    } else {
      assert (a + b)[1..] == a[1..] + b;
      PreOrderFAppend(a[1..], b);
    }
  }

  lemma PreOrderFSnoc<T>(ts: seq<Tree<T>>, i: nat)
    requires i < |ts|
    ensures PreOrderF(ts[..i + 1]) == PreOrderF(ts[..i]) + PreOrder(ts[i])
  {
    assert ts[..i + 1] == ts[..i] + [ts[i]];
    PreOrderFAppend(ts[..i], [ts[i]]);
  }

  lemma {:induction false} PostOrderFAppend<T>(a: seq<Tree<T>>, b: seq<Tree<T>>)
    ensures PostOrderF(a + b) == PostOrderF(a) + PostOrderF(b)
    decreases a
  {
    if a == [] {
      assert a + b == b;
    } else {
      assert (a + b)[1..] == a[1..] + b;
      PostOrderFAppend(a[1..], b);
    }
  }

  lemma PostOrderFSnoc<T>(ts: seq<Tree<T>>, i: nat)
    requires i < |ts|
    ensures PostOrderF(ts[..i + 1]) == PostOrderF(ts[..i]) + PostOrder(ts[i])
  {
    assert ts[..i + 1] == ts[..i] + [ts[i]];
    PostOrderFAppend(ts[..i], [ts[i]]);
  }

  // ---------------------------------------------------------------------------
  // Breadth-first order is level order

  /** Emptying the queue prefix `q` emits its roots and leaves their children behind `r`. */
  lemma {:induction false} BfsSplit<T>(q: seq<Tree<T>>, r: seq<Tree<T>>)
    ensures Bfs(q + r) == Roots(q) + Bfs(r + Kids(q))
    decreases q
  {
    if q == [] {
      assert q + r == r && r + Kids(q) == r;
    } else {
      var h := q[0];
      assert (q + r)[0] == h;
      assert (q + r)[1..] + h.children == q[1..] + (r + h.children);
      BfsSplit(q[1..], r + h.children);
      assert r + Kids(q) == (r + h.children) + Kids(q[1..]);
    }
  }

  /** The FIFO queue emits the nodes level by level, each level left to right. */
  lemma {:induction false} BfsIsLevelOrder<T>(q: seq<Tree<T>>)
    ensures Bfs(q) == LevelOrder(q)
    decreases SizeF(q)
  {
    if q != [] {
      BfsSplit(q, []);
      assert q + [] == q && [] + Kids(q) == Kids(q);
      SizeFKids(q);
      BfsIsLevelOrder(Kids(q));
    }
  }

  // ---------------------------------------------------------------------------
  // Lengths and contents

  /** The elements of a tree, counted with multiplicity. */
  function Elems<T>(t: Tree<T>): multiset<T>
    decreases t
  {
    multiset{t.elem} + ElemsF(t.children)
  }

  function ElemsF<T>(ts: seq<Tree<T>>): multiset<T>
    decreases ts
  {
    if ts == [] then multiset{} else Elems(ts[0]) + ElemsF(ts[1..])
  }

  lemma {:induction false} ElemsFAppend<T>(a: seq<Tree<T>>, b: seq<Tree<T>>)
    ensures ElemsF(a + b) == ElemsF(a) + ElemsF(b)
    decreases a
  {
    if a == [] {
      assert a + b == b;
    } else {
      assert (a + b)[1..] == a[1..] + b;
      ElemsFAppend(a[1..], b);
    }
  }

  /** Pre-order lists every node of the tree once: its length is the node count and its contents the elements. */
  lemma {:induction false} PreOrderContents<T>(t: Tree<T>)
    ensures |PreOrder(t)| == Size(t)
    ensures multiset(PreOrder(t)) == Elems(t)
    decreases t, 1
  {
    PreOrderFContents(t.children);
  }

  lemma {:induction false} PreOrderFContents<T>(ts: seq<Tree<T>>)
    ensures |PreOrderF(ts)| == SizeF(ts)
    ensures multiset(PreOrderF(ts)) == ElemsF(ts)
    decreases ts, 0
  {
    if ts != [] {
      PreOrderContents(ts[0]);
      PreOrderFContents(ts[1..]);
    }
  }

  /** Post-order lists every node of the tree once. */
  lemma {:induction false} PostOrderContents<T>(t: Tree<T>)
    ensures |PostOrder(t)| == Size(t)
    ensures multiset(PostOrder(t)) == Elems(t)
    decreases t, 1
  {
    PostOrderFContents(t.children);
  }

  lemma {:induction false} PostOrderFContents<T>(ts: seq<Tree<T>>)
    ensures |PostOrderF(ts)| == SizeF(ts)
    ensures multiset(PostOrderF(ts)) == ElemsF(ts)
    decreases ts, 0
  {
    if ts != [] {
      PostOrderContents(ts[0]);
      PostOrderFContents(ts[1..]);
    }
  }

  /** Breadth-first order lists every node in the queue's trees once. */
  lemma {:induction false} BfsContents<T>(q: seq<Tree<T>>)
    ensures |Bfs(q)| == SizeF(q)
    ensures multiset(Bfs(q)) == ElemsF(q)
    decreases SizeF(q)
  {
    if q != [] {
      QueueStepSize(q);
      BfsContents(q[1..] + q[0].children);
      ElemsFAppend(q[1..], q[0].children);
    }
  }

  // ---------------------------------------------------------------------------
  // The tree of positions

  /** The tree `t`, placed at position `at`, with every element replaced by its own position. */
  function Label<E>(t: Tree<E>, at: Path): Tree<Path>
    decreases t
  {
    Node(at, seq(|t.children|, i requires 0 <= i < |t.children| => Label(t.children[i], at + [i])))
  }

  lemma {:induction false} LabelSize<E>(t: Tree<E>, at: Path)
    ensures Size(Label(t, at)) == Size(t)
    decreases t
  {
    var ls := Label(t, at).children;
    forall i | 0 <= i < |t.children| ensures Size(ls[i]) == Size(t.children[i]) {
      LabelSize(t.children[i], at + [i]);
    }
    SizeFPointwise(ls, t.children);
  }

  lemma {:induction false} SizeFPointwise<A, B>(a: seq<Tree<A>>, b: seq<Tree<B>>)
    requires |a| == |b| && forall i :: 0 <= i < |a| ==> Size(a[i]) == Size(b[i])
    ensures SizeF(a) == SizeF(b)
    decreases a
  {
    if a != [] {
      SizeFPointwise(a[1..], b[1..]);
    }
  }

  /** If only tree number `k` of a forest can hold `x`, the forest holds `x` as often as that tree. */
  lemma {:induction false} ElemsFOnly<T>(ts: seq<Tree<T>>, x: T, k: int)
    requires forall i :: 0 <= i < |ts| && i != k ==> Elems(ts[i])[x] == 0
    ensures ElemsF(ts)[x] == if 0 <= k < |ts| then Elems(ts[k])[x] else 0
    decreases ts
  {
    if ts != [] {
      ElemsFOnly(ts[1..], x, k - 1);
    }
  }

  /**
   * Every position below `at` that `t` has occurs exactly once in the labelled
   * tree; nothing else occurs in it.
   */
  lemma {:induction false} LabelCount<E>(t: Tree<E>, at: Path, x: Path)
    ensures Elems(Label(t, at))[x] == if at <= x && ValidPath(t, x[|at|..]) then 1 else 0
    decreases t
  {
    var ls := Label(t, at).children;
    var k: int := if |x| > |at| then x[|at|] else -1;
    forall i | 0 <= i < |ls| && i != k ensures Elems(ls[i])[x] == 0 {
      LabelCount(t.children[i], at + [i], x);
    }
    ElemsFOnly(ls, x, k);
    if 0 <= k < |ls| {
      LabelCount(t.children[k], at + [k], x);
      var rest := x[|at|..];
      if at <= x {
        assert rest[0] == k && rest[1..] == x[|at + [k]|..];
        assert at + [k] <= x;
      } else {
        assert !(at + [k] <= x);
      }
    } else if at <= x && x != at {
      assert x[|at|..][0] == k;
    }
    if x == at {
      assert x[|at|..] == [];
    }
  }

  /** The labelled tree of a whole tree holds each of its positions exactly once. */
  lemma PositionsOnce<E>(t: Tree<E>, x: Path)
    ensures Elems(Label(t, []))[x] == if ValidPath(t, x) then 1 else 0
  {
    LabelCount(t, [], x);
    assert x[0..] == x;
  }

  // ---------------------------------------------------------------------------
  // Each traversal lists every position exactly once

  lemma PreOrderVisitsAll<E>(t: Tree<E>)
    ensures |PreOrder(Label(t, []))| == Size(t)
    ensures forall x :: multiset(PreOrder(Label(t, [])))[x] == if ValidPath(t, x) then 1 else 0
    ensures PreOrder(Label(t, []))[0] == []
  {
    PreOrderContents(Label(t, []));
    LabelSize(t, []);
    forall x ensures multiset(PreOrder(Label(t, [])))[x] == if ValidPath(t, x) then 1 else 0 {
      PositionsOnce(t, x);
    }
  }

  lemma PostOrderVisitsAll<E>(t: Tree<E>)
    ensures |PostOrder(Label(t, []))| == Size(t)
    ensures forall x :: multiset(PostOrder(Label(t, [])))[x] == if ValidPath(t, x) then 1 else 0
    ensures PostOrder(Label(t, []))[Size(t) - 1] == []
  {
    PostOrderContents(Label(t, []));
    LabelSize(t, []);
    forall x ensures multiset(PostOrder(Label(t, [])))[x] == if ValidPath(t, x) then 1 else 0 {
      PositionsOnce(t, x);
    }
  }

  lemma BfsVisitsAll<E>(t: Tree<E>)
    ensures |Bfs([Label(t, [])])| == Size(t)
    ensures forall x :: multiset(Bfs([Label(t, [])]))[x] == if ValidPath(t, x) then 1 else 0
    ensures Bfs([Label(t, [])])[0] == []
  {
    var q := [Label(t, [])];
    BfsContents(q);
    LabelSize(t, []);
    assert SizeF(q) == Size(Label(t, []));
    assert ElemsF(q) == Elems(Label(t, []));
    forall x ensures multiset(Bfs(q))[x] == if ValidPath(t, x) then 1 else 0 {
      PositionsOnce(t, x);
    }
  }
}
