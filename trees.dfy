/**
 * Ordered N-ary trees as values, positions as paths of child indices, and the
 * structural edits the linked tree performs on them.
 */
module Trees {

  /** A position: the child indices leading from the root to a node ([] is the root). */
  type Path = seq<nat>

  /** A node: its element and its ordered children. */
  datatype Tree<E> = Node(elem: E, children: seq<Tree<E>>)

  function Leaf<E>(e: E): Tree<E> {
    Node(e, [])
  }

  /** `p` leads from the root of `t` to one of its nodes. */
  predicate ValidPath<E>(t: Tree<E>, p: Path)
    decreases p
  {
    p == [] || (p[0] < |t.children| && ValidPath(t.children[p[0]], p[1..]))
  }

  /** The subtree rooted at position `p`. */
  function At<E>(t: Tree<E>, p: Path): Tree<E>
    requires ValidPath(t, p)
    decreases p
  {
    if p == [] then t else At(t.children[p[0]], p[1..])
  }

  function Parent(p: Path): Path
    requires p != []
  {
    p[..|p| - 1]
  }

  function Last(p: Path): nat
    requires p != []
  {
    p[|p| - 1]
  }

  /** The number of nodes: the node itself plus the sizes of its children. */
  function Size<E>(t: Tree<E>): (n: nat)
    ensures n >= 1
    decreases t
  {
    1 + SizeF(t.children)
  }

  function SizeF<E>(ts: seq<Tree<E>>): nat
    decreases ts
  {
    if ts == [] then 0 else Size(ts[0]) + SizeF(ts[1..])
  }

  // ---------------------------------------------------------------------------
  // Sizes of forests

  lemma {:induction false} SizeFAppend<E>(a: seq<Tree<E>>, b: seq<Tree<E>>)
    ensures SizeF(a + b) == SizeF(a) + SizeF(b)
    decreases a
  {
    if a == [] {
      assert a + b == b;
    } else {
      assert (a + b)[1..] == a[1..] + b;
      SizeFAppend(a[1..], b);
    }
  }

  lemma SizeFSnoc<E>(ts: seq<Tree<E>>, i: nat)
    requires i < |ts|
    ensures SizeF(ts[..i + 1]) == SizeF(ts[..i]) + Size(ts[i])
  {
    assert ts[..i + 1] == ts[..i] + [ts[i]];
    SizeFAppend(ts[..i], [ts[i]]);
  }

  lemma {:induction false} SizeFUpdate<E>(ts: seq<Tree<E>>, i: nat, x: Tree<E>)
    requires i < |ts|
    ensures SizeF(ts[i := x]) == SizeF(ts) - Size(ts[i]) + Size(x)
    decreases ts
  {
    if i > 0 {
      assert ts[i := x][1..] == ts[1..][i - 1 := x];
      SizeFUpdate(ts[1..], i - 1, x);
    } else {
      assert ts[i := x][1..] == ts[1..];
    }
  }

  /** Removing the nodes of a sequence of trees between `a` and `b` keeps the rest. */
  lemma SizeFSplice<E>(a: seq<Tree<E>>, m: seq<Tree<E>>, b: seq<Tree<E>>)
    ensures SizeF(a + m + b) == SizeF(a) + SizeF(m) + SizeF(b)
  {
    SizeFAppend(a + m, b);
    SizeFAppend(a, m);
  }

  // ---------------------------------------------------------------------------
  // Paths

  /** Walking `p` and then `r` is walking `p + r`. */
  lemma {:induction false} AtAppend<E>(t: Tree<E>, p: Path, r: Path)
    requires ValidPath(t, p)
    ensures ValidPath(t, p + r) <==> ValidPath(At(t, p), r)
    ensures ValidPath(t, p + r) ==> At(t, p + r) == At(At(t, p), r)
    decreases p
  {
    if p == [] {
      assert p + r == r;
    } else {
      assert (p + r)[0] == p[0] && (p + r)[1..] == p[1..] + r;
      AtAppend(t.children[p[0]], p[1..], r);
    }
  }

  /** The child positions of a node are its path extended by one index. */
  lemma AtChild<E>(t: Tree<E>, p: Path, i: nat)
    requires ValidPath(t, p)
    ensures ValidPath(t, p + [i]) <==> i < |At(t, p).children|
    ensures ValidPath(t, p + [i]) ==> At(t, p + [i]) == At(t, p).children[i]
  {
    AtAppend(t, p, [i]);
  }

  /** A non-root position is a child of its parent position. */
  lemma AtParent<E>(t: Tree<E>, p: Path)
    requires p != [] && ValidPath(t, p)
    ensures ValidPath(t, Parent(p)) && Last(p) < |At(t, Parent(p)).children|
    ensures At(t, p) == At(t, Parent(p)).children[Last(p)]
  {
    assert p == Parent(p) + [Last(p)];
    ValidPrefix(t, p, |p| - 1);
    AtChild(t, Parent(p), Last(p));
  }

  /** Every prefix of a valid position is valid. */
  lemma {:induction false} ValidPrefix<E>(t: Tree<E>, p: Path, k: nat)
    requires ValidPath(t, p) && k <= |p|
    ensures ValidPath(t, p[..k])
    decreases p
  {
    if k > 0 {
      assert p[..k][0] == p[0] && p[..k][1..] == p[1..][..k - 1];
      ValidPrefix(t.children[p[0]], p[1..], k - 1);
    }
  }

  // ---------------------------------------------------------------------------
  // Replacing the subtree at a position

  /** `t` with the subtree at `p` replaced by `s`. */
  function WithSubtree<E>(t: Tree<E>, p: Path, s: Tree<E>): Tree<E>
    requires ValidPath(t, p)
    decreases p
  {
    if p == [] then s
    else Node(t.elem, t.children[p[0] := WithSubtree(t.children[p[0]], p[1..], s)])
  }

  /** The node count changes by the difference between the new and the old subtree. */
  lemma {:induction false} WithSubtreeSize<E>(t: Tree<E>, p: Path, s: Tree<E>)
    requires ValidPath(t, p)
    ensures Size(WithSubtree(t, p, s)) == Size(t) - Size(At(t, p)) + Size(s)
    decreases p
  {
    if p != [] {
      var c := t.children[p[0]];
      WithSubtreeSize(c, p[1..], s);
      SizeFUpdate(t.children, p[0], WithSubtree(c, p[1..], s));
    }
  }

  /** At and below `p`, the new tree is `s`. */
  lemma {:induction false} WithSubtreeBelow<E>(t: Tree<E>, p: Path, s: Tree<E>, r: Path)
    requires ValidPath(t, p)
    ensures ValidPath(WithSubtree(t, p, s), p + r) <==> ValidPath(s, r)
    ensures ValidPath(s, r) ==> At(WithSubtree(t, p, s), p + r) == At(s, r)
    decreases p
  {
    if p == [] {
      assert p + r == r;
    } else {
      assert (p + r)[0] == p[0] && (p + r)[1..] == p[1..] + r;
      WithSubtreeBelow(t.children[p[0]], p[1..], s, r);
    }
  }

  /** Above `p` (on the path from the root to `p`) only the edited child changes. */
  lemma {:induction false} WithSubtreeAbove<E>(t: Tree<E>, p: Path, s: Tree<E>, k: nat)
    requires ValidPath(t, p) && k < |p|
    ensures ValidPath(t, p[..k]) && ValidPath(WithSubtree(t, p, s), p[..k])
    ensures At(WithSubtree(t, p, s), p[..k]).elem == At(t, p[..k]).elem
    ensures |At(WithSubtree(t, p, s), p[..k]).children| == |At(t, p[..k]).children|
    ensures forall j :: 0 <= j < |At(t, p[..k]).children| && j != p[k] ==>
              At(WithSubtree(t, p, s), p[..k]).children[j] == At(t, p[..k]).children[j]
    decreases p
  {
    ValidPrefix(t, p, k);
    if k > 0 {
      assert p[..k][0] == p[0] && p[..k][1..] == p[1..][..k - 1];
      WithSubtreeAbove(t.children[p[0]], p[1..], s, k - 1);
    }
  }

  /** Positions beside `p` (neither above nor below it) keep their subtrees. */
  lemma {:induction false} WithSubtreeBeside<E>(t: Tree<E>, p: Path, s: Tree<E>, q: Path)
    requires ValidPath(t, p) && !(q <= p) && !(p <= q)
    ensures ValidPath(WithSubtree(t, p, s), q) <==> ValidPath(t, q)
    ensures ValidPath(t, q) ==> At(WithSubtree(t, p, s), q) == At(t, q)
    decreases p
  {
    assert p != [] && q != [];
    if p[0] == q[0] {
      assert !(q[1..] <= p[1..]) && !(p[1..] <= q[1..]);
      if q[0] < |t.children| {
        WithSubtreeBeside(t.children[p[0]], p[1..], s, q[1..]);
      }
    }
  }

  // ---------------------------------------------------------------------------
  // The edits of the linked tree

  /** `t` with a new leaf holding `e` inserted as child number `n` of the node at `p`. */
  function InsertChild<E>(t: Tree<E>, p: Path, n: nat, e: E): Tree<E>
    requires ValidPath(t, p) && n <= |At(t, p).children|
  {
    var parent := At(t, p);
    WithSubtree(t, p, Node(parent.elem, parent.children[..n] + [Leaf(e)] + parent.children[n..]))
  }

  /** `t` with child number `i` of the node at `p` (and all of its subtree) taken out. */
  function RemoveChild<E>(t: Tree<E>, p: Path, i: nat): Tree<E>
    requires ValidPath(t, p) && i < |At(t, p).children|
  {
    var parent := At(t, p);
    WithSubtree(t, p, Node(parent.elem, parent.children[..i] + parent.children[i + 1..]))
  }

  /** `t` with the element of the node at `p` overwritten by `e`. */
  function SetElem<E>(t: Tree<E>, p: Path, e: E): (r: Tree<E>)
    requires ValidPath(t, p)
    ensures forall q :: ValidPath(r, q) <==> ValidPath(t, q)
    decreases p
  {
    if p == [] then Node(e, t.children)
    else Node(t.elem, t.children[p[0] := SetElem(t.children[p[0]], p[1..], e)])
  }

  /** The tree after exchanging the elements at `p1` and `p2`. */
  function Swapped<E>(t: Tree<E>, p1: Path, p2: Path): Tree<E>
    requires ValidPath(t, p1) && ValidPath(t, p2)
  {
    var aux := At(t, p1).elem;
    SetElem(SetElem(t, p1, At(t, p2).elem), p2, aux)
  }

  // ---------------------------------------------------------------------------
  // What the edits do

  /**
   * Inserting a child: the node at `p` gains exactly the new leaf, at index `n`,
   * the other children keep their order, the node count grows by one, and every
   * position beside `p` is untouched.
   */
  lemma InsertChildSpec<E>(t: Tree<E>, p: Path, n: nat, e: E)
    requires ValidPath(t, p) && n <= |At(t, p).children|
    ensures var r := InsertChild(t, p, n, e);
      && ValidPath(r, p)
      && At(r, p).elem == At(t, p).elem
      && At(r, p).children == At(t, p).children[..n] + [Leaf(e)] + At(t, p).children[n..]
      && ValidPath(r, p + [n]) && At(r, p + [n]) == Leaf(e)
      && Size(r) == Size(t) + 1
    ensures forall q :: !(q <= p) && !(p <= q) ==>
      (ValidPath(InsertChild(t, p, n, e), q) <==> ValidPath(t, q))
    ensures forall q :: !(q <= p) && !(p <= q) && ValidPath(t, q) ==> At(InsertChild(t, p, n, e), q) == At(t, q)
  {
    var parent := At(t, p);
    var s := Node(parent.elem, parent.children[..n] + [Leaf(e)] + parent.children[n..]);
    var r := InsertChild(t, p, n, e);
    WithSubtreeBelow(t, p, s, []);
    assert p + [] == p;
    AtChild(r, p, n);
    WithSubtreeSize(t, p, s);
    assert parent.children == parent.children[..n] + parent.children[n..];
    SizeFAppend(parent.children[..n], parent.children[n..]);
    SizeFSplice(parent.children[..n], [Leaf(e)], parent.children[n..]);
    assert SizeF([Leaf(e)]) == 1;
    forall q | !(q <= p) && !(p <= q)
      ensures ValidPath(r, q) <==> ValidPath(t, q)
      ensures ValidPath(t, q) ==> At(r, q) == At(t, q)
    {
      WithSubtreeBeside(t, p, s, q);
    }
  }

  /**
   * Removing a child: the node at `p` loses exactly child `i`, the remaining
   * siblings keep their order, the node count drops by the size of the removed
   * subtree, and every position beside `p` is untouched.
   */
  lemma RemoveChildSpec<E>(t: Tree<E>, p: Path, i: nat)
    requires ValidPath(t, p) && i < |At(t, p).children|
    ensures var r := RemoveChild(t, p, i);
      && ValidPath(r, p)
      && At(r, p).elem == At(t, p).elem
      && At(r, p).children == At(t, p).children[..i] + At(t, p).children[i + 1..]
      && Size(r) == Size(t) - Size(At(t, p).children[i])
    ensures forall q :: !(q <= p) && !(p <= q) ==>
      (ValidPath(RemoveChild(t, p, i), q) <==> ValidPath(t, q))
    ensures forall q :: !(q <= p) && !(p <= q) && ValidPath(t, q) ==> At(RemoveChild(t, p, i), q) == At(t, q)
  {
    var parent := At(t, p);
    var s := Node(parent.elem, parent.children[..i] + parent.children[i + 1..]);
    var r := RemoveChild(t, p, i);
    WithSubtreeBelow(t, p, s, []);
    assert p + [] == p;
    WithSubtreeSize(t, p, s);
    assert parent.children == parent.children[..i] + [parent.children[i]] + parent.children[i + 1..];
    SizeFSplice(parent.children[..i], [parent.children[i]], parent.children[i + 1..]);
    SizeFAppend(parent.children[..i], parent.children[i + 1..]);
    assert SizeF([parent.children[i]]) == Size(parent.children[i]);
    forall q | !(q <= p) && !(p <= q)
      ensures ValidPath(r, q) <==> ValidPath(t, q)
      ensures ValidPath(t, q) ==> At(r, q) == At(t, q)
    {
      WithSubtreeBeside(t, p, s, q);
    }
  }

  /** Overwriting an element changes that element only: same shape, same other elements. */
  lemma {:induction false} SetElemAt<E>(t: Tree<E>, p: Path, e: E, q: Path)
    requires ValidPath(t, p) && ValidPath(t, q)
    ensures At(SetElem(t, p, e), q).elem == if q == p then e else At(t, q).elem
    ensures |At(SetElem(t, p, e), q).children| == |At(t, q).children|
    decreases p
  {
    if p != [] && q != [] {
      if p[0] == q[0] {
        SetElemAt(t.children[p[0]], p[1..], e, q[1..]);
      }
    }
  }

  lemma {:induction false} SetElemSize<E>(t: Tree<E>, p: Path, e: E)
    requires ValidPath(t, p)
    ensures Size(SetElem(t, p, e)) == Size(t)
    decreases p
  {
    if p != [] {
      var c := t.children[p[0]];
      SetElemSize(c, p[1..], e);
      SizeFUpdate(t.children, p[0], SetElem(c, p[1..], e));
    }
  }

  /** Writing back the element already stored is the identity. */
  lemma {:induction false} SetElemSame<E>(t: Tree<E>, p: Path)
    requires ValidPath(t, p)
    ensures SetElem(t, p, At(t, p).elem) == t
    decreases p
  {
    if p != [] {
      SetElemSame(t.children[p[0]], p[1..]);
    }
  }

  /** The second of two writes to the same position wins. */
  lemma {:induction false} SetElemTwice<E>(t: Tree<E>, p: Path, a: E, b: E)
    requires ValidPath(t, p)
    ensures SetElem(SetElem(t, p, a), p, b) == SetElem(t, p, b)
    decreases p
  {
    if p != [] {
      SetElemTwice(t.children[p[0]], p[1..], a, b);
    }
  }

  /** Writes to two different positions commute. */
  lemma {:induction false} SetElemCommute<E>(t: Tree<E>, p: Path, q: Path, a: E, b: E)
    requires ValidPath(t, p) && ValidPath(t, q) && p != q
    ensures SetElem(SetElem(t, p, a), q, b) == SetElem(SetElem(t, q, b), p, a)
    decreases p
  {
    if p != [] && q != [] && p[0] == q[0] {
      assert p[1..] != q[1..];
      SetElemCommute(t.children[p[0]], p[1..], q[1..], a, b);
    }
  }

  /** Replacing an element and then replacing it by the value returned restores the tree. */
  lemma ReplaceBack<E>(t: Tree<E>, p: Path, e: E)
    requires ValidPath(t, p)
    ensures ValidPath(SetElem(t, p, e), p)
    ensures At(SetElem(t, p, e), p).elem == e
    ensures SetElem(SetElem(t, p, e), p, At(t, p).elem) == t
  {
    SetElemAt(t, p, e, p);
    SetElemTwice(t, p, e, At(t, p).elem);
    SetElemSame(t, p);
  }

  /**
   * Swapping exchanges the two elements and nothing else: the shape, the node
   * count and every other element stay as they were.
   */
  lemma SwappedSpec<E>(t: Tree<E>, p1: Path, p2: Path, q: Path)
    requires ValidPath(t, p1) && ValidPath(t, p2) && ValidPath(t, q)
    ensures ValidPath(Swapped(t, p1, p2), q)
    ensures At(Swapped(t, p1, p2), q).elem ==
      if q == p2 then At(t, p1).elem
      else if q == p1 then At(t, p2).elem
      else At(t, q).elem
    ensures |At(Swapped(t, p1, p2), q).children| == |At(t, q).children|
    ensures Size(Swapped(t, p1, p2)) == Size(t)
  {
    var t1 := SetElem(t, p1, At(t, p2).elem);
    SetElemAt(t, p1, At(t, p2).elem, q);
    SetElemAt(t1, p2, At(t, p1).elem, q);
    SetElemSize(t, p1, At(t, p2).elem);
    SetElemSize(t1, p2, At(t, p1).elem);
  }

  /** Swapping a position with itself changes nothing. */
  lemma SwappedSelf<E>(t: Tree<E>, p: Path)
    requires ValidPath(t, p)
    ensures Swapped(t, p, p) == t
  {
    SetElemSame(t, p);
  }

  /** Swapping the same two positions twice restores the original tree. */
  lemma SwappedTwice<E>(t: Tree<E>, p1: Path, p2: Path)
    requires ValidPath(t, p1) && ValidPath(t, p2)
    ensures ValidPath(Swapped(t, p1, p2), p1) && ValidPath(Swapped(t, p1, p2), p2)
    ensures Swapped(Swapped(t, p1, p2), p1, p2) == t
  {
    if p1 == p2 {
      SwappedSelf(t, p1);
      SwappedSelf(t, p1);
    } else {
      var a, b := At(t, p1).elem, At(t, p2).elem;
      var t1 := SetElem(t, p1, b);
      var t2 := SetElem(t1, p2, a);
      SetElemAt(t, p1, b, p1);
      SetElemAt(t, p1, b, p2);
      SetElemAt(t1, p2, a, p1);
      SetElemAt(t1, p2, a, p2);
      assert At(t2, p1).elem == b && At(t2, p2).elem == a;
      // Swapped(t2) == SetElem(SetElem(t2, p1, a), p2, b)
      calc {
        Swapped(t2, p1, p2);
        SetElem(SetElem(SetElem(t1, p2, a), p1, a), p2, b);
        { SetElemCommute(t1, p2, p1, a, a); }
        SetElem(SetElem(SetElem(t1, p1, a), p2, a), p2, b);
        { SetElemTwice(SetElem(t1, p1, a), p2, a, b); }
        SetElem(SetElem(t1, p1, a), p2, b);
        { SetElemTwice(t, p1, b, a); SetElemSame(t, p1); }
        SetElem(t, p2, b);
        { SetElemSame(t, p2); }
        t;
      }
    }
  }
}
