/**
 * Two operations of the linked tree as they are written, each with the input
 * that shows where it departs from what it evidently means to do. The rest of
 * the model uses the corrected behaviour (LinkedTree.AddAt, LinkedTree.Iterator).
 */
module Findings {
  import opened Wrappers
  import opened Trees
  import opened Traversals
  import opened LinkedTrees

  /**
   * The indexed add as written: the index is range-checked, but the new leaf is
   * then appended after the last child whatever the index was.
   */
  function AddAtAsWritten<E>(t: Tree<E>, p: Path, n: int, e: E): Result<Tree<E>, TreeError>
    requires ValidPath(t, p)
  {
    if n < 0 || n > |At(t, p).children| then Failure(IndexOutOfRange)
    else Success(InsertChild(t, p, |At(t, p).children|, e))
  }

  /**
   * For every accepted index short of the end, the child at that index after the
   * call is the one that was there before, not the new leaf.
   */
  lemma AddAtAsWrittenKeepsOldChild<E>(t: Tree<E>, p: Path, n: int, e: E)
    requires ValidPath(t, p) && 0 <= n < |At(t, p).children|
    ensures AddAtAsWritten(t, p, n, e).Success?
    ensures var r := AddAtAsWritten(t, p, n, e).value;
      && ValidPath(r, p)
      && |At(r, p).children| == |At(t, p).children| + 1
      && At(r, p).children[n] == At(t, p).children[n]
      && At(r, p).children[|At(t, p).children|] == Leaf(e)
  {
    var k := |At(t, p).children|;
    InsertChildSpec(t, p, k, e);
    assert At(t, p).children[..k] == At(t, p).children;
  }

  /** A root 0 with one child 1: adding 2 at index 0 leaves 1 first and puts 2 second. */
  lemma AddAtAsWrittenExample()
    ensures AddAtAsWritten(Node(0, [Leaf(1)]), [], 0, 2) == Success(Node(0, [Leaf(1), Leaf(2)]))
  {
    var t := Node(0, [Leaf(1)]);
    var r := InsertChild(t, [], 1, 2);
    InsertChildSpec(t, [], 1, 2);
    assert t.children[..1] == [Leaf(1)] && t.children[1..] == [];
    assert At(r, []) == r && At(t, []) == t;
    assert r.children == [Leaf(1), Leaf(2)];
  }

  /**
   * The queue of the breadth-first iterator as written after `k` rounds: each
   * round removes the head but enqueues the children of the start node, not of
   * the node just removed.
   */
  function BreadthOrderQueue<E>(start: Tree<E>, k: nat): seq<Tree<E>>
  {
    if k == 0 then [start]
    else
      var queue := BreadthOrderQueue(start, k - 1);
      if queue == [] then [] else queue[1..] + start.children
  }

  /** When the start node has a child the queue never drains, so the loop never ends. */
  lemma {:induction false} BreadthOrderNeverDrains<E>(start: Tree<E>, k: nat)
    requires start.children != []
    ensures |BreadthOrderQueue(start, k)| >= 1
  {
    if k > 0 {
      BreadthOrderNeverDrains(start, k - 1);
    }
  }
}
