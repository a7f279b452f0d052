/**
 * The tree with root A, children B and C of A, and D under B: its three
 * traversals, and what removing B leaves.
 */
module Scenario {
  import opened Trees
  import opened Traversals

  function Sample(): Tree<char> {
    Node('A', [Node('B', [Leaf('D')]), Leaf('C')])
  }

  lemma SamplePreOrder()
    ensures PreOrder(Sample()) == ['A', 'B', 'D', 'C']
  {
    var d, c := Leaf('D'), Leaf('C');
    var b := Node('B', [d]);
    assert [d][1..] == [] && [b, c][1..] == [c] && [c][1..] == [];
    assert PreOrderF([d]) == ['D'];
    assert PreOrderF([c]) == ['C'];
    assert PreOrderF([b, c]) == ['B', 'D', 'C'];
  }

  lemma SamplePostOrder()
    ensures PostOrder(Sample()) == ['D', 'B', 'C', 'A']
  {
    var d, c := Leaf('D'), Leaf('C');
    var b := Node('B', [d]);
    assert [d][1..] == [] && [b, c][1..] == [c] && [c][1..] == [];
    assert PostOrderF([d]) == ['D'];
    assert PostOrderF([c]) == ['C'];
    assert PostOrderF([b, c]) == ['D', 'B', 'C'];
  }

  lemma SampleBreadthFirst()
    ensures Bfs([Sample()]) == ['A', 'B', 'C', 'D']
    ensures Size(Sample()) == 4
  {
    var b, c := Node('B', [Leaf('D')]), Leaf('C');
    assert [Sample()][1..] + Sample().children == [b, c];
    SampleSecondRound();
    assert [b, c][1..] == [c] && [c][1..] == [];
    assert SizeF([b, c]) == 3;
  }

  /** After A: the queue [B, C] yields B, then C, then D. */
  lemma SampleSecondRound()
    ensures Bfs([Node('B', [Leaf('D')]), Leaf('C')]) == ['B', 'C', 'D']
  {
    var d, c := Leaf('D'), Leaf('C');
    var b := Node('B', [d]);
    assert [b, c][1..] + [b, c][0].children == [c, d];
    assert [c, d][1..] + [c, d][0].children == [d];
    assert [d][1..] + [d][0].children == [];
    assert Bfs([d]) == ['D'];
  }

  /** The positions in pre-order: A is [], B is [0], D is [0, 0], C is [1]. */
  lemma SampleLabels()
    ensures PreOrder(Label(Sample(), [])) == [[], [0], [0, 0], [1]]
  {
    var l := Label(Sample(), []);
    var lb, lc := Label(Node('B', [Leaf('D')]), [0]), Label(Leaf('C'), [1]);
    var ld := Label(Leaf('D'), [0, 0]);
    assert ld == Node([0, 0], []);
    assert [0] + [0] == [0, 0] && [] + [0] == [0] && [] + [1] == [1];
    assert lb.children[0] == ld;
    assert lb == Node([0], [ld]);
    assert lc == Node([1], []);
    assert l.children[0] == lb && l.children[1] == lc;
    assert l == Node([], [lb, lc]);
    assert [ld][1..] == [] && [lb, lc][1..] == [lc] && [lc][1..] == [];
    assert PreOrderF([ld]) == [[0, 0]];
    assert PreOrderF([lc]) == [[1]];
    assert PreOrderF([lb, lc]) == [[0], [0, 0], [1]];
  }

  /** Removing B (position [0]) leaves A and C: two nodes, A then C in breadth-first order. */
  lemma SampleRemoveB()
    ensures RemoveChild(Sample(), [], 0) == Node('A', [Leaf('C')])
    ensures Size(RemoveChild(Sample(), [], 0)) == 2
    ensures Bfs([RemoveChild(Sample(), [], 0)]) == ['A', 'C']
  {
    RemoveChildSpec(Sample(), [], 0);
    var r := Node('A', [Leaf('C')]);
    assert [r][1..] + r.children == [Leaf('C')];
  }
}
