/**
 * The sample binary trees the library's traversals are checked on, written out node by node,
 * ids in BFS order, with the orders they are expected to yield.
 */
module BinaryTreeExamples {
  import opened Common
  import opened BinaryTree
  import Rec = BinaryTreeRecursiveTraversal
  import Rev = BinaryTreeRecursiveReversedTraversal

  function Leaf(id: nat, val: int): Node
  {
    Node(id, val, None, None)
  }

  // A hand-built tree matching the level-order list [1, 2, 7, 3, 4, null, 8, null, null, 5, 6, 9],
  // node by node, ids 0 to 8.

  function S4(): Node { Node(4, 4, Some(Leaf(6, 5)), Some(Leaf(7, 6))) }
  function S5(): Node { Node(5, 8, Some(Leaf(8, 9)), None) }
  function S1(): Node { Node(1, 2, Some(Leaf(3, 3)), Some(S4())) }
  function S2(): Node { Node(2, 7, None, Some(S5())) }
  function Sample(): Node { Node(0, 1, Some(S1()), Some(S2())) }

  // A hand-built tree matching the level-order list [1, 5, 2, 9, 6, null, 3, null, null, 8, 7, 4],
  // node by node, ids 10 to 18.

  function M4(): Node { Node(14, 6, Some(Leaf(16, 8)), Some(Leaf(17, 7))) }
  function M5(): Node { Node(15, 3, Some(Leaf(18, 4)), None) }
  function M1(): Node { Node(11, 5, Some(Leaf(13, 9)), Some(M4())) }
  function M2(): Node { Node(12, 2, None, Some(M5())) }
  function MirroredSample(): Node { Node(10, 1, Some(M1()), Some(M2())) }

  // The pre-orders of the sample's subtrees, bottom up.

  lemma S4PreOrder()
    ensures Rec.PreOrder(S4()) == [S4(), Leaf(6, 5), Leaf(7, 6)]
  {
  }

  lemma S1PreOrder()
    ensures Rec.PreOrder(S1()) == [S1(), Leaf(3, 3), S4(), Leaf(6, 5), Leaf(7, 6)]
  {
    S4PreOrder();
  }

  lemma S2PreOrder()
    ensures Rec.PreOrder(S2()) == [S2(), S5(), Leaf(8, 9)]
  {
    assert Rec.PreOrder(S5()) == [S5(), Leaf(8, 9)];
  }

  /** The sample tree's pre-order visits the values 1 to 9 in turn. */
  lemma SamplePreOrder()
    ensures var p := Rec.PreOrder(Sample()); |p| == 9 && forall i :: 0 <= i < 9 ==> p[i].val == i + 1
  {
    S1PreOrder();
    S2PreOrder();
    assert Rec.PreOrder(Sample()) == [Sample()] + Rec.PreOrder(S1()) + Rec.PreOrder(S2());
  }

  // The mirrored pre-orders of the mirrored sample's subtrees, bottom up.

  lemma M4PreOrder()
    ensures Values(Rev.PreOrder(M4())) == [6, 7, 8]
  {
  }

  lemma M1PreOrder()
    ensures Values(Rev.PreOrder(M1())) == [5, 6, 7, 8, 9]
  {
    M4PreOrder();
    ValuesAppend([M1()] + Rev.PreOrder(M4()), Rev.PreOrder(Leaf(13, 9)));
    ValuesAppend([M1()], Rev.PreOrder(M4()));
  }

  lemma M5PreOrder()
    ensures Values(Rev.PreOrder(M5())) == [3, 4]
  {
    assert Rev.PreOrder(M5()) == [M5(), Leaf(18, 4)];
  }

  lemma M2PreOrder()
    ensures Values(Rev.PreOrder(M2())) == [2, 3, 4]
  {
    M5PreOrder();
    var p5 := Rev.PreOrder(M5());
    assert Rev.PreOrder(M2()) == [M2()] + p5;
    ValuesAppend([M2()], p5);
    assert Values([M2()]) == [2];
  }

  /** The mirrored sample's reversed pre-order (node, right, left) visits the values 1 to 9. */
  lemma MirroredSamplePreOrder()
    ensures var p := Rev.PreOrder(MirroredSample()); |p| == 9 && forall i :: 0 <= i < 9 ==> p[i].val == i + 1
  {
    var v := [1, 2, 3, 4, 5, 6, 7, 8, 9];
    assert [1] + [2, 3, 4] + [5, 6, 7, 8, 9] == v;
    assert forall i :: 0 <= i < 9 ==> v[i] == i + 1;
    M1PreOrder();
    M2PreOrder();
    var p1, p2 := Rev.PreOrder(M1()), Rev.PreOrder(M2());
    var p := Rev.PreOrder(MirroredSample());
    assert p == ([MirroredSample()] + p2) + p1;
    ValuesAppend([MirroredSample()] + p2, p1);
    ValuesAppend([MirroredSample()], p2);
    assert Values(p) == [1] + [2, 3, 4] + [5, 6, 7, 8, 9];
    forall i | 0 <= i < 9
      ensures p[i].val == i + 1
    {
      assert p[i].val == Values(p)[i];
    }
  }
}
