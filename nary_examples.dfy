/**
 * The sample n-ary trees the library's traversals are checked on, written out node by node, ids
 * in BFS order, with the orders they are expected to yield.
 */
module NAryTreeExamples {
  import opened NAryTree
  import Rec = NAryTreeRecursiveTraversal

  function Leaf(id: nat, val: int): Node
  {
    Node(id, val, [])
  }

  // A hand-built tree matching the level-order list [1, null, 3, 2, 4, null, 5, 6], node by node,
  // ids 0 to 5.

  function A1(): Node { Node(1, 3, [Leaf(4, 5), Leaf(5, 6)]) }
  function SampleA(): Node { Node(0, 1, [A1(), Leaf(2, 2), Leaf(3, 4)]) }

  // A hand-built tree matching the level-order list [6, null, 3, 4, 5, null, 1, 2], node by node,
  // ids 10 to 15.

  function B1(): Node { Node(11, 3, [Leaf(14, 1), Leaf(15, 2)]) }
  function SampleB(): Node { Node(10, 6, [B1(), Leaf(12, 4), Leaf(13, 5)]) }

  /** The first sample's level order is [[1], [3, 2, 4], [5, 6]]. */
  lemma SampleALevels()
    ensures var l := LevelsOf(SampleA());
      |l| == 3 && |l[0]| == 1 && |l[1]| == 3 && |l[2]| == 2 &&
      l[0][0].val == 1 && l[1][0].val == 3 && l[1][1].val == 2 && l[1][2].val == 4 &&
      l[2][0].val == 5 && l[2][1].val == 6
  {
    var l0, l1, l2 := [SampleA()], SampleA().children, A1().children;
    KidsSingle(SampleA());
    assert Kids(l1) == l2 by {
      assert l1[..2] == [A1(), Leaf(2, 2)] && [A1(), Leaf(2, 2)][..1] == [A1()];
      KidsSingle(A1());
    }
    assert Kids(l2) == [] by {
      assert l2[..1] == [Leaf(4, 5)];
      KidsSingle(Leaf(4, 5));
    }
    assert Levels(l2) == [l2] + Levels([]);
    assert Levels(l1) == [l1] + Levels(l2);
    assert Levels(l0) == [l0] + Levels(l1);
  }

  lemma B1PostOrder()
    ensures Values(Rec.PostOrder(B1())) == [1, 2, 3]
  {
    assert Rec.PostOrderF([Leaf(15, 2)]) == [Leaf(15, 2)];
    assert Rec.PostOrderF([Leaf(14, 1), Leaf(15, 2)]) == [Leaf(14, 1), Leaf(15, 2)] by {
      assert [Leaf(14, 1), Leaf(15, 2)][1..] == [Leaf(15, 2)];
    }
    assert Rec.PostOrder(B1()) == [Leaf(14, 1), Leaf(15, 2), B1()];
  }

  lemma SampleBLeaves()
    ensures Values(Rec.PostOrderF(SampleB().children[1..])) == [4, 5]
  {
    var kids := SampleB().children;
    assert Rec.PostOrderF(kids[2..]) == [Leaf(13, 5)];
    assert kids[1..][1..] == kids[2..];
    assert Rec.PostOrderF(kids[1..]) == [Leaf(12, 4), Leaf(13, 5)];
  }

  /** The second sample's post-order visits the values 1 to 6 in turn. */
  lemma SampleBPostOrder()
    ensures var p := Rec.PostOrder(SampleB()); |p| == 6 && forall i :: 0 <= i < 6 ==> p[i].val == i + 1
  {
    B1PostOrder();
    SampleBLeaves();
    var kids := SampleB().children;
    var a, b := Rec.PostOrder(B1()), Rec.PostOrderF(kids[1..]);
    var p := Rec.PostOrder(SampleB());
    assert p == (a + b) + [SampleB()];
    ValuesAppend(a + b, [SampleB()]);
    ValuesAppend(a, b);
    assert Values(p) == [1, 2, 3] + [4, 5] + [6];
    forall i | 0 <= i < 6
      ensures p[i].val == i + 1
    {
      assert p[i].val == Values(p)[i];
    }
  }
}
