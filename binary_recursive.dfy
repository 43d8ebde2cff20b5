/**
 * The recursive binary tree traversals.  Each generator becomes the finite sequence of nodes it
 * yields; `yield from` of a subtree's generator becomes concatenation of that subtree's sequence.
 * `levelOrderHelper`, which appends into a by-reference PHP array, becomes a method taking the
 * accumulator in and handing the updated accumulator back.
 */
module BinaryTreeRecursiveTraversal {
  import opened Common
  import opened BinaryTree
  import opened LevelAccumulator

  /** preOrderGenerator: the node, then the left subtree's pre-order, then the right one's. */
  function PreOrder(t: Node): (r: seq<Node>)
    ensures |r| == Size(t) && r[0] == t
    decreases t
  {
    [t] + PreOrderOpt(t.left) + PreOrderOpt(t.right)
  }

  function PreOrderOpt(o: Option<Node>): (r: seq<Node>)
    ensures |r| == SizeOpt(o)
    decreases o
  {
    match o
    case None => []
    case Some(n) => PreOrder(n)
  }

  /** inOrderGenerator: the left subtree's in-order, then the node, then the right one's. */
  function InOrder(t: Node): (r: seq<Node>)
    ensures |r| == Size(t) && r[SizeOpt(t.left)] == t
    decreases t
  {
    InOrderOpt(t.left) + [t] + InOrderOpt(t.right)
  }

  function InOrderOpt(o: Option<Node>): (r: seq<Node>)
    ensures |r| == SizeOpt(o)
    decreases o
  {
    match o
    case None => []
    case Some(n) => InOrder(n)
  }

  /** postOrderGenerator: the left subtree's post-order, then the right one's, then the node. */
  function PostOrder(t: Node): (r: seq<Node>)
    ensures |r| == Size(t) && r[|r| - 1] == t
    decreases t
  {
    PostOrderOpt(t.left) + PostOrderOpt(t.right) + [t]
  }

  function PostOrderOpt(o: Option<Node>): (r: seq<Node>)
    ensures |r| == SizeOpt(o)
    decreases o
  {
    match o
    case None => []
    case Some(n) => PostOrder(n)
  }

  /** The pre-order yields every node occurrence of the tree exactly once. */
  lemma {:induction false} PreOrderNodes(t: Node)
    ensures multiset(PreOrder(t)) == Nodes(t)
    decreases t
  {
    PreOrderOptNodes(t.left);
    PreOrderOptNodes(t.right);
  }

  lemma {:induction false} PreOrderOptNodes(o: Option<Node>)
    ensures multiset(PreOrderOpt(o)) == NodesOpt(o)
    decreases o
  {
    if o.Some? {
      PreOrderNodes(o.value);
    }
  }

  /** The in-order yields every node occurrence of the tree exactly once. */
  lemma {:induction false} InOrderNodes(t: Node)
    ensures multiset(InOrder(t)) == Nodes(t)
    decreases t
  {
    InOrderOptNodes(t.left);
    InOrderOptNodes(t.right);
  }

  lemma {:induction false} InOrderOptNodes(o: Option<Node>)
    ensures multiset(InOrderOpt(o)) == NodesOpt(o)
    decreases o
  {
    if o.Some? {
      InOrderNodes(o.value);
    }
  }

  /** The post-order yields every node occurrence of the tree exactly once. */
  lemma {:induction false} PostOrderNodes(t: Node)
    ensures multiset(PostOrder(t)) == Nodes(t)
    decreases t
  {
    PostOrderOptNodes(t.left);
    PostOrderOptNodes(t.right);
  }

  lemma {:induction false} PostOrderOptNodes(o: Option<Node>)
    ensures multiset(PostOrderOpt(o)) == NodesOpt(o)
    decreases o
  {
    if o.Some? {
      PostOrderNodes(o.value);
    }
  }

  /** The node's own level, then the left subtree's levels, then the right one's, one deeper. */
  lemma HelperLevels(node: Node, res: map<int, seq<Node>>, level: int)
    ensures var r1 := AddLevels(res, [[node]], level);
      AddLevels(AddLevels(r1, LevelsOpt(node.left), level + 1), LevelsOpt(node.right), level + 1) ==
      AddLevels(res, LevelsOf(node), level)
  {
    var r1 := AddLevels(res, [[node]], level);
    LevelsOfStep(node);
    AddLevelsMerge(r1, LevelsOpt(node.left), LevelsOpt(node.right), level + 1);
    AddLevelsShift(res, [node], ZipConcat(LevelsOpt(node.left), LevelsOpt(node.right)), level);
  }

  /** The node's key, if new, then the keys the left subtree creates, then the right one's. */
  lemma HelperKeys(node: Node, keys: seq<int>, level: int)
    ensures var k1 := if level in keys then keys else keys + [level];
      AddKeys(AddKeys(k1, |LevelsOpt(node.left)|, level + 1), |LevelsOpt(node.right)|, level + 1) ==
      AddKeys(keys, Height(node), level)
  {
    var k1 := if level in keys then keys else keys + [level];
    LevelsOfStep(node);
    AddKeysTwice(k1, |LevelsOpt(node.left)|, |LevelsOpt(node.right)|, level + 1);
  }

  /**
   * levelOrderHelper: appends every node of the subtree to the list of its depth, counted from
   * `level`, creating the lists of the depths not reached before; a created list's key goes to the
   * end of the accumulator's key order.
   */
  method LevelOrderHelper(node: Node, res: map<int, seq<Node>>, keys: seq<int>, level: int)
    returns (res': map<int, seq<Node>>, keys': seq<int>)
    requires KeyOrder(res, keys)
    ensures res' == AddLevels(res, LevelsOf(node), level)
    ensures keys' == AddKeys(keys, Height(node), level)
    ensures KeyOrder(res', keys')
    decreases node
  {
    var r1, k1 := res, keys;
    if level !in r1 {
      r1, k1 := r1[level := []], k1 + [level];
    }
    r1 := r1[level := r1[level] + [node]];
    AddOne(res, keys, node, level);
    var r2, k2 := r1, k1;
    if node.left.Some? {
      r2, k2 := LevelOrderHelper(node.left.value, r1, k1, level + 1);
    }
    assert r2 == AddLevels(r1, LevelsOpt(node.left), level + 1);
    assert k2 == AddKeys(k1, |LevelsOpt(node.left)|, level + 1);
    res', keys' := r2, k2;
    if node.right.Some? {
      res', keys' := LevelOrderHelper(node.right.value, r2, k2, level + 1);
    }
    assert res' == AddLevels(r2, LevelsOpt(node.right), level + 1);
    assert keys' == AddKeys(k2, |LevelsOpt(node.right)|, level + 1);
    HelperLevels(node, res, level);
    HelperKeys(node, keys, level);
  }

  /**
   * levelOrder: from an empty accumulator, the keys are created in the order 0, 1, ..., Height-1,
   * so the array is a list, and read in that order it is the tree's levels, each left to right.
   */
  method LevelOrder(root: Node) returns (res: map<int, seq<Node>>, keys: seq<int>)
    ensures |keys| == Height(root) && forall i :: 0 <= i < |keys| ==> keys[i] == i
    ensures forall d :: d in res <==> 0 <= d < Height(root)
    ensures InKeyOrder(res, keys) == LevelsOf(root)
  {
    res, keys := LevelOrderHelper(root, map[], [], 0);
    AddKeysFresh([], Height(root), 0);
    forall d
      ensures d in res <==> 0 <= d < Height(root)
      ensures 0 <= d < Height(root) ==> res[d] == LevelsOf(root)[d]
    {
      AddLevelsKeys(map[], LevelsOf(root), 0, d);
      AddLevelsGet(map[], LevelsOf(root), 0, d);
    }
  }
}
