/**
 * The recursive n-ary tree traversals.  Each generator becomes the finite sequence of nodes it
 * yields; the `foreach` over the children with `yield from` becomes the concatenation of the
 * children's sequences, in list order.  `levelOrderHelper`, which appends into a by-reference
 * PHP array, becomes a method taking the accumulator in and handing the updated accumulator back.
 */
module NAryTreeRecursiveTraversal {
  import opened Common
  import opened NAryTree
  import opened LevelAccumulator

  /** preOrderGenerator: the node, then the pre-order of each child in turn. */
  function PreOrder(t: Node): (r: seq<Node>)
    ensures |r| == Size(t) && r[0] == t
    decreases t
  {
    [t] + PreOrderF(t.children)
  }

  /** The pre-orders of the trees of a forest, one after the other. */
  function PreOrderF(f: seq<Node>): (r: seq<Node>)
    ensures |r| == SizeF(f)
    decreases f
  {
    if f == [] then [] else NodesFCons(f); PreOrder(f[0]) + PreOrderF(f[1..])
  }

  /** postOrderGenerator: the post-order of each child in turn, then the node. */
  function PostOrder(t: Node): (r: seq<Node>)
    ensures |r| == Size(t) && r[|r| - 1] == t
    decreases t
  {
    PostOrderF(t.children) + [t]
  }

  function PostOrderF(f: seq<Node>): (r: seq<Node>)
    ensures |r| == SizeF(f)
    decreases f
  {
    if f == [] then [] else NodesFCons(f); PostOrder(f[0]) + PostOrderF(f[1..])
  }

  /** The pre-order yields every node occurrence of the tree exactly once. */
  lemma {:induction false} PreOrderNodes(t: Node)
    ensures multiset(PreOrder(t)) == Nodes(t)
    decreases t
  {
    PreOrderFNodes(t.children);
  }

  lemma {:induction false} PreOrderFNodes(f: seq<Node>)
    ensures multiset(PreOrderF(f)) == NodesF(f)
    decreases f
  {
    if f != [] {
      PreOrderNodes(f[0]);
      PreOrderFNodes(f[1..]);
      NodesFCons(f);
    }
  }

  /** The post-order yields every node occurrence of the tree exactly once. */
  lemma {:induction false} PostOrderNodes(t: Node)
    ensures multiset(PostOrder(t)) == Nodes(t)
    decreases t
  {
    PostOrderFNodes(t.children);
  }

  lemma {:induction false} PostOrderFNodes(f: seq<Node>)
    ensures multiset(PostOrderF(f)) == NodesF(f)
    decreases f
  {
    if f != [] {
      PostOrderNodes(f[0]);
      PostOrderFNodes(f[1..]);
      NodesFCons(f);
    }
  }

  /** The levels of the first i trees of a forest, then the (i+1)-th tree's, are those of the first i+1. */
  lemma AddChildLevels(res: map<int, seq<Node>>, f: seq<Node>, i: nat, level: int)
    requires i < |f|
    ensures AddLevels(AddLevels(res, Levels(f[..i]), level), LevelsOf(f[i]), level) ==
      AddLevels(res, Levels(f[..i + 1]), level)
  {
    AddLevelsMerge(res, Levels(f[..i]), LevelsOf(f[i]), level);
    PrefixSnoc(f, i);
    LevelsAppend(f[..i], [f[i]]);
  }

  /** The keys the first i trees of a forest create, then the (i+1)-th tree's, are those of the first i+1. */
  lemma AddChildKeys(keys: seq<int>, f: seq<Node>, i: nat, level: int)
    requires i < |f|
    ensures AddKeys(AddKeys(keys, |Levels(f[..i])|, level), Height(f[i]), level) ==
      AddKeys(keys, |Levels(f[..i + 1])|, level)
  {
    AddKeysTwice(keys, |Levels(f[..i])|, Height(f[i]), level);
    PrefixSnoc(f, i);
    LevelsAppend(f[..i], [f[i]]);
  }

  /**
   * levelOrderHelper: appends every node of the subtree to the list of its depth, counted from
   * `level`, creating the lists of the depths not reached before; a created list's key goes to the
   * end of the accumulator's key order.
   */
  method LevelOrderHelper(node: Node, res: map<int, seq<Node>>, keys: seq<int>, level: int)
    returns (res': map<int, seq<Node>>, keys': seq<int>)
    requires KeyOrder(res, keys)
    ensures res' == AddLevels(res, LevelsOf(node), level)
    ensures keys' == AddKeys(keys, Height(node), level)
    ensures KeyOrder(res', keys')
    decreases node
  {
    var r1, k1 := res, keys;
    if level !in r1 {
      r1, k1 := r1[level := []], k1 + [level];
    }
    r1 := r1[level := r1[level] + [node]];
    AddOne(res, keys, node, level);
    res', keys' := r1, k1;
    for i := 0 to |node.children|
      invariant res' == AddLevels(r1, Levels(node.children[..i]), level + 1)
      invariant keys' == AddKeys(k1, |Levels(node.children[..i])|, level + 1)
      invariant KeyOrder(res', keys')
    {
      res', keys' := LevelOrderHelper(node.children[i], res', keys', level + 1);
      AddChildLevels(r1, node.children, i, level + 1);
      AddChildKeys(k1, node.children, i, level + 1);
    }
    assert node.children[..|node.children|] == node.children;
    LevelsOfStep(node);
    AddLevelsShift(res, [node], Levels(node.children), level);
  }

  /**
   * levelOrder: from an empty accumulator, the keys are created in the order 0, 1, ..., Height-1,
   * so the array is a list, and read in that order it is the tree's levels, children in list order.
   */
  method LevelOrder(root: Node) returns (res: map<int, seq<Node>>, keys: seq<int>)
    ensures |keys| == Height(root) && forall i :: 0 <= i < |keys| ==> keys[i] == i
    ensures forall d :: d in res <==> 0 <= d < Height(root)
    ensures InKeyOrder(res, keys) == LevelsOf(root)
  {
    res, keys := LevelOrderHelper(root, map[], [], 0);
    AddKeysFresh([], Height(root), 0);
    forall d
      ensures d in res <==> 0 <= d < Height(root)
      ensures 0 <= d < Height(root) ==> res[d] == LevelsOf(root)[d]
    {
      AddLevelsKeys(map[], LevelsOf(root), 0, d);
      AddLevelsGet(map[], LevelsOf(root), 0, d);
    }
  }
}
