/**
 * The recursive mirrored binary tree traversals: the same recursions as the ordinary ones with
 * the right subtree visited before the left one.
 */
module BinaryTreeRecursiveReversedTraversal {
  import opened Common
  import opened BinaryTree
  import Rec = BinaryTreeRecursiveTraversal

  /** preOrderGenerator: the node, then the right subtree's pre-order, then the left one's. */
  function PreOrder(t: Node): (r: seq<Node>)
    ensures |r| == Size(t) && r[0] == t
    decreases t
  {
    [t] + PreOrderOpt(t.right) + PreOrderOpt(t.left)
  }

  function PreOrderOpt(o: Option<Node>): (r: seq<Node>)
    ensures |r| == SizeOpt(o)
    decreases o
  {
    match o
    case None => []
    case Some(n) => PreOrder(n)
  }

  /** inOrderGenerator: the right subtree's in-order, then the node, then the left one's. */
  function InOrder(t: Node): (r: seq<Node>)
    ensures |r| == Size(t) && r[SizeOpt(t.right)] == t
    decreases t
  {
    InOrderOpt(t.right) + [t] + InOrderOpt(t.left)
  }

  function InOrderOpt(o: Option<Node>): (r: seq<Node>)
    ensures |r| == SizeOpt(o)
    decreases o
  {
    match o
    case None => []
    case Some(n) => InOrder(n)
  }

  /** postOrderGenerator: the right subtree's post-order, then the left one's, then the node. */
  function PostOrder(t: Node): (r: seq<Node>)
    ensures |r| == Size(t) && r[|r| - 1] == t
    decreases t
  {
    PostOrderOpt(t.right) + PostOrderOpt(t.left) + [t]
  }

  function PostOrderOpt(o: Option<Node>): (r: seq<Node>)
    ensures |r| == SizeOpt(o)
    decreases o
  {
    match o
    case None => []
    case Some(n) => PostOrder(n)
  }

  /** The mirrored pre-order (N, R, L) is the ordinary post-order (L, R, N) backwards. */
  lemma {:induction false} PreOrderIsReversedPostOrder(t: Node)
    ensures PreOrder(t) == Reverse(Rec.PostOrder(t))
    decreases t
  {
    PreOrderOptIsReversedPostOrderOpt(t.left);
    PreOrderOptIsReversedPostOrderOpt(t.right);
    var l, r := Rec.PostOrderOpt(t.left), Rec.PostOrderOpt(t.right);
    ReverseAppend(l + r, [t]);
    ReverseAppend(l, r);
    assert Reverse([t]) == [t];
    Assoc([t], Reverse(r), Reverse(l));
  }

  lemma {:induction false} PreOrderOptIsReversedPostOrderOpt(o: Option<Node>)
    ensures PreOrderOpt(o) == Reverse(Rec.PostOrderOpt(o))
    decreases o
  {
    if o.Some? {
      PreOrderIsReversedPostOrder(o.value);
    }
  }

  /** The mirrored in-order (R, N, L) is the ordinary in-order (L, N, R) backwards. */
  lemma {:induction false} InOrderIsReversedInOrder(t: Node)
    ensures InOrder(t) == Reverse(Rec.InOrder(t))
    decreases t
  {
    InOrderOptIsReversedInOrderOpt(t.left);
    InOrderOptIsReversedInOrderOpt(t.right);
    var l, r := Rec.InOrderOpt(t.left), Rec.InOrderOpt(t.right);
    ReverseAppend(l + [t], r);
    ReverseAppend(l, [t]);
    assert Reverse([t]) == [t];
    Assoc(Reverse(r), [t], Reverse(l));
  }

  lemma {:induction false} InOrderOptIsReversedInOrderOpt(o: Option<Node>)
    ensures InOrderOpt(o) == Reverse(Rec.InOrderOpt(o))
    decreases o
  {
    if o.Some? {
      InOrderIsReversedInOrder(o.value);
    }
  }

  /** The mirrored post-order (R, L, N) is the ordinary pre-order (N, L, R) backwards. */
  lemma {:induction false} PostOrderIsReversedPreOrder(t: Node)
    ensures PostOrder(t) == Reverse(Rec.PreOrder(t))
    decreases t
  {
    PostOrderOptIsReversedPreOrderOpt(t.left);
    PostOrderOptIsReversedPreOrderOpt(t.right);
    var l, r := Rec.PreOrderOpt(t.left), Rec.PreOrderOpt(t.right);
    Assoc([t], l, r);
    ReverseAppend([t], l + r);
    ReverseAppend(l, r);
    assert Reverse([t]) == [t];
  }

  lemma {:induction false} PostOrderOptIsReversedPreOrderOpt(o: Option<Node>)
    ensures PostOrderOpt(o) == Reverse(Rec.PreOrderOpt(o))
    decreases o
  {
    if o.Some? {
      PostOrderIsReversedPreOrder(o.value);
    }
  }

  /** The mirrored pre-order of a tree is the ordinary pre-order of its mirror image, node by node. */
  lemma {:induction false} PreOrderMirror(t: Node)
    ensures MirrorAll(PreOrder(t)) == Rec.PreOrder(Mirror(t))
    decreases t
  {
    PreOrderOptMirror(t.left);
    PreOrderOptMirror(t.right);
    var r, l := PreOrderOpt(t.right), PreOrderOpt(t.left);
    MirrorAllAppend([t] + r, l);
    MirrorAllAppend([t], r);
    assert MirrorAll([t]) == [Mirror(t)];
  }

  lemma {:induction false} PreOrderOptMirror(o: Option<Node>)
    ensures MirrorAll(PreOrderOpt(o)) == Rec.PreOrderOpt(MirrorOpt(o))
    decreases o
  {
    if o.Some? {
      PreOrderMirror(o.value);
    }
  }

  /** Each mirrored traversal yields every node occurrence of the tree exactly once. */
  lemma PreOrderNodes(t: Node)
    ensures multiset(PreOrder(t)) == Nodes(t)
    ensures |PreOrder(t)| == Size(t)
  {
    PreOrderIsReversedPostOrder(t);
    ReverseMultiset(Rec.PostOrder(t));
    Rec.PostOrderNodes(t);
  }

  lemma InOrderNodes(t: Node)
    ensures multiset(InOrder(t)) == Nodes(t)
    ensures |InOrder(t)| == Size(t)
  {
    InOrderIsReversedInOrder(t);
    ReverseMultiset(Rec.InOrder(t));
    Rec.InOrderNodes(t);
  }

  lemma PostOrderNodes(t: Node)
    ensures multiset(PostOrder(t)) == Nodes(t)
    ensures |PostOrder(t)| == Size(t)
  {
    PostOrderIsReversedPreOrder(t);
    ReverseMultiset(Rec.PreOrder(t));
    Rec.PreOrderNodes(t);
  }
}
