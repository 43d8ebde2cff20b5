/**
 * The iterative binary tree traversals, each proved to yield exactly the sequence of its
 * recursive definition.  An `SplStack` is a sequence whose last element is the top; an
 * `SplQueue` is a sequence whose first element is the front.
 */
module BinaryTreeTraversal {
  import opened Common
  import opened BinaryTree
  import Rec = BinaryTreeRecursiveTraversal

  /** What the entries of the pre-order stack still have to yield, top entry first. */
  ghost function PendingPre(stack: seq<Node>): seq<Node>
  {
    if stack == [] then [] else Rec.PreOrder(stack[|stack| - 1]) + PendingPre(stack[..|stack| - 1])
  }

  lemma PendingPrePush(stack: seq<Node>, t: Node)
    ensures PendingPre(stack + [t]) == Rec.PreOrder(t) + PendingPre(stack)
  {
    assert (stack + [t])[..|stack|] == stack;
  }

  lemma PendingPrePushOpt(stack: seq<Node>, o: Option<Node>)
    ensures PendingPre(stack + OptSeq(o)) == Rec.PreOrderOpt(o) + PendingPre(stack)
  {
    if o.Some? {
      PendingPrePush(stack, o.value);
    } else {
      assert stack + OptSeq(o) == stack;
    }
  }

  /**
   * One iteration of the pre-order loop: yielding the top node and pushing its right child, then
   * its left one, leaves the yielded-plus-pending sequence unchanged.
   */
  lemma PreStep(out: seq<Node>, stack: seq<Node>)
    requires stack != []
    ensures var t, rest := stack[|stack| - 1], stack[..|stack| - 1];
      out + [t] + PendingPre(rest + OptSeq(t.right) + OptSeq(t.left)) == out + PendingPre(stack)
  {
    var t, rest := stack[|stack| - 1], stack[..|stack| - 1];
    var l, r, p := Rec.PreOrderOpt(t.left), Rec.PreOrderOpt(t.right), PendingPre(rest);
    PendingPrePushOpt(rest, t.right);
    PendingPrePushOpt(rest + OptSeq(t.right), t.left);
    calc {
      out + [t] + PendingPre(rest + OptSeq(t.right) + OptSeq(t.left));
      out + [t] + (l + (r + p));
      { Assoc(l, r, p); }
      out + [t] + (l + r + p);
      { Assoc(out, [t], l + r + p); }
      out + ([t] + (l + r + p));
      { Assoc([t], l + r, p); }
      out + ([t] + (l + r) + p);
      { Assoc([t], l, r); }
      out + ([t] + l + r + p);
      out + PendingPre(stack);
    }
  }

  /** preOrderGenerator: pop a node, yield it, push its right child and then its left child. */
  method PreOrder(root: Node) returns (out: seq<Node>)
    ensures out == Rec.PreOrder(root)
  {
    var stack := [root];
    out := [];
    PendingPrePush([], root);
    while stack != []
      invariant out + PendingPre(stack) == Rec.PreOrder(root)
      decreases |Rec.PreOrder(root)| - |out|
    {
      var cur := stack[|stack| - 1];
      var rest := stack[..|stack| - 1];
      PreStep(out, stack);
      stack := rest;
      out := out + [cur];
      if cur.right.Some? {
        stack := stack + [cur.right.value];
      }
      assert stack == rest + OptSeq(cur.right);
      if cur.left.Some? {
        stack := stack + [cur.left.value];
      }
      assert stack == rest + OptSeq(cur.right) + OptSeq(cur.left);
    }
  }

  /** What the entries of the in-order stack still have to yield: each its node, then its right subtree. */
  ghost function PendingIn(stack: seq<Node>): seq<Node>
  {
    if stack == [] then []
    else
      var t := stack[|stack| - 1];
      [t] + Rec.InOrderOpt(t.right) + PendingIn(stack[..|stack| - 1])
  }

  lemma PendingInPush(stack: seq<Node>, t: Node)
    ensures PendingIn(stack + [t]) == [t] + Rec.InOrderOpt(t.right) + PendingIn(stack)
  {
    assert (stack + [t])[..|stack|] == stack;
  }

  /** Pushing the cursor and moving to its left child leaves the yielded-plus-pending sequence unchanged. */
  lemma InDescend(out: seq<Node>, stack: seq<Node>, c: Node)
    ensures out + Rec.InOrderOpt(c.left) + PendingIn(stack + [c]) ==
      out + Rec.InOrderOpt(Some(c)) + PendingIn(stack)
  {
    var l, r, p := Rec.InOrderOpt(c.left), Rec.InOrderOpt(c.right), PendingIn(stack);
    PendingInPush(stack, c);
    calc {
      out + l + PendingIn(stack + [c]);
      out + l + ([c] + r + p);
      { Assoc(out + l, [c] + r, p); }
      out + l + ([c] + r) + p;
      { Assoc(out, l, [c] + r); Assoc(l, [c], r); }
      out + (l + [c] + r) + p;
      out + Rec.InOrderOpt(Some(c)) + p;
    }
  }

  /** Popping and yielding a node and moving to its right child leaves it unchanged too. */
  lemma InPop(out: seq<Node>, stack: seq<Node>)
    requires stack != []
    ensures var t, rest := stack[|stack| - 1], stack[..|stack| - 1];
      out + [t] + Rec.InOrderOpt(t.right) + PendingIn(rest) == out + Rec.InOrderOpt(None) + PendingIn(stack)
  {
    var t, rest := stack[|stack| - 1], stack[..|stack| - 1];
    var r, p := Rec.InOrderOpt(t.right), PendingIn(rest);
    calc {
      out + [t] + r + p;
      { Assoc(out, [t], r); }
      out + ([t] + r) + p;
      { Assoc(out, [t] + r, p); }
      out + ([t] + r + p);
      out + PendingIn(stack);
      { assert out + Rec.InOrderOpt(None) == out; }
      out + Rec.InOrderOpt(None) + PendingIn(stack);
    }
  }

  /**
   * inOrderGenerator: push the cursor and go left until there is no left child, pop and yield a
   * node, then continue from its right child.
   */
  method InOrder(root: Node) returns (out: seq<Node>)
    ensures out == Rec.InOrder(root)
  {
    var stack: seq<Node> := [];
    var cur: Option<Node> := Some(root);
    out := [];
    assert out + Rec.InOrderOpt(cur) + PendingIn(stack) == Rec.InOrder(root);
    while cur.Some? || stack != []
      invariant out + Rec.InOrderOpt(cur) + PendingIn(stack) == Rec.InOrder(root)
      decreases |Rec.InOrder(root)| - |out|
    {
      while cur.Some?
        invariant out + Rec.InOrderOpt(cur) + PendingIn(stack) == Rec.InOrder(root)
        invariant cur.Some? || stack != []
        decreases SizeOpt(cur)
      {
        var c := cur.value;
        InDescend(out, stack, c);
        stack := stack + [c];
        cur := c.left;
        assert SizeOpt(cur) < Size(c);
      }
      var t := stack[|stack| - 1];
      InPop(out, stack);
      stack := stack[..|stack| - 1];
      out := out + [t];
      cur := t.right;
    }
  }

  /**
   * Ghost bookkeeping of the post-order stack, not stored by the source: a node pushed on the way
   * down, together with its right child pushed just below it, or a node pushed back after its
   * right child was taken off the stack.
   */
  datatype Frame = Fresh(node: Node) | Resumed(node: Node)

  /** The stack entries a frame stands for, bottom first. */
  ghost function Entries(f: Frame): seq<Node>
  {
    match f
    case Fresh(n) => OptSeq(n.right) + [n]
    case Resumed(n) => [n]
  }

  ghost function Expand(frames: seq<Frame>): seq<Node>
  {
    if frames == [] then [] else Expand(frames[..|frames| - 1]) + Entries(frames[|frames| - 1])
  }

  /** What a frame still has to yield: for a fresh node its right subtree and itself. */
  ghost function FramePending(f: Frame): seq<Node>
  {
    match f
    case Fresh(n) => Rec.PostOrderOpt(n.right) + [n]
    case Resumed(n) => [n]
  }

  /** What the post-order stack still has to yield, top frame first. */
  ghost function PendingPost(frames: seq<Frame>): seq<Node>
  {
    if frames == [] then [] else FramePending(frames[|frames| - 1]) + PendingPost(frames[..|frames| - 1])
  }

  ghost function FrameWeight(f: Frame): nat
  {
    match f
    case Fresh(n) => 2 * SizeOpt(n.right) + 2
    case Resumed(n) => 1
  }

  /** The stack part of the post-order loop's termination measure. */
  ghost function Weight(frames: seq<Frame>): nat
  {
    if frames == [] then 0 else FrameWeight(frames[|frames| - 1]) + Weight(frames[..|frames| - 1])
  }

  lemma FramePush(frames: seq<Frame>, f: Frame)
    ensures Expand(frames + [f]) == Expand(frames) + Entries(f)
    ensures PendingPost(frames + [f]) == FramePending(f) + PendingPost(frames)
    ensures Weight(frames + [f]) == FrameWeight(f) + Weight(frames)
  {
    assert (frames + [f])[..|frames|] == frames;
  }

  /**
   * The loop state of the post-order traversal: the bottom frame holds the root, every other
   * frame holds a child of the node of the frame below it, and the cursor is a child of the top
   * frame's node, or the root when there is no frame.
   */
  ghost predicate PostInv(root: Node, cur: Option<Node>, frames: seq<Frame>)
  {
    (frames != [] ==> frames[0].node == root) &&
    (frames == [] && cur.Some? ==> cur.value == root) &&
    Chain(frames) &&
    (cur.Some? && frames != [] ==> IsChild(frames[|frames| - 1].node, cur.value))
  }

  /** Each frame's node is a child of the node of the frame below it. */
  ghost predicate Chain(frames: seq<Frame>)
  {
    |frames| <= 1 ||
    (Chain(frames[..|frames| - 1]) && IsChild(frames[|frames| - 2].node, frames[|frames| - 1].node))
  }

  lemma {:induction false} ChainAt(frames: seq<Frame>, i: nat)
    requires Chain(frames) && 0 < i < |frames|
    ensures IsChild(frames[i - 1].node, frames[i].node)
  {
    if i < |frames| - 1 {
      ChainAt(frames[..|frames| - 1], i);
    }
  }

  lemma {:induction false} FrameInTree(root: Node, frames: seq<Frame>, i: nat)
    requires PostInv(root, None, frames) && i < |frames|
    ensures frames[i].node in Nodes(root)
  {
    if i == 0 {
      assert root in Nodes(root);
    } else {
      FrameInTree(root, frames, i - 1);
      ChainAt(frames, i);
      ChildInTree(root, frames[i - 1].node, frames[i].node);
    }
  }

  lemma PostDescendInv(root: Node, c: Node, frames: seq<Frame>)
    requires PostInv(root, Some(c), frames)
    ensures PostInv(root, c.left, frames + [Fresh(c)])
  {
  }

  /** One step down: push the right child, if any, then the node, and go to the left child. */
  lemma PostDescendPending(out: seq<Node>, c: Node, frames: seq<Frame>)
    ensures Expand(frames + [Fresh(c)]) == Expand(frames) + OptSeq(c.right) + [c]
    ensures out + Rec.PostOrderOpt(c.left) + PendingPost(frames + [Fresh(c)]) ==
      out + Rec.PostOrderOpt(Some(c)) + PendingPost(frames)
    ensures 2 * SizeOpt(c.left) + Weight(frames + [Fresh(c)]) ==
      2 * SizeOpt(Some(c)) + Weight(frames)
  {
    FramePush(frames, Fresh(c));
    Assoc(Expand(frames), OptSeq(c.right), [c]);
    var l, r, p := Rec.PostOrderOpt(c.left), Rec.PostOrderOpt(c.right), PendingPost(frames);
    calc {
      out + l + PendingPost(frames + [Fresh(c)]);
      out + l + (r + [c] + p);
      { Assoc(out + l, r + [c], p); }
      out + l + (r + [c]) + p;
      { Assoc(out, l, r + [c]); Assoc(l, r, [c]); }
      out + (l + r + [c]) + p;
      out + Rec.PostOrderOpt(Some(c)) + p;
    }
  }

  /** The stack's top entry is the top frame's node. */
  lemma ExpandTop(frames: seq<Frame>)
    requires frames != []
    ensures var e, f, pre := Expand(frames), frames[|frames| - 1], frames[..|frames| - 1];
      e != [] && e[|e| - 1] == f.node &&
      e[..|e| - 1] == Expand(pre) + (if f.Fresh? then OptSeq(f.node.right) else [])
  {
    var e, f, pre := Expand(frames), frames[|frames| - 1], frames[..|frames| - 1];
    assert frames == pre + [f];
    FramePush(pre, f);
    if f.Fresh? {
      Assoc(Expand(pre), OptSeq(f.node.right), [f.node]);
    }
  }

  /** Whether the top frame is a fresh node with a right child: the case the source swaps in. */
  ghost predicate SwapCase(frames: seq<Frame>)
    requires frames != []
  {
    frames[|frames| - 1].Fresh? && frames[|frames| - 1].node.right.Some?
  }

  /** The right child of a frame's node never has the id of the node of the frame below. */
  lemma GrandchildBelow(root: Node, frames: seq<Frame>)
    requires UniqueIds(root) && PostInv(root, None, frames) && |frames| >= 2
    requires frames[|frames| - 1].node.right.Some?
    ensures frames[|frames| - 1].node.right.value.id != frames[|frames| - 2].node.id
  {
    ChainAt(frames, |frames| - 1);
    FrameInTree(root, frames, |frames| - 2);
    GrandchildIsNotParent(root, frames[|frames| - 2].node, frames[|frames| - 1].node,
      frames[|frames| - 1].node.right.value);
  }

  /**
   * After a pop, the source's test (the next entry is the popped node's right child, by identity)
   * holds exactly when the top frame is fresh and its node has a right child.
   */
  lemma PopTest(root: Node, frames: seq<Frame>)
    requires UniqueIds(root) && PostInv(root, None, frames) && frames != []
    ensures var e, t := Expand(frames), frames[|frames| - 1].node;
      var rest := e[..|e| - 1];
      e != [] && e[|e| - 1] == t &&
      ((rest != [] && t.right.Some? && t.right.value.id == rest[|rest| - 1].id) <==> SwapCase(frames))
  {
    var e, f, pre := Expand(frames), frames[|frames| - 1], frames[..|frames| - 1];
    var t, rest := f.node, e[..|e| - 1];
    ExpandTop(frames);
    if !SwapCase(frames) && rest != [] && t.right.Some? {
      assert rest == Expand(pre);
      ExpandTop(pre);
      assert frames[|frames| - 2] == pre[|pre| - 1];
      GrandchildBelow(root, frames);
    }
  }

  /** The swap keeps the frames' nodes, so it keeps the chain, and the cursor is the right child. */
  lemma PostSwapInv(root: Node, pre: seq<Frame>, t: Node)
    requires PostInv(root, None, pre + [Fresh(t)]) && t.right.Some?
    ensures PostInv(root, t.right, pre + [Resumed(t)])
  {
    var frames, frames' := pre + [Fresh(t)], pre + [Resumed(t)];
    SnocPrefix(pre, Fresh(t));
    SnocPrefix(pre, Resumed(t));
    if pre == [] {
      assert frames'[0] == Resumed(t);
    } else {
      assert frames'[0] == pre[0] == frames[0];
    }
    assert |frames'| <= 1 || IsChild(frames'[|frames'| - 2].node, frames'[|frames'| - 1].node);
  }

  /** The swap: the right child is taken off, the node is pushed back, the walk goes right. */
  lemma PostSwapPending(out: seq<Node>, pre: seq<Frame>, t: Node)
    requires t.right.Some?
    ensures Expand(pre + [Fresh(t)]) == Expand(pre) + [t.right.value] + [t]
    ensures Expand(pre + [Resumed(t)]) == Expand(pre) + [t]
    ensures out + Rec.PostOrderOpt(t.right) + PendingPost(pre + [Resumed(t)]) ==
      out + Rec.PostOrderOpt(None) + PendingPost(pre + [Fresh(t)])
    ensures 2 * SizeOpt(t.right) + Weight(pre + [Resumed(t)]) < Weight(pre + [Fresh(t)])
  {
    FramePush(pre, Fresh(t));
    FramePush(pre, Resumed(t));
    Assoc(Expand(pre), [t.right.value], [t]);
    var r, p := Rec.PostOrderOpt(t.right), PendingPost(pre);
    calc {
      out + r + PendingPost(pre + [Resumed(t)]);
      out + r + ([t] + p);
      { Assoc(out + r, [t], p); }
      out + r + [t] + p;
      { Assoc(out, r, [t]); }
      out + (r + [t]) + p;
      { Assoc(out, r + [t], p); }
      out + (r + [t] + p);
      { assert out + Rec.PostOrderOpt(None) == out; }
      out + Rec.PostOrderOpt(None) + PendingPost(pre + [Fresh(t)]);
    }
  }

  /** Any other popped node has nothing left below it to visit, and is yielded. */
  lemma PostEmit(root: Node, out: seq<Node>, frames: seq<Frame>)
    requires PostInv(root, None, frames) && frames != []
    requires !(frames[|frames| - 1].Fresh? && frames[|frames| - 1].node.right.Some?)
    ensures var t, pre := frames[|frames| - 1].node, frames[..|frames| - 1];
      PostInv(root, None, pre) &&
      out + [t] + Rec.PostOrderOpt(None) + PendingPost(pre) ==
        out + Rec.PostOrderOpt(None) + PendingPost(frames) &&
      Weight(pre) < Weight(frames)
  {
    var f, pre := frames[|frames| - 1], frames[..|frames| - 1];
    var t := f.node;
    assert frames == pre + [f];
    FramePush(pre, f);
    assert FramePending(f) == [t];
    var p := PendingPost(pre);
    calc {
      out + [t] + Rec.PostOrderOpt(None) + p;
      { assert out + [t] + Rec.PostOrderOpt(None) == out + [t]; }
      out + [t] + p;
      { Assoc(out, [t], p); }
      out + ([t] + p);
      { assert out + Rec.PostOrderOpt(None) == out; }
      out + Rec.PostOrderOpt(None) + PendingPost(frames);
    }
  }

  /** The whole loop state of the post-order traversal, including what it still has to yield. */
  ghost predicate PostState(root: Node, out: seq<Node>, cur: Option<Node>, stack: seq<Node>, frames: seq<Frame>)
  {
    stack == Expand(frames) && PostInv(root, cur, frames) &&
    out + Rec.PostOrderOpt(cur) + PendingPost(frames) == Rec.PostOrder(root)
  }

  lemma DescendStep(root: Node, out: seq<Node>, c: Node, stack: seq<Node>, frames: seq<Frame>)
    requires PostState(root, out, Some(c), stack, frames)
    ensures c.right.Some? ==> PostState(root, out, c.left, stack + [c.right.value] + [c], frames + [Fresh(c)])
    ensures c.right.None? ==> PostState(root, out, c.left, stack + [c], frames + [Fresh(c)])
    ensures 2 * SizeOpt(c.left) + Weight(frames + [Fresh(c)]) == 2 * SizeOpt(Some(c)) + Weight(frames)
  {
    PostDescendInv(root, c, frames);
    PostDescendPending(out, c, frames);
    if c.right.None? {
      assert stack + OptSeq(c.right) == stack;
    }
  }

  /** In the swap case the stack ends with the right child and the node; the swap exchanges them. */
  lemma SwapStack(stack: seq<Node>, frames: seq<Frame>)
    requires stack == Expand(frames) && frames != [] && SwapCase(frames)
    ensures var t, rest := stack[|stack| - 1], stack[..|stack| - 1];
      t == frames[|frames| - 1].node && rest != [] &&
      rest[..|rest| - 1] + [t] == Expand(frames[..|frames| - 1] + [Resumed(t)])
  {
    var pre, t := frames[..|frames| - 1], frames[|frames| - 1].node;
    ExpandTop(frames);
    SnocPrefix(Expand(pre), t.right.value);
    FramePush(pre, Resumed(t));
  }

  lemma SwapStep(root: Node, out: seq<Node>, stack: seq<Node>, frames: seq<Frame>)
    requires PostState(root, out, None, stack, frames) && frames != [] && SwapCase(frames)
    ensures var t, rest := stack[|stack| - 1], stack[..|stack| - 1];
      var frames' := frames[..|frames| - 1] + [Resumed(t)];
      rest != [] &&
      PostState(root, out, t.right, rest[..|rest| - 1] + [t], frames') &&
      2 * SizeOpt(t.right) + Weight(frames') < 2 * SizeOpt(None) + Weight(frames)
  {
    var pre, t := frames[..|frames| - 1], frames[|frames| - 1].node;
    SwapStack(stack, frames);
    assert frames == pre + [Fresh(t)];
    PostSwapInv(root, pre, t);
    PostSwapPending(out, pre, t);
  }

  lemma EmitStep(root: Node, out: seq<Node>, stack: seq<Node>, frames: seq<Frame>)
    requires PostState(root, out, None, stack, frames) && frames != [] && !SwapCase(frames)
    ensures var t, rest := stack[|stack| - 1], stack[..|stack| - 1];
      PostState(root, out + [t], None, rest, frames[..|frames| - 1]) &&
      Weight(frames[..|frames| - 1]) < 2 * SizeOpt(None) + Weight(frames)
  {
    ExpandTop(frames);
    PostEmit(root, out, frames);
  }

  /**
   * The inner loop of postOrderGenerator: from the cursor down its left spine, push each node's
   * right child (if any) and then the node.
   */
  method PostPushLeft(ghost root: Node, ghost out: seq<Node>, cur: Option<Node>, stack: seq<Node>,
                      ghost frames: seq<Frame>)
    returns (stack': seq<Node>, ghost frames': seq<Frame>)
    requires PostState(root, out, cur, stack, frames) && (cur.Some? || stack != [])
    ensures PostState(root, out, None, stack', frames') && stack' != []
    ensures Weight(frames') == 2 * SizeOpt(cur) + Weight(frames)
  {
    var c := cur;
    stack', frames' := stack, frames;
    while c.Some?
      invariant PostState(root, out, c, stack', frames')
      invariant 2 * SizeOpt(c) + Weight(frames') == 2 * SizeOpt(cur) + Weight(frames)
      invariant c.Some? || stack' != []
      decreases SizeOpt(c)
    {
      var n := c.value;
      DescendStep(root, out, n, stack', frames');
      if n.right.Some? {
        stack' := stack' + [n.right.value];
      }
      stack' := stack' + [n];
      frames' := frames' + [Fresh(n)];
      c := n.left;
      assert SizeOpt(c) < Size(n);
    }
  }

  /**
   * One pop of postOrderGenerator: a node whose right child is, by identity, the next entry on
   * the stack swaps with it and the walk continues into the right subtree; any other popped node
   * is yielded and the cursor cleared.
   */
  method PostPop(ghost root: Node, out: seq<Node>, stack: seq<Node>, ghost frames: seq<Frame>)
    returns (out': seq<Node>, cur': Option<Node>, stack': seq<Node>, ghost frames': seq<Frame>)
    requires UniqueIds(root) && PostState(root, out, None, stack, frames) && stack != []
    ensures PostState(root, out', cur', stack', frames')
    ensures 2 * SizeOpt(cur') + Weight(frames') < Weight(frames)
  {
    assert frames != [];
    PopTest(root, frames);
    var t := stack[|stack| - 1];
    stack' := stack[..|stack| - 1];
    if stack' != [] && t.right.Some? && t.right.value.id == stack'[|stack'| - 1].id {
      SwapStep(root, out, stack, frames);
      stack' := stack'[..|stack'| - 1];
      stack' := stack' + [t];
      frames' := frames[..|frames| - 1] + [Resumed(t)];
      out', cur' := out, t.right;
    } else {
      EmitStep(root, out, stack, frames);
      frames' := frames[..|frames| - 1];
      out', cur' := out + [t], None;
    }
  }

  /**
   * postOrderGenerator: on the way down push the right child (if any) and then the node, then pop
   * one entry; repeat while there is a cursor or a stacked node.
   */
  method PostOrder(root: Node) returns (out: seq<Node>)
    requires UniqueIds(root)
    ensures out == Rec.PostOrder(root)
  {
    var stack: seq<Node> := [];
    ghost var frames: seq<Frame> := [];
    var cur: Option<Node> := Some(root);
    out := [];
    assert out + Rec.PostOrderOpt(cur) + PendingPost(frames) == Rec.PostOrder(root);
    while cur.Some? || stack != []
      invariant PostState(root, out, cur, stack, frames)
      decreases 2 * SizeOpt(cur) + Weight(frames)
    {
      stack, frames := PostPushLeft(root, out, cur, stack, frames);
      out, cur, stack, frames := PostPop(root, out, stack, frames);
    }
  }

  /**
   * The state of a level being drained: the level's nodes split into those taken and those still
   * to take, `counter` of them, and the queue holding the rest of the level followed by the next
   * level of the nodes taken so far.
   */
  ghost predicate Draining(level: seq<Node>, taken: seq<Node>, todo: seq<Node>, queue: seq<Node>, counter: int)
  {
    counter == |todo| && level == taken + todo && queue == todo + Kids(taken)
  }

  lemma DrainStart(level: seq<Node>)
    ensures Draining(level, [], level, level, |level|)
  {
    assert Kids([]) == [];
  }

  /** Dequeuing the first node still to take and enqueuing its children, left then right. */
  lemma DequeueKids(taken: seq<Node>, todo: seq<Node>)
    requires todo != []
    ensures var q, t := todo + Kids(taken), todo[0];
      q[0] == t && Enqueue(Enqueue(q[1..], t.left), t.right) == todo[1..] + Kids(taken + [t])
  {
    var q, t := todo + Kids(taken), todo[0];
    assert q[1..] == todo[1..] + Kids(taken);
    SnocPrefix(taken, t);
    assert Kids(taken + [t]) == Kids(taken) + Children(t);
    Assoc(q[1..], OptSeq(t.left), OptSeq(t.right));
    Assoc(todo[1..], Kids(taken), Children(t));
  }

  lemma TakeFirst(taken: seq<Node>, todo: seq<Node>)
    requires todo != []
    ensures taken + [todo[0]] + todo[1..] == taken + todo
  {
    Assoc(taken, [todo[0]], todo[1..]);
    assert [todo[0]] + todo[1..] == todo;
  }

  /** Dequeuing one node of the level and enqueuing its children, left then right. */
  lemma DrainStep(level: seq<Node>, taken: seq<Node>, todo: seq<Node>, queue: seq<Node>, counter: int)
    requires Draining(level, taken, todo, queue, counter) && counter > 0
    ensures queue != [] && queue[0] == todo[0]
    ensures var t := queue[0];
      Draining(level, taken + [t], todo[1..], Enqueue(Enqueue(queue[1..], t.left), t.right), counter - 1)
  {
    DequeueKids(taken, todo);
    TakeFirst(taken, todo);
  }

  lemma DrainEnd(level: seq<Node>, taken: seq<Node>, todo: seq<Node>, queue: seq<Node>)
    requires Draining(level, taken, todo, queue, 0)
    ensures taken == level && queue == Kids(level)
  {
    assert todo == [];
  }

  /**
   * The inner loop of levelOrderGenerator and BFSGenerator: dequeue as many nodes as the level
   * holds, in order, enqueuing the children of each, left then right.
   */
  method DrainLevel(queue: seq<Node>) returns (nodeList: seq<Node>, queue': seq<Node>)
    ensures nodeList == queue && queue' == Kids(queue)
  {
    ghost var todo := queue;
    nodeList, queue' := [], queue;
    var counter := |queue|;
    DrainStart(queue);
    while counter > 0
      invariant Draining(queue, nodeList, todo, queue', counter)
    {
      DrainStep(queue, nodeList, todo, queue', counter);
      var node := queue'[0];
      queue' := queue'[1..];
      nodeList := nodeList + [node];
      if node.left.Some? {
        queue' := queue' + [node.left.value];
      }
      if node.right.Some? {
        queue' := queue' + [node.right.value];
      }
      todo := todo[1..];
      counter := counter - 1;
    }
    DrainEnd(queue, nodeList, todo, queue');
  }

  /**
   * levelOrderGenerator: with the number of queued nodes taken before the level starts, dequeue
   * exactly that many nodes, collect them, and enqueue their children; then yield the level.
   */
  method LevelOrder(root: Node) returns (out: seq<seq<Node>>)
    ensures out == LevelsOf(root)
  {
    var queue := [root];
    out := [];
    while queue != []
      invariant out + Levels(queue) == LevelsOf(root)
      decreases SizeF(queue)
    {
      var nodeList, next := DrainLevel(queue);
      LevelDone(out, queue, next);
      out := out + [nodeList];
      queue := next;
    }
  }

  /** A whole level drained: the level is yielded and its next level is what is left queued. */
  lemma LevelDone(out: seq<seq<Node>>, level: seq<Node>, queue: seq<Node>)
    requires level != [] && queue == Kids(level)
    ensures out + [level] + Levels(queue) == out + Levels(level)
    ensures SizeF(queue) < SizeF(level)
  {
    KidsSize(level);
    Assoc(out, [level], Levels(queue));
  }

  /** BFSGenerator: the same level-by-level drain, yielding each node as it is dequeued. */
  method BFS(root: Node) returns (out: seq<Node>)
    ensures out == BFSOrder(root)
  {
    var queue := [root];
    out := [];
    while queue != []
      invariant out + Flatten(Levels(queue)) == BFSOrder(root)
      decreases SizeF(queue)
    {
      var nodes, next := DrainLevel(queue);
      BFSDone(out, queue, next);
      out := out + nodes;
      queue := next;
    }
  }

  lemma BFSDone(start: seq<Node>, level: seq<Node>, queue: seq<Node>)
    requires level != [] && queue == Kids(level)
    ensures start + level + Flatten(Levels(queue)) == start + Flatten(Levels(level))
    ensures SizeF(queue) < SizeF(level)
  {
    KidsSize(level);
    FlattenLevelsStep(level);
    Assoc(start, level, Flatten(Levels(queue)));
  }
}
