/**
 * The iterative mirrored binary tree traversals: the ordinary stack and queue loops with the
 * roles of the left and right children exchanged, each proved to yield exactly the sequence of
 * the recursive mirrored traversal.  As in the ordinary traversals an `SplStack` is a sequence
 * whose last element is the top and an `SplQueue` one whose first element is the front.
 */
module BinaryTreeReversedTraversal {
  import opened Common
  import opened BinaryTree
  import Rev = BinaryTreeRecursiveReversedTraversal

  /** What the entries of the pre-order stack still have to yield, top entry first. */
  ghost function PendingPre(stack: seq<Node>): seq<Node>
  {
    if stack == [] then [] else Rev.PreOrder(stack[|stack| - 1]) + PendingPre(stack[..|stack| - 1])
  }

  lemma PendingPrePush(stack: seq<Node>, t: Node)
    ensures PendingPre(stack + [t]) == Rev.PreOrder(t) + PendingPre(stack)
  {
    assert (stack + [t])[..|stack|] == stack;
  }

  lemma PendingPrePushOpt(stack: seq<Node>, o: Option<Node>)
    ensures PendingPre(stack + OptSeq(o)) == Rev.PreOrderOpt(o) + PendingPre(stack)
  {
    if o.Some? {
      PendingPrePush(stack, o.value);
    } else {
      assert stack + OptSeq(o) == stack;
    }
  }

  /**
   * One iteration of the pre-order loop: yielding the top node and pushing its left child, then
   * its right one, leaves the yielded-plus-pending sequence unchanged.
   */
  lemma PreStep(out: seq<Node>, stack: seq<Node>)
    requires stack != []
    ensures var t, rest := stack[|stack| - 1], stack[..|stack| - 1];
      out + [t] + PendingPre(rest + OptSeq(t.left) + OptSeq(t.right)) == out + PendingPre(stack)
  {
    var t, rest := stack[|stack| - 1], stack[..|stack| - 1];
    var r, l, p := Rev.PreOrderOpt(t.right), Rev.PreOrderOpt(t.left), PendingPre(rest);
    PendingPrePushOpt(rest, t.left);
    PendingPrePushOpt(rest + OptSeq(t.left), t.right);
    calc {
      out + [t] + PendingPre(rest + OptSeq(t.left) + OptSeq(t.right));
      out + [t] + (r + (l + p));
      { Assoc(r, l, p); }
      out + [t] + (r + l + p);
      { Assoc(out, [t], r + l + p); }
      out + ([t] + (r + l + p));
      { Assoc([t], r + l, p); }
      out + ([t] + (r + l) + p);
      { Assoc([t], r, l); }
      out + ([t] + r + l + p);
      out + PendingPre(stack);
    }
  }

  /** preOrderGenerator: pop a node, yield it, push its left child and then its right child. */
  method PreOrder(root: Node) returns (out: seq<Node>)
    ensures out == Rev.PreOrder(root)
  {
    var stack := [root];
    out := [];
    PendingPrePush([], root);
    while stack != []
      invariant out + PendingPre(stack) == Rev.PreOrder(root)
      decreases |Rev.PreOrder(root)| - |out|
    {
      var cur := stack[|stack| - 1];
      var rest := stack[..|stack| - 1];
      PreStep(out, stack);
      stack := rest;
      out := out + [cur];
      if cur.left.Some? {
        stack := stack + [cur.left.value];
      }
      assert stack == rest + OptSeq(cur.left);
      if cur.right.Some? {
        stack := stack + [cur.right.value];
      }
      assert stack == rest + OptSeq(cur.left) + OptSeq(cur.right);
    }
  }

  /** What the entries of the in-order stack still have to yield: each its node, then its left subtree. */
  ghost function PendingIn(stack: seq<Node>): seq<Node>
  {
    if stack == [] then []
    else
      var t := stack[|stack| - 1];
      [t] + Rev.InOrderOpt(t.left) + PendingIn(stack[..|stack| - 1])
  }

  lemma PendingInPush(stack: seq<Node>, t: Node)
    ensures PendingIn(stack + [t]) == [t] + Rev.InOrderOpt(t.left) + PendingIn(stack)
  {
    assert (stack + [t])[..|stack|] == stack;
  }

  /** Pushing the cursor and moving to its right child leaves the yielded-plus-pending sequence unchanged. */
  lemma InDescend(out: seq<Node>, stack: seq<Node>, c: Node)
    ensures out + Rev.InOrderOpt(c.right) + PendingIn(stack + [c]) ==
      out + Rev.InOrderOpt(Some(c)) + PendingIn(stack)
  {
    var r, l, p := Rev.InOrderOpt(c.right), Rev.InOrderOpt(c.left), PendingIn(stack);
    PendingInPush(stack, c);
    calc {
      out + r + PendingIn(stack + [c]);
      out + r + ([c] + l + p);
      { Assoc(out + r, [c] + l, p); }
      out + r + ([c] + l) + p;
      { Assoc(out, r, [c] + l); Assoc(r, [c], l); }
      out + (r + [c] + l) + p;
      out + Rev.InOrderOpt(Some(c)) + p;
    }
  }

  /** Popping and yielding a node and moving to its left child leaves it unchanged too. */
  lemma InPop(out: seq<Node>, stack: seq<Node>)
    requires stack != []
    ensures var t, rest := stack[|stack| - 1], stack[..|stack| - 1];
      out + [t] + Rev.InOrderOpt(t.left) + PendingIn(rest) == out + Rev.InOrderOpt(None) + PendingIn(stack)
  {
    var t, rest := stack[|stack| - 1], stack[..|stack| - 1];
    var l, p := Rev.InOrderOpt(t.left), PendingIn(rest);
    calc {
      out + [t] + l + p;
      { Assoc(out, [t], l); }
      out + ([t] + l) + p;
      { Assoc(out, [t] + l, p); }
      out + ([t] + l + p);
      out + PendingIn(stack);
      { assert out + Rev.InOrderOpt(None) == out; }
      out + Rev.InOrderOpt(None) + PendingIn(stack);
    }
  }

  /**
   * inOrderGenerator: push the cursor and go right until there is no right child, pop and yield a
   * node, then continue from its left child.
   */
  method InOrder(root: Node) returns (out: seq<Node>)
    ensures out == Rev.InOrder(root)
  {
    var stack: seq<Node> := [];
    var cur: Option<Node> := Some(root);
    out := [];
    assert out + Rev.InOrderOpt(cur) + PendingIn(stack) == Rev.InOrder(root);
    while cur.Some? || stack != []
      invariant out + Rev.InOrderOpt(cur) + PendingIn(stack) == Rev.InOrder(root)
      decreases |Rev.InOrder(root)| - |out|
    {
      while cur.Some?
        invariant out + Rev.InOrderOpt(cur) + PendingIn(stack) == Rev.InOrder(root)
        invariant cur.Some? || stack != []
        decreases SizeOpt(cur)
      {
        var c := cur.value;
        InDescend(out, stack, c);
        stack := stack + [c];
        cur := c.right;
        assert SizeOpt(cur) < Size(c);
      }
      var t := stack[|stack| - 1];
      InPop(out, stack);
      stack := stack[..|stack| - 1];
      out := out + [t];
      cur := t.left;
    }
  }

  /**
   * Ghost bookkeeping of the post-order stack, not stored by the source: a node pushed on the way
   * down, together with its left child pushed just below it, or a node pushed back after its
   * left child was taken off the stack.
   */
  datatype Frame = Fresh(node: Node) | Resumed(node: Node)

  /** The stack entries a frame stands for, bottom first. */
  ghost function Entries(f: Frame): seq<Node>
  {
    match f
    case Fresh(n) => OptSeq(n.left) + [n]
    case Resumed(n) => [n]
  }

  ghost function Expand(frames: seq<Frame>): seq<Node>
  {
    if frames == [] then [] else Expand(frames[..|frames| - 1]) + Entries(frames[|frames| - 1])
  }

  /** What a frame still has to yield: for a fresh node its left subtree and itself. */
  ghost function FramePending(f: Frame): seq<Node>
  {
    match f
    case Fresh(n) => Rev.PostOrderOpt(n.left) + [n]
    case Resumed(n) => [n]
  }

  /** What the post-order stack still has to yield, top frame first. */
  ghost function PendingPost(frames: seq<Frame>): seq<Node>
  {
    if frames == [] then [] else FramePending(frames[|frames| - 1]) + PendingPost(frames[..|frames| - 1])
  }

  ghost function FrameWeight(f: Frame): nat
  {
    match f
    case Fresh(n) => 2 * SizeOpt(n.left) + 2
    case Resumed(n) => 1
  }

  /** The stack part of the post-order loop's termination measure. */
  ghost function Weight(frames: seq<Frame>): nat
  {
    if frames == [] then 0 else FrameWeight(frames[|frames| - 1]) + Weight(frames[..|frames| - 1])
  }

  lemma FramePush(frames: seq<Frame>, f: Frame)
    ensures Expand(frames + [f]) == Expand(frames) + Entries(f)
    ensures PendingPost(frames + [f]) == FramePending(f) + PendingPost(frames)
    ensures Weight(frames + [f]) == FrameWeight(f) + Weight(frames)
  {
    assert (frames + [f])[..|frames|] == frames;
  }

  /**
   * The loop state of the post-order traversal: the bottom frame holds the root, every other
   * frame holds a child of the node of the frame below it, and the cursor is a child of the top
   * frame's node, or the root when there is no frame.
   */
  ghost predicate PostInv(root: Node, cur: Option<Node>, frames: seq<Frame>)
  {
    (frames != [] ==> frames[0].node == root) &&
    (frames == [] && cur.Some? ==> cur.value == root) &&
    Chain(frames) &&
    (cur.Some? && frames != [] ==> IsChild(frames[|frames| - 1].node, cur.value))
  }

  /** Each frame's node is a child of the node of the frame below it. */
  ghost predicate Chain(frames: seq<Frame>)
  {
    |frames| <= 1 ||
    (Chain(frames[..|frames| - 1]) && IsChild(frames[|frames| - 2].node, frames[|frames| - 1].node))
  }

  lemma {:induction false} ChainAt(frames: seq<Frame>, i: nat)
    requires Chain(frames) && 0 < i < |frames|
    ensures IsChild(frames[i - 1].node, frames[i].node)
  {
    if i < |frames| - 1 {
      ChainAt(frames[..|frames| - 1], i);
    }
  }

  lemma {:induction false} FrameInTree(root: Node, frames: seq<Frame>, i: nat)
    requires PostInv(root, None, frames) && i < |frames|
    ensures frames[i].node in Nodes(root)
  {
    if i == 0 {
      assert root in Nodes(root);
    } else {
      FrameInTree(root, frames, i - 1);
      ChainAt(frames, i);
      ChildInTree(root, frames[i - 1].node, frames[i].node);
    }
  }

  lemma PostDescendInv(root: Node, c: Node, frames: seq<Frame>)
    requires PostInv(root, Some(c), frames)
    ensures PostInv(root, c.right, frames + [Fresh(c)])
  {
  }

  /** One step down: push the left child, if any, then the node, and go to the right child. */
  lemma PostDescendPending(out: seq<Node>, c: Node, frames: seq<Frame>)
    ensures Expand(frames + [Fresh(c)]) == Expand(frames) + OptSeq(c.left) + [c]
    ensures out + Rev.PostOrderOpt(c.right) + PendingPost(frames + [Fresh(c)]) ==
      out + Rev.PostOrderOpt(Some(c)) + PendingPost(frames)
    ensures 2 * SizeOpt(c.right) + Weight(frames + [Fresh(c)]) ==
      2 * SizeOpt(Some(c)) + Weight(frames)
  {
    FramePush(frames, Fresh(c));
    Assoc(Expand(frames), OptSeq(c.left), [c]);
    var r, l, p := Rev.PostOrderOpt(c.right), Rev.PostOrderOpt(c.left), PendingPost(frames);
    calc {
      out + r + PendingPost(frames + [Fresh(c)]);
      out + r + (l + [c] + p);
      { Assoc(out + r, l + [c], p); }
      out + r + (l + [c]) + p;
      { Assoc(out, r, l + [c]); Assoc(r, l, [c]); }
      out + (r + l + [c]) + p;
      out + Rev.PostOrderOpt(Some(c)) + p;
    }
  }

  /** The stack's top entry is the top frame's node. */
  lemma ExpandTop(frames: seq<Frame>)
    requires frames != []
    ensures var e, f, pre := Expand(frames), frames[|frames| - 1], frames[..|frames| - 1];
      e != [] && e[|e| - 1] == f.node &&
      e[..|e| - 1] == Expand(pre) + (if f.Fresh? then OptSeq(f.node.left) else [])
  {
    var e, f, pre := Expand(frames), frames[|frames| - 1], frames[..|frames| - 1];
    assert frames == pre + [f];
    FramePush(pre, f);
    if f.Fresh? {
      Assoc(Expand(pre), OptSeq(f.node.left), [f.node]);
    }
  }

  /** Whether the top frame is a fresh node with a left child: the case the source swaps in. */
  ghost predicate SwapCase(frames: seq<Frame>)
    requires frames != []
  {
    frames[|frames| - 1].Fresh? && frames[|frames| - 1].node.left.Some?
  }

  /** The left child of a frame's node never has the id of the node of the frame below. */
  lemma GrandchildBelow(root: Node, frames: seq<Frame>)
    requires UniqueIds(root) && PostInv(root, None, frames) && |frames| >= 2
    requires frames[|frames| - 1].node.left.Some?
    ensures frames[|frames| - 1].node.left.value.id != frames[|frames| - 2].node.id
  {
    ChainAt(frames, |frames| - 1);
    FrameInTree(root, frames, |frames| - 2);
    GrandchildIsNotParent(root, frames[|frames| - 2].node, frames[|frames| - 1].node,
      frames[|frames| - 1].node.left.value);
  }

  /**
   * After a pop, the source's test (the next entry is the popped node's left child, by identity)
   * holds exactly when the top frame is fresh and its node has a left child.
   */
  lemma PopTest(root: Node, frames: seq<Frame>)
    requires UniqueIds(root) && PostInv(root, None, frames) && frames != []
    ensures var e, t := Expand(frames), frames[|frames| - 1].node;
      var rest := e[..|e| - 1];
      e != [] && e[|e| - 1] == t &&
      ((rest != [] && t.left.Some? && t.left.value.id == rest[|rest| - 1].id) <==> SwapCase(frames))
  {
    var e, f, pre := Expand(frames), frames[|frames| - 1], frames[..|frames| - 1];
    var t, rest := f.node, e[..|e| - 1];
    ExpandTop(frames);
    if !SwapCase(frames) && rest != [] && t.left.Some? {
      assert rest == Expand(pre);
      ExpandTop(pre);
      assert frames[|frames| - 2] == pre[|pre| - 1];
      GrandchildBelow(root, frames);
    }
  }

  /** The swap keeps the frames' nodes, so it keeps the chain, and the cursor is the left child. */
  lemma PostSwapInv(root: Node, pre: seq<Frame>, t: Node)
    requires PostInv(root, None, pre + [Fresh(t)]) && t.left.Some?
    ensures PostInv(root, t.left, pre + [Resumed(t)])
  {
    var frames, frames' := pre + [Fresh(t)], pre + [Resumed(t)];
    SnocPrefix(pre, Fresh(t));
    SnocPrefix(pre, Resumed(t));
    if pre == [] {
      assert frames'[0] == Resumed(t);
    } else {
      assert frames'[0] == pre[0] == frames[0];
    }
    assert |frames'| <= 1 || IsChild(frames'[|frames'| - 2].node, frames'[|frames'| - 1].node);
  }

  /** The swap: the left child is taken off, the node is pushed back, the walk goes left. */
  lemma PostSwapPending(out: seq<Node>, pre: seq<Frame>, t: Node)
    requires t.left.Some?
    ensures Expand(pre + [Fresh(t)]) == Expand(pre) + [t.left.value] + [t]
    ensures Expand(pre + [Resumed(t)]) == Expand(pre) + [t]
    ensures out + Rev.PostOrderOpt(t.left) + PendingPost(pre + [Resumed(t)]) ==
      out + Rev.PostOrderOpt(None) + PendingPost(pre + [Fresh(t)])
    ensures 2 * SizeOpt(t.left) + Weight(pre + [Resumed(t)]) < Weight(pre + [Fresh(t)])
  {
    FramePush(pre, Fresh(t));
    FramePush(pre, Resumed(t));
    Assoc(Expand(pre), [t.left.value], [t]);
    var l, p := Rev.PostOrderOpt(t.left), PendingPost(pre);
    calc {
      out + l + PendingPost(pre + [Resumed(t)]);
      out + l + ([t] + p);
      { Assoc(out + l, [t], p); }
      out + l + [t] + p;
      { Assoc(out, l, [t]); }
      out + (l + [t]) + p;
      { Assoc(out, l + [t], p); }
      out + (l + [t] + p);
      { assert out + Rev.PostOrderOpt(None) == out; }
      out + Rev.PostOrderOpt(None) + PendingPost(pre + [Fresh(t)]);
    }
  }

  /** Any other popped node has nothing right below it to visit, and is yielded. */
  lemma PostEmit(root: Node, out: seq<Node>, frames: seq<Frame>)
    requires PostInv(root, None, frames) && frames != []
    requires !(frames[|frames| - 1].Fresh? && frames[|frames| - 1].node.left.Some?)
    ensures var t, pre := frames[|frames| - 1].node, frames[..|frames| - 1];
      PostInv(root, None, pre) &&
      out + [t] + Rev.PostOrderOpt(None) + PendingPost(pre) ==
        out + Rev.PostOrderOpt(None) + PendingPost(frames) &&
      Weight(pre) < Weight(frames)
  {
    var f, pre := frames[|frames| - 1], frames[..|frames| - 1];
    var t := f.node;
    assert frames == pre + [f];
    FramePush(pre, f);
    assert FramePending(f) == [t];
    var p := PendingPost(pre);
    calc {
      out + [t] + Rev.PostOrderOpt(None) + p;
      { assert out + [t] + Rev.PostOrderOpt(None) == out + [t]; }
      out + [t] + p;
      { Assoc(out, [t], p); }
      out + ([t] + p);
      { assert out + Rev.PostOrderOpt(None) == out; }
      out + Rev.PostOrderOpt(None) + PendingPost(frames);
    }
  }

  /** The whole loop state of the post-order traversal, including what it still has to yield. */
  ghost predicate PostState(root: Node, out: seq<Node>, cur: Option<Node>, stack: seq<Node>, frames: seq<Frame>)
  {
    stack == Expand(frames) && PostInv(root, cur, frames) &&
    out + Rev.PostOrderOpt(cur) + PendingPost(frames) == Rev.PostOrder(root)
  }

  lemma DescendStep(root: Node, out: seq<Node>, c: Node, stack: seq<Node>, frames: seq<Frame>)
    requires PostState(root, out, Some(c), stack, frames)
    ensures c.left.Some? ==> PostState(root, out, c.right, stack + [c.left.value] + [c], frames + [Fresh(c)])
    ensures c.left.None? ==> PostState(root, out, c.right, stack + [c], frames + [Fresh(c)])
    ensures 2 * SizeOpt(c.right) + Weight(frames + [Fresh(c)]) == 2 * SizeOpt(Some(c)) + Weight(frames)
  {
    PostDescendInv(root, c, frames);
    PostDescendPending(out, c, frames);
    if c.left.None? {
      assert stack + OptSeq(c.left) == stack;
    }
  }

  /** In the swap case the stack ends with the left child and the node; the swap exchanges them. */
  lemma SwapStack(stack: seq<Node>, frames: seq<Frame>)
    requires stack == Expand(frames) && frames != [] && SwapCase(frames)
    ensures var t, rest := stack[|stack| - 1], stack[..|stack| - 1];
      t == frames[|frames| - 1].node && rest != [] &&
      rest[..|rest| - 1] + [t] == Expand(frames[..|frames| - 1] + [Resumed(t)])
  {
    var pre, t := frames[..|frames| - 1], frames[|frames| - 1].node;
    ExpandTop(frames);
    SnocPrefix(Expand(pre), t.left.value);
    FramePush(pre, Resumed(t));
  }

  lemma SwapStep(root: Node, out: seq<Node>, stack: seq<Node>, frames: seq<Frame>)
    requires PostState(root, out, None, stack, frames) && frames != [] && SwapCase(frames)
    ensures var t, rest := stack[|stack| - 1], stack[..|stack| - 1];
      var frames' := frames[..|frames| - 1] + [Resumed(t)];
      rest != [] &&
      PostState(root, out, t.left, rest[..|rest| - 1] + [t], frames') &&
      2 * SizeOpt(t.left) + Weight(frames') < 2 * SizeOpt(None) + Weight(frames)
  {
    var pre, t := frames[..|frames| - 1], frames[|frames| - 1].node;
    SwapStack(stack, frames);
    assert frames == pre + [Fresh(t)];
    PostSwapInv(root, pre, t);
    PostSwapPending(out, pre, t);
  }

  lemma EmitStep(root: Node, out: seq<Node>, stack: seq<Node>, frames: seq<Frame>)
    requires PostState(root, out, None, stack, frames) && frames != [] && !SwapCase(frames)
    ensures var t, rest := stack[|stack| - 1], stack[..|stack| - 1];
      PostState(root, out + [t], None, rest, frames[..|frames| - 1]) &&
      Weight(frames[..|frames| - 1]) < 2 * SizeOpt(None) + Weight(frames)
  {
    ExpandTop(frames);
    PostEmit(root, out, frames);
  }

  /**
   * The inner loop of postOrderGenerator: from the cursor down its right spine, push each node's
   * left child (if any) and then the node.
   */
  method PostPushRight(ghost root: Node, ghost out: seq<Node>, cur: Option<Node>, stack: seq<Node>,
                      ghost frames: seq<Frame>)
    returns (stack': seq<Node>, ghost frames': seq<Frame>)
    requires PostState(root, out, cur, stack, frames) && (cur.Some? || stack != [])
    ensures PostState(root, out, None, stack', frames') && stack' != []
    ensures Weight(frames') == 2 * SizeOpt(cur) + Weight(frames)
  {
    var c := cur;
    stack', frames' := stack, frames;
    while c.Some?
      invariant PostState(root, out, c, stack', frames')
      invariant 2 * SizeOpt(c) + Weight(frames') == 2 * SizeOpt(cur) + Weight(frames)
      invariant c.Some? || stack' != []
      decreases SizeOpt(c)
    {
      var n := c.value;
      DescendStep(root, out, n, stack', frames');
      if n.left.Some? {
        stack' := stack' + [n.left.value];
      }
      stack' := stack' + [n];
      frames' := frames' + [Fresh(n)];
      c := n.right;
      assert SizeOpt(c) < Size(n);
    }
  }

  /**
   * One pop of postOrderGenerator: a node whose left child is, by identity, the next entry on
   * the stack swaps with it and the walk continues into the left subtree; any other popped node
   * is yielded and the cursor cleared.
   */
  method PostPop(ghost root: Node, out: seq<Node>, stack: seq<Node>, ghost frames: seq<Frame>)
    returns (out': seq<Node>, cur': Option<Node>, stack': seq<Node>, ghost frames': seq<Frame>)
    requires UniqueIds(root) && PostState(root, out, None, stack, frames) && stack != []
    ensures PostState(root, out', cur', stack', frames')
    ensures 2 * SizeOpt(cur') + Weight(frames') < Weight(frames)
  {
    assert frames != [];
    PopTest(root, frames);
    var t := stack[|stack| - 1];
    stack' := stack[..|stack| - 1];
    if stack' != [] && t.left.Some? && t.left.value.id == stack'[|stack'| - 1].id {
      SwapStep(root, out, stack, frames);
      stack' := stack'[..|stack'| - 1];
      stack' := stack' + [t];
      frames' := frames[..|frames| - 1] + [Resumed(t)];
      out', cur' := out, t.left;
    } else {
      EmitStep(root, out, stack, frames);
      frames' := frames[..|frames| - 1];
      out', cur' := out + [t], None;
    }
  }

  /**
   * postOrderGenerator: on the way down push the left child (if any) and then the node, then pop
   * one entry; repeat while there is a cursor or a stacked node.
   */
  method PostOrder(root: Node) returns (out: seq<Node>)
    requires UniqueIds(root)
    ensures out == Rev.PostOrder(root)
  {
    var stack: seq<Node> := [];
    ghost var frames: seq<Frame> := [];
    var cur: Option<Node> := Some(root);
    out := [];
    assert out + Rev.PostOrderOpt(cur) + PendingPost(frames) == Rev.PostOrder(root);
    while cur.Some? || stack != []
      invariant PostState(root, out, cur, stack, frames)
      decreases 2 * SizeOpt(cur) + Weight(frames)
    {
      stack, frames := PostPushRight(root, out, cur, stack, frames);
      out, cur, stack, frames := PostPop(root, out, stack, frames);
    }
  }

  /**
   * The state of a level being drained: the level's nodes split into those taken and those still
   * to take, `counter` of them, and the queue holding the rest of the level followed by the
   * mirrored next level of the nodes taken so far.
   */
  ghost predicate Draining(level: seq<Node>, taken: seq<Node>, todo: seq<Node>, queue: seq<Node>, counter: int)
  {
    counter == |todo| && level == taken + todo && queue == todo + RevKids(taken)
  }

  lemma DrainStart(level: seq<Node>)
    ensures Draining(level, [], level, level, |level|)
  {
    assert RevKids([]) == [];
  }

  /** Dequeuing the first node still to take and enqueuing its children, right then left. */
  lemma DequeueKids(taken: seq<Node>, todo: seq<Node>)
    requires todo != []
    ensures var q, t := todo + RevKids(taken), todo[0];
      q[0] == t && Enqueue(Enqueue(q[1..], t.right), t.left) == todo[1..] + RevKids(taken + [t])
  {
    var q, t := todo + RevKids(taken), todo[0];
    assert q[1..] == todo[1..] + RevKids(taken);
    SnocPrefix(taken, t);
    assert RevKids(taken + [t]) == RevKids(taken) + RevChildren(t);
    Assoc(q[1..], OptSeq(t.right), OptSeq(t.left));
    Assoc(todo[1..], RevKids(taken), RevChildren(t));
  }

  lemma TakeFirst(taken: seq<Node>, todo: seq<Node>)
    requires todo != []
    ensures taken + [todo[0]] + todo[1..] == taken + todo
  {
    Assoc(taken, [todo[0]], todo[1..]);
    assert [todo[0]] + todo[1..] == todo;
  }

  /** Dequeuing one node of the level and enqueuing its children, right then left. */
  lemma DrainStep(level: seq<Node>, taken: seq<Node>, todo: seq<Node>, queue: seq<Node>, counter: int)
    requires Draining(level, taken, todo, queue, counter) && counter > 0
    ensures queue != [] && queue[0] == todo[0]
    ensures var t := queue[0];
      Draining(level, taken + [t], todo[1..], Enqueue(Enqueue(queue[1..], t.right), t.left), counter - 1)
  {
    DequeueKids(taken, todo);
    TakeFirst(taken, todo);
  }

  lemma DrainEnd(level: seq<Node>, taken: seq<Node>, todo: seq<Node>, queue: seq<Node>)
    requires Draining(level, taken, todo, queue, 0)
    ensures taken == level && queue == RevKids(level)
  {
    assert todo == [];
  }

  /**
   * The inner loop of BFSGenerator: dequeue as many nodes as the level holds, in order,
   * enqueuing the children of each, right then left.
   */
  method DrainLevel(queue: seq<Node>) returns (nodeList: seq<Node>, queue': seq<Node>)
    ensures nodeList == queue && queue' == RevKids(queue)
  {
    ghost var todo := queue;
    nodeList, queue' := [], queue;
    var counter := |queue|;
    DrainStart(queue);
    while counter > 0
      invariant Draining(queue, nodeList, todo, queue', counter)
    {
      DrainStep(queue, nodeList, todo, queue', counter);
      var node := queue'[0];
      queue' := queue'[1..];
      nodeList := nodeList + [node];
      if node.right.Some? {
        queue' := queue' + [node.right.value];
      }
      if node.left.Some? {
        queue' := queue' + [node.left.value];
      }
      todo := todo[1..];
      counter := counter - 1;
    }
    DrainEnd(queue, nodeList, todo, queue');
  }

  /**
   * BFSGenerator: level by level, each level's nodes yielded right to left, that is the
   * level-order lists each reversed, one after the other.
   */
  method BFS(root: Node) returns (out: seq<Node>)
    ensures out == Flatten(MapReverse(LevelsOf(root)))
  {
    var queue := [root];
    out := [];
    while queue != []
      invariant out + Flatten(RevLevels(queue)) == Flatten(RevLevels([root]))
      decreases SizeF(queue)
    {
      var nodes, next := DrainLevel(queue);
      BFSDone(out, queue, next);
      out := out + nodes;
      queue := next;
    }
    assert Reverse([root]) == [root];
    RevLevelsReverse([root]);
  }

  lemma BFSDone(start: seq<Node>, level: seq<Node>, queue: seq<Node>)
    requires level != [] && queue == RevKids(level)
    ensures start + level + Flatten(RevLevels(queue)) == start + Flatten(RevLevels(level))
    ensures SizeF(queue) < SizeF(level)
  {
    RevKidsSize(level);
    FlattenRevLevelsStep(level);
    Assoc(start, level, Flatten(RevLevels(queue)));
  }
}
