/**
 * The iterative n-ary tree traversals, each proved to yield exactly the sequence of its recursive
 * definition.  An `SplStack` is a sequence whose last element is the top; an `SplQueue` is a
 * sequence whose first element is the front.  The `end()`/`prev()` walk over a children list
 * pushes the children from the last one down to the first, so the first child ends on top.
 */
module NAryTreeTraversal {
  import opened Common
  import opened NAryTree
  import Rec = NAryTreeRecursiveTraversal

  lemma ReverseSuffix<T>(s: seq<T>, i: nat)
    requires i < |s|
    ensures Reverse(s[i..]) == Reverse(s[i + 1..]) + [s[i]]
  {
    assert s[i..][1..] == s[i + 1..];
  }

  /**
   * The `end()`/`prev()` loop: push every child onto the stack, starting from the last one, so
   * that the children come off the stack in list order.
   */
  method PushChildren(stack: seq<Node>, children: seq<Node>) returns (stack': seq<Node>)
    ensures stack' == stack + Reverse(children)
  {
    stack' := stack;
    var i := |children|;
    while i > 0
      invariant 0 <= i <= |children|
      invariant stack' == stack + Reverse(children[i..])
    {
      i := i - 1;
      ReverseSuffix(children, i);
      Assoc(stack, Reverse(children[i + 1..]), [children[i]]);
      stack' := stack' + [children[i]];
    }
    assert children[0..] == children;
  }

  /** What the entries of the pre-order stack still have to yield, top entry first. */
  ghost function PendingPre(stack: seq<Node>): seq<Node>
  {
    if stack == [] then [] else Rec.PreOrder(stack[|stack| - 1]) + PendingPre(stack[..|stack| - 1])
  }

  lemma PendingPrePush(stack: seq<Node>, t: Node)
    ensures PendingPre(stack + [t]) == Rec.PreOrder(t) + PendingPre(stack)
  {
    assert (stack + [t])[..|stack|] == stack;
  }

  /** Pushing a children list in reverse puts the pre-orders of the children, in list order, in front. */
  lemma {:induction false} PendingPrePushAll(stack: seq<Node>, f: seq<Node>)
    ensures PendingPre(stack + Reverse(f)) == Rec.PreOrderF(f) + PendingPre(stack)
    decreases |f|
  {
    if f == [] {
      assert stack + Reverse(f) == stack;
    } else {
      Assoc(stack, Reverse(f[1..]), [f[0]]);
      PendingPrePush(stack + Reverse(f[1..]), f[0]);
      PendingPrePushAll(stack, f[1..]);
      Assoc(Rec.PreOrder(f[0]), Rec.PreOrderF(f[1..]), PendingPre(stack));
    }
  }

  /**
   * One iteration of the pre-order loop: yielding the top node and pushing its children leaves
   * the yielded-plus-pending sequence unchanged.
   */
  lemma PreStep(out: seq<Node>, stack: seq<Node>)
    requires stack != []
    ensures var t, rest := stack[|stack| - 1], stack[..|stack| - 1];
      out + [t] + PendingPre(rest + Reverse(t.children)) == out + PendingPre(stack)
  {
    var t, rest := stack[|stack| - 1], stack[..|stack| - 1];
    PendingPrePushAll(rest, t.children);
    Assoc(out, [t], Rec.PreOrderF(t.children) + PendingPre(rest));
    Assoc([t], Rec.PreOrderF(t.children), PendingPre(rest));
  }

  /** preOrderGenerator: pop a node, yield it, push its children from the last one to the first. */
  method PreOrder(root: Node) returns (out: seq<Node>)
    ensures out == Rec.PreOrder(root)
  {
    var stack := [root];
    out := [];
    PendingPrePush([], root);
    while stack != []
      invariant out + PendingPre(stack) == Rec.PreOrder(root)
      decreases |Rec.PreOrder(root)| - |out|
    {
      var cur := stack[|stack| - 1];
      var rest := stack[..|stack| - 1];
      PreStep(out, stack);
      out := out + [cur];
      stack := PushChildren(rest, cur.children);
    }
  }

  /**
   * A post-order stack entry, as the proof sees it: a node whose children have not been pushed
   * yet, or one whose children have been pushed above it (and are all yielded once it is back on top).
   */
  datatype Frame = Fresh(node: Node) | Expanded(node: Node)

  /** The nodes held by the stack entries, bottom first. */
  ghost function FrameNodes(frames: seq<Frame>): (r: seq<Node>)
    ensures |r| == |frames|
  {
    if frames == [] then [] else FrameNodes(frames[..|frames| - 1]) + [frames[|frames| - 1].node]
  }

  /** A fresh entry still has its whole subtree to yield; an expanded one only its node. */
  ghost function FramePending(f: Frame): seq<Node>
  {
    match f
    case Fresh(n) => Rec.PostOrder(n)
    case Expanded(n) => [n]
  }

  /** What the stack still has to yield, top entry first. */
  ghost function PendingPost(frames: seq<Frame>): seq<Node>
  {
    if frames == [] then [] else FramePending(frames[|frames| - 1]) + PendingPost(frames[..|frames| - 1])
  }

  ghost function FrameWeight(f: Frame): nat
  {
    match f
    case Fresh(n) => 2 * Size(n)
    case Expanded(_) => 1
  }

  /** The termination measure of the post-order loop: every iteration lowers it. */
  ghost function Weight(frames: seq<Frame>): nat
  {
    if frames == [] then 0 else Weight(frames[..|frames| - 1]) + FrameWeight(frames[|frames| - 1])
  }

  lemma FramePush(frames: seq<Frame>, f: Frame)
    ensures FrameNodes(frames + [f]) == FrameNodes(frames) + [f.node]
    ensures PendingPost(frames + [f]) == FramePending(f) + PendingPost(frames)
    ensures Weight(frames + [f]) == Weight(frames) + FrameWeight(f)
  {
    assert (frames + [f])[..|frames|] == frames;
  }

  lemma FramePop(frames: seq<Frame>)
    requires frames != []
    ensures var pre, f := frames[..|frames| - 1], frames[|frames| - 1];
      FrameNodes(frames) == FrameNodes(pre) + [f.node] &&
      PendingPost(frames) == FramePending(f) + PendingPost(pre) &&
      Weight(frames) == Weight(pre) + FrameWeight(f)
  {
  }

  /** Fresh entries for a sequence of nodes, in the same order. */
  ghost function FreshAll(s: seq<Node>): (r: seq<Frame>)
    ensures |r| == |s|
  {
    if s == [] then [] else FreshAll(s[..|s| - 1]) + [Fresh(s[|s| - 1])]
  }

  lemma FreshAllSnoc(s: seq<Node>, x: Node)
    ensures FreshAll(s + [x]) == FreshAll(s) + [Fresh(x)]
  {
    assert (s + [x])[..|s|] == s;
  }

  lemma FreshAllTop(s: seq<Node>)
    requires s != []
    ensures FreshAll(s)[|s| - 1] == Fresh(s[|s| - 1])
  {
  }

  /** Fresh entries for the children, pushed in reverse, hold the children in reverse. */
  lemma {:induction false} PushFreshNodes(frames: seq<Frame>, f: seq<Node>)
    ensures FrameNodes(frames + FreshAll(Reverse(f))) == FrameNodes(frames) + Reverse(f)
    decreases |f|
  {
    if f == [] {
      assert frames + FreshAll(Reverse(f)) == frames;
    } else {
      var r := Reverse(f[1..]);
      FreshAllSnoc(r, f[0]);
      Assoc(frames, FreshAll(r), [Fresh(f[0])]);
      FramePush(frames + FreshAll(r), Fresh(f[0]));
      PushFreshNodes(frames, f[1..]);
      Assoc(FrameNodes(frames), r, [f[0]]);
    }
  }

  /** ... still have to yield the post-orders of the children, in list order ... */
  lemma {:induction false} PushFreshPending(frames: seq<Frame>, f: seq<Node>)
    ensures PendingPost(frames + FreshAll(Reverse(f))) == Rec.PostOrderF(f) + PendingPost(frames)
    decreases |f|
  {
    if f == [] {
      assert frames + FreshAll(Reverse(f)) == frames;
    } else {
      var r := Reverse(f[1..]);
      FreshAllSnoc(r, f[0]);
      Assoc(frames, FreshAll(r), [Fresh(f[0])]);
      FramePush(frames + FreshAll(r), Fresh(f[0]));
      PushFreshPending(frames, f[1..]);
      Assoc(Rec.PostOrder(f[0]), Rec.PostOrderF(f[1..]), PendingPost(frames));
    }
  }

  /** ... and weigh twice the size of the children's forest. */
  lemma {:induction false} PushFreshWeight(frames: seq<Frame>, f: seq<Node>)
    ensures Weight(frames + FreshAll(Reverse(f))) == Weight(frames) + 2 * SizeF(f)
    decreases |f|
  {
    if f == [] {
      assert frames + FreshAll(Reverse(f)) == frames;
    } else {
      var r := Reverse(f[1..]);
      FreshAllSnoc(r, f[0]);
      Assoc(frames, FreshAll(r), [Fresh(f[0])]);
      FramePush(frames + FreshAll(r), Fresh(f[0]));
      PushFreshWeight(frames, f[1..]);
      NodesFCons(f);
    }
  }

  /** `c` is the last child of `p`. */
  predicate LastChildIs(p: Node, c: Node)
  {
    p.children != [] && p.children[|p.children| - 1] == c
  }

  /** The entry right above an expanded one holds that node's last child. */
  ghost predicate ExpandedBelow(frames: seq<Frame>)
  {
    |frames| <= 1 ||
    (ExpandedBelow(frames[..|frames| - 1]) &&
     (frames[|frames| - 2].Expanded? ==> LastChildIs(frames[|frames| - 2].node, frames[|frames| - 1].node)))
  }

  /** Fresh entries pushed on a stack keep ExpandedBelow when the first lands on a matching entry. */
  lemma {:induction false} ExpandedBelowFresh(frames: seq<Frame>, s: seq<Node>)
    requires ExpandedBelow(frames)
    requires frames != [] && frames[|frames| - 1].Expanded? ==>
      s != [] && LastChildIs(frames[|frames| - 1].node, s[0])
    ensures ExpandedBelow(frames + FreshAll(s))
    decreases |s|
  {
    if s == [] {
      assert frames + FreshAll(s) == frames;
    } else {
      var s', x := s[..|s| - 1], s[|s| - 1];
      assert s == s' + [x];
      FreshAllSnoc(s', x);
      Assoc(frames, FreshAll(s'), [Fresh(x)]);
      var g := frames + FreshAll(s');
      assert (g + [Fresh(x)])[..|g|] == g;
      if s' == [] {
        assert g == frames;
      } else {
        assert s'[0] == s[0];
        ExpandedBelowFresh(frames, s');
        FreshAllTop(s');
        assert g[|g| - 1] == Fresh(s'[|s'| - 1]);
      }
    }
  }

  /**
   * The post-order loop state, first part: the stack holds the entries' nodes, the yielded nodes
   * followed by what the entries still have to yield are the post-order, and `lastManagedNode`
   * is the last node yielded.
   */
  ghost predicate PostSeqs(root: Node, out: seq<Node>, last: Option<Node>, stack: seq<Node>, frames: seq<Frame>)
  {
    stack == FrameNodes(frames) &&
    out + PendingPost(frames) == Rec.PostOrder(root) &&
    last == (if out == [] then None else Some(out[|out| - 1]))
  }

  /**
   * Second part: an expanded entry sees its last child right above it, or, once it is back on
   * top, as the last node yielded.
   */
  ghost predicate PostShape(out: seq<Node>, frames: seq<Frame>)
  {
    ExpandedBelow(frames) &&
    (frames != [] && frames[|frames| - 1].Expanded? ==>
      out != [] && LastChildIs(frames[|frames| - 1].node, out[|out| - 1]))
  }

  ghost predicate PostState(root: Node, out: seq<Node>, last: Option<Node>, stack: seq<Node>, frames: seq<Frame>)
  {
    PostSeqs(root, out, last, stack, frames) && PostShape(out, frames)
  }

  /** The top node is yielded now: it is expanded already, or it has no child. */
  ghost predicate EmitCase(frames: seq<Frame>)
    requires frames != []
  {
    var f := frames[|frames| - 1];
    f.Expanded? || f.node.children == []
  }

  lemma PostStart(root: Node)
    ensures PostState(root, [], None, [root], [Fresh(root)])
  {
    FramePush([], Fresh(root));
  }

  lemma PostFinish(root: Node, out: seq<Node>, last: Option<Node>, frames: seq<Frame>)
    requires PostState(root, out, last, [], frames)
    ensures out == Rec.PostOrder(root)
  {
    assert frames == [];
  }

  /** A node occurrence already yielded and one still pending have different ids. */
  lemma YieldedNotPending(root: Node, out: seq<Node>, pending: seq<Node>, x: Node, y: Node)
    requires UniqueIds(root) && out + pending == Rec.PostOrder(root)
    requires x in out && y in pending
    ensures x.id != y.id
  {
    Rec.PostOrderNodes(root);
    assert multiset(out + pending) == multiset(out) + multiset(pending);
    assert x in Nodes(root) && y in Nodes(root);
    assert x != y by {
      assert multiset(out)[x] >= 1 && multiset(pending)[y] >= 1;
    }
  }

  lemma LastChildInPostOrder(n: Node)
    requires n.children != []
    ensures n.children[|n.children| - 1] in Rec.PostOrder(n)
  {
    var c := n.children;
    Rec.PostOrderFNodes(c);
    assert c[|c| - 1] in NodesF(c);
  }

  /**
   * The identity test of the loop, `lastManagedNode === last child`, holds exactly when the top
   * node is to be yielded: for a fresh node with children, the last node yielded cannot be its
   * last child, which is still pending.
   */
  lemma VisitTest(root: Node, out: seq<Node>, last: Option<Node>, stack: seq<Node>, frames: seq<Frame>)
    requires UniqueIds(root) && PostState(root, out, last, stack, frames) && stack != []
    ensures frames != [] && stack[|stack| - 1] == frames[|frames| - 1].node
    ensures var n := stack[|stack| - 1];
      (|n.children| == 0 || (last.Some? && last.value.id == n.children[|n.children| - 1].id)) <==>
      EmitCase(frames)
  {
    var pre, f := frames[..|frames| - 1], frames[|frames| - 1];
    FramePop(frames);
    var n := f.node;
    if f.Fresh? && n.children != [] && last.Some? && last.value.id == n.children[|n.children| - 1].id {
      LastChildInPostOrder(n);
      Assoc(out, Rec.PostOrder(n), PendingPost(pre));
      YieldedNotPending(root, out, Rec.PostOrder(n) + PendingPost(pre), out[|out| - 1], n.children[|n.children| - 1]);
    }
  }

  /** A node about to be yielded has nothing else pending. */
  lemma EmitPending(f: Frame)
    requires f.Expanded? || f.node.children == []
    ensures FramePending(f) == [f.node]
  {
    if f.Fresh? {
      assert Rec.PostOrderF(f.node.children) == [];
    }
  }

  /** Popping the top entry keeps ExpandedBelow, and an expanded entry below sees the popped node as its last child. */
  lemma EmitShape(frames: seq<Frame>)
    requires ExpandedBelow(frames) && frames != []
    ensures var pre := frames[..|frames| - 1];
      ExpandedBelow(pre) &&
      (pre != [] && pre[|pre| - 1].Expanded? ==> LastChildIs(pre[|pre| - 1].node, frames[|frames| - 1].node))
  {
  }

  /** Yielding and popping the top node keeps the sequences of the loop state and lowers the weight. */
  lemma EmitSeqs(root: Node, out: seq<Node>, last: Option<Node>, stack: seq<Node>, frames: seq<Frame>)
    requires PostSeqs(root, out, last, stack, frames) && frames != [] && EmitCase(frames)
    ensures stack != [] && stack[|stack| - 1] == frames[|frames| - 1].node
    ensures var n := stack[|stack| - 1];
      PostSeqs(root, out + [n], Some(n), stack[..|stack| - 1], frames[..|frames| - 1]) &&
      Weight(frames[..|frames| - 1]) < Weight(frames)
  {
    var pre, f := frames[..|frames| - 1], frames[|frames| - 1];
    FramePop(frames);
    var n := f.node;
    EmitPending(f);
    Assoc(out, [n], PendingPost(pre));
    SnocPrefix(FrameNodes(pre), n);
  }

  /** ... and its shape, whatever the popped entry. */
  lemma EmitShapeStep(out: seq<Node>, frames: seq<Frame>)
    requires PostShape(out, frames) && frames != []
    ensures PostShape(out + [frames[|frames| - 1].node], frames[..|frames| - 1])
  {
    EmitShape(frames);
    var out' := out + [frames[|frames| - 1].node];
    assert out'[|out'| - 1] == frames[|frames| - 1].node;
  }

  /** The entries once the fresh top node's children are pushed above it. */
  ghost function ExpandFrames(frames: seq<Frame>): seq<Frame>
    requires frames != []
  {
    var n := frames[|frames| - 1].node;
    frames[..|frames| - 1] + [Expanded(n)] + FreshAll(Reverse(n.children))
  }

  /** Pushing the children of a fresh top node, which stays below them, keeps the sequences of the loop state. */
  lemma ExpandSeqs(root: Node, out: seq<Node>, last: Option<Node>, stack: seq<Node>, frames: seq<Frame>)
    requires PostSeqs(root, out, last, stack, frames) && frames != [] && frames[|frames| - 1].Fresh?
    ensures var n := frames[|frames| - 1].node;
      PostSeqs(root, out, last, stack + Reverse(n.children), ExpandFrames(frames)) &&
      Weight(ExpandFrames(frames)) < Weight(frames)
  {
    var pre, f := frames[..|frames| - 1], frames[|frames| - 1];
    FramePop(frames);
    var n := f.node;
    var e := pre + [Expanded(n)];
    FramePush(pre, Expanded(n));
    PushFreshNodes(e, n.children);
    PushFreshPending(e, n.children);
    PushFreshWeight(e, n.children);
    Assoc(Rec.PostOrderF(n.children), [n], PendingPost(pre));
  }

  /** ... and its shape: the node's last child now sits right above it. */
  lemma ExpandShape(out: seq<Node>, frames: seq<Frame>)
    requires PostShape(out, frames) && frames != [] && frames[|frames| - 1].Fresh?
    requires frames[|frames| - 1].node.children != []
    ensures PostShape(out, ExpandFrames(frames))
  {
    var pre, n := frames[..|frames| - 1], frames[|frames| - 1].node;
    var e := pre + [Expanded(n)];
    var r := Reverse(n.children);
    assert e[..|pre|] == pre;
    ExpandedBelowFresh(e, r);
    FreshAllTop(r);
  }

  /**
   * One iteration of the post-order loop: look at the top node; yield and pop it when it has no
   * child or the last node yielded is its last child, otherwise push its children above it.
   */
  method PostVisit(ghost root: Node, out: seq<Node>, last: Option<Node>, stack: seq<Node>, ghost frames: seq<Frame>)
    returns (out': seq<Node>, last': Option<Node>, stack': seq<Node>, ghost frames': seq<Frame>)
    requires UniqueIds(root) && PostState(root, out, last, stack, frames) && stack != []
    ensures PostState(root, out', last', stack', frames')
    ensures Weight(frames') < Weight(frames)
  {
    VisitTest(root, out, last, stack, frames);
    var node := stack[|stack| - 1];
    var count := |node.children|;
    if count == 0 || (last.Some? && last.value.id == node.children[count - 1].id) {
      EmitSeqs(root, out, last, stack, frames);
      EmitShapeStep(out, frames);
      out' := out + [node];
      stack' := stack[..|stack| - 1];
      last' := Some(node);
      frames' := frames[..|frames| - 1];
    } else {
      ExpandSeqs(root, out, last, stack, frames);
      ExpandShape(out, frames);
      stack' := PushChildren(stack, node.children);
      frames' := ExpandFrames(frames);
      out', last' := out, last;
    }
  }

  /**
   * postOrderGenerator: a node is yielded once it has no child or its last child was the last
   * node yielded (an identity test); until then its children are pushed above it.  Identity is
   * only meaningful on a tree of distinct objects.
   */
  method PostOrder(root: Node) returns (out: seq<Node>)
    requires UniqueIds(root)
    ensures out == Rec.PostOrder(root)
  {
    var stack := [root];
    var last: Option<Node> := None;
    ghost var frames := [Fresh(root)];
    out := [];
    PostStart(root);
    while stack != []
      invariant PostState(root, out, last, stack, frames)
      decreases Weight(frames)
    {
      out, last, stack, frames := PostVisit(root, out, last, stack, frames);
    }
    PostFinish(root, out, last, frames);
  }

  /** The `foreach` enqueuing the children of a node, in list order. */
  method EnqueueAll(queue: seq<Node>, children: seq<Node>) returns (queue': seq<Node>)
    ensures queue' == queue + children
  {
    queue' := queue;
    for i := 0 to |children|
      invariant queue' == queue + children[..i]
    {
      PrefixSnoc(children, i);
      Assoc(queue, children[..i], [children[i]]);
      queue' := queue' + [children[i]];
    }
    assert children[..|children|] == children;
  }

  ghost predicate Draining(level: seq<Node>, taken: seq<Node>, todo: seq<Node>, queue: seq<Node>, counter: int)
  {
    counter == |todo| && level == taken + todo && queue == todo + Kids(taken)
  }

  lemma DrainStart(level: seq<Node>)
    ensures Draining(level, [], level, level, |level|)
  {
    assert Kids([]) == [];
  }

  /** Dequeuing one node of the level and enqueuing its children, in list order. */
  lemma DrainStep(level: seq<Node>, taken: seq<Node>, todo: seq<Node>, queue: seq<Node>, counter: int)
    requires Draining(level, taken, todo, queue, counter) && counter > 0
    ensures queue != [] && queue[0] == todo[0]
    ensures var t := queue[0];
      Draining(level, taken + [t], todo[1..], queue[1..] + t.children, counter - 1)
  {
    var t := todo[0];
    assert queue[1..] == todo[1..] + Kids(taken);
    SnocPrefix(taken, t);
    Assoc(todo[1..], Kids(taken), t.children);
    Assoc(taken, [t], todo[1..]);
    assert [t] + todo[1..] == todo;
  }

  lemma DrainEnd(level: seq<Node>, taken: seq<Node>, todo: seq<Node>, queue: seq<Node>)
    requires Draining(level, taken, todo, queue, 0)
    ensures taken == level && queue == Kids(level)
  {
    assert todo == [];
  }

  /**
   * The inner loop of levelOrderGenerator and BFSGenerator: dequeue as many nodes as the level
   * holds, in order, enqueuing the children of each.
   */
  method DrainLevel(queue: seq<Node>) returns (nodeList: seq<Node>, queue': seq<Node>)
    ensures nodeList == queue && queue' == Kids(queue)
  {
    ghost var todo := queue;
    nodeList, queue' := [], queue;
    var counter := |queue|;
    DrainStart(queue);
    while counter > 0
      invariant Draining(queue, nodeList, todo, queue', counter)
    {
      DrainStep(queue, nodeList, todo, queue', counter);
      var node := queue'[0];
      queue' := queue'[1..];
      nodeList := nodeList + [node];
      queue' := EnqueueAll(queue', node.children);
      todo := todo[1..];
      counter := counter - 1;
    }
    DrainEnd(queue, nodeList, todo, queue');
  }

  /** A whole level drained: the level is yielded and its next level is what is left queued. */
  lemma LevelDone(out: seq<seq<Node>>, level: seq<Node>, queue: seq<Node>)
    requires level != [] && queue == Kids(level)
    ensures out + [level] + Levels(queue) == out + Levels(level)
    ensures SizeF(queue) < SizeF(level)
  {
    KidsSize(level);
    Assoc(out, [level], Levels(queue));
  }

  /** levelOrderGenerator: drain the queue one level at a time, yielding each level's list. */
  method LevelOrder(root: Node) returns (out: seq<seq<Node>>)
    ensures out == LevelsOf(root)
  {
    var queue := [root];
    out := [];
    while queue != []
      invariant out + Levels(queue) == LevelsOf(root)
      decreases SizeF(queue)
    {
      var nodeList, next := DrainLevel(queue);
      LevelDone(out, queue, next);
      out := out + [nodeList];
      queue := next;
    }
  }

  lemma BFSDone(start: seq<Node>, level: seq<Node>, queue: seq<Node>)
    requires level != [] && queue == Kids(level)
    ensures start + level + Flatten(Levels(queue)) == start + Flatten(Levels(level))
    ensures SizeF(queue) < SizeF(level)
  {
    KidsSize(level);
    FlattenLevelsStep(level);
    Assoc(start, level, Flatten(Levels(queue)));
  }

  /** BFSGenerator: the same level-by-level drain, yielding each node as it is dequeued. */
  method BFS(root: Node) returns (out: seq<Node>)
    ensures out == BFSOrder(root)
  {
    var queue := [root];
    out := [];
    while queue != []
      invariant out + Flatten(Levels(queue)) == BFSOrder(root)
      decreases SizeF(queue)
    {
      var nodes, next := DrainLevel(queue);
      BFSDone(out, queue, next);
      out := out + nodes;
      queue := next;
    }
  }
}
