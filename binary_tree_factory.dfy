/**
 * fromLevelOrderList for binary trees: a queue of parents, each taking the next two entries of the
 * list as its left and right child, `null` meaning no child.
 *
 * The node objects the factory links in place, setting a parent's left or right field, are kept
 * in an arena: node `k` is the `k`-th node created, and its cell records its value and the arena
 * indexes of its children.  The queue holds arena indexes.  `Build` turns the finished arena into the tree value,
 * node `k` getting id `k`.  The node creator is "make a node with this value".
 */
module BinaryTreeFactory {
  import opened Common
  import opened BinaryTree
  import opened LevelOrderArena

  datatype Cell = Cell(val: int, left: Option<nat>, right: Option<nat>)

  /** Every child link points forward into the arena. */
  ghost predicate Forward(arena: seq<Cell>)
  {
    forall j :: 0 <= j < |arena| ==> After(j, arena[j].left, |arena|) && After(j, arena[j].right, |arena|)
  }

  predicate After(j: int, link: Option<nat>, n: int)
  {
    link.Some? ==> j < link.value < n
  }

  /** The tree rooted at arena node `i`; node `k` gets id `k`. */
  function Build(arena: seq<Cell>, i: nat): (t: Node)
    requires Forward(arena) && i < |arena|
    decreases |arena| - i
  {
    Node(i, arena[i].val,
      match arena[i].left case None => None case Some(l) => Some(Build(arena, l)),
      match arena[i].right case None => None case Some(r) => Some(Build(arena, r)))
  }

  /** The trees rooted at the arena nodes listed in `s`, in order. */
  function Forest(arena: seq<Cell>, s: seq<nat>): (r: seq<Node>)
    requires Forward(arena) && forall k :: 0 <= k < |s| ==> s[k] < |arena|
    ensures |r| == |s| && forall k :: 0 <= k < |s| ==> r[k] == Build(arena, s[k])
  {
    seq(|s|, k requires 0 <= k < |s| => Build(arena, s[k]))
  }

  /** The children of each arena node, as arena indexes, left before right. */
  function KidLists(arena: seq<Cell>): (kl: seq<seq<nat>>)
    ensures |kl| == |arena| && forall j :: 0 <= j < |arena| ==> kl[j] == KidsOf(arena, j)
  {
    seq(|arena|, j requires 0 <= j < |arena| => KidsOf(arena, j))
  }

  /** The values of the arena nodes, in creation order. */
  function ArenaVals(arena: seq<Cell>): (r: seq<int>)
    ensures |r| == |arena| && forall j :: 0 <= j < |arena| ==> r[j] == arena[j].val
  {
    seq(|arena|, j requires 0 <= j < |arena| => arena[j].val)
  }

  /** The value a child link leads to, or `None` for no child. */
  function LinkVal(arena: seq<Cell>, link: Option<nat>): Option<int>
  {
    match link
    case None => None
    case Some(c) => if c < |arena| then Some(arena[c].val) else None
  }

  /** The value of an optional child node. */
  function ValOf(c: Option<Node>): Option<int>
  {
    match c
    case None => None
    case Some(n) => Some(n.val)
  }

  /**
   * `t` is the tree the level-order list describes: its BFS order carries the list's values, and
   * the `j`-th node in that order has the entries `2j+1` and `2j+2` as its left and right children,
   * an absent or `null` entry meaning no child.
   */
  ghost predicate Describes(list: seq<Option<int>>, t: Node)
  {
    var bfs := BFSOrder(t);
    Values(bfs) == NonNull(list) &&
    forall j :: 0 <= j < |bfs| ==>
      ValOf(bfs[j].left) == Entry(list, 2 * j + 1) && ValOf(bfs[j].right) == Entry(list, 2 * j + 2)
  }

  /**
   * The queue never runs dry: when the pair of entries from index `2j+1` is read, the `j`-th
   * parent has been created, the root or one of the values before that pair.
   */
  ghost predicate EnoughParents(list: seq<Option<int>>)
  {
    forall j :: 0 <= j && 2 * j + 1 < |list| ==> j < CreatedBefore(list, j)
  }

  /** The number of nodes created before the pair of entries from index `2j+1` is read. */
  function CreatedBefore(list: seq<Option<int>>, j: nat): nat
    requires 2 * j + 1 <= |list|
  {
    1 + |NonNull(list[1..2 * j + 1])|
  }

  // The arena while the loop runs, with `head` parents dequeued.

  /** The nodes not yet dequeued have no children. */
  ghost predicate Pending(arena: seq<Cell>, head: nat)
  {
    forall j :: head <= j < |arena| ==> arena[j].left.None? && arena[j].right.None?
  }

  /** The children of an arena node, as arena indexes, left before right. */
  function KidsOf(arena: seq<Cell>, j: nat): seq<nat>
    requires j < |arena|
  {
    OptSeq(arena[j].left) + OptSeq(arena[j].right)
  }

  /**
   * Parent `j`, for each of the first `head` parents, was given the nodes numbered `st[j]` to
   * `st[j+1] - 1`, every one created after it; the next node created is numbered `st[head]`.
   */
  ghost predicate Numbering(arena: seq<Cell>, st: seq<nat>, head: nat)
  {
    head <= |arena| && |st| == head + 1 && st[0] == 1 && st[head] == |arena| &&
    forall j :: 0 <= j < head ==> j < st[j] <= st[j + 1] && KidsOf(arena, j) == Range(st[j], st[j + 1])
  }

  /** Every dequeued parent `j` has the entries `2j+1` and `2j+2` as children. */
  ghost predicate Filled(list: seq<Option<int>>, arena: seq<Cell>, head: nat)
    requires head <= |arena|
  {
    forall j :: 0 <= j < head ==>
      LinkVal(arena, arena[j].left) == Entry(list, 2 * j + 1) &&
      LinkVal(arena, arena[j].right) == Entry(list, 2 * j + 2)
  }

  /** The nodes created so far carry the values read so far, in order. */
  ghost predicate Created(list: seq<Option<int>>, arena: seq<Cell>, idx: nat)
    requires 1 <= |list| && list[0].Some? && 1 <= idx
  {
    ArenaVals(arena) == [list[0].value] + NonNull(list[1..Min(idx, |list|)])
  }

  /** The arena after `p` takes the entry `e` as its left (`isLeft`) or right child. */
  function AttachChild(arena: seq<Cell>, p: nat, e: Option<int>, isLeft: bool): seq<Cell>
    requires p < |arena|
  {
    match e
    case None => arena
    case Some(v) =>
      var link := Some(|arena|);
      (if isLeft then arena[p := arena[p].(left := link)] else arena[p := arena[p].(right := link)])
        + [Cell(v, None, None)]
  }

  /** The arena after parent `head` has taken both of its entries. */
  function Fill(list: seq<Option<int>>, arena: seq<Cell>, head: nat): seq<Cell>
    requires head < |arena|
  {
    var a1 := AttachChild(arena, head, Entry(list, 2 * head + 1), true);
    AttachChild(a1, head, Entry(list, 2 * head + 2), false)
  }

  /** Attaching a child changes only the parent's link on that side, and adds the new node. */
  lemma AttachCells(arena: seq<Cell>, p: nat, e: Option<int>, isLeft: bool)
    requires p < |arena|
    ensures var a := AttachChild(arena, p, e, isLeft);
      |a| == |arena| + |OptSeq(e)| &&
      (forall j :: 0 <= j < |arena| && j != p ==> a[j] == arena[j]) &&
      (e.Some? ==> a[|arena|] == Cell(e.value, None, None)) &&
      a[p] == if e.None? then arena[p]
        else if isLeft then arena[p].(left := Some(|arena|)) else arena[p].(right := Some(|arena|))
  {
  }

  lemma AttachForward(arena: seq<Cell>, p: nat, e: Option<int>, isLeft: bool)
    requires p < |arena| && Forward(arena)
    ensures Forward(AttachChild(arena, p, e, isLeft))
  {
    AttachCells(arena, p, e, isLeft);
  }

  // One iteration of the loop: parent `head` is dequeued and takes its two entries.

  lemma FillShape(list: seq<Option<int>>, arena: seq<Cell>, head: nat)
    requires head < |arena| && Forward(arena) && Pending(arena, head)
    ensures var a := Fill(list, arena, head);
      Forward(a) && Pending(a, head + 1) &&
      |a| == |arena| + |OptSeq(Entry(list, 2 * head + 1))| + |OptSeq(Entry(list, 2 * head + 2))|
  {
    var e1, e2 := Entry(list, 2 * head + 1), Entry(list, 2 * head + 2);
    var a1 := AttachChild(arena, head, e1, true);
    AttachCells(arena, head, e1, true);
    AttachForward(arena, head, e1, true);
    AttachCells(a1, head, e2, false);
    AttachForward(a1, head, e2, false);
  }

  lemma FillNumbering(list: seq<Option<int>>, arena: seq<Cell>, st: seq<nat>, head: nat)
    requires head < |arena| && Pending(arena, head) && Numbering(arena, st, head)
    ensures var a := Fill(list, arena, head);
      Numbering(a, st + [|a|], head + 1)
  {
    var e1, e2 := Entry(list, 2 * head + 1), Entry(list, 2 * head + 2);
    var a1 := AttachChild(arena, head, e1, true);
    var a2 := AttachChild(a1, head, e2, false);
    AttachCells(arena, head, e1, true);
    AttachCells(a1, head, e2, false);
    assert KidsOf(a2, head) == Range(|arena|, |a2|);
    forall j | 0 <= j < head
      ensures KidsOf(a2, j) == KidsOf(arena, j)
    {
      assert a2[j] == arena[j];
    }
    NumberingSnoc(arena, a2, st, head);
  }

  /** Parent `head` takes the nodes created after it, and the earlier parents keep theirs. */
  lemma NumberingSnoc(arena: seq<Cell>, next: seq<Cell>, st: seq<nat>, head: nat)
    requires head < |arena| <= |next| && Numbering(arena, st, head)
    requires forall j :: 0 <= j < head ==> KidsOf(next, j) == KidsOf(arena, j)
    requires KidsOf(next, head) == Range(|arena|, |next|)
    ensures Numbering(next, st + [|next|], head + 1)
  {
    var st' := st + [|next|];
    forall j | 0 <= j < head + 1
      ensures j < st'[j] <= st'[j + 1] && KidsOf(next, j) == Range(st'[j], st'[j + 1])
    {
      if j < head {
        assert st'[j] == st[j] && st'[j + 1] == st[j + 1];
      } else {
        assert st'[j] == |arena| && st'[j + 1] == |next|;
      }
    }
  }

  lemma FillFilled(list: seq<Option<int>>, arena: seq<Cell>, head: nat)
    requires head < |arena| && Forward(arena) && Pending(arena, head) && Filled(list, arena, head)
    ensures var a := Fill(list, arena, head);
      |a| >= |arena| && Filled(list, a, head + 1)
  {
    var e1, e2 := Entry(list, 2 * head + 1), Entry(list, 2 * head + 2);
    var a1 := AttachChild(arena, head, e1, true);
    var a2 := AttachChild(a1, head, e2, false);
    AttachCells(arena, head, e1, true);
    AttachCells(a1, head, e2, false);
    assert forall c :: 0 <= c < |arena| ==> a2[c].val == arena[c].val;
    forall j | 0 <= j < head
      ensures LinkVal(a2, a2[j].left) == Entry(list, 2 * j + 1)
      ensures LinkVal(a2, a2[j].right) == Entry(list, 2 * j + 2)
    {
      assert a2[j] == arena[j];
    }
    assert LinkVal(a2, a2[head].left) == e1;
  }

  lemma AttachVals(arena: seq<Cell>, p: nat, e: Option<int>, isLeft: bool)
    requires p < |arena|
    ensures ArenaVals(AttachChild(arena, p, e, isLeft)) == ArenaVals(arena) + OptSeq(e)
  {
    AttachCells(arena, p, e, isLeft);
  }

  lemma FillVals(list: seq<Option<int>>, arena: seq<Cell>, head: nat)
    requires head < |arena|
    ensures ArenaVals(Fill(list, arena, head)) ==
      ArenaVals(arena) + OptSeq(Entry(list, 2 * head + 1)) + OptSeq(Entry(list, 2 * head + 2))
  {
    var e1 := Entry(list, 2 * head + 1);
    AttachVals(arena, head, e1, true);
    AttachCells(arena, head, e1, true);
    AttachVals(AttachChild(arena, head, e1, true), head, Entry(list, 2 * head + 2), false);
  }

  /** Reading the pair of entries from `idx` adds their values to those read. */
  lemma ReadPair(list: seq<Option<int>>, idx: nat)
    requires 1 <= idx < |list|
    ensures NonNull(list[1..Min(idx + 2, |list|)]) ==
      NonNull(list[1..idx]) + OptSeq(Entry(list, idx)) + OptSeq(Entry(list, idx + 1))
  {
    SliceSnoc(list, 1, idx);
    NonNullSnoc(list[1..idx], list[idx]);
    if idx + 1 < |list| {
      SliceSnoc(list, 1, idx + 1);
      NonNullSnoc(list[1..idx + 1], list[idx + 1]);
    }
  }

  lemma FillCreated(list: seq<Option<int>>, arena: seq<Cell>, head: nat)
    requires head < |arena| && 2 * head + 1 < |list| && list[0].Some?
    requires Created(list, arena, 2 * head + 1)
    ensures Created(list, Fill(list, arena, head), 2 * head + 3)
  {
    var idx := 2 * head + 1;
    var o1, o2 := OptSeq(Entry(list, idx)), OptSeq(Entry(list, idx + 1));
    FillVals(list, arena, head);
    ReadPair(list, idx);
    var v0, n := [list[0].value], NonNull(list[1..idx]);
    Assoc(v0, n, o1);
    Assoc(v0, n + o1, o2);
  }

  /** What the loop keeps, with `head` parents dequeued and the entries up to `2 head` read. */
  ghost predicate Loop(list: seq<Option<int>>, arena: seq<Cell>, st: seq<nat>, head: nat)
    requires |list| >= 1 && list[0].Some?
  {
    head <= |arena| && Forward(arena) && Pending(arena, head) && Numbering(arena, st, head) &&
    Filled(list, arena, head) && Created(list, arena, 2 * head + 1)
  }

  /** The `head`-th parent is in the queue when its entries are read. */
  lemma HeadQueued(list: seq<Option<int>>, arena: seq<Cell>, st: seq<nat>, head: nat)
    requires |list| >= 1 && list[0].Some? && 2 * head + 1 < |list|
    requires EnoughParents(list) && Loop(list, arena, st, head)
    ensures head < |arena|
  {
    assert head < CreatedBefore(list, head);
    assert |ArenaVals(arena)| == 1 + |NonNull(list[1..2 * head + 1])|;
  }

  /** One iteration keeps the loop's invariant. */
  lemma FillLoop(list: seq<Option<int>>, arena: seq<Cell>, st: seq<nat>, head: nat, next: seq<Cell>)
    requires |list| >= 1 && list[0].Some? && 2 * head + 1 < |list|
    requires Loop(list, arena, st, head) && head < |arena| && next == Fill(list, arena, head)
    ensures Loop(list, next, st + [|next|], head + 1)
  {
    FillShape(list, arena, head);
    FillNumbering(list, arena, st, head);
    FillFilled(list, arena, head);
    FillCreated(list, arena, head);
  }

  // The finished arena, read as a tree.

  /** The children of the tree rooted at node `j` are the trees rooted at its child nodes. */
  lemma ChildrenBuild(arena: seq<Cell>, j: nat)
    requires Forward(arena) && j < |arena|
    ensures forall k :: 0 <= k < |KidsOf(arena, j)| ==> KidsOf(arena, j)[k] < |arena|
    ensures Children(Build(arena, j)) == Forest(arena, KidsOf(arena, j))
  {
  }

  lemma ForestAppend(arena: seq<Cell>, s: seq<nat>, t: seq<nat>)
    requires Forward(arena)
    requires forall k :: 0 <= k < |s| ==> s[k] < |arena|
    requires forall k :: 0 <= k < |t| ==> t[k] < |arena|
    ensures Forest(arena, s + t) == Forest(arena, s) + Forest(arena, t)
  {
  }

  /** The trees of consecutive arena nodes, split off the last one. */
  lemma ForestSnoc(arena: seq<Cell>, a: nat, b: nat)
    requires Forward(arena) && a < b <= |arena|
    ensures var f := Forest(arena, Range(a, b));
      f != [] && f[..|f| - 1] == Forest(arena, Range(a, b - 1)) && f[|f| - 1] == Build(arena, b - 1)
  {
  }

  /** The trees of two adjacent runs of arena nodes make the trees of the joined run. */
  lemma ForestJoin(arena: seq<Cell>, x: nat, y: nat, z: nat)
    requires Forward(arena) && x <= y <= z <= |arena|
    ensures Forest(arena, Range(x, y)) + Forest(arena, Range(y, z)) == Forest(arena, Range(x, z))
  {
    RangeAppend(x, y, z);
    ForestAppend(arena, Range(x, y), Range(y, z));
  }

  /** The children of node `j` are the trees of the nodes `st[j]` to `st[j+1] - 1`. */
  lemma ChildrenSpan(arena: seq<Cell>, st: seq<nat>, j: nat)
    requires Forward(arena) && Spans(KidLists(arena), st) && j < |arena|
    ensures st[j] <= st[j + 1] <= |arena|
    ensures Children(Build(arena, j)) == Forest(arena, Range(st[j], st[j + 1]))
  {
    SpansMono2(KidLists(arena), st, j + 1);
    ChildrenBuild(arena, j);
  }

  /** The next level of the nodes `a` to `b - 1` is the nodes `st[a]` to `st[b] - 1`. */
  lemma {:induction false} KidsForest(arena: seq<Cell>, st: seq<nat>, a: nat, b: nat)
    requires Forward(arena) && Spans(KidLists(arena), st) && a <= b <= |arena|
    ensures st[a] <= st[b] <= |arena|
    ensures Kids(Forest(arena, Range(a, b))) == Forest(arena, Range(st[a], st[b]))
    decreases b - a
  {
    SpansMono(KidLists(arena), st, a, b);
    if a < b {
      ForestSnoc(arena, a, b);
      KidsForest(arena, st, a, b - 1);
      ChildrenSpan(arena, st, b - 1);
      ForestJoin(arena, st[a], st[b - 1], st[b]);
    }
  }

  /** Level by level from the nodes `a` to `st[a] - 1`, the levels list the nodes `a` to `n - 1`. */
  lemma {:induction false} LevelsChain(arena: seq<Cell>, st: seq<nat>, a: nat)
    requires Forward(arena) && Spans(KidLists(arena), st) && a <= |arena|
    ensures a <= st[a] <= |arena|
    ensures Flatten(Levels(Forest(arena, Range(a, st[a])))) == Forest(arena, Range(a, |arena|))
    decreases |arena| - a
  {
    SpansMono2(KidLists(arena), st, a);
    if a < |arena| {
      var b := st[a];
      var f := Forest(arena, Range(a, b));
      FlattenLevelsStep(f);
      KidsForest(arena, st, a, b);
      LevelsChain(arena, st, b);
      RangeAppend(a, b, |arena|);
      ForestAppend(arena, Range(a, b), Range(b, |arena|));
    }
  }

  /** Node `k` of the arena is the `k`-th node of the tree's BFS order. */
  lemma BFSFromArena(arena: seq<Cell>, st: seq<nat>)
    requires Forward(arena) && Spans(KidLists(arena), st) && |arena| >= 1
    ensures BFSOrder(Build(arena, 0)) == Forest(arena, Range(0, |arena|))
  {
    ForestRoot(arena);
    LevelsChain(arena, st, 0);
  }

  lemma ForestRoot(arena: seq<Cell>)
    requires Forward(arena) && |arena| >= 1
    ensures Forest(arena, Range(0, 1)) == [Build(arena, 0)]
  {
  }

  /** The trees rooted at the arena nodes, in order, carry the arena's values. */
  lemma ForestValues(arena: seq<Cell>)
    requires Forward(arena)
    ensures Values(Forest(arena, Range(0, |arena|))) == ArenaVals(arena)
  {
    var f := Forest(arena, Range(0, |arena|));
    var v, w := Values(f), ArenaVals(arena);
    forall i | 0 <= i < |v|
      ensures v[i] == w[i]
    {
      assert f[i] == Build(arena, i);
    }
  }

  /** In the finished arena, node `j` has the entries `2j+1` and `2j+2` as children. */
  lemma ForestSlots(list: seq<Option<int>>, arena: seq<Cell>, head: nat)
    requires 2 * head + 1 >= |list| && Forward(arena) && head <= |arena| && Pending(arena, head)
    requires Filled(list, arena, head)
    ensures var f := Forest(arena, Range(0, |arena|));
      forall j :: 0 <= j < |f| ==>
        ValOf(f[j].left) == Entry(list, 2 * j + 1) && ValOf(f[j].right) == Entry(list, 2 * j + 2)
  {
    var f := Forest(arena, Range(0, |arena|));
    forall j | 0 <= j < |f|
      ensures ValOf(f[j].left) == Entry(list, 2 * j + 1) && ValOf(f[j].right) == Entry(list, 2 * j + 2)
    {
      assert f[j] == Build(arena, j);
    }
  }

  /** The values of the finished arena are the list's values. */
  lemma ArenaValues(list: seq<Option<int>>, arena: seq<Cell>, head: nat)
    requires |list| >= 1 && list[0].Some? && 2 * head + 1 >= |list| && Created(list, arena, 2 * head + 1)
    ensures ArenaVals(arena) == NonNull(list)
  {
    var n := Min(2 * head + 1, |list|);
    assert n == |list| && list[1..n] == list[1..];
    assert ArenaVals(arena) == [list[0].value] + NonNull(list[1..]);
    NonNullCons(list);
  }

  /** The finished arena describes the list. */
  lemma ArenaDescribes(list: seq<Option<int>>, arena: seq<Cell>, st: seq<nat>, head: nat)
    requires |list| >= 1 && list[0].Some? && 2 * head + 1 >= |list|
    requires Forward(arena) && Spans(KidLists(arena), st) && head <= |arena| && Pending(arena, head)
    requires Filled(list, arena, head) && Created(list, arena, 2 * head + 1)
    ensures Describes(list, Build(arena, 0))
  {
    BFSFromArena(arena, st);
    ArenaValues(list, arena, head);
    ForestValues(arena);
    ForestSlots(list, arena, head);
  }

  /** The BFS numbering lists every node of the finished tree once, node `k` with id `k`. */
  lemma ArenaEnumerates(arena: seq<Cell>, st: seq<nat>)
    requires Forward(arena) && Spans(KidLists(arena), st) && |arena| >= 1
    ensures var f := Forest(arena, Range(0, |arena|));
      multiset(f) == Nodes(Build(arena, 0)) && forall i, j :: 0 <= i < j < |f| ==> f[i].id != f[j].id
  {
    BFSFromArena(arena, st);
    BFSOrderNodes(Build(arena, 0));
  }

  /** The nodes of the finished tree are distinct objects. */
  lemma ArenaUnique(arena: seq<Cell>, st: seq<nat>)
    requires Forward(arena) && Spans(KidLists(arena), st) && |arena| >= 1
    ensures UniqueIds(Build(arena, 0))
  {
    ArenaEnumerates(arena, st);
    UniqueIdsFromEnumeration(Build(arena, 0), Forest(arena, Range(0, |arena|)));
  }

  /** When the list is used up, the arena read as a tree is the tree the list describes. */
  lemma FinishedTree(list: seq<Option<int>>, arena: seq<Cell>, st: seq<nat>, head: nat)
    requires |list| >= 1 && list[0].Some? && 2 * head + 1 >= |list| && Loop(list, arena, st, head)
    ensures Forward(arena) && |arena| >= 1
    ensures Build(arena, 0).val == list[0].value
    ensures Describes(list, Build(arena, 0)) && UniqueIds(Build(arena, 0))
  {
    assert ArenaVals(arena)[0] == list[0].value;
    var full := SpansFinish(KidLists(arena), st, head);
    ArenaDescribes(list, arena, full, head);
    ArenaUnique(arena, full);
  }

  // The loop, run for `h` parents.

  /** The arena once the first `h` parents have taken their entries. */
  ghost function Run(list: seq<Option<int>>, h: nat): seq<Cell>
    requires |list| >= 1 && list[0].Some?
  {
    if h == 0 then [Cell(list[0].value, None, None)]
    else
      var a := Run(list, h - 1);
      if h - 1 < |a| then Fill(list, a, h - 1) else a
  }

  /** The child numbering of `Run(list, h)`. */
  ghost function Starts(list: seq<Option<int>>, h: nat): seq<nat>
    requires |list| >= 1 && list[0].Some?
  {
    if h == 0 then [1] else Starts(list, h - 1) + [|Run(list, h)|]
  }

  /** While the list lasts, the loop keeps its invariant. */
  lemma {:induction false} RunLoop(list: seq<Option<int>>, h: nat)
    requires |list| >= 1 && list[0].Some? && EnoughParents(list) && (h == 0 || 2 * h - 1 < |list|)
    ensures Loop(list, Run(list, h), Starts(list, h), h)
  {
    if h == 0 {
      assert list[1..Min(1, |list|)] == [];
    } else {
      RunLoop(list, h - 1);
      HeadQueued(list, Run(list, h - 1), Starts(list, h - 1), h - 1);
      FillLoop(list, Run(list, h - 1), Starts(list, h - 1), h - 1, Run(list, h));
    }
  }

  /** The arena after one more parent, from the arena before it. */
  lemma RunStep(list: seq<Option<int>>, h: nat, next: seq<Cell>)
    requires |list| >= 1 && list[0].Some? && h < |Run(list, h)|
    requires next == AttachChild(AttachChild(Run(list, h), h, Entry(list, 2 * h + 1), true), h, Entry(list, 2 * h + 2), false)
    ensures next == Run(list, h + 1)
  {
  }

  /** The next parent is in the queue when its entries are read. */
  lemma RunQueued(list: seq<Option<int>>, h: nat)
    requires |list| >= 1 && list[0].Some? && EnoughParents(list) && 2 * h + 1 < |list|
    ensures h < |Run(list, h)|
  {
    RunLoop(list, h);
    HeadQueued(list, Run(list, h), Starts(list, h), h);
  }

  /** Once the list is used up, the arena read as a tree is the tree the list describes. */
  lemma RunTree(list: seq<Option<int>>, h: nat)
    requires |list| >= 1 && list[0].Some? && EnoughParents(list)
    requires 2 * h + 1 >= |list| && (h == 0 || 2 * h - 1 < |list|)
    ensures Forward(Run(list, h)) && |Run(list, h)| >= 1
    ensures var t := Build(Run(list, h), 0);
      t.val == list[0].value && Describes(list, t) && UniqueIds(t)
  {
    RunLoop(list, h);
    FinishedTree(list, Run(list, h), Starts(list, h), h);
  }

  /**
   * One "manage node value" step of the loop: for a value, a node is created, linked in place as
   * the parent's left or right child, and enqueued; for `null`, nothing happens.  The queue,
   * which holds the nodes numbered from `lo` on, still does.
   */
  method ManageChild(arena: seq<Cell>, queue: seq<nat>, parent: nat, e: Option<int>, isLeft: bool, ghost lo: nat)
    returns (arena': seq<Cell>, queue': seq<nat>)
    requires parent < |arena| && lo <= |arena| && queue == Range(lo, |arena|)
    ensures arena' == AttachChild(arena, parent, e, isLeft)
    ensures queue' == Range(lo, |arena'|)
  {
    arena', queue' := arena, queue;
    if e.Some? {
      var node := |arena|;
      if isLeft {
        arena' := arena[parent := arena[parent].(left := Some(node))] + [Cell(e.value, None, None)];
      } else {
        arena' := arena[parent := arena[parent].(right := Some(node))] + [Cell(e.value, None, None)];
      }
      RangeSnoc(lo, node);
      queue' := queue + [node];
    }
  }

  /**
   * fromLevelOrderList: `null` for an empty list or `[null]`; otherwise the root takes `list[0]`,
   * and each parent dequeued in turn takes the next entry as its left child and the one after, if
   * the list has it, as its right child, every node created being enqueued.  The result is the
   * tree the list describes, made of distinct nodes.
   */
  method FromLevelOrderList(list: seq<Option<int>>) returns (root: Option<Node>)
    requires |list| > 1 ==> list[0].Some?
    requires EnoughParents(list)
    ensures root.None? <==> |list| == 0 || list == [None]
    ensures root.Some? ==> root.value.val == list[0].value
    ensures root.Some? ==> Describes(list, root.value) && UniqueIds(root.value)
  {
    var tailIdx := |list| - 1;
    if tailIdx < 0 || (tailIdx == 0 && list[0].None?) {
      return None;
    }
    var arena, head := LinkNodes(list);
    RunTree(list, head);
    root := Some(Build(arena, 0));
  }

  /**
   * The loop of fromLevelOrderList: the root is created and enqueued, then each parent dequeued in
   * turn takes the next two entries.  The arena it leaves is the one the first `head` parents make.
   */
  method LinkNodes(list: seq<Option<int>>) returns (arena: seq<Cell>, ghost head: nat)
    requires |list| >= 1 && list[0].Some? && EnoughParents(list)
    ensures 2 * head + 1 >= |list| && (head == 0 || 2 * head - 1 < |list|) && arena == Run(list, head)
  {
    var tailIdx := |list| - 1;
    arena := [Cell(list[0].value, None, None)];
    var queue: seq<nat> := [0];
    var idx := 1;
    head := 0;
    while idx <= tailIdx
      invariant idx == 2 * head + 1 && (head == 0 || 2 * head - 1 < |list|)
      invariant arena == Run(list, head) && head <= |arena| && queue == Range(head, |arena|)
      decreases |list| - idx
    {
      RunQueued(list, head);
      RangeTail(head, |arena|);
      var parentNode := queue[0];
      queue := queue[1..];
      ghost var a0 := arena;
      arena, queue := ManageChild(arena, queue, parentNode, list[idx], true, head + 1);
      idx := idx + 1;
      var right := if idx <= tailIdx then list[idx] else None;
      arena, queue := ManageChild(arena, queue, parentNode, right, false, head + 1);
      idx := idx + 1;
      assert Entry(list, 2 * head + 1) == list[2 * head + 1] && Entry(list, 2 * head + 2) == right;
      RunStep(list, head, arena);
      head := head + 1;
    }
  }
}
