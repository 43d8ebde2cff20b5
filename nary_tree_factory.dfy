/**
 * fromLevelOrderList for n-ary trees.  After the root entry and the `null` closing the root's
 * level, the list gives the children of each node in BFS order, each group of children closed by
 * a `null`.  The factory keeps a queue of parents: a value becomes a new child of the parent at
 * the front of the queue (which it only peeks at) and is enqueued; a `null` dequeues that parent.
 *
 * As for binary trees, the node objects whose `children` lists the factory appends to in place
 * are kept in an arena: node `k` is the `k`-th node created, and its cell records its value and
 * the arena indexes of its children.  `Build` turns the finished arena into the tree value, node
 * `k` getting id `k`.  The node creator is "make a node with this value".
 */
module NAryTreeFactory {
  import opened Common
  import opened NAryTree
  import opened LevelOrderArena

  datatype Cell = Cell(val: int, children: seq<nat>)

  /** The entries read by the loop: everything after the root and the `null` closing its level. */
  function Entries(list: seq<Option<int>>): seq<Option<int>>
  {
    if |list| <= 2 then [] else list[2..]
  }

  /** The number of nodes waiting in the queue once the entries `s` are read. */
  function QueueLen(s: seq<Option<int>>): int
  {
    1 + |NonNull(s)| - Nulls(s)
  }

  /** Each entry is read while the queue has a parent to peek at or to drop. */
  ghost predicate QueueNeverEmpty(s: seq<Option<int>>)
  {
    forall k :: 0 <= k < |s| ==> 0 < QueueLen(s[..k])
  }

  lemma QueueNeverEmptyPrefix(s: seq<Option<int>>)
    requires s != [] && QueueNeverEmpty(s)
    ensures QueueNeverEmpty(s[..|s| - 1]) && 0 < QueueLen(s[..|s| - 1])
  {
    var p := s[..|s| - 1];
    forall k | 0 <= k < |p|
      ensures 0 < QueueLen(p[..k])
    {
      assert p[..k] == s[..k];
    }
    assert 0 < QueueLen(s[..|p|]);
  }

  /**
   * `t` is the tree the level-order list describes: its BFS order carries the root's value and
   * then the values of the entries, and the `j`-th node in that order has as children the `j`-th
   * group of entries, those between the `j`-th and the `j+1`-th `null`.
   */
  ghost predicate Describes(list: seq<Option<int>>, t: Node)
  {
    var bfs := BFSOrder(t);
    |list| >= 1 &&
    Values(bfs) == OptSeq(list[0]) + NonNull(Entries(list)) &&
    forall j :: 0 <= j < |bfs| ==> Values(bfs[j].children) == GroupAt(Entries(list), j)
  }

  // The arena.

  /** Every child link points forward into the arena. */
  ghost predicate Forward(arena: seq<Cell>)
  {
    forall j, k :: 0 <= j < |arena| && 0 <= k < |arena[j].children| ==> j < arena[j].children[k] < |arena|
  }

  /** The tree rooted at arena node `i`; node `k` gets id `k`. */
  function Build(arena: seq<Cell>, i: nat): (t: Node)
    requires Forward(arena) && i < |arena|
    decreases |arena| - i
  {
    var c := arena[i].children;
    Node(i, arena[i].val, seq(|c|, k requires 0 <= k < |c| => Build(arena, c[k])))
  }

  /** The trees rooted at the arena nodes listed in `s`, in order. */
  function Forest(arena: seq<Cell>, s: seq<nat>): (r: seq<Node>)
    requires Forward(arena) && forall k :: 0 <= k < |s| ==> s[k] < |arena|
    ensures |r| == |s| && forall k :: 0 <= k < |s| ==> r[k] == Build(arena, s[k])
  {
    seq(|s|, k requires 0 <= k < |s| => Build(arena, s[k]))
  }

  /** The children of each arena node, as arena indexes. */
  function KidLists(arena: seq<Cell>): (kl: seq<seq<nat>>)
    ensures |kl| == |arena| && forall j :: 0 <= j < |arena| ==> kl[j] == arena[j].children
  {
    seq(|arena|, j requires 0 <= j < |arena| => arena[j].children)
  }

  /** The values of the arena nodes, in creation order. */
  function ArenaVals(arena: seq<Cell>): (r: seq<int>)
    ensures |r| == |arena| && forall j :: 0 <= j < |arena| ==> r[j] == arena[j].val
  {
    seq(|arena|, j requires 0 <= j < |arena| => arena[j].val)
  }

  /** The values of the children of arena node `j`, in order. */
  function ChildVals(arena: seq<Cell>, j: nat): (r: seq<int>)
    requires Forward(arena) && j < |arena|
    ensures |r| == |arena[j].children|
    ensures forall k :: 0 <= k < |r| ==> r[k] == arena[arena[j].children[k]].val
  {
    var c := arena[j].children;
    seq(|c|, k requires 0 <= k < |c| => arena[c[k]].val)
  }

  // The loop, entry by entry.

  /**
   * The arena after one entry is read, parent `head` being at the front of the queue: a value
   * becomes a new node appended to the parent's children; a `null` changes no node.
   */
  function Step(arena: seq<Cell>, head: nat, e: Option<int>): seq<Cell>
  {
    match e
    case None => arena
    case Some(v) =>
      if head < |arena| then
        arena[head := arena[head].(children := arena[head].children + [|arena|])] + [Cell(v, [])]
      else arena
  }

  /** The arena once the entries `s` are read, the root carrying `v0`. */
  ghost function Run(v0: int, s: seq<Option<int>>): seq<Cell>
  {
    if s == [] then [Cell(v0, [])]
    else
      var p := s[..|s| - 1];
      Step(Run(v0, p), Nulls(p), s[|s| - 1])
  }

  /**
   * Where the children of each dequeued parent, and of the parent at the front of the queue,
   * start in `Run(v0, s)`: a `null` closes the front parent's children at the current size.
   */
  ghost function Starts(v0: int, s: seq<Option<int>>): seq<nat>
  {
    if s == [] then [1]
    else
      var p := s[..|s| - 1];
      if s[|s| - 1].None? then Starts(v0, p) + [|Run(v0, p)|] else Starts(v0, p)
  }

  /** The nodes behind the front of the queue have no children yet. */
  ghost predicate Pending(arena: seq<Cell>, head: nat)
  {
    forall j :: head < j < |arena| ==> arena[j].children == []
  }

  /**
   * Each of the first `head` parents, dequeued, has the children numbered `st[j]` to
   * `st[j+1] - 1`; the parent at the front of the queue, if there is one, has those from
   * `st[head]` to the last node created.  Every child comes after its parent.
   */
  ghost predicate Numbering(arena: seq<Cell>, st: seq<nat>, head: nat)
  {
    head <= |arena| && |st| == head + 1 && st[0] == 1 && st[head] <= |arena| &&
    (forall j :: 0 <= j < head ==> j < st[j] <= st[j + 1] && arena[j].children == Range(st[j], st[j + 1])) &&
    (head < |arena| ==> head < st[head] && arena[head].children == Range(st[head], |arena|))
  }

  /** The children of node `j` carry the `j`-th group of the entries read. */
  ghost predicate Grouped(s: seq<Option<int>>, arena: seq<Cell>)
    requires Forward(arena)
  {
    forall j :: 0 <= j < |arena| ==> ChildVals(arena, j) == GroupAt(s, j)
  }

  /** What the loop keeps, once the entries `s` are read. */
  ghost predicate Loop(v0: int, s: seq<Option<int>>, arena: seq<Cell>, st: seq<nat>)
  {
    Forward(arena) && Pending(arena, Nulls(s)) && Numbering(arena, st, Nulls(s)) &&
    Grouped(s, arena) && ArenaVals(arena) == [v0] + NonNull(s)
  }

  /** A value read: the changes of the arena. */
  lemma StepCells(arena: seq<Cell>, head: nat, v: int)
    requires head < |arena|
    ensures var a := Step(arena, head, Some(v));
      |a| == |arena| + 1 &&
      (forall j :: 0 <= j < |arena| && j != head ==> a[j] == arena[j]) &&
      a[head] == arena[head].(children := arena[head].children + [|arena|]) &&
      a[|arena|] == Cell(v, [])
  {
  }

  lemma ValueShape(arena: seq<Cell>, st: seq<nat>, head: nat, v: int)
    requires head < |arena| && Forward(arena) && Pending(arena, head) && Numbering(arena, st, head)
    ensures var a := Step(arena, head, Some(v));
      Forward(a) && Pending(a, head) && Numbering(a, st, head)
  {
    var a := Step(arena, head, Some(v));
    StepCells(arena, head, v);
    forall j, k | 0 <= j < |a| && 0 <= k < |a[j].children|
      ensures j < a[j].children[k] < |a|
    {
      if j == head && k == |arena[head].children| {
      } else if j < |arena| {
        assert a[j].children[k] == arena[j].children[k];
      }
    }
    forall j | 0 <= j < head
      ensures a[j].children == Range(st[j], st[j + 1])
    {
      assert a[j] == arena[j];
    }
    assert a[head].children == Range(st[head], |a|) by {
      RangeSnoc(st[head], |arena|);
    }
  }

  /** A value read: the children of node `j` gain the new node's value when `j` is the parent. */
  lemma ValueChildVals(arena: seq<Cell>, head: nat, v: int, j: nat)
    requires head < |arena| && j < |arena| && Forward(arena) && Forward(Step(arena, head, Some(v)))
    ensures var a := Step(arena, head, Some(v));
      ChildVals(a, j) == if j == head then ChildVals(arena, j) + [v] else ChildVals(arena, j)
  {
    StepCells(arena, head, v);
  }

  lemma ValueGrouped(s: seq<Option<int>>, arena: seq<Cell>, v: int)
    requires Nulls(s) < |arena| && Forward(arena) && Grouped(s, arena)
    requires Forward(Step(arena, Nulls(s), Some(v)))
    requires forall j :: Nulls(s) < j < |arena| ==> GroupAt(s, j) == []
    ensures Grouped(s + [Some(v)], Step(arena, Nulls(s), Some(v)))
  {
    var head := Nulls(s);
    var a := Step(arena, head, Some(v));
    StepCells(arena, head, v);
    forall j | 0 <= j < |a|
      ensures ChildVals(a, j) == GroupAt(s + [Some(v)], j)
    {
      GroupAtValue(s, v, j);
      if j < |arena| {
        ValueChildVals(arena, head, v, j);
      } else {
        assert GroupAt(s, j) == [];
      }
    }
  }

  /** A `null` read: the front parent's children are closed at the current size. */
  lemma NullNumbering(arena: seq<Cell>, st: seq<nat>, head: nat)
    requires Numbering(arena, st, head) && Pending(arena, head) && head < |arena|
    ensures Numbering(arena, st + [|arena|], head + 1)
  {
    if head + 1 < |arena| {
      assert arena[head + 1].children == [];
    }
    var st' := st + [|arena|];
    forall j | 0 <= j < head + 1
      ensures j < st'[j] <= st'[j + 1] && arena[j].children == Range(st'[j], st'[j + 1])
    {
      if j < head {
        assert st'[j] == st[j] && st'[j + 1] == st[j + 1];
      } else {
        assert st'[j] == st[head] && st'[j + 1] == |arena|;
      }
    }
  }

  lemma NullGrouped(s: seq<Option<int>>, arena: seq<Cell>)
    requires Forward(arena) && Grouped(s, arena)
    ensures Grouped(s + [None], arena)
  {
    forall j | 0 <= j < |arena|
      ensures ChildVals(arena, j) == GroupAt(s + [None], j)
    {
      GroupAtNull(s, j);
    }
  }

  lemma NullLoop(v0: int, s: seq<Option<int>>, arena: seq<Cell>, st: seq<nat>)
    requires Loop(v0, s, arena, st) && Nulls(s) < |arena|
    ensures Loop(v0, s + [None], arena, st + [|arena|])
  {
    var head := Nulls(s);
    GroupAtNull(s, 0);
    NullGrouped(s, arena);
    NonNullSnoc(s, None);
    NullNumbering(arena, st, head);
    assert Pending(arena, head + 1);
  }

  /** The groups of the nodes behind the front of the queue are still empty. */
  lemma PendingGroups(s: seq<Option<int>>, arena: seq<Cell>)
    requires Forward(arena) && Pending(arena, Nulls(s)) && Grouped(s, arena)
    ensures forall j :: Nulls(s) < j < |arena| ==> GroupAt(s, j) == []
  {
    forall j | Nulls(s) < j < |arena|
      ensures GroupAt(s, j) == []
    {
      assert ChildVals(arena, j) == [];
    }
  }

  lemma ValueVals(arena: seq<Cell>, head: nat, v: int)
    requires head < |arena|
    ensures ArenaVals(Step(arena, head, Some(v))) == ArenaVals(arena) + [v]
  {
    StepCells(arena, head, v);
  }

  lemma ValueLoop(v0: int, s: seq<Option<int>>, arena: seq<Cell>, st: seq<nat>, v: int)
    requires Loop(v0, s, arena, st) && Nulls(s) < |arena|
    ensures Loop(v0, s + [Some(v)], Step(arena, Nulls(s), Some(v)), st)
  {
    var head := Nulls(s);
    NullsValue(s, v);
    ValueShape(arena, st, head, v);
    PendingGroups(s, arena);
    ValueGrouped(s, arena, v);
    ValueVals(arena, head, v);
    Assoc([v0], NonNull(s), [v]);
  }

  /** While the queue lasts, the loop keeps its invariant. */
  lemma {:induction false} RunLoop(v0: int, s: seq<Option<int>>)
    requires QueueNeverEmpty(s)
    ensures Loop(v0, s, Run(v0, s), Starts(v0, s))
  {
    if s == [] {
      assert GroupAt([], 0) == [];
    } else {
      var p, e := s[..|s| - 1], s[|s| - 1];
      assert s == p + [e];
      QueueNeverEmptyPrefix(s);
      RunLoop(v0, p);
      RunQueued(v0, p);
      if e.None? {
        NullLoop(v0, p, Run(v0, p), Starts(v0, p));
      } else {
        ValueLoop(v0, p, Run(v0, p), Starts(v0, p), e.value);
      }
    }
  }

  /** Before an entry is read, the queue holds parent `Nulls(s)`. */
  lemma RunQueued(v0: int, s: seq<Option<int>>)
    requires Loop(v0, s, Run(v0, s), Starts(v0, s)) && 0 < QueueLen(s)
    ensures Nulls(s) < |Run(v0, s)|
  {
    assert |ArenaVals(Run(v0, s))| == 1 + |NonNull(s)|;
  }

  /** Before entry `k` of `rest` is read, the queue holds parent `Nulls(rest[..k])`. */
  lemma RunQueuedAt(v0: int, rest: seq<Option<int>>, k: nat)
    requires QueueNeverEmpty(rest) && k < |rest|
    ensures Nulls(rest[..k]) < |Run(v0, rest[..k])|
  {
    var s := rest[..k];
    forall i | 0 <= i < |s|
      ensures 0 < QueueLen(s[..i])
    {
      assert s[..i] == rest[..i];
    }
    RunLoop(v0, s);
    RunQueued(v0, s);
  }

  /** Reading entry `k` of `rest`. */
  lemma RunStep(v0: int, rest: seq<Option<int>>, k: nat)
    requires k < |rest|
    ensures Run(v0, rest[..k + 1]) == Step(Run(v0, rest[..k]), Nulls(rest[..k]), rest[k])
    ensures Nulls(rest[..k + 1]) == Nulls(rest[..k]) + if rest[k].None? then 1 else 0
  {
    assert rest[..k + 1][..k] == rest[..k];
  }

  /** Reading entry `k` of `rest` after the first `k`: the front parent exists, and the step extends the run. */
  lemma NextEntry(v0: int, rest: seq<Option<int>>, seen: seq<Option<int>>, k: nat)
    requires QueueNeverEmpty(rest) && k < |rest| && seen == rest[..k]
    ensures Nulls(seen) < |Run(v0, seen)|
    ensures Run(v0, seen + [rest[k]]) == Step(Run(v0, seen), Nulls(seen), rest[k])
    ensures Nulls(seen + [rest[k]]) == Nulls(seen) + if rest[k].None? then 1 else 0
    ensures seen + [rest[k]] == rest[..k + 1]
  {
    RunQueuedAt(v0, rest, k);
    RunStep(v0, rest, k);
    PrefixSnoc(rest, k);
  }

  // The finished arena, read as a tree.

  lemma ChildrenBuild(arena: seq<Cell>, j: nat)
    requires Forward(arena) && j < |arena|
    ensures forall k :: 0 <= k < |arena[j].children| ==> arena[j].children[k] < |arena|
    ensures Build(arena, j).children == Forest(arena, arena[j].children)
  {
  }

  lemma ForestAppend(arena: seq<Cell>, s: seq<nat>, t: seq<nat>)
    requires Forward(arena)
    requires forall k :: 0 <= k < |s| ==> s[k] < |arena|
    requires forall k :: 0 <= k < |t| ==> t[k] < |arena|
    ensures Forest(arena, s + t) == Forest(arena, s) + Forest(arena, t)
  {
  }

  /** The trees of consecutive arena nodes, split off the last one. */
  lemma ForestSnoc(arena: seq<Cell>, a: nat, b: nat)
    requires Forward(arena) && a < b <= |arena|
    ensures var f := Forest(arena, Range(a, b));
      f != [] && f[..|f| - 1] == Forest(arena, Range(a, b - 1)) && f[|f| - 1] == Build(arena, b - 1)
  {
  }

  /** The trees of two adjacent runs of arena nodes make the trees of the joined run. */
  lemma ForestJoin(arena: seq<Cell>, x: nat, y: nat, z: nat)
    requires Forward(arena) && x <= y <= z <= |arena|
    ensures Forest(arena, Range(x, y)) + Forest(arena, Range(y, z)) == Forest(arena, Range(x, z))
  {
    RangeAppend(x, y, z);
    ForestAppend(arena, Range(x, y), Range(y, z));
  }

  /** The children of node `j` are the trees of the nodes `st[j]` to `st[j+1] - 1`. */
  lemma ChildrenSpan(arena: seq<Cell>, st: seq<nat>, j: nat)
    requires Forward(arena) && Spans(KidLists(arena), st) && j < |arena|
    ensures st[j] <= st[j + 1] <= |arena|
    ensures Build(arena, j).children == Forest(arena, Range(st[j], st[j + 1]))
  {
    SpansMono2(KidLists(arena), st, j + 1);
    ChildrenBuild(arena, j);
  }

  /** The next level of the nodes `a` to `b - 1` is the nodes `st[a]` to `st[b] - 1`. */
  lemma {:induction false} KidsForest(arena: seq<Cell>, st: seq<nat>, a: nat, b: nat)
    requires Forward(arena) && Spans(KidLists(arena), st) && a <= b <= |arena|
    ensures st[a] <= st[b] <= |arena|
    ensures Kids(Forest(arena, Range(a, b))) == Forest(arena, Range(st[a], st[b]))
    decreases b - a
  {
    SpansMono(KidLists(arena), st, a, b);
    if a < b {
      ForestSnoc(arena, a, b);
      KidsForest(arena, st, a, b - 1);
      ChildrenSpan(arena, st, b - 1);
      ForestJoin(arena, st[a], st[b - 1], st[b]);
    }
  }

  /** Level by level from the nodes `a` to `st[a] - 1`, the levels list the nodes `a` to `n - 1`. */
  lemma {:induction false} LevelsChain(arena: seq<Cell>, st: seq<nat>, a: nat)
    requires Forward(arena) && Spans(KidLists(arena), st) && a <= |arena|
    ensures a <= st[a] <= |arena|
    ensures Flatten(Levels(Forest(arena, Range(a, st[a])))) == Forest(arena, Range(a, |arena|))
    decreases |arena| - a
  {
    SpansMono2(KidLists(arena), st, a);
    if a < |arena| {
      var b := st[a];
      var f := Forest(arena, Range(a, b));
      FlattenLevelsStep(f);
      KidsForest(arena, st, a, b);
      LevelsChain(arena, st, b);
      RangeAppend(a, b, |arena|);
      ForestAppend(arena, Range(a, b), Range(b, |arena|));
    }
  }

  lemma ForestRoot(arena: seq<Cell>)
    requires Forward(arena) && |arena| >= 1
    ensures Forest(arena, Range(0, 1)) == [Build(arena, 0)]
  {
  }

  /** Node `k` of the arena is the `k`-th node of the tree's BFS order. */
  lemma BFSFromArena(arena: seq<Cell>, st: seq<nat>)
    requires Forward(arena) && Spans(KidLists(arena), st) && |arena| >= 1
    ensures BFSOrder(Build(arena, 0)) == Forest(arena, Range(0, |arena|))
  {
    ForestRoot(arena);
    LevelsChain(arena, st, 0);
  }

  /** The trees rooted at the arena nodes, in order, carry the arena's values. */
  lemma ForestValues(arena: seq<Cell>)
    requires Forward(arena)
    ensures Values(Forest(arena, Range(0, |arena|))) == ArenaVals(arena)
  {
    var f := Forest(arena, Range(0, |arena|));
    var v, w := Values(f), ArenaVals(arena);
    forall i | 0 <= i < |v|
      ensures v[i] == w[i]
    {
      assert f[i] == Build(arena, i);
    }
  }

  /** The children of the tree rooted at node `j` carry the values of node `j`'s children. */
  lemma ForestChildVals(arena: seq<Cell>)
    requires Forward(arena)
    ensures var f := Forest(arena, Range(0, |arena|));
      forall j :: 0 <= j < |f| ==> Values(f[j].children) == ChildVals(arena, j)
  {
    var f := Forest(arena, Range(0, |arena|));
    forall j | 0 <= j < |f|
      ensures Values(f[j].children) == ChildVals(arena, j)
    {
      assert f[j] == Build(arena, j);
      var v, w := Values(f[j].children), ChildVals(arena, j);
      forall k | 0 <= k < |v|
        ensures v[k] == w[k]
      {
        assert f[j].children[k] == Build(arena, arena[j].children[k]);
      }
    }
  }

  /** The finished arena describes the list. */
  lemma ArenaDescribes(list: seq<Option<int>>, arena: seq<Cell>, st: seq<nat>)
    requires |list| >= 1 && list[0].Some? && Forward(arena) && Spans(KidLists(arena), st) && |arena| >= 1
    requires Grouped(Entries(list), arena) && ArenaVals(arena) == [list[0].value] + NonNull(Entries(list))
    ensures Describes(list, Build(arena, 0))
  {
    BFSFromArena(arena, st);
    ForestValues(arena);
    ForestChildVals(arena);
  }

  /** The BFS numbering lists every node of the finished tree once, node `k` with id `k`. */
  lemma ArenaEnumerates(arena: seq<Cell>, st: seq<nat>)
    requires Forward(arena) && Spans(KidLists(arena), st) && |arena| >= 1
    ensures var f := Forest(arena, Range(0, |arena|));
      multiset(f) == Nodes(Build(arena, 0)) && forall i, j :: 0 <= i < j < |f| ==> f[i].id != f[j].id
  {
    BFSFromArena(arena, st);
    BFSOrderNodes(Build(arena, 0));
  }

  /** The nodes of the finished tree are distinct objects. */
  lemma ArenaUnique(arena: seq<Cell>, st: seq<nat>)
    requires Forward(arena) && Spans(KidLists(arena), st) && |arena| >= 1
    ensures UniqueIds(Build(arena, 0))
  {
    ArenaEnumerates(arena, st);
    UniqueIdsFromEnumeration(Build(arena, 0), Forest(arena, Range(0, |arena|)));
  }

  /** When the entries are used up, the arena read as a tree is the tree the list describes. */
  lemma FinishedTree(list: seq<Option<int>>, arena: seq<Cell>, st: seq<nat>)
    requires |list| >= 1 && list[0].Some? && Loop(list[0].value, Entries(list), arena, st)
    ensures Forward(arena) && |arena| >= 1
    ensures Build(arena, 0).val == list[0].value
    ensures Describes(list, Build(arena, 0)) && UniqueIds(Build(arena, 0))
  {
    assert ArenaVals(arena)[0] == list[0].value;
    var full := SpansFinish(KidLists(arena), st, Nulls(Entries(list)));
    ArenaDescribes(list, arena, full);
    ArenaUnique(arena, full);
  }

  /** Once the list is used up, the arena read as a tree is the tree the list describes. */
  lemma RunTree(list: seq<Option<int>>)
    requires |list| >= 1 && list[0].Some? && QueueNeverEmpty(Entries(list))
    ensures var a := Run(list[0].value, Entries(list));
      Forward(a) && |a| >= 1 &&
      var t := Build(a, 0);
      t.val == list[0].value && Describes(list, t) && UniqueIds(t)
  {
    var v0, rest := list[0].value, Entries(list);
    RunLoop(v0, rest);
    FinishedTree(list, Run(v0, rest), Starts(v0, rest));
  }

  /**
   * fromLevelOrderList: `null` for an empty list or `[null]`; otherwise the root takes `list[0]`,
   * index 1 (the `null` closing the root's level) is skipped, and the remaining entries hand out
   * the children of each node in BFS order.  The result is the tree the list describes, made of
   * distinct nodes.
   */
  method FromLevelOrderList(list: seq<Option<int>>) returns (root: Option<Node>)
    requires |list| > 1 ==> list[0].Some?
    requires QueueNeverEmpty(Entries(list))
    ensures root.None? <==> |list| == 0 || list == [None]
    ensures root.Some? ==> root.value.val == list[0].value
    ensures root.Some? ==> Describes(list, root.value) && UniqueIds(root.value)
  {
    var tailIdx := |list| - 1;
    if tailIdx < 0 || (tailIdx == 0 && list[0].None?) {
      return None;
    }
    var arena := LinkNodes(list);
    RunTree(list);
    root := Some(Build(arena, 0));
  }

  /**
   * One entry read, parent `head` being at the front of the queue: a value becomes a new node,
   * the last child of that parent, and is enqueued; a `null` dequeues the parent.
   */
  method ReadEntry(arena: seq<Cell>, queue: seq<nat>, e: Option<int>, ghost head: nat)
    returns (arena': seq<Cell>, queue': seq<nat>, ghost head': nat)
    requires head < |arena| && queue == Range(head, |arena|)
    ensures arena' == Step(arena, head, e) && head' == head + (if e.None? then 1 else 0)
    ensures head' <= |arena'| && queue' == Range(head', |arena'|)
  {
    RangeTail(head, |arena|);
    var parentNode := queue[0];
    if e.Some? {
      var node: nat := |arena|;
      var leaf: seq<nat> := [];
      arena' := arena[parentNode := arena[parentNode].(children := arena[parentNode].children + [node])]
        + [Cell(e.value, leaf)];
      RangeSnoc(head, node);
      queue', head' := queue + [node], head;
    } else {
      arena', queue', head' := arena, queue[1..], head + 1;
    }
  }

  /**
   * The loop of fromLevelOrderList: the root is created and enqueued, then each entry from
   * index 2 on either becomes a new child of the parent at the front of the queue, which is
   * enqueued, or, for `null`, drops that parent from the queue.
   */
  method LinkNodes(list: seq<Option<int>>) returns (arena: seq<Cell>)
    requires |list| >= 1 && list[0].Some? && QueueNeverEmpty(Entries(list))
    ensures arena == Run(list[0].value, Entries(list))
  {
    var tailIdx := |list| - 1;
    ghost var v0, rest := list[0].value, Entries(list);
    arena := [Cell(list[0].value, [])];
    var queue: seq<nat> := [0];
    var idx := 2;
    ghost var head: nat := 0;
    ghost var seen: seq<Option<int>> := [];
    while idx <= tailIdx
      invariant 2 <= idx && idx - 2 <= |rest| && seen == rest[..idx - 2]
      invariant arena == Run(v0, seen) && head == Nulls(seen)
      invariant head <= |arena| && queue == Range(head, |arena|)
      decreases |list| - idx
    {
      NextEntry(v0, rest, seen, idx - 2);
      assert list[idx] == rest[idx - 2];
      arena, queue, head := ReadEntry(arena, queue, list[idx], head);
      seen := seen + [list[idx]];
      idx := idx + 1;
    }
    assert seen == rest;
  }
}
