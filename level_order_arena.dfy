/**
 * What the two tree factories share: the flat level-order list they read, and the numbering of
 * the nodes they create.
 *
 * A list entry is a value or `null` (`None`).  The factories create the nodes in list order, and
 * a queue hands out the parents in the same order, so node `k` is the `k`-th node created and the
 * `k`-th parent dequeued.  The nodes are kept in an arena, a sequence indexed by that number, and
 * `kl[k]` lists the arena indexes of node `k`'s children.  `Spans(kl, st)` is the shape every arena the
 * factories build has: listing the children of node 0, then of node 1, and so on, gives exactly the
 * nodes 1, 2, ..., n-1, and the children of each node come after it.  A tree with this numbering is
 * numbered in BFS order.
 */
module LevelOrderArena {
  import opened Common

  /** The entry at index `i` of a level-order list; past the end it is absent, like `null`. */
  function Entry(list: seq<Option<int>>, i: int): Option<int>
  {
    if 0 <= i < |list| then list[i] else None
  }

  /** The values of a list, the `null` entries dropped. */
  function NonNull(s: seq<Option<int>>): (r: seq<int>)
    ensures |r| <= |s|
  {
    if s == [] then [] else NonNull(s[..|s| - 1]) + OptSeq(s[|s| - 1])
  }

  lemma {:induction false} NonNullAppend(a: seq<Option<int>>, b: seq<Option<int>>)
    ensures NonNull(a + b) == NonNull(a) + NonNull(b)
  {
    if b == [] {
      assert a + b == a;
    } else {
      assert (a + b)[..|a + b| - 1] == a + b[..|b| - 1];
      NonNullAppend(a, b[..|b| - 1]);
    }
  }

  lemma NonNullSnoc(a: seq<Option<int>>, e: Option<int>)
    ensures NonNull(a + [e]) == NonNull(a) + OptSeq(e)
  {
    assert (a + [e])[..|a|] == a;
  }

  /** A list split off its first entry. */
  lemma NonNullCons(s: seq<Option<int>>)
    requires s != []
    ensures NonNull(s) == OptSeq(s[0]) + NonNull(s[1..])
  {
    assert s == [s[0]] + s[1..];
    NonNullAppend([s[0]], s[1..]);
    NonNullSnoc([], s[0]);
    assert [] + [s[0]] == [s[0]];
  }

  /** The number of `null` entries of a list. */
  function Nulls(s: seq<Option<int>>): (r: nat)
    ensures r + |NonNull(s)| == |s|
  {
    if s == [] then 0 else Nulls(s[..|s| - 1]) + (if s[|s| - 1].None? then 1 else 0)
  }

  /**
   * The values of a list cut into groups at its `null` entries: one group before the first `null`,
   * and one after each.
   */
  function Groups(s: seq<Option<int>>): (r: seq<seq<int>>)
    ensures |r| == Nulls(s) + 1
  {
    if s == [] then [[]]
    else
      var g := Groups(s[..|s| - 1]);
      match s[|s| - 1]
      case None => g + [[]]
      case Some(v) => g[..|g| - 1] + [g[|g| - 1] + [v]]
  }

  /** The `j`-th group of a list; there are no more values past the last group. */
  function GroupAt(s: seq<Option<int>>, j: int): seq<int>
  {
    if 0 <= j < |Groups(s)| then Groups(s)[j] else []
  }

  /** A value appended to a list joins its last group and leaves the others alone. */
  lemma GroupAtValue(s: seq<Option<int>>, v: int, j: int)
    ensures GroupAt(s + [Some(v)], j) == if j == Nulls(s) then GroupAt(s, j) + [v] else GroupAt(s, j)
  {
    assert (s + [Some(v)])[..|s|] == s;
  }

  /** A `null` appended to a list opens an empty group and leaves the others alone. */
  lemma GroupAtNull(s: seq<Option<int>>, j: int)
    ensures GroupAt(s + [None], j) == GroupAt(s, j)
    ensures Nulls(s + [None]) == Nulls(s) + 1
  {
    assert (s + [None])[..|s|] == s;
  }

  lemma NullsValue(s: seq<Option<int>>, v: int)
    ensures Nulls(s + [Some(v)]) == Nulls(s)
    ensures NonNull(s + [Some(v)]) == NonNull(s) + [v]
  {
    assert (s + [Some(v)])[..|s|] == s;
  }

  lemma RangeAppend(a: nat, b: nat, c: nat)
    requires a <= b <= c
    ensures Range(a, b) + Range(b, c) == Range(a, c)
  {
  }

  /** The queue of a factory after a dequeue: the nodes numbered `a + 1` to `b - 1`. */
  lemma RangeTail(a: nat, b: nat)
    requires a < b
    ensures Range(a, b)[0] == a && Range(a, b)[1..] == Range(a + 1, b)
  {
  }

  /** The queue of a factory after the node numbered `b` is enqueued. */
  lemma RangeSnoc(a: nat, b: nat)
    requires a <= b
    ensures Range(a, b) + [b] == Range(a, b + 1)
  {
  }

  lemma SliceSnoc<T>(s: seq<T>, a: nat, b: nat)
    requires a <= b < |s|
    ensures s[a..b + 1] == s[a..b] + [s[b]]
  {
  }

  /**
   * The numbering of a finished arena of `n` nodes: the children of node `j` are the nodes
   * `st[j]` to `st[j+1] - 1`, each node's children come after it, the root's children start at 1
   * and the last node's children end at `n`.  So listing the children node by node numbers the
   * nodes 1, 2, ..., n-1 in turn.
   */
  ghost predicate Spans(kl: seq<seq<nat>>, st: seq<nat>)
  {
    |st| == |kl| + 1 && st[0] == 1 && st[|kl|] == |kl| &&
    forall j :: 0 <= j < |kl| ==> j < st[j] <= st[j + 1] && kl[j] == Range(st[j], st[j + 1])
  }

  /** Child numbers only grow along the arena. */
  lemma {:induction false} SpansMono(kl: seq<seq<nat>>, st: seq<nat>, a: nat, b: nat)
    requires Spans(kl, st) && a <= b <= |kl|
    ensures st[a] <= st[b] <= |kl|
    decreases b - a
  {
    if a < b {
      SpansMono(kl, st, a + 1, b);
    } else {
      SpansMono2(kl, st, b);
    }
  }

  lemma {:induction false} SpansMono2(kl: seq<seq<nat>>, st: seq<nat>, b: nat)
    requires Spans(kl, st) && b <= |kl|
    ensures st[b] <= |kl|
    decreases |kl| - b
  {
    if b < |kl| {
      SpansMono2(kl, st, b + 1);
    }
  }

  /**
   * The loop's record of the first `head` parents, each given the children numbered from
   * `st[j]` to `st[j+1] - 1`, and of parent `head`, given the nodes from `st[head]` on so far,
   * completed by the nodes still queued behind it, which have no children.
   */
  lemma SpansFinish(kl: seq<seq<nat>>, st: seq<nat>, head: nat) returns (full: seq<nat>)
    requires |st| == head + 1 && head <= |kl| && st[0] == 1 && st[head] <= |kl|
    requires forall j :: 0 <= j < head ==> j < st[j] <= st[j + 1] && kl[j] == Range(st[j], st[j + 1])
    requires head < |kl| ==> head < st[head] && kl[head] == Range(st[head], |kl|)
    requires forall j :: head < j < |kl| ==> kl[j] == []
    ensures Spans(kl, full)
  {
    full := st + seq(|kl| - head, _ => |kl|);
    if head == |kl| {
      assert head - 1 < st[head - 1] <= st[head];
    }
    forall j | head <= j < |kl|
      ensures j < full[j] <= full[j + 1] && kl[j] == Range(full[j], full[j + 1])
    {
      assert full[j + 1] == |kl|;
      if j > head {
        assert full[j] == |kl|;
      }
    }
  }
}
