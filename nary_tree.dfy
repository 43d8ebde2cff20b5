/**
 * N-ary tree nodes, and the level structure the n-ary level-order and BFS traversals are proved
 * against.
 *
 * A node object of the library (`val` and an ordered `children` list) becomes a datatype value.
 * As for binary trees, the `id` field stands for the object's identity, which the post-order
 * traversal compares with `===`; `UniqueIds` is the invariant of a tree built from distinct objects.
 */
module NAryTree {
  import opened Common

  datatype Node = Node(id: nat, val: int, children: seq<Node>)

  function Size(t: Node): (r: nat)
    ensures r >= 1
    decreases t
  {
    1 + SizeF(t.children)
  }

  /** Total number of nodes in a forest. */
  function SizeF(f: seq<Node>): nat
    decreases f
  {
    if f == [] then 0 else SizeF(f[..|f| - 1]) + Size(f[|f| - 1])
  }

  lemma {:induction false} SizeFAppend(a: seq<Node>, b: seq<Node>)
    ensures SizeF(a + b) == SizeF(a) + SizeF(b)
  {
    if b == [] {
      assert a + b == a;
    } else {
      assert (a + b)[..|a + b| - 1] == a + b[..|b| - 1];
      SizeFAppend(a, b[..|b| - 1]);
    }
  }

  /** Every node occurrence of the tree, as a bag of subtrees. */
  ghost function Nodes(t: Node): multiset<Node>
    decreases t
  {
    multiset{t} + NodesF(t.children)
  }

  /** Every node occurrence of a forest. */
  ghost function NodesF(f: seq<Node>): multiset<Node>
    decreases f
  {
    if f == [] then multiset{} else NodesF(f[..|f| - 1]) + Nodes(f[|f| - 1])
  }

  lemma {:induction false} NodesFAppend(a: seq<Node>, b: seq<Node>)
    ensures NodesF(a + b) == NodesF(a) + NodesF(b)
  {
    if b == [] {
      assert a + b == a;
    } else {
      assert (a + b)[..|a + b| - 1] == a + b[..|b| - 1];
      NodesFAppend(a, b[..|b| - 1]);
    }
  }

  lemma NodesFSingle(t: Node)
    ensures NodesF([t]) == Nodes(t)
  {
    assert [t][..0] == [];
  }

  /** A forest split off its first tree. */
  lemma NodesFCons(f: seq<Node>)
    requires f != []
    ensures NodesF(f) == Nodes(f[0]) + NodesF(f[1..])
    ensures SizeF(f) == Size(f[0]) + SizeF(f[1..])
  {
    assert f == [f[0]] + f[1..];
    NodesFAppend([f[0]], f[1..]);
    NodesFSingle(f[0]);
    SizeFAppend([f[0]], f[1..]);
    assert [f[0]][..0] == [];
  }

  lemma {:induction false} NodesSize(t: Node)
    ensures |Nodes(t)| == Size(t)
    decreases t
  {
    NodesFSize(t.children);
  }

  lemma {:induction false} NodesFSize(f: seq<Node>)
    ensures |NodesF(f)| == SizeF(f)
    decreases f
  {
    if f != [] {
      NodesFSize(f[..|f| - 1]);
      NodesSize(f[|f| - 1]);
    }
  }

  /**
   * The tree is made of distinct objects: two occurrences with the same id are the same subtree,
   * and no subtree occurs twice.
   */
  ghost predicate UniqueIds(t: Node)
  {
    (forall x, y :: x in Nodes(t) && y in Nodes(t) && x.id == y.id ==> x == y) &&
    (forall x :: Nodes(t)[x] <= 1)
  }

  /** A sequence listing every occurrence of a tree whose ids are pairwise distinct shows UniqueIds. */
  lemma UniqueIdsFromEnumeration(t: Node, s: seq<Node>)
    requires multiset(s) == Nodes(t)
    requires forall i, j :: 0 <= i < j < |s| ==> s[i].id != s[j].id
    ensures UniqueIds(t)
  {
    forall x, y | x in Nodes(t) && y in Nodes(t) && x.id == y.id
      ensures x == y
    {
      assert x in multiset(s) && y in multiset(s);
      var i :| 0 <= i < |s| && s[i] == x;
      var j :| 0 <= j < |s| && s[j] == y;
      assert i == j;
    }
    forall x
      ensures Nodes(t)[x] <= 1
    {
      if Nodes(t)[x] > 1 {
        var i, j := Duplicate(s, x);
      }
    }
  }

  /** The values carried by a sequence of nodes. */
  function Values(s: seq<Node>): (r: seq<int>)
    ensures |r| == |s|
    ensures forall i :: 0 <= i < |s| ==> r[i] == s[i].val
  {
    if s == [] then [] else [s[0].val] + Values(s[1..])
  }

  lemma ValuesAppend(a: seq<Node>, b: seq<Node>)
    ensures Values(a + b) == Values(a) + Values(b)
  {
  }

  /** The next level of a forest: the children of its nodes, in order. */
  function Kids(f: seq<Node>): seq<Node>
  {
    if f == [] then [] else Kids(f[..|f| - 1]) + f[|f| - 1].children
  }

  lemma {:induction false} KidsAppend(a: seq<Node>, b: seq<Node>)
    ensures Kids(a + b) == Kids(a) + Kids(b)
  {
    if b == [] {
      assert a + b == a;
    } else {
      var b', x := b[..|b| - 1], b[|b| - 1];
      assert b == b' + [x];
      Assoc(a, b', [x]);
      SnocPrefix(a + b', x);
      KidsAppend(a, b');
      Assoc(Kids(a), Kids(b'), x.children);
    }
  }

  lemma KidsSingle(t: Node)
    ensures Kids([t]) == t.children
  {
    assert [t][..0] == [];
  }

  lemma {:induction false} KidsSize(f: seq<Node>)
    ensures SizeF(Kids(f)) + |f| == SizeF(f)
  {
    if f != [] {
      var g, t := f[..|f| - 1], f[|f| - 1];
      KidsSize(g);
      SizeFAppend(Kids(g), t.children);
    }
  }

  lemma {:induction false} KidsNodes(f: seq<Node>)
    ensures NodesF(f) == multiset(f) + NodesF(Kids(f))
  {
    if f != [] {
      var g, t := f[..|f| - 1], f[|f| - 1];
      assert f == g + [t];
      KidsNodes(g);
      NodesFAppend(Kids(g), t.children);
    }
  }

  /** The levels of a forest: the forest itself, then the levels of its next level. */
  function Levels(f: seq<Node>): (r: seq<seq<Node>>)
    ensures f == [] <==> r == []
    ensures r != [] ==> r[0] == f
    decreases SizeF(f)
  {
    if f == [] then [] else KidsSize(f); [f] + Levels(Kids(f))
  }

  /** The level-order lists of a tree: one list per depth, each in children order. */
  function LevelsOf(t: Node): (r: seq<seq<Node>>)
    ensures |r| >= 1 && r[0] == [t]
  {
    Levels([t])
  }

  /** Number of levels of the tree. */
  function Height(t: Node): (r: nat)
    ensures r >= 1
  {
    |LevelsOf(t)|
  }

  lemma {:induction false} LevelsAppend(a: seq<Node>, b: seq<Node>)
    ensures Levels(a + b) == ZipConcat(Levels(a), Levels(b))
    decreases SizeF(a) + SizeF(b)
  {
    if a == [] {
      assert a + b == b;
    } else if b == [] {
      assert a + b == a;
    } else {
      KidsSize(a);
      KidsSize(b);
      KidsAppend(a, b);
      LevelsAppend(Kids(a), Kids(b));
      var la, lb := Levels(a), Levels(b);
      assert la[1..] == Levels(Kids(a));
      assert lb[1..] == Levels(Kids(b));
    }
  }

  /** A tree's levels are the root, then the levels of the forest of its children. */
  lemma LevelsOfStep(t: Node)
    ensures LevelsOf(t) == [[t]] + Levels(t.children)
  {
    KidsSize([t]);
    KidsSingle(t);
  }

  /** Every node occurrence appears in exactly one level, exactly once. */
  lemma {:induction false} LevelsNodes(f: seq<Node>)
    ensures multiset(Flatten(Levels(f))) == NodesF(f)
    decreases SizeF(f)
  {
    if f != [] {
      KidsSize(f);
      LevelsNodes(Kids(f));
      KidsNodes(f);
      var l := Levels(f);
      assert l[1..] == Levels(Kids(f));
    }
  }

  /** The BFS order of a forest is the forest itself, then the BFS order of its next level. */
  lemma FlattenLevelsStep(f: seq<Node>)
    requires f != []
    ensures Flatten(Levels(f)) == f + Flatten(Levels(Kids(f)))
  {
    KidsSize(f);
    var l := Levels(f);
    assert l[1..] == Levels(Kids(f));
  }

  /** The BFS order of a tree: its levels concatenated. */
  function BFSOrder(t: Node): seq<Node>
  {
    Flatten(LevelsOf(t))
  }

  /** The BFS order yields every node occurrence of the tree exactly once. */
  lemma BFSOrderNodes(t: Node)
    ensures multiset(BFSOrder(t)) == Nodes(t)
    ensures |BFSOrder(t)| == Size(t)
  {
    LevelsNodes([t]);
    NodesFSingle(t);
    NodesSize(t);
  }
}
