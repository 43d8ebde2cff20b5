/**
 * Binary tree nodes, and the level structure every level-order and BFS traversal is proved against.
 *
 * A node object of the library (`val`, nullable `left` and `right`) becomes a datatype value.
 * The `id` field stands for the object's identity: the traversals that compare nodes with `===`
 * compare ids.  `UniqueIds` is the representation invariant of a tree built from distinct objects.
 */
module BinaryTree {
  import opened Common

  datatype Node = Node(id: nat, val: int, left: Option<Node>, right: Option<Node>)

  /** The children of a node, left before right; absent children are skipped. */
  function Children(t: Node): (r: seq<Node>)
    ensures |r| <= 2
    ensures forall c :: c in r <==> t.left == Some(c) || t.right == Some(c)
  {
    OptSeq(t.left) + OptSeq(t.right)
  }

  /** The children of a node, right before left (the mirrored traversals' order). */
  function RevChildren(t: Node): (r: seq<Node>)
    ensures r == Reverse(Children(t))
  {
    OptSeq(t.right) + OptSeq(t.left)
  }

  function Size(t: Node): (r: nat)
    ensures r >= 1
  {
    1 + SizeOpt(t.left) + SizeOpt(t.right)
  }

  function SizeOpt(o: Option<Node>): nat
  {
    match o
    case None => 0
    case Some(n) => Size(n)
  }

  /** Total number of nodes in a forest. */
  function SizeF(f: seq<Node>): nat
  {
    if f == [] then 0 else SizeF(f[..|f| - 1]) + Size(f[|f| - 1])
  }

  lemma {:induction false} SizeFAppend(a: seq<Node>, b: seq<Node>)
    ensures SizeF(a + b) == SizeF(a) + SizeF(b)
  {
    if b == [] {
      assert a + b == a;
    } else {
      assert (a + b)[..|a + b| - 1] == a + b[..|b| - 1];
      SizeFAppend(a, b[..|b| - 1]);
    }
  }

  /** Every node occurrence of the tree, as a bag of subtrees. */
  ghost function Nodes(t: Node): multiset<Node>
  {
    multiset{t} + NodesOpt(t.left) + NodesOpt(t.right)
  }

  ghost function NodesOpt(o: Option<Node>): multiset<Node>
  {
    match o
    case None => multiset{}
    case Some(n) => Nodes(n)
  }

  /** Every node occurrence of a forest. */
  ghost function NodesF(f: seq<Node>): multiset<Node>
  {
    if f == [] then multiset{} else NodesF(f[..|f| - 1]) + Nodes(f[|f| - 1])
  }

  lemma {:induction false} NodesFAppend(a: seq<Node>, b: seq<Node>)
    ensures NodesF(a + b) == NodesF(a) + NodesF(b)
  {
    if b == [] {
      assert a + b == a;
    } else {
      assert (a + b)[..|a + b| - 1] == a + b[..|b| - 1];
      NodesFAppend(a, b[..|b| - 1]);
    }
  }

  lemma NodesFSingle(t: Node)
    ensures NodesF([t]) == Nodes(t)
  {
    assert [t][..0] == [];
  }

  lemma {:induction false} NodesSize(t: Node)
    ensures |Nodes(t)| == Size(t)
    decreases t
  {
    NodesOptSize(t.left);
    NodesOptSize(t.right);
  }

  lemma {:induction false} NodesOptSize(o: Option<Node>)
    ensures |NodesOpt(o)| == SizeOpt(o)
    decreases o
  {
    if o.Some? {
      NodesSize(o.value);
    }
  }

  /** A subtree is strictly smaller than the tree it hangs from, hence a different value. */
  lemma {:induction false} SubtreeSmaller(t: Node, x: Node)
    requires x in NodesOpt(t.left) + NodesOpt(t.right)
    ensures Size(x) < Size(t)
    decreases t
  {
    if x in NodesOpt(t.left) {
      var l := t.left.value;
      if x != l {
        SubtreeSmaller(l, x);
      }
    } else {
      var r := t.right.value;
      if x != r {
        SubtreeSmaller(r, x);
      }
    }
  }

  lemma {:induction false} NodesSubtree(t: Node, x: Node)
    requires x in Nodes(t)
    ensures Nodes(x) <= Nodes(t)
    decreases t
  {
    if x != t {
      if x in NodesOpt(t.left) {
        NodesSubtree(t.left.value, x);
      } else {
        NodesSubtree(t.right.value, x);
      }
    }
  }

  /**
   * The tree is made of distinct objects: two occurrences with the same id are the same subtree,
   * and no subtree occurs twice.
   */
  ghost predicate UniqueIds(t: Node)
  {
    (forall x, y :: x in Nodes(t) && y in Nodes(t) && x.id == y.id ==> x == y) &&
    (forall x :: Nodes(t)[x] <= 1)
  }

  lemma UniqueIdsSubtree(t: Node, x: Node)
    requires UniqueIds(t) && x in Nodes(t)
    ensures UniqueIds(x)
  {
    NodesSubtree(t, x);
  }

  /** The id of a subtree differs from the id of any tree above it. */
  lemma SubtreeIdDiffers(t: Node, u: Node, x: Node)
    requires UniqueIds(t) && u in Nodes(t)
    requires x in NodesOpt(u.left) + NodesOpt(u.right)
    ensures x.id != u.id
  {
    SubtreeSmaller(u, x);
    NodesSubtree(t, u);
    assert x in Nodes(u);
  }

  /** c hangs directly below p. */
  ghost predicate IsChild(p: Node, c: Node)
  {
    p.left == Some(c) || p.right == Some(c)
  }

  /** A child belongs to its parent's node bag, as its own root. */
  lemma ChildNodes(p: Node, c: Node)
    requires IsChild(p, c)
    ensures c in Nodes(p) && c in NodesOpt(p.left) + NodesOpt(p.right)
    ensures Nodes(c) <= NodesOpt(p.left) + NodesOpt(p.right)
  {
    assert c in Nodes(c);
  }

  lemma ChildInTree(root: Node, p: Node, c: Node)
    requires p in Nodes(root) && IsChild(p, c)
    ensures c in Nodes(root)
  {
    NodesSubtree(root, p);
    ChildNodes(p, c);
  }

  /** A grandchild of u is a proper subtree of u, so in a tree of distinct objects it is not u. */
  lemma GrandchildIsNotParent(root: Node, u: Node, t: Node, x: Node)
    requires UniqueIds(root) && u in Nodes(root)
    requires IsChild(u, t) && IsChild(t, x)
    ensures x.id != u.id
  {
    ChildNodes(t, x);
    ChildNodes(u, t);
    assert x in NodesOpt(u.left) + NodesOpt(u.right);
    SubtreeIdDiffers(root, u, x);
  }

  /** A sequence listing every occurrence of a tree whose ids are pairwise distinct shows UniqueIds. */
  lemma UniqueIdsFromEnumeration(t: Node, s: seq<Node>)
    requires multiset(s) == Nodes(t)
    requires forall i, j :: 0 <= i < j < |s| ==> s[i].id != s[j].id
    ensures UniqueIds(t)
  {
    forall x, y | x in Nodes(t) && y in Nodes(t) && x.id == y.id
      ensures x == y
    {
      assert x in multiset(s) && y in multiset(s);
      var i :| 0 <= i < |s| && s[i] == x;
      var j :| 0 <= j < |s| && s[j] == y;
      assert i == j;
    }
    forall x
      ensures Nodes(t)[x] <= 1
    {
      if Nodes(t)[x] > 1 {
        var i, j := Duplicate(s, x);
      }
    }
  }

  /** The tree with left and right swapped at every node. */
  function Mirror(t: Node): (r: Node)
    ensures r.id == t.id && r.val == t.val
    ensures Size(r) == Size(t)
  {
    Node(t.id, t.val, MirrorOpt(t.right), MirrorOpt(t.left))
  }

  function MirrorOpt(o: Option<Node>): (r: Option<Node>)
    ensures r.Some? == o.Some?
    ensures SizeOpt(r) == SizeOpt(o)
  {
    match o
    case None => None
    case Some(n) => Some(Mirror(n))
  }

  lemma {:induction false} MirrorMirror(t: Node)
    ensures Mirror(Mirror(t)) == t
    decreases t
  {
    match t.left {
      case None =>
      case Some(l) => MirrorMirror(l);
    }
    match t.right {
      case None =>
      case Some(r) => MirrorMirror(r);
    }
  }

  /** Each node of a sequence replaced by its mirror image. */
  function MirrorAll(s: seq<Node>): (r: seq<Node>)
    ensures |r| == |s|
  {
    if s == [] then [] else [Mirror(s[0])] + MirrorAll(s[1..])
  }

  lemma {:induction false} MirrorAllAppend(a: seq<Node>, b: seq<Node>)
    ensures MirrorAll(a + b) == MirrorAll(a) + MirrorAll(b)
  {
    if a == [] {
      assert a + b == b;
    } else {
      assert (a + b)[1..] == a[1..] + b;
      MirrorAllAppend(a[1..], b);
      Assoc([Mirror(a[0])], MirrorAll(a[1..]), MirrorAll(b));
    }
  }

  /** The values carried by a sequence of nodes. */
  function Values(s: seq<Node>): (r: seq<int>)
    ensures |r| == |s|
    ensures forall i :: 0 <= i < |s| ==> r[i] == s[i].val
  {
    if s == [] then [] else [s[0].val] + Values(s[1..])
  }

  lemma ValuesAppend(a: seq<Node>, b: seq<Node>)
    ensures Values(a + b) == Values(a) + Values(b)
  {
  }

  /** The queue after enqueuing an optional child, as the source does: only when it is present. */
  function Enqueue(q: seq<Node>, o: Option<Node>): (r: seq<Node>)
    ensures r == q + OptSeq(o)
  {
    if o.Some? then q + [o.value] else q
  }

  /** The next level of a forest: the children of its nodes, in order. */
  function Kids(f: seq<Node>): seq<Node>
  {
    if f == [] then [] else Kids(f[..|f| - 1]) + Children(f[|f| - 1])
  }

  /** The next level of a forest, each node contributing its right child first. */
  function RevKids(f: seq<Node>): seq<Node>
  {
    if f == [] then [] else RevKids(f[..|f| - 1]) + RevChildren(f[|f| - 1])
  }

  lemma {:induction false} KidsAppend(a: seq<Node>, b: seq<Node>)
    ensures Kids(a + b) == Kids(a) + Kids(b)
  {
    if b == [] {
      assert a + b == a;
    } else {
      var b', x := b[..|b| - 1], b[|b| - 1];
      assert b == b' + [x];
      Assoc(a, b', [x]);
      SnocPrefix(a + b', x);
      KidsAppend(a, b');
      Assoc(Kids(a), Kids(b'), Children(x));
    }
  }

  lemma KidsSingle(t: Node)
    ensures Kids([t]) == Children(t)
  {
    assert [t][..0] == [];
  }

  lemma ChildrenSize(t: Node)
    ensures SizeF(Children(t)) == SizeOpt(t.left) + SizeOpt(t.right)
  {
    SizeFAppend(OptSeq(t.left), OptSeq(t.right));
    match t.left {
      case None =>
      case Some(l) => assert [l][..0] == [];
    }
    match t.right {
      case None =>
      case Some(r) => assert [r][..0] == [];
    }
  }

  lemma ChildrenNodes(t: Node)
    ensures NodesF(Children(t)) == NodesOpt(t.left) + NodesOpt(t.right)
  {
    NodesFAppend(OptSeq(t.left), OptSeq(t.right));
    match t.left {
      case None =>
      case Some(l) => NodesFSingle(l);
    }
    match t.right {
      case None =>
      case Some(r) => NodesFSingle(r);
    }
  }

  lemma {:induction false} KidsSize(f: seq<Node>)
    ensures SizeF(Kids(f)) + |f| == SizeF(f)
  {
    if f != [] {
      var g, t := f[..|f| - 1], f[|f| - 1];
      KidsSize(g);
      SizeFAppend(Kids(g), Children(t));
      ChildrenSize(t);
    }
  }

  lemma RevChildrenSize(t: Node)
    ensures SizeF(RevChildren(t)) == SizeOpt(t.left) + SizeOpt(t.right)
  {
    SizeFAppend(OptSeq(t.right), OptSeq(t.left));
    match t.left {
      case None =>
      case Some(l) => assert [l][..0] == [];
    }
    match t.right {
      case None =>
      case Some(r) => assert [r][..0] == [];
    }
  }

  lemma {:induction false} RevKidsSize(f: seq<Node>)
    ensures SizeF(RevKids(f)) + |f| == SizeF(f)
  {
    if f != [] {
      var g, t := f[..|f| - 1], f[|f| - 1];
      RevKidsSize(g);
      SizeFAppend(RevKids(g), RevChildren(t));
      RevChildrenSize(t);
    }
  }

  lemma {:induction false} KidsNodes(f: seq<Node>)
    ensures NodesF(f) == multiset(f) + NodesF(Kids(f))
  {
    if f != [] {
      var g, t := f[..|f| - 1], f[|f| - 1];
      assert f == g + [t];
      KidsNodes(g);
      NodesFAppend(Kids(g), Children(t));
      NodesFAppend(g, [t]);
      NodesFSingle(t);
      ChildrenNodes(t);
    }
  }

  /** Taking next levels from right to left reverses the forward next level of the reversed forest. */
  lemma {:induction false} RevKidsReverse(f: seq<Node>)
    ensures Reverse(RevKids(f)) == Kids(Reverse(f))
  {
    if f != [] {
      var g, t := f[..|f| - 1], f[|f| - 1];
      assert f == g + [t];
      RevKidsReverse(g);
      ReverseAppend(RevKids(g), RevChildren(t));
      ReverseReverse(Children(t));
      ReverseAppend(g, [t]);
      assert Reverse([t]) == [t];
      KidsAppend([t], Reverse(g));
      KidsSingle(t);
    }
  }

  /** The levels of a forest: the forest itself, then the levels of its next level. */
  function Levels(f: seq<Node>): (r: seq<seq<Node>>)
    ensures f == [] <==> r == []
    ensures r != [] ==> r[0] == f
    decreases SizeF(f)
  {
    if f == [] then [] else KidsSize(f); [f] + Levels(Kids(f))
  }

  /** The levels of a forest taken right to left: the forest, then the levels of its mirrored next level. */
  function RevLevels(f: seq<Node>): (r: seq<seq<Node>>)
    ensures f == [] <==> r == []
    decreases SizeF(f)
  {
    if f == [] then [] else RevKidsSize(f); [f] + RevLevels(RevKids(f))
  }

  /** The level-order lists of a tree: one list per depth, nodes left to right. */
  function LevelsOf(t: Node): (r: seq<seq<Node>>)
    ensures |r| >= 1 && r[0] == [t]
  {
    Levels([t])
  }

  function LevelsOpt(o: Option<Node>): seq<seq<Node>>
  {
    match o
    case None => []
    case Some(n) => LevelsOf(n)
  }

  /** Number of levels of the tree. */
  function Height(t: Node): (r: nat)
    ensures r >= 1
  {
    |LevelsOf(t)|
  }

  lemma {:induction false} LevelsAppend(a: seq<Node>, b: seq<Node>)
    ensures Levels(a + b) == ZipConcat(Levels(a), Levels(b))
    decreases SizeF(a) + SizeF(b)
  {
    if a == [] {
      assert a + b == b;
    } else if b == [] {
      assert a + b == a;
    } else {
      KidsSize(a);
      KidsSize(b);
      KidsAppend(a, b);
      LevelsAppend(Kids(a), Kids(b));
      var la, lb := Levels(a), Levels(b);
      assert la[1..] == Levels(Kids(a));
      assert lb[1..] == Levels(Kids(b));
    }
  }

  /** A tree's levels are the root, then its two subtrees' levels merged depth by depth. */
  lemma LevelsOfStep(t: Node)
    ensures LevelsOf(t) == [[t]] + ZipConcat(LevelsOpt(t.left), LevelsOpt(t.right))
  {
    KidsSize([t]);
    KidsSingle(t);
    LevelsAppend(OptSeq(t.left), OptSeq(t.right));
  }

  /** Every node occurrence appears in exactly one level, exactly once. */
  lemma {:induction false} LevelsNodes(f: seq<Node>)
    ensures multiset(Flatten(Levels(f))) == NodesF(f)
    decreases SizeF(f)
  {
    if f != [] {
      KidsSize(f);
      LevelsNodes(Kids(f));
      KidsNodes(f);
      var l := Levels(f);
      assert l[1..] == Levels(Kids(f));
    }
  }

  /** The BFS order of a forest is the forest itself, then the BFS order of its next level. */
  lemma FlattenLevelsStep(f: seq<Node>)
    requires f != []
    ensures Flatten(Levels(f)) == f + Flatten(Levels(Kids(f)))
  {
    KidsSize(f);
    var l := Levels(f);
    assert l[1..] == Levels(Kids(f));
  }

  /** Taking levels right to left from the reversed forest gives each forward level reversed. */
  lemma {:induction false} RevLevelsReverse(f: seq<Node>)
    ensures RevLevels(Reverse(f)) == MapReverse(Levels(f))
    decreases SizeF(f)
  {
    if f != [] {
      var g := Reverse(f);
      KidsSize(f);
      RevKidsSize(g);
      RevKidsReverse(g);
      ReverseReverse(f);
      ReverseReverse(RevKids(g));
      assert RevKids(g) == Reverse(Kids(f));
      RevLevelsReverse(Kids(f));
      var l := Levels(f);
      assert l[1..] == Levels(Kids(f));
      assert MapReverse(l)[1..] == MapReverse(l[1..]);
      assert RevLevels(g)[1..] == RevLevels(RevKids(g));
    }
  }

  /** The mirrored BFS order of a forest is the forest, then that of its mirrored next level. */
  lemma FlattenRevLevelsStep(f: seq<Node>)
    requires f != []
    ensures Flatten(RevLevels(f)) == f + Flatten(RevLevels(RevKids(f)))
  {
    RevKidsSize(f);
    var l := RevLevels(f);
    assert l[1..] == RevLevels(RevKids(f));
  }

  /** The BFS order of a tree: its levels concatenated. */
  function BFSOrder(t: Node): seq<Node>
  {
    Flatten(LevelsOf(t))
  }

  /** The BFS order yields every node occurrence of the tree exactly once. */
  lemma BFSOrderNodes(t: Node)
    ensures multiset(BFSOrder(t)) == Nodes(t)
    ensures |BFSOrder(t)| == Size(t)
  {
    LevelsNodes([t]);
    NodesFSingle(t);
    NodesSize(t);
  }
}
