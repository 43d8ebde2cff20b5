/** Sequence helpers shared by the tree traversals, the factories and the lemmas about them. */
module Common {

  datatype Option<T> = None | Some(value: T)

  /** The zero or one element held by an option, as a sequence. */
  function OptSeq<T>(o: Option<T>): (r: seq<T>)
    ensures |r| <= 1
    ensures o.None? <==> r == []
    ensures o.Some? ==> r == [o.value]
  {
    match o
    case None => []
    case Some(x) => [x]
  }

  /** Concatenation of a sequence of sequences, in order. */
  function Flatten<T>(ss: seq<seq<T>>): seq<T>
  {
    if ss == [] then [] else ss[0] + Flatten(ss[1..])
  }

  lemma {:induction false} FlattenAppend<T>(a: seq<seq<T>>, b: seq<seq<T>>)
    ensures Flatten(a + b) == Flatten(a) + Flatten(b)
  {
    if a == [] {
      assert a + b == b;
    } else {
      assert (a + b)[1..] == a[1..] + b;
      FlattenAppend(a[1..], b);
    }
  }

  lemma FlattenSnoc<T>(a: seq<seq<T>>, x: seq<T>)
    ensures Flatten(a + [x]) == Flatten(a) + x
  {
    FlattenAppend(a, [x]);
    assert Flatten([x]) == x + Flatten([x][1..]);
  }

  function Reverse<T>(s: seq<T>): (r: seq<T>)
    ensures |r| == |s|
    ensures forall i :: 0 <= i < |s| ==> r[i] == s[|s| - 1 - i]
  {
    if s == [] then [] else Reverse(s[1..]) + [s[0]]
  }

  lemma ReverseAppend<T>(a: seq<T>, b: seq<T>)
    ensures Reverse(a + b) == Reverse(b) + Reverse(a)
  {
  }

  lemma {:induction false} ReverseMultiset<T>(s: seq<T>)
    ensures multiset(Reverse(s)) == multiset(s)
  {
    if s != [] {
      ReverseMultiset(s[1..]);
      assert s == [s[0]] + s[1..];
    }
  }

  lemma ReverseReverse<T>(s: seq<T>)
    ensures Reverse(Reverse(s)) == s
  {
  }

  /** Each inner sequence reversed, the outer order kept. */
  function MapReverse<T>(ss: seq<seq<T>>): (r: seq<seq<T>>)
    ensures |r| == |ss|
    ensures forall i :: 0 <= i < |ss| ==> r[i] == Reverse(ss[i])
  {
    if ss == [] then [] else [Reverse(ss[0])] + MapReverse(ss[1..])
  }

  lemma Assoc<T>(a: seq<T>, b: seq<T>, c: seq<T>)
    ensures a + b + c == a + (b + c)
  {
  }

  lemma SnocPrefix<T>(a: seq<T>, x: T)
    ensures (a + [x])[..|a|] == a
  {
  }

  lemma PrefixSnoc<T>(s: seq<T>, j: nat)
    requires j < |s|
    ensures s[..j + 1] == s[..j] + [s[j]]
  {
  }

  lemma AppendAssoc<T>(a: seq<T>, b: seq<T>, c: seq<T>, d: seq<T>)
    ensures a + b + c + d == a + (b + c + d)
  {
  }

  /** The k-th inner sequence, or the empty sequence when there is none. */
  function At<T>(ss: seq<seq<T>>, k: int): seq<T>
  {
    if 0 <= k < |ss| then ss[k] else []
  }

  lemma AtCons<T>(x: seq<T>, ss: seq<seq<T>>, k: int)
    ensures At([x] + ss, k) == if k == 0 then x else At(ss, k - 1)
  {
  }

  function Max(a: int, b: int): int
  {
    if a < b then b else a
  }

  function Min(a: int, b: int): int
  {
    if a < b then a else b
  }

  /** Position-wise concatenation of two sequences of sequences; the shorter is padded with []. */
  function ZipConcat<T>(xs: seq<seq<T>>, ys: seq<seq<T>>): (r: seq<seq<T>>)
    ensures |r| == Max(|xs|, |ys|)
  {
    if xs == [] then ys
    else if ys == [] then xs
    else [xs[0] + ys[0]] + ZipConcat(xs[1..], ys[1..])
  }

  lemma {:induction false} ZipConcatAt<T>(xs: seq<seq<T>>, ys: seq<seq<T>>, k: int)
    ensures At(ZipConcat(xs, ys), k) == At(xs, k) + At(ys, k)
  {
    if xs != [] && ys != [] {
      if k > 0 {
        ZipConcatAt(xs[1..], ys[1..], k - 1);
      }
    }
  }

  /** The consecutive numbers a, a+1, ..., b-1. */
  function Range(a: nat, b: nat): (r: seq<nat>)
    requires a <= b
    ensures |r| == b - a
    ensures forall i :: 0 <= i < |r| ==> r[i] == a + i
  {
    seq(b - a, i requires 0 <= i < b - a => a + i)
  }

  /** The integers a, a+1, ..., b-1, as a set. */
  function Interval(a: int, b: int): (r: set<int>)
    ensures forall k :: k in r <==> a <= k < b
    decreases b - a
  {
    if b <= a then {} else Interval(a, b - 1) + {b - 1}
  }

  /** Pairwise distinct elements. */
  ghost predicate Distinct<T>(s: seq<T>)
  {
    forall i, j :: 0 <= i < j < |s| ==> s[i] != s[j]
  }

  /** An element counted at least twice occurs at two distinct positions. */
  lemma {:induction false} Duplicate<T>(s: seq<T>, x: T) returns (i: nat, j: nat)
    requires multiset(s)[x] >= 2
    ensures i < j < |s| && s[i] == x && s[j] == x
  {
    assert s == [s[0]] + s[1..];
    assert multiset(s) == multiset{s[0]} + multiset(s[1..]);
    if s[0] == x {
      assert x in multiset(s[1..]);
      var k :| 0 <= k < |s[1..]| && s[1..][k] == x;
      i, j := 0, k + 1;
    } else {
      i, j := Duplicate(s[1..], x);
      i, j := i + 1, j + 1;
    }
  }
}
