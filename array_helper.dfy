/**
 * ArrayHelper::insertAt: inserts a value into a list at an index, pushing the values from that
 * index on one place back.  The PHP list is passed by reference and grows by one; here it goes
 * in as a sequence and the method returns its new value.
 */
module ArrayHelper {
  /** `s` with `v` inserted at index `i`: the values before `i`, then `v`, then the rest. */
  function Inserted<T>(s: seq<T>, i: nat, v: T): (r: seq<T>)
    requires i <= |s|
    ensures |r| == |s| + 1 && r[i] == v
    ensures forall k :: 0 <= k < i ==> r[k] == s[k]
    ensures forall k :: i <= k < |s| ==> r[k + 1] == s[k]
  {
    s[..i] + [v] + s[i..]
  }

  /** The properties of `Inserted` single it out: a list that has them all is `Inserted(s, i, v)`. */
  lemma InsertedUnique<T>(s: seq<T>, i: nat, v: T, r: seq<T>)
    requires i <= |s|
    requires |r| == |s| + 1 && r[i] == v
    requires forall k :: 0 <= k < i ==> r[k] == s[k]
    requires forall k :: i <= k < |s| ==> r[k + 1] == s[k]
    ensures r == Inserted(s, i, v)
  {
    var q := Inserted(s, i, v);
    forall k | 0 <= k < |r|
      ensures r[k] == q[k]
    {
      if i < k {
        assert r[(k - 1) + 1] == s[k - 1];
      }
    }
  }

  /** Inserting at the end appends. */
  lemma InsertedAtEnd<T>(s: seq<T>, v: T)
    ensures Inserted(s, |s|, v) == s + [v]
  {
  }

  /** Inserting into an empty list gives the one-value list. */
  lemma InsertedIntoEmpty<T>(v: T)
    ensures Inserted([], 0, v) == [v]
  {
  }

  /** Taking the inserted value out again gives back the list. */
  lemma InsertedRemoved<T>(s: seq<T>, i: nat, v: T)
    requires i <= |s|
    ensures var r := Inserted(s, i, v); r[..i] + r[i + 1..] == s
  {
    var r := Inserted(s, i, v);
    assert r[..i] == s[..i] && r[i + 1..] == s[i..];
    assert s[..i] + s[i..] == s;
  }

  /** The values of the list are the old ones and the inserted one. */
  lemma InsertedMultiset<T>(s: seq<T>, i: nat, v: T)
    requires i <= |s|
    ensures multiset(Inserted(s, i, v)) == multiset(s) + multiset{v}
  {
    assert s == s[..i] + s[i..];
  }

  /** Inserting 6 at index 5 of [1, 2, 3, 4, 5, 7, 8, 9] fills the gap. */
  lemma InsertedExample()
    ensures Inserted([1, 2, 3, 4, 5, 7, 8, 9], 5, 6) == [1, 2, 3, 4, 5, 6, 7, 8, 9]
  {
    assert [1, 2, 3, 4, 5, 7, 8, 9][..5] == [1, 2, 3, 4, 5];
    assert [1, 2, 3, 4, 5, 7, 8, 9][5..] == [7, 8, 9];
  }

  /**
   * insertAt: walking from `index` to the tail, each value is swapped with the one carried from
   * the previous position, starting with `value`; the value carried off the tail is appended.
   * The index is expected to be between 0 and the list's length.
   */
  method InsertAt<T>(list: seq<T>, index: nat, value: T) returns (list': seq<T>)
    requires index <= |list|
    ensures list' == Inserted(list, index, value)
  {
    ghost var r := Inserted(list, index, value);
    list' := list;
    var tailIdx := |list| - 1;
    var prevValue := value;
    var i := index;
    while i <= tailIdx
      invariant index <= i <= |list| && |list'| == |list|
      invariant forall k :: 0 <= k < i ==> list'[k] == r[k]
      invariant forall k :: i <= k < |list| ==> list'[k] == list[k]
      invariant prevValue == r[i]
      decreases |list| - i
    {
      prevValue, list' := list'[i], list'[i := prevValue];
      i := i + 1;
    }
    list' := list' + [prevValue];
    assert list' == r by {
      forall k | 0 <= k < |r|
        ensures list'[k] == r[k]
      {
      }
    }
  }
}
