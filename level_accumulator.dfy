/**
 * The by-reference accumulator of the recursive level-order helpers: a PHP array from a level
 * number to the list of nodes found at that level so far.  A PHP array is an ordered map: it is
 * modelled as a `map` holding the entries and a sequence `keys` listing its keys in the order
 * they were created, which is the order the array is read back in.
 */
module LevelAccumulator {
  import opened Common

  /** The list stored at a level, `[]` for a level not created yet (the helpers' `??= []`). */
  function Get<T>(res: map<int, seq<T>>, d: int): seq<T>
  {
    if d in res then res[d] else []
  }

  /**
   * The accumulator after `levels[k]` has been appended to the list of level `level + k`, for
   * every k, level after level, creating the levels that were missing.
   */
  ghost function AddLevels<T>(res: map<int, seq<T>>, levels: seq<seq<T>>, level: int): map<int, seq<T>>
    decreases |levels|
  {
    if levels == [] then res
    else AddLevels(res[level := Get(res, level) + levels[0]], levels[1..], level + 1)
  }

  /** Adding levels keeps every level the accumulator had and creates exactly the levels they reach. */
  lemma {:induction false} AddLevelsKeys<T>(res: map<int, seq<T>>, levels: seq<seq<T>>, level: int, d: int)
    ensures d in AddLevels(res, levels, level) <==> d in res || level <= d < level + |levels|
    decreases |levels|
  {
    if levels != [] {
      AddLevelsKeys(res[level := Get(res, level) + levels[0]], levels[1..], level + 1, d);
    }
  }

  /** Adding levels only appends: each list the accumulator held is kept as a prefix. */
  lemma {:induction false} AddLevelsGet<T>(res: map<int, seq<T>>, levels: seq<seq<T>>, level: int, d: int)
    ensures Get(AddLevels(res, levels, level), d) == Get(res, d) + At(levels, d - level)
    decreases |levels|
  {
    if levels != [] {
      AddLevelsGet(res[level := Get(res, level) + levels[0]], levels[1..], level + 1, d);
      AtCons(levels[0], levels[1..], d - level);
      assert [levels[0]] + levels[1..] == levels;
    }
  }

  /** Two accumulators that agree on every level, present or not, are the same map. */
  lemma Extensional<T>(m1: map<int, seq<T>>, m2: map<int, seq<T>>)
    requires forall d :: d in m1 <==> d in m2
    requires forall d :: Get(m1, d) == Get(m2, d)
    ensures m1 == m2
  {
    forall d | d in m1
      ensures m1[d] == m2[d]
    {
      assert Get(m1, d) == Get(m2, d);
    }
    forall d
      ensures d in m1.Keys <==> d in m2.Keys
    {
      assert d in m1 <==> d in m2;
    }
    assert m1.Keys == m2.Keys;
  }

  /** Adding two level lists from the same level reaches the levels their merge reaches. */
  lemma AddLevelsMergeKeys<T>(res: map<int, seq<T>>, xs: seq<seq<T>>, ys: seq<seq<T>>, level: int, d: int)
    ensures d in AddLevels(AddLevels(res, xs, level), ys, level) <==> d in AddLevels(res, ZipConcat(xs, ys), level)
  {
    AddLevelsKeys(res, xs, level, d);
    AddLevelsKeys(AddLevels(res, xs, level), ys, level, d);
    AddLevelsKeys(res, ZipConcat(xs, ys), level, d);
  }

  /** Adding two level lists from the same level leaves at each level what their merge leaves. */
  lemma AddLevelsMergeGet<T>(res: map<int, seq<T>>, xs: seq<seq<T>>, ys: seq<seq<T>>, level: int, d: int)
    ensures Get(AddLevels(AddLevels(res, xs, level), ys, level), d) == Get(AddLevels(res, ZipConcat(xs, ys), level), d)
  {
    AddLevelsGet(res, xs, level, d);
    AddLevelsGet(AddLevels(res, xs, level), ys, level, d);
    AddLevelsGet(res, ZipConcat(xs, ys), level, d);
    ZipConcatAt(xs, ys, d - level);
    Assoc(Get(res, d), At(xs, d - level), At(ys, d - level));
  }

  /** Adding two level lists from the same level adds their level-by-level merge. */
  lemma AddLevelsMerge<T>(res: map<int, seq<T>>, xs: seq<seq<T>>, ys: seq<seq<T>>, level: int)
    ensures AddLevels(AddLevels(res, xs, level), ys, level) == AddLevels(res, ZipConcat(xs, ys), level)
  {
    var r2 := AddLevels(AddLevels(res, xs, level), ys, level);
    var r := AddLevels(res, ZipConcat(xs, ys), level);
    forall d
      ensures d in r2 <==> d in r
    {
      AddLevelsMergeKeys(res, xs, ys, level, d);
    }
    forall d
      ensures Get(r2, d) == Get(r, d)
    {
      AddLevelsMergeGet(res, xs, ys, level, d);
    }
    Extensional(r2, r);
  }

  /** Adding one level, then level lists one level deeper, adds the level followed by those lists. */
  lemma AddLevelsShift<T>(res: map<int, seq<T>>, here: seq<T>, below: seq<seq<T>>, level: int)
    ensures AddLevels(AddLevels(res, [here], level), below, level + 1) == AddLevels(res, [here] + below, level)
  {
    assert ([here] + below)[0] == here;
    assert ([here] + below)[1..] == below;
    assert [here][1..] == [];
  }

  /** `keys` lists exactly the keys of the accumulator, in the order they were created. */
  ghost predicate KeyOrder<T>(res: map<int, seq<T>>, keys: seq<int>)
  {
    (forall d :: d in res <==> d in keys) && Distinct(keys)
  }

  /**
   * The key order after the levels `level` to `level + n - 1` have been reached in turn: each one
   * the accumulator lacked is created, so appended at the end of the order.
   */
  function AddKeys(keys: seq<int>, n: nat, level: int): seq<int>
    decreases n
  {
    if n == 0 then keys
    else AddKeys(if level in keys then keys else keys + [level], n - 1, level + 1)
  }

  /** The keys after reaching `n` levels from `level`: the old ones and exactly those levels. */
  lemma {:induction false} AddKeysIn(keys: seq<int>, n: nat, level: int, d: int)
    ensures d in AddKeys(keys, n, level) <==> d in keys || level <= d < level + n
    decreases n
  {
    if n > 0 {
      AddKeysIn(if level in keys then keys else keys + [level], n - 1, level + 1, d);
    }
  }

  /** Each key is created once: a key order without repeats stays without repeats. */
  lemma {:induction false} AddKeysDistinct(keys: seq<int>, n: nat, level: int)
    requires Distinct(keys)
    ensures Distinct(AddKeys(keys, n, level))
    decreases n
  {
    if n > 0 {
      var k1 := if level in keys then keys else keys + [level];
      if level !in keys {
        forall i, j | 0 <= i < j < |k1|
          ensures k1[i] != k1[j]
        {
          if j == |keys| {
            assert k1[i] == keys[i] && keys[i] in keys;
          }
        }
      }
      AddKeysDistinct(k1, n - 1, level + 1);
    }
  }

  /**
   * Reaching `a` levels from `level`, then `b` levels from the same level, creates the keys that
   * reaching the deeper of the two creates: the second walk only adds the levels past the first.
   */
  lemma {:induction false} AddKeysTwice(keys: seq<int>, a: nat, b: nat, level: int)
    ensures AddKeys(AddKeys(keys, a, level), b, level) == AddKeys(keys, Max(a, b), level)
    decreases a
  {
    if a > 0 && b > 0 {
      var k1 := if level in keys then keys else keys + [level];
      AddKeysIn(k1, a - 1, level + 1, level);
      AddKeysTwice(k1, a - 1, b - 1, level + 1);
    }
  }

  /** From keys all below `level`, reaching `n` levels creates `level`, `level + 1`, ... in turn. */
  lemma {:induction false} AddKeysFresh(keys: seq<int>, n: nat, level: int)
    requires forall i :: 0 <= i < |keys| ==> keys[i] < level
    ensures var r := AddKeys(keys, n, level);
      |r| == |keys| + n && r[..|keys|] == keys &&
      forall i :: |keys| <= i < |r| ==> r[i] == level + (i - |keys|)
    decreases n
  {
    if n > 0 {
      assert level !in keys;
      var k1 := keys + [level];
      AddKeysFresh(k1, n - 1, level + 1);
      var r := AddKeys(k1, n - 1, level + 1);
      assert r[..|keys|] == r[..|k1|][..|keys|];
      assert r[|keys|] == r[..|k1|][|keys|];
    }
  }

  /** Adding levels to an accumulator and creating their keys in its key order keep the two matched. */
  lemma AddKeyOrder<T>(res: map<int, seq<T>>, keys: seq<int>, levels: seq<seq<T>>, level: int)
    requires KeyOrder(res, keys)
    ensures KeyOrder(AddLevels(res, levels, level), AddKeys(keys, |levels|, level))
  {
    forall d
      ensures d in AddLevels(res, levels, level) <==> d in AddKeys(keys, |levels|, level)
    {
      AddLevelsKeys(res, levels, level, d);
      AddKeysIn(keys, |levels|, level, d);
    }
    AddKeysDistinct(keys, |levels|, level);
  }

  /**
   * One step of a helper: creating the level's list when it is missing, then appending `x` to
   * it, adds the one-level list `[[x]]`, and a created level's key goes last in the key order.
   */
  lemma AddOne<T>(res: map<int, seq<T>>, keys: seq<int>, x: T, level: int)
    requires KeyOrder(res, keys)
    ensures var r1 := if level in res then res else res[level := []];
      r1[level := r1[level] + [x]] == AddLevels(res, [[x]], level)
    ensures (if level in res then keys else keys + [level]) == AddKeys(keys, 1, level)
    ensures KeyOrder(AddLevels(res, [[x]], level), AddKeys(keys, 1, level))
  {
    assert [[x]][1..] == [];
    AddKeyOrder(res, keys, [[x]], level);
  }

  /** The accumulator read back as a PHP list: its entries in the order of their keys. */
  function InKeyOrder<T>(res: map<int, seq<T>>, keys: seq<int>): (r: seq<seq<T>>)
    requires forall i :: 0 <= i < |keys| ==> keys[i] in res
    ensures |r| == |keys| && forall i :: 0 <= i < |keys| ==> r[i] == res[keys[i]]
  {
    seq(|keys|, i requires 0 <= i < |keys| => res[keys[i]])
  }
}
