/**
 A Python `dict` as the program uses it: an insertion-ordered sequence of
 (key, value) pairs. A well-formed dict has unique keys; assigning to an
 existing key replaces its value in place (the key keeps its first position),
 assigning to a new key appends it, and `update` assigns the other dict's
 pairs one by one in their order.
 */
module Dicts {
  import opened Wrappers

  type Dict<K, V> = seq<(K, V)>

  /** The keys in insertion order (`list(d.keys())`). */
  function Keys<K, V>(d: Dict<K, V>): (ks: seq<K>)
    ensures |ks| == |d|
    ensures forall i :: 0 <= i < |d| ==> ks[i] == d[i].0
  {
    if |d| == 0 then [] else [d[0].0] + Keys(d[1..])
  }

  predicate UniqueKeys<K(==), V>(d: Dict<K, V>) {
    forall i, j :: 0 <= i < j < |d| ==> d[i].0 != d[j].0
  }

  /** `d.get(k)`: the value stored under `k`, if any. */
  function Get<K(==), V>(d: Dict<K, V>, k: K): Option<V> {
    if |d| == 0 then None
    else if d[0].0 == k then Some(d[0].1)
    else Get(d[1..], k)
  }

  /** `d[k] = v`: replace in place when present, append otherwise. */
  function Put<K(==), V>(d: Dict<K, V>, k: K, v: V): Dict<K, V> {
    if |d| == 0 then [(k, v)]
    else if d[0].0 == k then [(k, v)] + d[1..]
    else [d[0]] + Put(d[1..], k, v)
  }

  /** `d.update(e)`: assign every pair of `e`, in order. */
  function Update<K(==), V>(d: Dict<K, V>, e: Dict<K, V>): Dict<K, V>
    decreases |e|
  {
    if |e| == 0 then d else Update(Put(d, e[0].0, e[0].1), e[1..])
  }

  /** The value of the last pair of `e` with key `k`: the one a sequence of assignments leaves behind. */
  function Last<K(==), V>(e: Dict<K, V>, k: K): Option<V> {
    if |e| == 0 then None
    else match Last(e[1..], k)
      case Some(v) => Some(v)
      case None => if e[0].0 == k then Some(e[0].1) else None
  }

  /** The pairs that `keep` accepts, in their original order (a dict comprehension with a condition). */
  function Filter<K, V>(d: Dict<K, V>, keep: (K, V) -> bool): Dict<K, V> {
    if |d| == 0 then []
    else (if keep(d[0].0, d[0].1) then [d[0]] else []) + Filter(d[1..], keep)
  }

  lemma GetHas<K, V>(d: Dict<K, V>, k: K)
    ensures Get(d, k).Some? <==> k in Keys(d)
  {
    if |d| > 0 {
      GetHas(d[1..], k);
      assert Keys(d) == [d[0].0] + Keys(d[1..]);
    }
  }

  lemma {:induction false} PutGet<K, V>(d: Dict<K, V>, k: K, v: V, j: K)
    ensures Get(Put(d, k, v), j) == if j == k then Some(v) else Get(d, j)
  {
    if |d| > 0 && d[0].0 != k {
      PutGet(d[1..], k, v, j);
    }
  }

  lemma {:induction false} PutKeys<K, V>(d: Dict<K, V>, k: K, v: V)
    ensures Keys(Put(d, k, v)) == if k in Keys(d) then Keys(d) else Keys(d) + [k]
  {
    if |d| > 0 {
      assert Keys(d) == [d[0].0] + Keys(d[1..]);
      if d[0].0 != k {
        PutKeys(d[1..], k, v);
        assert Keys(Put(d, k, v)) == [d[0].0] + Keys(Put(d[1..], k, v));
      } else {
        assert Keys(Put(d, k, v)) == [k] + Keys(d[1..]);
      }
    }
  }

  lemma TailUnique<K, V>(d: Dict<K, V>)
    requires UniqueKeys(d) && |d| > 0
    ensures UniqueKeys(d[1..])
  {
    forall i, j | 0 <= i < j < |d[1..]| ensures d[1..][i].0 != d[1..][j].0 {
      assert d[1..][i] == d[i + 1] && d[1..][j] == d[j + 1];
    }
  }

  /** In a dict with unique keys the first pair's key occurs nowhere in the rest. */
  lemma HeadNotInTail<K, V>(d: Dict<K, V>)
    requires UniqueKeys(d) && |d| > 0
    ensures d[0].0 !in Keys(d[1..])
  {
    forall i | 0 <= i < |d[1..]| ensures Keys(d[1..])[i] != d[0].0 {
      assert d[1..][i] == d[i + 1];
    }
  }

  lemma {:induction false} PutUnique<K, V>(d: Dict<K, V>, k: K, v: V)
    requires UniqueKeys(d)
    ensures UniqueKeys(Put(d, k, v))
  {
    if |d| > 0 {
      var t := d[1..];
      TailUnique(d);
      if d[0].0 != k {
        PutUnique(t, k, v);
        var p := Put(t, k, v);
        PutKeys(t, k, v);
        HeadNotInTail(d);
        forall j | 0 <= j < |p| ensures p[j].0 != d[0].0 {
          assert p[j].0 == Keys(p)[j];
          assert Keys(p)[j] in Keys(p);
        }
        assert Put(d, k, v) == [d[0]] + p;
      } else {
        var p := Put(d, k, v);
        assert p == [(k, v)] + t;
        forall i, j | 0 <= i < j < |p| ensures p[i].0 != p[j].0 {
          assert p[j] == d[j];
          if i > 0 { assert p[i] == d[i]; }
        }
      }
    }
  }

  lemma {:induction false} UpdateGet<K, V>(d: Dict<K, V>, e: Dict<K, V>, j: K)
    ensures Get(Update(d, e), j) == if Last(e, j).Some? then Last(e, j) else Get(d, j)
    decreases |e|
  {
    if |e| > 0 {
      UpdateGet(Put(d, e[0].0, e[0].1), e[1..], j);
      PutGet(d, e[0].0, e[0].1, j);
    }
  }

  lemma {:induction false} LastUnique<K, V>(e: Dict<K, V>, k: K)
    requires UniqueKeys(e)
    ensures Last(e, k) == Get(e, k)
  {
    if |e| > 0 {
      TailUnique(e);
      LastUnique(e[1..], k);
      if e[0].0 == k {
        HeadNotInTail(e);
        GetHas(e[1..], k);
      }
    }
  }

  lemma {:induction false} UpdateKeys<K, V>(d: Dict<K, V>, e: Dict<K, V>)
    ensures Keys(d) <= Keys(Update(d, e))
    ensures forall k :: k in Keys(Update(d, e)) <==> k in Keys(d) || k in Keys(e)
    decreases |e|
  {
    if |e| > 0 {
      var d' := Put(d, e[0].0, e[0].1);
      PutKeys(d, e[0].0, e[0].1);
      UpdateKeys(d', e[1..]);
      assert Keys(e) == [e[0].0] + Keys(e[1..]);
    }
  }

  lemma {:induction false} UpdateUnique<K, V>(d: Dict<K, V>, e: Dict<K, V>)
    requires UniqueKeys(d)
    ensures UniqueKeys(Update(d, e))
    decreases |e|
  {
    if |e| > 0 {
      PutUnique(d, e[0].0, e[0].1);
      UpdateUnique(Put(d, e[0].0, e[0].1), e[1..]);
    }
  }

  lemma {:induction false} UpdateAppend<K, V>(d: Dict<K, V>, e1: Dict<K, V>, e2: Dict<K, V>)
    ensures Update(d, e1 + e2) == Update(Update(d, e1), e2)
    decreases |e1|
  {
    if |e1| > 0 {
      assert (e1 + e2)[0] == e1[0];
      assert (e1 + e2)[1..] == e1[1..] + e2;
      UpdateAppend(Put(d, e1[0].0, e1[0].1), e1[1..], e2);
    } else {
      assert e1 + e2 == e2;
    }
  }

  lemma {:induction false} KeysAppend<K, V>(a: Dict<K, V>, b: Dict<K, V>)
    ensures Keys(a + b) == Keys(a) + Keys(b)
  {
  }

  lemma {:induction false} FilterGet<K, V>(d: Dict<K, V>, keep: (K, V) -> bool, k: K)
    requires UniqueKeys(d)
    ensures Get(Filter(d, keep), k) ==
      if Get(d, k).Some? && keep(k, Get(d, k).value) then Get(d, k) else None
  {
    if |d| > 0 {
      TailUnique(d);
      FilterGet(d[1..], keep, k);
      var rest := Filter(d[1..], keep);
      if d[0].0 == k {
        HeadNotInTail(d);
        FilterKeysSub(d[1..], keep, k);
        GetHas(rest, k);
        if keep(d[0].0, d[0].1) {
          assert Filter(d, keep) == [d[0]] + rest;
          assert Filter(d, keep)[0] == d[0];
        } else {
          assert Filter(d, keep) == rest;
        }
      } else if keep(d[0].0, d[0].1) {
        assert Filter(d, keep) == [d[0]] + rest;
        assert Filter(d, keep)[1..] == rest;
      } else {
        assert Filter(d, keep) == rest;
      }
    }
  }

  lemma {:induction false} FilterKeysSub<K, V>(d: Dict<K, V>, keep: (K, V) -> bool, k: K)
    ensures k in Keys(Filter(d, keep)) ==> k in Keys(d)
  {
    if |d| > 0 {
      FilterKeysSub(d[1..], keep, k);
      assert Keys(d) == [d[0].0] + Keys(d[1..]);
      KeysAppend(if keep(d[0].0, d[0].1) then [d[0]] else [], Filter(d[1..], keep));
    }
  }

  lemma {:induction false} FilterUnique<K, V>(d: Dict<K, V>, keep: (K, V) -> bool)
    requires UniqueKeys(d)
    ensures UniqueKeys(Filter(d, keep))
  {
    if |d| > 0 {
      TailUnique(d);
      HeadNotInTail(d);
      FilterUnique(d[1..], keep);
      var rest := Filter(d[1..], keep);
      if keep(d[0].0, d[0].1) {
        forall j | 0 <= j < |rest| ensures rest[j].0 != d[0].0 {
          assert rest[j].0 in Keys(rest);
          FilterKeysSub(d[1..], keep, rest[j].0);
        }
        var f := Filter(d, keep);
        assert f == [d[0]] + rest;
        forall i, j | 0 <= i < j < |f| ensures f[i].0 != f[j].0 {
          assert f[j] == rest[j - 1];
          if i > 0 { assert f[i] == rest[i - 1]; }
        }
      }
    }
  }

  lemma {:induction false} FilterAppend<K, V>(a: Dict<K, V>, b: Dict<K, V>, keep: (K, V) -> bool)
    ensures Filter(a + b, keep) == Filter(a, keep) + Filter(b, keep)
  {
    if |a| > 0 {
      assert (a + b)[0] == a[0] && (a + b)[1..] == a[1..] + b;
      FilterAppend(a[1..], b, keep);
    } else {
      assert a + b == b;
    }
  }

  lemma {:induction false} LastIn<K, V>(e: Dict<K, V>, k: K)
    ensures Last(e, k).Some? <==> k in Keys(e)
    ensures Last(e, k).Some? ==> (k, Last(e, k).value) in e
  {
    if |e| > 0 {
      LastIn(e[1..], k);
      assert Keys(e) == [e[0].0] + Keys(e[1..]);
    }
  }

  /** Every pair a filter keeps satisfies its condition. */
  lemma {:induction false} FilterKeeps<K, V>(d: Dict<K, V>, keep: (K, V) -> bool)
    ensures forall i :: 0 <= i < |Filter(d, keep)| ==> keep(Filter(d, keep)[i].0, Filter(d, keep)[i].1)
  {
    if |d| > 0 {
      FilterKeeps(d[1..], keep);
      var rest := Filter(d[1..], keep);
      var f := Filter(d, keep);
      if keep(d[0].0, d[0].1) {
        assert forall i :: 1 <= i < |f| ==> f[i] == rest[i - 1];
      } else {
        assert f == rest;
      }
    }
  }

  lemma PairInKeys<K, V>(d: Dict<K, V>, k: K, v: V)
    requires (k, v) in d
    ensures k in Keys(d)
  {
    var i :| 0 <= i < |d| && d[i] == (k, v);
    assert Keys(d)[i] == k;
  }

  lemma UpdateSingle<K, V>(d: Dict<K, V>, k: K, v: V)
    ensures Update(d, [(k, v)]) == Put(d, k, v)
  {
    assert [(k, v)][1..] == [];
  }
}
