/**
 * Python dictionaries as finite association lists in iteration order.
 *
 * A `Dict` lists the entries in the order a dict iterates them: assigning
 * to a key that is present replaces its value in place, assigning to a new
 * key appends it. `Put` is `d[k] = v` and `Update` is `d.update(e)`.
 */
module Dicts {
  import opened Wrappers

  type Dict<K(==, !new), V> = seq<(K, V)>

  function Keys<K(==, !new), V>(d: Dict<K, V>): (keys: set<K>) {
    if |d| == 0 then {} else {d[0].0} + Keys(d[1..])
  }

  /** A key is in the dict exactly when some entry carries it. */
  lemma {:induction false} KeysIndex<K(!new), V>(d: Dict<K, V>, k: K)
    ensures k in Keys(d) <==> exists i :: 0 <= i < |d| && d[i].0 == k
  {
    if |d| > 0 {
      KeysIndex(d[1..], k);
      if k in Keys(d[1..]) {
        var i :| 0 <= i < |d| - 1 && d[1..][i].0 == k;
        assert d[i + 1].0 == k;
      }
      if exists i :: 0 <= i < |d| && d[i].0 == k {
        var i :| 0 <= i < |d| && d[i].0 == k;
        if i > 0 { assert d[1..][i - 1].0 == k; }
      }
    }
  }

  lemma {:induction false} KeysConcat<K(!new), V>(a: Dict<K, V>, b: Dict<K, V>)
    ensures Keys(a + b) == Keys(a) + Keys(b)
  {
    if |a| > 0 {
      assert (a + b)[1..] == a[1..] + b;
      KeysConcat(a[1..], b);
    } else {
      assert a + b == b;
    }
  }

  /** No key occurs twice, as in every dict. */
  predicate UniqueKeys<K(==, !new), V>(d: Dict<K, V>) {
    forall i, j :: 0 <= i < j < |d| ==> d[i].0 != d[j].0
  }

  /** The value `d[k]`, or None when `k not in d`. */
  function Get<K(==, !new), V>(d: Dict<K, V>, k: K): (r: Option<V>)
    ensures r.Some? <==> k in Keys(d)
    ensures r.Some? ==> (k, r.value) in d
  {
    if |d| == 0 then None
    else if d[0].0 == k then Some(d[0].1)
    else Get(d[1..], k)
  }

  /** `d[k] = v`. */
  function Put<K(==, !new), V>(d: Dict<K, V>, k: K, v: V): (r: Dict<K, V>)
    ensures Keys(r) == Keys(d) + {k}
    ensures Get(r, k) == Some(v)
  {
    if |d| == 0 then [(k, v)]
    else if d[0].0 == k then [(k, v)] + d[1..]
    else [d[0]] + Put(d[1..], k, v)
  }

  /** Assigning one key leaves every other key's value as it was. */
  lemma {:induction false} PutOther<K(!new), V>(d: Dict<K, V>, k: K, v: V, k': K)
    requires k' != k
    ensures Get(Put(d, k, v), k') == Get(d, k')
  {
    if |d| > 0 && d[0].0 != k {
      PutOther(d[1..], k, v, k');
    }
  }

  /** Assigning a new key appends it; assigning keeps the keys distinct. */
  lemma {:induction false} PutShape<K(!new), V>(d: Dict<K, V>, k: K, v: V)
    ensures k !in Keys(d) ==> Put(d, k, v) == d + [(k, v)]
    ensures UniqueKeys(d) ==> UniqueKeys(Put(d, k, v))
  {
    if |d| > 0 {
      PutShape(d[1..], k, v);
      if k !in Keys(d) {
        assert [d[0]] + (d[1..] + [(k, v)]) == d + [(k, v)];
      }
      if UniqueKeys(d) {
        UniqueTail(d);
        if d[0].0 != k {
          UniqueCons(d[0], Put(d[1..], k, v));
        } else {
          UniqueCons((k, v), d[1..]);
        }
      }
    }
  }

  lemma {:induction false} UniqueTail<K(!new), V>(d: Dict<K, V>)
    requires |d| > 0 && UniqueKeys(d)
    ensures UniqueKeys(d[1..]) && d[0].0 !in Keys(d[1..])
  {
    KeysIndex(d[1..], d[0].0);
    forall i, j | 0 <= i < j < |d| - 1 ensures d[1..][i].0 != d[1..][j].0 {
      assert d[1..][i] == d[i + 1] && d[1..][j] == d[j + 1];
    }
  }

  lemma {:induction false} UniqueCons<K(!new), V>(x: (K, V), d: Dict<K, V>)
    requires UniqueKeys(d) && x.0 !in Keys(d)
    ensures UniqueKeys([x] + d)
  {
    KeysIndex(d, x.0);
    var r := [x] + d;
    forall i, j | 0 <= i < j < |r| ensures r[i].0 != r[j].0 {
      assert r[j] == d[j - 1];
      if i > 0 {
        assert r[i] == d[i - 1];
      }
    }
  }

  /** `d.update(e)`: assign every entry of `e` to `d`, in order. */
  function Update<K(==, !new), V>(d: Dict<K, V>, e: Dict<K, V>): (updated: Dict<K, V>) {
    if |e| == 0 then d
    else
      var last := e[|e| - 1];
      Put(Update(d, e[..|e| - 1]), last.0, last.1)
  }

  /** The keys after an update are the old keys and the new ones. */
  lemma {:induction false} UpdateKeys<K(!new), V>(d: Dict<K, V>, e: Dict<K, V>)
    ensures Keys(Update(d, e)) == Keys(d) + Keys(e)
  {
    if |e| > 0 {
      var last := e[|e| - 1];
      UpdateKeys(d, e[..|e| - 1]);
      KeysConcat(e[..|e| - 1], [last]);
      assert e[..|e| - 1] + [last] == e;
    }
  }

  lemma {:induction false} UpdateUnique<K(!new), V>(d: Dict<K, V>, e: Dict<K, V>)
    requires UniqueKeys(d)
    ensures UniqueKeys(Update(d, e))
  {
    if |e| > 0 {
      UpdateUnique(d, e[..|e| - 1]);
      PutShape(Update(d, e[..|e| - 1]), e[|e| - 1].0, e[|e| - 1].1);
    }
  }

  /** The value of the last entry of `e` with key `k`, if there is one. */
  function LastValue<K(==, !new), V>(e: Dict<K, V>, k: K): (last: Option<V>) {
    if |e| == 0 then None
    else if e[|e| - 1].0 == k then Some(e[|e| - 1].1)
    else LastValue(e[..|e| - 1], k)
  }

  /** After `d.update(e)` a key holds the last value `e` gives it, else its value in `d`. */
  lemma {:induction false} UpdateGet<K(!new), V>(d: Dict<K, V>, e: Dict<K, V>, k: K)
    ensures Get(Update(d, e), k) == if LastValue(e, k).Some? then LastValue(e, k) else Get(d, k)
  {
    if |e| > 0 {
      UpdateGet(d, e[..|e| - 1], k);
      if e[|e| - 1].0 != k {
        PutOther(Update(d, e[..|e| - 1]), e[|e| - 1].0, e[|e| - 1].1, k);
      }
    }
  }

  /** Updating with `e1 + e2` is updating with `e1`, then with `e2`. */
  lemma {:induction false} UpdateConcat<K(!new), V>(d: Dict<K, V>, e1: Dict<K, V>, e2: Dict<K, V>)
    ensures Update(d, e1 + e2) == Update(Update(d, e1), e2)
  {
    if |e2| == 0 {
      assert e1 + e2 == e1;
    } else {
      assert (e1 + e2)[..|e1 + e2| - 1] == e1 + e2[..|e2| - 1];
      UpdateConcat(d, e1, e2[..|e2| - 1]);
    }
  }

  /** Building a dict from entries whose keys are distinct gives back those entries. */
  lemma {:induction false} UpdateFromEmpty<K(!new), V>(e: Dict<K, V>)
    requires UniqueKeys(e)
    ensures Update([], e) == e
  {
    if |e| > 0 {
      var init := e[..|e| - 1];
      assert UniqueKeys(init);
      UpdateFromEmpty(init);
      KeysIndex(init, e[|e| - 1].0);
      PutShape(init, e[|e| - 1].0, e[|e| - 1].1);
      assert init + [e[|e| - 1]] == e;
    }
  }

  /** `LastValue` finds the entry for `k` that no later entry for `k` follows. */
  lemma {:induction false} LastValueIndex<K(!new), V>(e: Dict<K, V>, k: K, v: V)
    ensures LastValue(e, k) == Some(v) <==>
      exists i :: 0 <= i < |e| && e[i] == (k, v) && forall j :: i < j < |e| ==> e[j].0 != k
  {
    if |e| > 0 {
      var init := e[..|e| - 1];
      LastValueIndex(init, k, v);
      if LastValue(e, k) == Some(v) && e[|e| - 1].0 != k {
        var i :| 0 <= i < |init| && init[i] == (k, v) && forall j :: i < j < |init| ==> init[j].0 != k;
        assert e[i] == (k, v);
      }
      if exists i :: 0 <= i < |e| && e[i] == (k, v) && forall j :: i < j < |e| ==> e[j].0 != k {
        var i :| 0 <= i < |e| && e[i] == (k, v) && forall j :: i < j < |e| ==> e[j].0 != k;
        if i < |e| - 1 {
          assert init[i] == (k, v);
          assert forall j :: i < j < |init| ==> init[j] == e[j];
        }
      }
    }
  }

  /** The last value for `k` in `e1 + e2` is the one in `e2` when `e2` has `k`. */
  lemma {:induction false} LastValueConcat<K(!new), V>(e1: Dict<K, V>, e2: Dict<K, V>, k: K)
    ensures LastValue(e1 + e2, k) == if LastValue(e2, k).Some? then LastValue(e2, k) else LastValue(e1, k)
  {
    if |e2| == 0 {
      assert e1 + e2 == e1;
    } else {
      assert (e1 + e2)[..|e1 + e2| - 1] == e1 + e2[..|e2| - 1];
      LastValueConcat(e1, e2[..|e2| - 1], k);
    }
  }
}
