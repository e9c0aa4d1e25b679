/**
 * Python dictionaries: a map together with the order in which its keys were
 * first inserted, which is the order a `for` loop visits them in.
 */
module Dicts {

  /** No element occurs twice. */
  predicate Distinct<T(==)>(s: seq<T>) {
    forall i, j :: 0 <= i < j < |s| ==> s[i] != s[j]
  }

  /** Joining two duplicate-free sequences with no common element gives a duplicate-free sequence. */
  lemma DistinctAppend<T>(a: seq<T>, b: seq<T>)
    requires Distinct(a) && Distinct(b)
    requires forall x | x in a :: x !in b
    ensures Distinct(a + b)
  {
    forall i, j | 0 <= i < j < |a + b| ensures (a + b)[i] != (a + b)[j] {
      if i < |a| && j >= |a| {
        assert (a + b)[i] in a && (a + b)[j] in b;
      }
    }
  }

  /** A duplicate-free sequence has as many elements as the set of its elements. */
  lemma {:induction false} DistinctCardinality<T>(s: seq<T>)
    requires Distinct(s)
    ensures |set x | x in s| == |s|
  {
    if s != [] {
      var init := s[..|s| - 1];
      var last := s[|s| - 1];
      assert Distinct(init);
      DistinctCardinality(init);
      assert (set x | x in s) == (set x | x in init) + {last};
      assert last !in init;
    }
  }

  datatype Dict<K, V> = Dict(keys: seq<K>, items: map<K, V>) {
    ghost predicate Valid() {
      && Distinct(keys)
      && (forall k | k in items :: k in keys)
      && (forall i | 0 <= i < |keys| :: keys[i] in items)
    }
  }

  /** `{}`. */
  function EmptyDict<K, V>(): (d: Dict<K, V>)
    ensures d.Valid() && d.keys == [] && d.items == map[]
  {
    Dict([], map[])
  }

  /** `d[k] = v`: a new key goes to the end of the order, an existing one keeps its place. */
  function Put<K, V>(d: Dict<K, V>, k: K, v: V): (r: Dict<K, V>)
    ensures d.Valid() ==> r.Valid()
    ensures r.items == d.items[k := v]
    ensures r.keys == if k in d.items then d.keys else d.keys + [k]
  {
    Dict(if k in d.items then d.keys else d.keys + [k], d.items[k := v])
  }

  /** Writing a key twice keeps only the second value, in the first write's place. */
  lemma PutPut<K, V>(d: Dict<K, V>, k: K, v: V, w: V)
    ensures Put(Put(d, k, v), k, w) == Put(d, k, w)
  {
    assert d.items[k := v][k := w] == d.items[k := w];
  }

  /** Writing back the value a key already holds changes nothing. */
  lemma PutSame<K, V>(d: Dict<K, V>, k: K)
    requires k in d.items
    ensures Put(d, k, d.items[k]) == d
  {
    assert d.items[k := d.items[k]] == d.items;
  }
}
