/**
 * A JavaScript plain object used as a dictionary: its own properties in
 * insertion order. Assigning to an existing key keeps its position;
 * assigning to a new key appends it. `Object.keys` and `Object.values`
 * enumerate in that order.
 */
module OrderedDict {
  import opened Wrappers

  type Dict<K, V> = seq<(K, V)>

  /** `Object.keys(d)`. */
  function Keys<K, V>(d: Dict<K, V>): (ks: seq<K>)
    ensures |ks| == |d|
    ensures forall i :: 0 <= i < |d| ==> ks[i] == d[i].0
  {
    seq(|d|, i requires 0 <= i < |d| => d[i].0)
  }

  /** `Object.values(d)`. */
  function Values<K, V>(d: Dict<K, V>): (vs: seq<V>)
    ensures |vs| == |d|
    ensures forall i :: 0 <= i < |d| ==> vs[i] == d[i].1
  {
    seq(|d|, i requires 0 <= i < |d| => d[i].1)
  }

  /** A well-formed object has each key once. */
  predicate DistinctKeys<K(==), V>(d: Dict<K, V>) {
    forall i, j :: 0 <= i < j < |d| ==> d[i].0 != d[j].0
  }

  /** Position of the property `k`, if any. */
  function KeyIndex<K(==), V>(d: Dict<K, V>, k: K): (r: Option<nat>)
    ensures r.Some? ==> r.value < |d| && d[r.value].0 == k
    ensures r.Some? ==> forall j :: 0 <= j < r.value ==> d[j].0 != k
    ensures r.None? <==> k !in Keys(d)
  {
    if d == [] then None
    else if d[0].0 == k then Some(0)
    else
      match KeyIndex(d[1..], k)
      case None =>
        assert Keys(d) == [d[0].0] + Keys(d[1..]);
        None
      case Some(i) => Some(i + 1)
  }

  /** `d[k]`, with `None` for a missing key. */
  function Get<K(==), V>(d: Dict<K, V>, k: K): (r: Option<V>)
    ensures r.None? <==> k !in Keys(d)
  {
    match KeyIndex(d, k)
    case None => None
    case Some(i) => Some(d[i].1)
  }

  /** `d[k] = v`: an existing property is overwritten in place, a new one is appended. */
  function Put<K(==), V>(d: Dict<K, V>, k: K, v: V): (r: Dict<K, V>)
    ensures Keys(r) == if k in Keys(d) then Keys(d) else Keys(d) + [k]
    ensures k !in Keys(d) ==> r == d + [(k, v)]
    ensures forall i :: 0 <= i < |r| ==> r[i] in d || r[i] == (k, v)
    ensures DistinctKeys(d) ==> DistinctKeys(r)
  {
    match KeyIndex(d, k)
    case None => d + [(k, v)]
    case Some(i) => d[i := (k, v)]
  }

  /** After `d[k] = v`, reading `k` gives `v` and every other key reads as before. */
  lemma PutGet<K, V>(d: Dict<K, V>, k: K, v: V, k': K)
    requires DistinctKeys(d)
    ensures Get(Put(d, k, v), k') == if k' == k then Some(v) else Get(d, k')
  {
    var r := Put(d, k, v);
    match KeyIndex(d, k)
    case None =>
      if k' != k {
        match KeyIndex(d, k')
        case None =>
        case Some(j) =>
          assert KeyIndex(r, k') == Some(j) by { KeyIndexDistinct(r, j); }
      }
    case Some(i) =>
      if k' == k {
        KeyIndexDistinct(r, i);
      } else {
        match KeyIndex(d, k')
        case None =>
        case Some(j) =>
          KeyIndexDistinct(r, j);
      }
  }

  /** In a well-formed object each entry is the one found for its key. */
  lemma KeyIndexDistinct<K, V>(d: Dict<K, V>, i: nat)
    requires DistinctKeys(d) && i < |d|
    ensures KeyIndex(d, d[i].0) == Some(i)
  {
    var r := KeyIndex(d, d[i].0);
    assert d[i].0 in Keys(d);
  }

  /** The entries of `d` that satisfy `keep`, in order: an object filled by a filtering `forEach` over `Object.keys(d)`. */
  function Filter<K, V>(d: Dict<K, V>, keep: ((K, V)) -> bool): Dict<K, V> {
    if d == [] then []
    else Filter(d[..|d| - 1], keep) + (if keep(d[|d| - 1]) then [d[|d| - 1]] else [])
  }

  /** Every kept entry comes from `d` and satisfies `keep`. */
  lemma {:induction false} FilterSub<K, V>(d: Dict<K, V>, keep: ((K, V)) -> bool)
    ensures forall i :: 0 <= i < |Filter(d, keep)| ==> Filter(d, keep)[i] in d && keep(Filter(d, keep)[i])
    ensures forall i :: 0 <= i < |Filter(d, keep)| ==> Filter(d, keep)[i].0 in Keys(d)
    decreases |d|
  {
    if d != [] {
      var init := d[..|d| - 1];
      FilterSub(init, keep);
      forall e | e in init ensures e in d && e.0 in Keys(d) {
        var m :| 0 <= m < |init| && init[m] == e;
        assert d[m] == e;
      }
    }
  }

  /** When every entry satisfies `keep`, the filter changes nothing. */
  lemma {:induction false} FilterKeepsAll<K, V>(d: Dict<K, V>, keep: ((K, V)) -> bool)
    requires forall i :: 0 <= i < |d| ==> keep(d[i])
    ensures Filter(d, keep) == d
    decreases |d|
  {
    if d != [] {
      FilterKeepsAll(d[..|d| - 1], keep);
      assert d == d[..|d| - 1] + [d[|d| - 1]];
    }
  }

  /** Filtering twice is filtering once. */
  lemma FilterIdempotent<K, V>(d: Dict<K, V>, keep: ((K, V)) -> bool)
    ensures Filter(Filter(d, keep), keep) == Filter(d, keep)
  {
    FilterSub(d, keep);
    FilterKeepsAll(Filter(d, keep), keep);
  }

  /** A filtered object has each key once, and reading a key gives its value exactly when that entry is kept. */
  lemma {:induction false} FilterGet<K, V>(d: Dict<K, V>, keep: ((K, V)) -> bool, k: K)
    requires DistinctKeys(d)
    ensures DistinctKeys(Filter(d, keep))
    ensures Get(Filter(d, keep), k) == if Get(d, k).Some? && keep((k, Get(d, k).value)) then Get(d, k) else None
    decreases |d|
  {
    if d != [] {
      var init := d[..|d| - 1];
      var last := d[|d| - 1];
      var f := Filter(init, keep);
      FilterGet(init, keep, k);
      FilterSub(init, keep);
      assert d == init + [last];
      assert Keys(d) == Keys(init) + [last.0];
      assert last.0 !in Keys(init);
      assert last.0 !in Keys(f);
      GetSnoc(init, last, k);
      if keep(last) {
        GetSnoc(f, last, k);
        assert Filter(d, keep) == f + [last];
        assert f + [last] == Put(f, last.0, last.1);
      } else {
        assert Filter(d, keep) == f;
        if k == last.0 {
          assert Get(f, k).None?;
        }
      }
    }
  }

  /** Reading a key of an object extended by a new last entry. */
  lemma GetSnoc<K, V>(d: Dict<K, V>, e: (K, V), k: K)
    requires DistinctKeys(d) && e.0 !in Keys(d)
    ensures Get(d + [e], k) == if k == e.0 then Some(e.1) else Get(d, k)
  {
    assert d + [e] == Put(d, e.0, e.1);
    PutGet(d, e.0, e.1, k);
  }

  /** Two objects with the same keys in the same order find a key at the same position. */
  lemma {:induction false} KeyIndexSameKeys<K, V, W>(d: Dict<K, V>, e: Dict<K, W>, k: K)
    requires Keys(d) == Keys(e)
    ensures KeyIndex(d, k) == KeyIndex(e, k)
    decreases |d|
  {
    if d != [] {
      assert d[0].0 == Keys(e)[0] == e[0].0;
      if d[0].0 != k {
        assert Keys(d[1..]) == Keys(d)[1..];
        assert Keys(e[1..]) == Keys(e)[1..];
        KeyIndexSameKeys(d[1..], e[1..], k);
      }
    }
  }

  /** The object with the same keys, in the same order, and each value passed through `f`. */
  function MapValues<K, V, W>(d: Dict<K, V>, f: V -> W): (r: Dict<K, W>)
    ensures |r| == |d|
    ensures forall i :: 0 <= i < |d| ==> r[i] == (d[i].0, f(d[i].1))
  {
    if d == [] then [] else MapValues(d[..|d| - 1], f) + [(d[|d| - 1].0, f(d[|d| - 1].1))]
  }

  /** Mapping the values keeps the keys, and each key reads as `f` of its old value. */
  lemma MapValuesGet<K, V, W>(d: Dict<K, V>, f: V -> W, k: K)
    ensures Keys(MapValues(d, f)) == Keys(d)
    ensures DistinctKeys(d) ==> DistinctKeys(MapValues(d, f))
    ensures Get(MapValues(d, f), k) == if Get(d, k).Some? then Some(f(Get(d, k).value)) else None
  {
    var r := MapValues(d, f);
    assert Keys(r) == Keys(d);
    KeyIndexSameKeys(r, d, k);
  }
}
