/**
 * `Array.prototype.sort` with a comparator of the form `key(a) - key(b)`.
 * The sort is stable (ECMAScript 2019 onwards), so for such a consistent
 * comparator its result is the stable sort by the key; the model computes
 * it by insertion.
 */
module StableSort {

  predicate SortedBy<T>(s: seq<T>, key: T -> int) {
    forall i, j :: 0 <= i < j < |s| ==> key(s[i]) <= key(s[j])
  }

  /** The elements of `s` whose key is `k`, in their order in `s`. */
  function WithKey<T>(s: seq<T>, key: T -> int, k: int): (r: seq<T>)
    ensures |r| <= |s|
  {
    if s == [] then [] else (if key(s[0]) == k then [s[0]] else []) + WithKey(s[1..], key, k)
  }

  lemma {:induction false} WithKeyAppend<T>(a: seq<T>, b: seq<T>, key: T -> int, k: int)
    ensures WithKey(a + b, key, k) == WithKey(a, key, k) + WithKey(b, key, k)
    decreases |a|
  {
    if a == [] {
      assert a + b == b;
    } else {
      var head: seq<T> := if key(a[0]) == k then [a[0]] else [];
      assert (a + b)[0] == a[0] && (a + b)[1..] == a[1..] + b;
      assert WithKey(a + b, key, k) == head + WithKey(a[1..] + b, key, k);
      WithKeyAppend(a[1..], b, key, k);
      ConcatAssoc(head, WithKey(a[1..], key, k), WithKey(b, key, k));
    }
  }

  lemma ConcatAssoc<T>(x: seq<T>, y: seq<T>, z: seq<T>)
    ensures x + (y + z) == (x + y) + z
  {
  }

  lemma {:induction false} WithKeyNone<T>(s: seq<T>, key: T -> int, k: int)
    requires forall i :: 0 <= i < |s| ==> key(s[i]) < k
    ensures WithKey(s, key, k) == []
    decreases |s|
  {
    if s != [] {
      WithKeyNone(s[1..], key, k);
    }
  }

  /** How many leading elements of `s` have a key below that of `x`. */
  function InsertPosition<T>(x: T, s: seq<T>, key: T -> int): (n: nat)
    ensures n <= |s|
    ensures forall i :: 0 <= i < n ==> key(s[i]) < key(x)
    ensures n < |s| ==> key(x) <= key(s[n])
  {
    if s == [] || key(x) <= key(s[0]) then 0 else 1 + InsertPosition(x, s[1..], key)
  }

  /** Places `x` before the first element whose key is not below its own. */
  function Insert<T>(x: T, s: seq<T>, key: T -> int): (r: seq<T>)
    ensures |r| == |s| + 1
  {
    var n := InsertPosition(x, s, key);
    s[..n] + [x] + s[n..]
  }

  /** Insertion adds `x` and nothing else. */
  lemma InsertPermutes<T>(x: T, s: seq<T>, key: T -> int)
    ensures multiset(Insert(x, s, key)) == multiset(s) + multiset{x}
  {
    var n := InsertPosition(x, s, key);
    assert s == s[..n] + s[n..];
  }

  /** The elements of `Insert(x, s, key)`: those of `s` before the position, `x`, then the rest of `s`. */
  lemma InsertIndex<T>(x: T, s: seq<T>, key: T -> int, i: nat)
    requires i <= |s|
    ensures var n := InsertPosition(x, s, key);
            Insert(x, s, key)[i] == if i < n then s[i] else if i == n then x else s[i - 1]
  {
  }

  /** Insertion keeps a sorted sequence sorted. */
  lemma InsertSorted<T>(x: T, s: seq<T>, key: T -> int)
    requires SortedBy(s, key)
    ensures SortedBy(Insert(x, s, key), key)
  {
    var r := Insert(x, s, key);
    forall i, j | 0 <= i < j < |r| ensures key(r[i]) <= key(r[j]) {
      InsertIndex(x, s, key, i);
      InsertIndex(x, s, key, j);
    }
  }

  /** The stable sort of `s` by ascending key. */
  function SortBy<T>(s: seq<T>, key: T -> int): (r: seq<T>)
    ensures multiset(r) == multiset(s)
    ensures |r| == |s|
    ensures SortedBy(r, key)
  {
    if s == [] then []
    else
      var r := Insert(s[0], SortBy(s[1..], key), key);
      InsertSorted(s[0], SortBy(s[1..], key), key);
      InsertPermutes(s[0], SortBy(s[1..], key), key);
      assert s == [s[0]] + s[1..];
      assert |r| == |multiset(r)|;
      r
  }

  /** Inserting `x` adds it in front of the other elements with its key. */
  lemma WithKeyInsert<T>(x: T, t: seq<T>, key: T -> int, k: int)
    ensures WithKey(Insert(x, t, key), key, k) == (if key(x) == k then [x] else []) + WithKey(t, key, k)
  {
    var n := InsertPosition(x, t, key);
    var pre, post := t[..n], t[n..];
    assert t == pre + post;
    assert Insert(x, t, key) == (pre + [x]) + post;
    var h: seq<T> := if key(x) == k then [x] else [];
    WithKeyAppend(pre + [x], post, key, k);
    WithKeyAppend(pre, [x], key, k);
    WithKeyAppend(pre, post, key, k);
    assert WithKey([x], key, k) == h;
    if key(x) == k {
      WithKeyNone(pre, key, k);
      assert WithKey(pre + [x], key, k) == h;
      assert WithKey(t, key, k) == WithKey(post, key, k);
    } else {
      assert WithKey(pre + [x], key, k) == WithKey(pre, key, k);
    }
  }

  /**
   * Stability: among elements with equal keys, the sort keeps the input order.
   * Together with SortBy's own contract this determines the result.
   */
  lemma {:induction false} SortByStable<T>(s: seq<T>, key: T -> int, k: int)
    ensures WithKey(SortBy(s, key), key, k) == WithKey(s, key, k)
    decreases |s|
  {
    if s != [] {
      SortByStable(s[1..], key, k);
      WithKeyInsert(s[0], SortBy(s[1..], key), key, k);
    }
  }
}
