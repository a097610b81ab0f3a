/**
 * Kotlin's `LinkedHashMap` as a value: a lookup map together with the
 * order in which its keys were first inserted.  Putting an existing key
 * replaces its value and keeps its place; removing a key drops it from
 * the order.
 */
module LinkedMaps {
  import opened Wrappers

  /** Both maps of the converter are keyed by string names. */
  type Key = string

  datatype LinkedMap<V> = LinkedMap(keys: seq<Key>, vals: map<Key, V>)

  /** No key occurs twice: none occurs before its own place. */
  predicate Distinct(s: seq<Key>) {
    forall i :: 0 <= i < |s| ==> s[i] !in s[..i]
  }

  lemma DistinctAt(s: seq<Key>, i: int, j: int)
    requires Distinct(s) && 0 <= i < j < |s|
    ensures s[i] != s[j]
  {
    assert s[..j][i] == s[i];
  }

  /** The order lists every key of the lookup map exactly once. */
  ghost predicate Valid<V>(m: LinkedMap<V>) {
    Distinct(m.keys) && (forall k :: k in m.vals <==> k in m.keys)
  }

  function Empty<V>(): (r: LinkedMap<V>)
    ensures Valid(r) && r.keys == [] && r.vals == map[]
  {
    LinkedMap([], map[])
  }

  /** `map[k] = v`. */
  function Put<V>(m: LinkedMap<V>, k: Key, v: V): (r: LinkedMap<V>)
    requires Valid(m)
    ensures Valid(r)
    ensures k in r.vals && r.vals[k] == v
    ensures forall x :: x != k ==> (x in r.vals <==> x in m.vals) && (x in m.vals ==> r.vals[x] == m.vals[x])
    ensures k in m.vals ==> r.keys == m.keys
    ensures k !in m.vals ==> r.keys == m.keys + [k]
  {
    if k in m.vals then LinkedMap(m.keys, m.vals[k := v])
    else LinkedMap(m.keys + [k], m.vals[k := v])
  }

  /** The elements of `s` that are not in `drop`, in their order in `s`. */
  function Without(s: seq<Key>, drop: set<Key>): (r: seq<Key>)
    ensures forall x :: x in r <==> x in s && x !in drop
    ensures |r| <= |s|
  {
    if s == [] then []
    else if s[0] in drop then Without(s[1..], drop)
    else [s[0]] + Without(s[1..], drop)
  }

  lemma {:induction false} WithoutDistinct(s: seq<Key>, drop: set<Key>)
    requires Distinct(s)
    ensures Distinct(Without(s, drop))
  {
    if s != [] {
      WithoutDistinct(s[1..], drop);
      assert s[0] !in s[1..];
    }
  }

  lemma {:induction false} WithoutWithout(s: seq<Key>, a: set<Key>, b: set<Key>)
    ensures Without(Without(s, a), b) == Without(s, a + b)
  {
    if s != [] {
      WithoutWithout(s[1..], a, b);
    }
  }

  lemma {:induction false} WithoutNothing(s: seq<Key>)
    ensures Without(s, {}) == s
  {
    if s != [] {
      WithoutNothing(s[1..]);
    }
  }

  /** Dropping an element that does not occur changes nothing. */
  lemma {:induction false} WithoutAbsent(s: seq<Key>, drop: set<Key>, x: Key)
    requires x !in s
    ensures Without(s, drop + {x}) == Without(s, drop)
  {
    if s != [] {
      WithoutAbsent(s[1..], drop, x);
    }
  }

  /** `Without` keeps the order of what it keeps. */
  lemma {:induction false} WithoutOrder(s: seq<Key>, drop: set<Key>, p: int, q: int, a: int, b: int)
    requires Distinct(s) && 0 <= p < q < |Without(s, drop)| && 0 <= a < |s| && 0 <= b < |s|
    requires Without(s, drop)[p] == s[a] && Without(s, drop)[q] == s[b]
    ensures a < b
  {
    var w := Without(s, drop);
    var t := s[1..];
    assert Distinct(t) by {
      forall i | 0 <= i < |t|
        ensures t[i] !in t[..i]
      {
        assert s[..i + 1] == [s[0]] + t[..i];
        assert s[i + 1] == t[i];
      }
    }
    KeptFirst(s, drop, q);
    if a != 0 {
      assert s[a] == t[a - 1] && s[b] == t[b - 1];
      assert s[0] != s[a] && s[0] != s[b] by {
        DistinctAt(s, 0, a);
        DistinctAt(s, 0, b);
      }
      if s[0] in drop {
        WithoutOrder(t, drop, p, q, a - 1, b - 1);
      } else {
        assert w == [s[0]] + Without(t, drop);
        assert p > 0;
        WithoutOrder(t, drop, p - 1, q - 1, a - 1, b - 1);
      }
    }
  }

  /** Only the first element kept can be `s[0]`. */
  lemma KeptFirst(s: seq<Key>, drop: set<Key>, q: int)
    requires Distinct(s) && 0 < q < |Without(s, drop)|
    ensures Without(s, drop)[q] != s[0]
  {
    var w := Without(s, drop);
    if s[0] !in drop {
      assert w[0] == s[0];
      WithoutDistinct(s, drop);
      DistinctAt(w, 0, q);
    }
  }

  /** `map.remove(k)`. */
  function Remove<V>(m: LinkedMap<V>, k: Key): (r: LinkedMap<V>)
    requires Valid(m)
    ensures Valid(r)
    ensures r.vals == m.vals - {k}
    ensures r.keys == Without(m.keys, {k})
  {
    WithoutDistinct(m.keys, {k});
    LinkedMap(Without(m.keys, {k}), m.vals - {k})
  }

  // ---------------------------------------------------------------------
  // A map built by a sequence of `put`s.  An entry `None` stands for a
  // step that puts nothing.

  /** Code that starts from an empty map and, entry by entry, puts the `Some` entries. */
  function FromEntries<V>(es: seq<Option<(Key, V)>>): (r: LinkedMap<V>)
    ensures Valid(r)
  {
    if es == [] then Empty()
    else
      var m := FromEntries(es[..|es| - 1]);
      match es[|es| - 1]
      case None => m
      case Some(e) => Put(m, e.0, e.1)
  }

  /** One more entry: the map before it, with that entry put. */
  lemma FromEntriesSnoc<V>(es: seq<Option<(Key, V)>>, n: int)
    requires 0 <= n < |es|
    ensures es[n].None? ==> FromEntries(es[..n + 1]) == FromEntries(es[..n])
    ensures es[n].Some? ==> FromEntries(es[..n + 1]) == Put(FromEntries(es[..n]), es[n].value.0, es[n].value.1)
  {
    assert es[..n + 1][..n] == es[..n];
  }

  /** Entry `i` puts key `k`. */
  predicate KeyAt<V>(es: seq<Option<(Key, V)>>, i: int, k: Key) {
    0 <= i < |es| && es[i].Some? && es[i].value.0 == k
  }

  lemma KeyAtPrefix<V>(es: seq<Option<(Key, V)>>, n: nat, i: int, k: Key)
    requires n <= |es|
    ensures i < n ==> (KeyAt(es[..n], i, k) <==> KeyAt(es, i, k))
  {
  }

  /** Every entry's key is in the map. */
  lemma {:induction false} FromEntriesHasKey<V>(es: seq<Option<(Key, V)>>, i: int, k: Key)
    requires KeyAt(es, i, k)
    ensures k in FromEntries(es).vals
  {
    var n := |es| - 1;
    if i < n {
      KeyAtPrefix(es, n, i, k);
      FromEntriesHasKey(es[..n], i, k);
    }
  }

  /** Every key in the map was put by some entry. */
  lemma {:induction false} FromEntriesKeyFrom<V>(es: seq<Option<(Key, V)>>, k: Key)
    requires k in FromEntries(es).vals
    ensures exists i :: KeyAt(es, i, k)
  {
    var n := |es| - 1;
    if !KeyAt(es, n, k) {
      var p := es[..n];
      assert k in FromEntries(p).vals;
      FromEntriesKeyFrom(p, k);
      var i :| KeyAt(p, i, k);
      KeyAtPrefix(es, n, i, k);
    }
  }

  /** A key is in the map exactly when some entry puts it. */
  lemma FromEntriesDomain<V>(es: seq<Option<(Key, V)>>, k: Key)
    ensures k in FromEntries(es).vals <==> exists i :: KeyAt(es, i, k)
  {
    if k in FromEntries(es).vals {
      FromEntriesKeyFrom(es, k);
    }
    if i :| KeyAt(es, i, k) {
      FromEntriesHasKey(es, i, k);
    }
  }

  /** The value of a key is the one its last entry puts. */
  lemma {:induction false} FromEntriesLastWins<V>(es: seq<Option<(Key, V)>>, i: int)
    requires 0 <= i < |es| && es[i].Some?
    requires forall j :: i < j < |es| ==> !KeyAt(es, j, es[i].value.0)
    ensures es[i].value.0 in FromEntries(es).vals
    ensures FromEntries(es).vals[es[i].value.0] == es[i].value.1
  {
    var n := |es| - 1;
    if i < n {
      var p := es[..n];
      forall j | i < j < |p|
        ensures !KeyAt(p, j, p[i].value.0)
      {
        KeyAtPrefix(es, n, j, p[i].value.0);
      }
      FromEntriesLastWins(p, i);
      assert !KeyAt(es, n, es[i].value.0);
    }
  }

  /** Every value in the map was put by the last entry for its key. */
  lemma {:induction false} FromEntriesLastPut<V>(es: seq<Option<(Key, V)>>, k: Key)
    requires k in FromEntries(es).vals
    ensures exists i :: KeyAt(es, i, k) && es[i].value.1 == FromEntries(es).vals[k]
                        && forall j :: i < j < |es| ==> !KeyAt(es, j, k)
  {
    var n := |es| - 1;
    var p := es[..n];
    if KeyAt(es, n, k) {
      assert es[n].value.1 == FromEntries(es).vals[k];
    } else {
      assert FromEntries(es).vals[k] == FromEntries(p).vals[k];
      FromEntriesLastPut(p, k);
      var i :| KeyAt(p, i, k) && p[i].value.1 == FromEntries(p).vals[k] && forall j :: i < j < |p| ==> !KeyAt(p, j, k);
      KeyAtPrefix(es, n, i, k);
      NotLaterPrefix(es, p, i, k);
    }
  }

  /** No entry after `i` puts `k` when none does before the last entry and the last one does not. */
  lemma NotLaterPrefix<V>(es: seq<Option<(Key, V)>>, p: seq<Option<(Key, V)>>, i: int, k: Key)
    requires es != [] && p == es[..|es| - 1] && !KeyAt(es, |es| - 1, k)
    requires forall j :: i < j < |p| ==> !KeyAt(p, j, k)
    ensures forall j :: i < j < |es| ==> !KeyAt(es, j, k)
  {
    forall j | i < j < |es| - 1
      ensures !KeyAt(es, j, k)
    {
      KeyAtPrefix(es, |es| - 1, j, k);
    }
  }

  /** Entry `i` is the first to put key `k`. */
  predicate FirstKeyAt<V>(es: seq<Option<(Key, V)>>, i: int, k: Key) {
    KeyAt(es, i, k) && forall j :: 0 <= j < i ==> !KeyAt(es, j, k)
  }

  lemma FirstKeyAtPrefix<V>(es: seq<Option<(Key, V)>>, n: nat, i: int, k: Key)
    requires i < n <= |es|
    ensures FirstKeyAt(es[..n], i, k) <==> FirstKeyAt(es, i, k)
  {
    forall j | 0 <= j < i {
      KeyAtPrefix(es, n, j, k);
    }
    KeyAtPrefix(es, n, i, k);
  }

  /** A key already in the map was first put before the last entry. */
  lemma FirstKeyBeforeLast<V>(es: seq<Option<(Key, V)>>, i: int, k: Key)
    requires es != [] && k in FromEntries(es[..|es| - 1]).vals && FirstKeyAt(es, i, k)
    ensures i < |es| - 1
  {
    var n := |es| - 1;
    FromEntriesDomain(es[..n], k);
    var i' :| KeyAt(es[..n], i', k);
    KeyAtPrefix(es, n, i', k);
  }

  /** Keys are ordered by the entry that first put them. */
  lemma {:induction false} FromEntriesOrder<V>(es: seq<Option<(Key, V)>>, p: int, q: int, i: int, j: int)
    requires 0 <= p < q < |FromEntries(es).keys|
    requires FirstKeyAt(es, i, FromEntries(es).keys[p]) && FirstKeyAt(es, j, FromEntries(es).keys[q])
    ensures i < j
  {
    var n := |es| - 1;
    var pre := es[..n];
    var m, m' := FromEntries(pre), FromEntries(es);
    var kp, kq := m'.keys[p], m'.keys[q];
    assert m'.keys[..|m.keys|] == m.keys;
    assert kp in m.vals by {
      assert m.keys[p] == kp;
    }
    FirstKeyBeforeLast(es, i, kp);
    FirstKeyAtPrefix(es, n, i, kp);
    if q < |m.keys| {
      assert m.keys[q] == kq;
      FirstKeyBeforeLast(es, j, kq);
      FirstKeyAtPrefix(es, n, j, kq);
      FromEntriesOrder(pre, p, q, i, j);
    } else {
      // `kq` is the key the last entry puts for the first time.
      assert kq !in m.vals;
      FromEntriesDomain(pre, kq);
      if j < n {
        KeyAtPrefix(es, n, j, kq);
      }
    }
  }
}
