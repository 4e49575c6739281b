/**
 The few Python values the demos rely on: `None`-able values, truthiness of
 optional strings, and the built-in `dict`, which remembers the order in which
 its keys were first inserted.
 */
module Python {

  datatype Option<T> = None | Some(value: T)

  /** `bool(x)` for a value that is either `None` or a `str`: only a non-empty string is true. */
  predicate Truthy(x: Option<string>) {
    x.Some? && x.value != ""
  }

  /** A `dict` as the sequence of its items, in insertion order. */
  type Dict<K, V> = seq<(K, V)>

  /** `list(d.keys())` */
  function Keys<K, V>(d: Dict<K, V>): (ks: seq<K>)
    ensures |ks| == |d|
    ensures forall i :: 0 <= i < |d| ==> ks[i] == d[i].0
  {
    seq(|d|, i requires 0 <= i < |d| => d[i].0)
  }

  /** No element occurs twice: the keys of every real `dict`. */
  predicate Distinct<T(==)>(s: seq<T>) {
    forall i, j :: 0 <= i < j < |s| ==> s[i] != s[j]
  }

  /** `d.get(k)`: the value stored under `k`, if any. */
  function Get<K(==), V>(d: Dict<K, V>, k: K): Option<V> {
    if d == [] then None
    else if d[0].0 == k then Some(d[0].1)
    else Get(d[1..], k)
  }

  /** `d.get(k)` finds a value exactly when `k` is a key, and then it is the value stored with `k`. */
  lemma {:induction false} GetFound<K, V>(d: Dict<K, V>, k: K)
    ensures Get(d, k).Some? <==> k in Keys(d)
    ensures Get(d, k).Some? ==> (k, Get(d, k).value) in d
  {
    if d != [] {
      KeysCons(d[0], d[1..]);
      if d[0].0 != k {
        GetFound(d[1..], k);
        assert forall item :: item in d[1..] ==> item in d;
      }
    }
  }

  /**
   `d[k] = v`: a key already present keeps its position and takes the new
   value; a new key is appended at the end.
   */
  function Store<K(==), V>(d: Dict<K, V>, k: K, v: V): (r: Dict<K, V>)
    ensures |d| <= |r| <= |d| + 1
    ensures (k, v) in r
  {
    if d == [] then [(k, v)]
    else if d[0].0 == k then [(k, v)] + d[1..]
    else [d[0]] + Store(d[1..], k, v)
  }

  /** `d[k] = v` leaves the keys as they were when `k` is present, and appends `k` otherwise. */
  lemma {:induction false} StoreKeys<K, V>(d: Dict<K, V>, k: K, v: V)
    ensures Keys(Store(d, k, v)) == if k in Keys(d) then Keys(d) else Keys(d) + [k]
  {
    if d != [] {
      KeysCons(d[0], d[1..]);
      if d[0].0 == k {
        KeysCons((k, v), d[1..]);
      } else {
        StoreKeys(d[1..], k, v);
        KeysCons(d[0], Store(d[1..], k, v));
      }
    }
  }

  /** After `d[k] = v` every entry is an old entry or the new one. */
  lemma {:induction false} StoreEntries<K, V>(d: Dict<K, V>, k: K, v: V)
    ensures forall item :: item in Store(d, k, v) ==> item in d || item == (k, v)
  {
    if d != [] && d[0].0 != k {
      StoreEntries(d[1..], k, v);
      assert forall item :: item in d[1..] ==> item in d;
    }
  }

  lemma KeysCons<K, V>(item: (K, V), d: Dict<K, V>)
    ensures Keys([item] + d) == [item.0] + Keys(d)
  {
  }

  /** After `d[k] = v`, `d.get(k)` is `v` and every other key reads as before. */
  lemma {:induction false} StoreGet<K, V>(d: Dict<K, V>, k: K, v: V, k': K)
    ensures Get(Store(d, k, v), k') == if k' == k then Some(v) else Get(d, k')
  {
    if d != [] && d[0].0 != k {
      StoreGet(d[1..], k, v, k');
      assert Store(d, k, v)[1..] == Store(d[1..], k, v);
    }
  }

  /** Storing into a dict never creates a duplicate key. */
  lemma {:induction false} StoreKeepsKeysDistinct<K, V>(d: Dict<K, V>, k: K, v: V)
    requires Distinct(Keys(d))
    ensures Distinct(Keys(Store(d, k, v)))
  {
    StoreKeys(d, k, v);
    var ks := Keys(Store(d, k, v));
    if k !in Keys(d) {
      forall i, j | 0 <= i < j < |ks| ensures ks[i] != ks[j] {
        if j == |ks| - 1 {
          assert ks[i] == Keys(d)[i];
        } else {
          assert ks[i] == Keys(d)[i] && ks[j] == Keys(d)[j];
        }
      }
    }
  }

  /**
   The dict left by `d[k] = v` for each item `(k, v)` of `items` in turn,
   starting from `{}` (what `dict(items)` builds).
   */
  function FromItems<K(==), V>(items: seq<(K, V)>): (d: Dict<K, V>)
    ensures |d| <= |items|
    ensures Distinct(Keys(d))
  {
    if items == [] then []
    else
      var n := |items| - 1;
      var before := FromItems(items[..n]);
      StoreKeepsKeysDistinct(before, items[n].0, items[n].1);
      StoreKeys(before, items[n].0, items[n].1);
      Store(before, items[n].0, items[n].1)
  }

  /** Building from one more item stores that item into the dict built so far. */
  lemma FromItemsStep<K, V>(items: seq<(K, V)>, i: nat)
    requires i < |items|
    ensures FromItems(items[..i + 1]) == Store(FromItems(items[..i]), items[i].0, items[i].1)
  {
    var longer := items[..i + 1];
    assert longer[..i] == items[..i] && longer[i] == items[i];
  }

  /** The position of the first occurrence of `x` in `s`. */
  function FirstIndex<T(==)>(s: seq<T>, x: T): (k: nat)
    requires x in s
    ensures k < |s| && s[k] == x
    ensures forall j :: 0 <= j < k ==> s[j] != x
  {
    if s[0] == x then 0 else 1 + FirstIndex(s[1..], x)
  }

  /** `ks` lists elements of `seen` in the order of their first occurrence in `seen`. */
  predicate InFirstSeenOrder<T(==)>(ks: seq<T>, seen: seq<T>) {
    forall i, j :: 0 <= i < j < |ks| ==>
      && ks[i] in seen && ks[j] in seen
      && FirstIndex(seen, ks[i]) < FirstIndex(seen, ks[j])
  }

  lemma FirstIndexExtend<T>(s: seq<T>, y: T, x: T)
    requires x in s
    ensures FirstIndex(s + [y], x) == FirstIndex(s, x)
  {
    var k := FirstIndex(s, x);
    assert (s + [y])[k] == x;
  }

  /** Appending one more seen element keeps the order of first occurrences, with a new element last. */
  lemma FirstSeenOrderStep<T>(ks: seq<T>, seen: seq<T>, y: T)
    requires InFirstSeenOrder(ks, seen)
    requires forall x :: x in ks <==> x in seen
    ensures InFirstSeenOrder(if y in ks then ks else ks + [y], seen + [y])
  {
    var ks' := if y in ks then ks else ks + [y];
    var seen' := seen + [y];
    forall x | x in seen ensures FirstIndex(seen', x) == FirstIndex(seen, x) {
      FirstIndexExtend(seen, y, x);
    }
    forall i, j | 0 <= i < j < |ks'|
      ensures ks'[i] in seen' && ks'[j] in seen' && FirstIndex(seen', ks'[i]) < FirstIndex(seen', ks'[j])
    {
      assert ks'[i] == ks[i];
      if j < |ks| {
        assert ks'[j] == ks[j];
      } else {
        assert ks'[j] == y && y !in seen;
        assert FirstIndex(seen', y) == |seen|;
      }
    }
  }

  /** The keys of the built dict are exactly the keys of the items. */
  lemma {:induction false} FromItemsKeys<K, V>(items: seq<(K, V)>)
    ensures forall k :: k in Keys(FromItems(items)) <==> k in Keys(items)
  {
    if items != [] {
      var n := |items| - 1;
      FromItemsKeys(items[..n]);
      StoreKeys(FromItems(items[..n]), items[n].0, items[n].1);
      assert Keys(items) == Keys(items[..n]) + [items[n].0];
    }
  }

  /** The keys of the built dict come in the order in which each key first occurs among the items. */
  lemma {:induction false} FromItemsOrder<K, V>(items: seq<(K, V)>)
    ensures InFirstSeenOrder(Keys(FromItems(items)), Keys(items))
  {
    if items != [] {
      var n := |items| - 1;
      FromItemsOrder(items[..n]);
      FromItemsKeys(items[..n]);
      StoreKeys(FromItems(items[..n]), items[n].0, items[n].1);
      assert Keys(items) == Keys(items[..n]) + [items[n].0];
      FirstSeenOrderStep(Keys(FromItems(items[..n])), Keys(items[..n]), items[n].0);
    }
  }

  /** No later item has the key of item `i`. */
  predicate LastWithKey<K(==), V>(items: seq<(K, V)>, i: nat)
    requires i < |items|
  {
    forall j :: i < j < |items| ==> items[j].0 != items[i].0
  }

  lemma LastWithKeyPrefix<K, V>(items: seq<(K, V)>, n: nat, i: nat)
    requires i < n <= |items| && LastWithKey(items, i)
    ensures items[..n][i] == items[i] && LastWithKey(items[..n], i)
  {
    var prefix := items[..n];
    forall j | i < j < |prefix| ensures prefix[j].0 != prefix[i].0 {
      assert prefix[j] == items[j];
    }
  }

  /** Under each key the built dict holds the value of the last item with that key. */
  lemma {:induction false} FromItemsLastWins<K, V>(items: seq<(K, V)>, i: nat)
    requires i < |items| && LastWithKey(items, i)
    ensures Get(FromItems(items), items[i].0) == Some(items[i].1)
  {
    var n := |items| - 1;
    var prefix := items[..n];
    var before := FromItems(prefix);
    assert FromItems(items) == Store(before, items[n].0, items[n].1);
    StoreGet(before, items[n].0, items[n].1, items[i].0);
    if i < n {
      assert items[n].0 != items[i].0;
      LastWithKeyPrefix(items, n, i);
      FromItemsLastWins(prefix, i);
    }
  }

  /** Every entry of the built dict is one of the items. */
  lemma {:induction false} FromItemsEntries<K, V>(items: seq<(K, V)>)
    ensures forall item :: item in FromItems(items) ==> item in items
  {
    if items != [] {
      var n := |items| - 1;
      var before := FromItems(items[..n]);
      FromItemsEntries(items[..n]);
      StoreEntries(before, items[n].0, items[n].1);
      forall item | item in FromItems(items) ensures item in items {
        assert item in before || item == items[n];
        if item in before {
          var j :| 0 <= j < n && items[..n][j] == item;
          assert items[j] == item;
        }
      }
    }
  }
}
