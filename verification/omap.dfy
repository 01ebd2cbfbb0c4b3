/**
 * JavaScript `Map` with insertion order, as an association list: `set` on
 * an existing key keeps its position, on a new key appends; `delete`
 * removes the entry and keeps the order of the others.
 */
module OrderedMaps {
  import opened Wrappers

  datatype Entry<K, V> = Entry(key: K, val: V)

  type OMap<K, V> = seq<Entry<K, V>>

  function MapKeys<K, V>(m: OMap<K, V>): seq<K> {
    if m == [] then [] else [m[0].key] + MapKeys(m[1..])
  }

  function MapValues<K, V>(m: OMap<K, V>): (r: seq<V>)
    ensures |r| == |m|
    ensures forall i :: 0 <= i < |m| ==> r[i] == m[i].val
  {
    seq(|m|, i requires 0 <= i < |m| => m[i].val)
  }

  predicate UniqueMapKeys<K(==,!new), V>(m: OMap<K, V>) {
    m == [] || (m[0].key !in MapKeys(m[1..]) && UniqueMapKeys(m[1..]))
  }

  /** `map.get(k)`, `None` for a missing key. */
  function MapGet<K(==,!new), V>(m: OMap<K, V>, k: K): (r: Option<V>)
    ensures r.Some? <==> k in MapKeys(m)
    ensures r.Some? ==> Entry(k, r.value) in m
  {
    if m == [] then None
    else if m[0].key == k then Some(m[0].val)
    else MapGet(m[1..], k)
  }

  /** `map.set(k, v)`. */
  function MapSet<K(==,!new), V>(m: OMap<K, V>, k: K, v: V): (r: OMap<K, V>)
    ensures MapGet(r, k) == Some(v)
    ensures forall k' :: k' != k ==> MapGet(r, k') == MapGet(m, k')
    ensures k in MapKeys(m) ==> MapKeys(r) == MapKeys(m)
    ensures k !in MapKeys(m) ==> MapKeys(r) == MapKeys(m) + [k]
    ensures UniqueMapKeys(m) ==> UniqueMapKeys(r)
    ensures |r| == if k in MapKeys(m) then |m| else |m| + 1
  {
    if m == [] then [Entry(k, v)]
    else if m[0].key == k then [Entry(k, v)] + m[1..]
    else
      var rest := MapSet(m[1..], k, v);
      Cons(m[0], rest);
      Cons(m[0], m[1..]);
      [m[0]] + rest
  }

  /** Keys, lookup and uniqueness of a map with one entry put in front. */
  lemma Cons<K(!new), V>(e: Entry<K, V>, m: OMap<K, V>)
    ensures MapKeys([e] + m) == [e.key] + MapKeys(m)
    ensures forall k :: MapGet([e] + m, k) == if k == e.key then Some(e.val) else MapGet(m, k)
    ensures UniqueMapKeys([e] + m) <==> e.key !in MapKeys(m) && UniqueMapKeys(m)
  {
    assert ([e] + m)[1..] == m;
  }

  /** Setting a key adds no entry other than the one set. */
  lemma {:induction false} SetEntries<K(!new), V>(m: OMap<K, V>, k: K, v: V)
    ensures forall e :: e in MapSet(m, k, v) ==> e == Entry(k, v) || e in m
  {
    if m != [] && m[0].key != k {
      SetEntries(m[1..], k, v);
    }
  }

  /** Appending an entry appends its key. */
  lemma {:induction false} AppendKeys<K, V>(m: OMap<K, V>, e: Entry<K, V>)
    ensures MapKeys(m + [e]) == MapKeys(m) + [e.key]
  {
    if m != [] {
      assert (m + [e])[1..] == m[1..] + [e];
      AppendKeys(m[1..], e);
    }
  }

  /** `map.delete(k)`. */
  function MapDelete<K(==,!new), V>(m: OMap<K, V>, k: K): (r: OMap<K, V>)
    ensures MapGet(r, k) == None
    ensures forall k' :: k' != k ==> MapGet(r, k') == MapGet(m, k')
    ensures UniqueMapKeys(m) ==> UniqueMapKeys(r)
    ensures |r| <= |m|
    ensures k in MapKeys(m) ==> |r| < |m|
  {
    if m == [] then []
    else if m[0].key == k then MapDelete(m[1..], k)
    else
      var rest := MapDelete(m[1..], k);
      assert ([m[0]] + rest)[1..] == rest;
      assert MapGet(rest, m[0].key) == MapGet(m[1..], m[0].key);
      [m[0]] + rest
  }

  /** `new Map([...m, ...n])`: the entries of `n` set, in order, over `m`. */
  function MapSetAll<K(==,!new), V>(m: OMap<K, V>, n: OMap<K, V>): (r: OMap<K, V>)
    ensures UniqueMapKeys(m) ==> UniqueMapKeys(r)
    decreases |n|
  {
    if n == [] then m else MapSetAll(MapSet(m, n[0].key, n[0].val), n[1..])
  }

  lemma {:induction false} KeysLength<K, V>(m: OMap<K, V>)
    ensures |MapKeys(m)| == |m|
  {
    if m != [] {
      KeysLength(m[1..]);
    }
  }

  /** The keys of a map read in order are its entries' keys. */
  lemma {:induction false} KeysAt<K, V>(m: OMap<K, V>, i: nat)
    requires i < |m|
    ensures |MapKeys(m)| == |m| && MapKeys(m)[i] == m[i].key
  {
    KeysLength(m);
    if i > 0 {
      KeysAt(m[1..], i - 1);
    }
  }

  /** After merging two maps every key of either is present, and a key of the second reads as in the second. */
  lemma {:induction false} SetAllGet<K(!new), V>(m: OMap<K, V>, n: OMap<K, V>, k: K)
    requires UniqueMapKeys(n)
    ensures MapGet(MapSetAll(m, n), k) == if k in MapKeys(n) then MapGet(n, k) else MapGet(m, k)
    decreases |n|
  {
    if n != [] {
      SetAllGet(MapSet(m, n[0].key, n[0].val), n[1..], k);
    }
  }

  /** Setting a new key appends its entry at the end. */
  lemma {:induction false} SetNewAppends<K(!new), V>(m: OMap<K, V>, k: K, v: V)
    requires k !in MapKeys(m)
    ensures MapSet(m, k, v) == m + [Entry(k, v)]
  {
    if m != [] {
      SetNewAppends(m[1..], k, v);
    }
  }

  /** In a map with distinct keys, no entry's key occurs among the keys before it. */
  lemma {:induction false} KeyNotBefore<K(!new), V>(n: OMap<K, V>, j: nat)
    requires UniqueMapKeys(n) && j < |n|
    ensures n[j].key !in MapKeys(n[..j])
  {
    if j > 0 {
      KeyNotBefore(n[1..], j - 1);
      KeysAt(n[1..], j - 1);
      assert n[..j] == [n[0]] + n[1..][..j - 1];
    }
  }

  /** Copying the rest of a map with distinct keys into its own prefix rebuilds the map. */
  lemma {:induction false} SetAllRebuilds<K(!new), V>(n: OMap<K, V>, j: nat)
    requires UniqueMapKeys(n) && j <= |n|
    ensures MapSetAll(n[..j], n[j..]) == n
    decreases |n| - j
  {
    if j < |n| {
      KeyNotBefore(n, j);
      SetNewAppends(n[..j], n[j].key, n[j].val);
      assert n[..j] + [n[j]] == n[..j + 1];
      assert n[j..][1..] == n[j + 1..];
      SetAllRebuilds(n, j + 1);
    } else {
      assert n[..j] == n;
    }
  }

  /** A map with distinct keys copied into an empty map is unchanged. */
  lemma SetAllIntoEmpty<K(!new), V>(n: OMap<K, V>)
    requires UniqueMapKeys(n)
    ensures MapSetAll([], n) == n
  {
    SetAllRebuilds(n, 0);
    assert n[..0] == [] && n[0..] == n;
  }

  /** Two maps whose entries have the same keys in the same order have the same key list, and so the same uniqueness. */
  lemma {:induction false} SameKeysUnique<K(!new), V, W>(a: OMap<K, V>, b: OMap<K, W>)
    requires |a| == |b| && forall i :: 0 <= i < |a| ==> a[i].key == b[i].key
    ensures MapKeys(a) == MapKeys(b)
    ensures UniqueMapKeys(a) <==> UniqueMapKeys(b)
  {
    if a != [] {
      SameKeysUnique(a[1..], b[1..]);
    }
  }
}
