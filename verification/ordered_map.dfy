/** JavaScript `Map` (and plain-object) insertion semantics as an explicit
    association list: a key keeps the position of its first insertion, and a
    later `set` of the same key replaces only its value. */
module OrderedMap {
  import opened Wrappers

  datatype Entry<K, V> = Entry(key: K, value: V)

  function Keys<K, V>(m: seq<Entry<K, V>>): (ks: seq<K>)
    ensures |ks| == |m| && forall i :: 0 <= i < |m| ==> ks[i] == m[i].key
  {
    seq(|m|, i requires 0 <= i < |m| => m[i].key)
  }

  /** `Array.from(map.values())`: the values in key order. */
  function Values<K, V>(m: seq<Entry<K, V>>): (vs: seq<V>)
    ensures |vs| == |m| && forall i :: 0 <= i < |m| ==> vs[i] == m[i].value
  {
    seq(|m|, i requires 0 <= i < |m| => m[i].value)
  }

  predicate HasKey<K(==), V>(m: seq<Entry<K, V>>, k: K) {
    exists i :: 0 <= i < |m| && m[i].key == k
  }

  ghost predicate DistinctKeys<K, V>(m: seq<Entry<K, V>>) {
    forall i, j :: 0 <= i < j < |m| ==> m[i].key != m[j].key
  }

  /** The position of key `k`, if it is present: the first entry holding it. */
  function IndexOf<K(==), V>(m: seq<Entry<K, V>>, k: K): (r: Option<nat>)
    ensures r.Some? ==> r.value < |m| && m[r.value].key == k
    ensures r.Some? ==> forall j :: 0 <= j < r.value ==> m[j].key != k
    ensures r.None? <==> !HasKey(m, k)
    decreases |m|
  {
    if |m| == 0 then None
    else if m[0].key == k then Some(0)
    else
      match IndexOf(m[1..], k)
      case Some(i) =>
        assert forall j :: 1 <= j <= i ==> m[j] == m[1..][j - 1];
        Some(i + 1)
      case None =>
        assert forall j :: 1 <= j < |m| ==> m[j] == m[1..][j - 1];
        None
  }

  /** `map.get(k)`: the value stored under `k`, if any. */
  function Get<K(==), V>(m: seq<Entry<K, V>>, k: K): (r: Option<V>)
    ensures r.None? <==> !HasKey(m, k)
  {
    match IndexOf(m, k)
    case Some(i) => Some(m[i].value)
    case None => None
  }

  /** In a map without repeated keys, the lookup of a stored key finds its own entry. */
  lemma GetEntry<K, V>(m: seq<Entry<K, V>>, i: nat)
    requires DistinctKeys(m) && i < |m|
    ensures Get(m, m[i].key) == Some(m[i].value)
  {
    var r := IndexOf(m, m[i].key);
    assert r.Some?;
    assert !(r.value < i) && !(i < r.value);
  }

  /** Lookups see only the keys: maps with the same keys find each key at the same position. */
  lemma IndexOfKeys<K, V>(m: seq<Entry<K, V>>, m': seq<Entry<K, V>>, k: K)
    requires Keys(m) == Keys(m')
    ensures IndexOf(m, k) == IndexOf(m', k)
  {
    assert |m| == |Keys(m)| == |m'|;
    assert forall j :: 0 <= j < |m| ==> m[j].key == Keys(m)[j] == m'[j].key;
    var a, b := IndexOf(m, k), IndexOf(m', k);
    if a.Some? && b.Some? {
      assert !(a.value < b.value) && !(b.value < a.value);
    }
  }

  /** `map.set(k, v)`: an existing key keeps its position and takes the new
      value; a new key is appended after all existing ones. */
  function Set<K(==,!new), V>(m: seq<Entry<K, V>>, k: K, v: V): (r: seq<Entry<K, V>>)
    ensures Get(r, k) == Some(v)
    ensures forall k' :: k' != k ==> Get(r, k') == Get(m, k')
    ensures HasKey(m, k) ==> Keys(r) == Keys(m)
    ensures !HasKey(m, k) ==> r == m + [Entry(k, v)]
    ensures DistinctKeys(m) ==> DistinctKeys(r)
  {
    match IndexOf(m, k)
    case Some(i) =>
      var r := m[i := Entry(k, v)];
      assert Keys(r) == Keys(m);
      forall k' | k' != k
        ensures Get(r, k') == Get(m, k')
      {
        IndexOfKeys(r, m, k');
        assert IndexOf(m, k') != Some(i);
      }
      IndexOfKeys(r, m, k);
      r
    case None =>
      var r := m + [Entry(k, v)];
      assert IndexOf(r, k) == Some(|m|) by {
        assert r[|m|].key == k;
        assert forall j :: 0 <= j < |m| ==> r[j] == m[j];
      }
      forall k' | k' != k
        ensures Get(r, k') == Get(m, k')
      {
        PrefixIndexOf(m, [Entry(k, v)], k');
      }
      r
  }

  /** After `set(k, v)` the keys are the old keys and `k`. */
  lemma SetHasKey<K(!new), V>(m: seq<Entry<K, V>>, k: K, v: V, k': K)
    ensures HasKey(Set(m, k, v), k') <==> k' == k || HasKey(m, k')
  {
    if k' != k {
      assert Get(Set(m, k, v), k') == Get(m, k');
    }
  }

  /** Appending entries with other keys does not move the lookup of `k`. */
  lemma PrefixIndexOf<K, V>(m: seq<Entry<K, V>>, extra: seq<Entry<K, V>>, k: K)
    requires forall j :: 0 <= j < |extra| ==> extra[j].key != k
    ensures IndexOf(m + extra, k) == IndexOf(m, k)
  {
    var a, b := IndexOf(m + extra, k), IndexOf(m, k);
    assert forall j :: 0 <= j < |m| ==> (m + extra)[j] == m[j];
    assert forall j :: |m| <= j < |m + extra| ==> (m + extra)[j] == extra[j - |m|];
    if a.Some? && b.Some? {
      assert !(a.value < b.value) && !(b.value < a.value);
    }
  }
}
