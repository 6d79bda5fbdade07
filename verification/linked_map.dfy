/** An insertion-ordered map in the manner of `java.util.LinkedHashMap`:
    a sequence of entries with distinct keys, in the order the keys were
    first put. */
module LinkedMap {
  import opened Prelude

  datatype Entry<K, V> = Entry(key: K, value: V)

  type Entries<K, V> = seq<Entry<K, V>>

  /** The keys in iteration order (`keySet()`). */
  function Keys<K, V>(es: Entries<K, V>): (ks: seq<K>)
    ensures |ks| == |es|
    ensures forall i :: 0 <= i < |es| ==> ks[i] == es[i].key
  {
    seq(|es|, i requires 0 <= i < |es| => es[i].key)
  }

  /** No key occurs twice. */
  predicate DistinctKeys<K(==), V>(es: Entries<K, V>)
  {
    forall i, j :: 0 <= i < j < |es| ==> es[i].key != es[j].key
  }

  /** `get`: the value of the first entry with key `k`. */
  function Lookup<K(==), V>(es: Entries<K, V>, k: K): (r: Option<V>)
    ensures r.Some? <==> k in Keys(es)
    decreases |es|
  {
    if |es| == 0 then None
    else if es[0].key == k then Some(es[0].value)
    else
      assert Keys(es) == [es[0].key] + Keys(es[1..]);
      Lookup(es[1..], k)
  }

  /** With distinct keys, the entry at index `i` is what `Lookup` finds. */
  lemma {:induction false} LookupAt<K, V>(es: Entries<K, V>, i: int)
    requires DistinctKeys(es) && 0 <= i < |es|
    ensures Lookup(es, es[i].key) == Some(es[i].value)
    decreases |es|
  {
    if i > 0 {
      assert es[0].key != es[i].key;
      LookupAt(es[1..], i - 1);
    }
  }

  /** `put`: a new key is appended at the end; an existing key keeps its
      position and takes the new value. */
  function Put<K(==), V>(es: Entries<K, V>, k: K, v: V): (r: Entries<K, V>)
    requires DistinctKeys(es)
    ensures DistinctKeys(r)
    ensures k in Keys(r) && Keys(r) == if k in Keys(es) then Keys(es) else Keys(es) + [k]
  {
    if k in Keys(es) then
      var r := seq(|es|, i requires 0 <= i < |es| => if es[i].key == k then Entry(k, v) else es[i]);
      assert Keys(r) == Keys(es);
      r
    else
      var r := es + [Entry(k, v)];
      assert Keys(r) == Keys(es) + [k];
      r
  }

  /** After `put(k, v)`, `get(k)` is `v` and every other key maps as before. */
  lemma PutLookup<K, V>(es: Entries<K, V>, k: K, v: V, k': K)
    requires DistinctKeys(es)
    ensures Lookup(Put(es, k, v), k') == if k' == k then Some(v) else Lookup(es, k')
  {
    var r := Put(es, k, v);
    if k in Keys(es) {
      var j :| 0 <= j < |es| && Keys(es)[j] == k;
      assert r[j] == Entry(k, v);
      LookupAt(r, j);
      if k' != k && k' in Keys(es) {
        var i :| 0 <= i < |es| && Keys(es)[i] == k';
        assert r[i] == es[i];
        LookupAt(r, i);
        LookupAt(es, i);
      }
    } else {
      assert r[|es|] == Entry(k, v);
      LookupAt(r, |es|);
      if k' != k && k' in Keys(es) {
        var i :| 0 <= i < |es| && Keys(es)[i] == k';
        assert r[i] == es[i];
        LookupAt(r, i);
        LookupAt(es, i);
      }
    }
  }
}
