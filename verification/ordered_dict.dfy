/**
 * Python's `dict` with its insertion order: a sequence of entries with distinct
 * keys. Assigning to a present key replaces its value in place; assigning to a
 * new key appends it.
 */
module OrderedDict {
  import opened Wrappers

  datatype Entry<K, V> = Entry(key: K, value: V)

  function KeySet<K(==), V>(d: seq<Entry<K, V>>): set<K> {
    set i | 0 <= i < |d| :: d[i].key
  }

  predicate DistinctKeys<K(==), V>(d: seq<Entry<K, V>>) {
    forall i, j :: 0 <= i < j < |d| ==> d[i].key != d[j].key
  }

  /** The position of key `k` in `d`. */
  function IndexOf<K(==), V>(d: seq<Entry<K, V>>, k: K): (r: Option<nat>)
    ensures r.Some? ==> r.value < |d| && d[r.value].key == k
    ensures r.None? <==> k !in KeySet(d)
  {
    if |d| == 0 then None
    else
      match IndexOf(d[..|d| - 1], k)
      case Some(i) => Some(i)
      case None =>
        assert KeySet(d) == KeySet(d[..|d| - 1]) + {d[|d| - 1].key};
        if d[|d| - 1].key == k then Some(|d| - 1) else None
  }

  /** `d.get(k)`. */
  function Get<K(==), V>(d: seq<Entry<K, V>>, k: K): (r: Option<V>)
    ensures r.Some? <==> k in KeySet(d)
  {
    match IndexOf(d, k)
    case Some(i) => Some(d[i].value)
    case None => None
  }

  /** In a dict with distinct keys, an entry found at any position is what `Get` returns. */
  lemma GetAt<K, V>(d: seq<Entry<K, V>>, i: nat)
    requires DistinctKeys(d) && i < |d|
    ensures Get(d, d[i].key) == Some(d[i].value)
  {
  }

  /** `d[k] = v`. */
  function Put<K(==), V>(d: seq<Entry<K, V>>, k: K, v: V): (r: seq<Entry<K, V>>)
    requires DistinctKeys(d)
    ensures DistinctKeys(r)
    ensures KeySet(r) == KeySet(d) + {k}
    ensures Get(r, k) == Some(v)
    ensures |d| <= |r| && forall i :: 0 <= i < |d| ==> r[i].key == d[i].key
    ensures k in KeySet(d) ==> |r| == |d|
    ensures k !in KeySet(d) ==> r == d + [Entry(k, v)]
  {
    match IndexOf(d, k)
    case Some(i) =>
      var r := d[i := Entry(k, v)];
      assert KeySet(r) == KeySet(d) by {
        forall x | x in KeySet(d) ensures x in KeySet(r) {
          var j :| 0 <= j < |d| && d[j].key == x;
          assert r[j].key == x;
        }
      }
      GetAt(r, i);
      r
    case None =>
      var r := d + [Entry(k, v)];
      assert KeySet(r) == KeySet(d) + {k} by {
        forall x | x in KeySet(d) ensures x in KeySet(r) {
          var j :| 0 <= j < |d| && d[j].key == x;
          assert r[j].key == x;
        }
        assert r[|d|].key == k;
      }
      GetAt(r, |d|);
      r
  }

  /** Assigning one key leaves the value of every other key as it was. */
  lemma PutOthers<K, V>(d: seq<Entry<K, V>>, k: K, v: V, k': K)
    requires DistinctKeys(d) && k' != k
    ensures Get(Put(d, k, v), k') == Get(d, k')
  {
    var r := Put(d, k, v);
    if k' in KeySet(d) {
      var i :| 0 <= i < |d| && d[i].key == k';
      GetAt(d, i);
      GetAt(r, i);
    }
  }
}
