/**
 A Python `dict` with string keys, as the scripts use it: an insertion-ordered
 sequence of key/value entries in which no key occurs twice. Iterating with
 `.items()` walks the sequence from the front; `key in d`, `d[key]` and
 `d[key] = value` are HasKey, Get and Put.
 */
module Dicts {

  /** The key of the entry at position i. */
  function KeyAt<V>(d: seq<(string, V)>, i: nat): string
    requires i < |d|
  {
    d[i].0
  }

  /** No key occurs in two entries. */
  predicate DistinctKeys<V>(d: seq<(string, V)>) {
    forall i, j | 0 <= i < j < |d| :: KeyAt(d, i) != KeyAt(d, j)
  }

  type Dict<V> = d: seq<(string, V)> | DistinctKeys(d) witness []

  /** `key in d` */
  predicate HasKey<V>(d: seq<(string, V)>, key: string) {
    exists i | 0 <= i < |d| :: d[i].0 == key
  }

  /** The position of the first entry with the given key. */
  function IndexOf<V>(d: seq<(string, V)>, key: string): (i: nat)
    requires HasKey(d, key)
    ensures i < |d| && d[i].0 == key
    ensures forall j | 0 <= j < i :: d[j].0 != key
    decreases |d|
  {
    if d[0].0 == key then 0
    else
      assert HasKey(d[1..], key) by {
        var i :| 0 <= i < |d| && d[i].0 == key;
        assert d[1..][i - 1].0 == key;
      }
      1 + IndexOf(d[1..], key)
  }

  /** `d[key]`, defined only when the key is present (Python raises KeyError otherwise). */
  function Get<V>(d: seq<(string, V)>, key: string): V
    requires HasKey(d, key)
  {
    d[IndexOf(d, key)].1
  }

  /** In a dict, looking a key up gives a value exactly when that key/value pair is one of its entries. */
  lemma LookupIffEntry<V>(d: Dict<V>, key: string, value: V)
    ensures (HasKey(d, key) && Get(d, key) == value) <==> (key, value) in d
  {
    if (key, value) in d {
      var j :| 0 <= j < |d| && d[j] == (key, value);
      assert HasKey(d, key);
      var i := IndexOf(d, key);
      assert KeyAt(d, i) == KeyAt(d, j);
    }
  }

  /** `d[key] = value`: an existing key keeps its place and gets the new value; a new key is appended. */
  function Put<V>(d: Dict<V>, key: string, value: V): (r: Dict<V>)
    ensures !HasKey(d, key) ==> r == d + [(key, value)]
    ensures HasKey(d, key) ==> r == d[IndexOf(d, key) := (key, value)]
  {
    var r := if HasKey(d, key) then d[IndexOf(d, key) := (key, value)] else d + [(key, value)];
    assert forall i | 0 <= i < |d| :: r[i].0 == d[i].0;
    assert DistinctKeys(r) by {
      forall i, j | 0 <= i < j < |r| ensures KeyAt(r, i) != KeyAt(r, j) {
        if j < |d| {
          assert KeyAt(d, i) != KeyAt(d, j);
        } else {
          assert KeyAt(r, i) == KeyAt(d, i);
        }
      }
    }
    r
  }

  /** After `d[key] = value`, looking the key up gives the value. */
  lemma GetAfterPut<V>(d: Dict<V>, key: string, value: V)
    ensures HasKey(Put(d, key, value), key) && Get(Put(d, key, value), key) == value
  {
    var r := Put(d, key, value);
    if HasKey(d, key) {
      assert r[IndexOf(d, key)] == (key, value);
    } else {
      assert r[|d|] == (key, value);
    }
    LookupIffEntry(r, key, value);
  }

  /** Assigning one key leaves every other key's presence and value as they were. */
  lemma PutKeepsOthers<V>(d: Dict<V>, key: string, value: V)
    ensures forall k | k != key :: HasKey(Put(d, key, value), k) == HasKey(d, k)
    ensures forall k | k != key && HasKey(d, k) :: Get(Put(d, key, value), k) == Get(d, k)
  {
    var r := Put(d, key, value);
    forall k | k != key
      ensures HasKey(r, k) == HasKey(d, k)
      ensures HasKey(d, k) ==> Get(r, k) == Get(d, k)
    {
      if HasKey(r, k) {
        var i :| 0 <= i < |r| && r[i].0 == k;
        assert d[i].0 == k;
      }
      if HasKey(d, k) {
        LookupIffEntry(d, k, Get(d, k));
        var j :| 0 <= j < |d| && d[j] == (k, Get(d, k));
        assert r[j] == d[j];
        LookupIffEntry(r, k, Get(d, k));
      }
    }
  }
}
