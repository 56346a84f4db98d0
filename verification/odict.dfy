/** A Python `dict`, which remembers insertion order: assigning to an
    existing key keeps its place, a new key goes last, and `pop`/`del`
    remove the entry and close the gap. */
module OrderedDict {
  import opened Wrappers

  datatype Entry<K, V> = Entry(key: K, value: V)

  type Dict<K, V> = seq<Entry<K, V>>

  /** The keys in iteration order. */
  function Keys<K, V>(d: Dict<K, V>): (ks: seq<K>)
    ensures |ks| == |d|
    ensures forall i :: 0 <= i < |d| ==> ks[i] == d[i].key
  {
    if d == [] then [] else [d[0].key] + Keys(d[1..])
  }

  /** No key occurs twice. */
  predicate Valid<K(==), V>(d: Dict<K, V>) {
    d == [] || (d[0].key !in Keys(d[1..]) && Valid(d[1..]))
  }

  /** `d.get(k)`: the value stored under `k`, if any. */
  function Get<K(==), V>(d: Dict<K, V>, k: K): (r: Option<V>)
    ensures r.Some? <==> k in Keys(d)
  {
    if d == [] then None
    else if d[0].key == k then Some(d[0].value)
    else Get(d[1..], k)
  }

  /** `i` is the position of the first entry under `k`. */
  predicate FirstAt<K(==), V>(d: Dict<K, V>, k: K, i: int) {
    0 <= i < |d| && d[i].key == k && forall j :: 0 <= j < i ==> d[j].key != k
  }

  /** A lookup yields the value of the first entry under the key; in a
      dictionary with unique keys, that is the value of every such entry. */
  lemma GetFinds<K, V>(d: Dict<K, V>, k: K)
    ensures Get(d, k).Some? ==> exists i :: FirstAt(d, k, i) && d[i].value == Get(d, k).value
    ensures Valid(d) ==> forall i :: 0 <= i < |d| && d[i].key == k ==> Get(d, k) == Some(d[i].value)
  {
    if Get(d, k).Some? {
      var i := GetFirstEntry(d, k);
    }
    if Valid(d) {
      forall i | 0 <= i < |d| && d[i].key == k
        ensures Get(d, k) == Some(d[i].value)
      {
        GetUnique(d, k, i);
      }
    }
  }

  lemma {:induction false} GetFirstEntry<K, V>(d: Dict<K, V>, k: K) returns (i: nat)
    requires Get(d, k).Some?
    ensures FirstAt(d, k, i) && d[i].value == Get(d, k).value
  {
    if d[0].key == k {
      i := 0;
    } else {
      var i' := GetFirstEntry(d[1..], k);
      i := i' + 1;
      assert d[i] == d[1..][i'];
      forall j | 0 <= j < i ensures d[j].key != k {
        if j > 0 {
          assert d[j] == d[1..][j - 1];
        }
      }
    }
  }

  lemma {:induction false} GetUnique<K, V>(d: Dict<K, V>, k: K, i: nat)
    requires Valid(d) && i < |d| && d[i].key == k
    ensures Get(d, k) == Some(d[i].value)
  {
    if i > 0 {
      assert d[0].key != k by {
        assert Keys(d[1..])[i - 1] == d[1..][i - 1].key == k;
      }
      GetUnique(d[1..], k, i - 1);
    }
  }

  function Put<K(==), V>(d: Dict<K, V>, k: K, v: V): (r: Dict<K, V>)
    ensures |r| == if k in Keys(d) then |d| else |d| + 1
  {
    if d == [] then [Entry(k, v)]
    else if d[0].key == k then [Entry(k, v)] + d[1..]
    else
      assert Keys(d) == [d[0].key] + Keys(d[1..]);
      [d[0]] + Put(d[1..], k, v)
  }

  /** An existing key keeps its place; a new key goes last. */
  lemma {:induction false} PutKeys<K, V>(d: Dict<K, V>, k: K, v: V)
    ensures Keys(Put(d, k, v)) == if k in Keys(d) then Keys(d) else Keys(d) + [k]
  {
    if d != [] {
      var r := Put(d, k, v);
      assert r[1..] == if d[0].key == k then d[1..] else Put(d[1..], k, v);
      assert Keys(r) == [r[0].key] + Keys(r[1..]);
      assert Keys(d) == [d[0].key] + Keys(d[1..]);
      if d[0].key != k {
        PutKeys(d[1..], k, v);
      }
    }
  }

  /** The new value is stored under `k` and every other key keeps its value. */
  lemma {:induction false} PutGet<K, V>(d: Dict<K, V>, k: K, v: V, k': K)
    ensures Get(Put(d, k, v), k') == if k' == k then Some(v) else Get(d, k')
  {
    if d != [] && d[0].key != k {
      var r := Put(d, k, v);
      assert r[0] == d[0] && r[1..] == Put(d[1..], k, v);
      PutGet(d[1..], k, v, k');
    } else if d != [] {
      assert Put(d, k, v)[1..] == d[1..];
    }
  }

  /** Assignment keeps keys unique. */
  lemma {:induction false} PutValid<K, V>(d: Dict<K, V>, k: K, v: V)
    requires Valid(d)
    ensures Valid(Put(d, k, v))
  {
    PutKeys(d, k, v);
    if d != [] {
      var r := Put(d, k, v);
      if d[0].key == k {
        assert r[1..] == d[1..];
      } else {
        assert r[0] == d[0] && r[1..] == Put(d[1..], k, v);
        PutValid(d[1..], k, v);
        PutKeys(d[1..], k, v);
      }
    }
  }

  /** `d[k] = v`: the new value is stored under `k`, every other key keeps
      its value, keys stay unique, and the key order changes only by
      appending a new key. */
  lemma PutSpec<K, V>(d: Dict<K, V>, k: K, v: V)
    ensures Keys(Put(d, k, v)) == if k in Keys(d) then Keys(d) else Keys(d) + [k]
    ensures Get(Put(d, k, v), k) == Some(v)
    ensures forall k' :: k' != k ==> Get(Put(d, k, v), k') == Get(d, k')
    ensures Valid(d) ==> Valid(Put(d, k, v))
  {
    PutKeys(d, k, v);
    PutGet(d, k, v, k);
    forall k' | k' != k
      ensures Get(Put(d, k, v), k') == Get(d, k')
    {
      PutGet(d, k, v, k');
    }
    if Valid(d) {
      PutValid(d, k, v);
    }
  }

  /** The keys of `ks` other than `k`, in order. */
  function Without<K(==,!new)>(ks: seq<K>, k: K): (r: seq<K>)
    ensures forall x :: x in r <==> x in ks && x != k
  {
    if ks == [] then []
    else if ks[0] == k then Without(ks[1..], k)
    else [ks[0]] + Without(ks[1..], k)
  }

  lemma WithoutAbsent<K(!new)>(ks: seq<K>, k: K)
    ensures k !in ks ==> Without(ks, k) == ks
  {
  }

  /** `del d[k]` on a key that is present: every other key keeps its value
      and its place. (Python raises on an absent key; callers check first.) */
  function Remove<K(==,!new), V>(d: Dict<K, V>, k: K): (r: Dict<K, V>)
    ensures forall k' :: k' != k ==> Get(r, k') == Get(d, k')
    ensures Valid(d) ==> Valid(r) && Get(r, k) == None && Keys(r) == Without(Keys(d), k)
    ensures |r| == if k in Keys(d) then |d| - 1 else |d|
  {
    if d == [] then []
    else if d[0].key == k then
      WithoutAbsent(Keys(d[1..]), k);
      d[1..]
    else
      var rest := Remove(d[1..], k);
      var r := [d[0]] + rest;
      assert r[1..] == rest;
      assert Keys(r) == [d[0].key] + Keys(rest);
      r
  }
}
