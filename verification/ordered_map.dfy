/** An insertion-ordered map, the part of a Laravel `Collection` keyed by
    column names that the tenancy core relies on: `put` overwrites in place,
    `has` and lookup by key, `first`, and `only`. */
module OrderedMap {
  import opened Wrappers

  /** Entries in insertion order. */
  type Assoc<K, V> = seq<(K, V)>

  function Keys<K, V>(t: Assoc<K, V>): (ks: seq<K>)
    ensures |ks| == |t|
    ensures forall i :: 0 <= i < |t| ==> ks[i] == t[i].0
  {
    seq(|t|, i requires 0 <= i < |t| => t[i].0)
  }

  /** No key occurs twice (a PHP array cannot hold a key twice). */
  predicate UniqueKeys<K(==), V>(t: Assoc<K, V>) {
    forall i, j :: 0 <= i < j < |t| ==> t[i].0 != t[j].0
  }

  /** The value stored under `k`, if any: the earliest entry with that key. */
  function Get<K(==), V>(t: Assoc<K, V>, k: K): (r: Option<V>)
  {
    if |t| == 0 then None
    else if t[0].0 == k then Some(t[0].1)
    else Get(t[1..], k)
  }

  /** `Collection::first()`: the value of the earliest entry. */
  function First<K, V>(t: Assoc<K, V>): Option<V>
  {
    if |t| == 0 then None else Some(t[0].1)
  }

  /** `Collection::put()`: overwrite the value of an existing key where it
      stands, or append a new entry at the end. */
  function Put<K(==), V>(t: Assoc<K, V>, k: K, v: V): Assoc<K, V>
  {
    if |t| == 0 then [(k, v)]
    else if t[0].0 == k then [(k, v)] + t[1..]
    else [t[0]] + Put(t[1..], k, v)
  }

  /** `Collection::only()`: the entries whose key is listed in `keys`, in the
      order of `t` (not of `keys`). */
  function Only<K(==), V>(t: Assoc<K, V>, keys: seq<K>): Assoc<K, V>
  {
    if |t| == 0 then []
    else if t[0].0 in keys then [t[0]] + Only(t[1..], keys)
    else Only(t[1..], keys)
  }

  /** `s` is `t` with some entries dropped and the rest kept in order. */
  ghost predicate Subsequence<T>(s: seq<T>, t: seq<T>)
    decreases |t|
  {
    || |s| == 0
    || (|t| > 0 && ((s[0] == t[0] && Subsequence(s[1..], t[1..])) || Subsequence(s, t[1..])))
  }

  lemma KeysCons<K, V>(e: (K, V), t: Assoc<K, V>)
    ensures Keys([e] + t) == [e.0] + Keys(t)
  {
  }

  /** A lookup finds a value exactly for the keys present, and what it finds
      is an entry of the map. */
  lemma {:induction false} GetPresent<K, V>(t: Assoc<K, V>, k: K)
    ensures Get(t, k).Some? <==> k in Keys(t)
    ensures Get(t, k).Some? ==> (k, Get(t, k).value) in t
  {
    if |t| > 0 {
      var ks := Keys(t);
      assert ks[0] == t[0].0;
      if t[0].0 != k {
        GetPresent(t[1..], k);
        var ks' := Keys(t[1..]);
        assert ks[1..] == ks';
        assert k in ks <==> k in ks';
        if Get(t, k).Some? {
          assert (k, Get(t, k).value) in t[1..];
        }
      }
    }
  }

  /** With unique keys, every entry is what a lookup of its key returns. */
  lemma {:induction false} GetEntry<K, V>(t: Assoc<K, V>, i: int)
    requires UniqueKeys(t)
    requires 0 <= i < |t|
    ensures Get(t, t[i].0) == Some(t[i].1)
    decreases i
  {
    if i > 0 {
      assert t[0].0 != t[i].0;
      assert (t[1..])[i - 1] == t[i];
      GetEntry(t[1..], i - 1);
    }
  }

  /** After `put(k, v)` the key `k` maps to `v` and every other key maps to
      what it mapped to before. */
  lemma {:induction false} PutGet<K, V>(t: Assoc<K, V>, k: K, v: V)
    ensures Get(Put(t, k, v), k) == Some(v)
    ensures forall k' :: k' != k ==> Get(Put(t, k, v), k') == Get(t, k')
  {
    if |t| > 0 && t[0].0 != k {
      PutGet(t[1..], k, v);
    }
  }

  /** Putting the same entry twice is putting it once. */
  lemma {:induction false} PutIdempotent<K, V>(t: Assoc<K, V>, k: K, v: V)
    ensures Put(Put(t, k, v), k, v) == Put(t, k, v)
  {
    if |t| > 0 && t[0].0 != k {
      PutIdempotent(t[1..], k, v);
    }
  }

  /** `put` of a present key keeps the key sequence, positions included;
      `put` of a new key appends it at the end. */
  lemma {:induction false} PutKeys<K, V>(t: Assoc<K, V>, k: K, v: V)
    ensures k in Keys(t) ==> Keys(Put(t, k, v)) == Keys(t)
    ensures k !in Keys(t) ==> Keys(Put(t, k, v)) == Keys(t) + [k]
  {
    if |t| > 0 {
      KeysCons(t[0], t[1..]);
      assert t == [t[0]] + t[1..];
      if t[0].0 == k {
        KeysCons((k, v), t[1..]);
      } else {
        PutKeys(t[1..], k, v);
        KeysCons(t[0], Put(t[1..], k, v));
      }
    }
  }

  /** `put` of a new key appends one entry at the end. */
  lemma {:induction false} PutAppends<K, V>(t: Assoc<K, V>, k: K, v: V)
    requires k !in Keys(t)
    ensures Put(t, k, v) == t + [(k, v)]
  {
    if |t| > 0 {
      assert Keys(t)[0] == t[0].0;
      assert Keys(t[1..]) == Keys(t)[1..];
      PutAppends(t[1..], k, v);
      assert t == [t[0]] + t[1..];
    }
  }

  /** Every entry after `put` is the new one or was there before. */
  lemma {:induction false} PutEntries<K, V>(t: Assoc<K, V>, k: K, v: V)
    ensures forall i :: 0 <= i < |Put(t, k, v)| ==> Put(t, k, v)[i] == (k, v) || Put(t, k, v)[i] in t
  {
    if |t| > 0 && t[0].0 != k {
      PutEntries(t[1..], k, v);
      var r := Put(t, k, v);
      forall i | 0 <= i < |r|
        ensures r[i] == (k, v) || r[i] in t
      {
        if i > 0 {
          assert r[i] == Put(t[1..], k, v)[i - 1];
        }
      }
    }
  }

  /** `put` never creates a duplicate key. */
  lemma PutUnique<K, V>(t: Assoc<K, V>, k: K, v: V)
    requires UniqueKeys(t)
    ensures UniqueKeys(Put(t, k, v))
  {
    var r := Put(t, k, v);
    PutKeys(t, k, v);
    assert Keys(r) == Keys(t) || Keys(r) == Keys(t) + [k];
    forall i, j | 0 <= i < j < |r|
      ensures r[i].0 != r[j].0
    {
      assert Keys(r)[i] == r[i].0 && Keys(r)[j] == r[j].0;
      if j == |t| {
        assert k !in Keys(t);
        assert Keys(t)[i] == t[i].0;
      } else {
        assert Keys(t)[i] == t[i].0 && Keys(t)[j] == t[j].0;
      }
    }
  }

  /** Overwriting an existing key never moves the earliest entry: `first`
      keeps the same key, and its value changes only when `k` is that key. */
  lemma PutKeepsFirstKey<K, V>(t: Assoc<K, V>, k: K, v: V)
    requires |t| > 0
    ensures |Put(t, k, v)| > 0
    ensures Put(t, k, v)[0].0 == t[0].0
    ensures First(Put(t, k, v)) == if k == t[0].0 then Some(v) else First(t)
  {
  }

  /** `only(keys)` keeps exactly the listed keys, with their values. */
  lemma {:induction false} OnlyGet<K, V>(t: Assoc<K, V>, keys: seq<K>)
    ensures forall k :: Get(Only(t, keys), k) == if k in keys then Get(t, k) else None
  {
    if |t| > 0 {
      OnlyGet(t[1..], keys);
    }
  }

  /** `only` keeps the order of the map and takes nothing from elsewhere. */
  lemma {:induction false} OnlyOrdered<K, V>(t: Assoc<K, V>, keys: seq<K>)
    ensures Subsequence(Only(t, keys), t)
    ensures forall i :: 0 <= i < |Only(t, keys)| ==> Only(t, keys)[i] in t
  {
    if |t| > 0 {
      var rest := Only(t[1..], keys);
      OnlyOrdered(t[1..], keys);
      if t[0].0 in keys {
        var r := [t[0]] + rest;
        assert r[1..] == rest;
        forall i | 0 <= i < |r|
          ensures r[i] in t
        {
          if i > 0 {
            assert r[i] == rest[i - 1];
          }
        }
      }
    }
  }

  /** `only` never creates a duplicate key. */
  lemma {:induction false} OnlyUnique<K, V>(t: Assoc<K, V>, keys: seq<K>)
    requires UniqueKeys(t)
    ensures UniqueKeys(Only(t, keys))
  {
    if |t| > 0 {
      var rest := Only(t[1..], keys);
      assert UniqueKeys(t[1..]) by {
        forall i, j | 0 <= i < j < |t| - 1
          ensures t[1..][i].0 != t[1..][j].0
        {
          assert t[1..][i] == t[i + 1] && t[1..][j] == t[j + 1];
        }
      }
      OnlyUnique(t[1..], keys);
      if t[0].0 in keys {
        OnlyOrdered(t[1..], keys);
        var r := [t[0]] + rest;
        forall i, j | 0 <= i < j < |r|
          ensures r[i].0 != r[j].0
        {
          assert r[j] == rest[j - 1];
          if i == 0 {
            var m :| 0 <= m < |t[1..]| && t[1..][m] == rest[j - 1];
            assert t[m + 1] == r[j];
          } else {
            assert r[i] == rest[i - 1];
          }
        }
      }
    }
  }
}
