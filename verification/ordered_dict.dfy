/**
 An insertion-ordered dictionary, the model of a Python `dict`: a sequence of
 key/value entries. Assigning to a present key replaces its value in place,
 assigning to an absent key appends an entry at the end, and deleting a key
 drops its entry while keeping the order of the others. Iteration visits the
 entries in sequence order. Keys are strings throughout the model (asset keys
 and item ids).
 */
module OrderedDict {
  import opened Options

  type Dict<V> = seq<(string, V)>

  /** The keys present. */
  function KeySet<V>(d: Dict<V>): set<string>
    decreases |d|
  {
    if |d| == 0 then {} else {d[0].0} + KeySet(d[1..])
  }

  predicate HasKey<V>(d: Dict<V>, k: string) {
    k in KeySet(d)
  }

  /** No key occurs twice: what every Python dict satisfies. */
  predicate UniqueKeys<V>(d: Dict<V>)
    decreases |d|
  {
    |d| == 0 || (!HasKey(d[1..], d[0].0) && UniqueKeys(d[1..]))
  }

  /** `d[k]`: the value of the (first) entry with key `k`. */
  function Get<V>(d: Dict<V>, k: string): (v: V)
    requires HasKey(d, k)
    ensures (k, v) in d
    decreases |d|
  {
    if d[0].0 == k then d[0].1 else Get(d[1..], k)
  }

  /** `d.get(k)`: the value of key `k`, or `None` when `k` is absent. */
  function Lookup<V>(d: Dict<V>, k: string): (r: Option<V>)
    ensures r.Some? <==> HasKey(d, k)
    ensures r.Some? ==> (k, r.value) in d
  {
    if HasKey(d, k) then Some(Get(d, k)) else None
  }

  /** Every entry's key is present. */
  lemma {:induction false} EntryHasKey<V>(d: Dict<V>, e: (string, V))
    requires e in d
    ensures HasKey(d, e.0)
    decreases |d|
  {
    if d[0] != e {
      assert e in d[1..];
      EntryHasKey(d[1..], e);
    }
  }

  /** With unique keys, an entry determines the value `Get` returns. */
  lemma {:induction false} GetUnique<V>(d: Dict<V>, k: string, v: V)
    requires UniqueKeys(d) && (k, v) in d
    ensures HasKey(d, k) && Get(d, k) == v
    decreases |d|
  {
    EntryHasKey(d, (k, v));
    if d[0] != (k, v) {
      assert (k, v) in d[1..];
      EntryHasKey(d[1..], (k, v));
      GetUnique(d[1..], k, v);
    }
  }

  /** `d[k] = v`. */
  function Put<V>(d: Dict<V>, k: string, v: V): (r: Dict<V>)
    ensures KeySet(r) == KeySet(d) + {k}
    ensures forall e :: e in r ==> e in d || e == (k, v)
    ensures Get(r, k) == v
    ensures forall k' :: k' != k && HasKey(d, k') ==> Get(r, k') == Get(d, k')
    ensures UniqueKeys(d) ==> UniqueKeys(r)
    ensures HasKey(d, k) ==> |r| == |d| && forall i :: 0 <= i < |d| ==> r[i].0 == d[i].0
    decreases |d|
  {
    if |d| == 0 then [(k, v)]
    else if d[0].0 == k then
      var r := [(k, v)] + d[1..];
      assert r[1..] == d[1..];
      r
    else
      var r := [d[0]] + Put(d[1..], k, v);
      assert r[1..] == Put(d[1..], k, v);
      r
  }

  /** Assigning an absent key appends an entry at the end. */
  lemma {:induction false} PutAbsent<V>(d: Dict<V>, k: string, v: V)
    requires !HasKey(d, k)
    ensures Put(d, k, v) == d + [(k, v)]
    decreases |d|
  {
    if |d| > 0 {
      PutAbsent(d[1..], k, v);
      assert [d[0]] + (d[1..] + [(k, v)]) == d + [(k, v)];
    }
  }

  /** The dictionary without the entries whose key is in `ks`, order kept. */
  function Without<V>(d: Dict<V>, ks: set<string>): (r: Dict<V>)
    ensures KeySet(r) == KeySet(d) - ks
    ensures forall e :: e in r ==> e in d
    ensures UniqueKeys(d) ==> UniqueKeys(r)
    decreases |d|
  {
    if |d| == 0 then []
    else
      var rest := Without(d[1..], ks);
      assert forall e :: e in d[1..] ==> e in d;
      if d[0].0 in ks then rest
      else
        var r := [d[0]] + rest;
        assert r[1..] == rest;
        r
  }

  /** Dropping keys keeps the values of the keys that remain. */
  lemma WithoutGet<V>(d: Dict<V>, ks: set<string>, k: string)
    requires UniqueKeys(d) && HasKey(Without(d, ks), k)
    ensures Get(Without(d, ks), k) == Get(d, k)
  {
    GetUnique(d, k, Get(Without(d, ks), k));
  }

  /** Dropping keys none of which is present changes nothing. */
  lemma {:induction false} WithoutAbsent<V>(d: Dict<V>, ks: set<string>)
    requires KeySet(d) !! ks
    ensures Without(d, ks) == d
    decreases |d|
  {
    if |d| > 0 {
      WithoutAbsent(d[1..], ks);
    }
  }

  /** Also dropping a key that is absent changes nothing. */
  lemma WithoutAbsentKey<V>(d: Dict<V>, ks: set<string>, k: string)
    requires !HasKey(d, k)
    ensures Without(d, ks + {k}) == Without(d, ks)
  {
    WithoutWithout(d, ks, {k});
    WithoutAbsent(Without(d, ks), {k});
  }

  /** Removing keys twice is removing their union at once. */
  lemma {:induction false} WithoutWithout<V>(d: Dict<V>, a: set<string>, b: set<string>)
    ensures Without(Without(d, a), b) == Without(d, a + b)
    decreases |d|
  {
    if |d| > 0 {
      WithoutWithout(d[1..], a, b);
      var inner := Without(d[1..], a);
      if d[0].0 !in a {
        assert Without(d, a) == [d[0]] + inner;
        assert ([d[0]] + inner)[1..] == inner;
      }
    }
  }

  /** `del d[k]`. */
  function Remove<V>(d: Dict<V>, k: string): (r: Dict<V>)
    ensures KeySet(r) == KeySet(d) - {k}
    ensures forall e :: e in r ==> e in d
    ensures UniqueKeys(d) ==> UniqueKeys(r)
    ensures UniqueKeys(d) ==> forall k' :: HasKey(r, k') ==> Get(r, k') == Get(d, k')
  {
    var r := Without(d, {k});
    assert UniqueKeys(d) ==> forall k' :: HasKey(r, k') ==> Get(r, k') == Get(d, k') by {
      if UniqueKeys(d) {
        forall k' | HasKey(r, k') ensures Get(r, k') == Get(d, k') {
          WithoutGet(d, {k}, k');
        }
      }
    }
    r
  }

  /** The same keys in the same order, each value passed through `f`. */
  function MapValues<V, W>(d: Dict<V>, f: V -> W): (r: Dict<W>)
    ensures |r| == |d|
    ensures forall i :: 0 <= i < |d| ==> r[i] == (d[i].0, f(d[i].1))
    ensures KeySet(r) == KeySet(d)
    ensures forall k :: HasKey(d, k) ==> Get(r, k) == f(Get(d, k))
    ensures UniqueKeys(d) ==> UniqueKeys(r)
    decreases |d|
  {
    if |d| == 0 then []
    else
      var rest := MapValues(d[1..], f);
      var r := [(d[0].0, f(d[0].1))] + rest;
      assert r[1..] == rest;
      r
  }

  /** `MapValues` and `Without` on a dictionary given as a first entry followed by the rest. */
  lemma ConsFirst<V, W>(e: (string, V), d: Dict<V>, f: V -> W, ks: set<string>)
    ensures MapValues([e] + d, f) == [(e.0, f(e.1))] + MapValues(d, f)
    ensures e.0 !in ks ==> Without([e] + d, ks) == [e] + Without(d, ks)
    ensures e.0 in ks ==> Without([e] + d, ks) == Without(d, ks)
  {
    assert ([e] + d)[1..] == d;
  }

  /** Keys of a concatenation, and lookups that land in its first or second part. */
  lemma {:induction false} GetConcat<V>(d: Dict<V>, e: Dict<V>, k: string)
    ensures KeySet(d + e) == KeySet(d) + KeySet(e)
    ensures HasKey(d, k) ==> Get(d + e, k) == Get(d, k)
    ensures !HasKey(d, k) && HasKey(e, k) ==> Get(d + e, k) == Get(e, k)
    decreases |d|
  {
    if |d| > 0 {
      assert (d + e)[1..] == d[1..] + e;
      GetConcat(d[1..], e, k);
    } else {
      assert d + e == e;
    }
  }

  /** A dictionary with unique keys has as many entries as distinct keys. */
  lemma {:induction false} KeySetCardinality<V>(d: Dict<V>)
    requires UniqueKeys(d)
    ensures |KeySet(d)| == |d|
    decreases |d|
  {
    if |d| > 0 {
      KeySetCardinality(d[1..]);
    }
  }

  /** Key membership read position-wise. */
  lemma {:induction false} KeySetAt<V>(d: Dict<V>, k: string)
    ensures k in KeySet(d) <==> exists i :: 0 <= i < |d| && d[i].0 == k
    decreases |d|
  {
    if |d| > 0 {
      KeySetAt(d[1..], k);
      if k in KeySet(d[1..]) {
        var i :| 0 <= i < |d[1..]| && d[1..][i].0 == k;
        assert d[i + 1].0 == k;
      }
      if exists i :: 0 <= i < |d| && d[i].0 == k {
        var i :| 0 <= i < |d| && d[i].0 == k;
        if i > 0 { assert d[1..][i - 1].0 == k; }
      }
    }
  }

  /** Uniqueness read position-wise. */
  lemma {:induction false} UniqueKeysAt<V>(d: Dict<V>, i: nat, j: nat)
    requires UniqueKeys(d) && i < j < |d|
    ensures d[i].0 != d[j].0
    decreases |d|
  {
    if i == 0 {
      KeySetAt(d[1..], d[0].0);
      assert d[1..][j - 1] == d[j];
    } else {
      UniqueKeysAt(d[1..], i - 1, j - 1);
    }
  }

  /** The keys of `d` appear in increasing order of `rank`. */
  predicate SortedBy<V>(d: Dict<V>, rank: string -> int) {
    forall i, j :: 0 <= i < j < |d| ==> rank(d[i].0) < rank(d[j].0)
  }

  /**
   Assigning a present key keeps the order of the keys, under any rank that
   agrees with the old one on the keys present.
   */
  lemma SortedPutPresent<V>(d: Dict<V>, k: string, v: V, rank: string -> int, rank': string -> int)
    requires SortedBy(d, rank') && HasKey(d, k)
    requires forall k' :: HasKey(d, k') ==> rank(k') == rank'(k')
    ensures SortedBy(Put(d, k, v), rank)
  {
    var r := Put(d, k, v);
    forall i | 0 <= i < |d| ensures rank(r[i].0) == rank'(d[i].0) {
      EntryHasKey(d, d[i]);
    }
  }

  /**
   Assigning an absent key that ranks after every present key keeps the keys
   in order, under any rank that agrees with the old one on the keys present.
   */
  lemma SortedPutAbsent<V>(d: Dict<V>, k: string, v: V, rank: string -> int, rank': string -> int)
    requires SortedBy(d, rank') && !HasKey(d, k)
    requires forall k' :: HasKey(d, k') ==> rank(k') == rank'(k') && rank(k') < rank(k)
    ensures SortedBy(Put(d, k, v), rank)
  {
    PutAbsent(d, k, v);
    var r := d + [(k, v)];
    forall i | 0 <= i < |d| ensures r[i] == d[i] && rank(r[i].0) == rank'(d[i].0) && rank(r[i].0) < rank(k) {
      EntryHasKey(d, d[i]);
    }
  }

  /** Dropping keys keeps the remaining ones in order. */
  lemma {:induction false} SortedWithout<V>(d: Dict<V>, ks: set<string>, rank: string -> int)
    requires SortedBy(d, rank)
    ensures SortedBy(Without(d, ks), rank)
    decreases |d|
  {
    if |d| > 0 {
      var rest := d[1..];
      SortedWithout(rest, ks, rank);
      var w := Without(rest, ks);
      if d[0].0 !in ks {
        assert Without(d, ks) == [d[0]] + w;
        forall j | 0 <= j < |w| ensures rank(d[0].0) < rank(w[j].0) {
          assert w[j] in rest;
          var m :| 0 <= m < |rest| && rest[m] == w[j];
          assert d[m + 1] == w[j];
        }
      }
    }
  }
}
