/** Python's insertion-ordered `dict`, as a sequence of key/value pairs in
    insertion order. Assigning to a present key replaces its value in place;
    assigning to a new key appends it. */
module Dict {
  import opened Wrappers

  type Dict<K(==), V> = seq<(K, V)>

  predicate NoDupKeys<K(==), V>(d: Dict<K, V>) {
    forall i, j :: 0 <= i < j < |d| ==> d[i].0 != d[j].0
  }

  function Keys<K(==), V>(d: Dict<K, V>): set<K> {
    set i | 0 <= i < |d| :: d[i].0
  }

  lemma KeysCons<K, V>(d: seq<(K, V)>)
    requires d != []
    ensures Keys(d) == {d[0].0} + Keys(d[1..])
  {
    forall k | k in Keys(d)
      ensures k in {d[0].0} + Keys(d[1..])
    {
      var i :| 0 <= i < |d| && d[i].0 == k;
      if i > 0 {
        assert d[1..][i - 1].0 == k;
      }
    }
    forall k | k in Keys(d[1..])
      ensures k in Keys(d)
    {
      var i :| 0 <= i < |d[1..]| && d[1..][i].0 == k;
      assert d[i + 1].0 == k;
    }
  }

  /** `d.get(k)`. */
  function Get<K(==), V>(d: Dict<K, V>, k: K): (r: Option<V>)
    ensures r.Some? <==> k in Keys(d)
    ensures r.Some? ==> (k, r.value) in d
  {
    if d == [] then None
    else
      KeysCons(d);
      if d[0].0 == k then Some(d[0].1) else Get(d[1..], k)
  }

  /** In a dict without repeated keys, each entry is what `get` returns. */
  lemma GetEntry<K, V>(d: seq<(K, V)>, i: nat)
    requires NoDupKeys(d) && i < |d|
    ensures Get(d, d[i].0) == Some(d[i].1)
  {
    if i > 0 {
      assert NoDupKeys(d[1..]) by {
        forall a, b | 0 <= a < b < |d[1..]| ensures d[1..][a].0 != d[1..][b].0 {
          assert d[1..][a] == d[a + 1] && d[1..][b] == d[b + 1];
        }
      }
      GetEntry(d[1..], i - 1);
    }
  }

  /** `r` is `d` after `d[k] = v`: `k` now holds `v`, every other key keeps
      its value, the key set gains `k`, a present key keeps its place and a
      new key is appended, no key becomes repeated, and every entry is
      `(k, v)` or an entry of `d`. */
  ghost predicate IsPut<K(!new), V>(d: Dict<K, V>, k: K, v: V, r: Dict<K, V>) {
    && Get(r, k) == Some(v)
    && (forall k' :: k' != k ==> Get(r, k') == Get(d, k'))
    && Keys(r) == Keys(d) + {k}
    && (k in Keys(d) ==> |r| == |d| && forall i :: 0 <= i < |d| ==> r[i].0 == d[i].0)
    && (k !in Keys(d) ==> r == d + [(k, v)])
    && (NoDupKeys(d) ==> NoDupKeys(r))
    && (forall i :: 0 <= i < |r| ==> r[i] == (k, v) || r[i] in d)
  }

  /** `d[k] = v`. */
  function Put<K(==, !new), V>(d: Dict<K, V>, k: K, v: V): (r: Dict<K, V>)
    ensures IsPut(d, k, v, r)
  {
    if d == [] then
      PutEmpty(k, v);
      [(k, v)]
    else if d[0].0 == k then
      PutFirst(d, k, v);
      [(k, v)] + d[1..]
    else
      var rest := Put(d[1..], k, v);
      PutLater(d, k, v, rest);
      [d[0]] + rest
  }

  lemma PutEmpty<K(!new), V>(k: K, v: V)
    ensures IsPut([], k, v, [(k, v)])
  {
    var r := [(k, v)];
    assert r[1..] == [];
    KeysCons(r);
  }

  /** Assigning to the first key replaces its value in place. */
  lemma PutFirst<K(!new), V>(d: Dict<K, V>, k: K, v: V)
    requires d != [] && d[0].0 == k
    ensures IsPut(d, k, v, [(k, v)] + d[1..])
  {
    var r := [(k, v)] + d[1..];
    assert r[1..] == d[1..];
    KeysCons(d);
    KeysCons(r);
    assert Get(r, k) == Some(v);
    forall k' | k' != k ensures Get(r, k') == Get(d, k') {
    }
    forall i | 0 < i < |r| ensures r[i] in d {
      assert r[i] == d[i];
    }
    assert NoDupKeys(d) ==> NoDupKeys(r) by {
      if NoDupKeys(d) {
        forall i, j | 0 <= i < j < |r| ensures r[i].0 != r[j].0 {
          assert r[j] == d[j];
          if i > 0 {
            assert r[i] == d[i];
          }
        }
      }
    }
  }

  /** Assigning to a later key leaves the first entry where it is. */
  lemma PutLater<K(!new), V>(d: Dict<K, V>, k: K, v: V, rest: Dict<K, V>)
    requires d != [] && d[0].0 != k && IsPut(d[1..], k, v, rest)
    ensures IsPut(d, k, v, [d[0]] + rest)
  {
    var r := [d[0]] + rest;
    assert r[1..] == rest;
    KeysCons(d);
    KeysCons(r);
    PutLaterGet(d, k, v, rest);
    PutLaterPlaces(d, k, v, rest);
    PutLaterNoDup(d, k, v, rest);
    PutLaterEntries(d, k, v, rest);
  }

  lemma PutLaterEntries<K(!new), V>(d: Dict<K, V>, k: K, v: V, rest: Dict<K, V>)
    requires d != []
    requires forall i :: 0 <= i < |rest| ==> rest[i] == (k, v) || rest[i] in d[1..]
    ensures var r := [d[0]] + rest; forall i :: 0 <= i < |r| ==> r[i] == (k, v) || r[i] in d
  {
    var r := [d[0]] + rest;
    forall i | 0 <= i < |r| ensures r[i] == (k, v) || r[i] in d {
      if i > 0 {
        assert r[i] == rest[i - 1];
        if rest[i - 1] in d[1..] {
          var j :| 0 <= j < |d[1..]| && d[1..][j] == rest[i - 1];
          assert d[j + 1] == rest[i - 1];
        }
      }
    }
  }

  lemma PutLaterGet<K(!new), V>(d: Dict<K, V>, k: K, v: V, rest: Dict<K, V>)
    requires d != [] && d[0].0 != k
    requires Get(rest, k) == Some(v)
    requires forall k' :: k' != k ==> Get(rest, k') == Get(d[1..], k')
    ensures Get([d[0]] + rest, k) == Some(v)
    ensures forall k' :: k' != k ==> Get([d[0]] + rest, k') == Get(d, k')
  {
    var r := [d[0]] + rest;
    assert r[1..] == rest;
  }

  lemma PutLaterPlaces<K(!new), V>(d: Dict<K, V>, k: K, v: V, rest: Dict<K, V>)
    requires d != [] && d[0].0 != k
    requires Keys(d) == {d[0].0} + Keys(d[1..])
    requires k in Keys(d[1..]) ==> |rest| == |d[1..]| && forall i :: 0 <= i < |d[1..]| ==> rest[i].0 == d[1..][i].0
    requires k !in Keys(d[1..]) ==> rest == d[1..] + [(k, v)]
    ensures var r := [d[0]] + rest;
      && (k in Keys(d) ==> |r| == |d| && forall i :: 0 <= i < |d| ==> r[i].0 == d[i].0)
      && (k !in Keys(d) ==> r == d + [(k, v)])
  {
    var r := [d[0]] + rest;
    if k !in Keys(d) {
      assert r == [d[0]] + (d[1..] + [(k, v)]);
      assert d == [d[0]] + d[1..];
    } else {
      forall i | 0 <= i < |d| ensures r[i].0 == d[i].0 {
        if i > 0 {
          assert r[i] == rest[i - 1] && d[i] == d[1..][i - 1];
        }
      }
    }
  }

  lemma PutLaterNoDup<K(!new), V>(d: Dict<K, V>, k: K, v: V, rest: Dict<K, V>)
    requires d != [] && d[0].0 != k
    requires Keys(rest) == Keys(d[1..]) + {k}
    requires NoDupKeys(d[1..]) ==> NoDupKeys(rest)
    ensures NoDupKeys(d) ==> NoDupKeys([d[0]] + rest)
  {
    var r := [d[0]] + rest;
    if NoDupKeys(d) {
      assert NoDupKeys(d[1..]) by {
        forall a, b | 0 <= a < b < |d[1..]| ensures d[1..][a].0 != d[1..][b].0 {
          assert d[1..][a] == d[a + 1] && d[1..][b] == d[b + 1];
        }
      }
      assert d[0].0 !in Keys(d[1..]) by {
        forall m | 0 <= m < |d[1..]| ensures d[1..][m].0 != d[0].0 {
          assert d[1..][m] == d[m + 1];
        }
      }
      forall i, j | 0 <= i < j < |r| ensures r[i].0 != r[j].0 {
        assert r[j] == rest[j - 1];
        if i > 0 {
          assert r[i] == rest[i - 1];
        } else {
          assert r[j].0 in Keys(rest);
        }
      }
    }
  }

  /** `for k, v in pairs: d[k] = v`. */
  function PutAll<K(==, !new), V>(d: Dict<K, V>, kvs: seq<(K, V)>): Dict<K, V>
    decreases |kvs|
  {
    if kvs == [] then d else PutAll(Put(d, kvs[0].0, kvs[0].1), kvs[1..])
  }

  /** Assigning two runs of pairs is assigning the first, then the second. */
  lemma {:induction false} PutAllAppend<K(!new), V>(d: Dict<K, V>, a: seq<(K, V)>, b: seq<(K, V)>)
    ensures PutAll(d, a + b) == PutAll(PutAll(d, a), b)
    decreases |a|
  {
    if a == [] {
      assert a + b == b;
    } else {
      var d' := Put(d, a[0].0, a[0].1);
      assert (a + b)[0] == a[0] && (a + b)[1..] == a[1..] + b;
      assert PutAll(d, a + b) == PutAll(d', a[1..] + b);
      PutAllAppend(d', a[1..], b);
    }
  }

  /** The value of the last pair keyed `k`, read from the back. */
  function LastValue<K(==), V>(kvs: seq<(K, V)>, k: K): Option<V>
    decreases |kvs|
  {
    if kvs == [] then None
    else if kvs[|kvs| - 1].0 == k then Some(kvs[|kvs| - 1].1)
    else LastValue(kvs[..|kvs| - 1], k)
  }

  /** `LastValue` finds a value exactly when some pair is keyed `k`, and the
      value is that of a pair keyed `k` with no pair keyed `k` after it. */
  lemma {:induction false} LastValueSpec<K, V>(kvs: seq<(K, V)>, k: K)
    ensures LastValue(kvs, k).Some? <==> k in Keys(kvs)
    ensures LastValue(kvs, k).Some? ==>
      exists i :: 0 <= i < |kvs| && kvs[i] == (k, LastValue(kvs, k).value)
                  && forall j :: i < j < |kvs| ==> kvs[j].0 != k
    decreases |kvs|
  {
    if kvs != [] {
      var n := |kvs| - 1;
      var init := kvs[..n];
      if kvs[n].0 == k {
        assert k in Keys(kvs);
      } else {
        LastValueSpec(init, k);
        if k in Keys(kvs) {
          var i :| 0 <= i < |kvs| && kvs[i].0 == k;
          assert init[i].0 == k;
        }
        if LastValue(init, k).Some? {
          var i :| 0 <= i < |init| && init[i] == (k, LastValue(init, k).value)
                   && forall j :: i < j < |init| ==> init[j].0 != k;
          assert kvs[i] == init[i];
        }
      }
    }
  }

  /** `LastValue` of a non-empty sequence, seen from its first pair. */
  lemma {:induction false} LastValueCons<K, V>(kvs: seq<(K, V)>, k: K)
    requires kvs != []
    ensures LastValue(kvs, k) ==
      (if LastValue(kvs[1..], k).Some? then LastValue(kvs[1..], k)
       else if kvs[0].0 == k then Some(kvs[0].1) else None)
    decreases |kvs|
  {
    if |kvs| > 1 {
      var init := kvs[..|kvs| - 1];
      assert init[1..] == kvs[1..][..|kvs[1..]| - 1];
      assert init[0] == kvs[0];
      LastValueCons(init, k);
    }
  }

  /** Assigning pair after pair, the last assignment to a key wins: each key
      holds the value of its last pair, a key no pair assigns keeps its value,
      no key becomes repeated, and every entry is one of the pairs or was
      already there. */
  lemma {:induction false} PutAllGet<K(!new), V>(d: Dict<K, V>, kvs: seq<(K, V)>, k: K)
    ensures Get(PutAll(d, kvs), k) == if LastValue(kvs, k).Some? then LastValue(kvs, k) else Get(d, k)
    ensures NoDupKeys(d) ==> NoDupKeys(PutAll(d, kvs))
    ensures forall i :: 0 <= i < |PutAll(d, kvs)| ==> PutAll(d, kvs)[i] in kvs || PutAll(d, kvs)[i] in d
    decreases |kvs|
  {
    if kvs != [] {
      var d' := Put(d, kvs[0].0, kvs[0].1);
      PutAllGet(d', kvs[1..], k);
      LastValueCons(kvs, k);
      var r := PutAll(d, kvs);
      forall i | 0 <= i < |r| ensures r[i] in kvs || r[i] in d {
        if r[i] !in kvs[1..] {
          assert r[i] == kvs[0] || r[i] in d;
        }
      }
    }
  }
}
