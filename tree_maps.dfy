/** java.util.TreeMap with integer keys, as a list of entries in strictly
    increasing key order (its iteration order). Dates and months are turned
    into order-preserving integer keys by the Calendar module. */
module TreeMaps {
  import opened Wrappers

  predicate Sorted<V>(m: seq<(int, V)>)
  {
    forall i, j :: 0 <= i < j < |m| ==> m[i].0 < m[j].0
  }

  function KeySet<V>(m: seq<(int, V)>): set<int>
  {
    set i | 0 <= i < |m| :: m[i].0
  }

  /** TreeMap.get: the value stored under k, if any. */
  function Get<V>(m: seq<(int, V)>, k: int): (r: Option<V>)
    ensures r.None? <==> k !in KeySet(m)
    ensures r.Some? ==> (k, r.value) in m
  {
    if m == [] then None
    else if m[0].0 == k then Some(m[0].1)
    else
      KeySetCons(m);
      Get(m[1..], k)
  }

  lemma KeySetCons<V>(m: seq<(int, V)>)
    requires m != []
    ensures KeySet(m) == {m[0].0} + KeySet(m[1..])
  {
    forall k | k in KeySet(m) ensures k in {m[0].0} + KeySet(m[1..]) {
      var i :| 0 <= i < |m| && m[i].0 == k;
      if i > 0 {
        assert m[1..][i - 1].0 == k;
      }
    }
    forall k | k in KeySet(m[1..]) ensures k in KeySet(m) {
      var i :| 0 <= i < |m| - 1 && m[1..][i].0 == k;
      assert m[i + 1].0 == k;
    }
  }

  lemma {:induction false} GetAt<V>(m: seq<(int, V)>, i: int)
    requires Sorted(m) && 0 <= i < |m|
    ensures Get(m, m[i].0) == Some(m[i].1)
  {
    if i > 0 {
      GetAt(m[1..], i - 1);
    }
  }

  /** TreeMap.put: insert in key order, replacing the value of an existing key. */
  function Put<V>(m: seq<(int, V)>, k: int, v: V): (r: seq<(int, V)>)
    requires Sorted(m)
    ensures Sorted(r)
    ensures KeySet(r) == KeySet(m) + {k}
    ensures |r| > 0 && (m != [] ==> r[0].0 == (if k < m[0].0 then k else m[0].0))
  {
    if m == [] then
      PutSingle(k, v);
      [(k, v)]
    else if k <= m[0].0 then
      PutFirst(m, k, v);
      [(k, v)] + (if k < m[0].0 then m else m[1..])
    else
      var rest := Put(m[1..], k, v);
      PutAfterFirst(m, k, v, rest);
      [m[0]] + rest
  }

  lemma PutSingle<V>(k: int, v: V)
    ensures KeySet([(k, v)]) == {k}
  {
    assert [(k, v)][0].0 == k;
  }

  /** A key at or before the first one goes in front, replacing an equal first key. */
  lemma PutFirst<V>(m: seq<(int, V)>, k: int, v: V)
    requires Sorted(m) && m != [] && k <= m[0].0
    ensures var r := [(k, v)] + (if k < m[0].0 then m else m[1..]);
      Sorted(r) && KeySet(r) == KeySet(m) + {k}
  {
    KeySetCons(m);
    if k < m[0].0 {
      ConsSorted((k, v), m);
    } else {
      ConsSorted((k, v), m[1..]);
    }
  }

  /** A key after the first one goes into the rest of the list. */
  lemma PutAfterFirst<V>(m: seq<(int, V)>, k: int, v: V, rest: seq<(int, V)>)
    requires Sorted(m) && m != [] && k > m[0].0
    requires Sorted(rest) && KeySet(rest) == KeySet(m[1..]) + {k}
    ensures Sorted([m[0]] + rest) && KeySet([m[0]] + rest) == KeySet(m) + {k}
  {
    KeySetCons(m);
    forall j | 0 <= j < |rest|
      ensures m[0].0 < rest[j].0
    {
      assert rest[j].0 in KeySet(rest);
    }
    ConsSorted(m[0], rest);
  }

  /** An entry whose key precedes every key of a sorted list heads a sorted list. */
  lemma ConsSorted<V>(e: (int, V), tail: seq<(int, V)>)
    requires Sorted(tail) && forall j :: 0 <= j < |tail| ==> e.0 < tail[j].0
    ensures Sorted([e] + tail) && KeySet([e] + tail) == {e.0} + KeySet(tail)
  {
    var r := [e] + tail;
    KeySetCons(r);
    assert r[1..] == tail;
  }

  lemma {:induction false} GetPut<V>(m: seq<(int, V)>, k: int, v: V, key: int)
    requires Sorted(m)
    ensures Get(Put(m, k, v), key) == if key == k then Some(v) else Get(m, key)
  {
    if m != [] && k > m[0].0 {
      GetPut(m[1..], k, v, key);
    } else if m != [] && k == m[0].0 && key != k {
      assert Get(m, key) == Get(m[1..], key);
    }
  }

  /** A put adds its own entry and keeps or drops old ones; it makes up nothing else. */
  lemma {:induction false} PutEntries<V>(m: seq<(int, V)>, k: int, v: V)
    requires Sorted(m)
    ensures forall e :: e in Put(m, k, v) ==> e == (k, v) || e in m
  {
    if m != [] && k > m[0].0 {
      PutEntries(m[1..], k, v);
      assert Put(m, k, v) == [m[0]] + Put(m[1..], k, v);
    }
  }

  /** The last key of a sorted non-empty map is its greatest key. */
  lemma LastKeyIsGreatest<V>(m: seq<(int, V)>)
    requires Sorted(m) && m != []
    ensures m[|m| - 1].0 in KeySet(m)
    ensures forall k :: k in KeySet(m) ==> k <= m[|m| - 1].0
  {
  }

  /** TreeMap.floorEntry: the entry with the greatest key at or below k. */
  function FloorEntry<V>(m: seq<(int, V)>, k: int): Option<(int, V)>
  {
    if m == [] || m[0].0 > k then None
    else match FloorEntry(m[1..], k)
      case None => Some(m[0])
      case Some(e) => Some(e)
  }

  lemma {:induction false} FloorEntrySpec<V>(m: seq<(int, V)>, k: int)
    requires Sorted(m)
    ensures FloorEntry(m, k).None? <==> forall i :: 0 <= i < |m| ==> m[i].0 > k
    ensures FloorEntry(m, k).Some? ==>
      var e := FloorEntry(m, k).value;
      e in m && e.0 <= k && forall i :: 0 <= i < |m| && m[i].0 <= k ==> m[i].0 <= e.0
  {
    if m != [] && m[0].0 <= k {
      FloorEntrySpec(m[1..], k);
      if FloorEntry(m[1..], k).None? {
        forall i | 1 <= i < |m| ensures m[i].0 > k {
          assert m[1..][i - 1] == m[i];
        }
      } else {
        forall i | 1 <= i < |m| && m[i].0 <= k ensures m[i].0 <= FloorEntry(m, k).value.0 {
          assert m[1..][i - 1] == m[i];
        }
      }
    }
  }

  /** The keys in iteration order. */
  function KeysInOrder<K, V>(m: seq<(K, V)>): (ks: seq<K>)
    ensures |ks| == |m| && forall i :: 0 <= i < |m| ==> ks[i] == m[i].0
  {
    if m == [] then [] else [m[0].0] + KeysInOrder(m[1..])
  }

  /** The entries whose key lies in [lo, hi], in key order: TreeMap.subMap(lo, true, hi, true). */
  function SubMap<V>(m: seq<(int, V)>, lo: int, hi: int): (r: seq<(int, V)>)
    ensures forall i :: 0 <= i < |r| ==> r[i] in m && lo <= r[i].0 <= hi
    ensures forall i :: 0 <= i < |m| && lo <= m[i].0 <= hi ==> m[i] in r
  {
    if m == [] then []
    else if lo <= m[0].0 <= hi then [m[0]] + SubMap(m[1..], lo, hi)
    else SubMap(m[1..], lo, hi)
  }

  /** A sub-map keeps the key order. */
  lemma {:induction false} SubMapSorted<V>(m: seq<(int, V)>, lo: int, hi: int)
    requires Sorted(m)
    ensures Sorted(SubMap(m, lo, hi))
  {
    if m != [] {
      SubMapSorted(m[1..], lo, hi);
      var rest := SubMap(m[1..], lo, hi);
      forall j | 0 <= j < |rest| ensures m[0].0 < rest[j].0 {
        var i :| 0 <= i < |m[1..]| && m[1..][i] == rest[j];
        assert m[i + 1] == rest[j];
      }
      if lo <= m[0].0 <= hi {
        ConsSorted(m[0], rest);
      }
    }
  }

  /** A sub-map answers get for the keys in [lo, hi] as the map does, and holds no other key. */
  lemma {:induction false} SubMapGet<V>(m: seq<(int, V)>, lo: int, hi: int, k: int)
    requires Sorted(m)
    ensures Get(SubMap(m, lo, hi), k) == if lo <= k <= hi then Get(m, k) else None
  {
    if m != [] {
      SubMapGet(m[1..], lo, hi, k);
    }
  }
}
