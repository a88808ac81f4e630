/** A TreeMap from an integer key to an ArrayList of values, each value filed
    under the key a key function gives it: the shape of CalcTxnList (records
    by payment month) and of InvestTxnList (ledger transactions by date). */
module Multimaps {
  import opened Wrappers
  import opened TreeMaps

  type Multimap<V> = seq<(int, seq<V>)>

  /** Every value sits in the list of its own key. */
  predicate WellKeyed<V>(m: Multimap<V>, key: V -> int)
  {
    forall i, j :: 0 <= i < |m| && 0 <= j < |m[i].1| ==> key(m[i].1[j]) == m[i].0
  }

  /** The list stored under k, or the empty list when k is absent. */
  function ListFor<V>(m: Multimap<V>, k: int): seq<V>
  {
    match Get(m, k)
    case None => []
    case Some(l) => l
  }

  /** The values in the order TreeMap.forEach followed by List.forEach visits them. */
  function Flatten<V>(m: Multimap<V>): seq<V>
  {
    if m == [] then [] else m[0].1 + Flatten(m[1..])
  }

  /** The values of s with key k, in the order they occur in s. */
  function OfKey<V(==)>(s: seq<V>, key: V -> int, k: int): (r: seq<V>)
    ensures forall i :: 0 <= i < |r| ==> r[i] in s && key(r[i]) == k
    ensures forall i :: 0 <= i < |s| && key(s[i]) == k ==> s[i] in r
  {
    if s == [] then []
    else (if key(s[0]) == k then [s[0]] else []) + OfKey(s[1..], key, k)
  }

  /** Collection.removeIf: the values the filter rejects, in their original order. */
  function FilterOut<V(==)>(s: seq<V>, filter: V -> bool): (r: seq<V>)
    ensures |r| <= |s|
    ensures forall i :: 0 <= i < |r| ==> r[i] in s && !filter(r[i])
    ensures forall i :: 0 <= i < |s| && !filter(s[i]) ==> s[i] in r
  {
    if s == [] then []
    else (if filter(s[0]) then [] else [s[0]]) + FilterOut(s[1..], filter)
  }

  /** The map after removing the matching values from every list; every key stays. */
  function RemoveAll<V(==)>(m: Multimap<V>, filter: V -> bool): Multimap<V>
  {
    seq(|m|, i requires 0 <= i < |m| => (m[i].0, FilterOut(m[i].1, filter)))
  }

  /** computeIfAbsent(key(v), k -> new ArrayList<>()).add(v) */
  function Append<V>(m: Multimap<V>, key: V -> int, v: V): Multimap<V>
    requires Sorted(m)
  {
    Put(m, key(v), ListFor(m, key(v)) + [v])
  }

  /** A value found in an entry of a well-keyed map has that entry's key. */
  lemma WellKeyedMember<V>(m: Multimap<V>, key: V -> int, e: (int, seq<V>), v: V)
    requires WellKeyed(m, key) && e in m && v in e.1
    ensures key(v) == e.0
  {
    var i :| 0 <= i < |m| && m[i] == e;
    var j :| 0 <= j < |e.1| && e.1[j] == v;
  }

  lemma WellKeyedTail<V>(m: Multimap<V>, key: V -> int)
    requires WellKeyed(m, key) && m != []
    ensures WellKeyed(m[1..], key)
  {
    forall i, j | 0 <= i < |m[1..]| && 0 <= j < |m[1..][i].1|
      ensures key(m[1..][i].1[j]) == m[1..][i].0
    {
      assert m[1..][i] == m[i + 1];
    }
  }

  /** Appending puts v at the end of its key's list, creates the key when
      absent, and leaves every other list as it was. */
  lemma AppendSpec<V>(m: Multimap<V>, key: V -> int, v: V)
    requires Sorted(m) && WellKeyed(m, key)
    ensures Sorted(Append(m, key, v)) && WellKeyed(Append(m, key, v), key)
    ensures KeySet(Append(m, key, v)) == KeySet(m) + {key(v)}
    ensures forall k :: ListFor(Append(m, key, v), k) ==
              if k == key(v) then ListFor(m, k) + [v] else ListFor(m, k)
  {
    var k, l := key(v), ListFor(m, key(v)) + [v];
    var r := Append(m, key, v);
    PutEntries(m, k, l);
    forall i, j | 0 <= i < |r| && 0 <= j < |r[i].1| ensures key(r[i].1[j]) == r[i].0 {
      var e, t := r[i], r[i].1[j];
      assert e in r;
      if e != (k, l) {
        WellKeyedMember(m, key, e, t);
      } else if j < |l| - 1 {
        assert t in ListFor(m, k);
        WellKeyedMember(m, key, (k, Get(m, k).value), t);
      }
    }
    forall key' ensures ListFor(r, key') == if key' == k then ListFor(m, key') + [v] else ListFor(m, key') {
      GetPut(m, k, l, key');
    }
  }

  lemma {:induction false} OfKeyConcat<V>(a: seq<V>, b: seq<V>, key: V -> int, k: int)
    ensures OfKey(a + b, key, k) == OfKey(a, key, k) + OfKey(b, key, k)
  {
    if a != [] {
      assert (a + b)[0] == a[0] && (a + b)[1..] == a[1..] + b;
      var x := if key(a[0]) == k then [a[0]] else [];
      assert OfKey(a + b, key, k) == x + OfKey(a[1..] + b, key, k);
      assert OfKey(a, key, k) == x + OfKey(a[1..], key, k);
      OfKeyConcat(a[1..], b, key, k);
      assert x + (OfKey(a[1..], key, k) + OfKey(b, key, k)) == (x + OfKey(a[1..], key, k)) + OfKey(b, key, k);
    } else {
      assert a + b == b;
    }
  }

  /** The map that filing each value of s in turn builds from an empty one. */
  function FileAll<V>(s: seq<V>, key: V -> int): (r: Multimap<V>)
    ensures Sorted(r) && WellKeyed(r, key)
    decreases |s|
  {
    if s == [] then []
    else
      var prev := FileAll(s[..|s| - 1], key);
      AppendSpec(prev, key, s[|s| - 1]);
      Append(prev, key, s[|s| - 1])
  }

  /** Filing a sequence puts under each key exactly the values with that key,
      in the order of the sequence. */
  lemma {:induction false} FileAllSpec<V>(s: seq<V>, key: V -> int, k: int)
    ensures ListFor(FileAll(s, key), k) == OfKey(s, key, k)
    decreases |s|
  {
    if s != [] {
      var init := s[..|s| - 1];
      FileAllSpec(init, key, k);
      AppendSpec(FileAll(init, key), key, s[|s| - 1]);
      OfKeyLast(s, key, k);
    }
  }

  /** The values with key k of a non-empty sequence: those of all but its
      last value, then the last one if it has key k. */
  lemma OfKeyLast<V>(s: seq<V>, key: V -> int, k: int)
    requires s != []
    ensures OfKey(s, key, k) == OfKey(s[..|s| - 1], key, k) + (if key(s[|s| - 1]) == k then [s[|s| - 1]] else [])
  {
    var init, v := s[..|s| - 1], s[|s| - 1];
    InitLast(s);
    OfKeyConcat(init, [v], key, k);
    assert OfKey([v], key, k) == (if key(v) == k then [v] else []) + OfKey([v][1..], key, k);
  }

  lemma InitLast<V>(s: seq<V>)
    requires s != []
    ensures s[..|s| - 1] + [s[|s| - 1]] == s
  {
  }

  /** The values of a non-empty sequence the filter rejects: those of all
      but its last value, then the last one if the filter rejects it. */
  lemma FilterOutLast<V>(s: seq<V>, filter: V -> bool)
    requires s != []
    ensures FilterOut(s, filter) == FilterOut(s[..|s| - 1], filter) + (if filter(s[|s| - 1]) then [] else [s[|s| - 1]])
  {
    var init, v := s[..|s| - 1], s[|s| - 1];
    InitLast(s);
    FilterOutConcat(init, [v], filter);
    FilterOutSingleton(v, filter);
  }

  lemma FilterOutSingleton<V>(v: V, filter: V -> bool)
    ensures FilterOut([v], filter) == if filter(v) then [] else [v]
  {
    assert [v][1..] == [];
    if filter(v) {
      assert FilterOut([v], filter) == [] + FilterOut([], filter);
    } else {
      assert FilterOut([v], filter) == [v] + FilterOut([], filter);
    }
  }

  /** One step of a filtering visit over the lists of a map: what is kept so
      far, then what the rest of the visit keeps. */
  lemma FlattenFilterStep<V>(done: seq<V>, m: Multimap<V>, i: int, filter: V -> bool)
    requires 0 <= i < |m|
    ensures done + FilterOut(Flatten(m[i..]), filter)
         == (done + FilterOut(m[i].1, filter)) + FilterOut(Flatten(m[i + 1..]), filter)
  {
    assert m[i..][1..] == m[i + 1..];
    FilterOutConcat(m[i].1, Flatten(m[i + 1..]), filter);
  }

  /** One step of a filtering visit over a list. */
  lemma FilterOutStep<V>(done: seq<V>, s: seq<V>, j: int, filter: V -> bool)
    requires 0 <= j < |s|
    ensures filter(s[j]) ==> done + FilterOut(s[j..], filter) == done + FilterOut(s[j + 1..], filter)
    ensures !filter(s[j]) ==> done + FilterOut(s[j..], filter) == (done + [s[j]]) + FilterOut(s[j + 1..], filter)
  {
    var rest := FilterOut(s[j + 1..], filter);
    assert s[j..][1..] == s[j + 1..];
    if filter(s[j]) {
      assert FilterOut(s[j..], filter) == [] + rest;
      assert [] + rest == rest;
    } else {
      assert FilterOut(s[j..], filter) == [s[j]] + rest;
      assert done + ([s[j]] + rest) == (done + [s[j]]) + rest;
    }
  }

  lemma {:induction false} OfKeyAll<V>(s: seq<V>, key: V -> int, k: int)
    requires forall v :: v in s ==> key(v) == k
    ensures OfKey(s, key, k) == s
  {
    if s != [] {
      OfKeyAll(s[1..], key, k);
    }
  }

  lemma {:induction false} OfKeyNone<V>(s: seq<V>, key: V -> int, k: int)
    requires forall v :: v in s ==> key(v) != k
    ensures OfKey(s, key, k) == []
  {
    if s != [] {
      OfKeyNone(s[1..], key, k);
    }
  }

  lemma {:induction false} FilterOutConcat<V>(a: seq<V>, b: seq<V>, filter: V -> bool)
    ensures FilterOut(a + b, filter) == FilterOut(a, filter) + FilterOut(b, filter)
  {
    if a != [] {
      assert (a + b)[0] == a[0] && (a + b)[1..] == a[1..] + b;
      var x := if filter(a[0]) then [] else [a[0]];
      assert FilterOut(a + b, filter) == x + FilterOut(a[1..] + b, filter);
      assert FilterOut(a, filter) == x + FilterOut(a[1..], filter);
      FilterOutConcat(a[1..], b, filter);
      assert x + (FilterOut(a[1..], filter) + FilterOut(b, filter)) == (x + FilterOut(a[1..], filter)) + FilterOut(b, filter);
    } else {
      assert a + b == b;
    }
  }

  /** Picking out one key and dropping filtered values can be done in either order. */
  lemma {:induction false} OfKeyFilterOut<V>(s: seq<V>, key: V -> int, k: int, filter: V -> bool)
    ensures OfKey(FilterOut(s, filter), key, k) == FilterOut(OfKey(s, key, k), filter)
  {
    if s != [] {
      OfKeyFilterOut(s[1..], key, k, filter);
      var x := if filter(s[0]) then [] else [s[0]];
      var y := if key(s[0]) == k then [s[0]] else [];
      OfKeyConcat(x, FilterOut(s[1..], filter), key, k);
      FilterOutConcat(y, OfKey(s[1..], key, k), filter);
    }
  }

  /** A visited value comes from the list of some key. */
  lemma {:induction false} FlattenIndex<V>(m: Multimap<V>, v: V) returns (i: int)
    requires v in Flatten(m)
    ensures 0 <= i < |m| && v in m[i].1
  {
    assert m != [] && Flatten(m) == m[0].1 + Flatten(m[1..]);
    if v in m[0].1 {
      i := 0;
    } else {
      var i' := FlattenIndex(m[1..], v);
      i := i' + 1;
      assert m[i] == m[1..][i'];
    }
  }

  /** Picking the values of key k out of the visit order gives back k's list:
      each list is visited in its own order. */
  lemma {:induction false} FlattenOfKey<V>(m: Multimap<V>, key: V -> int, k: int)
    requires Sorted(m) && WellKeyed(m, key)
    ensures OfKey(Flatten(m), key, k) == ListFor(m, k)
  {
    if m != [] {
      OfKeyConcat(m[0].1, Flatten(m[1..]), key, k);
      WellKeyedTail(m, key);
      FlattenOfKey(m[1..], key, k);
      forall v | v in m[0].1 ensures key(v) == m[0].0 {
        WellKeyedMember(m, key, m[0], v);
      }
      if m[0].0 == k {
        OfKeyAll(m[0].1, key, k);
        KeySetCons(m);
        assert k !in KeySet(m[1..]);
      } else {
        OfKeyNone(m[0].1, key, k);
      }
    }
  }

  /** Keys are visited in ascending order. */
  lemma {:induction false} FlattenKeyOrder<V>(m: Multimap<V>, key: V -> int)
    requires Sorted(m) && WellKeyed(m, key)
    ensures forall i, j :: 0 <= i < j < |Flatten(m)| ==> key(Flatten(m)[i]) <= key(Flatten(m)[j])
  {
    if m != [] {
      var f, head, tail := Flatten(m), m[0].1, Flatten(m[1..]);
      assert f == head + tail;
      WellKeyedTail(m, key);
      FlattenKeyOrder(m[1..], key);
      forall v | v in head ensures key(v) == m[0].0 {
        WellKeyedMember(m, key, m[0], v);
      }
      forall v | v in tail ensures m[0].0 < key(v) {
        var i := FlattenIndex(m[1..], v);
        assert m[i + 1] == m[1..][i];
        WellKeyedMember(m, key, m[i + 1], v);
      }
      forall i, j | 0 <= i < j < |f| ensures key(f[i]) <= key(f[j]) {
        if j < |head| {
          assert f[i] in head && f[j] in head;
        } else if i < |head| {
          assert f[i] in head && f[j] == tail[j - |head|];
        } else {
          assert f[i] == tail[i - |head|] && f[j] == tail[j - |head|];
        }
      }
    }
  }

  /** Removing values keeps every key in its place and every value under its own key. */
  lemma RemoveAllKeeps<V>(m: Multimap<V>, key: V -> int, filter: V -> bool)
    ensures KeysInOrder(RemoveAll(m, filter)) == KeysInOrder(m)
    ensures WellKeyed(m, key) ==> WellKeyed(RemoveAll(m, filter), key)
  {
    var r := RemoveAll(m, filter);
    if WellKeyed(m, key) {
      forall i, j | 0 <= i < |r| && 0 <= j < |r[i].1| ensures key(r[i].1[j]) == r[i].0 {
        assert r[i].1[j] in m[i].1;
        WellKeyedMember(m, key, m[i], r[i].1[j]);
      }
    }
  }

  /** Removing from every list removes exactly the matching values from the
      visit order and keeps the others in their old order. */
  lemma {:induction false} FlattenRemoveAll<V>(m: Multimap<V>, filter: V -> bool)
    ensures Flatten(RemoveAll(m, filter)) == FilterOut(Flatten(m), filter)
  {
    if m != [] {
      assert RemoveAll(m, filter)[1..] == RemoveAll(m[1..], filter);
      FlattenRemoveAll(m[1..], filter);
      FilterOutConcat(m[0].1, Flatten(m[1..]), filter);
    }
  }

  /** Sorted depends on the keys in order only. */
  lemma SortedByKeys<V>(a: Multimap<V>, b: Multimap<V>)
    requires KeysInOrder(a) == KeysInOrder(b) && Sorted(a)
    ensures Sorted(b) && KeySet(b) == KeySet(a)
  {
    forall i, j | 0 <= i < j < |b| ensures b[i].0 < b[j].0 {
      assert KeysInOrder(b)[i] == KeysInOrder(a)[i] && KeysInOrder(b)[j] == KeysInOrder(a)[j];
    }
    forall k | k in KeySet(b) ensures k in KeySet(a) {
      var i :| 0 <= i < |b| && b[i].0 == k;
      assert KeysInOrder(b)[i] == KeysInOrder(a)[i];
    }
    forall k | k in KeySet(a) ensures k in KeySet(b) {
      var i :| 0 <= i < |a| && a[i].0 == k;
      assert KeysInOrder(b)[i] == KeysInOrder(a)[i];
    }
  }

  /** The sub-map of keys in [lo, hi] is well keyed, and holds the lists of
      exactly those keys. */
  lemma SubMapSpec<V>(m: Multimap<V>, key: V -> int, lo: int, hi: int)
    requires Sorted(m) && WellKeyed(m, key)
    ensures Sorted(SubMap(m, lo, hi)) && WellKeyed(SubMap(m, lo, hi), key)
    ensures forall k :: ListFor(SubMap(m, lo, hi), k) == if lo <= k <= hi then ListFor(m, k) else []
  {
    var r := SubMap(m, lo, hi);
    SubMapSorted(m, lo, hi);
    forall i, j | 0 <= i < |r| && 0 <= j < |r[i].1| ensures key(r[i].1[j]) == r[i].0 {
      assert r[i] in m;
      WellKeyedMember(m, key, r[i], r[i].1[j]);
    }
    forall k ensures ListFor(r, k) == if lo <= k <= hi then ListFor(m, k) else [] {
      SubMapGet(m, lo, hi, k);
    }
  }

  /** The values come in non-decreasing key order. */
  predicate KeyOrdered<V>(s: seq<V>, key: V -> int)
  {
    forall i, j :: 0 <= i < j < |s| ==> key(s[i]) <= key(s[j])
  }

  /** Dropping values keeps a key order. */
  lemma {:induction false} FilterOutKeyOrder<V>(s: seq<V>, key: V -> int, filter: V -> bool)
    requires KeyOrdered(s, key)
    ensures KeyOrdered(FilterOut(s, filter), key)
  {
    if s != [] {
      FilterOutKeyOrder(s[1..], key, filter);
      var rest := FilterOut(s[1..], filter);
      assert KeyOrdered(rest, key);
      forall j | 0 <= j < |rest| ensures key(s[0]) <= key(rest[j]) {
        var i :| 0 <= i < |s[1..]| && s[1..][i] == rest[j];
        assert s[i + 1] == rest[j];
      }
      if !filter(s[0]) {
        assert FilterOut(s, filter) == [s[0]] + rest;
        ConsKeyOrdered(s[0], rest, key);
      }
    }
  }

  /** A value whose key is at most every key of a key-ordered list heads a
      key-ordered list. */
  lemma ConsKeyOrdered<V>(x: V, rest: seq<V>, key: V -> int)
    requires KeyOrdered(rest, key) && forall j :: 0 <= j < |rest| ==> key(x) <= key(rest[j])
    ensures KeyOrdered([x] + rest, key)
  {
    var r := [x] + rest;
    forall i, j | 0 <= i < j < |r| ensures key(r[i]) <= key(r[j]) {
      assert r[j] == rest[j - 1];
      if i > 0 {
        assert r[i] == rest[i - 1];
      }
    }
  }
}
