/** CalcTxnList: calculated interest payments grouped by payment month, a
    TreeMap from month to the list of that month's records in insertion
    order, keyed here by MonthIndex. */
module CalcTxnLists {
  import opened Wrappers
  import opened Calendar
  import opened TreeMaps
  import opened Multimaps
  import opened CalcTxns

  /** The map key a record is filed under. */
  function Key(t: CalcTxn): int
  {
    MonthIndex(t.payMonth)
  }

  /** The months of the map strictly after month key lo, in ascending order. */
  function MonthsAfter(m: Multimap<CalcTxn>, lo: int): (r: seq<YearMonth>)
    requires Sorted(m)
    ensures forall ym :: ym in r <==> MonthIndex(ym) in KeySet(m) && lo < MonthIndex(ym)
    ensures forall i, j :: 0 <= i < j < |r| ==> IsBeforeMonth(r[i], r[j])
  {
    if m == [] then []
    else
      KeySetCons(m);
      var rest := MonthsAfter(m[1..], lo);
      forall ym | ym in rest ensures m[0].0 < MonthIndex(ym) {
        var i :| 0 <= i < |m[1..]| && m[1..][i].0 == MonthIndex(ym);
        assert m[i + 1].0 == MonthIndex(ym);
      }
      forall ym | MonthIndex(ym) == m[0].0 ensures ym == FromMonthIndex(m[0].0) {
        MonthIndexInjective(ym, FromMonthIndex(m[0].0));
      }
      (if lo < m[0].0 then [FromMonthIndex(m[0].0)] else []) + rest
  }

  /** The error TreeMap raises in tailKeys. */
  datatype TailKeysError = NoSuchElement | IllegalArgument

  class CalcTxnList {
    var txnListMap: Multimap<CalcTxn>

    predicate Valid()
      reads this
    {
      Sorted(txnListMap) && WellKeyed(txnListMap, Key)
    }

    constructor ()
      ensures Valid() && txnListMap == []
    {
      txnListMap := [];
    }

    /** add: the record goes to the end of its month's list, the month key
        is created if absent, and no other month changes. */
    method Add(txnRec: CalcTxn)
      requires Valid()
      modifies this
      ensures Valid()
      ensures KeySet(txnListMap) == old(KeySet(txnListMap)) + {Key(txnRec)}
      ensures forall k :: ListFor(txnListMap, k) ==
                if k == Key(txnRec) then old(ListFor(txnListMap, k)) + [txnRec] else old(ListFor(txnListMap, k))
    {
      AppendSpec(txnListMap, Key, txnRec);
      txnListMap := Append(txnListMap, Key, txnRec);
    }

    /** getForMonth: None (Java's null) exactly when no record was ever filed
        under the month; otherwise that month's list, all of whose records
        are paid in that month. */
    function GetForMonth(month: YearMonth): (r: Option<seq<CalcTxn>>)
      requires Valid()
      reads this
      ensures r.None? <==> MonthIndex(month) !in KeySet(txnListMap)
      ensures r.Some? ==> r.value == ListFor(txnListMap, MonthIndex(month))
      ensures r.Some? ==> forall i :: 0 <= i < |r.value| ==> r.value[i].payMonth == month
    {
      var r := Get(txnListMap, MonthIndex(month));
      if r.Some? then
        forall i | 0 <= i < |r.value| ensures r.value[i].payMonth == month {
          WellKeyedMember(txnListMap, Key, (MonthIndex(month), r.value), r.value[i]);
          MonthIndexInjective(r.value[i].payMonth, month);
        }
        r
      else r
    }

    /** tailKeys: the months after fromMonth up to and including the last
        key. lastKey fails on an empty map, and subSet fails when fromMonth
        lies after the last key. */
    function TailKeys(fromMonth: YearMonth): (r: Result<seq<YearMonth>, TailKeysError>)
      requires Valid()
      reads this
      ensures r == Failure(NoSuchElement) <==> txnListMap == []
      ensures r == Failure(IllegalArgument) <==>
                txnListMap != [] && forall k :: k in KeySet(txnListMap) ==> k < MonthIndex(fromMonth)
      ensures r.Success? ==> forall ym :: ym in r.value <==>
                MonthIndex(ym) in KeySet(txnListMap) && IsBeforeMonth(fromMonth, ym)
      ensures r.Success? ==> forall i, j :: 0 <= i < j < |r.value| ==> IsBeforeMonth(r.value[i], r.value[j])
    {
      if txnListMap == [] then Failure(NoSuchElement)
      else
        LastKeyIsGreatest(txnListMap);
        var lastKey := txnListMap[|txnListMap| - 1].0;
        if MonthIndex(fromMonth) > lastKey then Failure(IllegalArgument)
        else
          var r := MonthsAfter(txnListMap, MonthIndex(fromMonth));
          forall ym ensures IsBeforeMonth(fromMonth, ym) <==> MonthIndex(fromMonth) < MonthIndex(ym) {
            IsBeforeMonthByIndex(fromMonth, ym);
          }
          Success(r)
    }

    /** forEach: the records in the order the action is applied to them. */
    method ForEach() returns (visited: seq<CalcTxn>)
      ensures visited == Flatten(txnListMap)
    {
      visited := [];
      var i := 0;
      while i < |txnListMap|
        invariant 0 <= i <= |txnListMap|
        invariant visited + Flatten(txnListMap[i..]) == Flatten(txnListMap)
      {
        assert txnListMap[i..][1..] == txnListMap[i + 1..];
        visited := visited + txnListMap[i].1;
        i := i + 1;
      }
    }

    /** removeIf: every month's list drops the records the filter matches;
        month keys stay, even for months left with an empty list. */
    method RemoveIf(filter: CalcTxn -> bool)
      requires Valid()
      modifies this
      ensures Valid()
      ensures txnListMap == RemoveAll(old(txnListMap), filter)
    {
      var result: Multimap<CalcTxn> := [];
      var i := 0;
      while i < |txnListMap|
        invariant 0 <= i <= |txnListMap|
        invariant result == RemoveAll(txnListMap[..i], filter)
      {
        assert txnListMap[..i + 1][..i] == txnListMap[..i];
        result := result + [(txnListMap[i].0, FilterOut(txnListMap[i].1, filter))];
        i := i + 1;
      }
      assert txnListMap[..i] == txnListMap;
      RemoveAllKeeps(txnListMap, Key, filter);
      SortedByKeys(txnListMap, result);
      txnListMap := result;
    }
  }

  /** forEach visits the months in ascending order, and each month's records
      in the order they were added. */
  lemma ForEachOrder(m: Multimap<CalcTxn>, month: YearMonth)
    requires Sorted(m) && WellKeyed(m, Key)
    ensures var visited := Flatten(m);
      forall i, j :: 0 <= i < j < |visited| ==> !IsBeforeMonth(visited[j].payMonth, visited[i].payMonth)
    ensures OfKey(Flatten(m), Key, MonthIndex(month)) == ListFor(m, MonthIndex(month))
  {
    var visited := Flatten(m);
    FlattenKeyOrder(m, Key);
    forall i, j | 0 <= i < j < |visited| ensures !IsBeforeMonth(visited[j].payMonth, visited[i].payMonth) {
      IsBeforeMonthByIndex(visited[j].payMonth, visited[i].payMonth);
    }
    FlattenOfKey(m, Key, MonthIndex(month));
  }

  /** After removeIf, forEach visits exactly the records the filter rejects,
      in their old order, and every month key remains. */
  lemma RemoveIfEffect(m: Multimap<CalcTxn>, filter: CalcTxn -> bool)
    ensures Flatten(RemoveAll(m, filter)) == FilterOut(Flatten(m), filter)
    ensures KeysInOrder(RemoveAll(m, filter)) == KeysInOrder(m)
  {
    FlattenRemoveAll(m, filter);
    RemoveAllKeeps(m, Key, filter);
  }
}
