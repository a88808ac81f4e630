/** IBondHistColHdr: the roles of the rate-history columns and the shared
    table that maps header text to a role. */
module ColumnHeaders {

  /** The enum values iRate, fRate, sDate and other. */
  datatype ColHdr = IRate | FRate | SDate | Other

  /** The header-name map after the three configured names are put, in the
      order inflation rate, fixed rate, start date (a later put overwrites). */
  function Register(valMap: map<string, ColHdr>, iRateName: string, fRateName: string,
                    sDateName: string): (r: map<string, ColHdr>)
    ensures r.Keys == valMap.Keys + {iRateName, fRateName, sDateName}
    ensures r[sDateName] == SDate
    ensures fRateName != sDateName ==> r[fRateName] == FRate
    ensures iRateName != fRateName && iRateName != sDateName ==> r[iRateName] == IRate
    ensures forall name :: (name in valMap && name != iRateName && name != fRateName
                            && name != sDateName) ==> r[name] == valMap[name]
  {
    valMap[iRateName := IRate][fRateName := FRate][sDateName := SDate]
  }

  /** getEnum: the registered role of a header text, or Other when it has none. */
  function Lookup(valMap: map<string, ColHdr>, value: string): (r: ColHdr)
    ensures value in valMap ==> r == valMap[value]
    ensures value !in valMap ==> r == Other
  {
    if value in valMap then valMap[value] else Other
  }

  /** With distinct names, each configured name maps to its own role. */
  lemma RegisterDistinctNames(valMap: map<string, ColHdr>, i: string, f: string, s: string)
    requires i != f && i != s && f != s
    ensures Lookup(Register(valMap, i, f, s), i) == IRate
    ensures Lookup(Register(valMap, i, f, s), f) == FRate
    ensures Lookup(Register(valMap, i, f, s), s) == SDate
  {
  }

  /** Coinciding names: the start-date role wins over the fixed-rate role,
      which wins over the inflation-rate role. */
  lemma RegisterLaterWins(valMap: map<string, ColHdr>, i: string, f: string, s: string)
    ensures f == s ==> Lookup(Register(valMap, i, f, s), f) == SDate
    ensures i == s ==> Lookup(Register(valMap, i, f, s), i) == SDate
    ensures i == f && f != s ==> Lookup(Register(valMap, i, f, s), i) == FRate
  {
  }

  /** Registering again only adds or overwrites: every earlier name stays mapped. */
  lemma RegisterKeepsEarlierNames(valMap: map<string, ColHdr>, i: string, f: string, s: string,
                                  name: string)
    requires name in valMap
    ensures name in Register(valMap, i, f, s)
    ensures name != i && name != f && name != s ==>
      Lookup(Register(valMap, i, f, s), name) == Lookup(valMap, name)
  {
  }

  /** The static HashMap valMap of IBondHistColHdr, as one shared object. */
  class ColumnHeaderTable {
    var valMap: map<string, ColHdr>

    constructor ()
      ensures valMap == map[]
    {
      valMap := map[];
    }

    /** initializeColumns */
    method InitializeColumns(iRateName: string, fRateName: string, sDateName: string)
      modifies this
      ensures valMap == Register(old(valMap), iRateName, fRateName, sDateName)
    {
      valMap := valMap[iRateName := IRate];
      valMap := valMap[fRateName := FRate];
      valMap := valMap[sDateName := SDate];
    }

    /** getEnum never yields null: an unregistered header is Other. */
    function GetEnum(value: string): (r: ColHdr)
      reads this
      ensures value in valMap ==> r == valMap[value]
      ensures value !in valMap ==> r == Other
    {
      Lookup(valMap, value)
    }
  }
}
