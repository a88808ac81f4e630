/** The TreasuryDirect data sheet as the importer reads it: a header row that
    locates the three interesting columns, then one row per rate period. */
module RateSheet {
  import opened Wrappers
  import opened Calendar
  import opened TreeMaps
  import opened ColumnHeaders
  import opened Rates

  /** fastexcel CellType, with the kinds the importer does not use merged into one. */
  datatype CellType = NumberType | StringType | FormulaType | OtherType

  /** A cell: a number, a string, a formula (which in this sheet yields the
      start date) or anything else. */
  datatype Cell =
    | NumberCell(number: real)
    | StringCell(text: string)
    | FormulaCell(date: Date)
    | OtherCell

  function TypeOf(cell: Cell): CellType
  {
    match cell
    case NumberCell(_) => NumberType
    case StringCell(_) => StringType
    case FormulaCell(_) => FormulaType
    case OtherCell => OtherType
  }

  /** A row, indexed by column; None is a column with no cell. */
  type Row = seq<Option<Cell>>

  /** getCellOfType: the cell at the column when it has the desired type. */
  function GetCellOfType(colIndex: nat, desiredType: CellType, row: Row): (r: Option<Cell>)
    ensures r.Some? <==> colIndex < |row| && row[colIndex].Some? && TypeOf(row[colIndex].value) == desiredType
    ensures r.Some? ==> r.value == row[colIndex].value
  {
    if colIndex < |row| && row[colIndex].Some? && TypeOf(row[colIndex].value) == desiredType
    then row[colIndex] else None
  }

  /** A header cell that names the given column role. */
  predicate NamesRole(cell: Option<Cell>, valMap: map<string, ColHdr>, role: ColHdr)
  {
    cell.Some? && cell.value.StringCell? && Lookup(valMap, cell.value.text) == role
  }

  /** The column the header scan leaves for a role: the last header cell
      naming it, or the previous column index when no cell names it. */
  function LastColumn(header: Row, valMap: map<string, ColHdr>, role: ColHdr, previous: int): int
  {
    if header == [] then previous
    else if NamesRole(header[|header| - 1], valMap, role) then |header| - 1
    else LastColumn(header[..|header| - 1], valMap, role, previous)
  }

  /** The column found is a cell naming the role with no later cell naming
      it, or the previous index when no cell names the role. */
  lemma {:induction false} LastColumnIsLast(header: Row, valMap: map<string, ColHdr>, role: ColHdr, previous: int)
    ensures var c := LastColumn(header, valMap, role, previous);
      (c == previous || (0 <= c < |header| && NamesRole(header[c], valMap, role)))
      && forall i :: c < i < |header| && 0 <= i ==> !NamesRole(header[i], valMap, role)
  {
    if header != [] && !NamesRole(header[|header| - 1], valMap, role) {
      var init := header[..|header| - 1];
      LastColumnIsLast(init, valMap, role, previous);
      assert forall i :: 0 <= i < |init| ==> init[i] == header[i];
    }
  }

  /** One more header cell scanned. */
  lemma LastColumnStep(header: Row, i: nat, valMap: map<string, ColHdr>, role: ColHdr, previous: int)
    requires i < |header|
    ensures LastColumn(header[..i + 1], valMap, role, previous)
      == if NamesRole(header[i], valMap, role) then i else LastColumn(header[..i], valMap, role, previous)
  {
    assert header[..i + 1][..i] == header[..i];
  }

  /** The three column indexes: inflation rate, fixed rate, start date. */
  datatype Columns = Columns(iRateCol: int, fRateCol: int, sDateCol: int) {
    predicate Located()
    {
      iRateCol >= 0 && fRateCol >= 0 && sDateCol >= 0
    }
  }

  /** The column indexes after scanning the header row (none when the sheet is empty). */
  function ScanHeader(sheet: seq<Row>, valMap: map<string, ColHdr>, previous: Columns): Columns
  {
    if sheet == [] then previous
    else Columns(LastColumn(sheet[0], valMap, IRate, previous.iRateCol),
                 LastColumn(sheet[0], valMap, FRate, previous.fRateCol),
                 LastColumn(sheet[0], valMap, SDate, previous.sDateCol))
  }

  /** A header row that names all three roles locates all three columns, from
      any previous state; from the initial state (all -1) nothing else does. */
  lemma ScanHeaderLocates(sheet: seq<Row>, valMap: map<string, ColHdr>, previous: Columns)
    ensures sheet != [] && (exists i :: 0 <= i < |sheet[0]| && NamesRole(sheet[0][i], valMap, IRate))
      && (exists i :: 0 <= i < |sheet[0]| && NamesRole(sheet[0][i], valMap, FRate))
      && (exists i :: 0 <= i < |sheet[0]| && NamesRole(sheet[0][i], valMap, SDate))
      ==> ScanHeader(sheet, valMap, previous).Located()
    ensures previous == Columns(-1, -1, -1) && ScanHeader(sheet, valMap, previous).Located() ==>
      var c := ScanHeader(sheet, valMap, previous);
      sheet != [] && c.iRateCol < |sheet[0]| && c.fRateCol < |sheet[0]| && c.sDateCol < |sheet[0]|
      && NamesRole(sheet[0][c.iRateCol], valMap, IRate) && NamesRole(sheet[0][c.fRateCol], valMap, FRate)
      && NamesRole(sheet[0][c.sDateCol], valMap, SDate)
  {
    if sheet != [] {
      var h := sheet[0];
      LastColumnIsLast(h, valMap, IRate, previous.iRateCol);
      LastColumnIsLast(h, valMap, FRate, previous.fRateCol);
      LastColumnIsLast(h, valMap, SDate, previous.sDateCol);
      if exists i :: 0 <= i < |h| && NamesRole(h[i], valMap, IRate) {
        var i :| 0 <= i < |h| && NamesRole(h[i], valMap, IRate);
        var c := LastColumn(h, valMap, IRate, previous.iRateCol);
        assert c >= i || c == previous.iRateCol;
      }
    }
  }

  /** The rate record a data row yields: the two rates as numbers and the start
      date as a formula, rates cleaned to four places; None for any other row. */
  function RowEntry(row: Row, cols: Columns): (r: Option<RateRec>)
    requires cols.Located()
    ensures r.Some? <==> (GetCellOfType(cols.iRateCol, NumberType, row).Some?
                          && GetCellOfType(cols.fRateCol, NumberType, row).Some?
                          && GetCellOfType(cols.sDateCol, FormulaType, row).Some?)
    ensures r.Some? ==>
      r.value.inflationRate == GetInterestRateClean(row[cols.iRateCol].value.number)
      && r.value.fixedRate == GetInterestRateClean(row[cols.fRateCol].value.number)
      && r.value.startDate == row[cols.sDateCol].value.date
  {
    var iRateCell := GetCellOfType(cols.iRateCol, NumberType, row);
    var fRateCell := GetCellOfType(cols.fRateCol, NumberType, row);
    var sDateCell := GetCellOfType(cols.sDateCol, FormulaType, row);
    if iRateCell.Some? && fRateCell.Some? && sDateCell.Some? then
      Some(RateRec(GetInterestRateClean(iRateCell.value.number),
                   GetInterestRateClean(fRateCell.value.number),
                   sDateCell.value.date))
    else None
  }

  /** getIBondRates(Spliterator): every qualifying row put into the map, in sheet order. */
  function LoadRows(rows: seq<Row>, cols: Columns): (table: RateTable)
    requires cols.Located()
    ensures ValidTable(table)
  {
    if rows == [] then []
    else
      var table := LoadRows(rows[..|rows| - 1], cols);
      match RowEntry(rows[|rows| - 1], cols)
      case None => table
      case Some(rec) => PutRate(table, rec)
  }

  /** TreeMap.put keyed by the record's start date. */
  function PutRate(table: RateTable, rec: RateRec): (r: RateTable)
    requires ValidTable(table)
    ensures ValidTable(r) && r == Put(table, DateKey(rec.startDate), rec)
  {
    PutKeepsKeys(table, DateKey(rec.startDate), rec);
    Put(table, DateKey(rec.startDate), rec)
  }

  lemma {:induction false} PutKeepsKeys(table: RateTable, k: int, rec: RateRec)
    requires ValidTable(table) && k == DateKey(rec.startDate)
    ensures forall i :: 0 <= i < |Put(table, k, rec)| ==>
      Put(table, k, rec)[i].0 == DateKey(Put(table, k, rec)[i].1.startDate)
  {
    if table != [] && k > table[0].0 {
      PutKeepsKeys(table[1..], k, rec);
    }
  }

  /** The row yields a record with the given start date. */
  predicate RowCarries(row: Row, cols: Columns, date: Date)
    requires cols.Located()
  {
    RowEntry(row, cols).Some? && RowEntry(row, cols).value.startDate == date
  }

  /** Some row yields a record with the given start date. */
  predicate CarriesDate(rows: seq<Row>, cols: Columns, date: Date)
    requires cols.Located()
  {
    exists j :: 0 <= j < |rows| && RowCarries(rows[j], cols, date)
  }

  /** The entry for a start date, independent of the map: the record of the
      last row in the sheet that yields a record with that date. */
  function LastRowFor(rows: seq<Row>, cols: Columns, date: Date): (r: Option<RateRec>)
    requires cols.Located()
    ensures r.Some? ==> r.value.startDate == date
  {
    if rows == [] then None
    else if RowCarries(rows[|rows| - 1], cols, date) then RowEntry(rows[|rows| - 1], cols)
    else LastRowFor(rows[..|rows| - 1], cols, date)
  }

  /** LastRowFor finds nothing exactly when no row carries the date. */
  lemma {:induction false} LastRowForNone(rows: seq<Row>, cols: Columns, date: Date)
    requires cols.Located()
    ensures LastRowFor(rows, cols, date).None? <==> !CarriesDate(rows, cols, date)
  {
    if rows != [] {
      var n := |rows|;
      var front := rows[..n - 1];
      if !RowCarries(rows[n - 1], cols, date) {
        LastRowForNone(front, cols, date);
        if CarriesDate(rows, cols, date) {
          var j :| 0 <= j < n && RowCarries(rows[j], cols, date);
          assert rows[j] == front[j];
        }
        if CarriesDate(front, cols, date) {
          var j :| 0 <= j < n - 1 && RowCarries(front[j], cols, date);
          assert rows[j] == front[j];
        }
      }
    }
  }

  /** What LastRowFor finds is the record of a row that no later row carrying
      the date overrides. */
  lemma {:induction false} LastRowForLast(rows: seq<Row>, cols: Columns, date: Date)
    requires cols.Located() && LastRowFor(rows, cols, date).Some?
    ensures exists j :: 0 <= j < |rows| && RowEntry(rows[j], cols) == LastRowFor(rows, cols, date)
                        && !CarriesDate(rows[j + 1..], cols, date)
  {
    var n := |rows|;
    if RowCarries(rows[n - 1], cols, date) {
      assert !CarriesDate(rows[n..], cols, date);
    } else {
      var front := rows[..n - 1];
      LastRowForLast(front, cols, date);
      var j :| 0 <= j < |front| && RowEntry(front[j], cols) == LastRowFor(front, cols, date)
               && !CarriesDate(front[j + 1..], cols, date);
      assert rows[j] == front[j];
      LaterRowsExtend(rows, j, cols, date);
    }
  }

  /** Rows after j up to the last: if none before the last carries the date
      and the last does not, none does. */
  lemma LaterRowsExtend(rows: seq<Row>, j: nat, cols: Columns, date: Date)
    requires cols.Located() && j < |rows| - 1
    requires !CarriesDate(rows[..|rows| - 1][j + 1..], cols, date) && !RowCarries(rows[|rows| - 1], cols, date)
    ensures !CarriesDate(rows[j + 1..], cols, date)
  {
    var front := rows[..|rows| - 1];
    var tail := rows[j + 1..];
    forall k | 0 <= k < |tail|
      ensures !RowCarries(tail[k], cols, date)
    {
      if k < |front[j + 1..]| {
        assert tail[k] == front[j + 1..][k];
      } else {
        assert tail[k] == rows[|rows| - 1];
      }
    }
  }

  /** The loaded map holds, for each start date, the last row carrying it. */
  lemma {:induction false} LoadRowsLookup(rows: seq<Row>, cols: Columns, date: Date)
    requires cols.Located()
    ensures Get(LoadRows(rows, cols), DateKey(date)) == LastRowFor(rows, cols, date)
  {
    if rows != [] {
      var front := rows[..|rows| - 1];
      LoadRowsLookup(front, cols, date);
      var e := RowEntry(rows[|rows| - 1], cols);
      if e.Some? {
        GetPut(LoadRows(front, cols), DateKey(e.value.startDate), e.value, DateKey(date));
        if DateKey(e.value.startDate) == DateKey(date) {
          DateKeyInjective(e.value.startDate, date);
        }
      }
    }
  }

  /** The header row then the data rows: the remaining rows after the header. */
  function DataRows(sheet: seq<Row>): seq<Row>
  {
    if sheet == [] then [] else sheet[1..]
  }

  /** The outcome of public getIBondRates from a given state: the cached map,
      or the map loaded from the sheet once the header row locates every column. */
  function RatesFrom(cached: Option<RateTable>, sheet: seq<Row>, valMap: map<string, ColHdr>,
                     previous: Columns): (r: Result<RateTable, ImportError>)
    requires cached.Some? ==> ValidTable(cached.value)
    ensures r.Success? ==> ValidTable(r.value)
    ensures r.Failure? ==> r.error == MissingColumnHeaders
    ensures cached.None? ==> (r.Success? <==> ScanHeader(sheet, valMap, previous).Located())
    ensures cached.Some? ==> r == Success(cached.value)
    ensures cached.None? && r.Success? ==> r.value == LoadRows(DataRows(sheet), ScanHeader(sheet, valMap, previous))
  {
    if cached.Some? then Success(cached.value)
    else
      var cols := ScanHeader(sheet, valMap, previous);
      if cols.Located() then Success(LoadRows(DataRows(sheet), cols))
      else Failure(MissingColumnHeaders)
  }
}
