# I bond values: a verified model

This project models the valuation core of the Moneydance "ibondvalues"
extension. The extension works out the monthly interest that a Series I
savings bond earns and records it in the ledger as dividend reinvestments:

- **Rate history.** The `IBondImporter` reads the Treasury's rate history
  sheet. It locates the inflation-rate, fixed-rate and start-date columns by
  their header names and loads a date-keyed table of rate records. It finds
  the record in force for a month by a floor lookup.
- **Interest schedule.** For a ticker naming an issue month, the importer
  takes the fixed rate of the issue month. For each six-month epoch it forms
  the composite rate, `(fixed + 2 x inflation + fixed x inflation)`, which is
  floored at zero and rounded half-even to four places. It then pays one month
  of non-compounding interest at a time. Each payment is rounded to cents,
  dated the first day of the following month and labelled with a memo naming
  the month earned.
- **Early-years deferral.** Payments dated before the bond's fifth anniversary
  are deferred by three months, but never past the anniversary. Payments dated
  after today are dropped.
- **Recording.** The `IBondWorker` selects the investment accounts that hold
  the bond at the end of its issue month. It discards calculated payments
  after the current month and stages a `TxnHandler` for every payment the
  ledger does not already hold as a matching dividend reinvestment. It then
  commits the staged handlers. Each handler converts the payment to long
  amounts in the accounts' decimal places.
- **Supporting records.** `CalcTxnList` (month-keyed lists of calculated
  payments), `InvestTxnList` (the ledger's transactions grouped by date),
  `InterestTxnRec`, `CalcTxn`, `IBondBalanceRec`, `PriceRec` and the
  column-header table `IBondHistColHdr`.

Modelling choices:

- `BigDecimal` values are exact `real`s. Where the scale of a decimal is
  observable, as in `PriceRec.equals` and `changeForMonth`, they are
  `Decimal(unscaled, scale)`.
- A `TreeMap` is a key-sorted association list with integer keys (a month
  index, or a date key that orders dates as `LocalDate` does).
- Java `long` is a 64-bit subset type, and its addition wraps explicitly.
- Objects whose fields the source updates in place are classes:
  `IBondImporter`, `IBondWorker`, `CalcTxnList`, `InvestTxnList`,
  `InterestTxnRec`, `CalcTxn`, `IBondBalanceRec`, `PriceRec` and the
  column-header table. Their methods are proved against functions of the old
  state: `InterestEngine.Epoch`, `Epochs`, `InterestTxnsFor`, `DeferAll`,
  `KeepNotAfter`, `RateSheet.LoadRows`, `Multimaps.Flatten`, `RemoveAll` and
  `IBondWorkers.Staged`.

Behaviour of the code worth stating plainly:

- `PriceRec` is only a record with `equals` and `hashCode`
  (PriceRec.java lines 10-47).
- `CalcTxnList.tailKeys` only returns the later month keys
  (CalcTxnList.java lines 46-50); the months after them are not replayed.
- A record is emitted for every month of an epoch, even when the interest
  rounds to zero (IBondImporter.java lines 308-313).

Modules:

| Module | Contents |
|---|---|
| `Wrappers` | the result and option types |
| `Calendar` | `YearMonth`, `LocalDate` and month arithmetic |
| `Decimals` | half-even rounding and scale |
| `Text` | `equalsIgnoreCase` |
| `Longs` | long range and wrap-around |
| `TreeMaps` | sorted maps: `put`, `get`, `floorKey`, `subMap`, `lastKey` |
| `Multimaps` | a sorted map of lists |
| `Rates` | `combineRate`, `getInterestRateClean`, `getRateForMonth` on a table |
| `Tickers` | `getDateForTicker` |
| `ColumnHeaders` | `IBondHistColHdr` |
| `RateSheet` | `loadColumnIndexes`, `getCellOfType`, `getIBondRates` as functions of the sheet |
| `InterestEngine` | the interest schedule as functions |
| `Importer` | the `IBondImporter` class |
| `InterestTxns`, `CalcTxns`, `BalanceRecs`, `PriceRecs` | records |
| `CalcTxnLists`, `InvestTxnLists` | the two lists |
| `TxnHandlers` | `asLong` and `applyUpdate` |
| `IBondWorkers` | the `IBondWorker` class and its account selection |

## Model

| member | source | states |
|---|---|---|
| Decimals.RoundHalfEven | ibond-values/src/main/java/com/moneydance/modules/features/ibondvalues/IBondImporter.java:143 | `setScale(places, HALF_EVEN)`: the result has at most `places` decimals and is the half-even rounded number of units of 10^-places |
| Decimals.HalfEvenIntCharacterized | ibond-values/src/main/java/com/moneydance/modules/features/ibondvalues/IBondImporter.java:287 | the whole number chosen is the nearest one, the even one at an exact half, and no other number qualifies |
| Decimals.RoundHalfEvenNearest | ibond-values/src/main/java/com/moneydance/modules/features/ibondvalues/IBondImporter.java:309 | rounding moves a value by at most half a unit of its last kept place |
| Decimals.RoundHalfEvenOfScaled | ibond-values/src/main/java/com/moneydance/modules/features/ibondvalues/IBondImporter.java:287 | a value that already has the scale is left unchanged |
| Decimals.RoundHalfEvenMonotone | ibond-values/src/main/java/com/moneydance/modules/features/ibondvalues/IBondImporter.java:287 | rounding preserves order |
| Decimals.EqualsIsStricterThanCompareTo | ibond-values/src/main/java/com/moneydance/modules/features/ibondvalues/PriceRec.java:38 | BigDecimal `equals` implies equal values, and 1.0 and 1.00 have equal values but are not `equals` |
| Calendar.PlusMonths | ibond-values/src/main/java/com/moneydance/modules/features/ibondvalues/IBondImporter.java:311 | `YearMonth.plusMonths` moves the month index by exactly n |
| Calendar.PlusYears | ibond-values/src/main/java/com/moneydance/modules/features/ibondvalues/IBondImporter.java:333 | `plusYears(n)` fails exactly when the new year is outside the years java.time allows (beyond 999,999,999 either way) and is otherwise `plusMonths(12n)` |
| Calendar.IsBeforeMonthByIndex | ibond-values/src/main/java/com/moneydance/modules/features/ibondvalues/IBondImporter.java:368 | `YearMonth.isBefore` is the order of month indexes |
| Calendar.AtDay1 | ibond-values/src/main/java/com/moneydance/modules/features/ibondvalues/CalcTxn.java:26 | `atDay(1)` is a valid date, on day 1, in the same month |
| Calendar.AtEndOfMonth | ibond-values/src/main/java/com/moneydance/modules/features/ibondvalues/InvestTxnList.java:66 | `atEndOfMonth` is a valid date of the month that no valid date of that month follows |
| Calendar.PlusMonthsDate | ibond-values/src/main/java/com/moneydance/modules/features/ibondvalues/InterestTxnRec.java:58 | `LocalDate.plusMonths` gives a valid date in the month n months on: the same day of the month when the new month has it, and otherwise the new month's last day |
| Calendar.DateKeyOrder | ibond-values/src/main/java/com/moneydance/modules/features/ibondvalues/InvestTxnList.java:21 | the integer key of a date orders dates as `LocalDate.isBefore` does, so a date-keyed TreeMap is a key-sorted list |
| TreeMaps.GetPut | ibond-values/src/main/java/com/moneydance/modules/features/ibondvalues/IBondImporter.java:206 | after `put(k, v)`, `get(k)` is v and every other key answers as before |
| TreeMaps.FloorEntrySpec | ibond-values/src/main/java/com/moneydance/modules/features/ibondvalues/IBondImporter.java:258 | `floorKey` is absent exactly when every key is greater; otherwise it is the greatest key not above the argument |
| TreeMaps.SubMapGet | ibond-values/src/main/java/com/moneydance/modules/features/ibondvalues/InvestTxnList.java:66 | `subMap(lo, true, hi, true)` answers `get` as the map does inside [lo, hi] and holds nothing outside |
| TreeMaps.LastKeyIsGreatest | ibond-values/src/main/java/com/moneydance/modules/features/ibondvalues/CalcTxnList.java:49 | `lastKey` of a non-empty map is its greatest key |
| Text.EqualsIgnoreCaseIsEquivalence | ibond-values/src/main/java/com/moneydance/modules/features/ibondvalues/InvestTxnList.java:49 | `equalsIgnoreCase` is reflexive, symmetric and transitive |
| Longs.Wrap | ibond-values/src/main/java/com/moneydance/modules/features/ibondvalues/IBondWorker.java:145 | the long a sum wraps to differs from it by a multiple of 2^64 and is the sum itself when it fits |
| Longs.LongSumIsWrappedSum | ibond-values/src/main/java/com/moneydance/modules/features/ibondvalues/IBondWorker.java:145 | `LongStream.sum` is the exact sum wrapped once, and equals it whenever it fits in a long |
| Rates.GetInterestRateClean | ibond-values/src/main/java/com/moneydance/modules/features/ibondvalues/IBondImporter.java:140-144 | a cleaned rate has at most four decimals, and its number of units of 10^-4 is the half-even rounding of the cell's: the nearest whole number, the even one at an exact half |
| Rates.CombineRate | ibond-values/src/main/java/com/moneydance/modules/features/ibondvalues/IBondImporter.java:278-290 | the composite is (fixed + 2) x inflation + fixed, replaced by 0 when negative, then rounded half-even to four places; it is never negative |
| Rates.CombineRateFloor | ibond-values/src/main/java/com/moneydance/modules/features/ibondvalues/IBondImporter.java:282-284 | a composite formula at or below zero gives the rate 0 |
| Rates.CombineRateNoInflation | ibond-values/src/main/java/com/moneydance/modules/features/ibondvalues/IBondImporter.java:278-290 | with no inflation the composite is the fixed rate (so combining 0 and 0 gives 0) |
| Rates.CombineRateMonotone | ibond-values/src/main/java/com/moneydance/modules/features/ibondvalues/IBondImporter.java:278-290 | for a non-negative fixed rate, more inflation never lowers the composite |
| Rates.RateForMonth | ibond-values/src/main/java/com/moneydance/modules/features/ibondvalues/IBondImporter.java:256-266 | fails with the no-rates error exactly when every start date is after the date; otherwise returns a table record starting on or before it, and no such record starts later |
| Tickers.GetDateForTicker | ibond-values/src/main/java/com/moneydance/modules/features/ibondvalues/IBondImporter.java:237-245 | a ticker parses exactly when it is the prefix in any ASCII letter case, an optional '-', and 3 to 21 digits whose last two name a month and whose others a year of at most 999,999,999 (not "-0"); it yields day 1 of that month in that year, negated after '-'; every other string is the parse error for that ticker |
| Tickers.ParseUnsigned | ibond-values/src/main/java/com/moneydance/modules/features/ibondvalues/IBondImporter.java:52-58 | prefix, year digits and two month digits parse to day 1 of that month |
| Tickers.ParseSigned | ibond-values/src/main/java/com/moneydance/modules/features/ibondvalues/IBondImporter.java:52-58 | prefix, '-', a non-zero year and two month digits parse to day 1 of that month in the negated year |
| Tickers.TickerRoundTrip | ibond-values/src/main/java/com/moneydance/modules/features/ibondvalues/IBondImporter.java:237-245 | the ticker of any month in the years java.time allows, with the prefix in any case, parses back to day 1 of that month |
| ColumnHeaders.Register | ibond-values/src/main/java/com/moneydance/modules/features/ibondvalues/IBondHistColHdr.java:27-33 | the three names join the keys, the start-date name maps to sDate, the others to their roles unless overwritten later, and every other name keeps its role |
| ColumnHeaders.Lookup | ibond-values/src/main/java/com/moneydance/modules/features/ibondvalues/IBondHistColHdr.java:40-47 | a registered name yields its role, any other name yields `other`, never null |
| ColumnHeaders.RegisterDistinctNames | ibond-values/src/main/java/com/moneydance/modules/features/ibondvalues/IBondHistColHdr.java:27-33 | with distinct names, i, f and s map to iRate, fRate and sDate |
| ColumnHeaders.RegisterLaterWins | ibond-values/src/main/java/com/moneydance/modules/features/ibondvalues/IBondHistColHdr.java:29-31 | when names coincide, sDate wins over fRate, which wins over iRate |
| ColumnHeaders.RegisterKeepsEarlierNames | ibond-values/src/main/java/com/moneydance/modules/features/ibondvalues/IBondHistColHdr.java:19 | registering again keeps every earlier name mapped, with its old role unless re-registered |
| ColumnHeaders.ColumnHeaderTable.constructor | ibond-values/src/main/java/com/moneydance/modules/features/ibondvalues/IBondHistColHdr.java:19 | the static map starts empty |
| ColumnHeaders.ColumnHeaderTable.InitializeColumns | ibond-values/src/main/java/com/moneydance/modules/features/ibondvalues/IBondHistColHdr.java:27-33 | the map after the three puts, in order, is `Register` of the old map |
| ColumnHeaders.ColumnHeaderTable.GetEnum | ibond-values/src/main/java/com/moneydance/modules/features/ibondvalues/IBondHistColHdr.java:40-47 | the role of a registered name, `other` otherwise |
| RateSheet.GetCellOfType | ibond-values/src/main/java/com/moneydance/modules/features/ibondvalues/IBondImporter.java:221-229 | a cell is returned exactly when the row has one at the column with the desired type, and it is that cell |
| RateSheet.LastColumnIsLast | ibond-values/src/main/java/com/moneydance/modules/features/ibondvalues/IBondImporter.java:170-180 | after the header scan a role's column names that role or keeps its previous value, and no later header cell names the role |
| RateSheet.ScanHeaderLocates | ibond-values/src/main/java/com/moneydance/modules/features/ibondvalues/IBondImporter.java:169-186 | a header row naming all three roles locates all three columns; from the initial -1 state, nothing else does, and each located column names its role |
| RateSheet.RowEntry | ibond-values/src/main/java/com/moneydance/modules/features/ibondvalues/IBondImporter.java:197-207 | a row yields a record exactly when both rate cells are numbers and the date cell is a formula; the rates are the cleaned numbers and the date is the formula's date |
| RateSheet.LoadRows | ibond-values/src/main/java/com/moneydance/modules/features/ibondvalues/IBondImporter.java:194-211 | the loaded map is sorted by key and keys every record by its own start date |
| RateSheet.LoadRowsLookup | ibond-values/src/main/java/com/moneydance/modules/features/ibondvalues/IBondImporter.java:194-211 | the map holds, for each start date, the record of the last row carrying that date, so later rows overwrite earlier ones |
| RateSheet.LastRowForNone | ibond-values/src/main/java/com/moneydance/modules/features/ibondvalues/IBondImporter.java:202-207 | a date has no entry exactly when no row yields a record with that date |
| RateSheet.LastRowForLast | ibond-values/src/main/java/com/moneydance/modules/features/ibondvalues/IBondImporter.java:202-207 | the entry for a date is the record of a row that no later row with that date overrides |
| RateSheet.RatesFrom | ibond-values/src/main/java/com/moneydance/modules/features/ibondvalues/IBondImporter.java:152-160 | a table returned is sorted and date-keyed; a cached table is returned unchanged; with nothing cached, a table is returned exactly when the header scan locates all three columns, and it is the table loaded from the data rows with those columns; the only error is the missing column headers |
| Importer.IBondImporter.constructor | ibond-values/src/main/java/com/moneydance/modules/features/ibondvalues/IBondImporter.java:77-81 | the configured header names are registered, no table is cached and no column is located |
| Importer.IBondImporter.LoadColumnIndexes | ibond-values/src/main/java/com/moneydance/modules/features/ibondvalues/IBondImporter.java:169-186 | the column fields become the header scan of the first row, and the call reports failure unless all three are located |
| Importer.IBondImporter.LoadRates | ibond-values/src/main/java/com/moneydance/modules/features/ibondvalues/IBondImporter.java:194-211 | the loop over the data rows builds exactly `LoadRows` |
| Importer.IBondImporter.GetIBondRates | ibond-values/src/main/java/com/moneydance/modules/features/ibondvalues/IBondImporter.java:152-160 | a cached table is returned unchanged; otherwise the columns are scanned, the rows loaded, and a successful table cached |
| Importer.IBondImporter.GetRateForMonth | ibond-values/src/main/java/com/moneydance/modules/features/ibondvalues/IBondImporter.java:256-266 | the floor lookup on the (possibly newly loaded) table, or the load's error |
| Importer.IBondImporter.AddNonCompoundingMonths | ibond-values/src/main/java/com/moneydance/modules/features/ibondvalues/IBondImporter.java:302-322 | the outcome is the epoch function's: its error on failure; on success six fresh records whose values are the epoch's records are appended, and its final balance is returned; earlier records stay in place |
| Importer.IBondImporter.AddMonth | ibond-values/src/main/java/com/moneydance/modules/features/ibondvalues/IBondImporter.java:309-318 | one month: the record of `MonthRecord`, its starting balance, and the next running state |
| Importer.IBondImporter.DeferInterestInFirstYears | ibond-values/src/main/java/com/moneydance/modules/features/ibondvalues/IBondImporter.java:331-344 | when the fifth anniversary is past year 999,999,999 the call fails with that year and no record changes; otherwise every record's value becomes its deferral at the anniversary, then exactly the records not dated after today are kept, in order |
| Importer.IBondImporter.DeferEarlyPayments | ibond-values/src/main/java/com/moneydance/modules/features/ibondvalues/IBondImporter.java:335-339 | the forEach defers each record as `DeferAll` says |
| Importer.IBondImporter.DeferAt | ibond-values/src/main/java/com/moneydance/modules/features/ibondvalues/IBondImporter.java:336-338 | one record is deferred and no other position changes |
| Importer.IBondImporter.GetIBondInterestTxns | ibond-values/src/main/java/com/moneydance/modules/features/ibondvalues/IBondImporter.java:357-383 | the records' values are those of `InterestTxnsFor` (parse, fixed rate of the issue month, chained epochs, fifth anniversary, deferral, future dropped), and every error is the one it names |
| Importer.IBondImporter.ChainEpochs | ibond-values/src/main/java/com/moneydance/modules/features/ibondvalues/IBondImporter.java:365-378 | the while loop produces the values of `Epochs`, as distinct fresh records, or its error |
| Importer.EpochsStep | ibond-values/src/main/java/com/moneydance/modules/features/ibondvalues/IBondImporter.java:368-378 | one loop turn: a missing rate or failed epoch is the outcome; otherwise the epoch's records join those produced and the chain continues six months later from its final balance |
| InterestEngine.MonthOfAbbrevOfMonthAbbrev | ibond-values/src/main/java/com/moneydance/modules/features/ibondvalues/IBondImporter.java:310 | the month abbreviation of the memo names its month |
| InterestEngine.InterestMemoParts | ibond-values/src/main/java/com/moneydance/modules/features/ibondvalues/IBondImporter.java:310 | a memo of years 1 to 9999 is 17 characters: the month abbreviation, then four digits reading as the year |
| InterestEngine.InterestMemoInjective | ibond-values/src/main/java/com/moneydance/modules/features/ibondvalues/IBondImporter.java:310 | different months of years 1 to 9999 have different memos |
| InterestEngine.MonthlyInterestInCents | ibond-values/src/main/java/com/moneydance/modules/features/ibondvalues/IBondImporter.java:309 | a month's interest is whole cents, within half a cent of eligible balance x monthly rate |
| InterestEngine.NonNegativeInterest | ibond-values/src/main/java/com/moneydance/modules/features/ibondvalues/IBondImporter.java:309 | a non-negative balance at a non-negative rate earns non-negative interest |
| InterestEngine.MonthRecord | ibond-values/src/main/java/com/moneydance/modules/features/ibondvalues/IBondImporter.java:309-313 | the record is paid on day 1 of the next month, carries the memo of the month earned, and its starting balance is the balance plus its interest |
| InterestEngine.NextState | ibond-values/src/main/java/com/moneydance/modules/features/ibondvalues/IBondImporter.java:315-318 | the next state is one month on, with the final balance equal to the starting balance plus that month's redemption, and the eligible balance scaled pro rata: new eligible x starting balance = old eligible x new final balance |
| InterestEngine.FullRedemption | ibond-values/src/main/java/com/moneydance/modules/features/ibondvalues/IBondImporter.java:308-318 | redeeming the whole balance leaves no eligible balance, so the next starting balance is zero and the next month fails with the division by it |
| InterestEngine.NextStateWithoutRedemption | ibond-values/src/main/java/com/moneydance/modules/features/ibondvalues/IBondImporter.java:315-318 | with no redemption the eligible balance is unchanged and the final balance is the starting balance |
| InterestEngine.MonthsTrace | ibond-values/src/main/java/com/moneydance/modules/features/ibondvalues/IBondImporter.java:308-319 | the running states of the loop: each leads to the next with a non-zero starting balance; a full trace gives the epoch's records and final balance, and a short one ends at the zero balance that makes the division fail |
| InterestEngine.EpochShape | ibond-values/src/main/java/com/moneydance/modules/features/ibondvalues/IBondImporter.java:308-313 | an epoch yields exactly six records; record i (from 0) is paid on day 1 of month start+i+1 and carries the memo of month start+i |
| InterestEngine.MonthsConserveBalance | ibond-values/src/main/java/com/moneydance/modules/features/ibondvalues/IBondImporter.java:309-318 | the final balance is the initial one plus all interest paid plus all redemptions |
| InterestEngine.MonthsWithoutRedemptions | ibond-values/src/main/java/com/moneydance/modules/features/ibondvalues/IBondImporter.java:305-319 | with no redemptions and a positive balance, the epoch cannot fail and every month earns the same interest (no compounding within the epoch) |
| InterestEngine.EpochCountCeiling | ibond-values/src/main/java/com/moneydance/modules/features/ibondvalues/IBondImporter.java:368-377 | the number of epochs started strictly before a month m months away is ceil(m / 6) |
| InterestEngine.EpochsCount | ibond-values/src/main/java/com/moneydance/modules/features/ibondvalues/IBondImporter.java:365-378 | the chained epochs yield six records per epoch started strictly before the current month |
| InterestEngine.NoEpochs | ibond-values/src/main/java/com/moneydance/modules/features/ibondvalues/IBondImporter.java:368 | no epoch runs when the issue month is not before the current month |
| InterestEngine.EpochsShape | ibond-values/src/main/java/com/moneydance/modules/features/ibondvalues/IBondImporter.java:365-378 | record i of the chain is paid on day 1 of month issue+i+1 for the interest of month issue+i |
| InterestEngine.EpochsUnfold | ibond-values/src/main/java/com/moneydance/modules/features/ibondvalues/IBondImporter.java:368-377 | a loop turn uses the fixed rate once and the inflation rate in effect at the epoch's first month, and the rest of the chain starts from the epoch's final balance |
| InterestEngine.DeferAll | ibond-values/src/main/java/com/moneydance/modules/features/ibondvalues/IBondImporter.java:335-339 | each record is deferred individually, position by position |
| InterestEngine.DeferEarlyMoves | ibond-values/src/main/java/com/moneydance/modules/features/ibondvalues/IBondImporter.java:333-339 | a payment before the fifth anniversary never moves earlier and never past the anniversary; a later payment is unchanged; amount, memo and starting balance never change |
| InterestEngine.KeepNotAfterMembers | ibond-values/src/main/java/com/moneydance/modules/features/ibondvalues/IBondImporter.java:340-342 | `removeIf` keeps exactly the records not dated after today |
| InterestEngine.KeepNotAfterSnoc | ibond-values/src/main/java/com/moneydance/modules/features/ibondvalues/IBondImporter.java:342 | the removeIf loop's step: one more record is appended to those kept exactly when it is not dated after today |
| InterestEngine.Year5Age | ibond-values/src/main/java/com/moneydance/modules/features/ibondvalues/IBondImporter.java:333 | fails with the year exactly when the issue year plus five is outside the years java.time allows; otherwise day 1 of the issue month five years on |
| InterestEngine.InterestTxnsForShape | ibond-values/src/main/java/com/moneydance/modules/features/ibondvalues/IBondImporter.java:357-383 | every returned record is not dated after today and is the early-years deferral of the monthly record of some month after the issue month |
| InterestEngine.DeferredMonthly | ibond-values/src/main/java/com/moneydance/modules/features/ibondvalues/IBondImporter.java:335-339 | a deferred monthly record is the deferral of the record of some month |
| InterestTxns.DeferredDate | ibond-values/src/main/java/com/moneydance/modules/features/ibondvalues/InterestTxnRec.java:57-62 | the new date is payDate + n months or `latest`, and is after neither: the earlier of the two |
| InterestTxns.DeferredDateNotEarlier | ibond-values/src/main/java/com/moneydance/modules/features/ibondvalues/InterestTxnRec.java:57-62 | deferring by n >= 0 months never moves a payment earlier (when `latest` is not earlier) |
| InterestTxns.InterestTxnRec.constructor | ibond-values/src/main/java/com/moneydance/modules/features/ibondvalues/InterestTxnRec.java:23-29 | the getters return the constructor's arguments |
| InterestTxns.InterestTxnRec.DeferPayment | ibond-values/src/main/java/com/moneydance/modules/features/ibondvalues/InterestTxnRec.java:57-62 | only payDate changes, to `DeferredDate`, and it is never after `latest` |
| InterestTxns.Values | ibond-values/src/main/java/com/moneydance/modules/features/ibondvalues/InterestTxnRec.java:34-49 | the getter values of a list, position by position |
| CalcTxns.CalcTxn.constructor | ibond-values/src/main/java/com/moneydance/modules/features/ibondvalues/CalcTxn.java:24-30 | payDate is day 1 of payMonth, the getters return the arguments, and endingBal starts at zero |
| CalcTxns.CalcTxn.SetEndingBal | ibond-values/src/main/java/com/moneydance/modules/features/ibondvalues/CalcTxn.java:62 | only endingBal changes |
| BalanceRecs.IBondBalanceRec.constructor | ibond-values/src/main/java/com/moneydance/modules/features/ibondvalues/IBondBalanceRec.java:18-22 | both balances are stored as given |
| BalanceRecs.IBondBalanceRec.SetTotalBal | ibond-values/src/main/java/com/moneydance/modules/features/ibondvalues/IBondBalanceRec.java:34 | only totalBal changes |
| BalanceRecs.IBondBalanceRec.SetEligibleBal | ibond-values/src/main/java/com/moneydance/modules/features/ibondvalues/IBondBalanceRec.java:46 | only eligibleBal changes |
| PriceRecs.PriceRec.constructor | ibond-values/src/main/java/com/moneydance/modules/features/ibondvalues/PriceRec.java:18-21 | price and date are stored as given |
| PriceRecs.PriceRec.SetSharePrice | ibond-values/src/main/java/com/moneydance/modules/features/ibondvalues/PriceRec.java:30-32 | only the price changes; the date is final |
| PriceRecs.PriceRec.Equals | ibond-values/src/main/java/com/moneydance/modules/features/ibondvalues/PriceRec.java:34-43 | true exactly for a PriceRec whose price (value and scale) and date are equal; false for null and other classes |
| PriceRecs.EqualsIsEquivalence | ibond-values/src/main/java/com/moneydance/modules/features/ibondvalues/PriceRec.java:34-43 | `equals` is reflexive, symmetric and transitive, and false for null and other classes |
| PriceRecs.EqualsAgreesWithHashCode | ibond-values/src/main/java/com/moneydance/modules/features/ibondvalues/PriceRec.java:45-47 | equal PriceRecs have equal hash codes |
| PriceRecs.EqualsSeesScale | ibond-values/src/main/java/com/moneydance/modules/features/ibondvalues/PriceRec.java:38 | prices 1.0 and 1.00 on the same date make unequal PriceRecs |
| CalcTxnLists.MonthsAfter | ibond-values/src/main/java/com/moneydance/modules/features/ibondvalues/CalcTxnList.java:48-49 | the months of the map strictly after a key, ascending |
| CalcTxnLists.CalcTxnList.constructor | ibond-values/src/main/java/com/moneydance/modules/features/ibondvalues/CalcTxnList.java:12 | the map starts empty |
| CalcTxnLists.CalcTxnList.Add | ibond-values/src/main/java/com/moneydance/modules/features/ibondvalues/CalcTxnList.java:20-24 | the record joins the end of its month's list, the month key is added if absent, and no other month changes |
| CalcTxnLists.CalcTxnList.GetForMonth | ibond-values/src/main/java/com/moneydance/modules/features/ibondvalues/CalcTxnList.java:35-38 | null exactly when the month is not a key; otherwise that month's list, all paid in that month |
| CalcTxnLists.CalcTxnList.TailKeys | ibond-values/src/main/java/com/moneydance/modules/features/ibondvalues/CalcTxnList.java:46-50 | fails with NoSuchElement exactly on an empty map and with IllegalArgument exactly when every key is before the month; otherwise exactly the keys strictly after the month, ascending |
| CalcTxnLists.CalcTxnList.ForEach | ibond-values/src/main/java/com/moneydance/modules/features/ibondvalues/CalcTxnList.java:57-61 | the records are visited month by month, each month's list in order |
| CalcTxnLists.CalcTxnList.RemoveIf | ibond-values/src/main/java/com/moneydance/modules/features/ibondvalues/CalcTxnList.java:68-72 | every month's list drops the records the filter matches; keys stay |
| CalcTxnLists.ForEachOrder | ibond-values/src/main/java/com/moneydance/modules/features/ibondvalues/CalcTxnList.java:57-61 | the visit is in ascending month order, and within a month in insertion order |
| CalcTxnLists.RemoveIfEffect | ibond-values/src/main/java/com/moneydance/modules/features/ibondvalues/CalcTxnList.java:68-72 | afterwards the visit yields exactly the records the filter rejects, in their old order, and every month key remains |
| InvestTxnLists.GroupByDate | ibond-values/src/main/java/com/moneydance/modules/features/ibondvalues/InvestTxnList.java:32-34 | the loop filing each transaction under its date builds the date-grouped map |
| InvestTxnLists.InvestTxnList.constructor | ibond-values/src/main/java/com/moneydance/modules/features/ibondvalues/InvestTxnList.java:29-36 | each date's list holds the account's transactions of that date in arrival order; `account()` returns the account given |
| InvestTxnLists.InvestTxnList.GetMatchingDivReinvestTxn | ibond-values/src/main/java/com/moneydance/modules/features/ibondvalues/InvestTxnList.java:42-57 | the first transaction of the pay date that matches, or none |
| InvestTxnLists.MatchingDivReinvestSpec | ibond-values/src/main/java/com/moneydance/modules/features/ibondvalues/InvestTxnList.java:42-57 | a match is found exactly when some transaction dated payDate is a split of a dividend reinvestment whose memo equals the record's ignoring case; the one found is the first such |
| InvestTxnLists.InvestTxnList.GetRedemptionsForMonth | ibond-values/src/main/java/com/moneydance/modules/features/ibondvalues/InvestTxnList.java:63-76 | the nested loops return the split SELL and SELL_XFER transactions of the month's dates, in date then arrival order |
| InvestTxnLists.RedemptionsSpec | ibond-values/src/main/java/com/moneydance/modules/features/ibondvalues/InvestTxnList.java:63-76 | every result is a redemption dated within the month, results are in date order, and each date contributes exactly its redemptions in arrival order |
| InvestTxnLists.DateKeyInMonth | ibond-values/src/main/java/com/moneydance/modules/features/ibondvalues/InvestTxnList.java:66 | a date lies within [day 1, end of month] exactly when it is in that month |
| TxnHandlers.AsLongSpec | ibond-values/src/main/java/com/moneydance/modules/features/ibondvalues/TxnHandler.java:41-45 | succeeds exactly when the value has at most that many decimals and the shifted value fits a long, and then equals value x 10^places; a fraction is the rounding error only when the shifted value has fewer than 20 whole digits, and every other failure is the overflow |
| TxnHandlers.AsLongTwentyDigitsWithFraction | ibond-values/src/main/java/com/moneydance/modules/features/ibondvalues/TxnHandler.java:44 | 12345678901234567890.5 at 0 places is the overflow, although it has a fraction |
| TxnHandlers.AsLongInverse | ibond-values/src/main/java/com/moneydance/modules/features/ibondvalues/TxnHandler.java:44 | moving the point back recovers the value converted |
| TxnHandlers.AsLongOfShifted | ibond-values/src/main/java/com/moneydance/modules/features/ibondvalues/TxnHandler.java:44 | every long with the point moved left converts back to itself |
| TxnHandlers.ApplyUpdateSpec | ibond-values/src/main/java/com/moneydance/modules/features/ibondvalues/TxnHandler.java:51-75 | a dividend reinvestment dated and tax-dated on payDate with the record's memo, the Treasury payee, price 1, the security and default category; shares and amount are payAmount in the security's and the account's places; a failed share conversion is the error reported |
| IBondWorkers.ChangeForMonthSpec | ibond-values/src/main/java/com/moneydance/modules/features/ibondvalues/IBondWorker.java:141-158 | the change has the currency's scale, is the exact sum of the amounts over 10^places when it fits a long, and is zero with no changes |
| IBondWorkers.CommitMessageSpec | ibond-values/src/main/java/com/moneydance/modules/features/ibondvalues/IBondWorker.java:77-78 | the summary is "Recorded ", the count in decimal, then a space, and it ends in 's' exactly when the count is not 1 |
| IBondWorkers.DiscardFutureTxns | ibond-values/src/main/java/com/moneydance/modules/features/ibondvalues/IBondWorker.java:165-170 | the list becomes its `RemoveIf` by payMonth after the current month |
| IBondWorkers.DiscardFutureTxnsSpec | ibond-values/src/main/java/com/moneydance/modules/features/ibondvalues/IBondWorker.java:165-170 | no remaining record is paid after the current month, every earlier one remains in order, and all month keys stay |
| IBondWorkers.StagedSpec | ibond-values/src/main/java/com/moneydance/modules/features/ibondvalues/IBondWorker.java:96-131 | every staged handler is for a record of the list that the ledger lacks, with the given accounts, and every such record gets one |
| IBondWorkers.HoldingAccountsSpec | ibond-values/src/main/java/com/moneydance/modules/features/ibondvalues/IBondWorker.java:188-197 | an account pair is selected exactly when it has the security's sub-account with a positive balance on the given date |
| IBondWorkers.HoldingAccountsOrder | ibond-values/src/main/java/com/moneydance/modules/features/ibondvalues/IBondWorker.java:188-197 | the selected accounts keep the order of the book's investment accounts |
| IBondWorkers.IBondAccountsSpec | ibond-values/src/main/java/com/moneydance/modules/features/ibondvalues/IBondWorker.java:182-197 | interest is computed only for an I bond ticker that parses, and then exactly for accounts holding the security with a positive balance at the end of the issue month |
| IBondWorkers.FirstFailure | ibond-values/src/main/java/com/moneydance/modules/features/ibondvalues/IBondWorker.java:71-79 | the least handler position whose update fails, or the length when none fails |
| IBondWorkers.IBondWorker.constructor | ibond-values/src/main/java/com/moneydance/modules/features/ibondvalues/IBondWorker.java:33 | nothing is staged |
| IBondWorkers.IBondWorker.AddHandler | ibond-values/src/main/java/com/moneydance/modules/features/ibondvalues/IBondWorker.java:61-64 | the handler joins the end of the staged list |
| IBondWorkers.IBondWorker.IsModified | ibond-values/src/main/java/com/moneydance/modules/features/ibondvalues/IBondWorker.java:84-87 | true exactly when at least one handler is staged |
| IBondWorkers.IBondWorker.StoreInterestTxnIfDiff | ibond-values/src/main/java/com/moneydance/modules/features/ibondvalues/IBondWorker.java:96-131 | a handler is staged exactly when no matching dividend reinvestment exists; otherwise nothing changes |
| IBondWorkers.IBondWorker.StoreCalculatedTxns | ibond-values/src/main/java/com/moneydance/modules/features/ibondvalues/IBondWorker.java:202-204 | future records are discarded, then the staged list grows by the handlers `Staged` gives for the remaining records in visit order |
| IBondWorkers.IBondWorker.StoreEach | ibond-values/src/main/java/com/moneydance/modules/features/ibondvalues/IBondWorker.java:204 | storing each visited record in turn appends exactly `Staged` of them |
| IBondWorkers.StagedStep | ibond-values/src/main/java/com/moneydance/modules/features/ibondvalues/IBondWorker.java:112 | one more record stages at most its own handler |
| IBondWorkers.IBondWorker.CommitChanges | ibond-values/src/main/java/com/moneydance/modules/features/ibondvalues/IBondWorker.java:71-79 | the fields of the staged handlers before the first failing one are recorded in order; with no failure the list is emptied and the summary for all of them returned; otherwise that handler's error is returned and the list is kept |

## Left out

- Fetching the rate sheet over the network, reading the extension's properties, and `IBondImporter.main` (IBondImporter.java lines 87-131 and 385-399). The sheet is a parameter: a sequence of rows of typed cells.
- Everything in the user interface. This includes the `SwingWorker` lifecycle of `IBondWorker` (`doInBackground`, `done`), its progress display, and the `displayRates` and logging consumers, which only produce messages and are no-ops here.
- `IBondRateRec.java`, the double-valued rate record used only for display. It is not part of this model.
- Calls into the Moneydance host are parameters of the model: `getSubAccountByName`, `getBalanceAsOf`, `getDefaultCategoryForAcct`, the transaction set, and the hash codes of `BigDecimal` and `LocalDate`.
- `storeFields` and `syncItem` are modelled as appending the stored fields to the worker's `recorded` list. The `hasX` flags that `applyUpdate` sets are all true and are not separate fields.
- AddNonCompoundingMonths: the monthly rate `compositeRate / 12` is exact. The `DECIMAL64` rounding of that division, and of the eligible-balance update at IBondImporter.java lines 316-317, is not modelled.
- Text.EqualsIgnoreCase: folds the ASCII letters only, not the full Unicode case mapping of `String.equalsIgnoreCase`.
- Tickers.GetDateForTicker: matches the ticker prefix with ASCII case folding only, whereas the case-insensitive java.time parser folds with `Character.toUpperCase`/`toLowerCase`, so a prefix written with a non-ASCII letter that folds to the configured one is accepted by the source and rejected by the model.
- The memo `"%tb %<tY interest"` is `InterestEngine.InterestMemo` in the English locale. Everywhere else the memo function is a parameter, so a locale's month names are not fixed.
- `calcIBondInterestTxns`, `loadIBondRates`, `getChangesForMonth`, `getColumnHeaders`, `MdUtil.isIBondTickerPrefix` and the configured ticker prefix are not in the source files this model covers:
  - `changeForMonth` takes the month's changes as a parameter;
  - the header row is the sheet's first row;
  - a missing header is the `MissingColumnHeaders` error;
  - the prefix test and the prefix itself are parameters.
- `storeNewIBondTxns` is modelled as its gate (`IBondWorkers.IBondAccounts`) followed by `StoreCalculatedTxns` for each selected account pair. How the calculated list is produced by the method not shown is not modelled.
- IBondWorkers.IBondWorker.StoreInterestTxnIfDiff: the differences it reports between a found transaction and the calculated payment are log messages and are not modelled; only the staging decision is.
- The clock: "now" (`YearMonth.now()` and `LocalDate.now()`) is a parameter.
- `MdUtil.convDateIntToLocal`: transaction dates are `Date` values directly.
- PlusMonths: `YearMonth.plusMonths` and `LocalDate.plusMonths` (IBondImporter.java lines 311 and 377, InterestTxnRec.java line 58) throw past year 999,999,999. The model does not fail there. Those months lie at most six months past the current month, or three months past a fifth anniversary that is in range, so only a clock within a few months of the end of year 999,999,999 reaches them.
- Concurrency between the background worker and the user interface.
