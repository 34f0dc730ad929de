# Report guardian viewer: the dashboard's computations

A Dafny model of the arithmetic and bookkeeping inside the render functions of
the report-guardian-viewer dashboard (`app.js`). The dashboard loads seven
record sets (SOWs, purchase orders, resources, PO-resource mappings, risks,
forecasts and audit records) and shows summaries of them in tabs. The model
covers the content of every tab except the forecasts tab, without the DOM:
the records are Dafny datatypes, "now" is an integer instant passed in, and
every figure those tabs show is a function of those inputs.

- **Dates** (`dates.dfy`): `parseDate` turns `DD/MM/YYYY` into the
  local-midnight instant `dayNumber * 86400000`, days counted from 1 January
  1970 in the proleptic Gregorian calendar. `getFullYear`, `new Date(y, 0, 1)`,
  `new Date(y, 11, 31)` and the inclusive day count `floor(diff / 86400000) + 1`
  are defined on those instants.
- **Annual contract value** (`proration.dfy`): the share of each active SOW's
  value that falls inside `[1 Jan, 31 Dec]` of the current year, with every
  early `return` of the `forEach` callback, summed without rounding.
- **Status counts** (`status.dfy`): Active/Completed SOWs, Open/Closed and
  unreceived POs, active/inactive resources, RAG counts of risks, and
  active/ended mappings.
- **Margins** (`margins.dfy`): the contractor/permanent split and the mean
  contractor margin, for all resources and for the active ones.
- **Customer breakdown** (`customers.dfy`): the three tables filled by the
  two `forEach` passes, the de-duplicated and sorted keys, and one row per key.
- **Hierarchy** (`hierarchy.dfy`):
  - the four lookup tables;
  - the per-SOW mapping rollup and the per-PO active count;
  - the resolution of mappings to resources;
  - the SOW badge.
- **Monthly summary** (`monthly.dfy`): SOWs grouped by start month, newest
  month first, and the total value of all SOWs.
- **Audit tab** (`audit.dfy`): the last seven days of audit records, newest
  first, at most fifty.
- **Row orders** (`orders.dfy`): the two-key `localeCompare` sorts of the SOW,
  PO, resource and hierarchy tables.
- **Shared helpers**: `filter`, `reduce`, the push-grouping and
  assignment-indexing idioms, `Array.from(new Set(...))` and a stable
  insertion sort (`seqs.dfy`, `grouping.dfy`, `sorting.dfy`, `wrappers.dfy`,
  `records.dfy`).

In a few places the code does not do what the dashboard is documented or
intended to do. In each, the model follows the code:

- contributions to the annual value are not rounded per contract;
- `parseDate` has no ISO fallback;
- a mapping counts as active only when its status is exactly `'Active'`, so a
  mapping without a status is ended;
- a PO or SOW without an end date is Closed or Completed;
- there are no "Present"/"Unknown" assignment windows;
- the hierarchy badge shows `contract.status || 'Active'`, whatever the end date;
- a SOW's rollup walks its POs and adds each PO's mappings, so two POs of one SOW sharing a PO id count that id's mappings twice;
- `posById` is built but never read.

## Model

| member | source | states |
|---|---|---|
| Dates.ParseDate | app.js:41-45 | a missing field gives null; a present one gives the midnight instant of the date it names |
| Dates.MidnightOrder | app.js:177 | comparing parsed dates with `<` or `==` is comparing the calendar dates |
| Dates.DayNumberOrder | app.js:44 | day numbers follow calendar order and tell different dates apart |
| Dates.DayCountMidnights | app.js:179 | between two midnights, the day count is the number of days from the first to the last, both included |
| Dates.YearOfDay | app.js:156 | the year of a day number is the one whose range contains it |
| Dates.YearOfDayUnique | app.js:156 | no other year contains that day |
| Dates.YearOfMidnight | app.js:303 | `getFullYear()` of a parsed date is the year it was written with |
| Dates.YearBoundsAreMidnights | app.js:157-158 | `yearStart` and `yearEnd` are the midnights of 1 January and 31 December |
| Dates.NowInYear | app.js:155-158 | now lies between 1 January and the end of 31 December of its own year |
| Dates.YearOfWithin | app.js:156 | any instant in that range has that year |
| Records.TextOr | app.js:219 | `field \|\| fallback`: null, undefined and "" fall back, other text is kept |
| Status.SowStatusOf | app.js:277-278 | a SOW without an end date is Completed; otherwise it is Active exactly while now is at or before its end midnight |
| Status.ActiveSowCount | app.js:251-254 | the active count is the number of rows whose status is Active |
| Status.CompletedSowCount | app.js:255 | total − active is never negative, is the number of Completed rows, and the two sum to the total |
| Status.PoPeriodStatusOf | app.js:401-402 | a PO without a period end is Closed; otherwise it is Open exactly while now is at or before its end midnight |
| Status.OpenPoCount | app.js:377-380 | the open count is the number of rows whose period status is Open |
| Status.ClosedPoCount | app.js:381 | total − open is the number of Closed rows, and the two sum to the total |
| Status.UnreceivedPoCount | app.js:383 | the count is 0 exactly when every PO says 'received' (a missing status counts as unreceived); with the received ones it covers all POs |
| Status.InactiveResourceCount | app.js:424-425 | total − active is the number of resources whose flag is off |
| Status.EndedMappingCount | app.js:521-522 | total − active is the number of mappings whose status is not exactly 'Active' |
| Status.RagCountsOf | app.js:474-476 | each count is the number of risks whose status is exactly that colour; with the unclassified risks they cover every risk |
| Status.RagPartition | app.js:491-500 | every risk falls in exactly one of Red, Amber, Green or unclassified |
| Proration.DayCountBounds | app.js:179-180 | a proper interval has at least one day, so the `totalDays <= 0` guard never fires; a sub-interval has no more days |
| Proration.ShareBounds | app.js:182-190 | value / total × part keeps the value's sign, is no larger than the value, and is the whole value when part = total |
| Proration.Share | app.js:176-190 | zero for a zero value, for an end before the start, or for a span missing the year, and non-zero otherwise; bounded by the value; the whole value for a span inside the year |
| Proration.Contribution | app.js:171-190 | the callback's guards: a missing date, a zero value, a reversed span or a span outside the year add nothing, and nothing else adds zero; the share has the value's sign and is at most the value; a span inside the year adds the whole value |
| Proration.ShareFullIffInside | app.js:184-190 | for a span that is prorated, with every bound on a midnight, the share is the whole value exactly when the span lies inside the year |
| Proration.AlignedDayCountStrict | app.js:189 | between midnights, a strictly smaller interval has strictly fewer days |
| Proration.ShareBelowWhole | app.js:190 | fewer days than the total give less than the whole value |
| Proration.FullValueIffInsideYear | app.js:184-190 | for a calendar year, a prorated SOW adds its whole value exactly when its span lies inside that year |
| Proration.ProratedSumSnoc | app.js:191 | one more SOW adds its contribution to the running sum |
| Proration.AnnualContractValue | app.js:169-192 | the loop's final `annualValue` is the sum of the contributions of exactly the active SOWs within the year of now |
| Proration.AnnualValueSnoc | app.js:161-164 | an active SOW adds its contribution; an ended SOW adds nothing, however much of its span lay in the year |
| Proration.ProratedSumBounded | app.js:170-192 | with no negative values, the prorated sum lies between 0 and the total value |
| Proration.AnnualValueBounded | app.js:161-192 | with no negative values, the annual value lies between 0 and the total value of the active SOWs |
| Proration.ExampleYears | app.js:161-192 | a SOW worth 1200 spanning 1 January to 31 December 2024 counts 1200 from 1 January up to the midnight starting 31 December 2024, and 0 after that midnight, for the rest of 2024 and throughout 2025 |
| Margins.PresentMargins | app.js:195-197 | the margins of the resources that have one, in resource order: the i-th is the margin of the i-th contractor |
| Margins.MarginStatsOf | app.js:427-433 | contractors are the resources with a margin; contractors + permanent = total; the average is 0 with no contractors, and otherwise the sum of the margins over their number |
| Margins.PermanentAreThoseWithoutMargin | app.js:432 | total − contractors is exactly the number of resources without a margin |
| Margins.Mean | app.js:201-203 | 0 for no values; otherwise the mean times the count is the sum |
| Margins.PresentMarginsWithin | app.js:195-197 | bounds on the resources' margins carry over to the list of margins |
| Margins.AverageWithinBounds | app.js:201-203 | the average lies between the smallest and the largest margin present |
| Margins.MeanWithin | app.js:433 | a mean of values in [lo, hi] lies in [lo, hi] |
| Margins.ActiveMarginStats | app.js:195-203 | in the executive summary, contractors are the active resources with a margin and permanent staff the active ones without; the two sum to the active count; the average is 0 with no active contractors and otherwise the sum of their margins over their number |
| Margins.ExampleAverages | app.js:199-203 | margins 10, none and 20 give 2 contractors, 1 permanent and an average of 15; no resources give 0 |
| Customers.UpperIsUpper | app.js:220 | upper-casing keeps the length, leaves no lower-case letter, keeps other characters, and is idempotent |
| Customers.CustomerLabel | app.js:219 | `customer_name \|\| 'Unknown'`: a non-empty name is kept, and null, undefined or "" give 'Unknown', so the label is never empty |
| Customers.TallyPass | app.js:218-223 | one pass leaves the counts as the number of records per upper-cased key, adds first-seen names only for keys not yet named, and lists each key once |
| Customers.TablesAfterBothPasses | app.js:214-230 | after both passes, a key has a count exactly when records have it, and a name exactly when any SOW or resource has it |
| Customers.EmitRows | app.js:236-241 | one row per sorted key with its SOW count, resource count and display name (`t[key] \|\| 0` for a missing count) |
| Customers.CustomerBreakdown | app.js:214-241 | rows in strictly ascending key order, one per key that some active SOW or resource has, each with the right counts and its first-seen name |
| Customers.TotalsAreGroupSizes | app.js:238-239 | the row counts added up are the sizes of the keys' groups |
| Customers.BreakdownTotals | app.js:222-229 | the SOW counts sum to the number of active SOWs and the resource counts to the number of active resources |
| Customers.DisplayNameSpellsKey | app.js:219-221 | the display name upper-cases to its key |
| Customers.DisplayNameFromFirstSow | app.js:221 | the first SOW with a key gives the display name |
| Customers.DisplayNameFromFirstResource | app.js:228 | the first resource with a key gives the display name when no SOW has that key |
| Customers.BreakdownUnique | app.js:232-241 | the breakdown is determined by its inputs: any two agree |
| Customers.StrictlyAscendingUnique | app.js:233 | two strictly ascending lists of the same keys are equal |
| Customers.ExampleCasing | app.js:218-222 | "Acme" then "ACME" count 2 under "ACME" and display "Acme"; a missing name has the key "UNKNOWN" |
| Hierarchy.BuildLookups | app.js:533-553 | the four tables: last write wins per id for POs and resources, and push-groups of POs per contract and of mappings per PO |
| Hierarchy.FillIndex | app.js:538-541 | assignment record by record leaves the index of the records |
| Hierarchy.FillGroups | app.js:549-553 | push onto a list created on first use leaves the grouping of the records |
| Hierarchy.PosByContractPartitions | app.js:543-547 | each PO is in the list of its own contract and in no other, and the lists together hold every PO once |
| Hierarchy.MappingsByPoPartitions | app.js:549-553 | each mapping is in the list of its own PO and in no other, and the lists together hold every mapping once |
| Hierarchy.TablesKeepInputOrder | app.js:533-547 | a contract's POs are in arrival order; `posById` keeps the last PO with an id |
| Hierarchy.ContractRollup | app.js:564-575 | total, active and ended count the mappings of the contract's POs, active meaning status exactly 'Active'; total = active + ended |
| Hierarchy.MappingsOfPosMembers | app.js:570-572 | a mapping is counted exactly when its PO is among the given POs |
| Hierarchy.RollupCountsTheContractsMappings | app.js:564-575 | a SOW's rollup contains exactly the mappings whose PO belongs to it; a mapping without a status is ended |
| Hierarchy.RollupMultiplicity | app.js:564-575 | a mapping is counted once for every PO of the SOW carrying its PO id, times its copies in the input |
| Hierarchy.RollupCountsWhenPoIdsDistinct | app.js:564-575 | when the SOW's PO ids differ, the rollup is a rearrangement of the mappings of those POs, and total, active and ended count exactly those mappings |
| Hierarchy.SharedPoIdCountsTwice | app.js:564-572 | two POs of a SOW with the same PO id count their one mapping twice |
| Hierarchy.ContractPoWitness | app.js:564 | a PO id is among the contract's list exactly when a PO of that contract has it |
| Hierarchy.PoActiveCount | app.js:592-593 | at most the PO's mapping count; 0 exactly when none is 'Active'; with the ended ones it covers the list |
| Hierarchy.ResolvedMappings | app.js:603-605 | the listed mappings are those whose resource is known, in order, each with that resource |
| Hierarchy.OrphansCountedNotListed | app.js:571-605 | listed plus orphaned mappings make up the PO's list; nothing is dropped exactly when every resource is known |
| Hierarchy.ShownResourceIsLastWithId | app.js:538-541 | the resource shown for a mapping is the last resource with its id |
| Hierarchy.SowBadge | app.js:577 | the stored status when present and non-empty; 'Active' when it is null, undefined or "" |
| Hierarchy.BadgeIgnoresEndDate | app.js:577 | a SOW without a status shows 'Active' even when it has ended |
| Orders.TwoKeyLeIsTotalPreorder | app.js:270-274 | comparing by one key and then by a second is a total preorder when the collation is |
| Orders.TwoKeyTies | app.js:270-274 | the comparator returns 0 for two records exactly when both of their keys collate equal |
| Orders.SortByTwoKeys | app.js:270-274 | the same records, by the first key and, among ties, by the second; records equal under both keys keep their input order |
| Orders.SortedSows | app.js:270-274 | the SOW table: the same SOWs, by customer, then by service name, SOWs equal on both in input order |
| Orders.SortedPos | app.js:394-398 | the PO table: the same POs, by service name, then by the period start text, POs equal on both in input order |
| Orders.SortedResources | app.js:445-449 | the resource table: the same resources, by customer, then by job title, resources equal on both in input order |
| Orders.SortedHierarchy | app.js:557-561 | the hierarchy: the same SOWs, by customer, then by SOW reference, SOWs equal on both in input order |
| Orders.CustomersContiguous | app.js:270-274 | a SOW between two that share a customer has a customer that collates equal to theirs |
| Monthly.NewerOrSameIsTotalPreorder | app.js:314-317 | the comparator is a total preorder |
| Monthly.MonthYearMapSnoc | app.js:299-311 | a dated SOW is pushed onto its month's bucket, created empty on first use; an undated one changes nothing |
| Monthly.MonthYearMapIsGrouping | app.js:299-312 | a month has a bucket exactly when some dated SOW starts in it, holding those SOWs in input order |
| Monthly.DatedSnocStep | app.js:303-311 | a dated SOW keeps the table a grouping by month |
| Monthly.UndatedSnocStep | app.js:301 | an undated SOW is skipped |
| Monthly.FillMonthYearMap | app.js:297-312 | the loop leaves the table of buckets by start month, and lists each month once |
| Monthly.MonthlySummary | app.js:296-317 | buckets strictly newest first, one per month some dated SOW starts in, each holding those SOWs in input order |
| Monthly.SortedBucketsSummarize | app.js:314-317 | sorting the buckets newest first gives the monthly summary |
| Monthly.BucketsAreEntries | app.js:314 | `Object.values` gives each bucket under its own month |
| Monthly.SortedBucketsOrder | app.js:314-317 | buckets of different months come out strictly newest first |
| Monthly.SortedBucketsCover | app.js:314 | the sorted buckets have exactly the months some dated SOW starts in |
| Monthly.NoRepeatInSortedValues | app.js:314 | no bucket appears twice |
| Monthly.BucketTotalIsGroupSizes | app.js:333-337 | the bucket sizes added up are the group sizes |
| Monthly.MonthlyPartition | app.js:299-312 | the buckets hold every dated SOW exactly once |
| Monthly.BucketOfContract | app.js:299-312 | a dated SOW is in the bucket of its start month and in no other; an undated one is in none |
| Monthly.TotalValue | app.js:319-322 | the loop's `totalValue` is the sum of all SOW values, each `parseFloat(v \|\| 0)` |
| Monthly.TotalValueSplitsByStartDate | app.js:319-322 | the total includes undated SOWs: the dated total plus the undated total |
| Audit.NewestFirst | app.js:688 | the recent records rearranged, each at least as recent as the ones after it, records with equal timestamps in input order |
| Audit.RecentAudits | app.js:681-688 | min(50, #recent) records, newest first, each recent and taken from the input |
| Audit.RecentAuditsKeepNewest | app.js:688 | kept records are recent ones, counted with multiplicity; every kept record is at least as recent as any dropped one; with at most 50 recent records nothing is dropped |
| Audit.TiesKeepInputOrder | app.js:688 | among recent records sharing a timestamp, the ones shown are the first ones in input order, so a cut after fifty inside such a group keeps its earlier records |
| Audit.KeptAreRecent | app.js:681-688 | a prefix of the sorted recent records is newest first, recent and from the input |
| Audit.TopKept | app.js:688 | cutting a newest-first list keeps records at least as recent as every one it drops |
| Audit.WindowEdges | app.js:679-684 | the window is open at its far end: a record exactly 7 days old is dropped, one 1 ms younger is kept; an unparsed timestamp is dropped; the week is 604800000 ms |
| Grouping.GroupByIsKeyFilter | app.js:543-547 | each push-group holds exactly the records with its key, in input order |
| Grouping.IndexByDomain | app.js:533-536 | an id is in an assignment-built table exactly when some record has it |
| Grouping.IndexByLastWins | app.js:533-536 | a present id maps to the last record with that id |
| Grouping.CountByIsKeyFilter | app.js:222 | `(t[k] \|\| 0) + 1` per record leaves t[k] = the number of records with key k, and k absent when there are none |
| Grouping.KeepFirstIsFirstByKey | app.js:221 | `if (!t[k]) t[k] = v` keeps an existing entry and otherwise the first record's value |
| Grouping.GroupByPartition | app.js:543-553 | the groups of distinct keys covering all records add up to the number of records |
| Grouping.GroupByPlacement | app.js:543-553 | a record is in a group exactly when the group's key is its key |
| Seqs.Deduplicate | app.js:232-233 | `Array.from(new Set(...))`: the same elements, each once |
| Seqs.FilterComplement | app.js:255 | a filter and its negation together count every element once |
| Sorting.Sort | app.js:233 | a sorted rearrangement that keeps the input order among elements the comparator ranks equal |
| Sorting.InsertTies | app.js:233 | inserting an element places it after every element tied with it |
| Sorting.StrLeIsTotalPreorder | app.js:233 | the default `.sort()` order, by character, is total and transitive |

## Left out

- Network, login and timers: `fetchAPI`, `loadAllData`, `handleLogin` and `setTimeout`. The collections are parameters of each operation, and so is `now`.
- DOM and presentation: HTML building, `escapeHtml`, `alert`, tab wiring, and the monthly summary's date-range caption.
- Locale formatting: `formatCurrency`, `toFixed`, `toLocaleDateString` and `toLocaleString`.
- `localeCompare`: modelled as an abstract collation `collate`, required only to be a total preorder. ICU collation is not modelled.
- Character semantics:
  - `toUpperCase` maps only ASCII a-z, with no Unicode case mapping.
  - Dafny characters stand for UTF-16 code units.
- Date handling:
  - `new Date(y, m - 1, d)` roll-over of out-of-range parts (31/02) is not modelled: only real dates in years 100..9999 are parsed.
  - Daylight-saving shifts of the millisecond difference are not modelled.
- Timestamps: audit timestamps reach the model as instants. `new Date(text)` parsing is not modelled.
  - An unparsable timestamp is `None`, which compares false and is dropped, as in the source.
  - A null timestamp, which the source reads as instant 0, must be passed as `Some(0)`.
- Numbers:
  - Floating point is not modelled: values and margins are exact reals.
  - `parseFloat` of text that is not a number (NaN) is not modelled.
- Ids are strings. The quirks of plain objects keyed by an id that is also an `Object.prototype` member (`constructor`, `__proto__`) are not modelled.
- The forecasts tab (`renderForecastsTab` and `viewForecastDetails`) is not part of this model.
- `posById` is built (`Hierarchy.BuildLookups`) but it is not read anywhere in the source, so nothing is proved about its use.
- The per-record callbacks of the proration loop are modelled by the function `Proration.Contribution`, and the loop itself by the method `Proration.AnnualContractValue`. The early `return`s are the branches of that function.
