# Monthly usage summary and time-range validation, modelled in Dafny

This project models the logic of two small browser customisations.

**The kViewer monthly summary (`src/kv-index.js`).** The script fetches two responses: a whitelist of valid months and the usage-report detail records.
- It normalises the shape of both responses.
- It fails on an empty whitelist or an empty detail list.
- It keeps the detail records whose `利用年月` (usage month, with its first `/` turned into `-`) is in the whitelist.
- It groups them by month, counting records and summing `合計` (total).
- It sorts the buckets by month through `parseYearMonth` and renders a table, or a placeholder when there are no buckets.
- A missing required field aborts the run with an error message.

**The FormBridge time-range check (`src/fb-index.js`).** In each row of the subtable `テーブル`, the start time `開始時刻` must not be later than the end time `終了時刻`, unless the next-day flag `翌日フラグ` is checked.
- A change of one of the three fields re-validates its row, overriding only the changed field.
- Each such change sets or clears the error message on the row's two time cells.
- Submission is stopped while any row is invalid.

Modules:
- `Wrappers`: `Option` and `Result`.
- `JsStrings`: the JavaScript built-ins both scripts use, namely `parseInt`, the first two fields of `split`, `replace` with a one-character pattern, and decimal rendering.
- `MonthKeys`: `parseYearMonth` and the month normalisation.
- `MonthlyAggregation`: `filterDetailData` and `aggregateByMonth`.
- `SummaryTable`: `createTableHTML` and `formatAmount`.
- `MonthlySummary`: the response handling of `displayMonthlySummary`.
- `TimeRangeValidation`: all of `src/fb-index.js`.

How the source's mechanisms are modelled:
- A thrown error is an `Err` result.
- A JavaScript value that may be missing is an `Option`.
- A value that may not be an array is a `Listing` (`Items` or `NotAList`).
- Amounts are integers.
- `formBridge.fn.getRecord()` and the event contexts are parameters: a record snapshot, a `SubtableErrors` object holding the per-cell error messages, and a `SubmitEvent` holding the prevented-default flag.

Only the `.records` form of the whitelist is normalised (`src/kv-index.js:346`); a bare array or `.data` whitelist is used as it is. `MonthlySummary.SlashArrayWhitelistKeepsNothing` shows the consequence: a bare-array whitelist written `YYYY/MM` keeps no record at all.

## Model

| member | source | states |
|---|---|---|
| `JsStrings.ParseIntOfDigits` | src/kv-index.js:112-113 | `ParseInt` (`parseInt`) of a non-empty run of decimal digits is the value of those digits |
| `JsStrings.NoDigitNoNumber` | src/fb-index.js:28-32 | `ParseInt` (`parseInt`) of a string with no digit at all is NaN (None) |
| `JsStrings.ParseIntOfNatToString` | src/kv-index.js:264 | `ParseInt` of `NatToString(n)`, the decimal text of a count, reads back as that count |
| `JsStrings.FirstTwoFields` | src/kv-index.js:108 | the two destructured fields of `split(sep)`: the text before the first separator, and the text up to the second separator or the end; the second is undefined exactly when there is no separator |
| `JsStrings.ReplaceFirst` | src/kv-index.js:145-148 | `replace` with a one-character pattern changes only the first occurrence, keeps the length, and returns a string without a match unchanged |
| `JsStrings.ReplaceFirstPointwise` | src/kv-index.js:145-148 | character by character: exactly the first matching character is replaced |
| `MonthKeys.TwoDigitYearAlias` | src/kv-index.js:111-115 | `ParseYearMonth`: the `Date` constructor reads years 0 to 99 as 1900 to 1999 (`FullYear`), so the distinct keys `00YY-MM` and `19YY-MM` parse to the same month |
| `MonthKeys.ParseYearMonth` | src/kv-index.js:105-116 | null exactly for an empty string or a missing or empty year or month field; an invalid Date exactly when one of the fields does not parse |
| `MonthKeys.NoSeparatorNoDate` | src/kv-index.js:108-109 | `ParseYearMonth` of a key without `-` is null |
| `MonthKeys.ParseWellFormed` | src/kv-index.js:105-116 | `ParseYearMonth` of a well-formed `YYYY-MM` key is the first day of its month |
| `MonthKeys.ChronologicalOrder` | src/kv-index.js:219-225 | `ParseYearMonth` of well-formed keys with years past 99: the parsed dates compare as (year, month) pairs, and they are equal only for equal keys |
| `MonthKeys.SameFieldsSameKey` | src/kv-index.js:105-116 | two well-formed keys with the same year and month are the same key |
| `MonthKeys.NormaliseMonth` | src/kv-index.js:145-148 | the month key is the value with its first `/` replaced by `-`; a value without `/` is unchanged |
| `MonthKeys.NormaliseAtFirstSlash` | src/kv-index.js:145-148 | `NormaliseMonth`: text before the first `/` is kept, and later slashes stay |
| `MonthKeys.SlashFormIsNeverNormalised` | src/kv-index.js:145-148 | a string with `/` and no `-` is never an output of `NormaliseMonth` |
| `MonthlyAggregation.ValidMonthKeys` | src/kv-index.js:130-134 | the whitelist set holds exactly the string entries and each object entry's `yearMonth`, or its `year_month` when `yearMonth` is falsy; a null entry throws |
| `MonthlyAggregation.FilterByMonths` | src/kv-index.js:136-155 | fails exactly when a non-null record lacks `利用年月`; otherwise the result is a subsequence of the records and holds every copy of each non-null record whose normalised month is whitelisted, and nothing else |
| `MonthlyAggregation.FilterDetailData` | src/kv-index.js:124-156 | non-array inputs give []; otherwise a null whitelist entry or a record without a month is the error, and the filter result is as above |
| `MonthlyAggregation.FilterTallies` | src/kv-index.js:136-155 | `FilterByMonths` keeps each whitelisted month's records exactly, so their `MonthCount` and `MonthTotal` are unchanged, and it drops every other month |
| `MonthlyAggregation.AmountReadsBack` | src/kv-index.js:202 | `ParseAmount` (`parseFloat(amount)` with 0 in place of NaN) on whole numbers: a decimal amount reads back as itself, with or without a minus sign, and text without any digit counts 0 in the model (`Infinity` is the exception in JavaScript, see Left out) |
| `MonthlyAggregation.FirstFaultIsFirst` | src/kv-index.js:170-200 | `FirstFault`, the aggregation's error, is that of the first record that lacks `利用年月` or `合計`, and there is none exactly when every record has both |
| `MonthlyAggregation.SortBy` | src/kv-index.js:219-225 | the sort with the comparator `CompareBy(ParseYearMonth, ...)` is a permutation; it is sorted by the comparator whenever every key parses; it keeps keys distinct |
| `MonthlyAggregation.WellFormedKeysParse` | src/kv-index.js:219-223 | the comparator `CompareBy` sees a valid Date from `ParseYearMonth` for every well-formed key |
| `MonthlyAggregation.SortedIsChronological` | src/kv-index.js:219-225 | buckets sorted by `CompareBy(ParseYearMonth, ...)` with well-formed keys are in ascending (year, month) order, strictly so when the keys are distinct |
| `MonthlyAggregation.CountRecord` | src/kv-index.js:206-215 | one record creates its month's bucket if needed, then adds one to its count and its amount to its total; the first sight of a month appends it to the insertion order (the dictionary is a map, see Left out) |
| `MonthlyAggregation.AggregateByMonth` | src/kv-index.js:163-226 | non-array input gives []. Otherwise it fails exactly when some record lacks a field, with that field's error. On success there is one bucket per month present, no key twice, each with the count and total of its month. The buckets are sorted whenever every key parses. This holds for month keys that are neither inherited property names nor array indices (see Left out) |
| `MonthlyAggregation.CountsSumToRecords` | src/kv-index.js:206-215 | in a bucket list that `IsAggregateOf` the records, the counts add up to the number of non-null records |
| `MonthlyAggregation.AggregateIgnoresOrder` | src/kv-index.js:170-216 | `IsAggregateOf`, whether a bucket list is the aggregate of the records, depends only on the multiset of records, not on their order |
| `MonthlyAggregation.FilteredAggregate` | src/kv-index.js:130-216 | an aggregate (`IsAggregateOf`) of the `FilterByMonths` result shows the record months that are whitelisted, each with the count and total of all its records |
| `SummaryTable.HeaderCellsInOrder` | src/kv-index.js:254 | `HeaderCells`: each heading becomes one `<th>` cell, in the order of the headings |
| `SummaryTable.FormatAmountReadsBack` | src/kv-index.js:233-238 | `FormatAmount(a)` (`toLocaleString`), with its thousands separators removed, reads back as `a` |
| `SummaryTable.UngroupGroup` | src/kv-index.js:237 | `Group`, grouping digits by three, only inserts separators |
| `SummaryTable.CreateTableHtml` | src/kv-index.js:245-276 | the result is `TableMarkup`: the placeholder for an empty or non-array list; otherwise the table head, one `RowMarkup` per bucket, and the table tail |
| `SummaryTable.AppendRows` | src/kv-index.js:260-268 | the loop appends one rendered row per bucket, in order |
| `SummaryTable.RowsInOrder` | src/kv-index.js:260-268 | `RowsMarkupBy`: a bucket's row comes after the rows of the buckets before it and before the rows of the buckets after it |
| `SummaryTable.PlaceholderMeansEmpty` | src/kv-index.js:246-248 | `TableMarkup` is the placeholder exactly when there is no bucket to show |
| `MonthlySummary.RecordMonths` | src/kv-index.js:338-347 | the `.records` whitelist is each record's `年月` with its first `/` turned into `-`; a record without a value throws `必須項目が見つかりません: 年月` |
| `MonthlySummary.RecordWhitelistIsNormalised` | src/kv-index.js:338-347 | a month is in the `ValidMonthKeys` set of the `RecordMonths` whitelist exactly when it is the normalised `年月` of some record |
| `MonthlySummary.WhitelistOfResponse` | src/kv-index.js:330-350 | the `ValidMonthKeys` set of `ValidMonths` for each response shape: a bare array's entries as written; the normalised `年月` of `.records` when that is an array; else the entries of `.data`; none when `.data` is falsy too |
| `MonthlySummary.SummaryInput` | src/kv-index.js:330-362 | with `ValidMonths` and `DetailList` normalising the two responses: an empty whitelist throws its error, and only then. An empty detail list behind a non-empty whitelist throws the other error, and only then. A mapping error is passed on. When none of these errors fires, the outcome, success or error, is the filter's |
| `MonthlySummary.SlashArrayWhitelistKeepsNothing` | src/kv-index.js:331-332 | `FilterDetailData` with a bare-array whitelist of `YYYY/MM` strings keeps no record |
| `MonthlySummary.KeptHasMonth` | src/kv-index.js:136-155 | every record `FilterDetailData` keeps is non-null and has its month |
| `MonthlySummary.FilteredFaultIsTotal` | src/kv-index.js:175-200 | after `SummaryInput`, the only error `FirstFault` can give is a missing `合計` |
| `MonthlySummary.SummaryBuckets` | src/kv-index.js:365-366 | with both lists arrays, the buckets shown are the whitelisted months that occur among the records, each counting and summing all of that month's records |
| `MonthlySummary.NonArrayShowsPlaceholder` | src/kv-index.js:349-354 | when `SummaryInput` succeeds on a non-array whitelist or detail list, it keeps no record, and the `TableMarkup` of its aggregate is the placeholder |
| `MonthlySummary.DisplayMonthlySummary` | src/kv-index.js:329-379 | the markup written is the `ErrorMarkup` (`Message` of the error) of the first error thrown; otherwise it is the `TableMarkup` of an aggregate of the filtered records, sorted whenever every key parses |
| `TimeRangeValidation.ParseTimeString` | src/fb-index.js:25-37 | null exactly for an empty or null string; an invalid Date exactly when the minutes are undefined or either field does not parse; otherwise `hours * 60 + minutes` minutes of the parsed fields |
| `TimeRangeValidation.LettersAreInvalid` | src/fb-index.js:28-32 | `ParseTimeString` of `ab:00` is an invalid Date |
| `TimeRangeValidation.NoHoursIsInvalid` | src/fb-index.js:28-32 | `ParseTimeString` of `:30` is an invalid Date |
| `TimeRangeValidation.NoMinutesIsInvalid` | src/fb-index.js:28-32 | `ParseTimeString` of `9:` is an invalid Date |
| `TimeRangeValidation.ParseClockTime` | src/fb-index.js:25-37 | `ParseTimeString` of `H:M` in decimal digits is `H * 60 + M` minutes on the fixed day |
| `TimeRangeValidation.NoColonIsInvalid` | src/fb-index.js:28-32 | `ParseTimeString` of a time without `:` has undefined minutes and is an invalid Date |
| `TimeRangeValidation.ParsedTimesCompare` | src/fb-index.js:88 | `RowIsValid`: with two times given and the flag unchecked, the row is valid exactly when the start is not later than the end |
| `TimeRangeValidation.RowIsValidIff` | src/fb-index.js:71-88 | `RowIsValid`: a row is valid exactly when a time is empty, the flag is checked, or both times parse and the start is not later than the end |
| `TimeRangeValidation.EmptyTimeIsValid` | src/fb-index.js:71-74 | `RowIsValid` holds for an empty start or end, whatever the flag |
| `TimeRangeValidation.CheckedFlagIsValid` | src/fb-index.js:83-86 | `RowIsValid` holds for any pair of times when the next-day flag is checked |
| `TimeRangeValidation.UnparsableIsInvalid` | src/fb-index.js:79-88 | `RowIsValid` fails with both times given, the flag unchecked and a time that does not parse |
| `TimeRangeValidation.OfficeHours` | src/fb-index.js:83-88 | `RowIsValid`: 09:00 to 17:00 is valid; 17:00 to 09:00 is invalid unless the flag is checked |
| `TimeRangeValidation.MissingRowIsValid` | src/fb-index.js:49-51 | `ValidateTimeRange` holds for a missing subtable or row index |
| `TimeRangeValidation.OverridesActAsStored` | src/fb-index.js:55-69 | `ValidateTimeRange` with overrides gives the same verdict as `ValidateTimeRange` of the record with the overridden values stored (`Store`) |
| `TimeRangeValidation.SetCellError` | src/fb-index.js:101-106 | one `setSubtableFieldValueError` sets or (with null) clears exactly one cell |
| `TimeRangeValidation.SubtableErrors.SetSubtableFieldValueError` | src/fb-index.js:101-106 | the call sets the cell's message, or clears it for null, and leaves every other cell as it was |
| `TimeRangeValidation.RowErrorsCells` | src/fb-index.js:97-131 | `RowErrors`: exactly the start and end cells of the row change: both get the message on an error, both are cleared otherwise |
| `TimeRangeValidation.RowErrorsLastWins` | src/fb-index.js:97-131 | `RowErrors`: annotating a row again overwrites its earlier annotation |
| `TimeRangeValidation.SetTimeValidationError` | src/fb-index.js:97-131 | the error state becomes the `RowErrors` annotation of the row; nothing happens without a setter |
| `TimeRangeValidation.ValidateAllTimeRanges` | src/fb-index.js:137-155 | the result is `AllTimeRangesValid`: true exactly when there is no subtable or every row validates |
| `TimeRangeValidation.AllValidIffEveryRow` | src/fb-index.js:137-155 | `AllTimeRangesValid` is `RowIsValid` applied to every stored row |
| `TimeRangeValidation.ChangeJudgedAsStored` | src/fb-index.js:164-173 | `ValidateTimeRange` with `ChangedFieldValues(change)` judges the row as `ApplyChange` stores it: the changed field with its new value, the other two as stored |
| `TimeRangeValidation.HandleTimeFieldChange` | src/fb-index.js:164-176 | the row's two time cells get the `RowErrors` annotation for the verdict of `ValidateTimeRange` with `ChangedFieldValues(change)` |
| `TimeRangeValidation.SubmitBlockedIff` | src/fb-index.js:197-203 | `AllTimeRangesValid` fails, so submission is blocked, exactly when there is a subtable with an invalid stored row |
| `TimeRangeValidation.OnSubmit` | src/fb-index.js:197-203 | the submission is cancelled exactly when `AllTimeRangesValid` fails, that is when some row is invalid |

## Left out

- `fetchData`, `Promise.all` and the HTTP status check (src/kv-index.js:87-98, :324-327): network I/O. The two parsed responses are parameters of `DisplayMonthlySummary`.
- `addStyles`, `showLoading`, `getElementById` and the `innerHTML` writes (src/kv-index.js:281-320, :369): DOM side effects. `DisplayMonthlySummary` returns the markup that would be written, and `showError` is its `ErrorMarkup`.
- The kViewer and FormBridge event registration, the `setTimeout` development path, and every `console` call (src/kv-index.js:371-410, src/fb-index.js:179-212): host plumbing. Only the handlers' decisions are modelled.
- A null response, or a null record in the `.records` whitelist: `MonthRecord` always has a `年月` slot, and the response datatypes have no null case. The JavaScript `TypeError` on those inputs is not modelled. The text used for a null whitelist entry is the V8 wording.
- `validMonths.length` of a non-array `.data` value: such a value is treated as not of length 0, as an object or a non-empty string is.
- MonthlyAggregation.AmountReadsBack, MonthlyAggregation.ParseAmount: model `parseFloat` on whole numbers only. A fraction or exponent is dropped, and the IEEE rounding of the running `+=` sum is not modelled. `parseFloat` reads `Infinity`, `+Infinity` and `-Infinity` as infinite numbers, so the JavaScript total becomes infinite; the model counts such text as 0.
- SummaryTable.FormatAmount: models `toLocaleString("ja-JP")` for whole numbers only, as a minus sign and digits grouped by three with `,`. Other locale data is not modelled.
- MonthlyAggregation.AggregateByMonth: sortedness is claimed only when every month key parses. The comparator returns 0 for a null date and NaN for an invalid one, which the sort reads as +0, so it is inconsistent on other keys, and `Array.prototype.sort` is then implementation-defined. The model sorts by a stable insertion sort.
- MonthlyAggregation.AggregateByMonth: the plain object `aggregatedData` is modelled as a map plus the insertion order of its keys. Two JavaScript behaviours are not captured. A month named like an inherited property (`toString`, `constructor`, `__proto__`) finds that truthy property, so no own bucket is created and `Object.values` omits the month; the model makes a bucket for it. Keys that are array indices (such as `202401`) are listed by `Object.values` first, in numeric order. `parseYearMonth` gives null for them (no `-`), so the comparator returns 0. With only such keys the stable sort keeps that numeric order; next to keys that parse, the order is implementation-defined (see the line above). The model lists every key in first-seen order.
- MonthKeys.ParseYearMonth: the `Date` time value is modelled as a month index `FullYear(y) * 12 + (m - 1)`. That makes month overflow exact, but there is no limit on the `Date` range and no time-zone offset.
- TimeRangeValidation.ParseTimeString: the time is `hours * 60 + minutes` minutes as an unbounded integer. The `Date` range limit and time-zone history for overflows far from the fixed day are not modelled.
- MonthKeys.ParseYearMonth: the `typeof yearMonth !== "string"` test (src/kv-index.js:106) is not modelled. The comparator only passes bucket keys, which are always strings, so that branch cannot be reached.
- A time field holding a non-string value (such as an array) would make `split` throw. Time values are modelled as strings or null.
- A subtable row missing one of its three column entries makes `row.value[X].value` throw a `TypeError` (src/fb-index.js:55-69). `Row` always has all three slots, so that error is not modelled.
- The `item.yearMonth || ""`, `item.count || 0` and `item.totalAmount || 0` defaults of `createTableHTML` (src/kv-index.js:263-265) are not modelled. A bucket always has a non-empty month and a count of at least one, and a total of 0 renders as 0 either way.
- `if (!yearMonth) continue;` (src/kv-index.js:204) cannot be reached, because a month that passed the field check is non-empty. It is therefore not a branch of the `AggregateByMonth` loop.
- The table layout of individual rows is not stated as positions in the full markup. `RowsInOrder` states the order for any row renderer, and `RowMarkup` gives a row's exact text.
- vite.config.js: development-server configuration with no logic.
