/**
 * `displayMonthlySummary` (src/kv-index.js) once both responses have arrived: the shape
 * normalisation of the two responses, the emptiness checks, and the pipeline
 * filter -> aggregate -> table, with a thrown error shown as an error message instead.
 */
module MonthlySummary {
  import opened Wrappers
  import opened JsStrings
  import opened MonthKeys
  import opened MonthlyAggregation
  import opened SummaryTable

  /** Field code of a record of the valid-month app. */
  const YEAR_MONTH := "年月"

  /** A record of the valid-month app: the value of its `年月` field (None: no such field). */
  datatype MonthRecord = MonthRecord(yearMonth: Option<string>)

  /**
   * The valid-months response: a bare array, or an object whose `records` and `data`
   * properties are None when absent or falsy.
   */
  datatype MonthsResponse =
    | MonthsArray(entries: seq<MonthEntry>)
    | MonthsObject(records: Option<Listing<MonthRecord>>, data: Option<Listing<MonthEntry>>)

  /** The usage-report response, in the same two shapes. */
  datatype DetailsResponse =
    | DetailsArray(items: seq<Detail>)
    | DetailsObject(records: Option<Listing<Detail>>, data: Option<Listing<Detail>>)

  /**
   * `validMonthsData.records.map(...)`: each record's `年月` value with its first `/`
   * turned into `-`; a record without a value throws.
   */
  function RecordMonths(records: seq<MonthRecord>): (r: Result<seq<MonthEntry>, SummaryError>)
    ensures r.Err? <==> exists rec :: rec in records && !Present(rec.yearMonth)
    ensures r.Err? ==> r.error == MissingField(YEAR_MONTH)
    ensures r.Ok? ==> |r.value| == |records| && forall i :: 0 <= i < |records| ==>
      records[i].yearMonth.Some? && r.value[i] == MonthText(NormaliseMonth(records[i].yearMonth.value))
  {
    if records == [] then Ok([])
    else if !Present(records[0].yearMonth) then Err(MissingField(YEAR_MONTH))
    else
      var rest :- RecordMonths(records[1..]);
      assert records == [records[0]] + records[1..];
      Ok([MonthText(NormaliseMonth(records[0].yearMonth.value))] + rest)
  }

  /**
   * The `validMonths` the function settles on: the array itself; the mapped `records` when
   * that is an array; otherwise `data`, or an empty array when `data` is falsy.
   */
  function ValidMonths(months: MonthsResponse): Result<Listing<MonthEntry>, SummaryError>
  {
    match months
    case MonthsArray(entries) => Ok(Items(entries))
    case MonthsObject(records, data) =>
      if records.Some? && records.value.Items? then
        var mapped :- RecordMonths(records.value.elems);
        Ok(Items(mapped))
      else
        Ok(if data.Some? then data.value else Items([]))
  }

  /**
   * `Array.isArray(detailData) ? detailData : detailData.records || detailData.data || []`:
   * a `records` property that is there wins, even an empty array.
   */
  function DetailList(details: DetailsResponse): Listing<Detail> {
    match details
    case DetailsArray(items) => Items(items)
    case DetailsObject(records, data) =>
      if records.Some? then records.value else if data.Some? then data.value else Items([])
  }

  /** `x.length === 0`: only an empty array has length 0 (a non-array's length is undefined). */
  predicate LengthIsZero<T>(l: Listing<T>) {
    l.Items? && l.elems == []
  }

  /**
   * Everything `displayMonthlySummary` does before it aggregates: normalise both responses,
   * throw on an empty whitelist and then on an empty detail list, and filter.
   */
  function SummaryInput(months: MonthsResponse, details: DetailsResponse): (r: Result<seq<Detail>, SummaryError>)
    ensures r == Err(NoValidMonths) <==> ValidMonths(months) == Ok(Items([]))
    ensures r == Err(NoDetails) <==>
      ValidMonths(months).Ok? && !LengthIsZero(ValidMonths(months).value) && LengthIsZero(DetailList(details))
    ensures ValidMonths(months).Err? ==> r == Err(ValidMonths(months).error)
    ensures ValidMonths(months).Ok? && !LengthIsZero(ValidMonths(months).value) && !LengthIsZero(DetailList(details)) ==>
      r == FilterDetailData(DetailList(details), ValidMonths(months).value)
  {
    var validMonths :- ValidMonths(months);
    var detailList := DetailList(details);
    if LengthIsZero(validMonths) then Err(NoValidMonths)
    else if LengthIsZero(detailList) then Err(NoDetails)
    else FilterDetailData(detailList, validMonths)
  }

  /** `error.message` of each error the summary can throw. */
  function Message(e: SummaryError): string {
    match e
    case MissingField(field) => "必須項目が見つかりません: " + field
    case NullMonthEntry => "Cannot read properties of null (reading 'yearMonth')"
    case NoValidMonths => "有効な年月データが取得できませんでした"
    case NoDetails => "明細データが取得できませんでした"
  }

  /** What `showError` writes into the container. */
  function ErrorMarkup(e: SummaryError): string {
    "<div class=\"error\">エラー: " + Message(e) + "</div>"
  }

  /**
   * `displayMonthlySummary` from the two parsed responses to the markup written into the
   * container: the error message of the first error thrown, or the summary table of the
   * filtered records' aggregate, sorted by month whenever every month key parses.
   */
  method DisplayMonthlySummary(months: MonthsResponse, details: DetailsResponse) returns (html: string)
    ensures SummaryInput(months, details).Err? ==> html == ErrorMarkup(SummaryInput(months, details).error)
    ensures SummaryInput(months, details).Ok? && FirstFault(SummaryInput(months, details).value).Some? ==>
      html == ErrorMarkup(FirstFault(SummaryInput(months, details).value).value)
    ensures SummaryInput(months, details).Ok? && FirstFault(SummaryInput(months, details).value).None? ==>
      exists bs ::
        && IsAggregateOf(bs, SummaryInput(months, details).value)
        && (AllKeysParse(bs) ==> SortedByMonth(bs))
        && html == TableMarkup(Items(bs))
  {
    var validMonths: Listing<MonthEntry> := Items([]);
    match months {
      case MonthsArray(entries) =>
        validMonths := Items(entries);
      case MonthsObject(records, data) =>
        if records.Some? && records.value.Items? {
          var mapped := RecordMonths(records.value.elems);
          if mapped.Err? {
            return ErrorMarkup(mapped.error);
          }
          validMonths := Items(mapped.value);
        } else {
          validMonths := if data.Some? then data.value else Items([]);
        }
    }
    var detailList := DetailList(details);
    if LengthIsZero(validMonths) {
      return ErrorMarkup(NoValidMonths);
    }
    if LengthIsZero(detailList) {
      return ErrorMarkup(NoDetails);
    }
    var filtered := FilterDetailData(detailList, validMonths);
    if filtered.Err? {
      return ErrorMarkup(filtered.error);
    }
    var aggregated := AggregateByMonth(Items(filtered.value));
    if aggregated.Err? {
      return ErrorMarkup(aggregated.error);
    }
    html := CreateTableHtml(Items(aggregated.value));
  }

  // ---------------------------------------------------------------------------
  // Properties of the whole pipeline

  /**
   * Every record that survives the filter has its month, so the only error left for the
   * aggregation to throw is a missing `合計`.
   */
  lemma FilteredFaultIsTotal(months: MonthsResponse, details: DetailsResponse)
    requires SummaryInput(months, details).Ok?
    ensures FirstFault(SummaryInput(months, details).value) in {None, Some(MissingField(TOTAL))}
  {
    var filtered := SummaryInput(months, details).value;
    FirstFaultIsFirst(filtered);
    if FirstFault(filtered).Some? {
      var i :| 0 <= i < |filtered| && FirstFault(filtered) == RecordFault(filtered[i])
        && forall j :: 0 <= j < i ==> RecordFault(filtered[j]).None?;
      KeptHasMonth(DetailList(details), ValidMonths(months).value, filtered[i]);
    }
  }

  /** A record in the filter's output is non-null and has a month value. */
  lemma KeptHasMonth(details: Listing<Detail>, validMonths: Listing<MonthEntry>, d: Detail)
    requires FilterDetailData(details, validMonths).Ok? && d in FilterDetailData(details, validMonths).value
    ensures d.Some? && Present(d.value.usageYearMonth)
  {
    var kept := FilterDetailData(details, validMonths).value;
    assert multiset(kept)[d] > 0;
  }

  /**
   * With both lists arrays, the months shown are exactly the whitelisted months that occur
   * among the detail records, and each row counts and sums ALL the records of its month.
   */
  lemma SummaryBuckets(months: MonthsResponse, details: DetailsResponse, bs: seq<Bucket>)
    requires SummaryInput(months, details).Ok?
    requires ValidMonths(months).value.Items? && DetailList(details).Items?
    requires IsAggregateOf(bs, SummaryInput(months, details).value)
    ensures ValidMonthKeys(ValidMonths(months).value.elems).Ok?
    ensures var whitelist := ValidMonthKeys(ValidMonths(months).value.elems).value;
      var records := DetailList(details).elems;
      && KeysOf(bs) == MonthsOf(records) * whitelist
      && forall b :: b in bs ==> b.count == MonthCount(records, b.yearMonth) && b.totalAmount == MonthTotal(records, b.yearMonth)
  {
    var whitelist := ValidMonthKeys(ValidMonths(months).value.elems).value;
    FilteredAggregate(bs, DetailList(details).elems, whitelist);
  }

  /**
   * A whitelist or detail list that is not an array (a truthy non-array `records` or
   * `data`) passes the emptiness checks and then leaves nothing to show: the aggregate of
   * the empty filter result is empty, and the table is the placeholder.
   */
  lemma NonArrayShowsPlaceholder(months: MonthsResponse, details: DetailsResponse, bs: seq<Bucket>)
    requires SummaryInput(months, details).Ok?
    requires ValidMonths(months).value.NotAList? || DetailList(details).NotAList?
    requires IsAggregateOf(bs, SummaryInput(months, details).value)
    ensures SummaryInput(months, details).value == [] && bs == []
    ensures TableMarkup(Items(bs)) == PLACEHOLDER
  {
    assert SummaryInput(months, details).value == [];
    NoMonthsNoBuckets(bs);
  }

  /** Buckets without a month key are no buckets at all. */
  lemma NoMonthsNoBuckets(bs: seq<Bucket>)
    requires KeysOf(bs) == {}
    ensures bs == []
  {
    assert bs != [] ==> bs[0].yearMonth in KeysOf(bs);
  }

  /**
   * Whitelist entries from `records` are normalised like the detail months, so a record
   * month written `YYYY/MM` whitelists the details written `YYYY/MM` or `YYYY-MM`.
   */
  lemma {:induction false} RecordWhitelistIsNormalised(records: seq<MonthRecord>, k: string)
    requires RecordMonths(records).Ok?
    ensures ValidMonthKeys(RecordMonths(records).value).Ok?
    ensures k in ValidMonthKeys(RecordMonths(records).value).value <==>
      exists i :: 0 <= i < |records| && records[i].yearMonth.Some? && NormaliseMonth(records[i].yearMonth.value) == k
  {
    var entries := RecordMonths(records).value;
    assert NullEntry !in entries;
    var whitelist := ValidMonthKeys(entries).value;
    if k in whitelist {
      var e :| e in entries && EntryKey(e) == Some(k);
      var i :| 0 <= i < |entries| && entries[i] == e;
      RecordEntry(records, i);
    }
    if exists i :: 0 <= i < |records| && records[i].yearMonth.Some? && NormaliseMonth(records[i].yearMonth.value) == k {
      var i :| 0 <= i < |records| && records[i].yearMonth.Some? && NormaliseMonth(records[i].yearMonth.value) == k;
      RecordEntry(records, i);
      assert entries[i] in entries;
    }
  }

  /**
   * The set of months each shape of the valid-months response whitelists: a bare array's
   * entries as written; the normalised `年月` of the `records` when that is an array;
   * otherwise the entries of `data`; and no month at all when `data` is missing too.
   */
  lemma WhitelistOfResponse(months: MonthsResponse, k: string)
    requires ValidMonths(months).Ok? && ValidMonths(months).value.Items?
    requires ValidMonthKeys(ValidMonths(months).value.elems).Ok?
    ensures var whitelist := ValidMonthKeys(ValidMonths(months).value.elems).value;
      match months
      case MonthsArray(entries) => k in whitelist <==> exists e :: e in entries && EntryKey(e) == Some(k)
      case MonthsObject(records, data) =>
        if records.Some? && records.value.Items? then
          var rs := records.value.elems;
          k in whitelist <==> exists i :: 0 <= i < |rs| && rs[i].yearMonth.Some? && NormaliseMonth(rs[i].yearMonth.value) == k
        else if data.Some? then
          k in whitelist <==> exists e :: e in data.value.elems && EntryKey(e) == Some(k)
        else
          k !in whitelist
  {
    if months.MonthsObject? && months.records.Some? && months.records.value.Items? {
      RecordWhitelistIsNormalised(months.records.value.elems, k);
    }
  }

  /** The whitelist entry mapped from one record. */
  lemma RecordEntry(records: seq<MonthRecord>, i: nat)
    requires RecordMonths(records).Ok? && i < |records|
    ensures records[i].yearMonth.Some?
    ensures i < |RecordMonths(records).value|
    ensures EntryKey(RecordMonths(records).value[i]) == Some(NormaliseMonth(records[i].yearMonth.value))
  {
  }

  /**
   * Entries of a bare-array whitelist are used as they are: when each is a `YYYY/MM`
   * style string with no `-`, no detail record matches and the filter keeps nothing.
   */
  lemma SlashArrayWhitelistKeepsNothing(entries: seq<MonthEntry>, items: seq<Detail>)
    requires forall e :: e in entries ==> e.MonthText? && '/' in e.text && '-' !in e.text
    requires FilterDetailData(Items(items), Items(entries)).Ok?
    ensures FilterDetailData(Items(items), Items(entries)).value == []
  {
    var kept := FilterDetailData(Items(items), Items(entries)).value;
    var whitelist := ValidMonthKeys(entries).value;
    if kept != [] {
      var d := kept[0];
      assert multiset(kept)[d] > 0;
      assert Kept(d, whitelist);
      var k := ItemMonth(d).value;
      var e :| e in entries && EntryKey(e) == Some(k);
      SlashFormIsNeverNormalised(d.value.usageYearMonth.value, e.text);
    }
  }
}
