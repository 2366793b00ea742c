/**
 * The data path of the monthly summary (src/kv-index.js): the whitelist set of valid
 * months, `filterDetailData`, `aggregateByMonth` and the chronological sort of its buckets.
 */
module MonthlyAggregation {
  import opened Wrappers
  import opened JsStrings
  import opened MonthKeys

  /** Field codes of a usage-report record. */
  const USAGE_YEAR_MONTH := "利用年月"
  const TOTAL := "合計"

  /** A usage-report record: the values of its `利用年月` and `合計` fields (None: no such field). */
  datatype UsageRecord = UsageRecord(usageYearMonth: Option<string>, total: Option<string>)

  /** An element of the detail array; None is a `null` element. */
  type Detail = Option<UsageRecord>

  /** A value that `Array.isArray` accepts (Items) or rejects (NotAList). */
  datatype Listing<T> = Items(elems: seq<T>) | NotAList

  /**
   * An element of the valid-months array: a string, an object with optional `yearMonth`
   * and `year_month` properties, or `null`.
   */
  datatype MonthEntry =
    | MonthText(text: string)
    | MonthObject(yearMonth: Option<string>, yearMonthUnderscored: Option<string>)
    | NullEntry

  /** One row of the summary: a month, how many records fall in it and their summed amount. */
  datatype Bucket = Bucket(yearMonth: string, count: nat, totalAmount: int)

  /** The errors the summary throws and shows. */
  datatype SummaryError =
    | MissingField(field: string)  // 必須項目が見つかりません: <field>
    | NullMonthEntry               // TypeError reading a property of a null valid-month entry
    | NoValidMonths                // 有効な年月データが取得できませんでした
    | NoDetails                    // 明細データが取得できませんでした

  // ---------------------------------------------------------------------------
  // The whitelist set

  /** `typeof item === "string" ? item : item.yearMonth || item.year_month` (None: undefined). */
  function EntryKey(e: MonthEntry): Option<string> {
    match e
    case MonthText(t) => Some(t)
    case MonthObject(a, b) => if Present(a) then a else b
    case NullEntry => None
  }

  /**
   * `new Set(validMonths.map(...))`, restricted to the string keys it holds. A `null`
   * entry makes the property read throw.
   */
  function ValidMonthKeys(entries: seq<MonthEntry>): (r: Result<set<string>, SummaryError>)
    ensures r.Err? <==> NullEntry in entries
    ensures r.Err? ==> r.error == NullMonthEntry
    ensures r.Ok? ==> forall k :: k in r.value <==> exists e :: e in entries && EntryKey(e) == Some(k)
  {
    if entries == [] then Ok({})
    else if entries[0] == NullEntry then Err(NullMonthEntry)
    else
      var rest :- ValidMonthKeys(entries[1..]);
      assert entries == [entries[0]] + entries[1..];
      Ok(rest + match EntryKey(entries[0]) case Some(k) => {k} case None => {})
  }

  // ---------------------------------------------------------------------------
  // filterDetailData

  /** A non-null record without a usable `利用年月` value. */
  predicate LacksMonth(d: Detail) {
    d.Some? && !Present(d.value.usageYearMonth)
  }

  /** The normalised month of a non-null record that has one. */
  function ItemMonth(d: Detail): Option<string> {
    if d.Some? && Present(d.value.usageYearMonth) then Some(NormaliseMonth(d.value.usageYearMonth.value))
    else None
  }

  /** The records the filter keeps: non-null, with a month that is in the whitelist. */
  predicate Kept(d: Detail, months: set<string>) {
    ItemMonth(d).Some? && ItemMonth(d).value in months
  }

  /** `a` is `b` with some elements left out, the rest in their original order. */
  ghost predicate IsSubsequence<T>(a: seq<T>, b: seq<T>)
    decreases |b|
  {
    a == [] || (b != [] && ((a[0] == b[0] && IsSubsequence(a[1..], b[1..])) || IsSubsequence(a, b[1..])))
  }

  /**
   * The `detailData.filter(...)` callback applied in order: null elements are dropped,
   * a record without `利用年月` throws, the others are kept when their month is whitelisted.
   */
  function FilterByMonths(items: seq<Detail>, months: set<string>): (r: Result<seq<Detail>, SummaryError>)
    ensures r.Err? <==> exists d :: d in items && LacksMonth(d)
    ensures r.Err? ==> r.error == MissingField(USAGE_YEAR_MONTH)
    ensures r.Ok? ==> IsSubsequence(r.value, items)
    ensures r.Ok? ==> forall d :: multiset(r.value)[d] == if Kept(d, months) then multiset(items)[d] else 0
  {
    if items == [] then Ok([])
    else if LacksMonth(items[0]) then Err(MissingField(USAGE_YEAR_MONTH))
    else
      var rest :- FilterByMonths(items[1..], months);
      assert items == [items[0]] + items[1..];
      if Kept(items[0], months) then
        assert ([items[0]] + rest)[1..] == rest;
        Ok([items[0]] + rest)
      else
        assert rest == [] || IsSubsequence(rest, items[1..]);
        Ok(rest)
  }

  /**
   * `filterDetailData(detailData, validMonths)`: non-arrays give an empty result; otherwise
   * the detail records whose normalised `利用年月` is in the whitelist set, in order.
   */
  function FilterDetailData(details: Listing<Detail>, validMonths: Listing<MonthEntry>): (r: Result<seq<Detail>, SummaryError>)
    ensures details.NotAList? || validMonths.NotAList? ==> r == Ok([])
    ensures details.Items? && validMonths.Items? ==>
      && (r.Err? <==> NullEntry in validMonths.elems || exists d :: d in details.elems && LacksMonth(d))
      && (r.Err? ==> r.error == if NullEntry in validMonths.elems then NullMonthEntry else MissingField(USAGE_YEAR_MONTH))
    ensures details.Items? && validMonths.Items? && r.Ok? ==>
      var months := ValidMonthKeys(validMonths.elems).value;
      && IsSubsequence(r.value, details.elems)
      && forall d :: multiset(r.value)[d] == if Kept(d, months) then multiset(details.elems)[d] else 0
  {
    if details.NotAList? || validMonths.NotAList? then Ok([])
    else
      var months :- ValidMonthKeys(validMonths.elems);
      FilterByMonths(details.elems, months)
  }

  // ---------------------------------------------------------------------------
  // What aggregateByMonth computes, stated over the prefix it has read

  /** `Number.parseFloat(value) || 0` in whole numbers: a value with no leading number counts 0. */
  function ParseAmount(value: string): int
  {
    match ParseInt(value)
    case Some(n) => n
    case None => 0
  }

  /**
   * An amount written in decimal reads back as itself, with or without a minus sign, and
   * text without any digit (an empty `合計` as well) counts 0.
   */
  lemma AmountReadsBack(n: nat, text: string)
    ensures ParseAmount(NatToString(n)) == n
    ensures ParseAmount("-" + NatToString(n)) == 0 - n as int
    ensures (forall i :: 0 <= i < |text| ==> !IsDigit(text[i])) ==> ParseAmount(text) == 0
  {
    ParseIntOfNatToString(n);
    ParseIntOfNegatedDigits(NatToString(n));
    if forall i :: 0 <= i < |text| ==> !IsDigit(text[i]) {
      NoDigitNoNumber(text);
    }
  }

  /** The amount a record adds to its bucket. */
  function ItemAmount(d: Detail): int {
    if d.Some? && Present(d.value.total) then ParseAmount(d.value.total.value) else 0
  }

  /** The error the loop body of `aggregateByMonth` throws for one element, if any. */
  function RecordFault(d: Detail): Option<SummaryError> {
    if d.None? then None
    else if !Present(d.value.usageYearMonth) then Some(MissingField(USAGE_YEAR_MONTH))
    else if !Present(d.value.total) then Some(MissingField(TOTAL))
    else None
  }

  /** The error of the first element that throws: the one the loop stops at. */
  function FirstFault(items: seq<Detail>): Option<SummaryError> {
    if items == [] then None
    else
      var earlier := FirstFault(items[..|items| - 1]);
      if earlier.Some? then earlier else RecordFault(items[|items| - 1])
  }

  /**
   * No record throws exactly when there is no first fault; otherwise the first fault is the
   * error of some record, every record before which goes through.
   */
  lemma {:induction false} FirstFaultIsFirst(items: seq<Detail>)
    ensures FirstFault(items).None? <==> forall i :: 0 <= i < |items| ==> RecordFault(items[i]).None?
    ensures FirstFault(items).Some? ==>
      exists i :: 0 <= i < |items| && FirstFault(items) == RecordFault(items[i])
        && forall j :: 0 <= j < i ==> RecordFault(items[j]).None?
  {
    if items != [] {
      var n := |items| - 1;
      var init := items[..n];
      FirstFaultIsFirst(init);
      assert forall j :: 0 <= j < n ==> init[j] == items[j];
      if FirstFault(init).Some? {
        var i :| 0 <= i < n && FirstFault(init) == RecordFault(init[i]) && (forall j :: 0 <= j < i ==> RecordFault(init[j]).None?);
        assert RecordFault(items[i]) == RecordFault(init[i]);
      }
    }
  }

  /** Number of non-null elements. */
  function RecordCount(items: seq<Detail>): nat {
    if items == [] then 0
    else RecordCount(items[..|items| - 1]) + if items[|items| - 1].Some? then 1 else 0
  }

  /** Number of records whose normalised month is `key`. */
  function MonthCount(items: seq<Detail>, key: string): nat {
    if items == [] then 0
    else
      var n := |items| - 1;
      MonthCount(items[..n], key) + if ItemMonth(items[n]) == Some(key) then 1 else 0
  }

  /** Sum of the amounts of the records whose normalised month is `key`. */
  function MonthTotal(items: seq<Detail>, key: string): (total: int)
    ensures MonthCount(items, key) == 0 ==> total == 0
  {
    if items == [] then 0
    else
      var n := |items| - 1;
      MonthTotal(items[..n], key) + if ItemMonth(items[n]) == Some(key) then ItemAmount(items[n]) else 0
  }

  /** The normalised months that occur among the records. */
  function MonthsOf(items: seq<Detail>): (ks: set<string>)
    ensures forall k :: k in ks <==> MonthCount(items, k) > 0
  {
    if items == [] then {}
    else
      var n := |items| - 1;
      MonthsOf(items[..n]) + match ItemMonth(items[n]) case Some(k) => {k} case None => {}
  }

  function KeysOf(bs: seq<Bucket>): set<string> {
    set b | b in bs :: b.yearMonth
  }

  predicate DistinctKeys(bs: seq<Bucket>) {
    forall i, j :: 0 <= i < j < |bs| ==> bs[i].yearMonth != bs[j].yearMonth
  }

  /**
   * `bs` aggregates `items`: one bucket per month that occurs, each holding the number
   * and the summed amount of that month's records.
   */
  ghost predicate IsAggregateOf(bs: seq<Bucket>, items: seq<Detail>) {
    && DistinctKeys(bs)
    && KeysOf(bs) == MonthsOf(items)
    && forall b :: b in bs ==> b.count == MonthCount(items, b.yearMonth) && b.totalAmount == MonthTotal(items, b.yearMonth)
  }

  // ---------------------------------------------------------------------------
  // The sort: Array.prototype.sort (stable) with the comparator of lines 219-225
  //
  // The sort is written over any parse of the keys (`when`), so that its proof does not
  // look inside `parseYearMonth`; the summary uses it with `ParseYearMonth`.

  /**
   * The comparator's sign: the difference of the two month indices, and 0 when either
   * key gives null or an invalid Date (a NaN result counts as +0).
   */
  function CompareBy(when: string -> DateValue, a: Bucket, b: Bucket): int {
    match (when(a.yearMonth), when(b.yearMonth))
    case (MonthStart(x), MonthStart(y)) => x - y
    case _ => 0
  }

  predicate AllParseBy(when: string -> DateValue, bs: seq<Bucket>) {
    forall b :: b in bs ==> when(b.yearMonth).MonthStart?
  }

  /** Ascending by the comparator: by month index when every key parses. */
  predicate SortedBy(when: string -> DateValue, bs: seq<Bucket>) {
    forall i, j :: 0 <= i < j < |bs| ==> CompareBy(when, bs[i], bs[j]) <= 0
  }

  /** Two arrangements of the same buckets hold the same buckets and keys. */
  lemma PermutationKeepsMembers(a: seq<Bucket>, b: seq<Bucket>)
    requires multiset(a) == multiset(b)
    ensures forall x :: x in a <==> x in b
    ensures KeysOf(a) == KeysOf(b)
  {
    assert forall x :: x in a <==> x in multiset(a);
    assert forall x :: x in b <==> x in multiset(b);
  }

  /** Insertion of one element in front of the first one it does not come after. */
  function InsertBy(when: string -> DateValue, x: Bucket, s: seq<Bucket>): (r: seq<Bucket>)
    ensures multiset(r) == multiset(s) + multiset{x} && |r| == |s| + 1
  {
    if s == [] then [x]
    else if CompareBy(when, x, s[0]) <= 0 then [x] + s
    else
      assert s == [s[0]] + s[1..];
      [s[0]] + InsertBy(when, x, s[1..])
  }

  /** Every element of an insertion is the inserted one or an old one. */
  lemma InsertMembers(when: string -> DateValue, x: Bucket, s: seq<Bucket>)
    ensures forall y :: y in InsertBy(when, x, s) ==> y == x || y in s
  {
    var r := InsertBy(when, x, s);
    forall y | y in r ensures y == x || y in s {
      assert y in multiset(r);
      assert y in multiset(s) || y == x;
    }
  }

  /** Inserting into an ascending sequence of parsable keys keeps it ascending. */
  lemma {:induction false} InsertSorted(when: string -> DateValue, x: Bucket, s: seq<Bucket>)
    requires AllParseBy(when, [x] + s) && SortedBy(when, s)
    ensures SortedBy(when, InsertBy(when, x, s))
  {
    if s != [] && CompareBy(when, x, s[0]) > 0 {
      assert s == [s[0]] + s[1..];
      assert AllParseBy(when, [x] + s[1..]);
      InsertSorted(when, x, s[1..]);
      InsertMembers(when, x, s[1..]);
      var tail := InsertBy(when, x, s[1..]);
      assert forall y :: y in tail ==> CompareBy(when, s[0], y) <= 0;
      assert forall j :: 0 <= j < |tail| ==> tail[j] in tail;
    }
  }

  /** Inserting a bucket whose key is new keeps the keys distinct. */
  lemma {:induction false} InsertDistinct(when: string -> DateValue, x: Bucket, s: seq<Bucket>)
    requires DistinctKeys(s) && x.yearMonth !in KeysOf(s)
    ensures DistinctKeys(InsertBy(when, x, s))
  {
    if s != [] && CompareBy(when, x, s[0]) > 0 {
      assert s == [s[0]] + s[1..];
      assert KeysOf(s[1..]) <= KeysOf(s);
      InsertDistinct(when, x, s[1..]);
      InsertMembers(when, x, s[1..]);
      var tail := InsertBy(when, x, s[1..]);
      assert forall j :: 0 <= j < |tail| ==> tail[j] in tail;
    }
  }

  /**
   * A stable insertion sort with that comparator: a permutation, ascending by month when
   * every key parses (with unparsable keys the comparator is inconsistent and the order
   * it leaves is the engine's own).
   */
  function SortBy(when: string -> DateValue, s: seq<Bucket>): (r: seq<Bucket>)
    ensures multiset(r) == multiset(s) && |r| == |s|
    ensures AllParseBy(when, s) ==> SortedBy(when, r)
    ensures DistinctKeys(s) ==> DistinctKeys(r)
  {
    if s == [] then []
    else
      var rest := SortBy(when, s[1..]);
      InsertStep(when, s, rest);
      InsertKeepsElements(when, s, rest);
      InsertBy(when, s[0], rest)
  }

  lemma InsertKeepsElements(when: string -> DateValue, s: seq<Bucket>, rest: seq<Bucket>)
    requires s != [] && multiset(rest) == multiset(s[1..])
    ensures multiset(InsertBy(when, s[0], rest)) == multiset(s) && |InsertBy(when, s[0], rest)| == |s|
  {
    assert s == [s[0]] + s[1..];
    assert |multiset(InsertBy(when, s[0], rest))| == |InsertBy(when, s[0], rest)|;
  }

  /** One step of the sort: inserting the head into the sorted tail. */
  lemma InsertStep(when: string -> DateValue, s: seq<Bucket>, rest: seq<Bucket>)
    requires s != [] && multiset(rest) == multiset(s[1..])
    requires AllParseBy(when, s[1..]) ==> SortedBy(when, rest)
    requires DistinctKeys(s[1..]) ==> DistinctKeys(rest)
    ensures AllParseBy(when, s) ==> SortedBy(when, InsertBy(when, s[0], rest))
    ensures DistinctKeys(s) ==> DistinctKeys(InsertBy(when, s[0], rest))
  {
    PermutationKeepsMembers(rest, s[1..]);
    assert s == [s[0]] + s[1..];
    if AllParseBy(when, s) {
      InsertSorted(when, s[0], rest);
    }
    if DistinctKeys(s) {
      assert s[0].yearMonth !in KeysOf(s[1..]);
      InsertDistinct(when, s[0], rest);
    }
  }

  predicate AllKeysParse(bs: seq<Bucket>) {
    AllParseBy(ParseYearMonth, bs)
  }

  predicate SortedByMonth(bs: seq<Bucket>) {
    SortedBy(ParseYearMonth, bs)
  }

  /** Well-formed `YYYY-MM` keys all parse to the first day of their month. */
  lemma WellFormedKeysParse(bs: seq<Bucket>)
    requires forall b :: b in bs ==> WellFormed(b.yearMonth)
    ensures AllKeysParse(bs)
  {
    forall b | b in bs ensures ParseYearMonth(b.yearMonth).MonthStart? {
      ParseWellFormed(b.yearMonth);
    }
  }

  /**
   * Buckets sorted by the comparator, with well-formed keys from year 100 on, are in
   * ascending (year, month) order, strictly so when their keys are distinct.
   */
  lemma SortedIsChronological(bs: seq<Bucket>)
    requires forall b :: b in bs ==> WellFormed(b.yearMonth) && YearOf(b.yearMonth) >= 100
    requires SortedByMonth(bs)
    ensures forall i, j :: 0 <= i < j < |bs| ==>
      && WellFormed(bs[i].yearMonth) && WellFormed(bs[j].yearMonth)
      && (|| YearOf(bs[i].yearMonth) < YearOf(bs[j].yearMonth)
          || (YearOf(bs[i].yearMonth) == YearOf(bs[j].yearMonth) && MonthOf(bs[i].yearMonth) <= MonthOf(bs[j].yearMonth)))
    ensures DistinctKeys(bs) ==> forall i, j :: 0 <= i < j < |bs| ==>
      && WellFormed(bs[i].yearMonth) && WellFormed(bs[j].yearMonth)
      && (|| YearOf(bs[i].yearMonth) < YearOf(bs[j].yearMonth)
          || (YearOf(bs[i].yearMonth) == YearOf(bs[j].yearMonth) && MonthOf(bs[i].yearMonth) < MonthOf(bs[j].yearMonth)))
  {
    forall i, j | 0 <= i < j < |bs|
      ensures && WellFormed(bs[i].yearMonth) && WellFormed(bs[j].yearMonth)
              && (|| YearOf(bs[i].yearMonth) < YearOf(bs[j].yearMonth)
                  || (YearOf(bs[i].yearMonth) == YearOf(bs[j].yearMonth) && MonthOf(bs[i].yearMonth) <= MonthOf(bs[j].yearMonth)))
      ensures DistinctKeys(bs) ==> bs[i].yearMonth != bs[j].yearMonth
    {
      var a, b := bs[i].yearMonth, bs[j].yearMonth;
      assert bs[i] in bs && bs[j] in bs;
      ChronologicalOrder(a, b);
      assert CompareBy(ParseYearMonth, bs[i], bs[j]) <= 0;
    }
    if DistinctKeys(bs) {
      forall i, j | 0 <= i < j < |bs|
        ensures YearOf(bs[i].yearMonth) < YearOf(bs[j].yearMonth)
             || (YearOf(bs[i].yearMonth) == YearOf(bs[j].yearMonth) && MonthOf(bs[i].yearMonth) < MonthOf(bs[j].yearMonth))
      {
        var a, b := bs[i].yearMonth, bs[j].yearMonth;
        if YearOf(a) == YearOf(b) && MonthOf(a) == MonthOf(b) {
          SameFieldsSameKey(a, b);
        }
      }
    }
  }

  // ---------------------------------------------------------------------------
  // aggregateByMonth

  /** Once a prefix has thrown, the whole run throws the same error. */
  lemma {:induction false} FaultOfPrefix(items: seq<Detail>, n: nat)
    requires n <= |items| && FirstFault(items[..n]).Some?
    ensures FirstFault(items) == FirstFault(items[..n])
    decreases |items|
  {
    if n < |items| {
      var m := |items| - 1;
      assert items[..m][..n] == items[..n];
      FaultOfPrefix(items[..m], n);
    } else {
      assert items[..n] == items;
    }
  }

  /** How the tallies change when one more element is read. */
  lemma TallyAppend(prefix: seq<Detail>, d: Detail)
    ensures forall k :: MonthCount(prefix + [d], k) == MonthCount(prefix, k) + if ItemMonth(d) == Some(k) then 1 else 0
    ensures forall k :: MonthTotal(prefix + [d], k) == MonthTotal(prefix, k) + if ItemMonth(d) == Some(k) then ItemAmount(d) else 0
    ensures MonthsOf(prefix + [d]) == MonthsOf(prefix) + match ItemMonth(d) case Some(k) => {k} case None => {}
  {
    assert (prefix + [d])[..|prefix|] == prefix;
  }

  lemma FaultAppend(prefix: seq<Detail>, d: Detail)
    ensures FirstFault(prefix + [d]) == if FirstFault(prefix).Some? then FirstFault(prefix) else RecordFault(d)
  {
    assert (prefix + [d])[..|prefix|] == prefix;
  }

  /**
   * The state of the loop after reading `prefix`: the dictionary holds one bucket per
   * month read so far with that month's count and total, and `order` lists its keys once
   * each, in the order they were first met.
   */
  ghost predicate Tallies(aggregated: map<string, Bucket>, order: seq<string>, prefix: seq<Detail>) {
    && aggregated.Keys == MonthsOf(prefix)
    && (forall k :: k in aggregated ==> aggregated[k] == Bucket(k, MonthCount(prefix, k), MonthTotal(prefix, k)))
    && (forall j, l :: 0 <= j < l < |order| ==> order[j] != order[l])
    && (forall k :: k in aggregated <==> k in order)
  }

  lemma TallySkip(aggregated: map<string, Bucket>, order: seq<string>, prefix: seq<Detail>, d: Detail)
    requires Tallies(aggregated, order, prefix) && ItemMonth(d).None?
    ensures Tallies(aggregated, order, prefix + [d])
  {
    TallyAppend(prefix, d);
  }

  lemma TallyCount(aggregated: map<string, Bucket>, order: seq<string>, prefix: seq<Detail>, d: Detail,
                   m: string, amount: int, aggregated': map<string, Bucket>, order': seq<string>)
    requires Tallies(aggregated, order, prefix) && ItemMonth(d) == Some(m) && ItemAmount(d) == amount
    requires var bucket := if m in aggregated then aggregated[m] else Bucket(m, 0, 0);
      aggregated' == aggregated[m := Bucket(m, bucket.count + 1, bucket.totalAmount + amount)]
    requires order' == if m in aggregated then order else order + [m]
    ensures Tallies(aggregated', order', prefix + [d])
  {
    TallyAppend(prefix, d);
  }

  /** The dictionary's values, listed in `order`, aggregate what was read. */
  lemma ValuesAggregate(aggregated: map<string, Bucket>, order: seq<string>, items: seq<Detail>, values: seq<Bucket>)
    requires Tallies(aggregated, order, items)
    requires |values| == |order| && forall j :: 0 <= j < |order| ==> values[j] == aggregated[order[j]]
    ensures IsAggregateOf(values, items)
  {
    assert forall j :: 0 <= j < |order| ==> values[j].yearMonth == order[j];
    forall b | b in values ensures b.count == MonthCount(items, b.yearMonth) && b.totalAmount == MonthTotal(items, b.yearMonth) {
      var j :| 0 <= j < |values| && values[j] == b;
    }
    assert KeysOf(values) == MonthsOf(items) by {
      forall k | k in MonthsOf(items) ensures k in KeysOf(values) {
        var j :| 0 <= j < |order| && order[j] == k;
        assert values[j] in values;
      }
    }
  }

  /**
   * One counted record: a new month gets an empty bucket and its place at the end of
   * the insertion order; then the month's bucket counts one more record and adds the amount.
   */
  method CountRecord(aggregated: map<string, Bucket>, order: seq<string>, yearMonth: string, amount: int)
    returns (aggregated': map<string, Bucket>, order': seq<string>)
    ensures var bucket := if yearMonth in aggregated then aggregated[yearMonth] else Bucket(yearMonth, 0, 0);
      aggregated' == aggregated[yearMonth := Bucket(yearMonth, bucket.count + 1, bucket.totalAmount + amount)]
    ensures order' == if yearMonth in aggregated then order else order + [yearMonth]
  {
    aggregated', order' := aggregated, order;
    if yearMonth !in aggregated' {
      aggregated' := aggregated'[yearMonth := Bucket(yearMonth, 0, 0)];
      order' := order' + [yearMonth];
    }
    var bucket := aggregated'[yearMonth];
    aggregated' := aggregated'[yearMonth := Bucket(yearMonth, bucket.count + 1, bucket.totalAmount + amount)];
  }

  /** `Object.values(aggregated)`: the buckets in the insertion order of their keys. */
  function ValuesInOrder(aggregated: map<string, Bucket>, order: seq<string>): seq<Bucket>
    requires forall k :: k in order ==> k in aggregated
  {
    seq(|order|, j requires 0 <= j < |order| => aggregated[order[j]])
  }

  /**
   * `aggregateByMonth(filteredData)`: a dictionary from month to bucket, filled in one pass
   * (`count++`, `totalAmount += amount`), then its values in insertion order, sorted. A
   * non-null record without `利用年月` or `合計` throws.
   */
  method AggregateByMonth(data: Listing<Detail>) returns (r: Result<seq<Bucket>, SummaryError>)
    ensures data.NotAList? ==> r == Ok([])
    ensures data.Items? ==> (r.Err? <==> FirstFault(data.elems).Some?)
    ensures data.Items? && r.Err? ==> FirstFault(data.elems) == Some(r.error)
    ensures data.Items? && r.Ok? ==> IsAggregateOf(r.value, data.elems)
    ensures r.Ok? && AllKeysParse(r.value) ==> SortedByMonth(r.value)
  {
    if data.NotAList? {
      return Ok([]);
    }
    var items := data.elems;
    var aggregated: map<string, Bucket> := map[];
    var order: seq<string> := [];  // insertion order, the order of Object.values
    for i := 0 to |items|
      invariant FirstFault(items[..i]).None?
      invariant Tallies(aggregated, order, items[..i])
    {
      var item := items[i];
      assert items[..i + 1] == items[..i] + [item];
      FaultAppend(items[..i], item);
      if item.None? {
        TallySkip(aggregated, order, items[..i], item);
        continue;
      }
      var rec := item.value;
      if !Present(rec.usageYearMonth) {
        FaultOfPrefix(items, i + 1);
        return Err(MissingField(USAGE_YEAR_MONTH));
      }
      var yearMonth := NormaliseMonth(rec.usageYearMonth.value);
      if !Present(rec.total) {
        FaultOfPrefix(items, i + 1);
        return Err(MissingField(TOTAL));
      }
      var amount := ParseAmount(rec.total.value);
      assert ItemMonth(item) == Some(yearMonth) && ItemAmount(item) == amount;
      ghost var before, orderBefore := aggregated, order;
      aggregated, order := CountRecord(aggregated, order, yearMonth, amount);
      TallyCount(before, orderBefore, items[..i], item, yearMonth, amount, aggregated, order);
    }
    assert items[..|items|] == items;
    var values := ValuesInOrder(aggregated, order);
    ValuesAggregate(aggregated, order, items, values);
    var sorted := SortBy(ParseYearMonth, values);
    PermutationKeepsMembers(sorted, values);
    return Ok(sorted);
  }

  // ---------------------------------------------------------------------------
  // Properties of the aggregate

  /** Sum of the buckets' counts. */
  function BucketCountSum(bs: seq<Bucket>): nat {
    if bs == [] then 0 else bs[0].count + BucketCountSum(bs[1..])
  }

  /** How many buckets carry the month `m`. */
  function KeyHits(bs: seq<Bucket>, m: Option<string>): nat {
    if bs == [] then 0 else (if m == Some(bs[0].yearMonth) then 1 else 0) + KeyHits(bs[1..], m)
  }

  /** Sum, over the buckets, of the number of records of each bucket's month. */
  function TallyOver(bs: seq<Bucket>, items: seq<Detail>): nat {
    if bs == [] then 0 else MonthCount(items, bs[0].yearMonth) + TallyOver(bs[1..], items)
  }

  lemma {:induction false} TallyOverAppend(bs: seq<Bucket>, prefix: seq<Detail>, d: Detail)
    ensures TallyOver(bs, prefix + [d]) == TallyOver(bs, prefix) + KeyHits(bs, ItemMonth(d))
  {
    if bs != [] {
      TallyAppend(prefix, d);
      TallyOverAppend(bs[1..], prefix, d);
    }
  }

  lemma {:induction false} KeyHitsDistinct(bs: seq<Bucket>, m: Option<string>)
    requires DistinctKeys(bs)
    ensures KeyHits(bs, m) == if m.Some? && m.value in KeysOf(bs) then 1 else 0
  {
    if bs != [] {
      assert bs == [bs[0]] + bs[1..];
      assert KeysOf(bs) == {bs[0].yearMonth} + KeysOf(bs[1..]);
      KeyHitsDistinct(bs[1..], m);
    }
  }

  lemma {:induction false} TallyOverCovers(bs: seq<Bucket>, items: seq<Detail>)
    requires DistinctKeys(bs) && MonthsOf(items) <= KeysOf(bs)
    requires forall d :: d in items ==> !LacksMonth(d)
    ensures TallyOver(bs, items) == RecordCount(items)
  {
    if items != [] {
      var n := |items| - 1;
      var d := items[n];
      assert items == items[..n] + [d];
      assert d in items && forall e :: e in items[..n] ==> e in items;
      TallyAppend(items[..n], d);
      TallyOverAppend(bs, items[..n], d);
      KeyHitsDistinct(bs, ItemMonth(d));
      TallyOverCovers(bs, items[..n]);
    } else {
      TallyOverNothing(bs);
    }
  }

  lemma TallyOverNothing(bs: seq<Bucket>)
    ensures TallyOver(bs, []) == 0
  {
  }

  lemma {:induction false} CountsAreTallies(bs: seq<Bucket>, items: seq<Detail>)
    requires forall b :: b in bs ==> b.count == MonthCount(items, b.yearMonth)
    ensures BucketCountSum(bs) == TallyOver(bs, items)
  {
    if bs != [] {
      assert bs[0] in bs;
      assert forall b :: b in bs[1..] ==> b in bs;
      CountsAreTallies(bs[1..], items);
    }
  }

  /**
   * Every record is counted once: when no record lacks its month, the counts of an
   * aggregate add up to the number of non-null records.
   */
  lemma CountsSumToRecords(bs: seq<Bucket>, items: seq<Detail>)
    requires IsAggregateOf(bs, items)
    requires forall d :: d in items ==> !LacksMonth(d)
    ensures BucketCountSum(bs) == RecordCount(items)
  {
    CountsAreTallies(bs, items);
    TallyOverCovers(bs, items);
  }

  lemma {:induction false} TallyConcat(u: seq<Detail>, v: seq<Detail>, k: string)
    ensures MonthCount(u + v, k) == MonthCount(u, k) + MonthCount(v, k)
    ensures MonthTotal(u + v, k) == MonthTotal(u, k) + MonthTotal(v, k)
  {
    if v != [] {
      var n := |v| - 1;
      assert u + v == (u + v[..n]) + [v[n]];
      assert v == v[..n] + [v[n]];
      TallyAppend(u + v[..n], v[n]);
      TallyAppend(v[..n], v[n]);
      TallyConcat(u, v[..n], k);
    } else {
      assert u + v == u;
    }
  }

  /** Taking one element out of the middle takes its share out of the tallies. */
  lemma TallyRemove(b: seq<Detail>, j: nat, k: string)
    requires j < |b|
    ensures MonthCount(b, k) == MonthCount(b[..j] + b[j + 1..], k) + MonthCount([b[j]], k)
    ensures MonthTotal(b, k) == MonthTotal(b[..j] + b[j + 1..], k) + MonthTotal([b[j]], k)
  {
    assert b == b[..j] + [b[j]] + b[j + 1..];
    TallyConcat(b[..j], [b[j]], k);
    TallyConcat(b[..j] + [b[j]], b[j + 1..], k);
    TallyConcat(b[..j], b[j + 1..], k);
  }

  /** The tallies of a month do not depend on the order of the records. */
  lemma {:induction false} TallyPermutation(a: seq<Detail>, b: seq<Detail>, k: string)
    requires multiset(a) == multiset(b)
    ensures MonthCount(a, k) == MonthCount(b, k) && MonthTotal(a, k) == MonthTotal(b, k)
    decreases |a|
  {
    if a == [] {
      assert |b| == |multiset(b)| == 0;
    } else {
      var n := |a| - 1;
      var j := MatchLast(a, b);
      var rest := b[..j] + b[j + 1..];
      TallyPermutation(a[..n], rest, k);
      TallyRemove(a, n, k);
      TallyRemove(b, j, k);
      assert a[..n] + a[n + 1..] == a[..n];
    }
  }

  /** Where the last element of `a` sits in its permutation `b`, and what is left of both. */
  lemma MatchLast<T>(a: seq<T>, b: seq<T>) returns (j: nat)
    requires multiset(a) == multiset(b) && a != []
    ensures j < |b| && b[j] == a[|a| - 1]
    ensures multiset(a[..|a| - 1]) == multiset(b[..j] + b[j + 1..])
  {
    var n := |a| - 1;
    var x := a[n];
    assert a == a[..n] + [x];
    assert x in multiset(b);
    j :| 0 <= j < |b| && b[j] == x;
    assert b == b[..j] + [x] + b[j + 1..];
    assert multiset(b[..j] + b[j + 1..]) == multiset(b) - multiset{x};
    assert multiset(a[..n]) == multiset(a) - multiset{x};
  }

  /** Reordering the detail records changes no bucket: the same bucket list aggregates both. */
  lemma AggregateIgnoresOrder(bs: seq<Bucket>, a: seq<Detail>, b: seq<Detail>)
    requires multiset(a) == multiset(b)
    ensures IsAggregateOf(bs, a) <==> IsAggregateOf(bs, b)
  {
    forall k ensures MonthCount(a, k) == MonthCount(b, k) && MonthTotal(a, k) == MonthTotal(b, k) {
      TallyPermutation(a, b, k);
    }
    assert MonthsOf(a) == MonthsOf(b);
  }

  /** The filter keeps every record of a whitelisted month and none of the others. */
  lemma {:induction false} FilterTallies(items: seq<Detail>, months: set<string>, k: string)
    requires FilterByMonths(items, months).Ok?
    ensures var kept := FilterByMonths(items, months).value;
      && MonthCount(kept, k) == (if k in months then MonthCount(items, k) else 0)
      && MonthTotal(kept, k) == (if k in months then MonthTotal(items, k) else 0)
  {
    if items != [] {
      var x := items[0];
      var rest := FilterByMonths(items[1..], months).value;
      FilterTallies(items[1..], months, k);
      assert items == [x] + items[1..];
      TallyConcat([x], items[1..], k);
      TallyConcat([x], rest, k);
      TallyAppend([], x);
      assert [] + [x] == [x];
    }
  }

  /**
   * The buckets built from a filtered detail list are the whitelisted months that occur
   * among the details, each with the count and total of ALL that month's records.
   */
  lemma FilteredAggregate(bs: seq<Bucket>, items: seq<Detail>, months: set<string>)
    requires FilterByMonths(items, months).Ok?
    requires IsAggregateOf(bs, FilterByMonths(items, months).value)
    ensures KeysOf(bs) == MonthsOf(items) * months
    ensures forall b :: b in bs ==> b.count == MonthCount(items, b.yearMonth) && b.totalAmount == MonthTotal(items, b.yearMonth)
  {
    forall k ensures var kept := FilterByMonths(items, months).value;
      && MonthCount(kept, k) == (if k in months then MonthCount(items, k) else 0)
      && MonthTotal(kept, k) == (if k in months then MonthTotal(items, k) else 0)
    {
      FilterTallies(items, months, k);
    }
  }
}
