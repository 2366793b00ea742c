/**
 * Year-month keys of the monthly summary: `parseYearMonth` (src/kv-index.js) and the
 * `replace("/", "-")` normalisation applied to every month value read from a record.
 */
module MonthKeys {
  import opened Wrappers
  import opened JsStrings

  /**
   * What `parseYearMonth` returns: `null` (NoDate), a Date whose time value is NaN
   * (InvalidDate, when `parseInt` of a part is NaN), or the first day of a month,
   * identified by its month index `year * 12 + month0` after the Date constructor's
   * year and month normalisation.
   */
  datatype DateValue = NoDate | InvalidDate | MonthStart(monthIndex: int)

  /** The Date constructor reads a year from 0 to 99 as 1900 + year. */
  function FullYear(year: int): int
  {
    if 0 <= year <= 99 then 1900 + year else year
  }

  /**
   * `new Date(y, m, 1)` rolls a month outside 0..11 into the year, so the month it
   * denotes is `FullYear(y) * 12 + m`.
   */
  function MonthIndex(year: int, month0: int): int {
    FullYear(year) * 12 + month0
  }

  /**
   * `parseYearMonth(yearMonth)`: null for an empty string or when the year or month
   * field of `yearMonth.split("-")` is missing or empty; otherwise the Date of the
   * first day of that month.
   */
  function ParseYearMonth(yearMonth: string): (d: DateValue)
    ensures d == NoDate <==>
      var (year, month) := FirstTwoFields(yearMonth, '-');
      yearMonth == "" || year == "" || month.None? || month.value == ""
    ensures d == InvalidDate <==>
      d != NoDate && var (year, month) := FirstTwoFields(yearMonth, '-');
      (ParseInt(year).None? || ParseInt(month.value).None?)
  {
    if yearMonth == "" then NoDate
    else
      var (year, month) := FirstTwoFields(yearMonth, '-');
      if year == "" || month.None? || month.value == "" then NoDate
      else
        match (ParseInt(year), ParseInt(month.value))
        case (Some(y), Some(m)) => MonthStart(MonthIndex(y, m - 1))
        case _ => InvalidDate
  }

  /** The first `/` of a month value becomes `-` (`value.replace("/", "-")`). */
  function NormaliseMonth(value: string): (key: string)
    ensures |key| == |value|
    ensures '/' in value ==>
      var i := IndexOf(value, '/').value;
      key == value[..i] + "-" + value[i + 1..]
    ensures '/' !in value ==> key == value
  {
    ReplaceFirst(value, '/', '-')
  }

  /**
   * A value with a `/` but no `-` is never the normalised form of anything: a value with a
   * slash gets a `-` in place of it, and a value without one stays slash-free.
   */
  lemma SlashFormIsNeverNormalised(value: string, t: string)
    requires '/' in t && '-' !in t
    ensures NormaliseMonth(value) != t
  {
    var key := NormaliseMonth(value);
    if '/' in value {
      var i := IndexOf(value, '/').value;
      assert key[i] == '-';
    } else {
      assert key == value;
    }
  }

  /** A four-digit year, `-`, a two-digit month from 01 to 12. */
  predicate WellFormed(key: string) {
    && |key| == 7 && AllDigits(key[..4]) && key[4] == '-' && AllDigits(key[5..])
    && 1 <= DigitsValue(key[5..]) <= 12
  }

  function YearOf(key: string): nat
    requires WellFormed(key)
  {
    DigitsValue(key[..4])
  }

  function MonthOf(key: string): nat
    requires WellFormed(key)
  {
    DigitsValue(key[5..])
  }

  /** A well-formed key splits at index 4 into its year and month digits. */
  lemma SplitWellFormed(key: string)
    requires WellFormed(key)
    ensures FirstTwoFields(key, '-') == (key[..4], Some(key[5..]))
  {
    assert forall j :: 0 <= j < 4 ==> IsDigit(key[..4][j]);
    IndexOfIs(key, '-', 4);
    var rest := key[5..];
    assert forall j :: 0 <= j < |rest| ==> IsDigit(rest[j]);
    assert '-' !in rest;
  }

  /** A well-formed key parses to the first day of its month. */
  lemma ParseWellFormed(key: string)
    requires WellFormed(key)
    ensures ParseYearMonth(key) == MonthStart(FullYear(YearOf(key)) * 12 + MonthOf(key) - 1)
  {
    SplitWellFormed(key);
    ParseIntOfDigits(key[..4]);
    ParseIntOfDigits(key[5..]);
  }

  /**
   * Between two well-formed keys whose years are past 99, the parsed dates compare as
   * (year, month) pairs do: the chronological order the summary table is meant to follow.
   */
  lemma ChronologicalOrder(a: string, b: string)
    requires WellFormed(a) && WellFormed(b) && YearOf(a) >= 100 && YearOf(b) >= 100
    ensures ParseYearMonth(a).MonthStart? && ParseYearMonth(b).MonthStart?
    ensures ParseYearMonth(a).monthIndex <= ParseYearMonth(b).monthIndex <==>
      YearOf(a) < YearOf(b) || (YearOf(a) == YearOf(b) && MonthOf(a) <= MonthOf(b))
    ensures ParseYearMonth(a).monthIndex == ParseYearMonth(b).monthIndex <==> a == b
  {
    ParseWellFormed(a);
    ParseWellFormed(b);
    var ya, ma, yb, mb := YearOf(a), MonthOf(a), YearOf(b), MonthOf(b);
    assert ParseYearMonth(a).monthIndex == ya * 12 + ma - 1;
    assert ParseYearMonth(b).monthIndex == yb * 12 + mb - 1;
    LexicographicMonths(ya, ma, yb, mb);
    if ya == yb && ma == mb {
      SameFieldsSameKey(a, b);
    }
  }

  /**
   * The Date constructor's two-digit-year rule: a key whose year is written `00YY` names
   * the same month as the key written `19YY`, so two different keys collide.
   */
  lemma TwoDigitYearAlias(a: string, b: string)
    requires WellFormed(a) && WellFormed(b) && YearOf(a) <= 99 && YearOf(b) == 1900 + YearOf(a)
    requires MonthOf(a) == MonthOf(b)
    ensures a != b
    ensures ParseYearMonth(a) == ParseYearMonth(b)
    ensures ParseYearMonth(a).MonthStart?
  {
    ParseWellFormed(a);
    ParseWellFormed(b);
  }

  lemma SameFieldsSameKey(a: string, b: string)
    requires WellFormed(a) && WellFormed(b) && YearOf(a) == YearOf(b) && MonthOf(a) == MonthOf(b)
    ensures a == b
  {
    DigitsValueInjective(a[..4], b[..4]);
    DigitsValueInjective(a[5..], b[5..]);
    assert a == a[..4] + "-" + a[5..];
    assert b == b[..4] + "-" + b[5..];
  }

  /** A month index `year * 12 + month - 1` orders (year, month) pairs lexicographically. */
  lemma LexicographicMonths(ya: int, ma: int, yb: int, mb: int)
    requires 1 <= ma <= 12 && 1 <= mb <= 12
    ensures ya * 12 + ma - 1 <= yb * 12 + mb - 1 <==> ya < yb || (ya == yb && ma <= mb)
    ensures ya * 12 + ma - 1 == yb * 12 + mb - 1 <==> ya == yb && ma == mb
  {
  }

  /** Two digit strings of one length with the same value are equal. */
  lemma {:induction false} DigitsValueInjective(s: string, t: string)
    requires AllDigits(s) && AllDigits(t) && |s| == |t|
    requires DigitsValue(s) == DigitsValue(t)
    ensures s == t
  {
    if s != [] {
      var n := |s| - 1;
      assert DigitValue(s[n]) == DigitValue(t[n]);
      assert DigitsValue(s[..n]) == DigitsValue(t[..n]);
      DigitsValueInjective(s[..n], t[..n]);
      assert s == s[..n] + [s[n]] && t == t[..n] + [t[n]];
    }
  }

  /** A key with no `-` has no month field, so `parseYearMonth` returns null. */
  lemma NoSeparatorNoDate(key: string)
    requires '-' !in key
    ensures ParseYearMonth(key) == NoDate
  {
  }

  /**
   * The kintone `YYYY/MM` spelling normalises to the `YYYY-MM` key: the first `/`
   * becomes `-` and any later `/` stays as it was.
   */
  lemma NormaliseAtFirstSlash(head: string, tail: string)
    requires '/' !in head
    ensures NormaliseMonth(head + "/" + tail) == head + "-" + tail
  {
    var v := head + "/" + tail;
    assert v[..|head|] == head && v[|head| + 1..] == tail;
    IndexOfIs(v, '/', |head|);
  }
}
