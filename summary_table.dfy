/** `createTableHTML` and `formatAmount` (src/kv-index.js): the markup of the summary table. */
module SummaryTable {
  import opened Wrappers
  import opened JsStrings
  import opened MonthlyAggregation

  /** What an empty or non-array bucket list renders instead of a table. */
  const PLACEHOLDER := "<div class=\"error\">表示するデータがありません</div>"

  /** The column headings: month, count, total amount. */
  const HEADERS := ["年月", "件数", "合計金額"]

  /** `headers.map((header) => `<th>${header}</th>`).join("")` */
  function HeaderCells(headers: seq<string>): string {
    if headers == [] then "" else "<th>" + headers[0] + "</th>" + HeaderCells(headers[1..])
  }

  /** Each heading gets its own `<th>` cell, in the order of the headings. */
  lemma {:induction false} HeaderCellsInOrder(headers: seq<string>, j: nat)
    requires j < |headers|
    ensures HeaderCells(headers) ==
      HeaderCells(headers[..j]) + "<th>" + headers[j] + "</th>" + HeaderCells(headers[j + 1..])
    decreases j
  {
    if j > 0 {
      var rest := headers[1..];
      HeaderCellsInOrder(rest, j - 1);
      assert rest[..j - 1] == headers[..j][1..];
      assert rest[j - 1] == headers[j] && rest[j..] == headers[j + 1..];
    }
  }

  /** A run of `n` spaces: the indentation of the template literal the markup comes from. */
  function Spaces(n: nat): string
  {
    seq(n, _ => ' ')
  }

  /** The opening of the table, up to the first header cell. */
  const TABLE_OPEN: string :=
    "\n" + Spaces(10) + "<table>\n" + Spaces(14) + "<thead>\n" + Spaces(18) + "<tr>\n" + Spaces(22)

  /** The opening of the table, up to and including `<tbody>`, with the header row. */
  const TABLE_HEAD: string :=
    TABLE_OPEN + HeaderCells(HEADERS)
    + "\n" + Spaces(18) + "</tr>\n" + Spaces(14) + "</thead>\n" + Spaces(14) + "<tbody>\n" + Spaces(6)

  /** The closing of the table after its last row. */
  const TABLE_TAIL: string := "\n" + Spaces(14) + "</tbody>\n" + Spaces(10) + "</table>\n" + Spaces(6)

  // ---------------------------------------------------------------------------
  // formatAmount: `toLocaleString("ja-JP")` of a whole number

  /** A digit string with `,` between groups of three digits, counted from the right. */
  function Group(digits: string): (r: string)
    decreases |digits|
  {
    if |digits| <= 3 then digits else Group(digits[..|digits| - 3]) + "," + digits[|digits| - 3..]
  }

  /** A whole amount as the ja-JP locale writes it: a minus sign and comma-grouped digits. */
  function FormatAmount(amount: int): string {
    if amount < 0 then "-" + Group(NatToString(-amount)) else Group(NatToString(amount))
  }

  /** The string with every `,` taken out. */
  function WithoutCommas(s: string): (r: string)
    ensures ',' !in r
  {
    if s == [] then [] else WithoutCommas(s[..|s| - 1]) + if s[|s| - 1] == ',' then [] else [s[|s| - 1]]
  }

  lemma {:induction false} WithoutCommasConcat(a: string, b: string)
    ensures WithoutCommas(a + b) == WithoutCommas(a) + WithoutCommas(b)
    decreases |b|
  {
    if b == [] {
      assert a + b == a;
    } else {
      var n := |b| - 1;
      assert (a + b)[..|a + b| - 1] == a + b[..n];
      WithoutCommasConcat(a, b[..n]);
    }
  }

  lemma {:induction false} WithoutCommasNone(s: string)
    requires ',' !in s
    ensures WithoutCommas(s) == s
  {
    if s != [] {
      var n := |s| - 1;
      assert ',' !in s[..n] by { assert forall c :: c in s[..n] ==> c in s; }
      WithoutCommasNone(s[..n]);
      assert s == s[..n] + [s[n]];
    }
  }

  lemma AllDigitsNoComma(digits: string)
    requires AllDigits(digits)
    ensures ',' !in digits
  {
    forall i | 0 <= i < |digits| ensures digits[i] != ',' { assert IsDigit(digits[i]); }
  }

  lemma UngroupStep(grouped: string, tail: string)
    requires ',' !in tail
    ensures WithoutCommas(grouped + "," + tail) == WithoutCommas(grouped) + tail
  {
    var comma := ",";
    var withComma := grouped + comma;
    WithoutCommasConcat(withComma, tail);
    WithoutCommasConcat(grouped, comma);
    WithoutCommasNone(tail);
    WithoutCommaAlone();
  }

  lemma WithoutCommaAlone()
    ensures WithoutCommas(",") == []
  {
    assert ","[..0] == [];
  }

  /** Grouping only inserts separators: taking them out gives the digits back. */
  lemma {:induction false} UngroupGroup(digits: string)
    requires AllDigits(digits)
    ensures WithoutCommas(Group(digits)) == digits
    decreases |digits|
  {
    AllDigitsNoComma(digits);
    if |digits| <= 3 {
      WithoutCommasNone(digits);
    } else {
      var n := |digits| - 3;
      var head, tail := digits[..n], digits[n..];
      assert AllDigits(head) && AllDigits(tail);
      AllDigitsNoComma(tail);
      UngroupGroup(head);
      UngroupStep(Group(head), tail);
      assert digits == head + tail;
    }
  }

  /** A formatted amount reads back as the amount once its separators are removed. */
  lemma FormatAmountReadsBack(amount: int)
    ensures ParseInt(WithoutCommas(FormatAmount(amount))) == Some(amount)
  {
    var magnitude: nat := if amount < 0 then -amount else amount;
    var digits := NatToString(magnitude);
    UngroupGroup(digits);
    if amount >= 0 {
      ParseIntOfDigits(digits);
    } else {
      ParseIntOfNegatedDigits(digits);
      var minus := "-";
      WithoutCommasConcat(minus, Group(digits));
      MinusKept();
      assert WithoutCommas(FormatAmount(amount)) == minus + digits;
    }
  }

  lemma MinusKept()
    ensures WithoutCommas("-") == "-"
  {
    assert "-"[..0] == [];
  }

  // ---------------------------------------------------------------------------
  // createTableHTML

  /** The body row of one bucket: its month, its count and `¥` with its formatted amount. */
  function RowMarkup(b: Bucket): string {
    "\n" + Spaces(14) + "<tr>\n" + Spaces(18) + "<td>" + b.yearMonth
    + "</td>\n" + Spaces(18) + "<td class=\"count\">" + NatToString(b.count)
    + "</td>\n" + Spaces(18) + "<td class=\"amount\">¥" + FormatAmount(b.totalAmount)
    + "</td>\n" + Spaces(14) + "</tr>\n" + Spaces(10)
  }

  /**
   * The rows `row` renders for the buckets, one after another in their order. (The row
   * renderer is a parameter so that proofs about the sequence of rows do not unfold the
   * markup of one row.)
   */
  function RowsMarkupBy(row: Bucket -> string, bs: seq<Bucket>): string {
    if bs == [] then "" else RowsMarkupBy(row, bs[..|bs| - 1]) + row(bs[|bs| - 1])
  }

  /** The body rows of the buckets. */
  function RowsMarkup(bs: seq<Bucket>): string {
    RowsMarkupBy(RowMarkup, bs)
  }

  /** What `createTableHTML(aggregatedData)` returns. */
  function TableMarkup(data: Listing<Bucket>): string {
    if data.NotAList? || data.elems == [] then PLACEHOLDER
    else TABLE_HEAD + RowsMarkup(data.elems) + TABLE_TAIL
  }

  /**
   * `createTableHTML(aggregatedData)`: the placeholder for an empty or non-array list;
   * otherwise the table opening, then one row appended per bucket, then the closing.
   */
  method CreateTableHtml(data: Listing<Bucket>) returns (html: string)
    ensures html == TableMarkup(data)
  {
    if data.NotAList? || |data.elems| == 0 {
      return PLACEHOLDER;
    }
    html := AppendRows(TABLE_HEAD, RowMarkup, data.elems);
    html := html + TABLE_TAIL;
  }

  /** The loop of `createTableHTML`: one rendered row appended per bucket, in order. */
  method AppendRows(head: string, row: Bucket -> string, buckets: seq<Bucket>) returns (html: string)
    ensures html == head + RowsMarkupBy(row, buckets)
  {
    html := head;
    assert RowsMarkupBy(row, buckets[..0]) == [];
    for i := 0 to |buckets|
      invariant html == head + RowsMarkupBy(row, buckets[..i])
    {
      assert buckets[..i + 1][..i] == buckets[..i];
      html := html + row(buckets[i]);
    }
    assert buckets[..|buckets|] == buckets;
  }

  lemma {:induction false} RowsMarkupConcat(row: Bucket -> string, a: seq<Bucket>, b: seq<Bucket>)
    ensures RowsMarkupBy(row, a + b) == RowsMarkupBy(row, a) + RowsMarkupBy(row, b)
    decreases |b|
  {
    if b == [] {
      assert a + b == a;
    } else {
      var n := |b| - 1;
      assert (a + b)[..|a + b| - 1] == a + b[..n];
      RowsMarkupConcat(row, a, b[..n]);
    }
  }

  /**
   * Every bucket's row sits after the rows of the buckets before it and before the rows
   * of the buckets after it, whatever renders a single row.
   */
  lemma RowsInOrder(row: Bucket -> string, bs: seq<Bucket>, j: nat)
    requires j < |bs|
    ensures RowsMarkupBy(row, bs) == RowsMarkupBy(row, bs[..j]) + row(bs[j]) + RowsMarkupBy(row, bs[j + 1..])
  {
    RowsSplit(row, bs, j + 1);
    assert bs[..j + 1][..j] == bs[..j];
  }

  lemma RowsSplit(row: Bucket -> string, bs: seq<Bucket>, n: nat)
    requires n <= |bs|
    ensures RowsMarkupBy(row, bs) == RowsMarkupBy(row, bs[..n]) + RowsMarkupBy(row, bs[n..])
  {
    RowsMarkupConcat(row, bs[..n], bs[n..]);
    assert bs[..n] + bs[n..] == bs;
  }

  /** The placeholder appears exactly when there is nothing to show. */
  lemma PlaceholderMeansEmpty(data: Listing<Bucket>)
    ensures TableMarkup(data) == PLACEHOLDER <==> data.NotAList? || data.elems == []
  {
    if data.Items? && data.elems != [] {
      assert TABLE_OPEN[0] == '\n' && PLACEHOLDER[0] == '<';
      assert TABLE_HEAD[0] == '\n';
      FirstCharDiffers(TABLE_HEAD, RowsMarkup(data.elems), TABLE_TAIL, PLACEHOLDER);
    }
  }

  lemma FirstCharDiffers(head: string, rows: string, tail: string, other: string)
    requires head != [] && other != [] && head[0] != other[0]
    ensures head + rows + tail != other
  {
    assert (head + rows + tail)[0] == head[0];
  }
}
