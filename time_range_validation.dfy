/**
 * The FormBridge customisation of src/fb-index.js: in each row of the subtable the start
 * time must not be later than the end time, unless the row's next-day flag is checked.
 * A change of one of the three fields re-validates its row and sets or clears the error on
 * the row's two time cells; submission is stopped while any row is invalid.
 *
 * `formBridge.fn.getRecord()` becomes a record snapshot passed in, and the event contexts
 * become the objects whose state the handlers change.
 */
module TimeRangeValidation {
  import opened Wrappers
  import opened JsStrings

  /** Field codes of the subtable and of its three columns. */
  const TABLE_CODE := "テーブル"
  const START_TIME := "開始時刻"
  const END_TIME := "終了時刻"
  const NEXT_DAY_FLAG := "翌日フラグ"

  /** The message put on both time cells of an invalid row. */
  const INVALID_TIME_RANGE := "開始時刻は終了時刻より前に設定してください"

  // ---------------------------------------------------------------------------
  // parseTimeString

  /**
   * What `parseTimeString` returns, as the comparison `<=` sees it: `null`, an invalid
   * Date (time value NaN), or a Date on the fixed day 1900-01-01, counted in minutes from
   * its midnight.
   */
  datatype ParsedTime = NullTime | InvalidTime | TimeOfDay(minutes: int)

  /**
   * `parseTimeString`: the text before the first `:` sets the hours and the text after it
   * the minutes, both read by `parseInt`; the Date setters carry any overflow into the
   * next unit, so the result is `hours * 60 + minutes` minutes. A missing or unparsable
   * part leaves an invalid Date. Only an empty (or null) string gives `null`.
   */
  function ParseTimeString(timeString: Option<string>): (t: ParsedTime)
    ensures t.NullTime? <==> !Present(timeString)
    ensures t.InvalidTime? <==>
      (Present(timeString) &&
       var (hours, minutes) := FirstTwoFields(timeString.value, ':');
       minutes.None? || ParseInt(hours).None? || ParseInt(minutes.value).None?)
    ensures t.TimeOfDay? ==>
      (Present(timeString) &&
       var (hours, minutes) := FirstTwoFields(timeString.value, ':');
       && minutes.Some? && ParseInt(hours).Some? && ParseInt(minutes.value).Some?
       && t.minutes == ParseInt(hours).value * 60 + ParseInt(minutes.value).value)
  {
    if !Present(timeString) then NullTime else FieldsTime(FirstTwoFields(timeString.value, ':'))
  }

  /** `const [hours, minutes] = ...` and the Date setters: both fields must parse. */
  function FieldsTime(fields: (string, Option<string>)): ParsedTime {
    var (hours, minutes) := fields;
    if minutes.None? then InvalidTime
    else
      match (ParseInt(hours), ParseInt(minutes.value))
      case (Some(h), Some(m)) => TimeOfDay(h * 60 + m)
      case _ => InvalidTime
  }

  /** `startTime <= endTime` on two Dates: their time values compare, and NaN compares false. */
  predicate NotAfter(a: ParsedTime, b: ParsedTime) {
    a.TimeOfDay? && b.TimeOfDay? && a.minutes <= b.minutes
  }

  /**
   * A clock time written `H:M` in decimal digits is `H * 60 + M` minutes. The values `h` and
   * `m` are parameters pinned by `requires` because a goal with `DigitsValue(...) * 60` in it
   * is far more costly for the solver.
   */
  lemma ParseClockTime(hours: string, minutes: string, h: int, m: int)
    requires hours != [] && AllDigits(hours) && h == DigitsValue(hours)
    requires minutes != [] && AllDigits(minutes) && m == DigitsValue(minutes)
    ensures ParseTimeString(Some(hours + ":" + minutes)) == TimeOfDay(h * 60 + m)
  {
    ClockFields(hours, minutes);
    ParseIntOfDigits(hours);
    ParseIntOfDigits(minutes);
    ParseFields(hours + ":" + minutes, hours, minutes, h, m);
  }

  /** A time whose two fields parse to `h` and `m` is `h * 60 + m` minutes. */
  lemma ParseFields(s: string, hours: string, minutes: string, h: int, m: int)
    requires FirstTwoFields(s, ':') == (hours, Some(minutes))
    requires ParseInt(hours) == Some(h) && ParseInt(minutes) == Some(m)
    ensures ParseTimeString(Some(s)) == TimeOfDay(h * 60 + m)
  {
  }

  /** `"H:M".split(":")` gives the hours and the minutes. */
  lemma ClockFields(hours: string, minutes: string)
    requires AllDigits(hours) && AllDigits(minutes)
    ensures FirstTwoFields(hours + ":" + minutes, ':') == (hours, Some(minutes))
  {
    var s := hours + ":" + minutes;
    DigitsHaveNoColon(hours);
    DigitsHaveNoColon(minutes);
    assert s[..|hours|] == hours;
    IndexOfIs(s, ':', |hours|);
    assert s[|hours| + 1..] == minutes;
  }

  /** A digit is never the separator `:`. */
  lemma DigitsHaveNoColon(s: string)
    requires AllDigits(s)
    ensures ':' !in s
  {
  }

  /** The value of a two-digit string. */
  lemma TwoDigits(s: string)
    requires |s| == 2 && AllDigits(s)
    ensures DigitsValue(s) == DigitValue(s[0]) * 10 + DigitValue(s[1])
  {
    var first := s[..1];
    assert first[..0] == [];
    assert DigitsValue(first) == DigitValue(s[0]);
  }

  /** A non-empty time without a `:` has no minutes, so its Date is invalid. */
  lemma NoColonIsInvalid(s: string)
    requires s != "" && ':' !in s
    ensures ParseTimeString(Some(s)) == InvalidTime
  {
  }

  /**
   * Times the `HH:MM` input can still hold that are not clock times: letters in place of
   * the hours, no hours, and no minutes all leave an invalid Date, which no comparison
   * accepts.
   */
  lemma LettersAreInvalid()
    ensures ParseTimeString(Some("ab:00")) == InvalidTime
  {
    var s := "ab:00";
    IndexOfIs(s, ':', 2);
    assert FirstTwoFields(s, ':').0 == "ab";
    NoDigitNoNumber("ab");
  }

  lemma NoHoursIsInvalid()
    ensures ParseTimeString(Some(":30")) == InvalidTime
  {
    var s := ":30";
    IndexOfIs(s, ':', 0);
    assert FirstTwoFields(s, ':').0 == "";
    NoDigitNoNumber("");
  }

  lemma NoMinutesIsInvalid()
    ensures ParseTimeString(Some("9:")) == InvalidTime
  {
    var s := "9:";
    IndexOfIs(s, ':', 1);
    assert FirstTwoFields(s, ':').1 == Some("");
    NoDigitNoNumber("");
  }

  // ---------------------------------------------------------------------------
  // validateTimeRange

  /**
   * One subtable row: the stored values of its two time fields (None: null) and of its
   * next-day checkbox (the checked options; None: null).
   */
  datatype Row = Row(start: Option<string>, end: Option<string>, nextDay: Option<seq<string>>)

  /** The record snapshot, reduced to its subtable (None: the record has no such field). */
  datatype FormRecord = FormRecord(table: Option<seq<Row>>)

  /**
   * `changedFieldValues`: for each of the three fields, the value given for it, or None
   * when it is `undefined` there (a given `null` is Some(None)).
   */
  datatype Overrides = Overrides(
    start: Option<Option<string>>, end: Option<Option<string>>, nextDay: Option<Option<seq<string>>>)

  /** The default `changedFieldValues = {}`. */
  const NO_OVERRIDES := Overrides(None, None, None)

  /** A value that is not `undefined` in `changedFieldValues` wins over the stored one. */
  function Pick<T>(changed: Option<T>, stored: T): T {
    if changed.Some? then changed.value else stored
  }

  /** The three values `validateTimeRange` judges: each override that is given, else the stored value. */
  function EffectiveRow(row: Row, changed: Overrides): Row {
    Row(Pick(changed.start, row.start), Pick(changed.end, row.end), Pick(changed.nextDay, row.nextDay))
  }

  /** `nextDayFlag && nextDayFlag.length > 0`: at least one option is checked. */
  predicate FlagChecked(flag: Option<seq<string>>) {
    flag.Some? && |flag.value| > 0
  }

  /** Lines 71-88 of `validateTimeRange`, on the values it has settled on. */
  predicate RowIsValid(row: Row) {
    if !Present(row.start) || !Present(row.end) then true
    else
      var startTime := ParseTimeString(row.start);
      var endTime := ParseTimeString(row.end);
      if startTime.NullTime? || endTime.NullTime? then true
      else if FlagChecked(row.nextDay) then true
      else NotAfter(startTime, endTime)
  }

  /**
   * `validateTimeRange(rowIndex, changedFieldValues)`: a missing subtable or a missing row
   * is valid; otherwise the row's values, overridden where `changedFieldValues` has them,
   * decide.
   */
  predicate ValidateTimeRange(record: FormRecord, rowIndex: int, changed: Overrides) {
    if record.table.None? || !(0 <= rowIndex < |record.table.value|) then true
    else RowIsValid(EffectiveRow(record.table.value[rowIndex], changed))
  }

  /**
   * The rule in one line: a row is valid exactly when a time is empty, the next-day flag
   * is checked, or both times parse and the start is not later than the end.
   */
  lemma RowIsValidIff(row: Row)
    ensures RowIsValid(row) <==>
      || !Present(row.start) || !Present(row.end)
      || FlagChecked(row.nextDay)
      || NotAfter(ParseTimeString(row.start), ParseTimeString(row.end))
  {
  }

  /** An empty start or end makes the row valid whatever the flag and the other time. */
  lemma EmptyTimeIsValid(row: Row)
    requires !Present(row.start) || !Present(row.end)
    ensures RowIsValid(row)
    ensures forall flag :: RowIsValid(row.(nextDay := flag))
  {
  }

  /** A checked next-day flag makes any pair of times valid, even an unparsable one. */
  lemma CheckedFlagIsValid(row: Row)
    requires FlagChecked(row.nextDay)
    ensures RowIsValid(row)
  {
  }

  /**
   * With both times given and the flag unchecked, a time that does not parse makes the
   * row invalid: NaN fails the comparison.
   */
  lemma UnparsableIsInvalid(row: Row)
    requires Present(row.start) && Present(row.end) && !FlagChecked(row.nextDay)
    requires ParseTimeString(row.start).InvalidTime? || ParseTimeString(row.end).InvalidTime?
    ensures !RowIsValid(row)
  {
  }

  /** Two times that parse, flag unchecked: the row is valid exactly when the start is not later. */
  lemma ParsedTimesCompare(row: Row, startMinutes: int, endMinutes: int)
    requires Present(row.start) && Present(row.end) && !FlagChecked(row.nextDay)
    requires ParseTimeString(row.start) == TimeOfDay(startMinutes)
    requires ParseTimeString(row.end) == TimeOfDay(endMinutes)
    ensures RowIsValid(row) <==> startMinutes <= endMinutes
  {
  }

  /**
   * 09:00-17:00 is a valid row and 17:00-09:00 is not, unless the flag is checked. The
   * literals are parameters pinned by `requires`, which keeps the solver from unfolding
   * the string literals in every goal.
   */
  lemma OfficeHours(nine: string, seventeen: string, zero: string)
    requires nine == "09" && seventeen == "17" && zero == "00"
    ensures RowIsValid(Row(Some(nine + ":" + zero), Some(seventeen + ":" + zero), None))
    ensures !RowIsValid(Row(Some(seventeen + ":" + zero), Some(nine + ":" + zero), None))
    ensures RowIsValid(Row(Some(seventeen + ":" + zero), Some(nine + ":" + zero), Some([NEXT_DAY_FLAG])))
  {
    TwoDigits(nine);
    TwoDigits(seventeen);
    TwoDigits(zero);
    var morning, evening := nine + ":" + zero, seventeen + ":" + zero;
    assert morning[2] == ':' && evening[2] == ':';
    ParseClockTime(nine, zero, 9, 0);
    ParseClockTime(seventeen, zero, 17, 0);
    ParsedTimesCompare(Row(Some(morning), Some(evening), None), 540, 1020);
    ParsedTimesCompare(Row(Some(evening), Some(morning), None), 1020, 540);
  }

  /** A missing subtable or a row index outside it is valid, whatever the overrides. */
  lemma MissingRowIsValid(record: FormRecord, rowIndex: int, changed: Overrides)
    requires record.table.None? || rowIndex < 0 || rowIndex >= |record.table.value|
    ensures ValidateTimeRange(record, rowIndex, changed)
  {
  }

  /** The record with row `rowIndex` holding the values of `changed` where it gives them. */
  function Store(record: FormRecord, rowIndex: int, changed: Overrides): (r: FormRecord)
    ensures r.table.None? <==> record.table.None?
    ensures r.table.Some? ==> |r.table.value| == |record.table.value|
  {
    if record.table.None? || !(0 <= rowIndex < |record.table.value|) then record
    else
      var rows := record.table.value;
      FormRecord(Some(rows[rowIndex := EffectiveRow(rows[rowIndex], changed)]))
  }

  /**
   * Overrides are judged as if they were stored: validating with `changed` gives what
   * validating the record that holds those values gives without overrides.
   */
  lemma OverridesActAsStored(record: FormRecord, rowIndex: int, changed: Overrides)
    ensures ValidateTimeRange(record, rowIndex, changed) ==
      ValidateTimeRange(Store(record, rowIndex, changed), rowIndex, NO_OVERRIDES)
  {
    if record.table.Some? && 0 <= rowIndex < |record.table.value| {
      var row := record.table.value[rowIndex];
      assert EffectiveRow(EffectiveRow(row, changed), NO_OVERRIDES) == EffectiveRow(row, changed);
    }
  }

  // ---------------------------------------------------------------------------
  // setTimeValidationError

  /** A subtable cell: subtable field code, column field code and row index. */
  datatype Cell = Cell(table: string, field: string, row: int)

  /** The two cells of a row that carry the time-range error. */
  function StartCell(rowIndex: int): Cell { Cell(TABLE_CODE, START_TIME, rowIndex) }
  function EndCell(rowIndex: int): Cell { Cell(TABLE_CODE, END_TIME, rowIndex) }

  /** The host's error state after one `setSubtableFieldValueError`: a null message clears the cell. */
  function SetCellError(messages: map<Cell, string>, cell: Cell, message: Option<string>): (r: map<Cell, string>)
    ensures message.Some? ==> cell in r && r[cell] == message.value
    ensures message.None? ==> cell !in r
    ensures forall c :: c != cell ==> (c in r <==> c in messages) && (c in r ==> r[c] == messages[c])
  {
    if message.Some? then messages[cell := message.value] else messages - {cell}
  }

  /**
   * The error messages the host keeps for the cells of the form's subtables, as an event
   * context's `setSubtableFieldValueError` changes them.
   */
  class SubtableErrors {
    var messages: map<Cell, string>

    constructor ()
      ensures messages == map[]
    {
      messages := map[];
    }

    /** `setSubtableFieldValueError(table, field, row, message)`, with None for `null`. */
    method SetSubtableFieldValueError(table: string, field: string, row: int, message: Option<string>)
      modifies this
      ensures messages == SetCellError(old(messages), Cell(table, field, row), message)
    {
      messages := SetCellError(messages, Cell(table, field, row), message);
    }
  }

  /** The error state after `setTimeValidationError(rowIndex, hasError, context)` with a setter. */
  function RowErrors(messages: map<Cell, string>, rowIndex: int, hasError: bool): map<Cell, string> {
    var message := if hasError then Some(INVALID_TIME_RANGE) else None;
    SetCellError(SetCellError(messages, StartCell(rowIndex), message), EndCell(rowIndex), message)
  }

  /**
   * Exactly the start and end cells of the row change: both get the message when there is
   * an error and both are cleared when there is none; every other cell keeps its message.
   */
  lemma RowErrorsCells(messages: map<Cell, string>, rowIndex: int, hasError: bool, c: Cell)
    ensures var r := RowErrors(messages, rowIndex, hasError);
      if c == StartCell(rowIndex) || c == EndCell(rowIndex) then
        (hasError ==> c in r && r[c] == INVALID_TIME_RANGE) && (!hasError ==> c !in r)
      else
        (c in r <==> c in messages) && (c in r ==> r[c] == messages[c])
  {
    assert StartCell(rowIndex) != EndCell(rowIndex) by {
      assert START_TIME[0] != END_TIME[0];
    }
  }

  /** Only the latest verdict on a row shows: setting its errors again overwrites the earlier ones. */
  lemma RowErrorsLastWins(messages: map<Cell, string>, rowIndex: int, first: bool, second: bool)
    ensures RowErrors(RowErrors(messages, rowIndex, first), rowIndex, second) == RowErrors(messages, rowIndex, second)
  {
    var a := RowErrors(RowErrors(messages, rowIndex, first), rowIndex, second);
    var b := RowErrors(messages, rowIndex, second);
    forall c
      ensures (c in a <==> c in b) && (c in a ==> a[c] == b[c])
    {
      RowErrorsCells(RowErrors(messages, rowIndex, first), rowIndex, second, c);
      RowErrorsCells(messages, rowIndex, second, c);
      RowErrorsCells(messages, rowIndex, first, c);
    }
  }

  /**
   * `setTimeValidationError(rowIndex, hasError, context)`; a `context` without the setter
   * is null here, and then nothing changes.
   */
  method SetTimeValidationError(rowIndex: int, hasError: bool, context: SubtableErrors?)
    modifies context
    ensures context != null ==> context.messages == RowErrors(old(context.messages), rowIndex, hasError)
  {
    if hasError {
      if context != null {
        context.SetSubtableFieldValueError(TABLE_CODE, START_TIME, rowIndex, Some(INVALID_TIME_RANGE));
        context.SetSubtableFieldValueError(TABLE_CODE, END_TIME, rowIndex, Some(INVALID_TIME_RANGE));
      }
    } else {
      if context != null {
        context.SetSubtableFieldValueError(TABLE_CODE, START_TIME, rowIndex, None);
        context.SetSubtableFieldValueError(TABLE_CODE, END_TIME, rowIndex, None);
      }
    }
  }

  // ---------------------------------------------------------------------------
  // validateAllTimeRanges

  /** Every row of the subtable validates with its stored values; true without a subtable. */
  predicate AllTimeRangesValid(record: FormRecord) {
    record.table.None? ||
    forall i :: 0 <= i < |record.table.value| ==> ValidateTimeRange(record, i, NO_OVERRIDES)
  }

  /** `validateAllTimeRanges`: the loop clears `allValid` at the first invalid row and keeps going. */
  method ValidateAllTimeRanges(record: FormRecord) returns (allValid: bool)
    ensures allValid == AllTimeRangesValid(record)
  {
    if record.table.None? {
      return true;
    }
    var rows := record.table.value;
    allValid := true;
    for i := 0 to |rows|
      invariant allValid <==> forall j :: 0 <= j < i ==> ValidateTimeRange(record, j, NO_OVERRIDES)
    {
      var isValid := ValidateTimeRange(record, i, NO_OVERRIDES);
      if !isValid {
        allValid := false;
      }
    }
  }

  /** The conjunction over the rows is the rule applied to each stored row. */
  lemma AllValidIffEveryRow(record: FormRecord)
    ensures AllTimeRangesValid(record) <==>
      record.table.None? || forall row :: row in record.table.value ==> RowIsValid(row)
  {
    if record.table.Some? {
      var rows := record.table.value;
      forall i | 0 <= i < |rows|
        ensures ValidateTimeRange(record, i, NO_OVERRIDES) == RowIsValid(rows[i])
      {
        assert EffectiveRow(rows[i], NO_OVERRIDES) == rows[i];
      }
      if forall i :: 0 <= i < |rows| ==> ValidateTimeRange(record, i, NO_OVERRIDES) {
        forall row | row in rows
          ensures RowIsValid(row)
        {
          var i :| 0 <= i < |rows| && rows[i] == row;
        }
      }
    }
  }

  // ---------------------------------------------------------------------------
  // createTimeFieldChangeHandler

  /** A change event of one of the three columns, with its new value (None: null). */
  datatype FieldChange =
    | StartTimeChange(time: Option<string>)
    | EndTimeChange(time: Option<string>)
    | NextDayFlagChange(flag: Option<seq<string>>)

  /** `{ [fieldCode]: newValue }`: the changed field is overridden and the other two are not. */
  function ChangedFieldValues(change: FieldChange): Overrides {
    match change
    case StartTimeChange(v) => Overrides(Some(v), None, None)
    case EndTimeChange(v) => Overrides(None, Some(v), None)
    case NextDayFlagChange(f) => Overrides(None, None, Some(f))
  }

  /** The record once the change is stored in row `rowIndex` (unchanged when there is no such row). */
  function ApplyChange(record: FormRecord, rowIndex: int, change: FieldChange): FormRecord {
    Store(record, rowIndex, ChangedFieldValues(change))
  }

  /**
   * The change handler judges the row as it will be once the new value is stored: the
   * changed field has its new value and the other two their stored ones.
   */
  lemma ChangeJudgedAsStored(record: FormRecord, rowIndex: int, change: FieldChange)
    ensures ValidateTimeRange(record, rowIndex, ChangedFieldValues(change)) ==
      ValidateTimeRange(ApplyChange(record, rowIndex, change), rowIndex, NO_OVERRIDES)
    ensures record.table.Some? && 0 <= rowIndex < |record.table.value| ==>
      var row := record.table.value[rowIndex];
      ApplyChange(record, rowIndex, change).table.value[rowIndex] ==
        match change
        case StartTimeChange(v) => row.(start := v)
        case EndTimeChange(v) => row.(end := v)
        case NextDayFlagChange(f) => row.(nextDay := f)
  {
    OverridesActAsStored(record, rowIndex, ChangedFieldValues(change));
  }

  /**
   * The handler `createTimeFieldChangeHandler(fieldCode)` returns, run on a change of
   * `fieldCode` in row `rowIndex`: validate that row with the new value and set or clear
   * the row's errors through the event context (null when it has no setter).
   */
  method HandleTimeFieldChange(record: FormRecord, rowIndex: int, change: FieldChange, context: SubtableErrors?)
    modifies context
    ensures context != null ==>
      context.messages == RowErrors(old(context.messages), rowIndex, !ValidateTimeRange(record, rowIndex, ChangedFieldValues(change)))
  {
    var changedFieldValues := ChangedFieldValues(change);
    var isValid := ValidateTimeRange(record, rowIndex, changedFieldValues);
    SetTimeValidationError(rowIndex, !isValid, context);
  }

  // ---------------------------------------------------------------------------
  // form.submit

  /** The submit event's context: whether `preventDefault` has been called on it. */
  class SubmitEvent {
    var defaultPrevented: bool

    constructor ()
      ensures !defaultPrevented
    {
      defaultPrevented := false;
    }

    /** `context.preventDefault()`: the submission will not go through. */
    method PreventDefault()
      modifies this
      ensures defaultPrevented
    {
      defaultPrevented := true;
    }
  }

  /** A record blocks submission exactly when it has a subtable with an invalid stored row. */
  lemma SubmitBlockedIff(record: FormRecord)
    ensures !AllTimeRangesValid(record) <==>
      record.table.Some? && exists i :: 0 <= i < |record.table.value| && !RowIsValid(record.table.value[i])
  {
    AllValidIffEveryRow(record);
    if record.table.Some? {
      var rows := record.table.value;
      if exists row :: row in rows && !RowIsValid(row) {
        var row :| row in rows && !RowIsValid(row);
        var i :| 0 <= i < |rows| && rows[i] == row;
      }
    }
  }

  /**
   * The `form.submit` handler: validate every row and stop the submission when one is
   * invalid; `cancelled` says whether this handler stopped it.
   */
  method OnSubmit(record: FormRecord, context: SubmitEvent) returns (cancelled: bool)
    modifies context
    ensures cancelled <==> !AllTimeRangesValid(record)
    ensures context.defaultPrevented == (old(context.defaultPrevented) || cancelled)
  {
    var allValid := ValidateAllTimeRanges(record);
    cancelled := !allValid;
    if !allValid {
      context.PreventDefault();
    }
  }
}
