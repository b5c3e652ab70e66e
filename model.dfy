/**
 * The PrettyTable state (`this.table`: columnNames, rows, maxWidth) as a value,
 * the errors its operations throw, and one pure transition per operation. A
 * transition returns the new state together with the error thrown, if any;
 * the failed call's state is still returned because `create`, `csv` and `json`
 * keep the rows they added before a failure.
 */
module Model {
  import opened Wrappers
  import opened Cells
  import Sorting

  datatype Table = Table(columnNames: seq<string>, rows: seq<Row>, maxWidth: seq<nat>)

  /** A freshly constructed table, and the state `deleteTable` restores. */
  const Empty: Table := Table([], [], [])

  datatype Error =
    | EmptyColumnNames
    | NullColumnName(index: nat)
    | NoColumns
    | RowLengthMismatch(rowLength: nat, columnCount: nat)
    | RowFailed(index: nat, cause: Error)
    | EmptyColumnName
    | ColumnNotFound(name: string)
    | RowNumberNotPositive
    | RowNumberOutOfRange(rowNumber: int, rowCount: nat)
    | ClearWithoutColumns
    | HtmlWithoutColumns
    | CsvNoData
    | CsvHeaderFailed(cause: Error)
    | CsvRowFailed(line: nat, cause: Error)
    | JsonEmptyArray
    | JsonNoProperties(index: nat)
    | JsonHeaderFailed(cause: Error)
    | JsonRowFailed(index: nat, cause: Error)

  /** The errors thrown as `TypeError` rather than `Error`. */
  predicate IsTypeError(e: Error)
  {
    e.NullColumnName? || e.EmptyColumnName?
  }

  /** The message each error carries. */
  function Message(e: Error): string
  {
    match e
    case EmptyColumnNames => "Column names array cannot be empty"
    case NullColumnName(i) => "Column name at index " + IntToString(i) + " is null or undefined"
    case NoColumns => "No columns defined. Call fieldNames() before adding rows"
    case RowLengthMismatch(r, c) =>
      "Row length (" + IntToString(r) + ") does not match number of columns (" + IntToString(c) + ")"
    case RowFailed(i, cause) => "Error adding row at index " + IntToString(i) + ": " + Message(cause)
    case EmptyColumnName => "Column name must be a non-empty string"
    case ColumnNotFound(name) => "Column \"" + name + "\" not found in table"
    case RowNumberNotPositive => "Row number must be greater than 0"
    case RowNumberOutOfRange(n, c) =>
      "Row number " + IntToString(n) + " out of range, table has " + IntToString(c) + " rows"
    case ClearWithoutColumns => "Cannot clear table with no columns defined"
    case HtmlWithoutColumns => "Cannot generate HTML for a table with no columns"
    case CsvNoData => "CSV file contains no data"
    case CsvHeaderFailed(cause) => "Failed to set column names from CSV: " + Message(cause)
    case CsvRowFailed(l, cause) =>
      "Failed to add row from CSV at line " + IntToString(l) + ": " + Message(cause)
    case JsonEmptyArray => "JSON file contains an empty array"
    case JsonNoProperties(i) => "Object at index " + IntToString(i) + " has no properties"
    case JsonHeaderFailed(cause) => "Failed to set column names from JSON: " + Message(cause)
    case JsonRowFailed(i, cause) =>
      "Failed to add row from JSON at index " + IntToString(i) + ": " + Message(cause)
  }

  /** The state after an operation, and the error it threw (None when it returned normally). */
  datatype Step = Step(table: Table, error: Option<Error>)

  // ---------------------------------------------------------------- fieldNames

  /** The index of the first null or undefined name, or |names| when there is none. */
  function FirstNull(names: seq<Option<string>>): (k: nat)
    ensures k <= |names|
    ensures k < |names| ==> names[k].None?
    ensures forall j :: 0 <= j < k ==> names[j].Some?
  {
    if names == [] then 0
    else if names[0].None? then 0
    else 1 + FirstNull(names[1..])
  }

  function Present(names: seq<Option<string>>): (cols: seq<string>)
    requires forall j :: 0 <= j < |names| ==> names[j].Some?
    ensures |cols| == |names| && forall j :: 0 <= j < |names| ==> names[j] == Some(cols[j])
  {
    seq(|names|, j requires 0 <= j < |names| => names[j].value)
  }

  /** Wraps every string of a parsed record as a present name. */
  function Named(record: seq<string>): (names: seq<Option<string>>)
    ensures |names| == |record| && forall j :: 0 <= j < |record| ==> names[j] == Some(record[j])
  {
    seq(|record|, j requires 0 <= j < |record| => Some(record[j]))
  }

  function Lengths(cols: seq<string>): (ws: seq<nat>)
    ensures |ws| == |cols| && forall j :: 0 <= j < |cols| ==> ws[j] == |cols[j]|
  {
    seq(|cols|, j requires 0 <= j < |cols| => |cols[j]|)
  }

  /**
   * `fieldNames`: rejects an empty list or a null/undefined name (the first
   * one's index), else sets the columns and APPENDS each name's length to
   * `maxWidth`.
   */
  function FieldNames(t: Table, names: seq<Option<string>>): Step
  {
    if |names| == 0 then Step(t, Some(EmptyColumnNames))
    else if FirstNull(names) < |names| then Step(t, Some(NullColumnName(FirstNull(names))))
    else
      var cols := Present(names);
      Step(t.(columnNames := cols, maxWidth := t.maxWidth + Lengths(cols)), None)
  }

  // ---------------------------------------------------------------- addRow

  function NormalizeRow(row: seq<Option<Cell>>): (r: Row)
    ensures |r| == |row| && forall i :: 0 <= i < |row| ==> r[i] == Normalize(row[i])
  {
    seq(|row|, i requires 0 <= i < |row| => Normalize(row[i]))
  }

  /** `maxWidth` after the loop of `addRow` raised each entry to the width of the row's cell. */
  function Raise(w: seq<nat>, r: Row): (w': seq<nat>)
  {
    seq(|w|, i requires 0 <= i < |w| => if i < |r| && Width(r[i]) > w[i] then Width(r[i]) else w[i])
  }

  /**
   * `addRow`: rejects a table with no columns, then a row of the wrong length;
   * else appends the normalised row and raises the widths.
   */
  function AddRow(t: Table, row: seq<Option<Cell>>): Step
  {
    if |t.columnNames| == 0 then Step(t, Some(NoColumns))
    else if |row| != |t.columnNames| then Step(t, Some(RowLengthMismatch(|row|, |t.columnNames|)))
    else
      var r := NormalizeRow(row);
      Step(t.(rows := t.rows + [r], maxWidth := Raise(t.maxWidth, r)), None)
  }

  /** The state after adding `rows` one by one, and the index (counted from `start`) and cause of the first failure. */
  datatype Batch = Batch(table: Table, failure: Option<(nat, Error)>)

  function AddRows(t: Table, rows: seq<seq<Option<Cell>>>, start: nat): Batch
    decreases |rows|
  {
    if rows == [] then Batch(t, None)
    else
      var s := AddRow(t, rows[0]);
      if s.error.Some? then Batch(s.table, Some((start, s.error.value)))
      else AddRows(s.table, rows[1..], start + 1)
  }

  // ---------------------------------------------------------------- create

  /** `create`: `fieldNames`, then `addRow` per row; a row failure names its index and keeps earlier rows. */
  function Create(t: Table, headers: seq<Option<string>>, rows: seq<seq<Option<Cell>>>): Step
  {
    var h := FieldNames(t, headers);
    if h.error.Some? then h
    else
      var b := AddRows(h.table, rows, 0);
      Step(b.table, if b.failure.Some? then Some(RowFailed(b.failure.value.0, b.failure.value.1)) else None)
  }

  // ---------------------------------------------------------------- csv, json

  function TextCells(record: seq<string>): (row: seq<Option<Cell>>)
    ensures |row| == |record| && forall j :: 0 <= j < |record| ==> row[j] == Some(Text(record[j]))
  {
    seq(|record|, j requires 0 <= j < |record| => Some(Text(record[j])))
  }

  function TextRecords(records: seq<seq<string>>): (rows: seq<seq<Option<Cell>>>)
    ensures |rows| == |records| && forall j :: 0 <= j < |records| ==> rows[j] == TextCells(records[j])
  {
    seq(|records|, j requires 0 <= j < |records| => TextCells(records[j]))
  }

  /**
   * The loop of `csv` over already-parsed records: no records is an error;
   * record 0 goes to `fieldNames`, each later record to `addRow`, a failure
   * naming the record's 1-based line.
   */
  function Csv(t: Table, records: seq<seq<string>>): Step
  {
    if |records| == 0 then Step(t, Some(CsvNoData))
    else
      var h := FieldNames(t, Named(records[0]));
      if h.error.Some? then Step(h.table, Some(CsvHeaderFailed(h.error.value)))
      else
        var b := AddRows(h.table, TextRecords(records)[1..], 1);
        Step(b.table, if b.failure.Some? then Some(CsvRowFailed(b.failure.value.0 + 1, b.failure.value.1)) else None)
  }

  /** A parsed JSON object: its own keys, in `Object.keys` order, with their values (None for null). */
  type Item = seq<(string, Option<Cell>)>

  function Keys(item: Item): (ks: seq<string>)
    ensures |ks| == |item| && forall j :: 0 <= j < |item| ==> ks[j] == item[j].0
  {
    seq(|item|, j requires 0 <= j < |item| => item[j].0)
  }

  function Values(item: Item): (vs: seq<Option<Cell>>)
    ensures |vs| == |item| && forall j :: 0 <= j < |item| ==> vs[j] == item[j].1
  {
    seq(|item|, j requires 0 <= j < |item| => item[j].1)
  }

  /**
   * The per-item body of `json`'s loop, from item `index` on: an object
   * without keys is an error; while the table has no columns the item's keys
   * become the columns; the item's values, in its own key order, are added.
   */
  function JsonItems(t: Table, items: seq<Item>, index: nat): Step
    decreases |items|
  {
    if items == [] then Step(t, None)
    else
      var item := items[0];
      if |item| == 0 then Step(t, Some(JsonNoProperties(index)))
      else
        var h := if |t.columnNames| == 0 then FieldNames(t, Named(Keys(item))) else Step(t, None);
        if h.error.Some? then Step(h.table, Some(JsonHeaderFailed(h.error.value)))
        else
          var s := AddRow(h.table, Values(item));
          if s.error.Some? then Step(s.table, Some(JsonRowFailed(index, s.error.value)))
          else JsonItems(s.table, items[1..], index + 1)
  }

  /** The loop of `json` over an already-parsed array of objects. */
  function Json(t: Table, items: seq<Item>): Step
  {
    if |items| == 0 then Step(t, Some(JsonEmptyArray)) else JsonItems(t, items, 0)
  }

  // ---------------------------------------------------------------- sortTable

  /** `Array.prototype.indexOf` on the column names. */
  function IndexOf(names: seq<string>, name: string): (k: Option<nat>)
    ensures k.None? <==> name !in names
    ensures k.Some? ==> k.value < |names| && names[k.value] == name && name !in names[..k.value]
  {
    if names == [] then None
    else if names[0] == name then Some(0)
    else match IndexOf(names[1..], name)
      case None => None
      case Some(j) =>
        assert names[..j + 1] == [names[0]] + names[1..][..j];
        Some(j + 1)
  }

  /** `sortTable`: rejects an empty name, then an unknown one; sorts the rows when there are any. */
  function SortTable(t: Table, colname: string, reverse: Option<bool>): Step
  {
    if colname == "" then Step(t, Some(EmptyColumnName))
    else match IndexOf(t.columnNames, colname)
      case None => Step(t, Some(ColumnNotFound(colname)))
      case Some(col) =>
        if |t.rows| == 0 then Step(t, None)
        else Step(t.(rows := Sorting.Sort(t.rows, col, reverse)), None)
  }

  // ---------------------------------------------------------------- deleteRow, clearTable, deleteTable

  /** `deleteRow`: removes the row at 1-based position `n`. */
  function DeleteRow(t: Table, n: int): Step
  {
    if n <= 0 then Step(t, Some(RowNumberNotPositive))
    else if n > |t.rows| then Step(t, Some(RowNumberOutOfRange(n, |t.rows|)))
    else Step(t.(rows := t.rows[..n - 1] + t.rows[n..]), None)
  }

  /** `clearTable`: drops the rows, keeping columns and widths. */
  function ClearTable(t: Table): Step
  {
    if |t.columnNames| == 0 then Step(t, Some(ClearWithoutColumns))
    else Step(t.(rows := []), None)
  }

  function DeleteTable(t: Table): Table
  {
    Empty
  }

  // ---------------------------------------------------------------- invariants

  /**
   * What every reachable state satisfies: a table without columns is empty,
   * and `maxWidth` covers every column and every stored row. (`fieldNames`
   * appends to `maxWidth`, so it may be longer than the column list.)
   */
  ghost predicate Wf(t: Table)
  {
    && (t.columnNames == [] ==> t.rows == [] && t.maxWidth == [])
    && |t.columnNames| <= |t.maxWidth|
    && (forall r :: r in t.rows ==> |r| <= |t.maxWidth|)
  }

  /** A row with one cell per width, each no wider than its column's width. */
  ghost predicate Fits(r: Row, w: seq<nat>)
  {
    |r| == |w| && forall i :: 0 <= i < |r| ==> Width(r[i]) <= w[i]
  }

  /**
   * The shape invariant: one width per column, every row has one cell per
   * column, and each width bounds its header and every stored cell below it.
   */
  ghost predicate Shaped(t: Table)
  {
    && |t.maxWidth| == |t.columnNames|
    && (forall i :: 0 <= i < |t.columnNames| ==> |t.columnNames[i]| <= t.maxWidth[i])
    && (forall r :: r in t.rows ==> Fits(r, t.maxWidth))
    && (t.columnNames == [] ==> t.rows == [])
  }
}
