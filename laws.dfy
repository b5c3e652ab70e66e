/**
 * What the table operations promise: their error conditions, the exact new
 * state, and the invariants every sequence of operations keeps.
 */
module Laws {
  import opened Wrappers
  import opened Cells
  import Sorting
  import opened Model

  function NormalizeRows(rows: seq<seq<Option<Cell>>>): (rs: seq<Row>)
    ensures |rs| == |rows| && forall j :: 0 <= j < |rows| ==> rs[j] == NormalizeRow(rows[j])
  {
    seq(|rows|, j requires 0 <= j < |rows| => NormalizeRow(rows[j]))
  }

  /** The error `addRow` throws for a row it rejects. */
  function Rejection(columnNames: seq<string>, row: seq<Option<Cell>>): Error
  {
    if |columnNames| == 0 then NoColumns else RowLengthMismatch(|row|, |columnNames|)
  }

  // ---------------------------------------------------------------- one operation

  /**
   * `fieldNames` fails exactly on an empty list or a null name, reporting the
   * first null name's index, and then changes nothing; otherwise it sets the
   * columns, keeps the rows and old widths, and appends one width per name.
   */
  lemma FieldNamesOutcome(t: Table, names: seq<Option<string>>)
    ensures var s := FieldNames(t, names);
      && (s.error.None? <==> |names| > 0 && forall j :: 0 <= j < |names| ==> names[j].Some?)
      && (s.error.Some? ==> s.table == t)
      && (|names| == 0 ==> s.error == Some(EmptyColumnNames))
      && (|names| > 0 && s.error.Some? ==> s.error == Some(NullColumnName(FirstNull(names))))
      && (s.error.Some? && s.error.value.NullColumnName? ==>
            var k := s.error.value.index;
            k < |names| && names[k].None? && forall j :: 0 <= j < k ==> names[j].Some?)
      && (s.error.Some? ==> (IsTypeError(s.error.value) <==> |names| > 0))
    ensures var s := FieldNames(t, names);
      s.error.None? ==>
        && |s.table.columnNames| == |names|
        && (forall j :: 0 <= j < |names| ==> names[j] == Some(s.table.columnNames[j]))
        && s.table.rows == t.rows
        && |s.table.maxWidth| == |t.maxWidth| + |names|
        && s.table.maxWidth[..|t.maxWidth|] == t.maxWidth
        && (forall j :: 0 <= j < |names| ==> s.table.maxWidth[|t.maxWidth| + j] == |s.table.columnNames[j]|)
  {
    var s := FieldNames(t, names);
    if |names| > 0 && forall j :: 0 <= j < |names| ==> names[j].Some? {
      assert FirstNull(names) == |names|;
    }
  }

  /** Calling `fieldNames` twice leaves a stale width in front: `maxWidth` is appended to, not reset. */
  lemma FieldNamesAppendsWidths()
    ensures var once := FieldNames(Empty, [Some("abc")]).table;
      var twice := FieldNames(once, [Some("a")]).table;
      once.maxWidth == [3] && twice.columnNames == ["a"] && twice.maxWidth == [3, 1]
  {
    var once := FieldNames(Empty, [Some("abc")]).table;
    assert FirstNull([Some("abc")]) == 1;
    assert FirstNull([Some("a")]) == 1;
    assert once.maxWidth == [] + [3];
  }

  /**
   * `addRow` fails when there are no columns, else when the row's length
   * differs from the column count, and then changes nothing; otherwise it
   * appends the row with null/undefined cells made "" and raises each width to
   * that cell's width.
   */
  lemma AddRowOutcome(t: Table, row: seq<Option<Cell>>)
    ensures var s := AddRow(t, row);
      && (s.error == Some(NoColumns) <==> |t.columnNames| == 0)
      && (s.error == Some(RowLengthMismatch(|row|, |t.columnNames|)) <==> |t.columnNames| > 0 && |row| != |t.columnNames|)
      && (s.error.None? <==> |t.columnNames| > 0 && |row| == |t.columnNames|)
      && (s.error.Some? ==> s.table == t && s.error == Some(Rejection(t.columnNames, row)))
    ensures var s := AddRow(t, row);
      s.error.None? ==>
        && s.table.columnNames == t.columnNames
        && |s.table.rows| == |t.rows| + 1
        && s.table.rows[..|t.rows|] == t.rows
        && |s.table.rows[|t.rows|]| == |row|
        && (forall i :: 0 <= i < |row| ==>
              s.table.rows[|t.rows|][i] == (if row[i].None? then Text("") else row[i].value))
        && |s.table.maxWidth| == |t.maxWidth|
        && (forall i :: 0 <= i < |t.maxWidth| ==>
              s.table.maxWidth[i] ==
                if i < |row| && Width(Normalize(row[i])) > t.maxWidth[i] then Width(Normalize(row[i])) else t.maxWidth[i])
  {
    var s := AddRow(t, row);
    if s.error.None? {
      assert s.table.rows[..|t.rows|] == t.rows;
    }
  }

  /** The part of `AddRowOutcome` that adding several rows relies on. */
  lemma AddRowRows(t: Table, row: seq<Option<Cell>>)
    ensures var s := AddRow(t, row);
      && s.table.columnNames == t.columnNames
      && (s.error.None? <==> |t.columnNames| > 0 && |row| == |t.columnNames|)
      && (s.error.None? ==> s.table.rows == t.rows + [NormalizeRow(row)])
      && (s.error.Some? ==> s.table == t && s.error.value == Rejection(t.columnNames, row))
  {
  }

  lemma {:induction false} AddRowsKeepsColumns(t: Table, rows: seq<seq<Option<Cell>>>, start: nat)
    ensures AddRows(t, rows, start).table.columnNames == t.columnNames
    decreases |rows|
  {
    if rows != [] {
      AddRowRows(t, rows[0]);
      AddRowsKeepsColumns(AddRow(t, rows[0]).table, rows[1..], start + 1);
    }
  }

  lemma {:induction false} AddRowsNoFailure(t: Table, rows: seq<seq<Option<Cell>>>, start: nat)
    ensures AddRows(t, rows, start).failure.None? <==>
      forall j :: 0 <= j < |rows| ==> |t.columnNames| > 0 && |rows[j]| == |t.columnNames|
    decreases |rows|
  {
    if rows != [] {
      var s := AddRow(t, rows[0]);
      AddRowRows(t, rows[0]);
      if s.error.None? {
        var rest := rows[1..];
        AddRowsNoFailure(s.table, rest, start + 1);
        assert forall j :: 1 <= j < |rows| ==> rows[j] == rest[j - 1];
      }
    }
  }

  lemma {:induction false} AddRowsAllAdded(t: Table, rows: seq<seq<Option<Cell>>>, start: nat)
    requires AddRows(t, rows, start).failure.None?
    ensures AddRows(t, rows, start).table.rows == t.rows + NormalizeRows(rows)
    decreases |rows|
  {
    if rows != [] {
      var s := AddRow(t, rows[0]);
      AddRowRows(t, rows[0]);
      var rest := rows[1..];
      AddRowsAllAdded(s.table, rest, start + 1);
      assert NormalizeRows(rows) == [NormalizeRow(rows[0])] + NormalizeRows(rest);
    }
  }

  /** Adding rows never changes the columns, and adds all of them exactly when each has one cell per column. */
  lemma AddRowsSucceeds(t: Table, rows: seq<seq<Option<Cell>>>, start: nat)
    ensures AddRows(t, rows, start).table.columnNames == t.columnNames
    ensures AddRows(t, rows, start).failure.None? <==>
      forall j :: 0 <= j < |rows| ==> |t.columnNames| > 0 && |rows[j]| == |t.columnNames|
    ensures AddRows(t, rows, start).failure.None? ==>
      AddRows(t, rows, start).table.rows == t.rows + NormalizeRows(rows)
  {
    AddRowsKeepsColumns(t, rows, start);
    AddRowsNoFailure(t, rows, start);
    if AddRows(t, rows, start).failure.None? {
      AddRowsAllAdded(t, rows, start);
    }
  }

  /** The first rejected row: its index, the rows before it that fit, and `addRow`'s error for it. */
  lemma {:induction false} AddRowsFailsAt(t: Table, rows: seq<seq<Option<Cell>>>, start: nat)
    requires AddRows(t, rows, start).failure.Some?
    ensures var (index, cause) := AddRows(t, rows, start).failure.value;
      && start <= index < start + |rows|
      && (forall j :: 0 <= j < index - start ==> |rows[j]| == |t.columnNames|)
      && (|t.columnNames| == 0 ==> index == start)
      && (|t.columnNames| > 0 ==> |rows[index - start]| != |t.columnNames|)
      && cause == Rejection(t.columnNames, rows[index - start])
    decreases |rows|
  {
    var s := AddRow(t, rows[0]);
    AddRowRows(t, rows[0]);
    if s.error.None? {
      var rest := rows[1..];
      AddRowsFailsAt(s.table, rest, start + 1);
      var k := AddRows(s.table, rest, start + 1).failure.value.0 - (start + 1);
      assert rest[k] == rows[k + 1];
    }
  }

  /** The rows before the first rejected one stay added. */
  lemma {:induction false} AddRowsFailsKeeps(t: Table, rows: seq<seq<Option<Cell>>>, start: nat)
    requires AddRows(t, rows, start).failure.Some?
    ensures var index := AddRows(t, rows, start).failure.value.0;
      start <= index < start + |rows| && AddRows(t, rows, start).table.rows == t.rows + NormalizeRows(rows[..index - start])
    decreases |rows|
  {
    AddRowsFailsAt(t, rows, start);
    var s := AddRow(t, rows[0]);
    AddRowRows(t, rows[0]);
    if s.error.None? {
      var rest := rows[1..];
      AddRowsFailsKeeps(s.table, rest, start + 1);
      var k := AddRows(s.table, rest, start + 1).failure.value.0 - (start + 1);
      NormalizeRowsCons(rows, k);
    } else {
      assert rows[..0] == [];
    }
  }

  lemma AddRowsFails(t: Table, rows: seq<seq<Option<Cell>>>, start: nat)
    requires AddRows(t, rows, start).failure.Some?
    ensures var (index, cause) := AddRows(t, rows, start).failure.value;
      && start <= index < start + |rows|
      && (forall j :: 0 <= j < index - start ==> |rows[j]| == |t.columnNames|)
      && (|t.columnNames| == 0 ==> index == start)
      && (|t.columnNames| > 0 ==> |rows[index - start]| != |t.columnNames|)
      && cause == Rejection(t.columnNames, rows[index - start])
      && AddRows(t, rows, start).table.rows == t.rows + NormalizeRows(rows[..index - start])
  {
    AddRowsFailsAt(t, rows, start);
    AddRowsFailsKeeps(t, rows, start);
  }

  lemma NormalizeRowsCons(rows: seq<seq<Option<Cell>>>, k: nat)
    requires k < |rows|
    ensures NormalizeRows(rows[..k + 1]) == [NormalizeRow(rows[0])] + NormalizeRows(rows[1..][..k])
  {
    var a, rest := NormalizeRows(rows[..k + 1]), NormalizeRows(rows[1..][..k]);
    assert a[1..] == rest by {
      forall j | 0 <= j < k ensures a[1..][j] == rest[j] {
        assert rows[..k + 1][j + 1] == rows[1..][..k][j];
      }
    }
    ConsAppend([], NormalizeRow(rows[0]), a, rest);
  }

  /**
   * Adding rows one by one never changes the columns; it succeeds exactly when
   * there are columns and every row has one cell per column; on the first row
   * that fails, the rows before it stay added (no rollback) and the failure
   * names that row's index and `addRow`'s error.
   */
  lemma AddRowsOutcome(t: Table, rows: seq<seq<Option<Cell>>>, start: nat)
    ensures AddRows(t, rows, start).table.columnNames == t.columnNames
    ensures AddRows(t, rows, start).failure.None? <==>
      forall j :: 0 <= j < |rows| ==> |t.columnNames| > 0 && |rows[j]| == |t.columnNames|
    ensures AddRows(t, rows, start).failure.None? ==>
      AddRows(t, rows, start).table.rows == t.rows + NormalizeRows(rows)
    ensures AddRows(t, rows, start).failure.Some? ==>
      var (index, cause) := AddRows(t, rows, start).failure.value;
      && start <= index < start + |rows|
      && (forall j :: 0 <= j < index - start ==> |rows[j]| == |t.columnNames|)
      && (|t.columnNames| == 0 ==> index == start)
      && (|t.columnNames| > 0 ==> |rows[index - start]| != |t.columnNames|)
      && cause == Rejection(t.columnNames, rows[index - start])
      && AddRows(t, rows, start).table.rows == t.rows + NormalizeRows(rows[..index - start])
  {
    AddRowsSucceeds(t, rows, start);
    if AddRows(t, rows, start).failure.Some? {
      AddRowsFails(t, rows, start);
    }
  }

  lemma PresentNamed(record: seq<string>)
    ensures FirstNull(Named(record)) == |record|
    ensures Present(Named(record)) == record
  {
  }

  /**
   * `create` fails as `fieldNames` does, changing nothing; otherwise the
   * columns are the headers, and the rows are added up to the first one whose
   * length differs from the header count, whose index the error names. Rows
   * added before it are kept.
   */
  lemma CreateOutcome(t: Table, headers: seq<Option<string>>, rows: seq<seq<Option<Cell>>>)
    ensures FieldNames(t, headers).error.Some? ==> Create(t, headers, rows) == FieldNames(t, headers)
    ensures FieldNames(t, headers).error.None? ==>
      var s := Create(t, headers, rows);
      && |s.table.columnNames| == |headers|
      && (forall j :: 0 <= j < |headers| ==> headers[j] == Some(s.table.columnNames[j]))
      && (s.error.None? <==> forall j :: 0 <= j < |rows| ==> |rows[j]| == |headers|)
      && (s.error.None? ==> s.table.rows == t.rows + NormalizeRows(rows))
      && (s.error.Some? ==>
            && s.error.value.RowFailed?
            && var k := s.error.value.index;
            && k < |rows|
            && (forall j :: 0 <= j < k ==> |rows[j]| == |headers|)
            && |rows[k]| != |headers|
            && s.error.value.cause == RowLengthMismatch(|rows[k]|, |headers|)
            && s.table.rows == t.rows + NormalizeRows(rows[..k]))
    ensures Wf(t) && t.columnNames == [] && FieldNames(t, headers).error.None? ==>
      var u := Create(t, headers, rows).table;
      |u.maxWidth| == |u.columnNames| && forall i :: 0 <= i < |headers| ==> u.maxWidth[i] == LongestInColumn(|u.columnNames[i]|, u.rows, i)
  {
    CreateWidths(t, headers, rows);
    FieldNamesOutcome(t, headers);
    var h := FieldNames(t, headers);
    if h.error.None? {
      AddRowsOutcome(h.table, rows, 0);
    }
  }

  lemma ExampleHeaders()
    ensures FieldNames(Empty, [Some("a"), Some("b")]) == Step(Table(["a", "b"], [], [1, 1]), None)
  {
    var hs := [Some("a"), Some("b")];
    assert FirstNull(hs[1..][1..]) == 0;
    assert FirstNull(hs) == 2;
    assert Present(hs) == ["a", "b"];
  }

  lemma ExampleWidths()
    ensures Width(Num(1)) == 1 && Width(Num(2)) == 1 && Width(Num(33)) == 2 && Width(Num(4)) == 1
  {
    assert NatToString(33) == NatToString(3) + [DigitChar(3)];
  }

  /** `create` on two columns and two rows: each width is the longest of its header and its cells. */
  lemma CreateExample()
    ensures Create(Empty, [Some("a"), Some("b")], [[Some(Num(1)), Some(Num(2))], [Some(Num(33)), Some(Num(4))]])
      == Step(Table(["a", "b"], [[Num(1), Num(2)], [Num(33), Num(4)]], [2, 1]), None)
  {
    var r1, r2 := [Some(Num(1)), Some(Num(2))], [Some(Num(33)), Some(Num(4))];
    var rows := [r1, r2];
    ExampleHeaders();
    ExampleWidths();
    var h := Table(["a", "b"], [], [1, 1]);
    var t1 := Table(["a", "b"], [[Num(1), Num(2)]], [1, 1]);
    var t2 := Table(["a", "b"], [[Num(1), Num(2)], [Num(33), Num(4)]], [2, 1]);
    assert NormalizeRow(r1) == [Num(1), Num(2)] && NormalizeRow(r2) == [Num(33), Num(4)];
    assert Raise([1, 1], [Num(1), Num(2)]) == [1, 1];
    assert Raise([1, 1], [Num(33), Num(4)]) == [2, 1];
    assert AddRow(h, r1) == Step(t1, None);
    assert AddRow(t1, r2) == Step(t2, None);
    assert rows[1..] == [r2] && rows[1..][1..] == [];
    assert AddRows(t2, [], 2) == Batch(t2, None);
    assert AddRows(t1, [r2], 1) == Batch(t2, None);
    assert AddRows(h, rows, 0) == Batch(t2, None);
  }

  function TextRow(record: seq<string>): (r: Row)
    ensures |r| == |record| && forall j :: 0 <= j < |record| ==> r[j] == Text(record[j])
  {
    seq(|record|, j requires 0 <= j < |record| => Text(record[j]))
  }

  /** The first `k` data records of a CSV file, as the rows `addRow` stores. */
  lemma CsvRowsPrefix(records: seq<seq<string>>, k: nat)
    requires 1 <= |records| && k <= |records| - 1
    ensures NormalizeRows(TextRecords(records)[1..][..k])
      == seq(k, j requires 0 <= j < k => TextRow(records[j + 1]))
  {
    var rows := TextRecords(records)[1..][..k];
    forall j | 0 <= j < k ensures NormalizeRow(rows[j]) == TextRow(records[j + 1]) {
      assert rows[j] == TextCells(records[j + 1]);
    }
  }

  /** A non-empty header record always becomes the columns, leaving the rows as they were. */
  lemma CsvHeader(t: Table, records: seq<seq<string>>)
    requires records != [] && records[0] != []
    ensures var h := FieldNames(t, Named(records[0]));
      h.error.None? && h.table.columnNames == records[0] && h.table.rows == t.rows
  {
    PresentNamed(records[0]);
  }

  /** The data records all fit exactly when adding them as rows never fails. */
  lemma CsvRecordsFit(records: seq<seq<string>>, cols: seq<string>)
    requires records != [] && cols == records[0] && cols != []
    ensures var rest := TextRecords(records)[1..];
      (forall j :: 0 <= j < |rest| ==> |cols| > 0 && |rest[j]| == |cols|)
      <==> (forall j :: 1 <= j < |records| ==> |records[j]| == |records[0]|)
  {
    var rest := TextRecords(records)[1..];
    assert forall j :: 0 <= j < |rest| ==> |rest[j]| == |records[j + 1]|;
    if forall j :: 0 <= j < |rest| ==> |rest[j]| == |cols| {
      forall j | 1 <= j < |records| ensures |records[j]| == |records[0]| {
        assert |rest[j - 1]| == |records[j]|;
      }
    }
  }

  lemma CsvSucceeds(t: Table, records: seq<seq<string>>)
    requires records != [] && records[0] != []
    ensures Csv(t, records).table.columnNames == records[0]
    ensures Csv(t, records).error.None? <==> forall j :: 1 <= j < |records| ==> |records[j]| == |records[0]|
    ensures Csv(t, records).error.None? ==>
      Csv(t, records).table.rows == t.rows + seq(|records| - 1, j requires 0 <= j < |records| - 1 => TextRow(records[j + 1]))
  {
    CsvHeader(t, records);
    var h := FieldNames(t, Named(records[0]));
    var rest := TextRecords(records)[1..];
    AddRowsSucceeds(h.table, rest, 1);
    CsvRecordsFit(records, h.table.columnNames);
    if AddRows(h.table, rest, 1).failure.None? {
      CsvRowsPrefix(records, |records| - 1);
      assert rest[..|records| - 1] == rest;
    }
  }

  lemma CsvFails(t: Table, records: seq<seq<string>>)
    requires records != [] && records[0] != [] && Csv(t, records).error.Some?
    ensures Csv(t, records).error.value.CsvRowFailed?
    ensures var s := Csv(t, records);
      var line := s.error.value.line;
      && 2 <= line <= |records|
      && (forall j :: 1 <= j < line - 1 ==> |records[j]| == |records[0]|)
      && |records[line - 1]| != |records[0]|
      && s.error.value.cause == RowLengthMismatch(|records[line - 1]|, |records[0]|)
    ensures var s := Csv(t, records);
      var line := s.error.value.line;
      s.table.rows == t.rows + seq(line - 2, j requires 0 <= j < line - 2 => TextRow(records[j + 1]))
  {
    CsvHeader(t, records);
    var h := FieldNames(t, Named(records[0]));
    var rest := TextRecords(records)[1..];
    AddRowsFails(h.table, rest, 1);
    var b := AddRows(h.table, rest, 1);
    var k := b.failure.value.0 - 1;
    assert Csv(t, records) == Step(b.table, Some(CsvRowFailed(k + 2, b.failure.value.1)));
    CsvRestLengths(records, k);
    CsvRowsPrefix(records, k);
  }

  /** The lengths of the data rows built from the records are the records' lengths. */
  lemma CsvRestLengths(records: seq<seq<string>>, k: nat)
    requires k < |records| - 1
    ensures var rest := TextRecords(records)[1..];
      && ((forall j :: 0 <= j < k ==> |rest[j]| == |records[0]|) ==> forall j :: 1 <= j < k + 1 ==> |records[j]| == |records[0]|)
      && |rest[k]| == |records[k + 1]|
  {
    var rest := TextRecords(records)[1..];
    assert forall j :: 0 <= j < |rest| ==> |rest[j]| == |records[j + 1]|;
  }

  /**
   * The loop of `csv`: no records is an error; an empty header record fails as
   * `fieldNames` does; otherwise the header record becomes the columns and
   * each later record a row of strings, up to the first record whose length
   * differs from the header's, whose 1-based line the error names.
   */
  lemma CsvOutcome(t: Table, records: seq<seq<string>>)
    ensures records == [] ==> Csv(t, records) == Step(t, Some(CsvNoData))
    ensures records != [] && records[0] == [] ==>
      Csv(t, records) == Step(t, Some(CsvHeaderFailed(EmptyColumnNames)))
    ensures records != [] && records[0] != [] ==>
      var s := Csv(t, records);
      && s.table.columnNames == records[0]
      && (s.error.None? <==> forall j :: 1 <= j < |records| ==> |records[j]| == |records[0]|)
      && (s.error.None? ==>
            s.table.rows == t.rows + seq(|records| - 1, j requires 0 <= j < |records| - 1 => TextRow(records[j + 1])))
      && (s.error.Some? ==>
            && s.error.value.CsvRowFailed?
            && var line := s.error.value.line;
            && 2 <= line <= |records|
            && (forall j :: 1 <= j < line - 1 ==> |records[j]| == |records[0]|)
            && |records[line - 1]| != |records[0]|
            && s.error.value.cause == RowLengthMismatch(|records[line - 1]|, |records[0]|)
            && s.table.rows == t.rows + seq(line - 2, j requires 0 <= j < line - 2 => TextRow(records[j + 1])))
    ensures records != [] && records[0] != [] && Wf(t) && t.columnNames == [] ==>
      var u := Csv(t, records).table;
      |u.maxWidth| == |records[0]| && forall i :: 0 <= i < |records[0]| ==> u.maxWidth[i] == LongestInColumn(|records[0][i]|, u.rows, i)
  {
    CsvWidths(t, records);
    if records != [] && records[0] != [] {
      CsvSucceeds(t, records);
      if Csv(t, records).error.Some? {
        CsvFails(t, records);
      }
    }
  }

  function JsonRows(items: seq<Item>): (rs: seq<Row>)
    ensures |rs| == |items| && forall k :: 0 <= k < |items| ==> rs[k] == NormalizeRow(Values(items[k]))
  {
    seq(|items|, k requires 0 <= k < |items| => NormalizeRow(Values(items[k])))
  }

  /** The column count `json` ends up with: the first item's key count when the table had no columns. */
  function JsonArity(t: Table, items: seq<Item>): nat
  {
    if t.columnNames == [] && items != [] then |items[0]| else |t.columnNames|
  }

  /** One item of `json`'s loop, when it has keys: the columns it leaves and the row it adds. */
  lemma JsonItemStep(t: Table, item: Item, index: nat)
    requires |item| > 0
    ensures var h := if |t.columnNames| == 0 then FieldNames(t, Named(Keys(item))) else Step(t, None);
      && h.error.None?
      && h.table.columnNames == (if t.columnNames == [] then Keys(item) else t.columnNames)
      && h.table.rows == t.rows
  {
    PresentNamed(Keys(item));
  }

  lemma {:induction false} JsonItemsSucceeds(t: Table, items: seq<Item>, index: nat)
    ensures JsonItems(t, items, index).error.None? <==>
      forall k :: 0 <= k < |items| ==> 0 < |items[k]| == JsonArity(t, items)
    decreases |items|
  {
    if items != [] && |items[0]| > 0 {
      var item := items[0];
      JsonItemStep(t, item, index);
      var h := if |t.columnNames| == 0 then FieldNames(t, Named(Keys(item))) else Step(t, None);
      var s := AddRow(h.table, Values(item));
      AddRowRows(h.table, Values(item));
      if s.error.None? {
        JsonItemsSucceeds(s.table, items[1..], index + 1);
        assert JsonArity(s.table, items[1..]) == JsonArity(t, items);
        forall k | 1 <= k < |items| ensures items[k] == items[1..][k - 1] {
        }
      }
    }
  }

  lemma {:induction false} JsonItemsColumns(t: Table, items: seq<Item>, index: nat)
    requires JsonItems(t, items, index).error.None?
    ensures JsonItems(t, items, index).table.columnNames ==
      (if t.columnNames == [] && items != [] then Keys(items[0]) else t.columnNames)
    decreases |items|
  {
    if items != [] {
      var item := items[0];
      JsonItemStep(t, item, index);
      var h := if |t.columnNames| == 0 then FieldNames(t, Named(Keys(item))) else Step(t, None);
      AddRowRows(h.table, Values(item));
      JsonItemsColumns(AddRow(h.table, Values(item)).table, items[1..], index + 1);
    }
  }

  lemma {:induction false} JsonItemsAllRows(t: Table, items: seq<Item>, index: nat)
    requires JsonItems(t, items, index).error.None?
    ensures JsonItems(t, items, index).table.rows == t.rows + JsonRows(items)
    decreases |items|
  {
    if items != [] {
      var item := items[0];
      JsonItemStep(t, item, index);
      var h := if |t.columnNames| == 0 then FieldNames(t, Named(Keys(item))) else Step(t, None);
      var s := AddRow(h.table, Values(item));
      AddRowRows(h.table, Values(item));
      assert s.table.rows == t.rows + [NormalizeRow(Values(item))];
      JsonItemsAllRows(s.table, items[1..], index + 1);
      JsonRowsCons(t.rows, items);
    }
  }

  lemma JsonRowsCons(rows: seq<Row>, items: seq<Item>)
    requires items != []
    ensures rows + [NormalizeRow(Values(items[0]))] + JsonRows(items[1..]) == rows + JsonRows(items)
  {
    JsonRowsTail(items);
    ConsAppend(rows, NormalizeRow(Values(items[0])), JsonRows(items), JsonRows(items[1..]));
  }

  /** A sequence is its first element followed by the rest. */
  lemma ConsAppend<T>(before: seq<T>, x: T, a: seq<T>, rest: seq<T>)
    requires a != [] && a[0] == x && a[1..] == rest
    ensures before + [x] + rest == before + a
  {
    assert a == [x] + rest;
  }

  lemma JsonRowsTail(items: seq<Item>)
    requires items != []
    ensures JsonRows(items)[1..] == JsonRows(items[1..])
  {
    forall k | 0 <= k < |items| - 1 ensures JsonRows(items)[1..][k] == JsonRows(items[1..])[k] {
      assert items[1..][k] == items[k + 1];
    }
  }

  lemma JsonItemsRows(t: Table, items: seq<Item>, index: nat)
    requires JsonItems(t, items, index).error.None?
    ensures var s := JsonItems(t, items, index);
      && s.table.columnNames == (if t.columnNames == [] && items != [] then Keys(items[0]) else t.columnNames)
      && s.table.rows == t.rows + JsonRows(items)
  {
    JsonItemsColumns(t, items, index);
    JsonItemsAllRows(t, items, index);
  }


  /** The index of the first object without keys or with a key count other than `arity`, or |items| when there is none. */
  function FirstBadItem(arity: nat, items: seq<Item>): (k: nat)
    ensures k <= |items|
    ensures k < |items| ==> !(0 < |items[k]| == arity)
    ensures forall j :: 0 <= j < k ==> 0 < |items[j]| == arity
  {
    if items == [] then 0
    else if !(0 < |items[0]| == arity) then 0
    else 1 + FirstBadItem(arity, items[1..])
  }

  /** The error `json` throws for the first bad object at position `k` of the batch. */
  function JsonItemError(items: seq<Item>, k: nat, arity: nat, index: nat): Error
    requires k < |items|
  {
    if |items[k]| == 0 then JsonNoProperties(index + k)
    else JsonRowFailed(index + k, RowLengthMismatch(|items[k]|, arity))
  }

  /** JSON's loop stops at the first bad object, naming it, and keeps the objects before it as rows. */
  lemma {:induction false} JsonItemsFails(t: Table, items: seq<Item>, index: nat)
    requires JsonItems(t, items, index).error.Some?
    ensures var k := FirstBadItem(JsonArity(t, items), items);
      k < |items| && JsonItems(t, items, index).error == Some(JsonItemError(items, k, JsonArity(t, items), index))
    ensures var k := FirstBadItem(JsonArity(t, items), items);
      JsonItems(t, items, index).table.rows == t.rows + JsonRows(items[..k])
    decreases |items|
  {
    var arity := JsonArity(t, items);
    var item := items[0];
    if |item| == 0 {
      assert items[..0] == [];
    } else {
      JsonItemStep(t, item, index);
      var h := if |t.columnNames| == 0 then FieldNames(t, Named(Keys(item))) else Step(t, None);
      var s := AddRow(h.table, Values(item));
      AddRowRows(h.table, Values(item));
      if s.error.Some? {
        assert |item| != arity;
        assert items[..0] == [];
      } else {
        var rest := items[1..];
        assert JsonArity(s.table, rest) == arity;
        JsonItemsFails(s.table, rest, index + 1);
        var k := FirstBadItem(arity, rest);
        assert FirstBadItem(arity, items) == k + 1;
        assert items[k + 1] == rest[k];
        assert s.table.rows == t.rows + [NormalizeRow(Values(item))];
        assert items[..k + 1][1..] == rest[..k];
        JsonRowsCons(t.rows, items[..k + 1]);
      }
    }
  }

  /**
   * The loop of `json`: an empty array is an error; otherwise, when the
   * table had no columns, the first item's keys become the columns, and each
   * item becomes a row of its values taken in its OWN key order; it succeeds
   * exactly when every item has keys, as many as there are columns. Otherwise
   * the first object without keys, or with a different key count, is named by
   * its index, and the objects before it stay added as rows.
   */
  lemma JsonOutcome(t: Table, items: seq<Item>)
    ensures items == [] ==> Json(t, items) == Step(t, Some(JsonEmptyArray))
    ensures items != [] ==>
      var s := Json(t, items);
      && (s.error.None? <==> forall k :: 0 <= k < |items| ==> 0 < |items[k]| == JsonArity(t, items))
      && (s.error.None? ==>
            && s.table.columnNames == (if t.columnNames == [] then Keys(items[0]) else t.columnNames)
            && s.table.rows == t.rows + JsonRows(items))
    ensures items != [] && Json(t, items).error.Some? ==>
      var s := Json(t, items);
      var k := FirstBadItem(JsonArity(t, items), items);
      && k < |items|
      && (forall j :: 0 <= j < k ==> 0 < |items[j]| == JsonArity(t, items))
      && (|items[k]| == 0 ==> s.error == Some(JsonNoProperties(k)))
      && (|items[k]| != 0 ==>
            |items[k]| != JsonArity(t, items) && s.error == Some(JsonRowFailed(k, RowLengthMismatch(|items[k]|, JsonArity(t, items)))))
      && s.table.rows == t.rows + JsonRows(items[..k])
    ensures items != [] && Wf(t) && t.columnNames == [] ==>
      var u := Json(t, items).table;
      |u.maxWidth| == |items[0]| && forall i :: 0 <= i < |items[0]| ==> u.maxWidth[i] == LongestInColumn(|items[0][i].0|, u.rows, i)
  {
    JsonWidths(t, items);
    if items != [] {
      JsonItemsSucceeds(t, items, 0);
      if Json(t, items).error.None? {
        JsonItemsRows(t, items, 0);
      } else {
        JsonItemsFails(t, items, 0);
      }
    }
  }

  /** Items with the same keys in different orders: the second row is NOT reordered by key name. */
  lemma JsonOwnKeyOrder()
    ensures var items := [[("a", Some(Num(1))), ("b", Some(Num(2)))], [("b", Some(Num(3))), ("a", Some(Num(4)))]];
      var s := Json(Empty, items);
      s.error.None? && s.table.columnNames == ["a", "b"] && s.table.rows == [[Num(1), Num(2)], [Num(3), Num(4)]]
  {
    var items := [[("a", Some(Num(1))), ("b", Some(Num(2)))], [("b", Some(Num(3))), ("a", Some(Num(4)))]];
    JsonItemsSucceeds(Empty, items, 0);
    JsonItemsRows(Empty, items, 0);
    assert Keys(items[0]) == ["a", "b"];
    assert NormalizeRow(Values(items[0])) == [Num(1), Num(2)];
    assert NormalizeRow(Values(items[1])) == [Num(3), Num(4)];
  }

  /**
   * `sortTable` rejects an empty name, then a name that is not a column,
   * changing nothing; otherwise it only reorders the rows (none when there are
   * no rows), never touching the columns or the widths.
   */
  lemma SortTableOutcome(t: Table, colname: string, reverse: Option<bool>)
    ensures colname == "" ==> SortTable(t, colname, reverse) == Step(t, Some(EmptyColumnName))
    ensures var s := SortTable(t, colname, reverse);
      s.error.Some? ==> (IsTypeError(s.error.value) <==> colname == "")
    ensures colname != "" && colname !in t.columnNames ==>
      SortTable(t, colname, reverse) == Step(t, Some(ColumnNotFound(colname)))
    ensures colname != "" && colname in t.columnNames ==>
      var s := SortTable(t, colname, reverse);
      && s.error.None?
      && s.table.columnNames == t.columnNames
      && s.table.maxWidth == t.maxWidth
      && multiset(s.table.rows) == multiset(t.rows)
      && (t.rows == [] ==> s.table == t)
  {
    if colname != "" && colname in t.columnNames {
      Sorting.SortPermutes(t.rows, IndexOf(t.columnNames, colname).value, reverse);
    }
  }

  /** On a shaped table every row has every column. */
  lemma ShapedHasColumn(t: Table, col: nat)
    requires Shaped(t) && col < |t.columnNames|
    ensures Sorting.HasColumn(t.rows, col)
  {
    forall r | r in t.rows ensures col < |r| {
      assert Fits(r, t.maxWidth);
    }
  }

  /**
   * When every row has the column `colname` names first (`col`), as on any
   * shaped table, sorting by `colname` orders the rows by that column,
   * non-decreasing, or non-increasing when `reverse == Some(true)`, and rows
   * with equal values keep their relative order.
   */
  lemma SortTableOrders(t: Table, colname: string, reverse: Option<bool>)
    requires colname != "" && colname in t.columnNames
    requires Sorting.HasColumn(t.rows, IndexOf(t.columnNames, colname).value)
    ensures var col := IndexOf(t.columnNames, colname).value;
      t.columnNames[col] == colname && colname !in t.columnNames[..col]
    ensures var col := IndexOf(t.columnNames, colname).value;
      var rows := SortTable(t, colname, reverse).table.rows;
      Sorting.OrderedBy(rows, col, reverse)
    ensures var col := IndexOf(t.columnNames, colname).value;
      var rows := SortTable(t, colname, reverse).table.rows;
      forall v :: Sorting.Matching(rows, col, v) == Sorting.Matching(t.rows, col, v)
  {
    var col := IndexOf(t.columnNames, colname).value;
    Sorting.SortSpec(t.rows, col, reverse);
    var rows := SortTable(t, colname, reverse).table.rows;
    assert rows == Sorting.Sort(t.rows, col, reverse);
  }

  /**
   * `deleteRow(n)` rejects n <= 0, then n beyond the row count (reporting n
   * and the count), changing nothing; otherwise it removes exactly the row at
   * index n - 1, keeps the others in order, and touches neither the columns
   * nor the widths.
   */
  lemma DeleteRowOutcome(t: Table, n: int)
    ensures n <= 0 ==> DeleteRow(t, n) == Step(t, Some(RowNumberNotPositive))
    ensures 0 < n && |t.rows| < n ==> DeleteRow(t, n) == Step(t, Some(RowNumberOutOfRange(n, |t.rows|)))
    ensures 0 < n <= |t.rows| ==>
      var s := DeleteRow(t, n);
      && s.error.None?
      && s.table.columnNames == t.columnNames
      && s.table.maxWidth == t.maxWidth
      && |s.table.rows| == |t.rows| - 1
      && (forall i :: 0 <= i < n - 1 ==> s.table.rows[i] == t.rows[i])
      && (forall i :: n - 1 <= i < |s.table.rows| ==> s.table.rows[i] == t.rows[i + 1])
      && multiset(s.table.rows) + multiset{t.rows[n - 1]} == multiset(t.rows)
  {
    if 0 < n <= |t.rows| {
      assert t.rows == t.rows[..n - 1] + [t.rows[n - 1]] + t.rows[n..];
    }
  }

  /**
   * `clearTable` fails on a table with no columns, changing nothing; otherwise
   * it empties the rows and keeps the columns and the widths, which it does
   * not recompute. `deleteTable` always returns to the empty table.
   */
  lemma ClearAndDeleteTableOutcome(t: Table)
    ensures t.columnNames == [] ==> ClearTable(t) == Step(t, Some(ClearWithoutColumns))
    ensures t.columnNames != [] ==>
      var s := ClearTable(t);
      s.error.None? && s.table.rows == [] && s.table.columnNames == t.columnNames && s.table.maxWidth == t.maxWidth
    ensures var e := DeleteTable(t); e.columnNames == [] && e.rows == [] && e.maxWidth == []
  {
  }

  // ---------------------------------------------------------------- the widths the row loops leave

  /**
   * Column `i`'s width once `rows` are added to a column of width `w`: each
   * row whose cell `i` is wider raises it to that cell's width.
   */
  function LongestInColumn(w: nat, rows: seq<Row>, i: nat): nat
    decreases |rows|
  {
    if rows == [] then w
    else LongestInColumn(if i < |rows[0]| && Width(rows[0][i]) > w then Width(rows[0][i]) else w, rows[1..], i)
  }

  /** `LongestInColumn` is the maximum of `w` and the widths of the rows' cells in column `i`. */
  lemma {:induction false} LongestInColumnIsMax(w: nat, rows: seq<Row>, i: nat)
    ensures w <= LongestInColumn(w, rows, i)
    ensures forall r :: 0 <= r < |rows| && i < |rows[r]| ==> Width(rows[r][i]) <= LongestInColumn(w, rows, i)
    ensures LongestInColumn(w, rows, i) == w ||
      exists r :: 0 <= r < |rows| && i < |rows[r]| && LongestInColumn(w, rows, i) == Width(rows[r][i])
    decreases |rows|
  {
    if rows != [] {
      var w' := if i < |rows[0]| && Width(rows[0][i]) > w then Width(rows[0][i]) else w;
      var rest := rows[1..];
      LongestInColumnIsMax(w', rest, i);
      var m := LongestInColumn(w', rest, i);
      forall r | 0 <= r < |rows| && i < |rows[r]| ensures Width(rows[r][i]) <= m {
        if r > 0 {
          assert rows[r] == rest[r - 1];
        }
      }
      if m != w && m != w' {
        var r :| 0 <= r < |rest| && i < |rest[r]| && m == Width(rest[r][i]);
        assert rows[r + 1] == rest[r];
      }
    }
  }

  /** Raising the widths by row `r`, then by the rows after it, is raising them by `r` and those rows. */
  lemma RaiseThen(w: seq<nat>, r: Row, before: seq<Row>, all: seq<Row>, final: seq<nat>)
    requires |before| + 1 <= |all| && all[..|before| + 1] == before + [r] && |final| == |w|
    requires forall i :: 0 <= i < |w| ==> final[i] == LongestInColumn(Raise(w, r)[i], all[|before| + 1..], i)
    ensures forall i :: 0 <= i < |w| ==> final[i] == LongestInColumn(w[i], all[|before|..], i)
  {
    var rest := all[|before|..];
    assert rest[0] == all[..|before| + 1][|before|] == r;
    assert rest[1..] == all[|before| + 1..];
  }

  /**
   * Adding rows one by one keeps one width per old width, and leaves each
   * width the longest of its old value and the cells added below it, whether
   * all rows are added or the loop stops at a rejected one.
   */
  lemma {:induction false} AddRowsWidths(t: Table, rows: seq<seq<Option<Cell>>>, start: nat)
    ensures var u := AddRows(t, rows, start).table;
      && |u.maxWidth| == |t.maxWidth|
      && |t.rows| <= |u.rows| && u.rows[..|t.rows|] == t.rows
      && forall i :: 0 <= i < |t.maxWidth| ==> u.maxWidth[i] == LongestInColumn(t.maxWidth[i], u.rows[|t.rows|..], i)
    decreases |rows|
  {
    if rows != [] {
      var s := AddRow(t, rows[0]);
      AddRowRows(t, rows[0]);
      if s.error.None? {
        AddRowsWidths(s.table, rows[1..], start + 1);
        var u := AddRows(s.table, rows[1..], start + 1).table;
        assert u.rows[..|t.rows|] == u.rows[..|s.table.rows|][..|t.rows|];
        RaiseThen(t.maxWidth, NormalizeRow(rows[0]), t.rows, u.rows, u.maxWidth);
      }
    }
  }

  /**
   * Rows added after `fieldNames`: every width, the old ones and the appended
   * header lengths alike, is raised to the longest cell at its own position.
   */
  lemma HeaderThenRows(t: Table, h: Table, rows: seq<seq<Option<Cell>>>, start: nat)
    requires h.maxWidth == t.maxWidth + Lengths(h.columnNames) && h.rows == t.rows
    ensures var u := AddRows(h, rows, start).table;
      && |u.maxWidth| == |t.maxWidth| + |h.columnNames| && u.columnNames == h.columnNames
      && |t.rows| <= |u.rows|
      && (forall i :: 0 <= i < |t.maxWidth| ==> u.maxWidth[i] == LongestInColumn(t.maxWidth[i], u.rows[|t.rows|..], i))
      && (forall i :: 0 <= i < |h.columnNames| ==>
            u.maxWidth[|t.maxWidth| + i] == LongestInColumn(|h.columnNames[i]|, u.rows[|t.rows|..], |t.maxWidth| + i))
  {
    AddRowsWidths(h, rows, start);
    AddRowsKeepsColumns(h, rows, start);
    var u := AddRows(h, rows, start).table;
    forall i | 0 <= i < |t.maxWidth|
      ensures u.maxWidth[i] == LongestInColumn(t.maxWidth[i], u.rows[|t.rows|..], i)
    {
      assert h.maxWidth[i] == t.maxWidth[i];
    }
    forall i | 0 <= i < |h.columnNames|
      ensures u.maxWidth[|t.maxWidth| + i] == LongestInColumn(|h.columnNames[i]|, u.rows[|t.rows|..], |t.maxWidth| + i)
    {
      assert h.maxWidth[|t.maxWidth| + i] == Lengths(h.columnNames)[i];
    }
  }

  /**
   * After `create`, each old width is the longest of itself and the added
   * cells at its position. Header `i`'s length sits at position
   * `|t.maxWidth| + i` and is raised by the cells at that position (so stale
   * widths in front shift it off its column). From a table without columns
   * each width is the longest of its header and the cells below it.
   */
  lemma CreateWidths(t: Table, headers: seq<Option<string>>, rows: seq<seq<Option<Cell>>>)
    ensures FieldNames(t, headers).error.None? ==>
      var u := Create(t, headers, rows).table;
      && |u.maxWidth| == |t.maxWidth| + |headers| && |u.columnNames| == |headers|
      && |t.rows| <= |u.rows|
      && (forall i :: 0 <= i < |t.maxWidth| ==> u.maxWidth[i] == LongestInColumn(t.maxWidth[i], u.rows[|t.rows|..], i))
      && (forall i :: 0 <= i < |headers| ==>
            u.maxWidth[|t.maxWidth| + i] == LongestInColumn(|u.columnNames[i]|, u.rows[|t.rows|..], |t.maxWidth| + i))
    ensures Wf(t) && t.columnNames == [] && FieldNames(t, headers).error.None? ==>
      var u := Create(t, headers, rows).table;
      |u.maxWidth| == |u.columnNames| && forall i :: 0 <= i < |headers| ==> u.maxWidth[i] == LongestInColumn(|u.columnNames[i]|, u.rows, i)
  {
    var h := FieldNames(t, headers);
    if h.error.None? {
      HeaderThenRows(t, h.table, rows, 0);
      var u := Create(t, headers, rows).table;
      assert u == AddRows(h.table, rows, 0).table;
      if Wf(t) && t.columnNames == [] {
        assert u.rows[|t.rows|..] == u.rows;
      }
    }
  }

  /**
   * After `csv`'s loop, the widths are as after `create` with the header
   * record as the headers: from a table without columns, each width is the
   * longest of its header and the cells of the records added below it.
   */
  lemma CsvWidths(t: Table, records: seq<seq<string>>)
    ensures records != [] && records[0] != [] ==>
      var u := Csv(t, records).table;
      && |u.maxWidth| == |t.maxWidth| + |records[0]|
      && |t.rows| <= |u.rows|
      && (forall i :: 0 <= i < |t.maxWidth| ==> u.maxWidth[i] == LongestInColumn(t.maxWidth[i], u.rows[|t.rows|..], i))
      && (forall i :: 0 <= i < |records[0]| ==>
            u.maxWidth[|t.maxWidth| + i] == LongestInColumn(|records[0][i]|, u.rows[|t.rows|..], |t.maxWidth| + i))
    ensures records != [] && records[0] != [] && Wf(t) && t.columnNames == [] ==>
      var u := Csv(t, records).table;
      |u.maxWidth| == |records[0]| && forall i :: 0 <= i < |records[0]| ==> u.maxWidth[i] == LongestInColumn(|records[0][i]|, u.rows, i)
  {
    if records != [] && records[0] != [] {
      CsvHeader(t, records);
      var h := FieldNames(t, Named(records[0]));
      PresentNamed(records[0]);
      HeaderThenRows(t, h.table, TextRecords(records)[1..], 1);
      var u := Csv(t, records).table;
      assert u == AddRows(h.table, TextRecords(records)[1..], 1).table;
      if Wf(t) && t.columnNames == [] {
        assert u.rows[|t.rows|..] == u.rows;
      }
    }
  }

  /** The columns and widths one keyed object of `json`'s loop sets up before its row is added. */
  lemma JsonItemHead(t: Table, item: Item)
    requires |item| > 0
    ensures var h := if |t.columnNames| == 0 then FieldNames(t, Named(Keys(item))) else Step(t, None);
      && h.error.None? && h.table.rows == t.rows && h.table.columnNames != []
      && h.table.maxWidth == t.maxWidth + (if t.columnNames == [] then Lengths(Keys(item)) else [])
  {
    PresentNamed(Keys(item));
  }

  /** The widths `json`'s loop starts from: the first object's key lengths are appended when the table has no columns. */
  function JsonHeadWidths(t: Table, items: seq<Item>): seq<nat>
  {
    t.maxWidth + (if t.columnNames == [] && items != [] then Lengths(Keys(items[0])) else [])
  }

  /**
   * The widths `json`'s loop leaves: each width it starts from is raised to
   * the longest of the cells added below it, whether every object is added or
   * the loop stops at a bad one.
   */
  lemma {:induction false} JsonItemsWidths(t: Table, items: seq<Item>, index: nat)
    ensures var u := JsonItems(t, items, index).table;
      var w := if items != [] && |items[0]| == 0 then t.maxWidth else JsonHeadWidths(t, items);
      && |u.maxWidth| == |w|
      && |t.rows| <= |u.rows| && u.rows[..|t.rows|] == t.rows
      && forall i :: 0 <= i < |w| ==> u.maxWidth[i] == LongestInColumn(w[i], u.rows[|t.rows|..], i)
    decreases |items|
  {
    if items != [] && |items[0]| > 0 {
      var item := items[0];
      JsonItemHead(t, item);
      var h := if |t.columnNames| == 0 then FieldNames(t, Named(Keys(item))) else Step(t, None);
      var s := AddRow(h.table, Values(item));
      AddRowRows(h.table, Values(item));
      if s.error.None? {
        var rest := items[1..];
        JsonItemsWidths(s.table, rest, index + 1);
        var u := JsonItems(s.table, rest, index + 1).table;
        assert JsonItems(t, items, index).table == u;
        assert u.rows[..|t.rows|] == u.rows[..|s.table.rows|][..|t.rows|];
        assert rest != [] && |rest[0]| == 0 ==> u == s.table;
        RaiseThen(h.table.maxWidth, NormalizeRow(Values(item)), t.rows, u.rows, u.maxWidth);
      } else {
        assert s.table.rows[|t.rows|..] == [];
      }
    }
  }

  /**
   * From a table without columns, `json` leaves one width per key of the
   * first object, the longest of the key and the cells below it; on a table
   * with columns each width is raised to the longest cell added below it.
   */
  lemma JsonWidths(t: Table, items: seq<Item>)
    ensures items != [] && Wf(t) && t.columnNames == [] ==>
      var u := Json(t, items).table;
      |u.maxWidth| == |items[0]| && forall i :: 0 <= i < |items[0]| ==> u.maxWidth[i] == LongestInColumn(|items[0][i].0|, u.rows, i)
    ensures items != [] && t.columnNames != [] ==>
      var u := Json(t, items).table;
      && |u.maxWidth| == |t.maxWidth| && |t.rows| <= |u.rows|
      && forall i :: 0 <= i < |t.maxWidth| ==> u.maxWidth[i] == LongestInColumn(t.maxWidth[i], u.rows[|t.rows|..], i)
  {
    if items != [] {
      JsonItemsWidths(t, items, 0);
      if Wf(t) && t.columnNames == [] {
        var u := Json(t, items).table;
        assert u.rows[|t.rows|..] == u.rows;
      }
    }
  }

  // ---------------------------------------------------------------- messages

  /** The messages `fieldNames` throws for an empty list and for a leading null name. */
  lemma FieldNamesMessages()
    ensures var s := FieldNames(Empty, []);
      s.error.Some? && Message(s.error.value) == "Column names array cannot be empty"
    ensures var s := FieldNames(Empty, [None, Some("valid")]);
      s.error.Some? && Message(s.error.value) == "Column name at index " + "0" + " is null or undefined"
  {
    assert FirstNull([None, Some("valid")]) == 0;
    assert IntToString(0) == "0";
  }

  /** A table with columns name, age and city and the single row john, 22, new york. */
  function PeopleTable(): Table
  {
    Table(["name", "age", "city"], [[Text("john"), Num(22), Text("new york")]], [4, 3, 8])
  }

  /** `PeopleTable` is what `fieldNames(["name", "age", "city"])` and `addRow(["john", 22, "new york"])` build. */
  lemma PeopleTableBuilt()
    ensures var h := FieldNames(Empty, [Some("name"), Some("age"), Some("city")]);
      h.error.None? && AddRow(h.table, [Some(Text("john")), Some(Num(22)), Some(Text("new york"))]) == Step(PeopleTable(), None)
  {
    var names := [Some("name"), Some("age"), Some("city")];
    assert FirstNull(names[1..][1..][1..]) == 0;
    assert FirstNull(names) == 3;
    assert Present(names) == ["name", "age", "city"];
    var h := Table(["name", "age", "city"], [], [4, 3, 4]);
    assert FieldNames(Empty, names) == Step(h, None);
    var r := [Text("john"), Num(22), Text("new york")];
    assert NormalizeRow([Some(Text("john")), Some(Num(22)), Some(Text("new york"))]) == r;
    assert NatToString(22) == NatToString(2) + [DigitChar(2)];
    assert Width(r[0]) == 4 && Width(r[1]) == 2 && Width(r[2]) == 8;
    assert Raise([4, 3, 4], r) == [4, 3, 8];
  }

  /** The message of a two-cell row on a three-column table. */
  lemma RowLengthMessage()
    ensures var s := AddRow(PeopleTable(), [Some(Text("john")), Some(Num(22))]);
      s.error.Some? && Message(s.error.value) == "Row length (" + "2" + ") does not match number of columns (" + "3" + ")"
  {
    assert AddRow(PeopleTable(), [Some(Text("john")), Some(Num(22))]).error == Some(RowLengthMismatch(2, 3));
    assert IntToString(2) == "2" && IntToString(3) == "3";
  }

  /** The messages of `deleteRow(0)` and `deleteRow(2)` on a table with one row. */
  lemma DeleteRowMessages()
    ensures var s := DeleteRow(PeopleTable(), 0);
      s.error.Some? && Message(s.error.value) == "Row number must be greater than 0"
    ensures var s := DeleteRow(PeopleTable(), 2);
      s.error.Some? && Message(s.error.value) == "Row number " + "2" + " out of range, table has " + "1" + " rows"
  {
    assert DeleteRow(PeopleTable(), 2).error == Some(RowNumberOutOfRange(2, 1));
    assert IntToString(1) == "1" && IntToString(2) == "2";
  }

  /** The message of sorting by a name that is not a column. */
  lemma SortMessage()
    ensures var s := SortTable(PeopleTable(), "non-existent", None);
      s.error.Some? && Message(s.error.value) == "Column \"" + "non-existent" + "\" not found in table"
  {
    assert IndexOf(["name", "age", "city"], "non-existent").None?;
    assert SortTable(PeopleTable(), "non-existent", None).error == Some(ColumnNotFound("non-existent"));
  }

  /** The message of clearing a table without columns. */
  lemma ClearMessage()
    ensures var s := ClearTable(Empty);
      s.error.Some? && Message(s.error.value) == "Cannot clear table with no columns defined"
  {
    assert ClearTable(Empty).error == Some(ClearWithoutColumns);
  }

  // ---------------------------------------------------------------- sequences of operations

  /** Every public mutation of a PrettyTable, with its arguments. */
  datatype Op =
    | FieldNamesOp(names: seq<Option<string>>)
    | AddRowOp(row: seq<Option<Cell>>)
    | CreateOp(headers: seq<Option<string>>, rows: seq<seq<Option<Cell>>>)
    | CsvOp(records: seq<seq<string>>)
    | JsonOp(items: seq<Item>)
    | SortTableOp(colname: string, reverse: Option<bool>)
    | DeleteRowOp(n: int)
    | ClearTableOp
    | DeleteTableOp

  function Apply(t: Table, op: Op): Step
  {
    match op
    case FieldNamesOp(names) => FieldNames(t, names)
    case AddRowOp(row) => AddRow(t, row)
    case CreateOp(headers, rows) => Create(t, headers, rows)
    case CsvOp(records) => Csv(t, records)
    case JsonOp(items) => Json(t, items)
    case SortTableOp(colname, reverse) => SortTable(t, colname, reverse)
    case DeleteRowOp(n) => DeleteRow(t, n)
    case ClearTableOp => ClearTable(t)
    case DeleteTableOp => Step(DeleteTable(t), None)
  }

  /** The state after the operations, each applied whether or not the one before it threw. */
  function Run(t: Table, ops: seq<Op>): Table
    decreases |ops|
  {
    if ops == [] then t else Run(Apply(t, ops[0]).table, ops[1..])
  }

  /** The operations that call `fieldNames` unconditionally. */
  predicate Redefines(op: Op)
  {
    op.FieldNamesOp? || op.CreateOp? || op.CsvOp?
  }

  /** Every operation that calls `fieldNames` unconditionally finds the table without columns. */
  ghost predicate Disciplined(t: Table, ops: seq<Op>)
    decreases |ops|
  {
    ops == [] || ((Redefines(ops[0]) ==> t.columnNames == []) && Disciplined(Apply(t, ops[0]).table, ops[1..]))
  }

  lemma RaiseGrows(w: seq<nat>, r: Row)
    ensures |Raise(w, r)| == |w|
    ensures forall i :: 0 <= i < |w| ==> w[i] <= Raise(w, r)[i]
    ensures forall i :: 0 <= i < |w| && i < |r| ==> Width(r[i]) <= Raise(w, r)[i]
  {
  }

  /** `maxWidth` keeps (and may extend) every earlier entry, each no smaller than before. */
  ghost predicate Grown(w: seq<nat>, w': seq<nat>)
  {
    |w| <= |w'| && forall i :: 0 <= i < |w| ==> w[i] <= w'[i]
  }

  lemma AddRowKeeps(t: Table, row: seq<Option<Cell>>)
    ensures var u := AddRow(t, row).table;
      Grown(t.maxWidth, u.maxWidth) && (Wf(t) ==> Wf(u)) && (Shaped(t) ==> Shaped(u))
  {
    var s := AddRow(t, row);
    if s.error.None? {
      var r := NormalizeRow(row);
      var u := s.table;
      RaiseGrows(t.maxWidth, r);
      if Shaped(t) {
        forall x | x in u.rows ensures Fits(x, u.maxWidth) {
          if x in t.rows {
            assert Fits(x, t.maxWidth);
          } else {
            assert x == r;
          }
        }
      }
    }
  }

  lemma {:induction false} AddRowsKeeps(t: Table, rows: seq<seq<Option<Cell>>>, start: nat)
    ensures var u := AddRows(t, rows, start).table;
      Grown(t.maxWidth, u.maxWidth) && (Wf(t) ==> Wf(u)) && (Shaped(t) ==> Shaped(u))
    decreases |rows|
  {
    if rows != [] {
      var s := AddRow(t, rows[0]);
      AddRowKeeps(t, rows[0]);
      if s.error.None? {
        AddRowsKeeps(s.table, rows[1..], start + 1);
      }
    }
  }

  lemma FieldNamesKeeps(t: Table, names: seq<Option<string>>)
    ensures var u := FieldNames(t, names).table;
      Grown(t.maxWidth, u.maxWidth) && (Wf(t) ==> Wf(u)) && (Shaped(t) && t.columnNames == [] ==> Shaped(u))
  {
  }

  lemma {:induction false} JsonItemsKeeps(t: Table, items: seq<Item>, index: nat)
    ensures var u := JsonItems(t, items, index).table;
      Grown(t.maxWidth, u.maxWidth) && (Wf(t) ==> Wf(u)) && (Shaped(t) ==> Shaped(u))
    decreases |items|
  {
    if items != [] && |items[0]| > 0 {
      var item := items[0];
      var h := if |t.columnNames| == 0 then FieldNames(t, Named(Keys(item))) else Step(t, None);
      FieldNamesKeeps(t, Named(Keys(item)));
      AddRowKeeps(h.table, Values(item));
      var s := AddRow(h.table, Values(item));
      if h.error.None? && s.error.None? {
        JsonItemsKeeps(s.table, items[1..], index + 1);
      }
    }
  }

  lemma SortKeepsRows(t: Table, colname: string, reverse: Option<bool>)
    ensures var u := SortTable(t, colname, reverse).table;
      u.columnNames == t.columnNames && u.maxWidth == t.maxWidth && forall r :: r in u.rows <==> r in t.rows
  {
    SortTableOutcome(t, colname, reverse);
    var u := SortTable(t, colname, reverse).table;
    forall r ensures r in u.rows <==> r in t.rows {
      assert r in u.rows <==> r in multiset(u.rows);
      assert r in t.rows <==> r in multiset(t.rows);
    }
  }

  lemma CreateKeeps(t: Table, headers: seq<Option<string>>, rows: seq<seq<Option<Cell>>>)
    ensures var u := Create(t, headers, rows).table;
      Grown(t.maxWidth, u.maxWidth) && (Wf(t) ==> Wf(u)) && (Shaped(t) && t.columnNames == [] ==> Shaped(u))
  {
    FieldNamesKeeps(t, headers);
    AddRowsKeeps(FieldNames(t, headers).table, rows, 0);
  }

  lemma CsvKeeps(t: Table, records: seq<seq<string>>)
    ensures var u := Csv(t, records).table;
      Grown(t.maxWidth, u.maxWidth) && (Wf(t) ==> Wf(u)) && (Shaped(t) && t.columnNames == [] ==> Shaped(u))
  {
    if records != [] {
      FieldNamesKeeps(t, Named(records[0]));
      AddRowsKeeps(FieldNames(t, Named(records[0])).table, TextRecords(records)[1..], 1);
    }
  }

  lemma SortKeeps(t: Table, colname: string, reverse: Option<bool>)
    ensures var u := SortTable(t, colname, reverse).table;
      Grown(t.maxWidth, u.maxWidth) && (Wf(t) ==> Wf(u)) && (Shaped(t) ==> Shaped(u))
  {
    SortKeepsRows(t, colname, reverse);
  }

  lemma DeleteRowKeeps(t: Table, n: int)
    ensures var u := DeleteRow(t, n).table;
      Grown(t.maxWidth, u.maxWidth) && (Wf(t) ==> Wf(u)) && (Shaped(t) ==> Shaped(u))
  {
    var u := DeleteRow(t, n).table;
    assert forall r :: r in u.rows ==> r in t.rows;
  }

  /**
   * One operation, successful or not: `maxWidth` never loses an entry or
   * shrinks one (except by `deleteTable`); the reachable-state invariant is
   * kept; and the shape invariant is kept, provided an operation that calls
   * `fieldNames` unconditionally finds no columns.
   */
  lemma ApplyKeeps(t: Table, op: Op)
    ensures !op.DeleteTableOp? ==> Grown(t.maxWidth, Apply(t, op).table.maxWidth)
    ensures Wf(t) ==> Wf(Apply(t, op).table)
    ensures Shaped(t) && (Redefines(op) ==> t.columnNames == []) ==> Shaped(Apply(t, op).table)
  {
    match op
    case FieldNamesOp(names) => FieldNamesKeeps(t, names);
    case AddRowOp(row) => AddRowKeeps(t, row);
    case CreateOp(headers, rows) => CreateKeeps(t, headers, rows);
    case CsvOp(records) => CsvKeeps(t, records);
    case JsonOp(items) => JsonItemsKeeps(t, items, 0);
    case SortTableOp(colname, reverse) => SortKeeps(t, colname, reverse);
    case DeleteRowOp(n) => DeleteRowKeeps(t, n);
    case ClearTableOp =>
    case DeleteTableOp =>
  }

  /**
   * The shape invariant over any sequence of operations from the empty table
   * (or any shaped one) in which `fieldNames`, `create` and `csv` only run on a
   * table without columns: every row has one cell per column, there is one
   * width per column, and each width bounds its header and every cell below it.
   */
  lemma {:induction false} RunKeepsShape(t: Table, ops: seq<Op>)
    requires Shaped(t) && Disciplined(t, ops)
    ensures Shaped(Run(t, ops))
    decreases |ops|
  {
    if ops != [] {
      ApplyKeeps(t, ops[0]);
      RunKeepsShape(Apply(t, ops[0]).table, ops[1..]);
    }
  }

  /** Every state reachable from the empty table by any operations is well-formed. */
  lemma {:induction false} RunKeepsWf(t: Table, ops: seq<Op>)
    requires Wf(t)
    ensures Wf(Run(t, ops))
    decreases |ops|
  {
    if ops != [] {
      ApplyKeeps(t, ops[0]);
      RunKeepsWf(Apply(t, ops[0]).table, ops[1..]);
    }
  }

  lemma EmptyIsShaped()
    ensures Shaped(Empty) && Wf(Empty)
  {
  }
}
