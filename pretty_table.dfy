/**
 * The `PrettyTable` object: its three arrays as fields, each public method as
 * a method that updates them the way the JavaScript does, and each proved to
 * leave exactly the state (and throw exactly the error) that the pure
 * transition in `Model` describes. The renderers are read-only methods built
 * from the same loops as the source, proved equal to `TextRender.Grid` and
 * `HtmlRender.Html`.
 */
module Tables {
  import opened Wrappers
  import opened Cells
  import Model
  import Sorting
  import Laws
  import TextRender
  import HtmlRender

  class PrettyTable {
    var columnNames: seq<string>
    var rows: seq<Row>
    var maxWidth: seq<nat>

    /** The table as a value. */
    ghost function State(): Model.Table
      reads this
    {
      Model.Table(columnNames, rows, maxWidth)
    }

    /**
     * What every reachable state satisfies (see `Model.Wf`). Every method keeps
     * it, but none requires it, since the source checks nothing of the sort:
     * it records a fact about the states, and the rendering properties rest on
     * `Model.Shaped` (see `TextRender.GridAligned`).
     */
    ghost predicate Valid()
      reads this
    {
      Model.Wf(State())
    }

    constructor ()
      ensures State() == Model.Empty && Valid()
    {
      columnNames := [];
      rows := [];
      maxWidth := [];
    }

    /** `fieldNames(names)`: checks every name, then sets the columns and pushes their lengths. */
    method FieldNames(names: seq<Option<string>>) returns (error: Option<Model.Error>)
      modifies this
      ensures Model.Step(State(), error) == Model.FieldNames(old(State()), names)
      ensures old(Valid()) ==> Valid()
    {
      Laws.FieldNamesKeeps(State(), names);
      if |names| == 0 {
        return Some(Model.EmptyColumnNames);
      }
      var index := 0;
      while index < |names|
        invariant 0 <= index <= |names|
        invariant forall j :: 0 <= j < index ==> names[j].Some?
      {
        if names[index].None? {
          return Some(Model.NullColumnName(index));
        }
        index := index + 1;
      }
      columnNames := Model.Present(names);
      var i := 0;
      while i < |columnNames|
        invariant 0 <= i <= |columnNames|
        invariant columnNames == Model.Present(names) && rows == old(rows)
        invariant maxWidth == old(maxWidth) + Model.Lengths(columnNames[..i])
      {
        assert Model.Lengths(columnNames[..i + 1]) == Model.Lengths(columnNames[..i]) + [|columnNames[i]|];
        maxWidth := maxWidth + [|columnNames[i]|];
        i := i + 1;
      }
      assert columnNames[..i] == columnNames;
      return None;
    }

    /** `addRow(row)`: checks the arity, then stores the row with missing cells as "" and raises the widths. */
    method AddRow(row: seq<Option<Cell>>) returns (error: Option<Model.Error>)
      modifies this
      ensures Model.Step(State(), error) == Model.AddRow(old(State()), row)
      ensures old(Valid()) ==> Valid()
    {
      Laws.AddRowKeeps(State(), row);
      if |columnNames| == 0 {
        return Some(Model.NoColumns);
      }
      if |row| != |columnNames| {
        return Some(Model.RowLengthMismatch(|row|, |columnNames|));
      }
      ghost var normalized := Model.NormalizeRow(row);
      var stored: Row := [];
      var i := 0;
      while i < |row|
        invariant 0 <= i <= |row|
        invariant stored == normalized[..i]
        invariant maxWidth == Model.Raise(old(maxWidth), stored)
        invariant columnNames == old(columnNames) && rows == old(rows)
      {
        var cell := Normalize(row[i]);
        if i < |maxWidth| && Width(cell) > maxWidth[i] {
          maxWidth := maxWidth[i := Width(cell)];
        }
        stored := stored + [cell];
        assert stored == normalized[..i + 1];
        i := i + 1;
      }
      assert stored == normalized;
      rows := rows + [stored];
      return None;
    }

    /** `create(headers, newRows)`: `fieldNames`, then `addRow` per row, stopping at the first failure. */
    method Create(headers: seq<Option<string>>, newRows: seq<seq<Option<Cell>>>) returns (error: Option<Model.Error>)
      modifies this
      ensures Model.Step(State(), error) == Model.Create(old(State()), headers, newRows)
      ensures old(Valid()) ==> Valid()
    {
      error := FieldNames(headers);
      if error.Some? {
        return;
      }
      ghost var h := State();
      var index := 0;
      while index < |newRows|
        invariant 0 <= index <= |newRows|
        invariant Model.AddRows(State(), newRows[index..], index) == Model.AddRows(h, newRows, 0)
        invariant old(Valid()) ==> Valid()
      {
        assert newRows[index..][1..] == newRows[index + 1..];
        var e := AddRow(newRows[index]);
        if e.Some? {
          return Some(Model.RowFailed(index, e.value));
        }
        index := index + 1;
      }
      return None;
    }

    /** The loop of `csv(filename)` over the parsed records: the first sets the columns, the others are rows. */
    method Csv(records: seq<seq<string>>) returns (error: Option<Model.Error>)
      modifies this
      ensures Model.Step(State(), error) == Model.Csv(old(State()), records)
      ensures old(Valid()) ==> Valid()
    {
      if |records| == 0 {
        return Some(Model.CsvNoData);
      }
      ghost var rest := Model.TextRecords(records)[1..];
      ghost var h := Model.FieldNames(State(), Model.Named(records[0]));
      var lineCounter := 0;
      var index := 0;
      while index < |records|
        invariant 0 <= index <= |records| && lineCounter == index
        invariant index == 0 ==> State() == old(State())
        invariant index > 0 ==>
          h.error.None? && Model.AddRows(State(), rest[index - 1..], index) == Model.AddRows(h.table, rest, 1)
        invariant old(Valid()) ==> Valid()
      {
        if lineCounter == 0 {
          var e := FieldNames(Model.Named(records[index]));
          if e.Some? {
            return Some(Model.CsvHeaderFailed(e.value));
          }
        } else {
          assert rest[index - 1..][1..] == rest[index..];
          assert rest[index - 1] == Model.TextCells(records[index]);
          var e := AddRow(Model.TextCells(records[index]));
          if e.Some? {
            return Some(Model.CsvRowFailed(index + 1, e.value));
          }
        }
        lineCounter := lineCounter + 1;
        index := index + 1;
      }
      return None;
    }

    /** The loop of `json(filename)` over the parsed objects: each object's values become a row. */
    method Json(items: seq<Model.Item>) returns (error: Option<Model.Error>)
      modifies this
      ensures Model.Step(State(), error) == Model.Json(old(State()), items)
      ensures old(Valid()) ==> Valid()
    {
      Laws.JsonItemsKeeps(State(), items, 0);
      if |items| == 0 {
        return Some(Model.JsonEmptyArray);
      }
      var index := 0;
      while index < |items|
        invariant 0 <= index <= |items|
        invariant Model.JsonItems(State(), items[index..], index) == Model.JsonItems(old(State()), items, 0)
      {
        var item := items[index];
        assert items[index..][0] == item && items[index..][1..] == items[index + 1..];
        var rowKeys := Model.Keys(item);
        if |rowKeys| == 0 {
          return Some(Model.JsonNoProperties(index));
        }
        var rowVals := RowValues(item);
        if |columnNames| == 0 {
          var e := FieldNames(Model.Named(rowKeys));
          if e.Some? {
            return Some(Model.JsonHeaderFailed(e.value));
          }
        }
        var e := AddRow(rowVals);
        if e.Some? {
          return Some(Model.JsonRowFailed(index, e.value));
        }
        index := index + 1;
      }
      return None;
    }

    /** The inner loop of `json`: the value of each key, in the object's key order. */
    static method RowValues(item: Model.Item) returns (rowVals: seq<Option<Cell>>)
      ensures rowVals == Model.Values(item)
    {
      rowVals := [];
      var k := 0;
      while k < |item|
        invariant 0 <= k <= |item|
        invariant rowVals == Model.Values(item)[..k]
      {
        rowVals := rowVals + [item[k].1];
        assert rowVals == Model.Values(item)[..k + 1];
        k := k + 1;
      }
      assert rowVals == Model.Values(item);
    }

    /** `sortTable(colname, reverse)`: finds the column, then sorts the rows with the comparator. */
    method SortTable(colname: string, reverse: Option<bool>) returns (error: Option<Model.Error>)
      modifies this
      ensures Model.Step(State(), error) == Model.SortTable(old(State()), colname, reverse)
      ensures old(Valid()) ==> Valid()
    {
      Laws.ApplyKeeps(State(), Laws.SortTableOp(colname, reverse));
      if colname == "" {
        return Some(Model.EmptyColumnName);
      }
      var colindex := Model.IndexOf(columnNames, colname);
      if colindex.None? {
        return Some(Model.ColumnNotFound(colname));
      }
      if |rows| == 0 {
        return None;
      }
      rows := Sorting.Sort(rows, colindex.value, reverse);
      return None;
    }

    /** `deleteRow(rownum)`: removes the row at 1-based position `rownum`. */
    method DeleteRow(rownum: int) returns (error: Option<Model.Error>)
      modifies this
      ensures Model.Step(State(), error) == Model.DeleteRow(old(State()), rownum)
      ensures old(Valid()) ==> Valid()
    {
      Laws.ApplyKeeps(State(), Laws.DeleteRowOp(rownum));
      if rownum <= 0 {
        return Some(Model.RowNumberNotPositive);
      }
      if rownum > |rows| {
        return Some(Model.RowNumberOutOfRange(rownum, |rows|));
      }
      rows := rows[..rownum - 1] + rows[rownum..];
      return None;
    }

    /** `clearTable()`: drops the rows of a table that has columns. */
    method ClearTable() returns (error: Option<Model.Error>)
      modifies this
      ensures Model.Step(State(), error) == Model.ClearTable(old(State()))
      ensures old(Valid()) ==> Valid()
    {
      if |columnNames| == 0 {
        return Some(Model.ClearWithoutColumns);
      }
      rows := [];
      return None;
    }

    /** `deleteTable()`: back to the empty table. */
    method DeleteTable()
      modifies this
      ensures State() == Model.DeleteTable(old(State())) && Valid()
    {
      columnNames := [];
      rows := [];
      maxWidth := [];
    }

    /** `toString()`: the border, the padded header, the border, the padded rows and the border. */
    method ToString() returns (finalTable: string)
      ensures finalTable == TextRender.Grid(State())
    {
      finalTable := "";
      if |columnNames| == 0 {
        return;
      }
      var columnString := HeaderString();
      var line := TextRender.DrawLine(maxWidth);
      assert finalTable + line == line;
      finalTable := finalTable + line + "\n";
      finalTable := finalTable + columnString + "\n";
      line := TextRender.DrawLine(maxWidth);
      finalTable := finalTable + line + "\n";
      var rowString := BodyString();
      rowString := TextRender.DropLast(rowString);
      finalTable := finalTable + rowString + "\n";
      line := TextRender.DrawLine(maxWidth);
      finalTable := finalTable + line + "\n";
      TextRender.GridPieces(State(), line, columnString, rowString);
    }

    /** The header loop of `toString`: each name padded to its width and followed by " | ". */
    method HeaderString() returns (columnString: string)
      ensures columnString == TextRender.Line(columnNames, maxWidth)
    {
      columnString := "| ";
      var i := 0;
      while i < |columnNames|
        invariant 0 <= i <= |columnNames|
        invariant columnString == TextRender.Line(columnNames[..i], maxWidth)
      {
        var w := TextRender.WidthAt(maxWidth, i);
        var name := columnNames[i];
        if |name| < w {
          name := name + TextRender.Repeat(' ', w - |name|);
        }
        assert name == TextRender.Pad(columnNames[i], w);
        columnString := columnString + name + " | ";
        TextRender.LineStep(columnNames, maxWidth, i);
        i := i + 1;
      }
      assert columnNames[..i] == columnNames;
    }

    /** The body loop of `toString`, before its last newline is sliced off: one line per row. */
    method BodyString() returns (rowString: string)
      ensures rowString == TextRender.Unlines(TextRender.RowLines(rows, maxWidth))
    {
      rowString := "";
      var i := 0;
      while i < |rows|
        invariant 0 <= i <= |rows|
        invariant rowString == TextRender.Unlines(TextRender.RowLines(rows[..i], maxWidth))
      {
        var tempRowString := RowString(rows[i]);
        TextRender.RowLinesPrefix(rows, maxWidth, i);
        rowString := rowString + tempRowString + "\n";
        i := i + 1;
      }
      assert rows[..i] == rows;
    }

    /** The inner loop of `toString`'s body: one row's cells, each as text padded to its column's width. */
    method RowString(row: Row) returns (tempRowString: string)
      ensures tempRowString == TextRender.Line(TextRender.Strs(row), maxWidth)
    {
      tempRowString := "| ";
      var k := 0;
      while k < |row|
        invariant 0 <= k <= |row|
        invariant tempRowString == TextRender.Line(TextRender.Strs(row)[..k], maxWidth)
      {
        var w := TextRender.WidthAt(maxWidth, k);
        var cell := Str(row[k]);
        if |cell| < w {
          cell := cell + TextRender.Repeat(' ', w - |cell|);
        }
        assert cell == TextRender.Pad(TextRender.Strs(row)[k], w);
        tempRowString := tempRowString + cell + " | ";
        TextRender.LineStep(TextRender.Strs(row), maxWidth, k);
        k := k + 1;
      }
      assert TextRender.Strs(row)[..k] == TextRender.Strs(row);
    }

    /** `html(attributes)`: the opening tag, one header row, one `<tr>` per row, the closing tags. */
    method Html(attributes: Option<seq<(string, string)>>) returns (result: Result<string, Model.Error>)
      ensures result == HtmlRender.Html(State(), attributes)
    {
      if |columnNames| == 0 {
        return Failure(Model.HtmlWithoutColumns);
      }
      var htmlTable := OpenTagString(attributes);
      var tableHead := HeadString();
      htmlTable := htmlTable + tableHead;
      var tableBody := BodyHtml(rows);
      htmlTable := htmlTable + tableBody;
      htmlTable := htmlTable + "</table>";
      HtmlRender.Closes(HtmlRender.OpenTag(attributes) + HtmlRender.Head(columnNames), HtmlRender.RowsHtml(rows));
      return Success(htmlTable);
    }

    /** The opening tag of `html`: the attributes, if given, collected as `key='value'` and joined by spaces. */
    static method OpenTagString(attributes: Option<seq<(string, string)>>) returns (htmlTable: string)
      ensures htmlTable == HtmlRender.OpenTag(attributes)
    {
      match attributes {
        case None =>
          htmlTable := "<table>";
        case Some(attrs) =>
          var attributeList: seq<string> := [];
          var j := 0;
          while j < |attrs|
            invariant 0 <= j <= |attrs|
            invariant attributeList == HtmlRender.AttributeList(attrs)[..j]
          {
            attributeList := attributeList + [attrs[j].0 + "='" + attrs[j].1 + "'"];
            assert attributeList == HtmlRender.AttributeList(attrs)[..j + 1];
            j := j + 1;
          }
          assert attributeList == HtmlRender.AttributeList(attrs);
          var attributeString := HtmlRender.Join(attributeList, " ");
          htmlTable := "<table " + attributeString + ">";
      }
    }

    /** The header loop of `html`: one `<th>` per column. */
    method HeadString() returns (tableHead: string)
      ensures tableHead == HtmlRender.Head(columnNames)
    {
      tableHead := "<thead><tr>";
      var i := 0;
      while i < |columnNames|
        invariant 0 <= i <= |columnNames|
        invariant tableHead == "<thead><tr>" + HtmlRender.HeadCells(columnNames[..i])
      {
        var headerString := "<th>" + columnNames[i] + "</th>";
        HtmlRender.HeadCellsStep("<thead><tr>", columnNames, i);
        tableHead := tableHead + headerString;
        i := i + 1;
      }
      assert columnNames[..i] == columnNames;
      tableHead := tableHead + "</tr></thead>";
    }

    /** The body loop of `html`: one `<tr>` per row, inside `<tbody>`. */
    static method BodyHtml(tableRows: seq<Row>) returns (tableBody: string)
      ensures tableBody == "<tbody>" + HtmlRender.RowsHtml(tableRows) + "</tbody>"
    {
      tableBody := "<tbody>";
      var i := 0;
      while i < |tableRows|
        invariant 0 <= i <= |tableRows|
        invariant tableBody == "<tbody>" + HtmlRender.RowsHtml(tableRows[..i])
      {
        var rowData := RowData(tableRows[i]);
        HtmlRender.BodyStep("<tbody>", tableRows, i);
        tableBody := tableBody + rowData;
        i := i + 1;
      }
      assert tableRows[..i] == tableRows;
      tableBody := tableBody + "</tbody>";
    }

    /** The inner loop of `html`'s body: one `<td>` per cell. */
    static method RowData(row: Row) returns (rowData: string)
      ensures rowData == HtmlRender.RowHtml(row)
    {
      rowData := "<tr>";
      var k := 0;
      while k < |row|
        invariant 0 <= k <= |row|
        invariant rowData == "<tr>" + HtmlRender.DataCells(row[..k])
      {
        var cellData := "<td>" + Str(row[k]) + "</td>";
        HtmlRender.DataCellsStep("<tr>", row, k);
        rowData := rowData + cellData;
        k := k + 1;
      }
      assert row[..k] == row;
      rowData := rowData + "</tr>";
    }
  }
}
