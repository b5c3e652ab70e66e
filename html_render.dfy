/**
 * The one-line HTML rendering of a table (`html`): pure functions that say
 * what the markup is, and the lemmas relating it to the table operations.
 */
module HtmlRender {
  import opened Wrappers
  import opened Cells
  import opened Model

  /** One attribute, `key='value'`; neither part is escaped. */
  function Attribute(a: (string, string)): string
  {
    a.0 + "='" + a.1 + "'"
  }

  /** `Array.prototype.join(sep)`: the parts with `sep` between neighbours. */
  function Join(parts: seq<string>, sep: string): string
    decreases |parts|
  {
    if parts == [] then ""
    else if |parts| == 1 then parts[0]
    else Join(parts[..|parts| - 1], sep) + sep + parts[|parts| - 1]
  }

  /** The attributes' texts, in the order of the object's keys. */
  function AttributeList(attrs: seq<(string, string)>): (l: seq<string>)
    ensures |l| == |attrs| && forall i :: 0 <= i < |attrs| ==> l[i] == Attribute(attrs[i])
  {
    seq(|attrs|, i requires 0 <= i < |attrs| => Attribute(attrs[i]))
  }

  /** The opening tag: plain without attributes, otherwise a space and the joined attributes. */
  function OpenTag(attributes: Option<seq<(string, string)>>): string
  {
    match attributes
    case None => "<table>"
    case Some(attrs) => "<table " + Join(AttributeList(attrs), " ") + ">"
  }

  function Th(name: string): string
  {
    "<th>" + name + "</th>"
  }

  /** A cell's markup: its text, as JavaScript's template string converts it. */
  function Td(c: Cell): string
  {
    "<td>" + Str(c) + "</td>"
  }

  /** One `<th>` per column name. */
  function HeadCells(names: seq<string>): string
    decreases |names|
  {
    if names == [] then "" else HeadCells(names[..|names| - 1]) + Th(names[|names| - 1])
  }

  /** One `<td>` per cell. */
  function DataCells(r: Row): string
    decreases |r|
  {
    if r == [] then "" else DataCells(r[..|r| - 1]) + Td(r[|r| - 1])
  }

  lemma HeadCellsStep(start: string, names: seq<string>, i: nat)
    requires i < |names|
    ensures start + HeadCells(names[..i]) + Th(names[i]) == start + HeadCells(names[..i + 1])
  {
    assert names[..i + 1][..i] == names[..i];
  }

  lemma DataCellsStep(start: string, r: Row, k: nat)
    requires k < |r|
    ensures start + DataCells(r[..k]) + Td(r[k]) == start + DataCells(r[..k + 1])
  {
    assert r[..k + 1][..k] == r[..k];
  }

  function RowHtml(r: Row): string
  {
    "<tr>" + DataCells(r) + "</tr>"
  }

  /** One `<tr>` per row. */
  function RowsHtml(rows: seq<Row>): string
    decreases |rows|
  {
    if rows == [] then "" else RowsHtml(rows[..|rows| - 1]) + RowHtml(rows[|rows| - 1])
  }

  /** The closing tags, 16 characters. */
  const Closing: string := "</tbody></table>"

  function Head(names: seq<string>): string
  {
    "<thead><tr>" + HeadCells(names) + "</tr></thead>"
  }

  /** What `html` returns, or the error it throws for a table without columns. */
  function Html(t: Table, attributes: Option<seq<(string, string)>>): Result<string, Error>
  {
    if t.columnNames == [] then Failure(HtmlWithoutColumns)
    else Success(OpenTag(attributes) + Head(t.columnNames) + "<tbody>" + RowsHtml(t.rows) + Closing)
  }

  // ---------------------------------------------------------------- laws

  lemma SplitClosing(pre: string)
    ensures var h := pre + Closing;
      |h| >= |Closing| && h[|h| - |Closing|..] == Closing && h[..|h| - |Closing|] == pre
  {
  }

  lemma Regroup(a: string, b: string, c: string, d: string)
    ensures a + (b + c) + d == (a + b) + c + d
  {
  }

  /** The body's closing tag followed by the table's is `Closing`. */
  lemma Closes(start: string, body: string)
    ensures start + ("<tbody>" + body + "</tbody>") + "</table>" == start + "<tbody>" + body + Closing
  {
  }

  /** One more row's markup extends the body built so far. */
  lemma BodyStep(start: string, rows: seq<Row>, i: nat)
    requires i < |rows|
    ensures start + RowsHtml(rows[..i]) + RowHtml(rows[i]) == start + RowsHtml(rows[..i + 1])
  {
    assert rows[..i + 1] == rows[..i] + [rows[i]];
    RowsHtmlAppend(rows[..i], rows[i]);
  }

  lemma RowsHtmlAppend(rows: seq<Row>, r: Row)
    ensures RowsHtml(rows + [r]) == RowsHtml(rows) + RowHtml(r)
  {
    assert (rows + [r])[..|rows|] == rows;
  }

  /**
   * Adding a row to a table with columns inserts exactly that row's markup,
   * with missing cells as empty `<td></td>`, just before the closing tags,
   * and changes nothing else; a rejected row leaves the markup as it was.
   */
  lemma HtmlAfterAddRow(t: Table, row: seq<Option<Cell>>, attributes: Option<seq<(string, string)>>)
    requires t.columnNames != []
    ensures var h := Html(t, attributes);
      var s := AddRow(t, row);
      && h.Success? && |h.value| >= |Closing| && h.value[|h.value| - |Closing|..] == Closing
      && (s.error.None? ==>
            Html(s.table, attributes) == Success(h.value[..|h.value| - |Closing|] + RowHtml(NormalizeRow(row)) + Closing))
      && (s.error.Some? ==> Html(s.table, attributes) == h)
  {
    var s := AddRow(t, row);
    var start := OpenTag(attributes) + Head(t.columnNames) + "<tbody>";
    var pre := start + RowsHtml(t.rows);
    SplitClosing(pre);
    assert Html(t, attributes) == Success(pre + Closing);
    if s.error.None? {
      var r := NormalizeRow(row);
      RowsHtmlAppend(t.rows, r);
      assert s.table.rows == t.rows + [r];
      Regroup(start, RowsHtml(t.rows), RowHtml(r), Closing);
    }
  }

  /**
   * The markup depends on the columns and the rows only: `maxWidth`, and so
   * any padding, plays no part, and `clearTable` leaves an empty body.
   */
  lemma HtmlOfContents(t: Table, ws: seq<nat>, attributes: Option<seq<(string, string)>>)
    ensures Html(t.(maxWidth := ws), attributes) == Html(t, attributes)
    ensures t.columnNames != [] ==>
      Html(ClearTable(t).table, attributes) == Success(OpenTag(attributes) + Head(t.columnNames) + "<tbody>" + Closing)
  {
    var start := OpenTag(attributes) + Head(t.columnNames) + "<tbody>";
    assert start + RowsHtml([]) == start;
  }

  lemma JoinTwo(x: string, y: string, sep: string)
    ensures Join([x, y], sep) == x + sep + y
  {
    assert [x, y][..1] == [x];
  }

  lemma AttributeExample()
    ensures Attribute(("id", "my_table")) == "id='my_table'"
    ensures Attribute(("border", "1")) == "border='1'"
  {
  }

  /** The attributes come out in their order, separated by single spaces. */
  lemma OpenTagExample()
    ensures OpenTag(Some([("id", "my_table"), ("border", "1")])) == "<table id='my_table' border='1'>"
  {
    var attrs := [("id", "my_table"), ("border", "1")];
    var x, y := "id='my_table'", "border='1'";
    AttributeExample();
    assert AttributeList(attrs) == [x, y];
    JoinTwo(x, y, " ");
    OpenTagOf(attrs, x + " " + y);
  }

  lemma OpenTagOf(attrs: seq<(string, string)>, joined: string)
    requires Join(AttributeList(attrs), " ") == joined
    ensures OpenTag(Some(attrs)) == "<table " + joined + ">"
  {
  }

  /** Without attributes the tag is bare; an empty attributes object still leaves the space. */
  lemma OpenTagBare()
    ensures OpenTag(None) == "<table>"
    ensures OpenTag(Some([])) == "<table >"
  {
    assert Join(AttributeList([]), " ") == "";
  }

  /** A table without columns has no markup: `html` throws. */
  lemma HtmlWithoutColumnsFails(t: Table, attributes: Option<seq<(string, string)>>)
    ensures Html(t, attributes).Failure? <==> t.columnNames == []
    ensures t.columnNames == [] ==> Html(t, attributes).error == HtmlWithoutColumns
    ensures t.columnNames == [] ==>
      Message(Html(t, attributes).error) == "Cannot generate HTML for a table with no columns"
  {
  }
}
