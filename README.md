# PrettyTable in Dafny

A model of prettytable.js, a small JavaScript library that builds an ASCII
table (or an HTML table) from column names and rows. A `PrettyTable` holds
three arrays:

- `columnNames`;
- `rows`;
- `maxWidth`, one cached width per column.

The public methods of `PrettyTable` are these:

- `fieldNames`, `addRow` and `create` define the columns and add rows.
- The loops of `csv` and `json` load records that have already been parsed.
- `sortTable`, `deleteRow`, `clearTable` and `deleteTable` change the rows or reset the table.
- `toString` (with its `drawLine` helper) and `html` render the table.

The project is organised as follows:

- `wrappers.dfy` (`Wrappers`): `Option` and `Result`.
- `cells.dfy` (`Cells`): a cell is a string or an integral number. The module holds its
  string form (JavaScript's `toString` for safe integers, of magnitude at most 2^53 - 1), with a round-trip
  lemma, and an order standing in for JavaScript's `<` on cells, proved to be a strict
  total order (see "## Left out" for where it differs).
- `sorting.dfy` (`Sorting`): the comparator of `sortTable`, and a stable insertion
  sort as the specification of `Array.prototype.sort`. Lemmas prove that the sort
  permutes the rows, orders them by the column in the chosen direction, and keeps
  rows with equal keys in their relative order.
- `model.dfy` (`Model`): the table as a value, the errors the methods throw (each
  with its message), and one pure transition per method. A transition returns the
  new state and the error thrown, if any. The module also holds two invariants:
  `Wf`, which holds in every reachable state, and `Shaped`, the column-alignment
  invariant.
- `laws.dfy` (`Laws`): what each transition does, covering both the error cases
  and the new state, and the invariants that any sequence of operations keeps.
- `text_render.dfy` (`TextRender`): the text `toString` returns, as functions. It
  includes the `drawLine` loop, the layout lemmas (line structure, and "every `|`
  sits under a `+`" on a shaped table) and a worked example.
- `html_render.dfy` (`HtmlRender`): the markup `html` returns, with lemmas about
  how `addRow` and `clearTable` change it.
- `pretty_table.dfy` (`Tables`): `class PrettyTable`. It has the three arrays as
  fields and one method per public method, with the source's loops.
  - Each mutating method is proved to produce exactly the state and the error
    that the `Model` transition gives, and to keep `Valid()`.
  - `ToString` and `Html` are proved equal to `TextRender.Grid` and `HtmlRender.Html`.

In three places the code does something other than what a reader of the
documentation might expect. The model follows the code in each case:

- A second `fieldNames` call appends the new names' lengths to `maxWidth`; it
  does not reset the widths.
- `clearTable` leaves `maxWidth` as it was; it does not recompute the widths
  from the headers.
- `json` takes every object's values in that object's own key order; it does
  not use the first object's order.

## Model

| member | source | states |
|---|---|---|
| Tables.PrettyTable.constructor | prettytable.js:35-39 | a new table has no columns, no rows and no widths, and is valid |
| Laws.FieldNamesOutcome | prettytable.js:52-72 | `fieldNames` fails exactly on an empty list (an `Error`) or a null/undefined name (a `TypeError`); a non-empty list always fails with the first null name's index. On failure the table is unchanged. Otherwise the names become the columns, the rows stay, the old widths stay, and one width per name (its length) is appended. |
| Laws.FieldNamesAppendsWidths | prettytable.js:68-71 | after `fieldNames(["abc"])` and then `fieldNames(["a"])`, `maxWidth` is `[3, 1]`: the widths are appended to, not reset |
| Tables.PrettyTable.FieldNames | prettytable.js:52-72 | the null-check loop and the push loop leave exactly the state and error of `Model.FieldNames`, and keep `Valid()` |
| Laws.AddRowOutcome | prettytable.js:83-109 | `addRow` fails with "no columns" exactly when there are none, and with a length mismatch (both lengths reported) exactly when the lengths differ; it then changes nothing. Otherwise it appends the row, with null/undefined cells stored as "", and raises each width to that cell's string length. |
| Tables.PrettyTable.AddRow | prettytable.js:83-109 | the normalising loop leaves exactly the state and error of `Model.AddRow`, and keeps `Valid()` |
| Laws.AddRowsOutcome | prettytable.js:140-150 | adding rows one by one never changes the columns. It succeeds exactly when there are columns and every row's length matches; then all rows are appended, normalised. Otherwise the first rejected row is reported: its index (the first row when there are no columns), a length that differs from the column count when there are columns, and `addRow`'s error for it; the rows before it stay added. |
| Laws.CreateOutcome | prettytable.js:127-151 | `create` fails as `fieldNames` does, unchanged. Otherwise the headers become the columns, and the rows are added up to the first whose length differs from the header count; the error names that row's index and both lengths, and the earlier rows are kept. From a table without columns, each width is the longest of its header and the cells added below it (`Laws.CreateWidths`). |
| Tables.PrettyTable.Create | prettytable.js:127-151 | the row loop leaves exactly the state and error of `Model.Create`, and keeps `Valid()` |
| Laws.CsvOutcome | prettytable.js:341-370 | no records is an error. An empty header record fails as `fieldNames` does. Otherwise the header record becomes the columns and each later record a row of strings, up to the first record whose length differs from the header's; the error names that record's 1-based line and both lengths, and the earlier rows stay. From a table without columns, each width is the longest of its header and the cells added below it (`Laws.CsvWidths`). |
| Tables.PrettyTable.Csv | prettytable.js:341-370 | the `lineCounter` loop leaves exactly the state and error of `Model.Csv`, and keeps `Valid()` |
| Laws.JsonOutcome | prettytable.js:407-444 | an empty array is an error. It succeeds exactly when every object has keys, as many as there are columns (the first object's key count when there were none). The first object's keys become the columns if there were none, and each object becomes a row of its values. Otherwise the first bad object `k` is named: "no properties" when it has no keys, else a row failure with its key count and the column count; the rows of the objects before it stay. From a table without columns, each width is the longest of its key in the first object and the cells added below it (`Laws.JsonWidths`). |
| Laws.JsonOwnKeyOrder | prettytable.js:416-425 | two objects with keys a, b and b, a give the rows in each object's own key order; these rows are not aligned to the column names |
| Tables.PrettyTable.Json | prettytable.js:407-444 | the item loop leaves exactly the state and error of `Model.Json`, and keeps `Valid()` |
| Tables.PrettyTable.RowValues | prettytable.js:421-425 | the inner loop collects the object's values in its key order |
| Model.IndexOf | prettytable.js:466-470 | `indexOf` gives no index exactly when the name is not a column; otherwise it gives the first index that holds the name |
| Sorting.ComparatorConsistent | prettytable.js:477-495 | on rows that have the column, the comparator is antisymmetric and is 0 exactly on equal values. It is negative exactly when the first value is smaller, or larger when `reverse` is `true`. |
| Sorting.ComparatorTransitive | prettytable.js:477-495 | the comparator's "not after" relation is transitive |
| Cells.LessIsStrictTotalOrder | prettytable.js:479-489 | the order standing in for the `<` the comparator uses is irreflexive, transitive and total on cells |
| Sorting.SortSpec | prettytable.js:497 | the sort permutes the rows, orders them by the column (descending only for `reverse === true`), and keeps rows with equal values in order |
| Laws.SortTableOutcome | prettytable.js:460-498 | `sortTable` rejects an empty name (a `TypeError`), then an unknown one (an `Error`), and then changes nothing. Otherwise it succeeds; it only reorders the rows, and it leaves the table as it was when there are no rows. |
| Laws.SortTableOrders | prettytable.js:460-498 | when every row has the column (as on any shaped table, `Laws.ShapedHasColumn`), sorting by an existing name uses the first column with that name, orders the rows by it, and is stable |
| Tables.PrettyTable.SortTable | prettytable.js:460-498 | leaves exactly the state and error of `Model.SortTable`, and keeps `Valid()` |
| Laws.DeleteRowOutcome | prettytable.js:510-526 | `deleteRow(n)` rejects n <= 0, then n beyond the row count (reporting n and the count), and then changes nothing. Otherwise it removes exactly the row at n - 1, keeps the others in order, and changes neither the columns nor the widths. |
| Tables.PrettyTable.DeleteRow | prettytable.js:510-526 | leaves exactly the state and error of `Model.DeleteRow`, and keeps `Valid()` |
| Laws.ClearAndDeleteTableOutcome | prettytable.js:534-553 | `clearTable` fails without columns, unchanged; otherwise it empties the rows and keeps the columns and the widths. `deleteTable` always gives the empty table. |
| Tables.PrettyTable.ClearTable | prettytable.js:534-540 | leaves exactly the state and error of `Model.ClearTable`, and keeps `Valid()` |
| Tables.PrettyTable.DeleteTable | prettytable.js:547-553 | resets the three arrays to empty, and keeps `Valid()` |
| Laws.ApplyKeeps | prettytable.js:52-553 | each operation, whether it succeeds or throws, keeps every earlier width and never lowers one; `deleteTable` is the exception. Each keeps the reachable-state invariant, and keeps the shape invariant provided that `fieldNames`, `create` and `csv` find no columns. |
| Laws.RunKeepsShape | prettytable.js:52-553 | under that condition, the shape invariant holds after any sequence of operations: one width per column, one cell per column, and every width bounds its header and its cells |
| Laws.RunKeepsWf | prettytable.js:52-553 | every state reachable from the empty table is well-formed: without columns there are no rows and no widths, and the widths cover every column and every row |
| Laws.EmptyIsShaped | prettytable.js:35-39 | the initial table satisfies both invariants |
| TextRender.DrawLine | prettytable.js:172-178 | the loop builds `Border(maxWidth)`: "+", then w + 2 dashes and a "+" per width |
| TextRender.GridLines | prettytable.js:180-222 | without columns the text is "". Otherwise it is the border, the header, the border, one line per row (a single empty line when there are no rows) and the border, each ended by a newline. |
| TextRender.GridAligned | prettytable.js:186-214 | on a shaped table, the header and every row line are one character longer than the border, and have a "\|" under each "+" |
| TextRender.GridWithoutRows | prettytable.js:201-218 | with columns and no rows, the body is a single empty line |
| Laws.CreateExample | prettytable.js:127-151 | `create` with headers a, b and rows [1, 2], [33, 4] gives the widths [2, 1]: each width is the longest of its header and its cells |
| Laws.LongestInColumnIsMax | prettytable.js:99-107 | the width a column reaches as rows are added is the maximum of its starting width and the widths of the cells at its position: no smaller than either, and equal to one of them |
| Laws.AddRowsWidths | prettytable.js:99-107 | adding rows one by one, until the end or the first rejected row, keeps one width per old width and leaves each the longest of its old value and the cells added at its position |
| Laws.CreateWidths | prettytable.js:127-151 | after `create`, header i's width sits after the old widths and is raised by the added cells at that position; from a table without columns each width is the longest of its header and the cells below it |
| Laws.CsvWidths | prettytable.js:350-369 | the same for `csv`, with the header record as the headers and the later records as the cells |
| Laws.JsonWidths | prettytable.js:415-443 | from a table without columns, one width per key of the first object, the longest of the key and the cells added below it; on a table with columns, each width is the longest of itself and the cells added |
| Laws.FieldNamesMessages | test/tests.js:223-232 | `fieldNames([])` and `fieldNames([null, "valid"])` throw the messages the tests expect |
| Laws.PeopleTableBuilt | test/tests.js:288-289 | `fieldNames(["name", "age", "city"])` then `addRow(["john", 22, "new york"])` give the table the later message lemmas start from, with widths 4, 3 and 8 |
| Laws.RowLengthMessage | test/tests.js:239-244 | a two-cell row on a table with the columns name, age and city throws "Row length (2) does not match number of columns (3)" |
| Laws.DeleteRowMessages | test/tests.js:287-294 | `deleteRow(0)` and `deleteRow(2)` on one row throw "Row number must be greater than 0" and "Row number 2 out of range, table has 1 rows" |
| Laws.SortMessage | test/tests.js:359-365 | sorting by an unknown name throws `Column "non-existent" not found in table` |
| Laws.ClearMessage | test/tests.js:321-325 | clearing a table without columns throws "Cannot clear table with no columns defined" |
| TextRender.GridExample | prettytable.js:160-222 | the grid of that created table, line by line |
| Tables.PrettyTable.ToString | prettytable.js:160-222 | `toString` returns exactly `TextRender.Grid` of the state |
| Tables.PrettyTable.HeaderString | prettytable.js:186-195 | the header loop returns the padded header line |
| Tables.PrettyTable.BodyString | prettytable.js:201-214 | the row loop returns one padded line per row, each followed by a newline |
| Tables.PrettyTable.RowString | prettytable.js:202-212 | the cell loop returns the row's cells, each padded to its column's width and followed by " \| " |
| Tables.PrettyTable.Html | prettytable.js:257-310 | `html` returns exactly `HtmlRender.Html` of the state: it fails without columns; otherwise it returns the opening tag, the head, the body and the closing tags |
| Tables.PrettyTable.OpenTagString | prettytable.js:263-282 | the attributes loop returns the opening tag |
| Tables.PrettyTable.HeadString | prettytable.js:285-291 | the header loop returns one `<th>` per column inside `<thead><tr>` |
| Tables.PrettyTable.BodyHtml | prettytable.js:294-306 | the row loop returns one `<tr>` per row inside `<tbody>` |
| Tables.PrettyTable.RowData | prettytable.js:296-301 | the cell loop returns one `<td>` per cell |
| HtmlRender.HtmlAfterAddRow | prettytable.js:257-310 | on a table with columns, a successful `addRow` inserts exactly the new row's markup before the closing tags; a rejected row leaves the markup unchanged |
| HtmlRender.HtmlOfContents | prettytable.js:257-310 | the markup does not depend on `maxWidth`, and after `clearTable` the body is empty |
| HtmlRender.OpenTagExample | prettytable.js:271-281 | the attributes id and border give `<table id='my_table' border='1'>` |
| HtmlRender.OpenTagBare | prettytable.js:264-281 | no attributes give `<table>`; an empty attributes object gives `<table >` |
| HtmlRender.HtmlWithoutColumnsFails | prettytable.js:258-260 | `html` fails exactly when there are no columns, with the message test/tests.js:198-201 expects |
| Cells.IntToStringRoundTrip | prettytable.js:105-106 | the decimal string form of a number cell reads back as that number |

## Left out

- `csv` and `json` read files and parse them; the model starts from the parsed records and objects. The filename checks, file reading and the CSV/JSON parsers are foreign code.
- Column names are strings or null/undefined (`Option<string>`). `fieldNames` rejects only null and undefined, so a name such as the number 1 is accepted, its `length` (undefined) is pushed as its width, and a later `toString` throws a RangeError from `Array(NaN)`; the model's types rule such names out.
- The `Array.isArray`/`typeof` checks on arguments are not modelled. The Dafny types already rule out a non-array, a non-object or a non-string: a record that is not an array, an item that is not an object, a non-string attribute key, and a `rownum` that is not a number.
- `print` writes to the console, and `version` is a constant; neither is modelled.
- Cells are strings or integers: floating-point numbers, booleans and objects in cells are not modelled.
- Cells.IntToString: a number of magnitude above 2^53 - 1 is written out digit by digit, while JavaScript prints the shortest digits that denote the same double (`String(2 ** 64)` is `"18446744073709552000"`) and uses exponent form (`1e+21`) from 10^21 on; an integer such as 2^53 + 1 is not a JavaScript number at all. The widths and both renderings of such a cell differ from the source's; `Num` is an unbounded integer.
- `deleteRow` takes an integer: a fractional row number (which `splice` truncates) is not modelled.
- The comparator compares a number with a string by JavaScript's `<`, which goes through a coercion to numbers. The model puts every number before every string instead.
- Strings are sequences of characters: lengths are in characters, not UTF-16 code units, and comparison is by character.
- A row cell that is null/undefined is stored as "". `addRow` stores the caller's array and writes "" into it in place, and `fieldNames` (and so `create`) keeps the caller's array of names as `columnNames`; the model stores copies, so aliasing with the caller's arrays is not modelled.
- Sorting.SortSpec: V8's sort algorithm is not modelled. The sort is a stable insertion sort, which gives the one order that any stable sort with this comparator gives on rows that have the column. The order is proved only when every row has the sort column, which `Shaped` guarantees; on shorter rows (possible after a second `fieldNames`) JavaScript's order is implementation-defined.
- `reverse` is `Option<bool>`: any non-boolean argument is `None`, and only `Some(true)` sorts descending, as in the code.
- `toString` and `html` are written as one method per source loop, and the cell loops append the padded cell in one step. The text built is the same.
- `html` substitutes attribute values and cells with JavaScript template strings; a value is modelled by its string form. The attributes object is a sequence of key/value pairs in enumeration order.
