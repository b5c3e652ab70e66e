/**
 * The fixed-width ASCII rendering of a table (`toString` and its `drawLine`
 * helper): pure functions that say what the text is, the lemmas that describe
 * its layout, and the loop that draws a border.
 */
module TextRender {
  import opened Wrappers
  import opened Cells
  import opened Model
  import Laws

  /** `n` copies of `c`, as `Array(n + 1).join(c)` builds them. */
  function Repeat(c: char, n: nat): (s: string)
    ensures |s| == n && forall i :: 0 <= i < n ==> s[i] == c
  {
    if n == 0 then "" else Repeat(c, n - 1) + [c]
  }

  /** `maxWidth[i]`, or 0 where the array has no entry (an `undefined` width never pads). */
  function WidthAt(ws: seq<nat>, i: nat): nat
  {
    if i < |ws| then ws[i] else 0
  }

  /** A cell's text padded on the right with spaces to width `w`; longer text is never cut. */
  function Pad(s: string, w: nat): (p: string)
    ensures |p| == if |s| < w then w else |s|
    ensures p[..|s|] == s
    ensures forall i :: |s| <= i < |p| ==> p[i] == ' '
  {
    if |s| < w then s + Repeat(' ', w - |s|) else s
  }

  /** The horizontal rule `drawLine` produces: "+", then w + 2 dashes and "+" per width. */
  function Border(ws: seq<nat>): string
    decreases |ws|
  {
    if ws == [] then "+" else Border(ws[..|ws| - 1]) + Repeat('-', ws[|ws| - 1] + 2) + "+"
  }

  /** The cells of a header or row line: each text padded to its column's width and followed by " | ". */
  function Segments(texts: seq<string>, ws: seq<nat>): string
    decreases |texts|
  {
    if texts == [] then "" else Segments(texts[..|texts| - 1], ws) + Pad(texts[|texts| - 1], WidthAt(ws, |texts| - 1)) + " | "
  }

  /** A header or row line, without its newline. */
  function Line(texts: seq<string>, ws: seq<nat>): string
  {
    "| " + Segments(texts, ws)
  }

  /** The texts of a row's cells. */
  function Strs(r: Row): (ss: seq<string>)
    ensures |ss| == |r| && forall i :: 0 <= i < |r| ==> ss[i] == Str(r[i])
  {
    seq(|r|, i requires 0 <= i < |r| => Str(r[i]))
  }

  /** One line per row. */
  function RowLines(rows: seq<Row>, ws: seq<nat>): (ls: seq<string>)
    ensures |ls| == |rows| && forall i :: 0 <= i < |rows| ==> ls[i] == Line(Strs(rows[i]), ws)
  {
    seq(|rows|, i requires 0 <= i < |rows| => Line(Strs(rows[i]), ws))
  }

  /** The lines, each followed by a newline. */
  function Unlines(ls: seq<string>): string
    decreases |ls|
  {
    if ls == [] then "" else Unlines(ls[..|ls| - 1]) + ls[|ls| - 1] + "\n"
  }

  /** `s.slice(0, -1)`: all but the last character, and "" for "". */
  function DropLast(s: string): string
  {
    if s == "" then "" else s[..|s| - 1]
  }

  /** What `toString` returns. */
  function Grid(t: Table): string
  {
    if t.columnNames == [] then ""
    else
      var b := Border(t.maxWidth);
      b + "\n" + Line(t.columnNames, t.maxWidth) + "\n" + b + "\n"
      + DropLast(Unlines(RowLines(t.rows, t.maxWidth))) + "\n" + b + "\n"
  }

  /** `drawLine`: builds the border one width at a time. */
  method DrawLine(maxWidth: seq<nat>) returns (line: string)
    ensures line == Border(maxWidth)
  {
    line := "+";
    var i := 0;
    while i < |maxWidth|
      invariant 0 <= i <= |maxWidth|
      invariant line == Border(maxWidth[..i])
    {
      assert maxWidth[..i + 1][..i] == maxWidth[..i];
      line := line + Repeat('-', maxWidth[i] + 2) + "+";
      i := i + 1;
    }
    assert maxWidth[..i] == maxWidth;
  }

  // ---------------------------------------------------------------- layout

  lemma {:induction false} UnlinesAppend(a: seq<string>, b: seq<string>)
    ensures Unlines(a + b) == Unlines(a) + Unlines(b)
    decreases |b|
  {
    if b != [] {
      var c := a + b;
      assert c[..|c| - 1] == a + b[..|b| - 1];
      assert c[|c| - 1] == b[|b| - 1];
      UnlinesAppend(a, b[..|b| - 1]);
      calc {
        Unlines(c);
        Unlines(a + b[..|b| - 1]) + b[|b| - 1] + "\n";
        Unlines(a) + Unlines(b[..|b| - 1]) + b[|b| - 1] + "\n";
        Unlines(a) + Unlines(b);
      }
    } else {
      assert a + b == a;
    }
  }

  /** One more cell adds its padded text and " | " to the line. */
  lemma LineStep(texts: seq<string>, ws: seq<nat>, k: nat)
    requires k < |texts|
    ensures Line(texts[..k + 1], ws) == Line(texts[..k], ws) + Pad(texts[k], WidthAt(ws, k)) + " | "
  {
    assert texts[..k + 1][..k] == texts[..k];
  }

  /** The grid as `toString` assembles it, piece by piece. */
  lemma GridPieces(t: Table, b: string, h: string, x: string)
    requires t.columnNames != []
    requires b == Border(t.maxWidth) && h == Line(t.columnNames, t.maxWidth)
    requires x == DropLast(Unlines(RowLines(t.rows, t.maxWidth)))
    ensures Grid(t) == b + "\n" + h + "\n" + b + "\n" + x + "\n" + b + "\n"
  {
  }

  /** One more row adds its line to the body text. */
  lemma RowLinesPrefix(rows: seq<Row>, ws: seq<nat>, i: nat)
    requires i < |rows|
    ensures Unlines(RowLines(rows[..i + 1], ws)) == Unlines(RowLines(rows[..i], ws)) + Line(Strs(rows[i]), ws) + "\n"
  {
    var ls := RowLines(rows[..i + 1], ws);
    assert ls[..i] == RowLines(rows[..i], ws);
  }

  lemma UnlinesEndsInNewline(ls: seq<string>)
    requires ls != []
    ensures DropLast(Unlines(ls)) + "\n" == Unlines(ls)
  {
    var u := Unlines(ls);
    assert u[|u| - 1] == '\n';
    assert u == u[..|u| - 1] + "\n";
  }

  /** The frame of the grid around its body lines, the last of them left without its newline. */
  lemma FrameLines(b: string, h: string, body: seq<string>, x: string)
    requires Unlines(body) == x + "\n"
    ensures Unlines([b, h, b] + body + [b]) == b + "\n" + h + "\n" + b + "\n" + x + "\n" + b + "\n"
  {
    UnlinesAppend([b, h, b], body);
    UnlinesAppend([b, h, b] + body, [b]);
    assert Unlines([b]) == b + "\n";
    assert Unlines([b, h, b]) == b + "\n" + h + "\n" + b + "\n" by {
      assert [b, h, b][..2] == [b, h];
      assert [b, h][..1] == [b];
    }
  }

  lemma BodyLines(rs: seq<string>)
    ensures var body := if rs == [] then [""] else rs;
      Unlines(body) == DropLast(Unlines(rs)) + "\n"
  {
    if rs == [] {
      assert [""][..0] == [];
    } else {
      UnlinesEndsInNewline(rs);
    }
  }

  /**
   * The grid line by line: nothing without columns; otherwise the border, the
   * header, the border, one line per row (or a single empty line when there
   * are no rows) and the border, each ended by a newline.
   */
  lemma GridLines(t: Table)
    ensures t.columnNames == [] ==> Grid(t) == ""
    ensures t.columnNames != [] ==>
      var b := Border(t.maxWidth);
      var body := if t.rows == [] then [""] else RowLines(t.rows, t.maxWidth);
      Grid(t) == Unlines([b, Line(t.columnNames, t.maxWidth), b] + body + [b])
  {
    if t.columnNames != [] {
      var rs := RowLines(t.rows, t.maxWidth);
      BodyLines(rs);
      var body := if rs == [] then [""] else rs;
      FrameLines(Border(t.maxWidth), Line(t.columnNames, t.maxWidth), body, DropLast(Unlines(rs)));
    }
  }

  /** One more width adds its dashes and a "+" to the border. */
  lemma BorderStep(ws: seq<nat>, k: nat)
    requires k < |ws|
    ensures Border(ws[..k + 1]) == Border(ws[..k]) + Repeat('-', ws[k] + 2) + "+"
  {
    assert ws[..k + 1][..k] == ws[..k];
  }

  /** A line lines up with a border on the columns they share. */
  ghost predicate Aligned(l: string, b: string)
  {
    |l| == |b| + 1 && forall p :: 0 <= p < |b| && b[p] == '+' ==> l[p] == '|'
  }

  /** Extending an aligned line by a cell of exactly width `w`, and the border by that column, keeps them aligned. */
  lemma AlignStep(l: string, b: string, pad: string, w: nat)
    requires Aligned(l, b) && |pad| == w
    ensures Aligned(l + pad + " | ", b + Repeat('-', w + 2) + "+")
  {
    var b2 := b + Repeat('-', w + 2) + "+";
    var l2 := l + pad + " | ";
    forall p | 0 <= p < |b2| ensures b2[p] == '+' ==> l2[p] == '|' {
      if p < |b| {
        assert b2[p] == b[p] && l2[p] == l[p];
      } else if p < |b| + w + 2 {
        assert b2[p] == Repeat('-', w + 2)[p - |b|];
      } else {
        assert p == |l| + |pad| + 1;
      }
    }
  }

  /** One more cell that fits its width keeps a line prefix aligned with the border prefix. */
  lemma AlignedStep(texts: seq<string>, ws: seq<nat>, k: nat)
    requires k < |texts| <= |ws| && |texts[k]| <= ws[k]
    requires Aligned(Line(texts[..k], ws), Border(ws[..k]))
    ensures Aligned(Line(texts[..k + 1], ws), Border(ws[..k + 1]))
  {
    LineStep(texts, ws, k);
    BorderStep(ws, k);
    AlignStep(Line(texts[..k], ws), Border(ws[..k]), Pad(texts[k], WidthAt(ws, k)), ws[k]);
  }

  /**
   * The first k cells of a line whose texts fit their widths: the line is one
   * character longer than the border over those widths (its trailing space),
   * and under every "+" of the border the line has a "|".
   */
  lemma {:induction false} PrefixAligned(texts: seq<string>, ws: seq<nat>, k: nat)
    requires k <= |texts| <= |ws|
    requires forall i :: 0 <= i < |texts| ==> |texts[i]| <= ws[i]
    ensures Aligned(Line(texts[..k], ws), Border(ws[..k]))
    decreases k
  {
    if k > 0 {
      PrefixAligned(texts, ws, k - 1);
      AlignedStep(texts, ws, k - 1);
    } else {
      assert texts[..0] == [] && ws[..0] == [];
    }
  }

  /** A whole line whose texts match and fit the widths lines up with the border. */
  lemma LineAligned(texts: seq<string>, ws: seq<nat>)
    requires |texts| == |ws|
    requires forall i :: 0 <= i < |texts| ==> |texts[i]| <= ws[i]
    ensures var b := Border(ws);
      var l := Line(texts, ws);
      |l| == |b| + 1 && forall p :: 0 <= p < |b| && b[p] == '+' ==> l[p] == '|'
  {
    PrefixAligned(texts, ws, |texts|);
    assert texts[..|texts|] == texts && ws[..|texts|] == ws;
  }

  /**
   * On a shaped table every column lines up: the header and every row line
   * are one character longer than the border, and below each "+" of the
   * border they have a "|".
   */
  lemma GridAligned(t: Table)
    requires Shaped(t)
    ensures var b := Border(t.maxWidth);
      var h := Line(t.columnNames, t.maxWidth);
      |h| == |b| + 1 && forall p :: 0 <= p < |b| && b[p] == '+' ==> h[p] == '|'
    ensures var b := Border(t.maxWidth);
      forall l :: l in RowLines(t.rows, t.maxWidth) ==>
        |l| == |b| + 1 && forall p :: 0 <= p < |b| && b[p] == '+' ==> l[p] == '|'
  {
    LineAligned(t.columnNames, t.maxWidth);
    var ls := RowLines(t.rows, t.maxWidth);
    forall l | l in ls
      ensures |l| == |Border(t.maxWidth)| + 1
      ensures forall p :: 0 <= p < |Border(t.maxWidth)| && Border(t.maxWidth)[p] == '+' ==> l[p] == '|'
    {
      var i :| 0 <= i < |ls| && ls[i] == l;
      assert Fits(t.rows[i], t.maxWidth);
      LineAligned(Strs(t.rows[i]), t.maxWidth);
    }
  }

  lemma ExampleBorder()
    ensures Border([2, 1]) == "+----+---+"
  {
    assert [2, 1][..1] == [2] && [2][..0] == [];
    assert Repeat('-', 4) == "----" && Repeat('-', 3) == "---";
  }

  lemma ExampleLine(x: string, y: string, w: seq<nat>)
    requires w == [2, 1] && |x| <= 2 && |y| == 1
    ensures Line([x, y], w) == "| " + Pad(x, 2) + " | " + y + " | "
  {
    assert [x, y][..1] == [x] && [x][..0] == [];
    assert Pad(y, 1) == y;
    assert Segments([x], w) == Pad(x, 2) + " | ";
    assert Segments([x, y], w) == Pad(x, 2) + " | " + y + " | ";
  }

  lemma ExampleStrs()
    ensures Strs([Num(1), Num(2)]) == ["1", "2"]
    ensures Strs([Num(33), Num(4)]) == ["33", "4"]
  {
    assert NatToString(33) == NatToString(3) + [DigitChar(3)];
    assert Str(Num(33)) == "33" && Str(Num(1)) == "1" && Str(Num(2)) == "2" && Str(Num(4)) == "4";
  }

  lemma ExampleRowLines()
    ensures Line(["1", "2"], [2, 1]) == "| 1  | 2 | "
    ensures Line(["33", "4"], [2, 1]) == "| 33 | 4 | "
  {
    ExampleLine("1", "2", [2, 1]);
    ExampleLine("33", "4", [2, 1]);
    assert Pad("1", 2) == "1 ";
    assert Pad("33", 2) == "33";
  }

  /**
   * The grid of the table `create` builds from two columns and two rows, line by line:
   * "+----+---+", "| a  | b | ", "+----+---+", "| 1  | 2 | ", "| 33 | 4 | ", "+----+---+".
   */
  lemma GridExample()
    ensures Grid(Create(Empty, [Some("a"), Some("b")], [[Some(Num(1)), Some(Num(2))], [Some(Num(33)), Some(Num(4))]]).table)
      == Unlines(["+----+---+", "| a  | b | ", "+----+---+", "| 1  | 2 | ", "| 33 | 4 | ", "+----+---+"])
  {
    Laws.CreateExample();
    ExampleGrid();
  }

  lemma ExampleGrid()
    ensures Grid(Table(["a", "b"], [[Num(1), Num(2)], [Num(33), Num(4)]], [2, 1]))
      == Unlines(["+----+---+", "| a  | b | ", "+----+---+", "| 1  | 2 | ", "| 33 | 4 | ", "+----+---+"])
  {
    var t := Table(["a", "b"], [[Num(1), Num(2)], [Num(33), Num(4)]], [2, 1]);
    var b, h := "+----+---+", "| a  | b | ";
    ExampleBorder();
    ExampleHeader();
    ExampleStrs();
    ExampleRowLines();
    var ls := RowLines(t.rows, t.maxWidth);
    assert ls[0] == Line(["1", "2"], t.maxWidth);
    assert ls[1] == Line(["33", "4"], t.maxWidth);
    assert ls == ["| 1  | 2 | ", "| 33 | 4 | "];
    GridLines(t);
    assert [b, h, b] + ls + [b] == [b, h, b, "| 1  | 2 | ", "| 33 | 4 | ", b];
  }

  lemma ExampleHeader()
    ensures Line(["a", "b"], [2, 1]) == "| a  | b | "
  {
    ExampleLine("a", "b", [2, 1]);
    assert Pad("a", 2) == "a ";
  }

  /** With columns but no rows, a single empty line stands between the header's border and the last one. */
  lemma GridWithoutRows(names: seq<string>, ws: seq<nat>)
    requires names != []
    ensures var b := Border(ws);
      Grid(Table(names, [], ws)) == b + "\n" + Line(names, ws) + "\n" + b + "\n\n" + b + "\n"
  {
  }
}
