/**
 * The result renderer of the command-line client (`resql_cli_rep`,
 * `resql_print_vertical`, `resql_print_seperator`): the two-pass measure of
 * column widths, the table width `total`, the choice between vertical,
 * "no rows" and tabular output, and the lines each layout prints.
 *
 * Output is modelled as the sequence of strings the `printf` calls write.
 */
module Render {
  import opened CStrings
  import opened ResultSets

  // ---------------------------------------------------------------------------
  // Column widths
  // ---------------------------------------------------------------------------

  /** The name length of column `i` of a row (0 where the row has no such column). */
  function NameLen(row: Row, i: nat): nat
  {
    if i < |row| then |row[i].name| else 0
  }

  /** The cell width of column `i` of a row (0 where the row has no such column). */
  function CellLen(row: Row, i: nat): nat
  {
    if i < |row| then CellWidth(row[i].cell) else 0
  }

  /** The longest name of column `i` over the rows (0 for no rows): the first pass. */
  function MaxName(rows: seq<Row>, i: nat): nat
  {
    if rows == [] then 0
    else Max(MaxName(rows[..|rows| - 1], i), NameLen(rows[|rows| - 1], i))
  }

  /** The widest cell text of column `i` over the rows (0 for no rows): the second pass. */
  function MaxCell(rows: seq<Row>, i: nat): nat
  {
    if rows == [] then 0
    else Max(MaxCell(rows[..|rows| - 1], i), CellLen(rows[|rows| - 1], i))
  }

  /** The width `p[i]` of column `i` once both passes are done. */
  function Width(rows: seq<Row>, i: nat): nat
  {
    Max(MaxName(rows, i), MaxCell(rows, i))
  }

  /** The width vector of a result with `count` columns. */
  function Widths(rows: seq<Row>, count: nat): (ws: seq<int>)
    ensures |ws| == count
  {
    seq(count, i requires 0 <= i < count => Width(rows, i))
  }

  lemma MaxNameStep(rows: seq<Row>, r: nat, i: nat)
    requires r < |rows|
    ensures MaxName(rows[..r + 1], i) == Max(MaxName(rows[..r], i), NameLen(rows[r], i))
  {
    assert rows[..r + 1][..r] == rows[..r];
  }

  lemma MaxCellStep(rows: seq<Row>, r: nat, i: nat)
    requires r < |rows|
    ensures MaxCell(rows[..r + 1], i) == Max(MaxCell(rows[..r], i), CellLen(rows[r], i))
  {
    assert rows[..r + 1][..r] == rows[..r];
  }

  /** The outcome of the measure passes: a width vector, or a corrupt tag found. */
  datatype Measure = Measured(widths: seq<int>) | CorruptTag

  /**
   * The measure passes of `resql_cli_rep`: a zeroed array `p` (`calloc`), a
   * first pass over all rows raising `p[i]` to the name length, a second
   * pass raising it to each cell's text length, which stops at the first
   * unknown tag.
   */
  method MeasureWidths(rows: seq<Row>, count: nat) returns (m: Measure)
    requires Rectangular(rows, count)
    ensures m.CorruptTag? <==> !Intact(rows)
    ensures m.Measured? ==> m.widths == Widths(rows, count)
  {
    var p := new int[count](_ => 0);
    NamePass(rows, p);
    var ok := CellPass(rows, p);
    if !ok {
      return CorruptTag;
    }
    m := Measured(p[..]);
  }

  /** The first pass: every `p[k]` raised to the length of every name in column `k`. */
  method NamePass(rows: seq<Row>, p: array<int>)
    requires Rectangular(rows, p.Length)
    requires forall k :: 0 <= k < p.Length ==> p[k] == 0
    modifies p
    ensures forall k :: 0 <= k < p.Length ==> p[k] == MaxName(rows, k)
  {
    var count := p.Length;
    var r := 0;
    while r < |rows|
      invariant 0 <= r <= |rows|
      invariant forall k :: 0 <= k < count ==> p[k] == MaxName(rows[..r], k)
    {
      var row := rows[r];
      var i := 0;
      while i < count
        invariant 0 <= i <= count
        invariant forall k :: 0 <= k < i ==> p[k] == MaxName(rows[..r + 1], k)
        invariant forall k :: i <= k < count ==> p[k] == MaxName(rows[..r], k)
      {
        MaxNameStep(rows, r, i);
        p[i] := Max(p[i], |row[i].name|);
        i := i + 1;
      }
      r := r + 1;
    }
    assert rows[..|rows|] == rows;
  }

  /**
   * The second pass: every `p[k]` raised to the text length of every cell in
   * column `k`; it stops with `false` at the first unknown tag.
   */
  method CellPass(rows: seq<Row>, p: array<int>) returns (ok: bool)
    requires Rectangular(rows, p.Length)
    requires forall k :: 0 <= k < p.Length ==> p[k] >= 0
    modifies p
    ensures ok <==> Intact(rows)
    ensures ok ==> forall k :: 0 <= k < p.Length ==> p[k] == Max(old(p[k]), MaxCell(rows, k))
  {
    ghost var init := p[..];
    var r := 0;
    while r < |rows|
      invariant 0 <= r <= |rows|
      invariant Intact(rows[..r])
      invariant forall k :: 0 <= k < p.Length ==> p[k] == Max(init[k], MaxCell(rows[..r], k))
    {
      ok := RowCellPass(rows[r], p);
      if !ok {
        return false;
      }
      forall k | 0 <= k < p.Length ensures p[k] == Max(init[k], MaxCell(rows[..r + 1], k)) {
        MaxCellStep(rows, r, k);
      }
      IntactStep(rows, r);
      r := r + 1;
    }
    assert rows[..|rows|] == rows;
    return true;
  }

  /** The second pass over one row; `false` at the first unknown tag. */
  method RowCellPass(row: Row, p: array<int>) returns (ok: bool)
    requires |row| == p.Length
    modifies p
    ensures ok <==> RowIntact(row)
    ensures ok ==> forall k :: 0 <= k < p.Length ==> p[k] == Max(old(p[k]), CellLen(row, k))
  {
    var i := 0;
    while i < p.Length
      invariant 0 <= i <= p.Length
      invariant forall k :: 0 <= k < i ==> !row[k].cell.Corrupt?
      invariant forall k :: 0 <= k < i ==> p[k] == Max(old(p[k]), CellLen(row, k))
      invariant forall k :: i <= k < p.Length ==> p[k] == old(p[k])
    {
      var c := row[i].cell;
      if c.Corrupt? {
        return false;
      }
      var w := if c.Text? then |c.text| else if c.Null? then |"null"| else |Truncated(CellText(c), TmpLimit)|;
      p[i] := Max(p[i], w);
      i := i + 1;
    }
    return true;
  }

  lemma IntactStep(rows: seq<Row>, r: nat)
    requires r < |rows| && Intact(rows[..r]) && RowIntact(rows[r])
    ensures Intact(rows[..r + 1])
  {
    assert rows[..r + 1] == rows[..r] + [rows[r]];
  }

  /** After both passes a column is at least as wide as every name and every cell text in it. */
  lemma {:induction false} WidthCovers(rows: seq<Row>, i: nat, r: nat)
    requires r < |rows| && i < |rows[r]|
    ensures Width(rows, i) >= |rows[r][i].name|
    ensures Width(rows, i) >= CellWidth(rows[r][i].cell)
  {
    var init := rows[..|rows| - 1];
    if r < |rows| - 1 {
      WidthCovers(init, i, r);
      assert init[r] == rows[r];
    }
  }

  /** The width is no larger than it must be: 0, or the length of some name or cell text. */
  lemma {:induction false} WidthAttained(rows: seq<Row>, i: nat)
    ensures Width(rows, i) == 0 ||
      exists r :: 0 <= r < |rows| && i < |rows[r]| &&
        (Width(rows, i) == |rows[r][i].name| || Width(rows, i) == CellWidth(rows[r][i].cell))
  {
    if rows != [] {
      var init := rows[..|rows| - 1];
      var last := |rows| - 1;
      WidthAttained(init, i);
      if Width(rows, i) != Width(init, i) {
        assert Width(rows, i) == |rows[last][i].name| || Width(rows, i) == CellWidth(rows[last][i].cell);
      } else if Width(rows, i) != 0 {
        var r :| 0 <= r < |init| && i < |init[r]| &&
          (Width(init, i) == |init[r][i].name| || Width(init, i) == CellWidth(init[r][i].cell));
        assert init[r] == rows[r];
      }
    }
  }

  // ---------------------------------------------------------------------------
  // Table width and the layout decision
  // ---------------------------------------------------------------------------

  /** The sum of `w + 3` over the widths: a column's bar, its two blanks and its text. */
  function Span(ws: seq<int>): int
  {
    if ws == [] then 0 else Span(ws[..|ws| - 1]) + ws[|ws| - 1] + 3
  }

  /** `total = 1 + Σ(p[i] + 3)`: the leading border plus every column. */
  function Total(ws: seq<int>): int
  {
    1 + Span(ws)
  }

  /** The terminal width: what the terminal reports when it reports a nonzero width, else 120. */
  function TerminalColumns(ioctlOk: bool, wsCol: int): int
  {
    if ioctlOk && wsCol != 0 then wsCol else 120
  }

  datatype Layout = Vertical | NoRows | CorruptAbort | Tabular(widths: seq<int>, total: int)

  /**
   * The layout `resql_cli_rep` chooses: the vertical flag wins before the
   * row count is even looked at; a row count of -1 means "Done"; a corrupt
   * tag in the measure pass aborts; otherwise a table wider than the
   * terminal is printed vertically.
   */
  function ChooseLayout(flag: bool, rs: ResultSet, col: int): Layout
    requires WellFormed(rs)
  {
    if flag then Vertical
    else if rs.rowCount == -1 then NoRows
    else if !Intact(rs.rows) then CorruptAbort
    else
      var ws := Widths(rs.rows, rs.columnCount);
      if Total(ws) > col then Vertical else Tabular(ws, Total(ws))
  }

  /** Vertical output is chosen exactly when the flag is set or the table would not fit. */
  lemma LayoutIsVerticalIff(flag: bool, rs: ResultSet, col: int)
    requires WellFormed(rs)
    ensures ChooseLayout(flag, rs, col) == Vertical <==>
      (flag || (rs.rowCount != -1 && Intact(rs.rows) && Total(Widths(rs.rows, rs.columnCount)) > col))
    ensures ChooseLayout(flag, rs, col).Tabular? ==>
      ChooseLayout(flag, rs, col).total <= col && ChooseLayout(flag, rs, col).total == 1 + Span(ChooseLayout(flag, rs, col).widths)
  {
  }

  /** A row count of -1 gives "Done" whenever the flag is off, whatever the rows hold. */
  lemma NoRowsIndependentOfRows(rs: ResultSet, col: int)
    requires WellFormed(rs) && rs.rowCount == -1
    ensures ChooseLayout(false, rs, col) == NoRows
    ensures ChooseLayout(true, rs, col) == Vertical
  {
  }

  // ---------------------------------------------------------------------------
  // The separator line
  // ---------------------------------------------------------------------------

  function Dashes(k: nat): (s: string)
    ensures |s| == k && forall j :: 0 <= j < k ==> s[j] == '-'
  {
    seq(k, _ => '-')
  }

  predicate NonNegative(ws: seq<int>)
  {
    forall i :: 0 <= i < |ws| ==> ws[i] >= 0
  }

  /** The separator without its newline: '+' at every column boundary, '-' between. */
  function Rule(ws: seq<int>): (s: string)
    requires NonNegative(ws)
    ensures |s| == Total(ws)
  {
    if ws == [] then "+"
    else Rule(ws[..|ws| - 1]) + Dashes(ws[|ws| - 1] + 2) + "+"
  }

  /** The line `resql_print_seperator` prints for widths `ws`. */
  function SeparatorLine(ws: seq<int>): (s: string)
    requires NonNegative(ws)
  {
    Rule(ws) + "\n"
  }

  /** A column boundary: the position `Σ_{j<k}(ws[j] + 3)` for some `k <= |ws|`. */
  predicate IsBoundary(ws: seq<int>, i: int)
  {
    exists k :: 0 <= k <= |ws| && Span(ws[..k]) == i
  }

  lemma {:induction false} SpanOfPrefixAtMost(ws: seq<int>, k: nat)
    requires NonNegative(ws) && k <= |ws|
    ensures Span(ws[..k]) <= Span(ws)
  {
    if k < |ws| {
      assert ws[..|ws| - 1][..k] == ws[..k];
      SpanOfPrefixAtMost(ws[..|ws| - 1], k);
    } else {
      assert ws[..k] == ws;
    }
  }

  /** A position before the last column's segment is a boundary of `ws` iff it is one of its prefix. */
  lemma BoundaryBeforeLast(ws: seq<int>, i: int)
    requires NonNegative(ws) && ws != [] && i < Total(ws[..|ws| - 1])
    ensures IsBoundary(ws, i) <==> IsBoundary(ws[..|ws| - 1], i)
  {
    var init := ws[..|ws| - 1];
    if IsBoundary(ws, i) {
      var k :| 0 <= k <= |ws| && Span(ws[..k]) == i;
      assert ws[..|ws|] == ws;
      assert k < |ws|;
      assert ws[..k] == init[..k];
    }
    if IsBoundary(init, i) {
      var k :| 0 <= k <= |init| && Span(init[..k]) == i;
      assert ws[..k] == init[..k];
    }
  }

  /** Inside the last column's segment there is no boundary. */
  lemma NoBoundaryInLast(ws: seq<int>, i: int)
    requires NonNegative(ws) && ws != [] && Total(ws[..|ws| - 1]) <= i < Total(ws) - 1
    ensures !IsBoundary(ws, i)
  {
    var init := ws[..|ws| - 1];
    if IsBoundary(ws, i) {
      var k :| 0 <= k <= |ws| && Span(ws[..k]) == i;
      assert ws[..|ws|] == ws;
      assert k < |ws|;
      assert ws[..k] == init[..k];
      SpanOfPrefixAtMost(init, k);
      assert false;
    }
  }

  /**
   * The separator is `total` characters and a newline; character `i` is '+'
   * exactly at the column boundaries (the first at 0, the last at
   * `total - 1`) and '-' everywhere else.
   */
  lemma {:induction false} SeparatorShape(ws: seq<int>, i: nat)
    requires NonNegative(ws) && i < Total(ws)
    ensures |SeparatorLine(ws)| == Total(ws) + 1 && SeparatorLine(ws)[Total(ws)] == '\n'
    ensures SeparatorLine(ws)[i] == (if IsBoundary(ws, i) then '+' else '-')
    ensures IsBoundary(ws, 0) && IsBoundary(ws, Total(ws) - 1)
  {
    assert ws[..0] == [] && ws[..|ws|] == ws;
    assert Span(ws[..0]) == 0 && Span(ws[..|ws|]) == Total(ws) - 1;
    assert SeparatorLine(ws)[i] == Rule(ws)[i];
    if ws != [] {
      var init := ws[..|ws| - 1];
      var w := ws[|ws| - 1];
      assert Rule(ws) == Rule(init) + Dashes(w + 2) + "+";
      if i < Total(init) {
        SeparatorShape(init, i);
        assert Rule(ws)[i] == Rule(init)[i] == SeparatorLine(init)[i];
        BoundaryBeforeLast(ws, i);
      } else if i < Total(ws) - 1 {
        assert Rule(ws)[i] == Dashes(w + 2)[i - Total(init)];
        NoBoundaryInLast(ws, i);
      }
    }
  }

  lemma RuleStep(ws: seq<int>, x: nat)
    requires NonNegative(ws) && 0 < x <= |ws|
    ensures Span(ws[..x]) == Span(ws[..x - 1]) + ws[x - 1] + 3
    ensures Rule(ws[..x]) == Rule(ws[..x - 1]) + Dashes(ws[x - 1] + 2) + "+"
  {
    assert ws[..x][..x - 1] == ws[..x - 1];
  }

  lemma DashesStep(r: string, n: nat)
    ensures r + Dashes(n) + "-" == r + Dashes(n + 1)
  {
    assert Dashes(n) + "-" == Dashes(n + 1);
  }

  /** At a boundary the text so far, closed by '+', is the rule of the columns passed. */
  lemma BoundaryText(ws: seq<int>, x: int, prev: string)
    requires NonNegative(ws) && 0 <= x <= |ws|
    requires x == 0 ==> prev == ""
    requires x > 0 ==> prev == Rule(ws[..x - 1]) + Dashes(ws[x - 1] + 2)
    ensures prev + "+" == Rule(ws[..x]) + Dashes(0)
  {
    assert Dashes(0) == "";
    if x == 0 {
      assert ws[..0] == [];
    } else {
      RuleStep(ws, x);
    }
  }

  /**
   * `resql_print_seperator` with the read past the widths removed: the
   * counters `x` (the column) and `pos` (its boundary) step through the
   * columns, and `columns[x]` is read only while `x` is a column.
   */
  method PrintSeparator(total: int, columns: seq<int>) returns (s: string)
    requires NonNegative(columns) && total == Total(columns)
    ensures s == SeparatorLine(columns)
  {
    var count := |columns|;
    assert |Rule(columns)| == total;
    var x := -1;
    var pos := 0;
    s := "";
    var i := 0;
    while i < total
      invariant SeparatorState(columns, i, x, pos, s)
      decreases total - i
    {
      if i == pos {
        AtBoundary(columns, i, x, pos, s);
        x := x + 1;
        if x < count {
          pos := pos + columns[x] + 3;
        }
        s := s + "+";
      } else {
        BetweenBoundaries(columns, i, x, pos, s);
        s := s + "-";
      }
      i := i + 1;
    }
    SeparatorDone(columns, x, pos, s);
    s := s + "\n";
  }

  /**
   * The state of the separator loop after `i` characters: `x` is the column
   * whose segment is being drawn (-1 before the first '+'), `pos` the next
   * boundary while one is left, and `s` the rule of the columns passed and
   * the dashes drawn since.
   */
  predicate SeparatorState(ws: seq<int>, i: int, x: int, pos: int, s: string)
    requires NonNegative(ws)
  {
    0 <= i <= Total(ws) && -1 <= x <= |ws| &&
    (x == -1 <==> i == 0) &&
    (x == -1 ==> pos == 0 && s == "") &&
    (0 <= x ==> 1 + Span(ws[..x]) <= i) &&
    (0 <= x < |ws| ==> pos == Span(ws[..x + 1]) && i <= pos) &&
    (0 <= x ==> s == Rule(ws[..x]) + Dashes(i - 1 - Span(ws[..x])))
  }

  /** At a boundary the loop passes to the next column and closes the rule with '+'. */
  lemma AtBoundary(ws: seq<int>, i: int, x: int, pos: int, s: string)
    requires NonNegative(ws) && SeparatorState(ws, i, x, pos, s) && i == pos && i < Total(ws)
    ensures x + 1 <= |ws|
    ensures SeparatorState(ws, i + 1, x + 1, if x + 1 < |ws| then pos + ws[x + 1] + 3 else pos, s + "+")
  {
    assert ws[..|ws|] == ws;
    if x >= 0 {
      RuleStep(ws, x + 1);
      assert ws[..x + 1][..x] == ws[..x];
    }
    if x + 1 < |ws| {
      assert ws[..x + 2][..x + 1] == ws[..x + 1];
      RuleStep(ws, x + 2);
    }
    BoundaryText(ws, x + 1, s);
  }

  /** Between boundaries the loop draws a dash. */
  lemma BetweenBoundaries(ws: seq<int>, i: int, x: int, pos: int, s: string)
    requires NonNegative(ws) && SeparatorState(ws, i, x, pos, s) && i != pos && i < Total(ws)
    ensures SeparatorState(ws, i + 1, x, pos, s + "-")
  {
    DashesStep(Rule(ws[..x]), i - 1 - Span(ws[..x]));
  }

  /** When all `Total(ws)` characters are drawn, the rule is complete. */
  lemma SeparatorDone(ws: seq<int>, x: int, pos: int, s: string)
    requires NonNegative(ws) && SeparatorState(ws, Total(ws), x, pos, s)
    ensures s == Rule(ws)
  {
    if x < |ws| {
      SpanOfPrefixAtMost(ws, x + 1);
    }
    assert x == |ws| && ws[..x] == ws;
    assert Dashes(0) == "";
  }

  /**
   * The column reads of `resql_print_seperator` as written: `x` is advanced
   * and `columns[x]` read at every boundary, the last one included, so the
   * loop reads the element just past the widths. `beyond` stands for
   * whatever memory holds there; `indices` lists the indices read, in order.
   */
  method SeparatorReadsAsWritten(total: int, columns: seq<int>, beyond: int) returns (indices: seq<int>)
    requires NonNegative(columns) && total == Total(columns)
    ensures |indices| == |columns| + 1 && indices[|columns|] == |columns|
    ensures forall j :: 0 <= j < |indices| ==> indices[j] == j
  {
    var count := |columns|;
    assert |Rule(columns)| == total;
    assert columns[..count] == columns && columns[..0] == [];
    var x := -1;
    var pos := 0;
    indices := [];
    var i := 0;
    while i < total
      invariant 0 <= i <= total
      invariant -1 <= x <= count
      invariant x == -1 <==> i == 0
      invariant x == -1 ==> pos == 0
      invariant |indices| == x + 1 && forall j :: 0 <= j < |indices| ==> indices[j] == j
      invariant 0 <= x ==> 1 + Span(columns[..x]) <= i
      invariant 0 <= x < count ==> pos == Span(columns[..x + 1]) && i <= pos
    {
      if i == pos {
        x := x + 1;
        if x > 0 {
          RuleStep(columns, x);
        }
        if x < count {
          assert columns[..x + 1][..x] == columns[..x];
        }
        var read := if x < count then columns[x] else beyond;
        indices := indices + [x];
        pos := pos + read + 3;
      }
      i := i + 1;
    }
    assert x == count by {
      if x < count {
        SpanOfPrefixAtMost(columns, x + 1);
      }
    }
  }

  // ---------------------------------------------------------------------------
  // Vertical output
  // ---------------------------------------------------------------------------

  /** `%-*s`: the text, padded on the right with blanks to at least `w` characters. */
  function Pad(s: string, w: int): (r: string)
    ensures |r| == Max(|s|, if w < 0 then -w else w) && r[..|s|] == s
    ensures forall j :: |s| <= j < |r| ==> r[j] == ' '
  {
    var n := if w < 0 then -w else w;
    if |s| < n then s + seq(n - |s|, _ => ' ') else s
  }

  /** The longest column name of a row. */
  function RowNameMax(row: Row): nat
  {
    if row == [] then 0 else Max(RowNameMax(row[..|row| - 1]), |row[|row| - 1].name|)
  }

  /** `wmax`: 15, raised to every name length over every row. */
  function LabelWidth(rows: seq<Row>): int
  {
    if rows == [] then 15 else Max(LabelWidth(rows[..|rows| - 1]), RowNameMax(rows[|rows| - 1]))
  }

  /** The first pass of `resql_print_vertical`, which measures the label column. */
  method VerticalLabelWidth(rows: seq<Row>, columns: nat) returns (wmax: int)
    requires Rectangular(rows, columns)
    ensures wmax == LabelWidth(rows)
  {
    wmax := 15;
    var r := 0;
    while r < |rows|
      invariant 0 <= r <= |rows|
      invariant wmax == LabelWidth(rows[..r])
    {
      assert rows[..r + 1][..r] == rows[..r];
      var row := rows[r];
      var i := 0;
      while i < columns
        invariant 0 <= i <= columns
        invariant wmax == Max(LabelWidth(rows[..r]), RowNameMax(row[..i]))
      {
        assert row[..i + 1][..i] == row[..i];
        wmax := Max(wmax, |row[i].name|);
        i := i + 1;
      }
      assert row[..columns] == row;
      r := r + 1;
    }
    assert rows[..|rows|] == rows;
  }

  lemma {:induction false} RowNameMaxBounds(row: Row, i: nat)
    requires i < |row|
    ensures RowNameMax(row) >= |row[i].name|
  {
    if i < |row| - 1 {
      RowNameMaxBounds(row[..|row| - 1], i);
    }
  }

  /** The label width is `max(15, longest name)`: at least 15 and every name, and no more than needed. */
  lemma {:induction false} LabelWidthIsMax(rows: seq<Row>)
    ensures LabelWidth(rows) >= 15
    ensures forall r, i :: 0 <= r < |rows| && 0 <= i < |rows[r]| ==> LabelWidth(rows) >= |rows[r][i].name|
    ensures LabelWidth(rows) == 15 ||
      exists r, i :: 0 <= r < |rows| && 0 <= i < |rows[r]| && LabelWidth(rows) == |rows[r][i].name|
  {
    if rows != [] {
      var init := rows[..|rows| - 1];
      var last := rows[|rows| - 1];
      LabelWidthIsMax(init);
      forall r, i | 0 <= r < |rows| && 0 <= i < |rows[r]| ensures LabelWidth(rows) >= |rows[r][i].name| {
        if r < |rows| - 1 {
          assert init[r] == rows[r];
        } else {
          RowNameMaxBounds(last, i);
        }
      }
      if LabelWidth(rows) != LabelWidth(init) {
        RowNameMaxAttained(last);
      } else if LabelWidth(rows) != 15 {
        var r, i :| 0 <= r < |init| && 0 <= i < |init[r]| && LabelWidth(init) == |init[r][i].name|;
        assert init[r] == rows[r];
      }
    }
  }

  lemma {:induction false} RowNameMaxAttained(row: Row)
    ensures RowNameMax(row) == 0 || exists i :: 0 <= i < |row| && RowNameMax(row) == |row[i].name|
  {
    if row != [] {
      var init := row[..|row| - 1];
      RowNameMaxAttained(init);
      if RowNameMax(row) == RowNameMax(init) && RowNameMax(row) != 0 {
        var i :| 0 <= i < |init| && RowNameMax(init) == |init[i].name|;
        assert init[i] == row[i];
      }
    }
  }

  const CorruptMessage: string := "Error, result set corrupt! \n"
  const Divider: string := "--------------------------\n"

  /** A value in the vertical listing: integers are `%-15` padded, the rest as printed in a table. */
  function VerticalValue(c: Cell): string
    requires !c.Corrupt?
  {
    if c.Integer? then Pad(CellText(c), 15) else CellText(c)
  }

  /**
   * A line of the vertical listing: the row number line, one field with its
   * label width, the divider after a row, or the corruption notice.
   */
  datatype VLine =
    | RowNumber(width: int, number: int)
    | Field(width: int, name: string, value: string)
    | RowDivider
    | CorruptNotice

  /** The characters `printf` writes for a line of the vertical listing. */
  function VLineText(l: VLine): string
  {
    match l
    case RowNumber(w, k) => "\n" + Pad("Row number", w) + " : " + DecimalString(k) + " \n\n"
    case Field(w, name, value) => Pad(name, w) + " : " + value + " \n"
    case RowDivider => Divider
    case CorruptNotice => CorruptMessage
  }

  function Texts(ls: seq<VLine>): (ts: seq<string>)
    ensures |ts| == |ls| && forall j :: 0 <= j < |ls| ==> ts[j] == VLineText(ls[j])
  {
    seq(|ls|, j requires 0 <= j < |ls| => VLineText(ls[j]))
  }

  /** The field lines of one row; the first unknown tag prints the corruption notice and ends it. */
  function FieldLines(row: Row, w: int): seq<VLine>
  {
    if row == [] then []
    else if row[0].cell.Corrupt? then [CorruptNotice]
    else [Field(w, row[0].name, VerticalValue(row[0].cell))] + FieldLines(row[1..], w)
  }

  /** The second pass of `resql_print_vertical`, numbering rows from `k`. */
  function VerticalLines(rows: seq<Row>, w: int, k: int): seq<VLine>
  {
    if rows == [] then []
    else if !RowIntact(rows[0]) then [RowNumber(w, k)] + FieldLines(rows[0], w)
    else RowBlock(rows[0], w, k) + VerticalLines(rows[1..], w, k + 1)
  }

  /** The lines of one intact row: its number, its fields, the divider. */
  function RowBlock(row: Row, w: int, k: int): seq<VLine>
  {
    [RowNumber(w, k)] + FieldLines(row, w) + [RowDivider]
  }

  /** `resql_print_vertical`: measure the label column, then list every row. */
  method PrintVertical(rows: seq<Row>, columns: nat) returns (out: seq<string>)
    requires Rectangular(rows, columns)
    ensures out == Texts(VerticalLines(rows, LabelWidth(rows), 0))
  {
    var wmax := VerticalLabelWidth(rows, columns);
    var lines := ListRows(rows, columns, wmax);
    out := Texts(lines);
  }

  /**
   * The second pass of `resql_print_vertical`: for each row its number, its
   * fields and the divider; the first unknown tag ends the whole listing.
   */
  method ListRows(rows: seq<Row>, columns: nat, w: int) returns (out: seq<VLine>)
    requires Rectangular(rows, columns)
    ensures out == VerticalLines(rows, w, 0)
  {
    out := [];
    var rownum := 0;
    while rownum < |rows|
      invariant 0 <= rownum <= |rows|
      invariant out + VerticalLines(rows[rownum..], w, rownum) == VerticalLines(rows, w, 0)
    {
      var row := rows[rownum];
      ListingStep(rows, w, rownum);
      var fields, ok := ListFields(row, columns, w);
      if !ok {
        out := out + ([RowNumber(w, rownum)] + fields);
        return;
      }
      ghost var tail := VerticalLines(rows[rownum + 1..], w, rownum + 1);
      ConcatShift(out, RowBlock(row, w, rownum), tail, VerticalLines(rows, w, 0));
      out := out + ([RowNumber(w, rownum)] + fields + [RowDivider]);
      rownum := rownum + 1;
    }
    assert rows[|rows|..] == [];
  }

  lemma ConcatShift<T>(a: seq<T>, b: seq<T>, c: seq<T>, whole: seq<T>)
    requires a + (b + c) == whole
    ensures (a + b) + c == whole
  {
  }

  /** The listing from row `r` on: row `r`'s lines, then, when it is intact, the rest. */
  lemma ListingStep(rows: seq<Row>, w: int, r: nat)
    requires r < |rows|
    ensures VerticalLines(rows[r..], w, r) ==
      if RowIntact(rows[r]) then RowBlock(rows[r], w, r) + VerticalLines(rows[r + 1..], w, r + 1)
      else [RowNumber(w, r)] + FieldLines(rows[r], w)
  {
    assert rows[r..][0] == rows[r] && rows[r..][1..] == rows[r + 1..];
  }

  /** The field loop over one row; `ok` is false when it stopped at an unknown tag. */
  method ListFields(row: Row, columns: nat, w: int) returns (fields: seq<VLine>, ok: bool)
    requires |row| == columns
    ensures ok <==> RowIntact(row)
    ensures fields == FieldLines(row, w)
  {
    fields := [];
    var i := 0;
    while i < columns
      invariant 0 <= i <= columns
      invariant forall k :: 0 <= k < i ==> !row[k].cell.Corrupt?
      invariant fields + FieldLines(row[i..], w) == FieldLines(row, w)
    {
      assert row[i..][0] == row[i] && row[i..][1..] == row[i + 1..];
      if row[i].cell.Corrupt? {
        fields := fields + [CorruptNotice];
        return fields, false;
      }
      fields := fields + [Field(w, row[i].name, VerticalValue(row[i].cell))];
      i := i + 1;
    }
    assert row[columns..] == [];
    ok := true;
  }

  lemma {:induction false} FieldLinesOfIntactRow(row: Row, w: int)
    requires RowIntact(row)
    ensures |FieldLines(row, w)| == |row|
  {
    if row != [] {
      FieldLinesOfIntactRow(row[1..], w);
    }
  }

  /** One row's block in the vertical listing, corrupt cell or not. */
  lemma VerticalUnfold(rows: seq<Row>, w: int, k: int)
    requires rows != [] && RowIntact(rows[0])
    ensures VerticalLines(rows, w, k) == RowBlock(rows[0], w, k) + VerticalLines(rows[1..], w, k + 1)
  {
  }

  /** An intact row's block has one line per column, plus two, and opens with the row number. */
  lemma RowBlockShape(row: Row, w: int, k: int)
    requires RowIntact(row)
    ensures |RowBlock(row, w, k)| == |row| + 2 && RowBlock(row, w, k)[0] == RowNumber(w, k)
  {
    FieldLinesOfIntactRow(row, w);
  }

  lemma MulSucc(n: nat, b: nat)
    ensures (n + 1) * b == n * b + b
  {
  }

  /**
   * Every row has `columns` cells and none is corrupt, stated row by row so
   * that proofs by induction over the rows unfold it one row at a time.
   */
  predicate Uniform(rows: seq<Row>, columns: nat)
  {
    rows == [] || (|rows[0]| == columns && RowIntact(rows[0]) && Uniform(rows[1..], columns))
  }

  lemma {:induction false} UniformOfIntact(rows: seq<Row>, columns: nat)
    requires Rectangular(rows, columns) && Intact(rows)
    ensures Uniform(rows, columns)
  {
    if rows != [] {
      RestIntact(rows, columns);
      UniformOfIntact(rows[1..], columns);
    }
  }

  lemma RestIntact(rows: seq<Row>, columns: nat)
    requires rows != [] && Rectangular(rows, columns) && Intact(rows)
    ensures Rectangular(rows[1..], columns) && Intact(rows[1..]) && RowIntact(rows[0])
  {
    forall r | 0 <= r < |rows| - 1 ensures |rows[1..][r]| == columns && RowIntact(rows[1..][r]) {
      assert rows[1..][r] == rows[r + 1];
    }
  }

  /** `r * b`, by repeated addition, so that proofs about block offsets stay linear. */
  function BlockStart(r: nat, b: nat): nat
  {
    if r == 0 then 0 else BlockStart(r - 1, b) + b
  }

  lemma {:induction false} BlockStartIsProduct(r: nat, b: nat)
    ensures BlockStart(r, b) == r * b
  {
    if r > 0 {
      BlockStartIsProduct(r - 1, b);
      MulSucc(r - 1, b);
    }
  }

  /** With no corrupt cell, each row takes `columns + 2` lines of the vertical listing. */
  lemma {:induction false} VerticalBlocks(rows: seq<Row>, columns: nat, w: int, k: int)
    requires Uniform(rows, columns)
    ensures |VerticalLines(rows, w, k)| == BlockStart(|rows|, columns + 2)
  {
    if rows != [] {
      FirstBlock(rows, columns, w, k);
      VerticalBlocks(rows[1..], columns, w, k + 1);
    }
  }

  /** The listing of an intact first row is its block followed by the rest. */
  lemma FirstBlock(rows: seq<Row>, columns: nat, w: int, k: int)
    requires Uniform(rows, columns) && rows != []
    ensures |RowBlock(rows[0], w, k)| == columns + 2 && RowBlock(rows[0], w, k)[0] == RowNumber(w, k)
    ensures VerticalLines(rows, w, k) == RowBlock(rows[0], w, k) + VerticalLines(rows[1..], w, k + 1)
    ensures Uniform(rows[1..], columns)
  {
    RowBlockShape(rows[0], w, k);
    VerticalUnfold(rows, w, k);
  }

  lemma {:induction false} VerticalHeaderAt(rows: seq<Row>, columns: nat, w: int, k: int, r: nat, n: int)
    requires Uniform(rows, columns) && r < |rows| && n == k + r
    ensures BlockStart(r, columns + 2) < |VerticalLines(rows, w, k)|
    ensures VerticalLines(rows, w, k)[BlockStart(r, columns + 2)] == RowNumber(w, n)
  {
    if r > 0 {
      VerticalHeaderAt(rows[1..], columns, w, k + 1, r - 1, n);
      HeaderShift(rows, columns, w, k, r, n);
    } else {
      ListingHead(rows, columns, w, k);
    }
  }

  /** A row number found in the listing of the later rows is found in the whole listing, one block on. */
  lemma HeaderShift(rows: seq<Row>, columns: nat, w: int, k: int, r: nat, n: int)
    requires Uniform(rows, columns) && 0 < r < |rows|
    requires BlockStart(r - 1, columns + 2) < |VerticalLines(rows[1..], w, k + 1)|
    requires VerticalLines(rows[1..], w, k + 1)[BlockStart(r - 1, columns + 2)] == RowNumber(w, n)
    ensures BlockStart(r, columns + 2) < |VerticalLines(rows, w, k)|
    ensures VerticalLines(rows, w, k)[BlockStart(r, columns + 2)] == RowNumber(w, n)
  {
    var i := BlockStart(r - 1, columns + 2);
    ListingShift(rows, columns, w, k, i);
    assert BlockStart(r, columns + 2) == i + columns + 2;
  }

  /** The listing of the rows after the first sits `columns + 2` lines further on. */
  lemma ListingShift(rows: seq<Row>, columns: nat, w: int, k: int, i: nat)
    requires Uniform(rows, columns) && rows != []
    requires i < |VerticalLines(rows[1..], w, k + 1)|
    ensures i + columns + 2 < |VerticalLines(rows, w, k)|
    ensures VerticalLines(rows, w, k)[i + columns + 2] == VerticalLines(rows[1..], w, k + 1)[i]
  {
    FirstBlock(rows, columns, w, k);
    IndexAfterBlock(RowBlock(rows[0], w, k), VerticalLines(rows[1..], w, k + 1), i);
  }

  /** The listing opens with the first row's number. */
  lemma ListingHead(rows: seq<Row>, columns: nat, w: int, k: int)
    requires Uniform(rows, columns) && rows != []
    ensures 0 < |VerticalLines(rows, w, k)| && VerticalLines(rows, w, k)[0] == RowNumber(w, k)
  {
    FirstBlock(rows, columns, w, k);
    var block := RowBlock(rows[0], w, k);
    assert (block + VerticalLines(rows[1..], w, k + 1))[0] == block[0];
  }

  /** Past a block, the concatenation reads its second part. */
  lemma IndexAfterBlock(block: seq<VLine>, rest: seq<VLine>, i: nat)
    requires i < |rest|
    ensures i + |block| < |block + rest| && (block + rest)[i + |block|] == rest[i]
  {
  }

  /**
   * Row numbering: with no corrupt cell, each row takes `columns + 2` lines
   * and the `r`-th block opens with "Row number : k + r".
   */
  lemma VerticalRowNumbers(rows: seq<Row>, columns: nat, w: int, k: int, r: nat)
    requires Rectangular(rows, columns) && Intact(rows) && r < |rows|
    ensures |VerticalLines(rows, w, k)| == |rows| * (columns + 2)
    ensures r * (columns + 2) < |VerticalLines(rows, w, k)|
    ensures VerticalLines(rows, w, k)[r * (columns + 2)] == RowNumber(w, k + r)
  {
    UniformOfIntact(rows, columns);
    VerticalBlocks(rows, columns, w, k);
    VerticalHeaderAt(rows, columns, w, k, r, k + r);
    BlockStartIsProduct(r, columns + 2);
    BlockStartIsProduct(|rows|, columns + 2);
  }

  /** A corrupt cell ends the vertical listing with the corruption message. */
  lemma {:induction false} VerticalStopsAtCorruption(rows: seq<Row>, w: int, k: int)
    requires !Intact(rows)
    ensures |VerticalLines(rows, w, k)| > 0
    ensures VerticalLines(rows, w, k)[|VerticalLines(rows, w, k)| - 1] == CorruptNotice
  {
    if RowIntact(rows[0]) {
      CorruptionInTail(rows);
      VerticalStopsAtCorruption(rows[1..], w, k + 1);
      EndAfterIntactRow(rows, w, k);
    } else {
      EndInCorruptRow(rows, w, k);
    }
  }

  /** After an intact first row the listing ends as the listing of the rest does. */
  lemma EndAfterIntactRow(rows: seq<Row>, w: int, k: int)
    requires rows != [] && RowIntact(rows[0])
    requires |VerticalLines(rows[1..], w, k + 1)| > 0
    ensures |VerticalLines(rows, w, k)| > 0
    ensures VerticalLines(rows, w, k)[|VerticalLines(rows, w, k)| - 1] ==
      VerticalLines(rows[1..], w, k + 1)[|VerticalLines(rows[1..], w, k + 1)| - 1]
  {
    VerticalUnfold(rows, w, k);
    LastOfConcat(RowBlock(rows[0], w, k), VerticalLines(rows[1..], w, k + 1));
  }

  /** A corrupt first row ends the listing with the notice. */
  lemma EndInCorruptRow(rows: seq<Row>, w: int, k: int)
    requires rows != [] && !RowIntact(rows[0])
    ensures |VerticalLines(rows, w, k)| > 0
    ensures VerticalLines(rows, w, k)[|VerticalLines(rows, w, k)| - 1] == CorruptNotice
  {
    FieldLinesEndInCorruption(rows[0], w);
    LastOfConcat([RowNumber(w, k)], FieldLines(rows[0], w));
  }

  /** When the first row is intact, the corrupt row is among the rest. */
  lemma CorruptionInTail(rows: seq<Row>)
    requires !Intact(rows) && RowIntact(rows[0])
    ensures !Intact(rows[1..])
  {
    var r :| 0 <= r < |rows| && !RowIntact(rows[r]);
    assert rows[1..][r - 1] == rows[r];
  }

  lemma LastOfConcat<T>(a: seq<T>, b: seq<T>)
    requires |b| > 0
    ensures |a + b| > 0 && (a + b)[|a + b| - 1] == b[|b| - 1]
  {
  }

  lemma {:induction false} FieldLinesEndInCorruption(row: Row, w: int)
    requires !RowIntact(row)
    ensures |FieldLines(row, w)| > 0 && FieldLines(row, w)[|FieldLines(row, w)| - 1] == CorruptNotice
  {
    if !row[0].cell.Corrupt? {
      CorruptCellInTail(row);
      FieldLinesEndInCorruption(row[1..], w);
      FieldsEndAfterIntactCell(row, w);
    }
  }

  /** When the first cell is intact, the corrupt cell is among the rest. */
  lemma CorruptCellInTail(row: Row)
    requires !RowIntact(row) && !row[0].cell.Corrupt?
    ensures !RowIntact(row[1..])
  {
    var i :| 0 <= i < |row| && row[i].cell.Corrupt?;
    assert row[1..][i - 1] == row[i];
  }

  /** After an intact first cell the field lines end as those of the rest do. */
  lemma FieldsEndAfterIntactCell(row: Row, w: int)
    requires row != [] && !row[0].cell.Corrupt? && |FieldLines(row[1..], w)| > 0
    ensures |FieldLines(row, w)| > 0
    ensures FieldLines(row, w)[|FieldLines(row, w)| - 1] == FieldLines(row[1..], w)[|FieldLines(row[1..], w)| - 1]
  {
    LastOfConcat([Field(w, row[0].name, VerticalValue(row[0].cell))], FieldLines(row[1..], w));
  }

  // ---------------------------------------------------------------------------
  // Tabular output
  // ---------------------------------------------------------------------------

  const ColumnColour: string := "\U{1b}[0;35m"
  const ResetColour: string := "\U{1b}[0m"

  /** The header cells: each name left-justified to its width, in colour. */
  function HeaderCells(row: Row, ws: seq<int>): string
    requires |row| == |ws|
  {
    if row == [] then ""
    else
      var last := |row| - 1;
      HeaderCells(row[..last], ws[..last]) + "|" + ColumnColour + " " + Pad(row[last].name, ws[last]) + " " + ResetColour
  }

  /** The cells of one data line: `| ` then the cell text padded to its width, then a blank. */
  function DataCells(row: Row, ws: seq<int>): string
    requires |row| == |ws| && RowIntact(row)
  {
    if row == [] then ""
    else
      var last := |row| - 1;
      DataCells(row[..last], ws[..last]) + "| " + Pad(TableCellText(row[last].cell), ws[last]) + " "
  }

  function DataLine(row: Row, ws: seq<int>): string
    requires |row| == |ws| && RowIntact(row)
  {
    DataCells(row, ws) + "|\n"
  }

  /** Every row's data line followed by a separator. */
  function DataBlock(rows: seq<Row>, ws: seq<int>, sep: string): seq<string>
    requires Rectangular(rows, |ws|) && Intact(rows)
  {
    if rows == [] then []
    else [DataLine(rows[0], ws), sep] + DataBlock(rows[1..], ws, sep)
  }

  /** The table: separator, header from the first row, separator, then each row and a separator. */
  function TableText(rows: seq<Row>, ws: seq<int>, sep: string): seq<string>
    requires Rectangular(rows, |ws|) && Intact(rows) && |rows| > 0
  {
    [sep, HeaderCells(rows[0], ws) + "|\n", sep] + DataBlock(rows, ws, sep)
  }

  /**
   * The tabular branch of `resql_cli_rep`: a separator, the header built
   * from the first row, a separator, then for each row (a do-while, so the
   * first row is printed before the cursor is asked again) its data line
   * and a separator.
   */
  method PrintTable(rows: seq<Row>, p: seq<int>, sep: string) returns (out: seq<string>)
    requires Rectangular(rows, |p|) && Intact(rows) && |rows| > 0
    ensures out == TableText(rows, p, sep)
  {
    var header := HeaderLine(rows[0], p);
    out := [sep, header + "|\n", sep];
    assert rows[0..] == rows;
    var r := 0;
    while r < |rows|
      invariant 0 <= r <= |rows|
      invariant Rectangular(rows[r..], |p|) && Intact(rows[r..])
      invariant out + DataBlock(rows[r..], p, sep) == TableText(rows, p, sep)
    {
      DataBlockStep(rows, p, sep, r);
      var cells := DataCellsOf(rows[r], p);
      ConcatShift(out, [DataLine(rows[r], p), sep], DataBlock(rows[r + 1..], p, sep), TableText(rows, p, sep));
      out := out + [cells + "|\n", sep];
      r := r + 1;
    }
  }

  /** The rows from `r` on: row `r`'s data line and a separator, then the rest. */
  lemma DataBlockStep(rows: seq<Row>, ws: seq<int>, sep: string, r: nat)
    requires r < |rows| && Rectangular(rows[r..], |ws|) && Intact(rows[r..])
    ensures |rows[r]| == |ws| && RowIntact(rows[r])
    ensures Rectangular(rows[r + 1..], |ws|) && Intact(rows[r + 1..])
    ensures DataBlock(rows[r..], ws, sep) == [DataLine(rows[r], ws), sep] + DataBlock(rows[r + 1..], ws, sep)
  {
    assert rows[r..][0] == rows[r] && rows[r..][1..] == rows[r + 1..];
    var from, tail := rows[r..], rows[r + 1..];
    forall j | 0 <= j < |tail| ensures |tail[j]| == |ws| && RowIntact(tail[j]) {
      assert tail[j] == from[j + 1];
    }
  }

  /** The header loop: every column name padded to its width, in colour. */
  method HeaderLine(row: Row, p: seq<int>) returns (h: string)
    requires |row| == |p|
    ensures h == HeaderCells(row, p)
  {
    h := "";
    var i := 0;
    while i < |p|
      invariant 0 <= i <= |p|
      invariant h == HeaderCells(row[..i], p[..i])
    {
      assert row[..i + 1][..i] == row[..i] && p[..i + 1][..i] == p[..i];
      h := h + "|" + ColumnColour + " " + Pad(row[i].name, p[i]) + " " + ResetColour;
      i := i + 1;
    }
    assert row[..|row|] == row && p[..|p|] == p;
  }

  /** The cell loop of one data line. */
  method DataCellsOf(row: Row, p: seq<int>) returns (d: string)
    requires |row| == |p| && RowIntact(row)
    ensures d == DataCells(row, p)
  {
    d := "";
    var i := 0;
    while i < |p|
      invariant 0 <= i <= |p|
      invariant RowIntact(row[..i])
      invariant d == DataCells(row[..i], p[..i])
    {
      assert row[..i + 1][..i] == row[..i] && p[..i + 1][..i] == p[..i];
      d := d + "| " + Pad(TableCellText(row[i].cell), p[i]) + " ";
      i := i + 1;
    }
    assert row[..|row|] == row && p[..|p|] == p;
  }

  /** Each cell of the row fits its column. */
  predicate Fits(row: Row, ws: seq<int>)
    requires |row| == |ws|
  {
    forall i :: 0 <= i < |row| ==> !row[i].cell.Corrupt? && |TableCellText(row[i].cell)| <= ws[i]
  }

  /** A data line whose cells fit is exactly as long as the separator line. */
  lemma {:induction false} DataLineLength(row: Row, ws: seq<int>)
    requires |row| == |ws| && RowIntact(row) && NonNegative(ws) && Fits(row, ws)
    ensures |DataLine(row, ws)| == |SeparatorLine(ws)|
  {
    DataCellsLength(row, ws);
  }

  lemma {:induction false} DataCellsLength(row: Row, ws: seq<int>)
    requires |row| == |ws| && RowIntact(row) && NonNegative(ws) && Fits(row, ws)
    ensures |DataCells(row, ws)| == Span(ws)
  {
    if row != [] {
      var init, wsInit := row[..|row| - 1], ws[..|ws| - 1];
      assert RowIntact(init) by {
        forall i | 0 <= i < |init| ensures !init[i].cell.Corrupt? {
          assert init[i] == row[i];
        }
      }
      assert Fits(init, wsInit) by {
        forall i | 0 <= i < |init| ensures !init[i].cell.Corrupt? && |TableCellText(init[i].cell)| <= wsInit[i] {
          assert init[i] == row[i];
        }
      }
      DataCellsLength(init, wsInit);
      var last := |row| - 1;
      assert |TableCellText(row[last].cell)| <= ws[last];
    }
  }

  /** No integer or float of the rows has a text longer than `tmp` keeps. */
  predicate Unclipped(rows: seq<Row>)
  {
    forall r, i :: 0 <= r < |rows| && 0 <= i < |rows[r]| && (rows[r][i].cell.Integer? || rows[r][i].cell.Float?) ==>
      |CellText(rows[r][i].cell)| <= TmpLimit
  }

  /** The measured widths are never negative. */
  lemma WidthsNonNegative(rows: seq<Row>, count: nat)
    ensures NonNegative(Widths(rows, count))
  {
  }

  /**
   * With the measured widths, every data line of the table lines up with the
   * separator, provided no integer or float was cut short while measuring.
   */
  lemma TableAligned(rows: seq<Row>, count: nat, r: nat)
    requires Rectangular(rows, count) && Intact(rows) && Unclipped(rows) && r < |rows|
    ensures NonNegative(Widths(rows, count))
    ensures |DataLine(rows[r], Widths(rows, count))| == |SeparatorLine(Widths(rows, count))|
  {
    var ws := Widths(rows, count);
    assert RowIntact(rows[r]);
    forall i | 0 <= i < count ensures |TableCellText(rows[r][i].cell)| <= ws[i] {
      WidthCovers(rows, i, r);
    }
    DataLineLength(rows[r], ws);
  }

  /**
   * A float whose `%f` text is longer than 127 characters is measured at
   * 127 but printed in full, so its data line runs past the separator.
   */
  lemma WideFloatOverruns(shown: string)
    requires |shown| == 200
    ensures Widths([[Column("x", Float(shown))]], 1) == [TmpLimit]
    ensures |DataLine([Column("x", Float(shown))], [TmpLimit])| > |SeparatorLine([TmpLimit])|
  {
    var rows := [[Column("x", Float(shown))]];
    assert rows[..0] == [];
    assert CellWidth(Float(shown)) == TmpLimit;
    assert MaxCell(rows, 0) == TmpLimit && MaxName(rows, 0) == 1;
    assert Width(rows, 0) == TmpLimit;
    var row := rows[0];
    assert row[..0] == [];
    assert [TmpLimit][..0] == [];
  }

  // ---------------------------------------------------------------------------
  // resql_cli_rep
  // ---------------------------------------------------------------------------

  /** What executing a statement gave: a result set, a query error, or a lost connection. */
  datatype ExecReply = Executed(rs: ResultSet) | SqlError(message: string) | Disconnected(message: string)

  /**
   * What `resql_cli_rep` does: return a status after printing lines, end the
   * process after a lost connection, or read through the null row pointer
   * that `resql_row` gives for an empty result (the tabular path with no
   * rows, which the source does not guard).
   */
  datatype RepOutcome = Returned(rc: int, output: seq<string>) | ProcessExit(output: seq<string>) | NullRowRead

  /** The outcome of `resql_cli_rep` for a reply, the vertical flag and the terminal width. */
  function RepSpec(flag: bool, reply: ExecReply, col: int): RepOutcome
    requires reply.Executed? ==> WellFormed(reply.rs)
  {
    match reply
    case Disconnected(msg) => ProcessExit(["Disconnected : " + msg + " \n"])
    case SqlError(msg) => Returned(-1, ["Error : " + msg + " \n"])
    case Executed(rs) =>
      match ChooseLayout(flag, rs, col)
      case Vertical => Returned(0, Texts(VerticalLines(rs.rows, LabelWidth(rs.rows), 0)))
      case NoRows => Returned(0, ["Done. No rows returned. \n"])
      case CorruptAbort => Returned(-1, [CorruptMessage])
      case Tabular(ws, total) =>
        WidthsNonNegative(rs.rows, rs.columnCount);
        if rs.rows != [] then Returned(0, TableText(rs.rows, ws, SeparatorLine(ws)))
        // With no rows `row` is null. With no columns nothing is read through
        // it, and the do-while prints one empty data line, as for one empty row.
        else if rs.columnCount == 0 then Returned(0, TableText([[]], ws, SeparatorLine(ws)))
        else NullRowRead
  }

  /**
   * The null row pointer is read through exactly when the table would be
   * printed for a result that has columns but no rows.
   */
  lemma NullRowReadIff(flag: bool, rs: ResultSet, col: int)
    requires WellFormed(rs)
    ensures RepSpec(flag, Executed(rs), col) == NullRowRead <==>
      !flag && rs.rowCount != -1 && rs.rows == [] && rs.columnCount > 0 && 1 + 3 * rs.columnCount <= col
  {
    if rs.rows == [] {
      SpanOfNoRows(rs.columnCount);
    }
  }

  /** With no rows every column is 0 wide, so each adds 3 to the table width. */
  lemma {:induction false} SpanOfNoRows(count: nat)
    ensures Span(Widths([], count)) == 3 * count
  {
    if count > 0 {
      assert Widths([], count)[..count - 1] == Widths([], count - 1);
      SpanOfNoRows(count - 1);
    }
  }

  /** A result with neither rows nor columns prints a one-character-wide empty table. */
  lemma ZeroColumnTable(rowCount: int, col: int)
    requires rowCount != -1 && col >= 1
    ensures RepSpec(false, Executed(ResultSet(rowCount, 0, [])), col) ==
      Returned(0, ["+\n", "|\n", "+\n", "|\n", "+\n"])
  {
    var ws, rows: seq<Row> := Widths([], 0), [[]];
    assert ws == [] && Total(ws) == 1;
    assert ChooseLayout(false, ResultSet(rowCount, 0, []), col) == Tabular(ws, 1);
    assert SeparatorLine(ws) == "+\n";
    assert rows[1..] == [];
    assert rows[0] == [] && HeaderCells(rows[0], ws) == "" && DataLine([], []) == "|\n";
    assert DataBlock(rows, ws, "+\n") == ["|\n", "+\n"];
    assert TableText(rows, ws, "+\n") == ["+\n", "|\n", "+\n", "|\n", "+\n"];
  }

  /** The width loop of `resql_cli_rep`: one for the left border, then each column and its padding. */
  method TableWidth(p: seq<int>) returns (total: int)
    ensures total == Total(p)
  {
    total := 1;
    var i := 0;
    while i < |p|
      invariant 0 <= i <= |p|
      invariant total == 1 + Span(p[..i])
    {
      assert p[..i + 1][..i] == p[..i];
      total := total + p[i] + 3;
      i := i + 1;
    }
    assert p[..|p|] == p;
  }

  /** `resql_cli_rep` after the statement has been sent: take the reply, measure, choose, print. */
  method Rep(vertical: bool, reply: ExecReply, ioctlOk: bool, wsCol: int) returns (o: RepOutcome)
    requires reply.Executed? ==> WellFormed(reply.rs)
    ensures o == RepSpec(vertical, reply, TerminalColumns(ioctlOk, wsCol))
  {
    if reply.Disconnected? {
      return ProcessExit(["Disconnected : " + reply.message + " \n"]);
    }
    if reply.SqlError? {
      return Returned(-1, ["Error : " + reply.message + " \n"]);
    }
    var col := 120;
    if ioctlOk && wsCol != 0 {
      col := wsCol;
    }
    o := PrintResult(vertical, reply.rs, col);
  }

  /** The part of `resql_cli_rep` that prints an executed statement's result. */
  method PrintResult(vertical: bool, rs: ResultSet, col: int) returns (o: RepOutcome)
    requires WellFormed(rs)
    ensures o == RepSpec(vertical, Executed(rs), col)
  {
    if vertical {
      var out := PrintVertical(rs.rows, rs.columnCount);
      return Returned(0, out);
    }
    if rs.rowCount == -1 {
      return Returned(0, ["Done. No rows returned. \n"]);
    }
    var count := rs.columnCount;
    var m := MeasureWidths(rs.rows, count);
    if m.CorruptTag? {
      return Returned(-1, [CorruptMessage]);
    }
    var p := m.widths;
    var total := TableWidth(p);
    if total > col {
      var out := PrintVertical(rs.rows, rs.columnCount);
      return Returned(0, out);
    }
    var rows := rs.rows;
    if rows == [] {
      if count > 0 {
        return NullRowRead;
      }
      rows := [[]];
    }
    WidthsNonNegative(rs.rows, count);
    var sep := PrintSeparator(total, p);
    var out := PrintTable(rows, p, sep);
    o := Returned(0, out);
  }
}
