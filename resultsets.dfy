/**
 * The query client's result set, as the command-line client sees it: a
 * finite sequence of rows, each an ordered sequence of columns that carry a
 * name and a typed cell. The cursor that the client steps through with
 * `resql_row` and rewinds with `resql_reset_rows` is modelled by the
 * sequence it yields; every pass over it starts again from the first row.
 */
module ResultSets {
  import opened CStrings

  /**
   * A cell. `Float` carries the text `%f` gives for its value, because the
   * model does not interpret floating point. `Corrupt` is any tag outside
   * the five kinds the client knows.
   */
  datatype Cell =
    | Integer(value: int)
    | Float(shown: string)
    | Text(text: string)
    | Blob(len: int)
    | Null
    | Corrupt(tag: int)

  datatype Column = Column(name: string, cell: Cell)

  type Row = seq<Column>

  /**
   * An executed statement's result: the row count the server reports (-1
   * for a statement that returns no rows), the column count and the rows.
   */
  datatype ResultSet = ResultSet(rowCount: int, columnCount: nat, rows: seq<Row>)

  /** Every row has exactly `count` columns. */
  predicate Rectangular(rows: seq<Row>, count: nat)
  {
    forall r :: 0 <= r < |rows| ==> |rows[r]| == count
  }

  predicate WellFormed(rs: ResultSet)
  {
    Rectangular(rs.rows, rs.columnCount)
  }

  /** No cell of the row carries an unknown tag. */
  predicate RowIntact(row: Row)
  {
    forall i :: 0 <= i < |row| ==> !row[i].cell.Corrupt?
  }

  /** No cell of any row carries an unknown tag. */
  predicate Intact(rows: seq<Row>)
  {
    forall r :: 0 <= r < |rows| ==> RowIntact(rows[r])
  }

  /**
   * The text the table printer writes for a cell: `PRIi64` for integers,
   * `%f` for floats, the text itself, "<len> bytes" for blobs, "null".
   */
  function CellText(c: Cell): string
    requires !c.Corrupt?
  {
    match c
    case Integer(v) => DecimalString(v)
    case Float(shown) => shown
    case Text(t) => t
    case Blob(len) => DecimalString(len) + " bytes"
    case Null => "null"
  }

  /** `tmp` in `resql_cli_rep` holds 128 bytes, so `snprintf` leaves at most 127 characters there. */
  const TmpLimit: nat := 127

  /**
   * The text the table printer writes for a cell: a blob's text goes through
   * `tmp` and is cut there; the other kinds are printed directly.
   */
  function TableCellText(c: Cell): string
    requires !c.Corrupt?
  {
    if c.Blob? then Truncated(CellText(c), TmpLimit) else CellText(c)
  }

  /**
   * The width the measure pass takes for a cell: a text's own length,
   * 4 for "null", and otherwise `strlen(tmp)` after formatting into `tmp`,
   * so never more than 127. A corrupt cell aborts the pass before its width
   * is used, so 0 stands there.
   */
  function CellWidth(c: Cell): nat
  {
    match c
    case Text(t) => |t|
    case Null => |"null"|
    case Corrupt(_) => 0
    case _ => |Truncated(CellText(c), TmpLimit)|
  }

  /** The `MAX` macro: `b` when `a < b`, else `a`. */
  function Max(a: int, b: int): int
  {
    if a < b then b else a
  }
}
