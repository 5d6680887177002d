/**
 * Data frames as the pipeline sees them. A frame has an ordered list of
 * distinct column labels and a sequence of rows; every row maps each label
 * to a cell, and a cell is either a value or missing (NaN).
 */
module Tables {
  import opened Wrappers
  import opened Seqs

  type ColName = string

  /** A present cell: a number (ints and floats alike, as exact reals) or a string. */
  datatype Value = Num(x: real) | Str(s: string)

  type Cell = Option<Value>
  type Row = map<ColName, Cell>

  datatype Table = Table(columns: seq<ColName>, rows: seq<Row>)

  /** Column labels are distinct and every row has exactly the frame's columns. */
  predicate WellFormed(t: Table) {
    && Distinct(t.columns)
    && forall i | 0 <= i < |t.rows| :: t.rows[i].Keys == set c | c in t.columns
  }

  type Frame = t: Table | WellFormed(t) witness Table([], [])

  /** The binary outcome column: a deposit was made ("yes") or not ("no"). */
  const Target: ColName := "deposit"

  /** The exceptions the modelled stages can raise, each with the column at fault (empty when none is). */
  datatype Error =
    | FileNotFound(path: string)
    | KeyError(column: ColName)
    | TypeError(column: ColName)
    | ValueError(column: ColName)

  /** The parsed contents of every CSV file that exists, by path. */
  type FileSystem = map<string, Frame>

  /** The first listed column the frame lacks (`KeyError` when selecting `df[cols]`). */
  function FirstAbsent(t: Frame, cols: seq<ColName>): (r: Option<ColName>)
    ensures r.None? <==> forall k | 0 <= k < |cols| :: cols[k] in t.columns
    ensures r.None? <==> forall c | c in cols :: c in t.columns
    ensures r.Some? ==> r.value in cols && r.value !in t.columns
  {
    if |cols| == 0 then None
    else if cols[0] !in t.columns then Some(cols[0])
    else
      var r := FirstAbsent(t, cols[1..]);
      assert forall c | c in cols :: c == cols[0] || c in cols[1..];
      r
  }

  /** Loading a dataset: a missing path raises, an existing one yields its parsed frame. */
  function LoadData(fs: FileSystem, path: string): (r: Result<Frame, Error>)
    ensures r.Failure? <==> path !in fs
    ensures r.Failure? ==> r.error == FileNotFound(path)
    ensures r.Success? ==> r.value == fs[path]
  {
    if path in fs then Success(fs[path]) else Failure(FileNotFound(path))
  }

  lemma CellOf(t: Frame, i: int, c: ColName)
    requires 0 <= i < |t.rows| && c in t.columns
    ensures c in t.rows[i]
  {
    assert c in set d | d in t.columns;
  }

  /** The cells of column `c`, top to bottom (pandas `df[c]`). */
  function Column(t: Frame, c: ColName): (col: seq<Cell>)
    requires c in t.columns
    ensures |col| == |t.rows|
    ensures forall i | 0 <= i < |t.rows| :: c in t.rows[i] && col[i] == t.rows[i][c]
  {
    seq(|t.rows|, i requires 0 <= i < |t.rows| => CellOf(t, i, c); t.rows[i][c])
  }

  /**
   * Column assignment `df[c] = values`: an existing column keeps its place
   * and is overwritten, a new one is appended on the right.
   */
  function Assign(t: Frame, c: ColName, values: seq<Cell>): (r: Frame)
    requires |values| == |t.rows|
    ensures r.columns == if c in t.columns then t.columns else t.columns + [c]
    ensures |r.rows| == |t.rows|
    ensures forall i | 0 <= i < |t.rows| :: r.rows[i] == t.rows[i][c := values[i]]
  {
    var cols := if c in t.columns then t.columns else t.columns + [c];
    var rows := seq(|t.rows|, i requires 0 <= i < |t.rows| => t.rows[i][c := values[i]]);
    assert forall i | 0 <= i < |rows| :: rows[i].Keys == set d | d in cols;
    Table(cols, rows)
  }

  predicate IsNumber(c: Cell) {
    c.Some? && c.value.Num?
  }

  predicate IsString(c: Cell) {
    c.Some? && c.value.Str?
  }

  /** A column with a string cell, which numeric operations reject. */
  predicate HasString(col: seq<Cell>) {
    exists i | 0 <= i < |col| :: IsString(col[i])
  }

  /** A row with at least one missing field. */
  predicate HasMissing(r: Row) {
    exists c | c in r :: r[c].None?
  }
}
