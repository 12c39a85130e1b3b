/**
 * The published permit table as the updater and the permit-URL steps see
 * it: rows keyed by `permit_number`, each with named cells.  A column a row
 * does not carry reads as missing (NaN), which is how `pd.concat` fills the
 * columns one side lacks.
 */
module Frames {
  import opened Wrappers
  import opened Tables

  /** A row: its `permit_number` and its other cells by column name. */
  datatype Row = Row(permit: string, cells: map<string, Cell>)

  /** A frame: its column names (besides `permit_number`) and its rows. */
  datatype Frame = Frame(columns: set<string>, rows: seq<Row>)

  /** No row carries a column the frame does not have. */
  predicate WellFormed(f: Frame) {
    forall r :: r in f.rows ==> r.cells.Keys <= f.columns
  }

  /** The cell of column `c`; missing where the row does not carry it. */
  function Get(r: Row, c: string): Cell {
    if c in r.cells then r.cells[c] else Null
  }

  /** `df.loc[row, c] = v`: the row with column `c` set to `v` and nothing else changed. */
  function Set(r: Row, c: string, v: Cell): (w: Row)
    ensures w.permit == r.permit && w.cells.Keys == r.cells.Keys + {c}
    ensures Get(w, c) == v
    ensures forall d :: d != c ==> Get(w, d) == Get(r, d)
  {
    Row(r.permit, r.cells[c := v])
  }

  function RowPermit(r: Row): string {
    r.permit
  }

  /** The `permit_number` column. */
  function Permits(rows: seq<Row>): (ps: seq<string>)
    ensures |ps| == |rows|
    ensures forall i :: 0 <= i < |rows| ==> ps[i] == rows[i].permit
  {
    seq(|rows|, i requires 0 <= i < |rows| => rows[i].permit)
  }

  lemma PermitsMembers(rows: seq<Row>)
    ensures forall n :: n in Permits(rows) <==> exists r :: r in rows && r.permit == n
  {
    forall n | n in Permits(rows) ensures exists r :: r in rows && r.permit == n {
      var i :| 0 <= i < |rows| && Permits(rows)[i] == n;
      assert rows[i] in rows;
    }
    forall r | r in rows ensures r.permit in Permits(rows) {
      var i :| 0 <= i < |rows| && rows[i] == r;
      assert Permits(rows)[i] == r.permit;
    }
  }

  /** `pd.concat([a, b])`: the rows of `a`, then those of `b`, under the union of the columns. */
  function Concat(a: Frame, b: Frame): (c: Frame)
    ensures c.rows == a.rows + b.rows
    ensures c.columns == a.columns + b.columns
    ensures WellFormed(a) && WellFormed(b) ==> WellFormed(c)
  {
    Frame(a.columns + b.columns, a.rows + b.rows)
  }

  /** `df.drop(labels=cols, axis=1)`, which fails on a column the frame does not have. */
  function Drop(f: Frame, cols: set<string>): (r: Option<Frame>)
    ensures r.None? <==> !(cols <= f.columns)
    ensures r.Some? ==> r.value.columns == f.columns - cols && |r.value.rows| == |f.rows|
    ensures r.Some? ==> forall i :: 0 <= i < |f.rows| ==>
      r.value.rows[i].permit == f.rows[i].permit &&
      forall c :: c !in cols ==> Get(r.value.rows[i], c) == Get(f.rows[i], c)
  {
    if !(cols <= f.columns) then None
    else
      Some(Frame(f.columns - cols,
        seq(|f.rows|, i requires 0 <= i < |f.rows| =>
          Row(f.rows[i].permit, map c | c in f.rows[i].cells.Keys && c !in cols :: f.rows[i].cells[c]))))
  }

  /** `df[cols]` of one row, as the cells of exactly those columns. */
  function Project(r: Row, cols: set<string>): (p: map<string, Cell>)
    ensures p.Keys == cols
    ensures forall c :: c in cols ==> p[c] == Get(r, c)
  {
    map c | c in cols :: Get(r, c)
  }
}
