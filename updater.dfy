/**
 * The daily update (`update` in `__main__.py`): the downloaded permits are
 * split into those already published and new ones; the published rows of
 * the first kind get the downloaded values of every column both tables
 * share, in place; the new ones are processed and appended; missing permit
 * URLs are looked up and filled; and `_run_etl` projects the two published
 * tables.  Geocoding and transformation of the new rows are the parameter
 * `process`, the URL lookup the parameter `lookup`.
 */
module Updater {
  import opened Wrappers
  import opened Tables
  import opened Frames
  import opened PermitUrls

  // ---------------------------------------------------------------------------
  // The overlap partition

  /** `new_data["permit_number"].isin(old_data["permit_number"])`. */
  function Published(prior: Frame): Row -> bool {
    (r: Row) => r.permit in KeysOf(prior.rows, RowPermit)
  }

  /** `~old_sel`. */
  function Unpublished(prior: Frame): Row -> bool {
    (r: Row) => r.permit !in KeysOf(prior.rows, RowPermit)
  }

  /** The downloaded rows already published. */
  function Overlap(prior: Frame, downloaded: Frame): seq<Row> {
    Filter(downloaded.rows, Published(prior))
  }

  /** The downloaded rows not yet published. */
  function Fresh(prior: Frame, downloaded: Frame): seq<Row> {
    Filter(downloaded.rows, Unpublished(prior))
  }

  /**
   * Every downloaded row is either overlap or new, never both, and the two
   * together have as many rows as the download.
   */
  lemma OverlapPartition(prior: Frame, downloaded: Frame)
    ensures forall r :: r in downloaded.rows ==> (r in Overlap(prior, downloaded) <==> r !in Fresh(prior, downloaded))
    ensures forall r :: r in Overlap(prior, downloaded) ==> r.permit in Permits(prior.rows)
    ensures forall r :: r in Fresh(prior, downloaded) ==> r.permit !in Permits(prior.rows)
    ensures |Overlap(prior, downloaded)| + |Fresh(prior, downloaded)| == |downloaded.rows|
  {
    FilterSplit(downloaded.rows, Published(prior), Unpublished(prior));
    PermitsMembers(prior.rows);
    forall r | r in Overlap(prior, downloaded) ensures r.permit in Permits(prior.rows) {
      var i :| 0 <= i < |prior.rows| && RowPermit(prior.rows[i]) == r.permit;
      assert prior.rows[i] in prior.rows;
    }
    forall r | r in Fresh(prior, downloaded) ensures r.permit !in Permits(prior.rows) {
      if r.permit in Permits(prior.rows) {
        var x :| x in prior.rows && x.permit == r.permit;
        KeysOfMember(prior.rows, RowPermit, x);
      }
    }
  }

  // ---------------------------------------------------------------------------
  // The in-place overwrite

  /** `new_data.columns.intersection(old_data.columns)`. */
  function SharedColumns(prior: Frame, downloaded: Frame): set<string> {
    downloaded.columns * prior.columns
  }

  /** `old_data.loc[row, cols] = new_row[cols].values` for one row. */
  function Overwrite(r: Row, n: Row, cols: set<string>): (w: Row)
    ensures w.permit == r.permit
    ensures w.cells.Keys == r.cells.Keys + cols
    ensures forall c :: c in cols ==> Get(w, c) == Get(n, c)
    ensures forall c :: c !in cols ==> Get(w, c) == Get(r, c)
  {
    Row(r.permit, map c | c in r.cells.Keys + cols :: if c in cols then Get(n, c) else r.cells[c])
  }

  /** A published row after the loop: overwritten from the overlap row with its permit number, if any. */
  function Refreshed(r: Row, overlap: seq<Row>, cols: set<string>): (w: Row)
    ensures w.permit == r.permit
  {
    match First(overlap, RowPermit, r.permit)
    case None => r
    case Some(n) => Overwrite(r, n, cols)
  }

  /** One pass of the loop body: the rows with `n`'s permit number take its shared columns. */
  function Apply(r: Row, n: Row, cols: set<string>): (w: Row)
    ensures w.permit == r.permit
    ensures r.permit == n.permit ==>
      (forall c :: c in cols ==> Get(w, c) == Get(n, c)) && (forall c :: c !in cols ==> Get(w, c) == Get(r, c))
    ensures r.permit != n.permit ==> w == r
  {
    if r.permit == n.permit then Overwrite(r, n, cols) else r
  }

  /** Taking one more overlap row into account is one more pass. */
  lemma RefreshedStep(r: Row, overlap: seq<Row>, k: int, cols: set<string>)
    requires UniqueBy(overlap, RowPermit) && 0 <= k < |overlap|
    ensures Refreshed(r, overlap[..k + 1], cols) == Apply(Refreshed(r, overlap[..k], cols), overlap[k], cols)
  {
    assert overlap[..k + 1] == overlap[..k] + [overlap[k]];
    FirstAppend(overlap[..k], [overlap[k]], RowPermit, r.permit);
    if r.permit == overlap[k].permit {
      forall x | x in overlap[..k] ensures x.permit != overlap[k].permit {
        var i :| 0 <= i < k && overlap[i] == x;
      }
      assert r.permit !in KeysOf(overlap[..k], RowPermit);
    }
  }

  /**
   * The `for permit_number in new_data.loc[old_sel, "permit_number"]` loop:
   * each published row whose permit number was downloaded takes the
   * downloaded values of the shared columns; every other row is untouched.
   */
  method OverwriteOverlap(rows: array<Row>, overlap: seq<Row>, cols: set<string>)
    requires UniqueBy(overlap, RowPermit)
    modifies rows
    ensures forall i :: 0 <= i < rows.Length ==> rows[i] == Refreshed(old(rows[i]), overlap, cols)
  {
    for k := 0 to |overlap|
      invariant forall i :: 0 <= i < rows.Length ==> rows[i] == Refreshed(old(rows[i]), overlap[..k], cols)
    {
      OverwriteMatching(rows, overlap[k], cols);
      forall i | 0 <= i < rows.Length ensures rows[i] == Refreshed(old(rows[i]), overlap[..k + 1], cols) {
        RefreshedStep(old(rows[i]), overlap, k, cols);
      }
    }
    assert overlap[..|overlap|] == overlap;
  }

  /** `old_data.loc[old_data.permit_number == permit_number, cols] = ...` for one downloaded row. */
  method OverwriteMatching(rows: array<Row>, n: Row, cols: set<string>)
    modifies rows
    ensures forall i :: 0 <= i < rows.Length ==> rows[i] == Apply(old(rows[i]), n, cols)
  {
    for j := 0 to rows.Length
      invariant forall i :: 0 <= i < j ==> rows[i] == Apply(old(rows[i]), n, cols)
      invariant forall i :: j <= i < rows.Length ==> rows[i] == old(rows[i])
    {
      if rows[j].permit == n.permit {
        rows[j] := Overwrite(rows[j], n, cols);
      }
    }
  }

  /** The published rows once the loop is done. */
  function RefreshedRows(prior: Frame, downloaded: Frame): (rows: seq<Row>)
    ensures |rows| == |prior.rows|
    ensures forall i :: 0 <= i < |prior.rows| ==>
      rows[i] == Refreshed(prior.rows[i], Overlap(prior, downloaded), SharedColumns(prior, downloaded))
  {
    seq(|prior.rows|, i requires 0 <= i < |prior.rows| =>
      Refreshed(prior.rows[i], Overlap(prior, downloaded), SharedColumns(prior, downloaded)))
  }

  /**
   * A published row whose permit number was downloaded takes the download's
   * values in every shared column and keeps its other columns; a published
   * row whose permit number was not downloaded is left exactly as it was.
   */
  lemma RefreshedRowsMeaning(prior: Frame, downloaded: Frame, i: int)
    requires 0 <= i < |prior.rows|
    ensures var r, x := RefreshedRows(prior, downloaded)[i], prior.rows[i];
      r.permit == x.permit &&
      (x.permit in KeysOf(downloaded.rows, RowPermit) ==>
        (forall c :: c in SharedColumns(prior, downloaded) ==>
          Get(r, c) == Get(First(downloaded.rows, RowPermit, x.permit).value, c)) &&
        (forall c :: c !in SharedColumns(prior, downloaded) ==> Get(r, c) == Get(x, c))) &&
      (x.permit !in KeysOf(downloaded.rows, RowPermit) ==> r == x)
  {
    var x := prior.rows[i];
    KeysOfMember(prior.rows, RowPermit, x);
    FirstOfFilter(downloaded.rows, Published(prior), RowPermit, x.permit);
  }

  // ---------------------------------------------------------------------------
  // Append and URL fill

  /**
   * The table before the URL step: the refreshed published rows, followed by
   * the processed new rows when there are any (`pd.concat`), else a copy.
   */
  function Combined(prior: Frame, downloaded: Frame, process: seq<Row> -> Frame): (data: Frame)
    ensures |data.rows| >= |prior.rows|
    ensures data.rows[..|prior.rows|] == RefreshedRows(prior, downloaded)
    ensures Fresh(prior, downloaded) == [] ==> data == Frame(prior.columns, RefreshedRows(prior, downloaded))
    ensures Fresh(prior, downloaded) != [] ==>
      data.rows == RefreshedRows(prior, downloaded) + process(Fresh(prior, downloaded)).rows &&
      data.columns == prior.columns + process(Fresh(prior, downloaded)).columns
  {
    var refreshed := Frame(prior.columns, RefreshedRows(prior, downloaded));
    var added := Fresh(prior, downloaded);
    var data := if added != [] then Concat(refreshed, process(added)) else refreshed;
    assert data.rows[..|prior.rows|] == RefreshedRows(prior, downloaded);
    data
  }

  /**
   * No published permit is lost or renumbered: the first rows of the
   * combined table are the published rows, in order, under the same permit
   * numbers, and the published columns are all still there.
   */
  lemma CombinedKeepsPublished(prior: Frame, downloaded: Frame, process: seq<Row> -> Frame)
    ensures prior.columns <= Combined(prior, downloaded, process).columns
    ensures forall i :: 0 <= i < |prior.rows| ==> Combined(prior, downloaded, process).rows[i].permit == prior.rows[i].permit
    ensures Permits(prior.rows) == Permits(Combined(prior, downloaded, process).rows)[..|prior.rows|]
  {
    var data := Combined(prior, downloaded, process);
    forall i | 0 <= i < |prior.rows| ensures data.rows[i].permit == prior.rows[i].permit {
      assert data.rows[i] == data.rows[..|prior.rows|][i];
    }
  }

  /** A download with no rows leaves the published table exactly as it was. */
  lemma EmptyDownloadKeepsTable(prior: Frame, downloaded: Frame, process: seq<Row> -> Frame)
    requires downloaded.rows == []
    ensures Combined(prior, downloaded, process) == prior
  {
    assert Fresh(prior, downloaded) == [];
    assert Overlap(prior, downloaded) == [];
    assert RefreshedRows(prior, downloaded) == prior.rows;
  }

  datatype UpdateOutcome =
    | Updated(table: Frame)
      /** A URL lookup raised. */
    | LookupFailed
      /** `assert len(out) == len(data)` failed. */
    | RowCountChanged

  /**
   * The URL step of `update`: every permit number without a URL is looked
   * up (a failed lookup raises), the URLs are left-merged on the permit
   * number and fill the missing ones, and the row count is asserted.  The
   * assertion never fails; afterwards every row has a URL, the URLs rows
   * had are kept, and nothing else changes.
   */
  method ScrapeAndFill(data: Frame, lookup: string -> Option<string>) returns (outcome: UpdateOutcome)
    ensures !outcome.RowCountChanged?
    ensures outcome.LookupFailed? <==> exists n :: n in PermitsToScrape(data) && lookup(n).None?
    ensures outcome.Updated? ==>
      outcome.table.columns == data.columns + {UrlColumn} && |outcome.table.rows| == |data.rows|
    ensures outcome.Updated? ==> forall i :: 0 <= i < |data.rows| ==>
      outcome.table.rows[i].permit == data.rows[i].permit &&
      (forall c :: c != UrlColumn ==> Get(outcome.table.rows[i], c) == Get(data.rows[i], c)) &&
      (OwnUrl(data, data.rows[i]) != Null ==> Get(outcome.table.rows[i], UrlColumn) == OwnUrl(data, data.rows[i])) &&
      Get(outcome.table.rows[i], UrlColumn) != Null
    ensures outcome.Updated? ==> forall i :: 0 <= i < |data.rows| ==>
      OwnUrl(data, data.rows[i]) == Null ==>
        lookup(data.rows[i].permit).Some? &&
        Get(outcome.table.rows[i], UrlColumn) == Text(lookup(data.rows[i].permit).value)
  {
    var numbers := PermitsToScrape(data);
    var pairs := ScrapePermitUrls(numbers, lookup);
    if pairs.None? {
      return LookupFailed;
    }
    FillUrlsComplete(data, numbers, pairs.value);
    FillUrlsLookedUp(data, numbers, pairs.value, lookup);
    var out := FillUrls(data, pairs.value);
    if |out.rows| != |data.rows| {
      return RowCountChanged;
    }
    return Updated(out);
  }

  /**
   * `update`: the published rows are refreshed in place from the download,
   * the new rows are processed and appended, and the URL step runs on the
   * result.
   */
  method Update(prior: Frame, downloaded: Frame, process: seq<Row> -> Frame, lookup: string -> Option<string>)
    returns (data: Frame, outcome: UpdateOutcome)
    requires UniqueBy(downloaded.rows, RowPermit)
    ensures data == Combined(prior, downloaded, process)
    ensures !outcome.RowCountChanged?
    ensures outcome.LookupFailed? <==> exists n :: n in PermitsToScrape(data) && lookup(n).None?
    ensures outcome.Updated? ==>
      outcome.table.columns == data.columns + {UrlColumn} && |outcome.table.rows| == |data.rows|
    ensures outcome.Updated? ==> forall i :: 0 <= i < |data.rows| ==>
      outcome.table.rows[i].permit == data.rows[i].permit &&
      (forall c :: c != UrlColumn ==> Get(outcome.table.rows[i], c) == Get(data.rows[i], c)) &&
      (OwnUrl(data, data.rows[i]) != Null ==> Get(outcome.table.rows[i], UrlColumn) == OwnUrl(data, data.rows[i])) &&
      Get(outcome.table.rows[i], UrlColumn) != Null
    ensures outcome.Updated? ==> forall i :: 0 <= i < |data.rows| ==>
      OwnUrl(data, data.rows[i]) == Null ==>
        lookup(data.rows[i].permit).Some? &&
        Get(outcome.table.rows[i], UrlColumn) == Text(lookup(data.rows[i].permit).value)
  {
    var overlap := Filter(downloaded.rows, Published(prior));
    var added := Filter(downloaded.rows, Unpublished(prior));
    SubseqUnique(overlap, downloaded.rows, RowPermit);
    var rows := new Row[|prior.rows|](i requires 0 <= i < |prior.rows| => prior.rows[i]);
    OverwriteOverlap(rows, overlap, SharedColumns(prior, downloaded));
    assert rows[..] == RefreshedRows(prior, downloaded);
    data := Frame(prior.columns, rows[..]);
    if added != [] {
      data := Concat(data, process(added));
    }
    outcome := ScrapeAndFill(data, lookup);
  }

  // ---------------------------------------------------------------------------
  // `_run_etl`

  const SchoolColumns: seq<string> := ["school_name", "school_level", "school_website", "school_address", "year_opened"]

  const GeometryColumn: string := "geometry"

  /** `["geometry"] + SCHOOL_COLUMNS[2:]`: the columns the published permit table leaves out. */
  function DroppedColumns(): set<string> {
    {GeometryColumn} + set c | c in SchoolColumns[2..]
  }

  /** `SCHOOL_COLUMNS + ["geometry"]`: the columns of the schools table. */
  function SchoolTableColumns(): set<string> {
    (set c | c in SchoolColumns) + {GeometryColumn}
  }

  /**
   * The permit table as uploaded: every row, without the geometry, the
   * school's website and address and its opening year; a missing column
   * makes the drop fail.
   */
  function PermitTable(df: Frame): (t: Option<Frame>)
    ensures t.None? <==> !(DroppedColumns() <= df.columns)
    ensures t.Some? ==>
      t.value.columns == df.columns - {"geometry", "school_website", "school_address", "year_opened"} &&
      |t.value.rows| == |df.rows|
    ensures t.Some? ==> forall i :: 0 <= i < |df.rows| ==>
      t.value.rows[i].permit == df.rows[i].permit &&
      forall c :: c !in DroppedColumns() ==> Get(t.value.rows[i], c) == Get(df.rows[i], c)
  {
    assert SchoolColumns[2..] == ["school_website", "school_address", "year_opened"];
    assert DroppedColumns() == {"geometry", "school_website", "school_address", "year_opened"};
    Drop(df, DroppedColumns())
  }

  /**
   * The schools table as uploaded: the school columns and geometry of the
   * rows, each distinct combination once, in order of first appearance.
   */
  function SchoolTable(df: Frame): (t: Option<seq<map<string, Cell>>>)
    ensures t.None? <==> !(SchoolTableColumns() <= df.columns)
    ensures t.Some? ==> forall s :: s in t.value <==> exists r :: r in df.rows && s == Project(r, SchoolTableColumns())
    ensures t.Some? ==> forall i, j :: 0 <= i < j < |t.value| ==> t.value[i] != t.value[j]
    ensures t.Some? ==> forall s :: s in t.value ==> s.Keys == SchoolTableColumns()
  {
    if !(SchoolTableColumns() <= df.columns) then None
    else
      var projected := seq(|df.rows|, i requires 0 <= i < |df.rows| => Project(df.rows[i], SchoolTableColumns()));
      forall s | s in projected ensures exists r :: r in df.rows && s == Project(r, SchoolTableColumns()) {
        var i :| 0 <= i < |projected| && projected[i] == s;
        assert df.rows[i] in df.rows;
      }
      forall r | r in df.rows ensures Project(r, SchoolTableColumns()) in projected {
        var i :| 0 <= i < |df.rows| && df.rows[i] == r;
        assert projected[i] == Project(r, SchoolTableColumns());
      }
      Some(Distinct(projected))
  }
}
