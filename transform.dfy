/**
 * The column steps of `transform` that the published tables depend on: the
 * site address taking the place of the facility address where there is one,
 * one set of coordinates per school, the " (Closed)" suffix on the names of
 * closed schools, and the `elementarymiddle` level spelling fix.
 */
module Transform {
  import opened Wrappers
  import opened Tables
  import opened Frames

  const StreetAddress: string := "street_address"
  const FacilityAddress: string := "facility_address"
  const SchoolName: string := "school_name"
  const SchoolLevel: string := "school_level"
  const YearClosed: string := "year_closed"
  const Lat: string := "lat"
  const Lng: string := "lng"

  // ---------------------------------------------------------------------------
  // Site address

  /**
   * `street_address.fillna(facility_address)`, then `facility_address`
   * dropped and `street_address` renamed to it, for one row.
   */
  function SiteAddress(r: Row): (w: Row)
    ensures w.permit == r.permit
    ensures Get(w, FacilityAddress) == if Get(r, StreetAddress) != Null then Get(r, StreetAddress) else Get(r, FacilityAddress)
    ensures Get(w, StreetAddress) == Null
    ensures forall c :: c != StreetAddress && c != FacilityAddress ==> Get(w, c) == Get(r, c)
  {
    var address := if Get(r, StreetAddress) != Null then Get(r, StreetAddress) else Get(r, FacilityAddress);
    Row(r.permit, (map c | c in r.cells.Keys && c != StreetAddress && c != FacilityAddress :: r.cells[c])[FacilityAddress := address])
  }

  /**
   * The address step of `transform`: both columns must exist (reading
   * `street_address` and dropping `facility_address` raise otherwise); the
   * street address wins where it is present and the facility address is
   * kept where it is not, and no other column changes.
   */
  function UseSiteAddress(f: Frame): (g: Option<Frame>)
    ensures g.None? <==> !({StreetAddress, FacilityAddress} <= f.columns)
    ensures g.Some? ==> g.value.columns == f.columns - {StreetAddress} && |g.value.rows| == |f.rows|
    ensures g.Some? ==> forall i :: 0 <= i < |f.rows| ==> g.value.rows[i] == SiteAddress(f.rows[i])
  {
    if !({StreetAddress, FacilityAddress} <= f.columns) then None
    else Some(Frame(f.columns - {StreetAddress}, seq(|f.rows|, i requires 0 <= i < |f.rows| => SiteAddress(f.rows[i]))))
  }

  /** An address is missing afterwards only where both the street and the facility address were missing. */
  lemma SiteAddressMissing(r: Row)
    ensures Get(SiteAddress(r), FacilityAddress) == Null <==>
      Get(r, StreetAddress) == Null && Get(r, FacilityAddress) == Null
    ensures Get(r, StreetAddress) != Null ==> Get(SiteAddress(r), FacilityAddress) == Get(r, StreetAddress)
  {
  }

  // ---------------------------------------------------------------------------
  // One set of coordinates per school

  /** The merge key of the coordinate step: the school name, missing ones included. */
  function SchoolKey(r: Row): Cell {
    Get(r, SchoolName)
  }

  /** A row with its `lat` and `lng` replaced by those of `site`. */
  function Relocated(r: Row, site: Row): (w: Row)
    ensures w.permit == r.permit
    ensures Lat in w.cells && Lng in w.cells
    ensures Get(w, Lat) == Get(site, Lat) && Get(w, Lng) == Get(site, Lng)
    ensures forall c :: c != Lat && c != Lng ==> Get(w, c) == Get(r, c)
  {
    Row(r.permit, (map c | c in r.cells.Keys && c != Lat && c != Lng :: r.cells[c])[Lat := Get(site, Lat)][Lng := Get(site, Lng)])
  }

  /** The right-hand row of a left merge; a miss brings missing coordinates. */
  function SiteOrMissing(site: Option<Row>): Row {
    match site
    case Some(s) => s
    case None => Row("", map[])
  }

  /** Every row finds, among the first row per school, the first row of its own school. */
  lemma SitesCover(rows: seq<Row>)
    ensures forall i :: 0 <= i < |rows| ==>
      First(DedupBy(rows, SchoolKey), SchoolKey, SchoolKey(rows[i])) == First(rows, SchoolKey, SchoolKey(rows[i])) &&
      First(rows, SchoolKey, SchoolKey(rows[i])).Some?
  {
    forall i | 0 <= i < |rows|
      ensures First(DedupBy(rows, SchoolKey), SchoolKey, SchoolKey(rows[i])) == First(rows, SchoolKey, SchoolKey(rows[i]))
      ensures First(rows, SchoolKey, SchoolKey(rows[i])).Some?
    {
      FirstOfDedup(rows, SchoolKey, SchoolKey(rows[i]));
      KeysOfMember(rows, SchoolKey, rows[i]);
    }
  }

  /**
   * `geo_coords = data[["school_name", "lat", "lng"]].drop_duplicates(subset=["school_name"])`
   * and the left merge of the data, without its coordinates, on it: every
   * row keeps its place and its other columns and takes the coordinates of
   * the first row naming the same school.  The three columns must exist.
   */
  function DedupCoordinates(f: Frame): (g: Option<Frame>)
    ensures g.None? <==> !({SchoolName, Lat, Lng} <= f.columns)
    ensures g.Some? ==> g.value.columns == f.columns && |g.value.rows| == |f.rows|
    ensures g.Some? ==> forall i :: 0 <= i < |f.rows| ==>
      g.value.rows[i] == Relocated(f.rows[i], First(f.rows, SchoolKey, SchoolKey(f.rows[i])).value)
  {
    if !({SchoolName, Lat, Lng} <= f.columns) then None
    else
      var sites := DedupBy(f.rows, SchoolKey);
      var joined := LeftJoin(f.rows, sites, SchoolKey, SchoolKey);
      LeftJoinUnique(f.rows, sites, SchoolKey, SchoolKey);
      SitesCover(f.rows);
      Some(Frame(f.columns, seq(|joined|, i requires 0 <= i < |joined| => Relocated(joined[i].0, SiteOrMissing(joined[i].1)))))
  }

  /** Two rows naming the same school end up with the same coordinates, taken from a row of that school. */
  lemma SameSchoolSameCoordinates(f: Frame, i: int, j: int) returns (k: int)
    requires DedupCoordinates(f).Some? && 0 <= i < |f.rows| && 0 <= j < |f.rows|
    requires SchoolKey(f.rows[i]) == SchoolKey(f.rows[j])
    ensures 0 <= k <= i && SchoolKey(f.rows[k]) == SchoolKey(f.rows[i])
    ensures var g := DedupCoordinates(f).value;
      Get(g.rows[i], Lat) == Get(g.rows[j], Lat) == Get(f.rows[k], Lat) &&
      Get(g.rows[i], Lng) == Get(g.rows[j], Lng) == Get(f.rows[k], Lng)
  {
    k := FirstComesFirst(f.rows, SchoolKey, i);
  }

  /**
   * When two sequences of rows name the same schools position by position,
   * the first row of a school sits at the same position in both.
   */
  lemma {:induction false} FirstAligned(f: seq<Row>, g: seq<Row>, k: Cell) returns (i: int)
    requires |f| == |g| && forall j :: 0 <= j < |f| ==> SchoolKey(f[j]) == SchoolKey(g[j])
    requires k in KeysOf(f, SchoolKey)
    ensures 0 <= i < |f| && First(f, SchoolKey, k) == Some(f[i]) && First(g, SchoolKey, k) == Some(g[i])
    decreases |f|
  {
    if SchoolKey(f[0]) == k {
      i := 0;
    } else {
      KeysOfCons(f, SchoolKey);
      var i' := FirstAligned(f[1..], g[1..], k);
      i := i' + 1;
    }
  }

  /** Relocating a row to coordinates it already carries changes nothing. */
  lemma RelocatedInPlace(w: Row, site: Row)
    requires Lat in w.cells && Lng in w.cells
    requires Get(site, Lat) == w.cells[Lat] && Get(site, Lng) == w.cells[Lng]
    ensures Relocated(w, site) == w
  {
    assert Relocated(w, site).cells == w.cells;
  }

  /** The coordinate step keeps every row's school name. */
  lemma SchoolNamesKept(f: Frame)
    requires DedupCoordinates(f).Some?
    ensures |DedupCoordinates(f).value.rows| == |f.rows|
    ensures forall j :: 0 <= j < |f.rows| ==> SchoolKey(f.rows[j]) == SchoolKey(DedupCoordinates(f).value.rows[j])
  {
    var g := DedupCoordinates(f).value;
    forall j | 0 <= j < |f.rows| ensures SchoolKey(f.rows[j]) == SchoolKey(g.rows[j]) {
      assert g.rows[j] == Relocated(f.rows[j], First(f.rows, SchoolKey, SchoolKey(f.rows[j])).value);
    }
  }

  /** After the coordinate step, each row already has the coordinates of the first row of its school. */
  lemma SettledRow(f: Frame, i: int)
    requires DedupCoordinates(f).Some? && 0 <= i < |f.rows|
    ensures var g := DedupCoordinates(f).value;
      Relocated(g.rows[i], First(g.rows, SchoolKey, SchoolKey(g.rows[i])).value) == g.rows[i]
  {
    var g := DedupCoordinates(f).value;
    var k := SchoolKey(f.rows[i]);
    SchoolNamesKept(f);
    KeysOfMember(f.rows, SchoolKey, f.rows[i]);
    var i0 := FirstAligned(f.rows, g.rows, k);
    var site := f.rows[i0];
    assert g.rows[i0] == Relocated(f.rows[i0], site) by {
      assert SchoolKey(f.rows[i0]) == k;
    }
    assert g.rows[i] == Relocated(f.rows[i], site);
    RelocatedInPlace(g.rows[i], g.rows[i0]);
  }

  /** One row of the coordinate step run twice. */
  lemma SettledTwice(f: Frame, i: int)
    requires DedupCoordinates(f).Some? && 0 <= i < |f.rows|
    ensures DedupCoordinates(DedupCoordinates(f).value).Some?
    ensures |DedupCoordinates(DedupCoordinates(f).value).value.rows| == |f.rows|
    ensures DedupCoordinates(DedupCoordinates(f).value).value.rows[i] == DedupCoordinates(f).value.rows[i]
  {
    var g := DedupCoordinates(f).value;
    SettledRow(f, i);
    assert DedupCoordinates(g).value.rows[i] == Relocated(g.rows[i], First(g.rows, SchoolKey, SchoolKey(g.rows[i])).value);
  }

  /** The rows of the coordinate step run twice. */
  lemma SettledRows(f: Frame)
    requires DedupCoordinates(f).Some?
    ensures DedupCoordinates(DedupCoordinates(f).value).Some?
    ensures DedupCoordinates(DedupCoordinates(f).value).value.rows == DedupCoordinates(f).value.rows
  {
    var g := DedupCoordinates(f).value;
    var h := DedupCoordinates(g).value;
    forall i | 0 <= i < |g.rows| ensures h.rows[i] == g.rows[i] {
      SettledTwice(f, i);
    }
  }

  /** Running the coordinate step on its own output changes nothing. */
  lemma DedupCoordinatesIdempotent(f: Frame)
    requires DedupCoordinates(f).Some?
    ensures DedupCoordinates(DedupCoordinates(f).value) == DedupCoordinates(f)
  {
    SettledRows(f);
  }

  // ---------------------------------------------------------------------------
  // Closed schools

  /** `data.loc[year_closed.notnull(), "school_name"] += " (Closed)"` for one row. */
  function MarkedClosed(r: Row): (w: Row)
    ensures w.permit == r.permit
    ensures forall c :: c != SchoolName ==> Get(w, c) == Get(r, c)
  {
    if Get(r, YearClosed) != Null && Get(r, SchoolName).Text? then
      Set(r, SchoolName, Text(Get(r, SchoolName).text + " (Closed)"))
    else r
  }

  /** The name a marked row had before: the suffix is removed again where the school is closed. */
  function UnmarkedName(w: Row): Cell {
    var name := Get(w, SchoolName);
    if Get(w, YearClosed) != Null && name.Text? && |name.text| >= 9 then Text(name.text[..|name.text| - 9])
    else name
  }

  /**
   * The suffix is added exactly to the names of closed schools and loses
   * nothing: removing it gives the original name back.
   */
  lemma MarkedClosedMeaning(r: Row)
    ensures UnmarkedName(MarkedClosed(r)) == Get(r, SchoolName)
    ensures Get(MarkedClosed(r), SchoolName) != Get(r, SchoolName) <==>
      Get(r, YearClosed) != Null && Get(r, SchoolName).Text?
  {
    var name := Get(r, SchoolName);
    if Get(r, YearClosed) != Null && name.Text? {
      var t := name.text + " (Closed)";
      assert t[..|t| - 9] == name.text;
      assert |t| != |name.text|;
    }
  }

  /** The closed-school step, in place on the rows. */
  method MarkClosed(rows: array<Row>)
    modifies rows
    ensures forall i :: 0 <= i < rows.Length ==> rows[i] == MarkedClosed(old(rows[i]))
  {
    for i := 0 to rows.Length
      invariant forall j :: 0 <= j < i ==> rows[j] == MarkedClosed(old(rows[j]))
      invariant forall j :: i <= j < rows.Length ==> rows[j] == old(rows[j])
    {
      rows[i] := MarkedClosed(rows[i]);
    }
  }

  // ---------------------------------------------------------------------------
  // School level spelling

  /** `school_level.replace({"elementarymiddle": "elementary-middle"})` for one row: a whole-value replace. */
  function FixedLevel(r: Row): (w: Row)
    ensures w.permit == r.permit
    ensures forall c :: c != SchoolLevel ==> Get(w, c) == Get(r, c)
  {
    if Get(r, SchoolLevel) == Text("elementarymiddle") then Set(r, SchoolLevel, Text("elementary-middle"))
    else r
  }

  /** Only the exact value is respelled, no row is left with it, and the fix is idempotent. */
  lemma FixedLevelMeaning(r: Row)
    ensures Get(FixedLevel(r), SchoolLevel) != Text("elementarymiddle")
    ensures Get(r, SchoolLevel) != Text("elementarymiddle") ==> FixedLevel(r) == r
    ensures FixedLevel(FixedLevel(r)) == FixedLevel(r)
  {
  }

  /** The level fix, in place on the rows. */
  method FixSchoolLevel(rows: array<Row>)
    modifies rows
    ensures forall i :: 0 <= i < rows.Length ==> rows[i] == FixedLevel(old(rows[i]))
  {
    for i := 0 to rows.Length
      invariant forall j :: 0 <= j < i ==> rows[j] == FixedLevel(old(rows[j]))
      invariant forall j :: i <= j < rows.Length ==> rows[j] == old(rows[j])
    {
      rows[i] := FixedLevel(rows[i]);
    }
  }
}
