/**
 * The school registry (`load_schools_database` in `data/schools.py`): yearly
 * snapshot files, newest first, then the legacy longitudinal list, are
 * stacked; the first row per (ULCS code, publication name) is kept; levels
 * are lower-cased, a "open" closing year becomes missing; schools whose
 * name has an `EOP` word are dropped, abbreviations are lower-cased, and
 * rows without a name or an address are dropped.  Reading a file is the
 * parameter `read`; the GPS text is kept as the school's location cell.
 */
module Schools {
  import opened Wrappers
  import opened Strings
  import opened Tables

  /** A registry row under the spreadsheet's columns (ULCS Code ... Year Closed). */
  datatype RawSchool = RawSchool(
    code: Cell,
    name: Cell,
    level: Cell,
    gps: Cell,
    address: Cell,
    website: Cell,
    year: Cell,
    abbreviation: Cell,
    yearOpened: Cell,
    yearClosed: Cell)

  /** A cleaned registry row; the helper columns (lat, lng, gps text, school year) are gone. */
  datatype School = School(
    code: Cell,
    name: Cell,
    level: Cell,
    address: Cell,
    website: Cell,
    abbreviation: Cell,
    yearOpened: Cell,
    yearClosed: Cell,
    location: Cell)

  // ---------------------------------------------------------------------------
  // Snapshot files

  /** The yearly snapshot files are the ones whose name starts with "2". */
  predicate IsSnapshot(name: string) {
    StartsWith(name, "2")
  }

  predicate NameDescending(a: string, b: string) {
    StrLe(b, a)
  }

  lemma NameDescendingPreorder()
    ensures TotalPreorder(NameDescending)
  {
    forall a: string, b: string ensures NameDescending(a, b) || NameDescending(b, a) {
      StrLeTotal(a, b);
    }
    forall a: string, b: string, c: string | NameDescending(a, b) && NameDescending(b, c)
      ensures NameDescending(a, c)
    {
      StrLeTrans(c, b, a);
    }
  }

  /** `sorted(glob("2*"), reverse=True)`: the snapshot files, newest name first. */
  function NewestFirst(listing: seq<string>): (files: seq<string>)
    ensures forall f :: f in files <==> f in listing && IsSnapshot(f)
    ensures forall i, j :: 0 <= i < j < |files| ==> StrLe(files[j], files[i])
  {
    NameDescendingPreorder();
    var selected := Filter(listing, IsSnapshot);
    var files := SortBy(selected, NameDescending);
    assert forall f :: f in files <==> f in multiset(selected);
    files
  }

  /** `f.name.split()[0]`: a snapshot's name always has a first word, since it starts with "2". */
  function SchoolYear(name: string): (y: string)
    requires IsSnapshot(name)
    ensures y == Tokens(name)[0]
  {
    assert name[0] == '2';
    Tokens(name)[0]
  }

  /** `data[-1]["School Year"] = ...`: every row of a snapshot tagged with its school year. */
  function Tagged(rows: seq<RawSchool>, year: string): (r: seq<RawSchool>)
    ensures |r| == |rows|
    ensures forall i :: 0 <= i < |rows| ==> r[i] == rows[i].(year := Text(year))
  {
    seq(|rows|, i requires 0 <= i < |rows| => rows[i].(year := Text(year)))
  }

  /** The snapshot files' rows, stacked in file order. */
  function SnapshotRows(files: seq<string>, read: string -> seq<RawSchool>): seq<RawSchool>
    requires forall f :: f in files ==> IsSnapshot(f)
  {
    if files == [] then []
    else Tagged(read(files[0]), SchoolYear(files[0])) + SnapshotRows(files[1..], read)
  }

  lemma {:induction false} SnapshotRowsAppend(files: seq<string>, f: string, read: string -> seq<RawSchool>)
    requires forall g :: g in files ==> IsSnapshot(g)
    requires IsSnapshot(f)
    ensures SnapshotRows(files + [f], read) == SnapshotRows(files, read) + Tagged(read(f), SchoolYear(f))
    decreases |files|
  {
    if files == [] {
      assert [f][1..] == [];
    } else {
      assert (files + [f])[1..] == files[1..] + [f];
      SnapshotRowsAppend(files[1..], f, read);
    }
  }

  /** Taking one more file into account adds its tagged rows at the end. */
  lemma SnapshotRowsStep(files: seq<string>, i: int, read: string -> seq<RawSchool>)
    requires forall f :: f in files ==> IsSnapshot(f)
    requires 0 <= i < |files|
    ensures IsSnapshot(files[i])
    ensures SnapshotRows(files[..i + 1], read) == SnapshotRows(files[..i], read) + Tagged(read(files[i]), SchoolYear(files[i]))
  {
    assert files[..i + 1] == files[..i] + [files[i]];
    SnapshotRowsAppend(files[..i], files[i], read);
  }

  /**
   * The loop over the snapshot files and the legacy list: each file's rows,
   * tagged with its school year, newest file first, then the legacy rows.
   */
  method LoadSnapshots(listing: seq<string>, read: string -> seq<RawSchool>, legacy: seq<RawSchool>)
    returns (rows: seq<RawSchool>)
    ensures rows == SnapshotRows(NewestFirst(listing), read) + legacy
  {
    var files := NewestFirst(listing);
    assert forall f :: f in files ==> IsSnapshot(f);
    rows := [];
    var i := 0;
    while i < |files|
      invariant 0 <= i <= |files|
      invariant forall f :: f in files[..i] ==> IsSnapshot(f)
      invariant rows == SnapshotRows(files[..i], read)
    {
      var f := files[i];
      SnapshotRowsStep(files, i, read);
      rows := rows + Tagged(read(f), SchoolYear(f));
      i := i + 1;
    }
    assert files[..i] == files;
    rows := rows + legacy;
  }

  // ---------------------------------------------------------------------------
  // Keep-first on (code, name)

  function Key(s: RawSchool): (Cell, Cell) {
    (s.code, s.name)
  }

  /** The row for `k` in the newest snapshot that has one, else in the legacy list. */
  function Newest(files: seq<string>, read: string -> seq<RawSchool>, legacy: seq<RawSchool>, k: (Cell, Cell)): Option<RawSchool>
    requires forall f :: f in files ==> IsSnapshot(f)
  {
    if files == [] then First(legacy, Key, k)
    else
      var here := Tagged(read(files[0]), SchoolYear(files[0]));
      if k in KeysOf(here, Key) then First(here, Key, k)
      else Newest(files[1..], read, legacy, k)
  }

  /** De-duplicating the stacked rows keeps, for each key, the newest snapshot's row. */
  lemma {:induction false} FirstIsNewest(files: seq<string>, read: string -> seq<RawSchool>, legacy: seq<RawSchool>, k: (Cell, Cell))
    requires forall f :: f in files ==> IsSnapshot(f)
    ensures First(SnapshotRows(files, read) + legacy, Key, k) == Newest(files, read, legacy, k)
    decreases |files|
  {
    if files == [] {
      assert SnapshotRows(files, read) + legacy == legacy;
    } else {
      var here := Tagged(read(files[0]), SchoolYear(files[0]));
      var later := SnapshotRows(files[1..], read);
      assert SnapshotRows(files, read) + legacy == here + (later + legacy);
      FirstAppend(here, later + legacy, Key, k);
      FirstIsNewest(files[1..], read, legacy, k);
    }
  }

  // ---------------------------------------------------------------------------
  // Normalisation

  /** `.str.lower()`: text is lower-cased, anything else becomes missing. */
  function LowerCell(c: Cell): (r: Cell)
    ensures r.Text? <==> c.Text?
    ensures r.Text? ==> r.text == Lower(c.text)
  {
    if c.Text? then Text(Lower(c.text)) else Null
  }

  /** `year_closed.replace({"open": np.nan})`: only the whole value "open" changes. */
  function ReopenClosed(c: Cell): (r: Cell)
    ensures c == Text("open") ==> r == Null
    ensures c != Text("open") ==> r == c
  {
    if c == Text("open") then Null else c
  }

  function Normalise(s: RawSchool): School {
    School(s.code, s.name, LowerCell(s.level), s.address, s.website,
           LowerCell(s.abbreviation), s.yearOpened, ReopenClosed(s.yearClosed), s.gps)
  }

  /** `any(word == "EOP" for word in name.split())`. */
  predicate HasEopWord(name: string) {
    "EOP" in Tokens(name)
  }

  /** A name has an `EOP` word exactly when "EOP" stands alone between spaces or ends of the name. */
  lemma EopWordIsWholeWord(name: string)
    ensures HasEopWord(name) <==> exists i, j :: IsRun(name, i, j) && name[i..j] == "EOP"
  {
    if HasEopWord(name) {
      var n :| 0 <= n < |Tokens(name)| && Tokens(name)[n] == "EOP";
      var i, j := TokenPosition(name, n);
    }
    if exists i, j :: IsRun(name, i, j) && name[i..j] == "EOP" {
      var i, j :| IsRun(name, i, j) && name[i..j] == "EOP";
      RunIsToken(name, i, j);
    }
  }

  /** "EOP" inside a longer word does not drop a school. */
  lemma EopInsideWordKept()
    ensures !HasEopWord("LEOPOLD")
  {
    VisibleIsOneToken("LEOPOLD");
  }

  /** A no-break space separates words too, so "EOP" before one drops a school. */
  lemma EopBeforeNoBreakSpaceDropped()
    ensures HasEopWord("EOP\U{00A0}Center")
  {
    var name := "EOP\U{00A0}Center";
    assert IsSpace(name[3]);
    VisibleWordBefore(name, 3);
    assert IsVisible(name[0]);
    assert Tokens(name)[0] == name[..3] == "EOP";
  }

  function SchoolKey(s: School): (Cell, Cell) {
    (s.code, s.name)
  }

  function NormaliseAll(rows: seq<RawSchool>): (r: seq<School>)
    ensures |r| == |rows|
    ensures forall i :: 0 <= i < |rows| ==> r[i] == Normalise(rows[i])
  {
    seq(|rows|, i requires 0 <= i < |rows| => Normalise(rows[i]))
  }

  predicate EopFree(s: School) {
    !(s.name.Text? && HasEopWord(s.name.text))
  }

  predicate Complete(s: School) {
    s.name != Null && s.address != Null
  }

  /**
   * The cleaning chain as evidently intended: a name that is not text is
   * not an `EOP` name, so `dropna` can remove missing names afterwards.
   */
  function CleanRegistry(rows: seq<RawSchool>): (r: seq<School>)
    // each (code, name) once
    ensures UniqueBy(r, SchoolKey)
    // what survives: named, addressed, no EOP word, normalised
    ensures forall s :: s in r ==>
      s.name != Null && s.address != Null && EopFree(s) &&
      (s.level.Text? ==> s.level.text == Lower(s.level.text)) &&
      (s.abbreviation.Text? ==> s.abbreviation.text == Lower(s.abbreviation.text)) &&
      s.yearClosed != Text("open")
    // each survivor is the normalised first row of its key
    ensures forall s :: s in r ==> exists x :: x in rows && First(rows, Key, Key(x)) == Some(x) && Normalise(x) == s
    // nothing else is lost
    ensures forall x :: x in rows && First(rows, Key, Key(x)) == Some(x) && Normalise(x).name != Null && Normalise(x).address != Null && EopFree(Normalise(x)) ==> Normalise(x) in r
    // in the order of the normalised first rows
    ensures IsSubseq(r, NormaliseAll(DedupBy(rows, Key)))
  {
    var r := Filter(Filter(NormaliseAll(DedupBy(rows, Key)), EopFree), Complete);
    SubseqTrans(r, Filter(NormaliseAll(DedupBy(rows, Key)), EopFree), NormaliseAll(DedupBy(rows, Key)));
    UniqueKeysKept(DedupBy(rows, Key), NormaliseAll(DedupBy(rows, Key)), r);
    CleanedAreNormal(rows, r);
    CleanedAreFirst(rows, r);
    CleanedComplete(rows, r);
    r
  }

  lemma CleanedAreNormal(rows: seq<RawSchool>, r: seq<School>)
    requires r == Filter(Filter(NormaliseAll(DedupBy(rows, Key)), EopFree), Complete)
    ensures forall s :: s in r ==>
      s.name != Null && s.address != Null && EopFree(s) &&
      (s.level.Text? ==> s.level.text == Lower(s.level.text)) &&
      (s.abbreviation.Text? ==> s.abbreviation.text == Lower(s.abbreviation.text)) &&
      s.yearClosed != Text("open")
  {
    var deduped := DedupBy(rows, Key);
    var normal := NormaliseAll(deduped);
    forall s | s in r
      ensures s.level.Text? ==> s.level.text == Lower(s.level.text)
      ensures s.abbreviation.Text? ==> s.abbreviation.text == Lower(s.abbreviation.text)
    {
      var i :| 0 <= i < |normal| && normal[i] == s;
      if deduped[i].level.Text? {
        LowerIdempotent(deduped[i].level.text);
      }
      if deduped[i].abbreviation.Text? {
        LowerIdempotent(deduped[i].abbreviation.text);
      }
    }
  }

  lemma CleanedAreFirst(rows: seq<RawSchool>, r: seq<School>)
    requires r == Filter(Filter(NormaliseAll(DedupBy(rows, Key)), EopFree), Complete)
    ensures forall s :: s in r ==> exists x :: x in rows && First(rows, Key, Key(x)) == Some(x) && Normalise(x) == s
  {
    var deduped := DedupBy(rows, Key);
    var normal := NormaliseAll(deduped);
    SubseqMembers(deduped, rows);
    forall s | s in r
      ensures exists x :: x in rows && First(rows, Key, Key(x)) == Some(x) && Normalise(x) == s
    {
      var i :| 0 <= i < |normal| && normal[i] == s;
      assert deduped[i] in deduped;
    }
  }

  lemma CleanedComplete(rows: seq<RawSchool>, r: seq<School>)
    requires r == Filter(Filter(NormaliseAll(DedupBy(rows, Key)), EopFree), Complete)
    ensures forall x :: x in rows && First(rows, Key, Key(x)) == Some(x) && Normalise(x).name != Null && Normalise(x).address != Null && EopFree(Normalise(x)) ==> Normalise(x) in r
  {
    var deduped := DedupBy(rows, Key);
    var normal := NormaliseAll(deduped);
    forall x | x in rows && First(rows, Key, Key(x)) == Some(x) && Normalise(x).name != Null && Normalise(x).address != Null && EopFree(Normalise(x))
      ensures Normalise(x) in r
    {
      KeysOfMember(rows, Key, x);
      FirstSurvivesDedup(rows, Key, Key(x));
      var i :| 0 <= i < |deduped| && deduped[i] == x;
      assert normal[i] == Normalise(x);
    }
  }

  /** Normalising keeps (code, name), so rows filtered out of unique-keyed rows keep unique keys. */
  lemma UniqueKeysKept(deduped: seq<RawSchool>, normal: seq<School>, r: seq<School>)
    requires UniqueBy(deduped, Key)
    requires normal == NormaliseAll(deduped)
    requires r == Filter(Filter(normal, EopFree), Complete)
    ensures UniqueBy(r, SchoolKey)
  {
    assert UniqueBy(normal, SchoolKey) by {
      forall i, j | 0 <= i < j < |normal| ensures SchoolKey(normal[i]) != SchoolKey(normal[j]) {
        assert SchoolKey(normal[i]) == Key(deduped[i]) && SchoolKey(normal[j]) == Key(deduped[j]);
      }
    }
    var mid := Filter(normal, EopFree);
    SubseqTrans(r, mid, normal);
    SubseqUnique(r, normal, SchoolKey);
  }

  /**
   * The cleaning chain as written: `school_name.split()` runs on every
   * de-duplicated row before `dropna`, so a row whose name is not text
   * (a missing name included) raises and nothing is returned.
   */
  function CleanRegistryAsWritten(rows: seq<RawSchool>): (r: Option<seq<School>>)
    ensures r.Some? <==> forall x :: x in DedupBy(rows, Key) ==> x.name.Text?
  {
    var deduped := DedupBy(rows, Key);
    if forall x :: x in deduped ==> x.name.Text? then
      var normal := NormaliseAll(deduped);
      Some(Filter(Filter(normal, EopFree), Complete))
    else None
  }

  /** When every name is text, the code as written and the intended cleaning agree. */
  lemma AsWrittenAgrees(rows: seq<RawSchool>)
    requires forall x :: x in rows ==> x.name.Text?
    ensures CleanRegistryAsWritten(rows) == Some(CleanRegistry(rows))
  {
    var deduped := DedupBy(rows, Key);
    SubseqMembers(deduped, rows);
  }

  /** A registry with one unnamed school: as written, loading fails instead of dropping it. */
  lemma MissingNameRaises()
    ensures CleanRegistryAsWritten([RawSchool(Text("1010"), Null, Null, Null, Text("440 N Broad St"), Null, Null, Null, Null, Null)]) == None
    ensures CleanRegistry([RawSchool(Text("1010"), Null, Null, Null, Text("440 N Broad St"), Null, Null, Null, Null, Null)]) == []
  {
    var x := RawSchool(Text("1010"), Null, Null, Null, Text("440 N Broad St"), Null, Null, Null, Null, Null);
    var deduped := DedupBy([x], Key);
    assert x in deduped by {
      FirstSurvivesDedup([x], Key, Key(x));
    }
  }
}
