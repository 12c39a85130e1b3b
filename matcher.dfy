/**
 * Matching permits to schools (`match_datasets` in `data/asbestos.py`).
 * A test merge against the curated crosswalk settles every facility it
 * knows; otherwise the unmatched permits are cleaned and matched exactly
 * in three tiers of falling priority, the crosswalk grows by the new pairs
 * and the test merge is run again; what is still unmatched goes to a fuzzy
 * review report and the run stops.  The string cleaner and the fuzzy
 * matcher are library calls, here the parameters `clean` and `fuzzy`.
 */
module Matcher {
  import opened Wrappers
  import opened Strings
  import opened Tables
  import opened Schools

  /** A permit row as it reaches the matcher. */
  datatype Permit = Permit(permit: string, facilityName: Cell, facilityAddress: Cell, details: seq<Cell>)

  /** A row of the crosswalk file. */
  datatype CrosswalkEntry = CrosswalkEntry(facilityName: Cell, schoolName: Cell)

  function FacilityOf(e: CrosswalkEntry): Cell {
    e.facilityName
  }

  function PermitFacility(p: Permit): Cell {
    p.facilityName
  }

  function PermitOf(p: Permit): string {
    p.permit
  }

  /** A permit joined to the school the crosswalk names, and that school's registry row. */
  datatype Assigned<S> = Assigned(permit: Permit, schoolName: Cell, school: Option<S>)

  datatype TestResult<S> =
    | AllKnown(rows: seq<Assigned<S>>)
    | Unknown(unmatched: seq<Permit>)

  // ---------------------------------------------------------------------------
  // `_clean_columns`

  /** The whole-value abbreviation table applied after cleaning (`Series.replace`). */
  function ExpandAbbreviation(c: Cell): (r: Cell)
    ensures r != c ==> c in {Text("es"), Text("ms"), Text("hs"), Text("sch"), Text("elem")}
  {
    if c == Text("es") then Text("elementary school")
    else if c == Text("ms") then Text("middle school")
    else if c == Text("hs") then Text("high school")
    else if c == Text("sch") then Text("school")
    else if c == Text("elem") then Text("elementary")
    else c
  }

  /** The expansions are not abbreviations themselves, so expanding twice changes nothing. */
  lemma ExpandIdempotent(c: Cell)
    ensures ExpandAbbreviation(ExpandAbbreviation(c)) == ExpandAbbreviation(c)
  {
    var r := ExpandAbbreviation(c);
    if r != c {
      assert r in {Text("elementary school"), Text("middle school"), Text("high school"), Text("school"), Text("elementary")};
      assert r.text != "es" && r.text != "ms" && r.text != "hs" && r.text != "sch" && r.text != "elem";
    }
  }

  /** Only a value equal to an abbreviation as a whole is replaced; "es" inside a name is not. */
  lemma ExpandWholeValueOnly()
    ensures ExpandAbbreviation(Text("es")) == Text("elementary school")
    ensures ExpandAbbreviation(Text("dobbins hs")) == Text("dobbins hs")
  {
  }

  /** The `<col>_clean` copy: the library's cleaning, then the abbreviation table. */
  function CleanCell(c: Cell, clean: Cell -> Cell): Cell {
    ExpandAbbreviation(clean(c))
  }

  /** A permit with `facility_name_clean` and `facility_address_clean` added. */
  datatype CleanPermit = CleanPermit(row: Permit, nameClean: Cell, addressClean: Cell)

  /** A school with `school_name_clean` and `school_address_clean` added. */
  datatype CleanSchool = CleanSchool(school: School, nameClean: Cell, addressClean: Cell)

  /** `_clean_columns(data2, ["facility_name", "facility_address"])`. */
  function CleanPermits(data: seq<Permit>, clean: Cell -> Cell): (r: seq<CleanPermit>)
    ensures |r| == |data|
    ensures forall i :: 0 <= i < |data| ==>
      r[i].row == data[i] &&
      r[i].nameClean == CleanCell(data[i].facilityName, clean) &&
      r[i].addressClean == CleanCell(data[i].facilityAddress, clean)
  {
    seq(|data|, i requires 0 <= i < |data| =>
      CleanPermit(data[i], CleanCell(data[i].facilityName, clean), CleanCell(data[i].facilityAddress, clean)))
  }

  /** `_clean_columns(schools, ["school_name", "school_address"])`. */
  function CleanSchools(schools: seq<School>, clean: Cell -> Cell): (r: seq<CleanSchool>)
    ensures |r| == |schools|
    ensures forall i :: 0 <= i < |schools| ==>
      r[i].school == schools[i] &&
      r[i].nameClean == CleanCell(schools[i].name, clean) &&
      r[i].addressClean == CleanCell(schools[i].address, clean)
  {
    seq(|schools|, i requires 0 <= i < |schools| =>
      CleanSchool(schools[i], CleanCell(schools[i].name, clean), CleanCell(schools[i].address, clean)))
  }

  // ---------------------------------------------------------------------------
  // `_test_merge`

  /** The school name a crosswalk partner gives a permit (missing when there is none). */
  function SchoolNameOf(e: Option<CrosswalkEntry>): Cell {
    if e.Some? then e.value.schoolName else Null
  }

  /** `data.merge(crosswalk, on="facility_name", how="left")`, keeping the permit and `school_name`. */
  function CrosswalkRows(data: seq<Permit>, crosswalk: seq<CrosswalkEntry>): (rows: seq<(Permit, Cell)>)
    ensures forall r :: r in rows ==>
      r.0 in data &&
      (CrosswalkEntry(r.0.facilityName, r.1) in crosswalk ||
       (r.1 == Null && r.0.facilityName !in KeysOf(crosswalk, FacilityOf)))
    ensures forall p :: p in data && p.facilityName !in KeysOf(crosswalk, FacilityOf) ==>
      (p, Null) in rows
    ensures forall p, e :: p in data && e in crosswalk && e.facilityName == p.facilityName ==>
      (p, e.schoolName) in rows
  {
    var joined := LeftJoin(data, crosswalk, PermitFacility, FacilityOf);
    var rows := seq(|joined|, i requires 0 <= i < |joined| => (joined[i].0, SchoolNameOf(joined[i].1)));
    forall r | r in rows ensures r.0 in data &&
      (CrosswalkEntry(r.0.facilityName, r.1) in crosswalk ||
       (r.1 == Null && r.0.facilityName !in KeysOf(crosswalk, FacilityOf)))
    {
      var i :| 0 <= i < |rows| && rows[i] == r;
      assert joined[i] in joined;
      if joined[i].1.Some? {
        assert joined[i].1.value == CrosswalkEntry(r.0.facilityName, r.1);
      }
    }
    forall p | p in data && p.facilityName !in KeysOf(crosswalk, FacilityOf)
      ensures (p, Null) in rows
    {
      LeftJoinMiss(data, crosswalk, PermitFacility, FacilityOf, p);
      var i :| 0 <= i < |joined| && joined[i] == (p, None);
      assert rows[i] == (p, Null);
    }
    forall p, e | p in data && e in crosswalk && e.facilityName == p.facilityName
      ensures (p, e.schoolName) in rows
    {
      CrosswalkHit(data, crosswalk, joined, rows, p, e);
    }
    rows
  }

  /** A permit is paired with the school of each crosswalk entry for its facility. */
  lemma CrosswalkHit(data: seq<Permit>, crosswalk: seq<CrosswalkEntry>, joined: seq<(Permit, Option<CrosswalkEntry>)>,
                     rows: seq<(Permit, Cell)>, p: Permit, e: CrosswalkEntry)
    requires joined == LeftJoin(data, crosswalk, PermitFacility, FacilityOf)
    requires |rows| == |joined| && forall i :: 0 <= i < |joined| ==> rows[i] == (joined[i].0, SchoolNameOf(joined[i].1))
    requires p in data && e in crosswalk && e.facilityName == p.facilityName
    ensures (p, e.schoolName) in rows
  {
    LeftJoinHit(data, crosswalk, PermitFacility, FacilityOf, p, e);
    var i :| 0 <= i < |joined| && joined[i] == (p, Some(e));
    assert rows[i] == (p, e.schoolName);
  }

  /** A crosswalk row whose school is known. */
  predicate Resolved(r: (Permit, Cell)) {
    r.1 != Null
  }

  /** `test_merge.loc[~missing].merge(schools.drop_duplicates(subset=["school_name"]), how="left")`. */
  function AssignSchools<S(==,!new)>(rows: seq<(Permit, Cell)>, schools: seq<S>, name: S -> Cell): (out: seq<Assigned<S>>)
    ensures |out| == |rows|
    ensures forall i :: 0 <= i < |rows| ==>
      out[i] == Assigned(rows[i].0, rows[i].1, First(schools, name, rows[i].1))
  {
    var table := DedupBy(schools, name);
    var joined := LeftJoin(rows, table, (r: (Permit, Cell)) => r.1, name);
    LeftJoinUnique(rows, table, (r: (Permit, Cell)) => r.1, name);
    forall i | 0 <= i < |rows| ensures First(table, name, rows[i].1) == First(schools, name, rows[i].1) {
      FirstOfDedup(schools, name, rows[i].1);
    }
    seq(|joined|, i requires 0 <= i < |joined| => Assigned(joined[i].0.0, rows[i].1, joined[i].1))
  }

  /** `missing = test_merge["school_name"].isnull()`: the rows the crosswalk left without a school. */
  function MissingRows(rows: seq<(Permit, Cell)>): seq<(Permit, Cell)> {
    Filter(rows, (row: (Permit, Cell)) => !Resolved(row))
  }

  /** The missing rows whose facility is not a known-missing one. */
  function UnknownRows(rows: seq<(Permit, Cell)>, known: seq<Cell>): seq<(Permit, Cell)> {
    Filter(MissingRows(rows), (row: (Permit, Cell)) => row.0.facilityName !in known)
  }

  /**
   * `_test_merge`: succeeds exactly when every permit left without a school
   * by the crosswalk belongs to a known-missing facility; then every permit
   * with a school gets the school's first registry row; otherwise the
   * permits without a school are handed on.
   */
  function TestMerge<S(==,!new)>(data: seq<Permit>, schools: seq<S>, name: S -> Cell,
                                 crosswalk: seq<CrosswalkEntry>, known: seq<Cell>): (r: TestResult<S>)
    ensures r.AllKnown? <==>
      forall row :: row in CrosswalkRows(data, crosswalk) && row.1 == Null ==> row.0.facilityName in known
    ensures r.AllKnown? ==> forall a :: a in r.rows ==>
      a.permit in data && a.schoolName != Null &&
      CrosswalkEntry(a.permit.facilityName, a.schoolName) in crosswalk &&
      a.school == First(schools, name, a.schoolName)
    ensures r.AllKnown? ==> |r.rows| == |Filter(CrosswalkRows(data, crosswalk), Resolved)|
    ensures r.AllKnown? ==> forall p, s :: (p, s) in CrosswalkRows(data, crosswalk) && s != Null ==>
      Assigned(p, s, First(schools, name, s)) in r.rows
    ensures r.Unknown? ==> forall p :: p in r.unmatched <==> p in data && (p, Null) in CrosswalkRows(data, crosswalk)
    ensures r.Unknown? ==> forall p :: p in data && p.facilityName !in KeysOf(crosswalk, FacilityOf) ==>
      p in r.unmatched
  {
    var rows := CrosswalkRows(data, crosswalk);
    if UnknownRows(rows, known) == [] then
      KnownBranch(data, schools, name, crosswalk, known);
      AllKnown(AssignSchools(Filter(rows, Resolved), schools, name))
    else
      UnknownBranch(data, crosswalk, known);
      Unknown(Lefts(MissingRows(rows)))
  }

  /** The success branch of `_test_merge`. */
  lemma KnownBranch<S(!new)>(data: seq<Permit>, schools: seq<S>, name: S -> Cell,
                             crosswalk: seq<CrosswalkEntry>, known: seq<Cell>)
    requires UnknownRows(CrosswalkRows(data, crosswalk), known) == []
    ensures forall row :: row in CrosswalkRows(data, crosswalk) && row.1 == Null ==> row.0.facilityName in known
    ensures forall a :: a in AssignSchools(Filter(CrosswalkRows(data, crosswalk), Resolved), schools, name) ==>
      a.permit in data && a.schoolName != Null &&
      CrosswalkEntry(a.permit.facilityName, a.schoolName) in crosswalk &&
      a.school == First(schools, name, a.schoolName)
    ensures forall p, s :: (p, s) in CrosswalkRows(data, crosswalk) && s != Null ==>
      Assigned(p, s, First(schools, name, s)) in AssignSchools(Filter(CrosswalkRows(data, crosswalk), Resolved), schools, name)
  {
    var rows := CrosswalkRows(data, crosswalk);
    forall row | row in rows && row.1 == Null ensures row.0.facilityName in known {
      assert row in MissingRows(rows);
      assert row !in UnknownRows(rows, known);
    }
    var resolved := Filter(rows, Resolved);
    var out := AssignSchools(resolved, schools, name);
    forall a | a in out
      ensures a.permit in data && a.schoolName != Null
      ensures CrosswalkEntry(a.permit.facilityName, a.schoolName) in crosswalk
      ensures a.school == First(schools, name, a.schoolName)
    {
      var i :| 0 <= i < |out| && out[i] == a;
      assert resolved[i] in resolved;
    }
    AssignedComplete(rows, schools, name);
  }

  /** Every crosswalk row with a school is assigned that school's first registry row. */
  lemma AssignedComplete<S(!new)>(rows: seq<(Permit, Cell)>, schools: seq<S>, name: S -> Cell)
    ensures forall p, s :: (p, s) in rows && s != Null ==>
      Assigned(p, s, First(schools, name, s)) in AssignSchools(Filter(rows, Resolved), schools, name)
  {
    var resolved := Filter(rows, Resolved);
    var out := AssignSchools(resolved, schools, name);
    forall p, s | (p, s) in rows && s != Null ensures Assigned(p, s, First(schools, name, s)) in out {
      assert (p, s) in resolved;
      var i :| 0 <= i < |resolved| && resolved[i] == (p, s);
      assert out[i] == Assigned(p, s, First(schools, name, s));
    }
  }

  /** The failure branch of `_test_merge`: the permits handed on are exactly the ones the crosswalk left without a school. */
  lemma UnknownBranch(data: seq<Permit>, crosswalk: seq<CrosswalkEntry>, known: seq<Cell>)
    requires UnknownRows(CrosswalkRows(data, crosswalk), known) != []
    ensures !forall row :: row in CrosswalkRows(data, crosswalk) && row.1 == Null ==> row.0.facilityName in known
    ensures forall p :: p in Lefts(MissingRows(CrosswalkRows(data, crosswalk))) <==>
      p in data && (p, Null) in CrosswalkRows(data, crosswalk)
    ensures forall p :: p in data && p.facilityName !in KeysOf(crosswalk, FacilityOf) ==>
      p in Lefts(MissingRows(CrosswalkRows(data, crosswalk)))
  {
    var rows := CrosswalkRows(data, crosswalk);
    var row := UnknownRows(rows, known)[0];
    assert row in UnknownRows(rows, known);
    assert row in MissingRows(rows);
    MissingLefts(rows);
  }

  /** The permits of the rows without a school are the permits paired with `Null`. */
  lemma MissingLefts(rows: seq<(Permit, Cell)>)
    ensures forall p :: p in Lefts(MissingRows(rows)) <==> (p, Null) in rows
  {
    var missing := MissingRows(rows);
    forall p | p in Lefts(missing) ensures (p, Null) in rows {
      var i :| 0 <= i < |missing| && Lefts(missing)[i] == p;
      assert missing[i] in missing;
    }
    forall p | (p, Null) in rows ensures p in Lefts(missing) {
      assert (p, Null) in missing;
      var i :| 0 <= i < |missing| && missing[i] == (p, Null);
      assert Lefts(missing)[i] == p;
    }
  }

  // ---------------------------------------------------------------------------
  // The exact tiers

  /** The three exact joins, in falling priority. */
  datatype Tier = NameToName | NameToAbbreviation | AddressToAddress

  const Tiers: seq<Tier> := [NameToName, NameToAbbreviation, AddressToAddress]

  /** The position of a tier in the fixed order. */
  function Rank(t: Tier): nat {
    match t
    case NameToName => 0
    case NameToAbbreviation => 1
    case AddressToAddress => 2
  }

  /** `left_on`: the cleaned facility name, or for the last tier the cleaned address. */
  function LeftOn(t: Tier): CleanPermit -> Cell {
    (p: CleanPermit) => if t == AddressToAddress then p.addressClean else p.nameClean
  }

  /** `right_on`: the cleaned school name, the school's abbreviation, or the cleaned address. */
  function RightOn(t: Tier): CleanSchool -> Cell {
    (s: CleanSchool) =>
      match t
      case NameToName => s.nameClean
      case NameToAbbreviation => s.school.abbreviation
      case AddressToAddress => s.addressClean
  }

  /** A permit matched to a school, with the tier that matched it. */
  datatype Match = Match(tier: Tier, permit: CleanPermit, school: CleanSchool)

  function PermitNumber(p: CleanPermit): string {
    p.row.permit
  }

  function MatchedRows(m: seq<Match>): (rows: seq<CleanPermit>)
    ensures |rows| == |m|
    ensures forall i :: 0 <= i < |m| ==> rows[i] == m[i].permit
  {
    seq(|m|, i requires 0 <= i < |m| => m[i].permit)
  }

  /** The permit numbers of the matched rows (`exact_matches.index`). */
  function MatchedNumbers(m: seq<Match>): set<string> {
    set x | x in m :: x.permit.row.permit
  }

  /** Whether the tier's key of a permit occurs on the right side. */
  function HasPartner(t: Tier, right: seq<CleanSchool>): CleanPermit -> bool {
    (p: CleanPermit) => LeftOn(t)(p) in KeysOf(right, RightOn(t))
  }

  /**
   * One tier: `left.merge(right.drop_duplicates(subset=[right_on]), left_on=…, right_on=…)`.
   * With the right side deduplicated on its key, the matched rows are exactly
   * the left rows whose key occurs on the right, each once and in order, and
   * each is matched to the first school carrying that key.
   */
  function TierMatches(t: Tier, left: seq<CleanPermit>, right: seq<CleanSchool>): (m: seq<Match>)
    ensures MatchedRows(m) == Filter(left, HasPartner(t, right))
    ensures forall x :: x in m ==> x.tier == t && First(right, RightOn(t), LeftOn(t)(x.permit)) == Some(x.school)
  {
    var joined := InnerJoin(left, DedupBy(right, RightOn(t)), LeftOn(t), RightOn(t));
    TierJoin(t, left, right);
    var m := Tag(t, joined);
    assert MatchedRows(m) == Lefts(joined);
    forall x | x in m ensures x.tier == t && First(right, RightOn(t), LeftOn(t)(x.permit)) == Some(x.school) {
      var i :| 0 <= i < |m| && m[i] == x;
      assert joined[i] in joined;
    }
    m
  }

  /** The inner join against the deduplicated right side, as `TierMatches` uses it. */
  lemma TierJoin(t: Tier, left: seq<CleanPermit>, right: seq<CleanSchool>)
    ensures Lefts(InnerJoin(left, DedupBy(right, RightOn(t)), LeftOn(t), RightOn(t))) == Filter(left, HasPartner(t, right))
    ensures forall o :: o in InnerJoin(left, DedupBy(right, RightOn(t)), LeftOn(t), RightOn(t)) ==>
      First(right, RightOn(t), LeftOn(t)(o.0)) == Some(o.1)
  {
    var table := DedupBy(right, RightOn(t));
    assert forall l :: HasPartner(t, right)(l) == (LeftOn(t)(l) in KeysOf(table, RightOn(t)));
    InnerJoinUnique(left, table, LeftOn(t), RightOn(t), HasPartner(t, right));
    forall o | o in InnerJoin(left, table, LeftOn(t), RightOn(t)) ensures First(right, RightOn(t), LeftOn(t)(o.0)) == Some(o.1) {
      FirstOfDedup(right, RightOn(t), LeftOn(t)(o.0));
    }
  }

  /** `.assign(...)` of the tier to each joined pair. */
  function Tag(t: Tier, joined: seq<(CleanPermit, CleanSchool)>): (m: seq<Match>)
    ensures |m| == |joined|
    ensures forall i :: 0 <= i < |joined| ==> m[i] == Match(t, joined[i].0, joined[i].1)
  {
    seq(|joined|, i requires 0 <= i < |joined| => Match(t, joined[i].0, joined[i].1))
  }

  /** The permits whose number is not in `numbers`. */
  function NotMatched(numbers: set<string>): CleanPermit -> bool {
    (p: CleanPermit) => p.row.permit !in numbers
  }

  /** `left.loc[left.index.difference(exact_matches.index)]`. */
  function Unmatched(left: seq<CleanPermit>, m: seq<Match>): seq<CleanPermit> {
    Filter(left, NotMatched(MatchedNumbers(m)))
  }

  /**
   * The tiers run in order on what the earlier tiers left: the permits no
   * tier matched, and all the matches, tier after tier.
   */
  function RunTiers(left: seq<CleanPermit>, right: seq<CleanSchool>, tiers: seq<Tier>): (r: (seq<CleanPermit>, seq<Match>))
    decreases |tiers|
  {
    if tiers == [] then (left, [])
    else
      var m := TierMatches(tiers[0], left, right);
      var rest := RunTiers(Unmatched(left, m), right, tiers[1..]);
      (rest.0, m + rest.1)
  }

  /**
   * What the tier loop ends with when it is at tier `i` with `left` still
   * unmatched and `exact` found so far.
   */
  ghost function Remaining(left: seq<CleanPermit>, exact: seq<Match>, right: seq<CleanSchool>, tiers: seq<Tier>, i: int)
    : (seq<CleanPermit>, seq<Match>)
    requires 0 <= i <= |tiers|
  {
    var rest := RunTiers(left, right, tiers[i..]);
    (rest.0, exact + rest.1)
  }

  /** One pass of the tier loop leaves the final outcome unchanged. */
  lemma RemainingStep(left: seq<CleanPermit>, exact: seq<Match>, right: seq<CleanSchool>, tiers: seq<Tier>, i: int)
    requires 0 <= i < |tiers|
    ensures Remaining(Unmatched(left, TierMatches(tiers[i], left, right)), exact + TierMatches(tiers[i], left, right), right, tiers, i + 1)
      == Remaining(left, exact, right, tiers, i)
  {
    var m := TierMatches(tiers[i], left, right);
    assert tiers[i..][0] == tiers[i] && tiers[i..][1..] == tiers[i + 1..];
    var rest := RunTiers(Unmatched(left, m), right, tiers[i + 1..]);
    RunTiersFirst(left, right, tiers[i..]);
    assert exact + (m + rest.1) == (exact + m) + rest.1;
  }

  /** One step of the tier run: the first tier's matches, then the rest on what they leave. */
  lemma RunTiersFirst(left: seq<CleanPermit>, right: seq<CleanSchool>, tiers: seq<Tier>)
    requires tiers != []
    ensures var m := TierMatches(tiers[0], left, right);
      var rest := RunTiers(Unmatched(left, m), right, tiers[1..]);
      RunTiers(left, right, tiers) == (rest.0, m + rest.1)
  {
  }

  /** At the start of the loop, the outcome is the whole run; at its end, what is left. */
  lemma RemainingEnds(left0: seq<CleanPermit>, left: seq<CleanPermit>, exact: seq<Match>, right: seq<CleanSchool>, tiers: seq<Tier>)
    ensures Remaining(left0, [], right, tiers, 0) == RunTiers(left0, right, tiers)
    ensures Remaining(left, exact, right, tiers, |tiers|) == (left, exact)
  {
    assert tiers[0..] == tiers;
    assert tiers[|tiers|..] == [];
    assert [] + RunTiers(left0, right, tiers).1 == RunTiers(left0, right, tiers).1;
    assert exact + [] == exact;
  }

  /**
   * The loop over `merge_columns` (called with `Tiers`), shrinking `left`
   * and accumulating `exact`.
   */
  method ExactMatches(left0: seq<CleanPermit>, right: seq<CleanSchool>, tiers: seq<Tier>)
    returns (left: seq<CleanPermit>, exact: seq<Match>)
    ensures left == RunTiers(left0, right, tiers).0
    ensures exact == RunTiers(left0, right, tiers).1
  {
    left, exact := left0, [];
    RemainingEnds(left0, left, exact, right, tiers);
    for i := 0 to |tiers|
      invariant Remaining(left, exact, right, tiers, i) == RunTiers(left0, right, tiers)
    {
      var m := TierMatches(tiers[i], left, right);
      RemainingStep(left, exact, right, tiers, i);
      left, exact := Unmatched(left, m), exact + m;
    }
    RemainingEnds(left0, left, exact, right, tiers);
  }

  /** Every match pairs a permit of `left` with the first school carrying its key in that tier. */
  lemma {:induction false} TiersSound(left: seq<CleanPermit>, right: seq<CleanSchool>, tiers: seq<Tier>)
    ensures IsSubseq(RunTiers(left, right, tiers).0, left)
    ensures forall x :: x in RunTiers(left, right, tiers).1 ==>
      x.permit in left && x.tier in tiers && First(right, RightOn(x.tier), LeftOn(x.tier)(x.permit)) == Some(x.school)
    decreases |tiers|
  {
    if tiers == [] {
      SubseqRefl(left);
    } else {
      var m := TierMatches(tiers[0], left, right);
      var next := Unmatched(left, m);
      TiersSound(next, right, tiers[1..]);
      SubseqTrans(RunTiers(next, right, tiers[1..]).0, next, left);
      SubseqMembers(MatchedRows(m), left);
      forall x | x in m ensures x.permit in left {
        var i :| 0 <= i < |m| && m[i] == x;
        assert MatchedRows(m)[i] == x.permit;
      }
      forall x | x in RunTiers(next, right, tiers[1..]).1 ensures x.tier in tiers {
        assert x.tier in tiers[1..];
      }
    }
  }

  /**
   * A permit row stays unmatched exactly when no tier matched its permit
   * number: each tier removes the permits it matched, and nothing else.
   */
  lemma {:induction false} TiersCover(left: seq<CleanPermit>, right: seq<CleanSchool>, tiers: seq<Tier>)
    ensures forall p :: p in RunTiers(left, right, tiers).0 <==>
      p in left && p.row.permit !in MatchedNumbers(RunTiers(left, right, tiers).1)
    decreases |tiers|
  {
    if tiers != [] {
      var m := TierMatches(tiers[0], left, right);
      var next := Unmatched(left, m);
      var rest := RunTiers(next, right, tiers[1..]);
      RunTiersFirst(left, right, tiers);
      TiersCover(next, right, tiers[1..]);
      MatchedNumbersAppend(m, rest.1);
      forall p ensures p in next <==> p in left && p.row.permit !in MatchedNumbers(m) {
        assert NotMatched(MatchedNumbers(m))(p) == (p.row.permit !in MatchedNumbers(m));
      }
    }
  }

  /** The permit numbers of two runs of matches together. */
  lemma MatchedNumbersAppend(a: seq<Match>, b: seq<Match>)
    ensures MatchedNumbers(a + b) == MatchedNumbers(a) + MatchedNumbers(b)
  {
    forall x | x in a + b ensures x in a || x in b {
    }
  }

  /** A permit number is matched by one tier only: the tiers are disjoint. */
  lemma {:induction false} TiersDisjoint(left: seq<CleanPermit>, right: seq<CleanSchool>, tiers: seq<Tier>)
    ensures forall x, y ::
      (x in RunTiers(left, right, tiers).1 && y in RunTiers(left, right, tiers).1 &&
       x.permit.row.permit == y.permit.row.permit) ==> x.tier == y.tier
    decreases |tiers|
  {
    if tiers != [] {
      var m := TierMatches(tiers[0], left, right);
      var next := Unmatched(left, m);
      var rest := RunTiers(next, right, tiers[1..]);
      TiersDisjoint(next, right, tiers[1..]);
      TiersSound(next, right, tiers[1..]);
      forall x, y | x in m && y in rest.1 ensures x.permit.row.permit != y.permit.row.permit {
        assert y.permit in next;
      }
    }
  }

  /** No tier matches a permit number twice when the permit numbers of `left` are unique. */
  lemma {:induction false} TiersUnique(left: seq<CleanPermit>, right: seq<CleanSchool>, tiers: seq<Tier>)
    requires UniqueBy(left, PermitNumber)
    ensures UniqueBy(RunTiers(left, right, tiers).1, (x: Match) => x.permit.row.permit)
    decreases |tiers|
  {
    if tiers != [] {
      var m := TierMatches(tiers[0], left, right);
      var next := Unmatched(left, m);
      var rest := RunTiers(next, right, tiers[1..]);
      SubseqUnique(MatchedRows(m), left, PermitNumber);
      forall i, j | 0 <= i < j < |m| ensures m[i].permit.row.permit != m[j].permit.row.permit {
        assert MatchedRows(m)[i] == m[i].permit && MatchedRows(m)[j] == m[j].permit;
      }
      SubseqUnique(next, left, PermitNumber);
      TiersUnique(next, right, tiers[1..]);
      TiersSound(next, right, tiers[1..]);
      forall x, y | x in m && y in rest.1 ensures x.permit.row.permit != y.permit.row.permit {
        assert y.permit in next;
      }
      UniqueAppend(m, rest.1, (x: Match) => x.permit.row.permit);
    }
  }

  /** A permit left over has no key in common with the right side in any tier. */
  lemma {:induction false} TiersExhausted(left: seq<CleanPermit>, right: seq<CleanSchool>, tiers: seq<Tier>)
    ensures forall p, t :: p in RunTiers(left, right, tiers).0 && t in tiers ==>
      LeftOn(t)(p) !in KeysOf(right, RightOn(t))
    decreases |tiers|
  {
    if tiers != [] {
      var m := TierMatches(tiers[0], left, right);
      var next := Unmatched(left, m);
      TiersExhausted(next, right, tiers[1..]);
      TiersSound(next, right, tiers[1..]);
      SubseqMembers(RunTiers(next, right, tiers[1..]).0, next);
      forall p | p in next ensures LeftOn(tiers[0])(p) !in KeysOf(right, RightOn(tiers[0])) {
        NoPartnerLeft(tiers[0], left, right, p);
      }
    }
  }

  /** What a tier leaves behind had no partner in that tier. */
  lemma NoPartnerLeft(t: Tier, left: seq<CleanPermit>, right: seq<CleanSchool>, p: CleanPermit)
    requires p in Unmatched(left, TierMatches(t, left, right))
    ensures LeftOn(t)(p) !in KeysOf(right, RightOn(t))
  {
    var m := TierMatches(t, left, right);
    forall i | 0 <= i < |m| ensures m[i].permit.row.permit in MatchedNumbers(m) {
      assert m[i] in m;
    }
  }

  /**
   * Priority: a permit matched in a tier had no partner in any tier of lower
   * rank, so an address match is made only when neither name tier matched.
   */
  lemma {:induction false} TiersPriority(left: seq<CleanPermit>, right: seq<CleanSchool>, tiers: seq<Tier>)
    requires forall i, j :: 0 <= i < j < |tiers| ==> Rank(tiers[i]) < Rank(tiers[j])
    ensures forall x, t :: x in RunTiers(left, right, tiers).1 && t in tiers && Rank(t) < Rank(x.tier) ==>
      LeftOn(t)(x.permit) !in KeysOf(right, RightOn(t))
    decreases |tiers|
  {
    if tiers != [] {
      var m := TierMatches(tiers[0], left, right);
      var next := Unmatched(left, m);
      var rest := RunTiers(next, right, tiers[1..]);
      TiersPriority(next, right, tiers[1..]);
      TiersSound(next, right, tiers[1..]);
      forall x, t | x in m + rest.1 && t in tiers && Rank(t) < Rank(x.tier)
        ensures LeftOn(t)(x.permit) !in KeysOf(right, RightOn(t))
      {
        if x !in m {
          if t == tiers[0] {
            NoPartnerLeft(tiers[0], left, right, x.permit);
          } else {
            assert t in tiers[1..];
          }
        }
      }
    }
  }

  /**
   * In the fixed order, a name-to-abbreviation or address match is made only
   * for a permit whose cleaned name matches no cleaned school name, and an
   * address match only when the name matches no abbreviation either.
   */
  lemma ExactPriority(left: seq<CleanPermit>, right: seq<CleanSchool>)
    ensures forall x :: x in RunTiers(left, right, Tiers).1 && x.tier != NameToName ==>
      x.permit.nameClean !in KeysOf(right, RightOn(NameToName))
    ensures forall x :: x in RunTiers(left, right, Tiers).1 && x.tier == AddressToAddress ==>
      x.permit.nameClean !in KeysOf(right, RightOn(NameToAbbreviation))
  {
    RankedPriority(left, right, Tiers);
  }

  /** `ExactPriority` for any tier list in the fixed order. */
  lemma RankedPriority(left: seq<CleanPermit>, right: seq<CleanSchool>, tiers: seq<Tier>)
    requires tiers == [NameToName, NameToAbbreviation, AddressToAddress]
    ensures forall x :: x in RunTiers(left, right, tiers).1 && x.tier != NameToName ==>
      x.permit.nameClean !in KeysOf(right, RightOn(NameToName))
    ensures forall x :: x in RunTiers(left, right, tiers).1 && x.tier == AddressToAddress ==>
      x.permit.nameClean !in KeysOf(right, RightOn(NameToAbbreviation))
  {
    var found := RunTiers(left, right, tiers).1;
    TiersPriority(left, right, tiers);
    forall x | x in found && x.tier != NameToName
      ensures x.permit.nameClean !in KeysOf(right, RightOn(NameToName))
    {
      assert LeftOn(NameToName)(x.permit) == x.permit.nameClean;
    }
    forall x | x in found && x.tier == AddressToAddress
      ensures x.permit.nameClean !in KeysOf(right, RightOn(NameToAbbreviation))
    {
      assert LeftOn(NameToAbbreviation)(x.permit) == x.permit.nameClean;
    }
  }

  // ---------------------------------------------------------------------------
  // Known-missing removal and crosswalk growth

  /** `~left.facility_name.isin(known_missing.facility_name)`. */
  function NotKnown(known: seq<Cell>): CleanPermit -> bool {
    (p: CleanPermit) => p.row.facilityName !in known
  }

  /** `exact[["facility_name", "school_name"]].drop_duplicates()`: the pairs the tiers found. */
  function NewPairs(exact: seq<Match>): (pairs: seq<CrosswalkEntry>)
    ensures forall e :: e in pairs <==>
      exists x :: x in exact && e == CrosswalkEntry(x.permit.row.facilityName, x.school.school.name)
    ensures forall i, j :: 0 <= i < j < |pairs| ==> pairs[i] != pairs[j]
  {
    var all := seq(|exact|, i requires 0 <= i < |exact| =>
      CrosswalkEntry(exact[i].permit.row.facilityName, exact[i].school.school.name));
    forall e | e in all ensures exists x :: x in exact && e == CrosswalkEntry(x.permit.row.facilityName, x.school.school.name) {
      var i :| 0 <= i < |all| && all[i] == e;
      assert exact[i] in exact;
    }
    forall x | x in exact ensures CrosswalkEntry(x.permit.row.facilityName, x.school.school.name) in all {
      var i :| 0 <= i < |exact| && exact[i] == x;
      assert all[i] == CrosswalkEntry(x.permit.row.facilityName, x.school.school.name);
    }
    Distinct(all)
  }

  /** `pd.concat([crosswalk, new_crosswalk]).drop_duplicates()`. */
  function Grow(crosswalk: seq<CrosswalkEntry>, exact: seq<Match>): (grown: seq<CrosswalkEntry>)
    ensures forall e :: e in grown <==> e in crosswalk || e in NewPairs(exact)
    ensures forall i, j :: 0 <= i < j < |grown| ==> grown[i] != grown[j]
  {
    Distinct(crosswalk + NewPairs(exact))
  }

  /**
   * After the exact tiers have left nothing but known-missing facilities,
   * the grown crosswalk settles every permit, provided permit numbers are
   * unique and every school named, in the crosswalk and in the registry,
   * has a name: the re-run of the test merge then succeeds and the
   * "should not happen" error is not raised. This holds for any tier list.
   */
  lemma GrownCrosswalkSettles(data: seq<Permit>, unmatched: seq<Permit>, right: seq<CleanSchool>,
                              crosswalk: seq<CrosswalkEntry>, known: seq<Cell>, clean: Cell -> Cell, tiers: seq<Tier>)
    requires forall p :: p in unmatched ==> p in data
    requires forall p :: p in data && p.facilityName !in KeysOf(crosswalk, FacilityOf) ==> p in unmatched
    requires UniqueBy(data, PermitOf)
    requires forall e :: e in crosswalk ==> e.schoolName != Null
    requires forall s :: s in right ==> s.school.name != Null
    requires Filter(RunTiers(CleanPermits(unmatched, clean), right, tiers).0, NotKnown(known)) == []
    ensures forall row ::
      (row in CrosswalkRows(data, Grow(crosswalk, RunTiers(CleanPermits(unmatched, clean), right, tiers).1)) && row.1 == Null) ==>
      row.0.facilityName in known
  {
    var left0 := CleanPermits(unmatched, clean);
    var r := RunTiers(left0, right, tiers);
    var grown := Grow(crosswalk, r.1);
    assert forall x :: x in r.1 ==> x.permit in left0 && x.school in right by {
      TiersSound(left0, right, tiers);
    }
    assert forall q :: q in r.0 <==> q in left0 && q.row.permit !in MatchedNumbers(r.1) by {
      TiersCover(left0, right, tiers);
    }
    assert forall e :: e in grown ==> e.schoolName != Null by {
      GrownNamed(crosswalk, r.1, right);
    }
    assert forall x :: x in r.1 ==> x.permit.row in unmatched && x.permit.row.facilityName in KeysOf(grown, FacilityOf) by {
      MatchedPairsGrown(unmatched, clean, r.1, crosswalk);
    }
    forall row | row in CrosswalkRows(data, grown) && row.1 == Null ensures row.0.facilityName in known {
      NullRowKnown(data, unmatched, clean, r.0, r.1, crosswalk, grown, known, row.0);
    }
  }

  /** A permit the grown crosswalk leaves without a school belongs to a known-missing facility. */
  lemma NullRowKnown(data: seq<Permit>, unmatched: seq<Permit>, clean: Cell -> Cell, remaining: seq<CleanPermit>,
                     exact: seq<Match>, crosswalk: seq<CrosswalkEntry>, grown: seq<CrosswalkEntry>, known: seq<Cell>, p: Permit)
    requires forall p :: p in unmatched ==> p in data
    requires forall p :: p in data && p.facilityName !in KeysOf(crosswalk, FacilityOf) ==> p in unmatched
    requires UniqueBy(data, PermitOf)
    requires forall e :: e in crosswalk ==> e in grown
    requires forall e :: e in grown ==> e.schoolName != Null
    requires forall q :: q in remaining <==> q in CleanPermits(unmatched, clean) && q.row.permit !in MatchedNumbers(exact)
    requires Filter(remaining, NotKnown(known)) == []
    requires forall x :: x in exact ==> x.permit.row in unmatched && x.permit.row.facilityName in KeysOf(grown, FacilityOf)
    requires (p, Null) in CrosswalkRows(data, grown)
    ensures p.facilityName in known
  {
    assert CrosswalkEntry(p.facilityName, Null) !in grown;
    forall e | e in crosswalk ensures e.facilityName != p.facilityName {
      KeysOfMember(grown, FacilityOf, e);
    }
    SettledRow(data, unmatched, clean, remaining, exact, grown, known, p);
  }

  /** Every entry of the grown crosswalk names a school. */
  lemma GrownNamed(crosswalk: seq<CrosswalkEntry>, exact: seq<Match>, right: seq<CleanSchool>)
    requires forall e :: e in crosswalk ==> e.schoolName != Null
    requires forall x :: x in exact ==> x.school in right
    requires forall s :: s in right ==> s.school.name != Null
    ensures forall e :: e in Grow(crosswalk, exact) ==> e.schoolName != Null
  {
    forall e | e in Grow(crosswalk, exact) ensures e.schoolName != Null {
      if e !in crosswalk {
        var x :| x in exact && e == CrosswalkEntry(x.permit.row.facilityName, x.school.school.name);
      }
    }
  }

  /** Every facility an exact tier matched is a key of the grown crosswalk. */
  lemma MatchedPairsGrown(unmatched: seq<Permit>, clean: Cell -> Cell, exact: seq<Match>, crosswalk: seq<CrosswalkEntry>)
    requires forall x :: x in exact ==> x.permit in CleanPermits(unmatched, clean)
    ensures forall x :: x in exact ==>
      x.permit.row in unmatched && x.permit.row.facilityName in KeysOf(Grow(crosswalk, exact), FacilityOf)
  {
    var left0 := CleanPermits(unmatched, clean);
    forall x | x in exact
      ensures x.permit.row in unmatched && x.permit.row.facilityName in KeysOf(Grow(crosswalk, exact), FacilityOf)
    {
      var i :| 0 <= i < |left0| && left0[i] == x.permit;
      assert unmatched[i] == x.permit.row;
      var e := CrosswalkEntry(x.permit.row.facilityName, x.school.school.name);
      assert e in NewPairs(exact);
      KeysOfMember(Grow(crosswalk, exact), FacilityOf, e);
    }
  }

  /**
   * A handed-on permit the grown crosswalk does not know was not matched by
   * any tier, so it was left over, and only known-missing facilities were.
   */
  lemma SettledRow(data: seq<Permit>, unmatched: seq<Permit>, clean: Cell -> Cell, remaining: seq<CleanPermit>,
                   exact: seq<Match>, grown: seq<CrosswalkEntry>, known: seq<Cell>, p: Permit)
    requires forall q :: q in remaining <==> q in CleanPermits(unmatched, clean) && q.row.permit !in MatchedNumbers(exact)
    requires Filter(remaining, NotKnown(known)) == []
    requires forall x :: x in exact ==> x.permit.row in unmatched && x.permit.row.facilityName in KeysOf(grown, FacilityOf)
    requires forall q :: q in unmatched ==> q in data
    requires UniqueBy(data, PermitOf)
    requires p in unmatched && p.facilityName !in KeysOf(grown, FacilityOf)
    ensures p.facilityName in known
  {
    var left0 := CleanPermits(unmatched, clean);
    var i :| 0 <= i < |unmatched| && unmatched[i] == p;
    var q := left0[i];
    forall x | x in exact ensures x.permit.row.permit != p.permit {
      assert x.permit.row != p;
      DistinctRowsDistinctPermits(data, x.permit.row, p);
    }
    assert q.row.permit !in MatchedNumbers(exact);
    assert q in remaining;
    assert q !in Filter(remaining, NotKnown(known));
  }

  /** Two different rows of a table with unique permit numbers have different permit numbers. */
  lemma DistinctRowsDistinctPermits(data: seq<Permit>, a: Permit, b: Permit)
    requires UniqueBy(data, PermitOf) && a in data && b in data && a != b
    ensures a.permit != b.permit
  {
    var i :| 0 <= i < |data| && data[i] == a;
    var j :| 0 <= j < |data| && data[j] == b;
    assert i != j;
    if i < j {
      assert PermitOf(data[i]) != PermitOf(data[j]);
    } else {
      assert PermitOf(data[j]) != PermitOf(data[i]);
    }
  }

  // ---------------------------------------------------------------------------
  // The fuzzy review report

  /** A fuzzy candidate, tagged with the join that found it (`.assign(match=...)`). */
  datatype Candidate = Candidate(permit: CleanPermit, school: CleanSchool, probability: int, via: Tier)

  /** `skool.fuzzy_merge(left, right, left_on, right_on, score_cutoff=60, max_matches=1)`. */
  type FuzzyMerge = (seq<CleanPermit>, seq<CleanSchool>, Tier) -> seq<(CleanPermit, CleanSchool, int)>

  function Via(found: seq<(CleanPermit, CleanSchool, int)>, t: Tier): (c: seq<Candidate>)
    ensures |c| == |found|
    ensures forall i :: 0 <= i < |found| ==> c[i] == Candidate(found[i].0, found[i].1, found[i].2, t)
  {
    seq(|found|, i requires 0 <= i < |found| => Candidate(found[i].0, found[i].1, found[i].2, t))
  }

  /** Descending text order with missing values last (`ascending=False`, `na_position="last"`). */
  predicate TextAtLeast(a: Cell, b: Cell) {
    if a.Text? && b.Text? then StrLe(b.text, a.text)
    else a.Text? || !b.Text?
  }

  /** `sort_values(["match_probability", "facility_name_clean"], ascending=False)`. */
  predicate ByScore(a: Candidate, b: Candidate) {
    a.probability > b.probability ||
    (a.probability == b.probability && TextAtLeast(a.permit.nameClean, b.permit.nameClean))
  }

  lemma ByScorePreorder()
    ensures TotalPreorder(ByScore)
  {
    forall a: Candidate, b: Candidate ensures ByScore(a, b) || ByScore(b, a) {
      if a.permit.nameClean.Text? && b.permit.nameClean.Text? {
        StrLeTotal(a.permit.nameClean.text, b.permit.nameClean.text);
      }
    }
    forall a: Candidate, b: Candidate, c: Candidate | ByScore(a, b) && ByScore(b, c)
      ensures ByScore(a, c)
    {
      if a.probability == b.probability == c.probability &&
         a.permit.nameClean.Text? && b.permit.nameClean.Text? && c.permit.nameClean.Text? {
        StrLeTrans(c.permit.nameClean.text, b.permit.nameClean.text, a.permit.nameClean.text);
      }
    }
  }

  function CandidateNumber(c: Candidate): string {
    c.permit.row.permit
  }

  /** The candidates sorted best first. */
  function Ranked(candidates: seq<Candidate>): (r: seq<Candidate>)
    ensures SortedBy(r, ByScore)
    ensures multiset(r) == multiset(candidates)
    ensures forall c :: c in r <==> c in candidates
  {
    ByScorePreorder();
    var r := SortBy(candidates, ByScore);
    forall c ensures c in r <==> c in candidates {
      assert c in r <==> c in multiset(r);
      assert c in candidates <==> c in multiset(candidates);
    }
    r
  }

  /** `out.loc[~out.index.duplicated()]` after the sort: one candidate per permit. */
  function Report(candidates: seq<Candidate>): (report: seq<Candidate>)
    ensures UniqueBy(report, CandidateNumber)
    ensures forall c :: c in report ==> c in candidates
  {
    var report := DedupBy(Ranked(candidates), CandidateNumber);
    SubseqMembers(report, Ranked(candidates));
    report
  }

  /**
   * Every permit with a candidate is in the report, with a candidate that
   * scores at least as high as any other candidate for that permit.
   */
  lemma ReportKeepsBest(candidates: seq<Candidate>, c: Candidate)
    requires c in candidates
    ensures exists r :: r in Report(candidates) && r.permit.row.permit == c.permit.row.permit && r.probability >= c.probability
  {
    var ranked := Ranked(candidates);
    var j :| 0 <= j < |ranked| && ranked[j] == c;
    var i := FirstComesFirst(ranked, CandidateNumber, j);
    KeysOfMember(ranked, CandidateNumber, c);
    FirstSurvivesDedup(ranked, CandidateNumber, CandidateNumber(c));
    assert ranked[i] in Report(candidates);
    if i < j {
      assert ByScore(ranked[i], ranked[j]);
    }
  }

  // ---------------------------------------------------------------------------
  // `match_datasets`

  datatype Outcome =
    | MatchedDirect(rows: seq<Assigned<School>>)
    | MatchedAfterExact(matched: seq<Assigned<CleanSchool>>)
    | NeedsReview(report: seq<Candidate>)
    | Inconsistent

  function SchoolName(s: School): Cell {
    s.name
  }

  function CleanSchoolName(s: CleanSchool): Cell {
    s.school.name
  }

  /** The key `right0` is deduplicated on: cleaned name and cleaned address. */
  function SiteKey(s: CleanSchool): (Cell, Cell) {
    (s.nameClean, s.addressClean)
  }

  predicate HasAbbreviation(s: CleanSchool) {
    s.school.abbreviation != Null
  }

  /**
   * The cleaned registry, one row per cleaned (name, address): the first
   * cleaned row of each site, in registry order, with no site lost.
   */
  function Right0(schools: seq<School>, clean: Cell -> Cell): (right: seq<CleanSchool>)
    ensures UniqueBy(right, SiteKey)
    ensures IsSubseq(right, CleanSchools(schools, clean))
    ensures KeysOf(right, SiteKey) == KeysOf(CleanSchools(schools, clean), SiteKey)
    ensures forall s :: s in right ==> First(CleanSchools(schools, clean), SiteKey, SiteKey(s)) == Some(s)
    ensures forall s :: s in right ==> s.school in schools
  {
    var right := DedupBy(CleanSchools(schools, clean), SiteKey);
    SubseqMembers(right, CleanSchools(schools, clean));
    forall s | s in right ensures s.school in schools {
      var i :| 0 <= i < |CleanSchools(schools, clean)| && CleanSchools(schools, clean)[i] == s;
    }
    right
  }

  /** The cleaned row `data2` holds for a permit. */
  function Cleaned(p: Permit, clean: Cell -> Cell): CleanPermit {
    CleanPermit(p, CleanCell(p.facilityName, clean), CleanCell(p.facilityAddress, clean))
  }

  /** The exact tiers run on the handed-on permits against `right0`: what they leave, and their matches. */
  function ExactRun(unmatched: seq<Permit>, schools: seq<School>, clean: Cell -> Cell): (seq<CleanPermit>, seq<Match>) {
    RunTiers(CleanPermits(unmatched, clean), Right0(schools, clean), Tiers)
  }

  /** The permits handed to the fuzzy matcher: left by the tiers and not at a known-missing facility. */
  function Leftover(unmatched: seq<Permit>, schools: seq<School>, known: seq<Cell>, clean: Cell -> Cell): seq<CleanPermit> {
    Filter(ExactRun(unmatched, schools, clean).0, NotKnown(known))
  }

  /** The two fuzzy joins' results, tagged: name to name, then name to abbreviation. */
  function Candidates(left: seq<CleanPermit>, right0: seq<CleanSchool>, fuzzy: FuzzyMerge): seq<Candidate> {
    Via(fuzzy(left, right0, NameToName), NameToName) +
    Via(fuzzy(left, Filter(right0, HasAbbreviation), NameToAbbreviation), NameToAbbreviation)
  }

  /** No tier finds a partner for the permit on the right side. */
  predicate Unpartnered(q: CleanPermit, right: seq<CleanSchool>) {
    forall t :: t in Tiers ==> LeftOn(t)(q) !in KeysOf(right, RightOn(t))
  }

  /**
   * A permit nothing before the fuzzy matcher can place: the crosswalk
   * gives it no school, its facility is not known to be missing, and no
   * exact tier finds it a partner.
   */
  predicate Unplaceable(p: Permit, data: seq<Permit>, schools: seq<School>, crosswalk: seq<CrosswalkEntry>,
                        known: seq<Cell>, clean: Cell -> Cell) {
    p in data && p.facilityName !in known && (p, Null) in CrosswalkRows(data, crosswalk) &&
    Unpartnered(Cleaned(p, clean), Right0(schools, clean))
  }

  /**
   * `match_datasets`: the direct test merge, else the exact tiers; a run
   * left with only known-missing facilities grows the crosswalk and
   * re-runs the test merge; anything else ends in the fuzzy review report.
   * With unique permit numbers, the review report is produced exactly when
   * some permit is unplaceable.
   */
  method MatchDatasets(data: seq<Permit>, schools: seq<School>, crosswalk: seq<CrosswalkEntry>, known: seq<Cell>,
                       clean: Cell -> Cell, fuzzy: FuzzyMerge) returns (outcome: Outcome)
    ensures outcome.MatchedDirect? <==> TestMerge(data, schools, SchoolName, crosswalk, known).AllKnown?
    ensures outcome.MatchedDirect? ==> outcome.rows == TestMerge(data, schools, SchoolName, crosswalk, known).rows
    ensures outcome.MatchedAfterExact? ==>
      var first := TestMerge(data, schools, SchoolName, crosswalk, known);
      first.Unknown? && Leftover(first.unmatched, schools, known, clean) == [] &&
      TestMerge(data, CleanSchools(schools, clean), CleanSchoolName,
                Grow(crosswalk, ExactRun(first.unmatched, schools, clean).1), known) == AllKnown(outcome.matched)
    ensures outcome.MatchedAfterExact? ==> forall a :: a in outcome.matched ==>
      a.permit in data && a.schoolName != Null &&
      (a.school.Some? ==> a.school.value.school in schools && a.school.value.school.name == a.schoolName)
    ensures outcome.NeedsReview? <==>
      var first := TestMerge(data, schools, SchoolName, crosswalk, known);
      first.Unknown? && Leftover(first.unmatched, schools, known, clean) != []
    ensures outcome.NeedsReview? ==>
      var first := TestMerge(data, schools, SchoolName, crosswalk, known);
      first.Unknown? &&
      outcome.report == Report(Candidates(Leftover(first.unmatched, schools, known, clean), Right0(schools, clean), fuzzy))
    ensures outcome.NeedsReview? ==>
      exists p :: Unplaceable(p, data, schools, crosswalk, known, clean)
    ensures UniqueBy(data, PermitOf) && (exists p :: Unplaceable(p, data, schools, crosswalk, known, clean)) ==>
      outcome.NeedsReview?
    ensures outcome.Inconsistent? <==>
      var first := TestMerge(data, schools, SchoolName, crosswalk, known);
      first.Unknown? && Leftover(first.unmatched, schools, known, clean) == [] &&
      TestMerge(data, CleanSchools(schools, clean), CleanSchoolName,
                Grow(crosswalk, ExactRun(first.unmatched, schools, clean).1), known).Unknown?
    ensures (UniqueBy(data, PermitOf) && (forall e :: e in crosswalk ==> e.schoolName != Null) &&
             (forall s :: s in schools ==> s.name != Null)) ==> !outcome.Inconsistent?
  {
    var first := TestMerge(data, schools, SchoolName, crosswalk, known);
    if UniqueBy(data, PermitOf) && exists p :: Unplaceable(p, data, schools, crosswalk, known, clean) {
      ghost var p :| Unplaceable(p, data, schools, crosswalk, known, clean);
      UnplaceableReviewed(data, schools, crosswalk, known, clean, p);
    }
    if first.AllKnown? {
      return MatchedDirect(first.rows);
    }
    outcome := ExactThenFuzzy(data, schools, crosswalk, known, clean, fuzzy, first.unmatched);
  }

  /**
   * The rest of `match_datasets` once the test merge has handed on
   * `unmatched`, the permits the crosswalk left without a school.
   */
  method ExactThenFuzzy(data: seq<Permit>, schools: seq<School>, crosswalk: seq<CrosswalkEntry>, known: seq<Cell>,
                        clean: Cell -> Cell, fuzzy: FuzzyMerge, unmatched: seq<Permit>) returns (outcome: Outcome)
    requires forall p :: p in unmatched <==> p in data && (p, Null) in CrosswalkRows(data, crosswalk)
    ensures !outcome.MatchedDirect?
    ensures outcome.MatchedAfterExact? ==>
      Leftover(unmatched, schools, known, clean) == [] &&
      TestMerge(data, CleanSchools(schools, clean), CleanSchoolName,
                Grow(crosswalk, ExactRun(unmatched, schools, clean).1), known) == AllKnown(outcome.matched)
    ensures outcome.MatchedAfterExact? ==> forall a :: a in outcome.matched ==>
      a.permit in data && a.schoolName != Null &&
      (a.school.Some? ==> a.school.value.school in schools && a.school.value.school.name == a.schoolName)
    ensures outcome.NeedsReview? <==> Leftover(unmatched, schools, known, clean) != []
    ensures outcome.NeedsReview? ==>
      outcome.report == Report(Candidates(Leftover(unmatched, schools, known, clean), Right0(schools, clean), fuzzy))
    ensures outcome.NeedsReview? ==> exists p :: Unplaceable(p, data, schools, crosswalk, known, clean)
    ensures outcome.Inconsistent? <==>
      Leftover(unmatched, schools, known, clean) == [] &&
      TestMerge(data, CleanSchools(schools, clean), CleanSchoolName,
                Grow(crosswalk, ExactRun(unmatched, schools, clean).1), known).Unknown?
    ensures (UniqueBy(data, PermitOf) && (forall e :: e in crosswalk ==> e.schoolName != Null) &&
             (forall s :: s in schools ==> s.name != Null)) ==> !outcome.Inconsistent?
  {
    var data2 := CleanPermits(unmatched, clean);
    var cleaned := CleanSchools(schools, clean);
    var right0 := Right0(schools, clean);
    var left, exact := ExactMatches(data2, right0, Tiers);
    left := Filter(left, NotKnown(known));
    if left == [] {
      var grown := Grow(crosswalk, exact);
      var second := TestMerge(data, cleaned, CleanSchoolName, grown, known);
      if UniqueBy(data, PermitOf) && (forall e :: e in crosswalk ==> e.schoolName != Null) &&
         (forall s :: s in schools ==> s.name != Null) {
        GrownCrosswalkSettles(data, unmatched, right0, crosswalk, known, clean, Tiers);
      }
      if second.AllKnown? {
        SecondMergeRows(data, schools, clean, grown, known);
        return MatchedAfterExact(second.rows);
      }
      return Inconsistent;
    }
    ghost var p := LeftoverUnmatched(data, crosswalk, unmatched, schools, known, clean, left[0]);
    var byName := Via(fuzzy(left, right0, NameToName), NameToName);
    var byAbbreviation := Via(fuzzy(left, Filter(right0, HasAbbreviation), NameToAbbreviation), NameToAbbreviation);
    return NeedsReview(Report(byName + byAbbreviation));
  }

  /** The rows of the second test merge carry registry schools under the crosswalk's name. */
  lemma SecondMergeRows(data: seq<Permit>, schools: seq<School>, clean: Cell -> Cell,
                        grown: seq<CrosswalkEntry>, known: seq<Cell>)
    requires TestMerge(data, CleanSchools(schools, clean), CleanSchoolName, grown, known).AllKnown?
    ensures forall a :: a in TestMerge(data, CleanSchools(schools, clean), CleanSchoolName, grown, known).rows ==>
      a.permit in data && a.schoolName != Null &&
      (a.school.Some? ==> a.school.value.school in schools && a.school.value.school.name == a.schoolName)
  {
    var cleaned := CleanSchools(schools, clean);
    forall a | a in TestMerge(data, cleaned, CleanSchoolName, grown, known).rows && a.school.Some?
      ensures a.school.value.school in schools && a.school.value.school.name == a.schoolName
    {
      var i :| 0 <= i < |cleaned| && cleaned[i] == a.school.value;
    }
  }

  /**
   * A permit that reaches the fuzzy matcher was handed on by the test
   * merge, is not known to be missing, and has no partner in any tier.
   */
  lemma LeftoverUnmatched(data: seq<Permit>, crosswalk: seq<CrosswalkEntry>, unmatched: seq<Permit>,
                          schools: seq<School>, known: seq<Cell>, clean: Cell -> Cell, q: CleanPermit)
    returns (p: Permit)
    requires forall p :: p in unmatched ==> p in data && (p, Null) in CrosswalkRows(data, crosswalk)
    requires q in Leftover(unmatched, schools, known, clean)
    ensures Unplaceable(p, data, schools, crosswalk, known, clean)
  {
    var left0 := CleanPermits(unmatched, clean);
    var right := Right0(schools, clean);
    assert q in RunTiers(left0, right, Tiers).0;
    LeftoverOf(left0, right, Tiers, q);
    var i :| 0 <= i < |left0| && left0[i] == q;
    p := unmatched[i];
    assert q == Cleaned(p, clean);
  }

  /** A permit the tiers leave over came from their input and has no partner in any of them. */
  lemma LeftoverOf(left: seq<CleanPermit>, right: seq<CleanSchool>, tiers: seq<Tier>, q: CleanPermit)
    requires q in RunTiers(left, right, tiers).0
    ensures q in left
    ensures forall t :: t in tiers ==> LeftOn(t)(q) !in KeysOf(right, RightOn(t))
  {
    TiersExhausted(left, right, tiers);
    TiersSound(left, right, tiers);
    SubseqMembers(RunTiers(left, right, tiers).0, left);
  }

  /**
   * With unique permit numbers, an unplaceable permit makes the test merge
   * fail and reaches the fuzzy matcher.
   */
  lemma UnplaceableReviewed(data: seq<Permit>, schools: seq<School>, crosswalk: seq<CrosswalkEntry>,
                            known: seq<Cell>, clean: Cell -> Cell, p: Permit)
    requires UniqueBy(data, PermitOf)
    requires Unplaceable(p, data, schools, crosswalk, known, clean)
    ensures TestMerge(data, schools, SchoolName, crosswalk, known).Unknown?
    ensures Leftover(TestMerge(data, schools, SchoolName, crosswalk, known).unmatched, schools, known, clean) != []
  {
    var first := TestMerge(data, schools, SchoolName, crosswalk, known);
    assert first.Unknown?;
    UnpartneredLeftOver(data, first.unmatched, Right0(schools, clean), known, clean, Tiers, p);
  }

  /**
   * For any tier list: a handed-on permit of a table with unique permit
   * numbers that no tier can partner is left over, and unless its facility
   * is known to be missing it survives the known-missing filter.
   */
  lemma UnpartneredLeftOver(data: seq<Permit>, unmatched: seq<Permit>, right: seq<CleanSchool>,
                            known: seq<Cell>, clean: Cell -> Cell, tiers: seq<Tier>, p: Permit)
    requires UniqueBy(data, PermitOf)
    requires forall u :: u in unmatched ==> u in data
    requires p in unmatched && p.facilityName !in known
    requires forall t :: t in tiers ==> LeftOn(t)(Cleaned(p, clean)) !in KeysOf(right, RightOn(t))
    ensures Filter(RunTiers(CleanPermits(unmatched, clean), right, tiers).0, NotKnown(known)) != []
  {
    var left0 := CleanPermits(unmatched, clean);
    var q := Cleaned(p, clean);
    CleanedMember(unmatched, clean, p);
    var r := RunTiers(left0, right, tiers);
    assert forall x :: x in r.1 ==>
      x.permit in left0 && x.tier in tiers && LeftOn(x.tier)(x.permit) in KeysOf(right, RightOn(x.tier)) by {
      TiersSound(left0, right, tiers);
    }
    forall x | x in r.1 ensures x.permit.row.permit != p.permit {
      OtherPermit(data, unmatched, right, clean, x.tier, p, x.permit);
    }
    assert q.row.permit !in MatchedNumbers(r.1);
    assert q in r.0 by {
      TiersCover(left0, right, tiers);
    }
    assert q in Filter(r.0, NotKnown(known));
  }

  /** A handed-on permit's cleaned row is in `data2`. */
  lemma CleanedMember(unmatched: seq<Permit>, clean: Cell -> Cell, p: Permit)
    requires p in unmatched
    ensures Cleaned(p, clean) in CleanPermits(unmatched, clean)
  {
    var i :| 0 <= i < |unmatched| && unmatched[i] == p;
    assert CleanPermits(unmatched, clean)[i] == Cleaned(p, clean);
  }

  /** A cleaned permit with a partner in a tier is not the row of a permit number without one. */
  lemma OtherPermit(data: seq<Permit>, unmatched: seq<Permit>, right: seq<CleanSchool>, clean: Cell -> Cell,
                    t: Tier, p: Permit, c: CleanPermit)
    requires UniqueBy(data, PermitOf)
    requires forall u :: u in unmatched ==> u in data
    requires p in unmatched && c in CleanPermits(unmatched, clean)
    requires LeftOn(t)(c) in KeysOf(right, RightOn(t))
    requires LeftOn(t)(Cleaned(p, clean)) !in KeysOf(right, RightOn(t))
    ensures c.row.permit != p.permit
  {
    var left0 := CleanPermits(unmatched, clean);
    var j :| 0 <= j < |left0| && left0[j] == c;
    assert c == Cleaned(unmatched[j], clean);
    DistinctRowsDistinctPermits(data, unmatched[j], p);
  }
}
