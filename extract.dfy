/**
 * Extraction of the School District's permits from the city's asbestos
 * notification report (`extract_asbestos_data` and `trim_to_school_district`
 * in `data/asbestos.py`): date columns are written as `mm-dd-yyyy` text,
 * rows are kept when the owner or the owner's address identifies the
 * School District, rows applied for before 2016 are dropped, and the rest
 * are sorted by application date.
 */
module Extract {
  import opened Wrappers
  import opened Strings
  import opened Tables
  import opened Dates

  /** A report row as read from the spreadsheet, before its dates are formatted. */
  datatype RawNotice = RawNotice(
    permit: string,
    owner: Cell,
    ownerAddress: Cell,
    applied: Option<CalendarDate>,
    details: seq<Cell>)

  /** A report row once its application date is `mm-dd-yyyy` text (or missing). */
  datatype Notice = Notice(
    permit: string,
    owner: Cell,
    ownerAddress: Cell,
    applicationDate: Cell,
    details: seq<Cell>)

  /** `pd.to_datetime(col).dt.strftime("%m-%d-%Y")`: a missing date stays missing. */
  function FormatNotice(n: RawNotice): (r: Notice)
    ensures r.applicationDate.Text? <==> n.applied.Some?
    ensures n.applied.Some? ==> Parse(r.applicationDate.text) == n.applied
  {
    match n.applied
    case None => Notice(n.permit, n.owner, n.ownerAddress, Null, n.details)
    case Some(d) =>
      ParseFormat(d);
      Notice(n.permit, n.owner, n.ownerAddress, Text(Format(d)), n.details)
  }

  function FormatDates(raw: seq<RawNotice>): (data: seq<Notice>)
    ensures |data| == |raw|
    ensures forall i :: 0 <= i < |raw| ==> data[i] == FormatNotice(raw[i])
  {
    seq(|raw|, i requires 0 <= i < |raw| => FormatNotice(raw[i]))
  }

  // ---------------------------------------------------------------------------
  // The School District tests

  /** The owner is named like the School District of Philadelphia, or is "sdp". */
  predicate TestOwner(c: Cell) {
    c.Text? &&
    var x := Lower(c.text);
    (Contains(x, "school") && Contains(x, "phila") && Contains(x, "dis")) || x == "sdp"
  }

  /** The owner's address is the District's head office at 440 N. Broad St. */
  predicate TestAddress(c: Cell) {
    c.Text? &&
    var x := Lower(c.text);
    Contains(x, "440") && Contains(x, "broad")
  }

  predicate InSchoolDistrict(n: Notice) {
    TestOwner(n.owner) || TestAddress(n.ownerAddress)
  }

  /** `data.loc[sel1 | sel2]`: the School District's rows, in their original order. */
  function TrimToSchoolDistrict(data: seq<Notice>): (r: seq<Notice>)
    ensures forall n :: n in r <==> n in data && (TestOwner(n.owner) || TestAddress(n.ownerAddress))
    ensures IsSubseq(r, data)
    ensures forall n :: multiset(r)[n] == if InSchoolDistrict(n) then multiset(data)[n] else 0
  {
    FilterCount(data, InSchoolDistrict);
    Filter(data, InSchoolDistrict)
  }

  /** A row whose owner and owner address are not text is never kept. */
  lemma NonTextNeverKept(data: seq<Notice>, n: Notice)
    requires !n.owner.Text? && !n.ownerAddress.Text?
    ensures n !in TrimToSchoolDistrict(data)
  {
  }

  /** The tests ignore letter case. */
  lemma TestsIgnoreCase(s: string)
    ensures TestOwner(Text(Lower(s))) == TestOwner(Text(s))
    ensures TestAddress(Text(Lower(s))) == TestAddress(Text(s))
  {
    LowerIdempotent(s);
  }

  /** A spelling of the District's name as the report abbreviates it passes the owner test. */
  lemma DistrictNamePasses()
    ensures TestOwner(Text("Phila School Dist"))
  {
    DistrictNameLowered();
    DistrictNameWords();
    OwnerWordsPass("Phila School Dist", "phila school dist", 0, 6, 13);
  }

  /** The District's name, lower-cased. */
  lemma DistrictNameLowered()
    ensures Lower("Phila School Dist") == "phila school dist"
  {
  }

  /** Where the three owner-test words sit in the lower-cased name. */
  lemma DistrictNameWords()
    ensures OccursAt("phila school dist", "phila", 0)
    ensures OccursAt("phila school dist", "school", 6)
    ensures OccursAt("phila school dist", "dis", 13)
  {
  }

  /** An owner whose lower-cased text holds "phila", "school" and "dis" passes the owner test. */
  lemma OwnerWordsPass(owner: string, lower: string, i: int, j: int, k: int)
    requires Lower(owner) == lower
    requires OccursAt(lower, "phila", i) && OccursAt(lower, "school", j) && OccursAt(lower, "dis", k)
    ensures TestOwner(Text(owner))
  {
    ContainsAt(lower, "phila");
    ContainsAt(lower, "school");
    ContainsAt(lower, "dis");
  }

  /** The report's abbreviation of the District passes the owner test. */
  lemma AbbreviationPasses()
    ensures TestOwner(Text("SDP"))
  {
    assert Lower("SDP") == "sdp";
  }

  /** The District's head-office address passes the address test. */
  lemma HeadOfficePasses()
    ensures TestAddress(Text("440 N Broad St"))
  {
    var address := Lower("440 N Broad St");
    assert address == "440 n broad st";
    assert OccursAt(address, "440", 0);
    assert OccursAt(address, "broad", 6);
    ContainsAt(address, "440");
    ContainsAt(address, "broad");
  }

  // ---------------------------------------------------------------------------
  // The 2016 cut-off

  const Cutoff: Date := Date(2016, 1, 1)

  /** `pd.to_datetime(application_date) >= "01-01-2016"`; a missing date compares false. */
  predicate OnOrAfterCutoff(c: Cell) {
    c.Text? && Parse(c.text).Some? && !Before(Parse(c.text).value, Cutoff)
  }

  predicate Recent(n: Notice) {
    OnOrAfterCutoff(n.applicationDate)
  }

  /** Re-parsing the formatted date decides the cut-off on the original date. */
  lemma CutoffOnOriginalDate(n: RawNotice)
    ensures Recent(FormatNotice(n)) <==> n.applied.Some? && !Before(n.applied.value, Cutoff)
  {
  }

  // ---------------------------------------------------------------------------
  // Sorting on the application date

  /** `sort_values` on a text column: text in code-point order, missing values last. */
  predicate TextLe(a: Cell, b: Cell) {
    if a.Text? && b.Text? then StrLe(a.text, b.text)
    else a.Text? || !b.Text?
  }

  predicate ByDateText(x: Notice, y: Notice) {
    TextLe(x.applicationDate, y.applicationDate)
  }

  lemma ByDateTextPreorder()
    ensures TotalPreorder(ByDateText)
  {
    forall a: Notice, b: Notice ensures ByDateText(a, b) || ByDateText(b, a) {
      if a.applicationDate.Text? && b.applicationDate.Text? {
        StrLeTotal(a.applicationDate.text, b.applicationDate.text);
      }
    }
    forall a: Notice, b: Notice, c: Notice | ByDateText(a, b) && ByDateText(b, c)
      ensures ByDateText(a, c)
    {
      if a.applicationDate.Text? && b.applicationDate.Text? && c.applicationDate.Text? {
        StrLeTrans(a.applicationDate.text, b.applicationDate.text, c.applicationDate.text);
      }
    }
  }

  /** The date a row was applied for, read back from its text. */
  function AppliedOn(n: Notice): Option<Date> {
    if n.applicationDate.Text? then Parse(n.applicationDate.text) else None
  }

  /** Chronological order on application dates, rows without one last. */
  predicate ByDate(x: Notice, y: Notice) {
    match (AppliedOn(x), AppliedOn(y))
    case (Some(a), Some(b)) => !Before(b, a)
    case (Some(_), None) => true
    case (None, Some(_)) => false
    case (None, None) => true
  }

  lemma ByDatePreorder()
    ensures TotalPreorder(ByDate)
  {
  }

  // ---------------------------------------------------------------------------
  // The extraction

  /** The rows `extract_asbestos_data` keeps, before sorting. */
  function Selected(raw: seq<RawNotice>): (r: seq<Notice>)
    ensures forall n :: n in r <==> n in FormatDates(raw) && InSchoolDistrict(n) && Recent(n)
    ensures IsSubseq(r, FormatDates(raw))
  {
    var sd := TrimToSchoolDistrict(FormatDates(raw));
    var r := Filter(sd, Recent);
    SubseqTrans(r, sd, FormatDates(raw));
    r
  }

  /**
   * `extract_asbestos_data` as written: the selected rows sorted on the
   * `mm-dd-yyyy` text of their application date.
   */
  function ExtractAsWritten(raw: seq<RawNotice>): (r: seq<Notice>)
    ensures multiset(r) == multiset(Selected(raw))
    ensures SortedBy(r, ByDateText)
  {
    ByDateTextPreorder();
    SortBy(Selected(raw), ByDateText)
  }

  /**
   * As written, a permit applied for on 02-01-2016 is listed after one
   * applied for on 01-05-2020.
   */
  lemma AsWrittenOutOfOrder(raw: seq<RawNotice>, i: int, j: int)
    requires 0 <= i < |ExtractAsWritten(raw)| && 0 <= j < |ExtractAsWritten(raw)|
    requires ExtractAsWritten(raw)[i].applicationDate == Text(Format(FebFirst2016))
    requires ExtractAsWritten(raw)[j].applicationDate == Text(Format(JanFifth2020))
    ensures j < i
  {
    TextOrderNotChronological();
    TextSortedOrder(ExtractAsWritten(raw), i, j, Format(FebFirst2016), Format(JanFifth2020));
  }

  /** In a list sorted on date text, a row whose date text sorts after another's is listed after it. */
  lemma TextSortedOrder(r: seq<Notice>, i: int, j: int, early: string, late: string)
    requires SortedBy(r, ByDateText)
    requires 0 <= i < |r| && 0 <= j < |r|
    requires r[i].applicationDate == Text(early) && r[j].applicationDate == Text(late)
    requires StrLt(late, early)
    ensures j < i
  {
    StrLtIrreflexive(late);
    if i < j {
      assert ByDateText(r[i], r[j]);
      assert StrLe(early, late);
      if early != late {
        StrLtTrans(late, early, late);
      }
    }
  }

  /**
   * `extract_asbestos_data` as evidently intended: the selected rows in
   * chronological order of application.
   */
  function ExtractSchoolDistrict(raw: seq<RawNotice>): (r: seq<Notice>)
    ensures multiset(r) == multiset(Selected(raw))
    ensures SortedBy(r, ByDate)
  {
    ByDatePreorder();
    SortBy(Selected(raw), ByDate)
  }

  /**
   * A report row is in the extract exactly when it belongs to the School
   * District and was applied for on or after 2016-01-01.
   */
  lemma ExtractKeeps(raw: seq<RawNotice>, n: RawNotice)
    requires n in raw
    ensures FormatNotice(n) in ExtractSchoolDistrict(raw) <==>
      InSchoolDistrict(FormatNotice(n)) && n.applied.Some? && !Before(n.applied.value, Cutoff)
  {
    var i :| 0 <= i < |raw| && raw[i] == n;
    assert FormatDates(raw)[i] == FormatNotice(n);
    assert FormatNotice(n) in ExtractSchoolDistrict(raw) <==> FormatNotice(n) in multiset(Selected(raw));
    CutoffOnOriginalDate(n);
  }

  /** In the extract, earlier applications come first. */
  lemma ExtractChronological(raw: seq<RawNotice>, i: int, j: int)
    requires 0 <= i < j < |ExtractSchoolDistrict(raw)|
    requires AppliedOn(ExtractSchoolDistrict(raw)[i]).Some? && AppliedOn(ExtractSchoolDistrict(raw)[j]).Some?
    ensures !Before(AppliedOn(ExtractSchoolDistrict(raw)[j]).value, AppliedOn(ExtractSchoolDistrict(raw)[i]).value)
  {
    var r := ExtractSchoolDistrict(raw);
    assert ByDate(r[i], r[j]);
  }
}
