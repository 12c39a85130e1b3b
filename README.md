# Asbestos permit pipeline: a verified model

This project models the core of the asbestos-dashboard data pipeline in
Dafny. The pipeline takes the City of Philadelphia's asbestos-permit report
and the School District's school registry and publishes two tables: the
District's permits, each matched to a school, and the schools.

The model covers these steps:

- **Extract.** Keep the rows whose facility owner or owner address belongs
  to the School District of Philadelphia and whose application date is on
  or after 1 January 2016. Sort them by application date.
- **Geocode.** Join the coordinates already on file. Send only the distinct
  addresses still lacking coordinates to the geocoder. Fill the gaps, and
  fail when an address stays unresolved unless failures are ignored.
- **School registry.** Stack the yearly snapshot files, newest first, then
  the legacy list. Keep the first row per (ULCS code, name). Lower-case the
  level and the abbreviation, and treat "open" as no closing year. Drop
  schools whose name has an `EOP` word, and drop schools with no name or
  address.
- **Matching.** Test the permits against the facility-to-school crosswalk.
  Facilities the crosswalk does not know go through three exact joins in
  falling priority: name to name, name to abbreviation, then address to
  address. If only known-missing facilities are left, the crosswalk grows
  and the test merge runs again. Otherwise the fuzzy candidates are ranked
  into a review report.
- **Transform.** The site address replaces the facility address where one
  is present. Each school gets one set of coordinates. The names of closed
  schools get " (Closed)". The `elementarymiddle` level is respelled.
- **Daily update.** The downloaded permits already published overwrite
  the published rows in place, on every column the two tables share. New
  permits are processed and appended. Missing permit URLs are looked up and
  filled.
- **Published tables.** The permit table and the schools table are
  projected from the result.

Files:

| file | module | what it holds |
|---|---|---|
| `wrappers.dfy` | `Wrappers` | `Option` |
| `strings.dfy` | `Strings` | ASCII lower-casing, substring test, whitespace tokens (`str.split()`), code-point order on strings |
| `tables.dfy` | `Tables` | keep-first de-duplication, filters, left and inner joins, a stable insertion sort: the pandas operations the pipeline uses |
| `frames.dfy` | `Frames` | rows keyed by permit number with named cells; concat, drop, projection |
| `dates.dfy` | `Dates` | Gregorian dates, the `%m-%d-%Y` format and its parser |
| `extract.dfy` | `Extract` | `trim_to_school_district`, the cut-off and the sort |
| `geocode.dfy` | `Geocoding` | the cache decision of `geocode` |
| `schools.dfy` | `Schools` | `load_schools_database` |
| `matcher.dfy` | `Matcher` | `_clean_columns`, `_test_merge`, `match_datasets` |
| `transform.dfy` | `Transform` | the column steps of `transform` |
| `urls.dfy` | `PermitUrls` | `scrape_permit_urls`, `update_permit_urls`, the URL cache merge, the raw-report combine |
| `updater.dfy` | `Updater` | `update` and the projections of `_run_etl` |

Foreign code is passed in as a parameter of function type:

- `skool.clean_strings` is `clean`;
- `skool.fuzzy_merge` is `fuzzy`;
- the AIS geocoder is `geocoder`;
- the browser URL lookup is `lookup`;
- `geocode` plus `transform` inside `update` is `process`;
- reading a snapshot file is `read`.

File reads are the parameters' values: the cache, the crosswalk, the
known-missing list, the directory listing and the previous report.

## Model

| member | source | states |
|---|---|---|
| Extract.FormatNotice | asbestos_dashboard_data/data/asbestos.py:70-71 | a formatted date is present exactly when the original was, and parsing it back gives the original date |
| Extract.TrimToSchoolDistrict | asbestos_dashboard_data/data/asbestos.py:16-38 | a row is kept if and only if its owner passes the owner test or its owner address passes the address test; kept rows stay in their original order, and every copy of a kept row survives |
| Extract.NonTextNeverKept | asbestos_dashboard_data/data/asbestos.py:22-34 | a row whose owner and owner address are not strings is never kept |
| Extract.TestsIgnoreCase | asbestos_dashboard_data/data/asbestos.py:22-34 | both tests give the same answer on a string and on its lower-cased form |
| Extract.DistrictNamePasses | asbestos_dashboard_data/data/asbestos.py:25 | example: "Phila School Dist" passes the owner test |
| Extract.AbbreviationPasses | asbestos_dashboard_data/data/asbestos.py:25 | example: "SDP" passes the owner test |
| Extract.HeadOfficePasses | asbestos_dashboard_data/data/asbestos.py:32 | example: "440 N Broad St" passes the address test |
| Extract.CutoffOnOriginalDate | asbestos_dashboard_data/data/asbestos.py:114-115 | the cut-off on the re-parsed text keeps a row exactly when its original date is on or after 1 January 2016 |
| Extract.ByDateTextPreorder | asbestos_dashboard_data/data/asbestos.py:121 | sorting on the date text, missing last, is a total preorder |
| Extract.ByDatePreorder | asbestos_dashboard_data/data/asbestos.py:121 | chronological order, missing last, is a total preorder |
| Extract.Selected | asbestos_dashboard_data/data/asbestos.py:108-115 | the kept rows are exactly the formatted District rows on or after the cut-off, in original order |
| Extract.ExtractAsWritten | asbestos_dashboard_data/data/asbestos.py:121 | as written: a permutation of the selected rows, sorted on the date text |
| Extract.AsWrittenOutOfOrder | asbestos_dashboard_data/data/asbestos.py:121 | as written, a row dated 01-05-2020 is listed before a row dated 02-01-2016 |
| Extract.TextSortedOrder | asbestos_dashboard_data/data/asbestos.py:121 | in a list sorted on date text, a row whose text sorts earlier is listed earlier |
| Extract.ExtractSchoolDistrict | asbestos_dashboard_data/data/asbestos.py:108-121 | intended: a permutation of the selected rows in chronological order |
| Extract.ExtractKeeps | asbestos_dashboard_data/data/asbestos.py:111-115 | a raw row is in the extract if and only if it is a District row applied for on or after the cut-off |
| Extract.ExtractChronological | asbestos_dashboard_data/data/asbestos.py:121 | in the intended extract, no row is dated before a row listed earlier |
| Dates.Pad | asbestos_dashboard_data/data/asbestos.py:71 | the zero-padded field has exactly the requested width and only digits |
| Dates.ReadDigits | asbestos_dashboard_data/data/asbestos.py:114 | a digit string of width w reads as a number below 10^w |
| Dates.ReadPad | asbestos_dashboard_data/data/asbestos.py:114 | reading a padded number gives the number back |
| Dates.PadRead | asbestos_dashboard_data/data/asbestos.py:71 | padding a digit string's value to its width gives the string back |
| Dates.PadTwoOrder | asbestos_dashboard_data/data/asbestos.py:121 | two-digit fields compare as text exactly as they compare as numbers |
| Dates.Format | asbestos_dashboard_data/data/asbestos.py:71 | the `%m-%d-%Y` text is ten characters, with dashes at positions 2 and 5 |
| Dates.Parse | asbestos_dashboard_data/data/asbestos.py:114 | a text that parses yields a valid date whose format is that same text |
| Dates.ParseFormat | asbestos_dashboard_data/data/asbestos.py:70-71 | parsing a formatted date gives the date back |
| Dates.FormatInjective | asbestos_dashboard_data/data/asbestos.py:71 | distinct valid dates have distinct texts |
| Dates.StrLtAppend | asbestos_dashboard_data/data/asbestos.py:121 | text comparison of equal-length prefixes decides first, the rest breaks ties |
| Dates.SameYearTextOrder | asbestos_dashboard_data/data/asbestos.py:121 | within one year, text order on `mm-dd-yyyy` is chronological order |
| Dates.DayTextOrder | asbestos_dashboard_data/data/asbestos.py:121 | within one year and after the month, the rest of the text orders by day |
| Dates.TextOrderNotChronological | asbestos_dashboard_data/data/asbestos.py:121 | 02-01-2016 is earlier than 01-05-2020, yet its text sorts after it |
| Geocoding.CacheTable | asbestos_dashboard_data/data/asbestos.py:155-157 | the cache keeps one entry per address; every entry kept has both coordinates; every usable address on file is kept |
| Geocoding.Cached | asbestos_dashboard_data/data/asbestos.py:153-163 | an address gets cached coordinates exactly when a usable entry for it is on file, and then from such an entry |
| Geocoding.JoinCache | asbestos_dashboard_data/data/asbestos.py:153-163 | every row is kept in order; it carries its cached coordinates, or none when there are none |
| Geocoding.LackingAddresses | asbestos_dashboard_data/data/asbestos.py:166-167 | the request holds each address of a row lacking a coordinate, once |
| Geocoding.IndexOf | asbestos_dashboard_data/data/asbestos.py:196 | the first position of an address in the request |
| Geocoding.ZipFirst | asbestos_dashboard_data/data/asbestos.py:196 | looking up a requested address finds the answer at its own position |
| Geocoding.JoinFixes | asbestos_dashboard_data/data/asbestos.py:204-212 | every row is kept; a requested row's gaps are filled from its answer, other rows are unchanged |
| Geocoding.Fill | asbestos_dashboard_data/data/asbestos.py:207-212 | a coordinate already present is kept; a missing one takes the answer's value |
| Geocoding.RequestMembers | asbestos_dashboard_data/data/asbestos.py:165-167 | the addresses sent to the geocoder are exactly those with no cached coordinates |
| Geocoding.UnresolvedRow | asbestos_dashboard_data/data/asbestos.py:215 | after the join, a row still lacks a coordinate exactly when it was requested and its answer lacks one |
| Geocoding.UnresolvedRequested | asbestos_dashboard_data/data/asbestos.py:215-234 | an address stays unresolved only if it was requested, and some address does exactly when some answer lacks a coordinate |
| Geocoding.FilledRows | asbestos_dashboard_data/data/asbestos.py:204-212 | cached rows keep their coordinates; the others carry their answer's coordinates and columns |
| Geocoding.Geocode | asbestos_dashboard_data/data/asbestos.py:124-236 | the request is each uncached address once; there is no request when nothing is missing; it fails on an answer of the wrong size, or on an unresolved address unless ignored; otherwise every row is kept with cached or answered coordinates |
| Schools.NameDescendingPreorder | asbestos_dashboard_data/data/schools.py:28 | reverse name order is a total preorder |
| Schools.NewestFirst | asbestos_dashboard_data/data/schools.py:27-28 | the files read are exactly the listing's names starting with "2", in descending name order |
| Schools.SchoolYear | asbestos_dashboard_data/data/schools.py:35 | the school year is the first whitespace word of the file name |
| Schools.SnapshotRowsAppend | asbestos_dashboard_data/data/schools.py:28-35 | stacking one more snapshot appends its tagged rows |
| Schools.LoadSnapshots | asbestos_dashboard_data/data/schools.py:25-46 | the loop stacks the snapshots newest first, then the legacy list |
| Schools.FirstIsNewest | asbestos_dashboard_data/data/schools.py:45-47 | for each (code, name), the row kept comes from the newest snapshot that has one, else from the legacy list |
| Schools.LowerCell | asbestos_dashboard_data/data/schools.py:62-86 | text is lower-cased; anything else becomes missing |
| Schools.ReopenClosed | asbestos_dashboard_data/data/schools.py:64 | only the whole value "open" becomes missing |
| Schools.EopWordIsWholeWord | asbestos_dashboard_data/data/schools.py:75-77 | a name is dropped exactly when "EOP" stands as a whole whitespace-separated word |
| Schools.EopInsideWordKept | asbestos_dashboard_data/data/schools.py:75-77 | example: "LEOPOLD" is not dropped |
| Schools.EopBeforeNoBreakSpaceDropped | asbestos_dashboard_data/data/schools.py:75-77 | example: "EOP" followed by a no-break space is a whole word, so the school is dropped |
| Schools.CleanRegistry | asbestos_dashboard_data/data/schools.py:45-90 | intended: unique (code, name); every school kept is named, has an address, has no EOP word and has lower-case level and abbreviation; each is the normalised first row of its key; every such first row is kept; the kept schools keep the order of the de-duplicated registry |
| Schools.CleanedAreNormal | asbestos_dashboard_data/data/schools.py:62-90 | the cleaned schools are named, addressed, EOP-free and lower-cased |
| Schools.CleanedAreFirst | asbestos_dashboard_data/data/schools.py:45-47 | every cleaned school is the normalised first row of its key |
| Schools.CleanedComplete | asbestos_dashboard_data/data/schools.py:45-90 | every first row that is named, addressed and EOP-free is kept |
| Schools.UniqueKeysKept | asbestos_dashboard_data/data/schools.py:45-87 | filtering after the de-duplication keeps (code, name) unique |
| Schools.CleanRegistryAsWritten | asbestos_dashboard_data/data/schools.py:74-90 | as written: loading succeeds exactly when every de-duplicated row's name is a string |
| Schools.AsWrittenAgrees | asbestos_dashboard_data/data/schools.py:74-90 | when every name is a string, the code as written and the intended cleaning agree |
| Schools.MissingNameRaises | asbestos_dashboard_data/data/schools.py:74-87 | one school with no name: as written, loading fails; intended, the school is dropped |
| Matcher.ExpandAbbreviation | asbestos_dashboard_data/data/asbestos.py:366-374 | only a value equal to one of the five abbreviations is changed |
| Matcher.ExpandIdempotent | asbestos_dashboard_data/data/asbestos.py:366-374 | expanding twice is expanding once |
| Matcher.ExpandWholeValueOnly | asbestos_dashboard_data/data/asbestos.py:366-374 | example: "es" becomes "elementary school"; "dobbins hs" is unchanged |
| Matcher.CrosswalkRows | asbestos_dashboard_data/data/asbestos.py:383 | each merged row pairs a permit with a school the crosswalk names for its facility, or with none; a facility unknown to the crosswalk gets none; a permit is paired with the school of every crosswalk entry for its facility |
| Matcher.CrosswalkHit | asbestos_dashboard_data/data/asbestos.py:383 | a permit is paired with the school of each crosswalk entry for its facility |
| Matcher.AssignSchools | asbestos_dashboard_data/data/asbestos.py:403-407 | each row gets the first registry school of its name, in place |
| Matcher.TestMerge | asbestos_dashboard_data/data/asbestos.py:379-413 | succeeds exactly when every permit left without a school is a known-missing facility; then there is one row per permit-school pair with a school, each pair carries that school's first registry row, and every such pair is present; otherwise the permits handed on are exactly the permits the crosswalk left without a school, which include every facility unknown to the crosswalk |
| Matcher.KnownBranch | asbestos_dashboard_data/data/asbestos.py:397-408 | on success, every row without a school is known-missing, the merged rows carry crosswalk schools, and every permit-school pair with a school is merged |
| Matcher.AssignedComplete | asbestos_dashboard_data/data/asbestos.py:403-407 | every crosswalk row with a school is merged with that school's first registry row |
| Matcher.UnknownBranch | asbestos_dashboard_data/data/asbestos.py:393-413 | on failure, some row without a school is not known-missing, and a permit is handed on if and only if the crosswalk left it without a school |
| Matcher.MissingLefts | asbestos_dashboard_data/data/asbestos.py:386-411 | the permits of the rows without a school are exactly the permits paired with no school |
| Matcher.TierMatches | asbestos_dashboard_data/data/asbestos.py:454-462 | a tier matches exactly the permits whose key occurs on the right, each to the first school with that key |
| Matcher.TierJoin | asbestos_dashboard_data/data/asbestos.py:456-460 | the inner join against the right side de-duplicated on the tier's key matches exactly the permits with a partner |
| Matcher.RemainingStep | asbestos_dashboard_data/data/asbestos.py:452-469 | one pass of the loop leaves the run's final outcome unchanged |
| Matcher.RunTiersFirst | asbestos_dashboard_data/data/asbestos.py:452-469 | the run is the first tier's matches, then the remaining tiers on what they leave |
| Matcher.RemainingEnds | asbestos_dashboard_data/data/asbestos.py:449-469 | at the loop's start the outcome is the whole run; at its end it is what is left |
| Matcher.ExactMatches | asbestos_dashboard_data/data/asbestos.py:448-469 | the loop computes the tier run: the permits left over and the matches |
| Matcher.TiersSound | asbestos_dashboard_data/data/asbestos.py:452-469 | what is left is a subsequence of the input; every match pairs an input permit with the first school carrying its key in that tier |
| Matcher.TiersCover | asbestos_dashboard_data/data/asbestos.py:464 | a permit is left over exactly when it is an input permit whose number no tier matched |
| Matcher.MatchedNumbersAppend | asbestos_dashboard_data/data/asbestos.py:469 | the numbers of two concatenated runs of matches are the union of their numbers |
| Matcher.TiersDisjoint | asbestos_dashboard_data/data/asbestos.py:464 | one permit number is matched by one tier only |
| Matcher.TiersUnique | asbestos_dashboard_data/data/asbestos.py:454-464 | with unique permit numbers in, no permit number is matched twice |
| Matcher.TiersExhausted | asbestos_dashboard_data/data/asbestos.py:452-464 | a permit left over has no partner in any tier |
| Matcher.NoPartnerLeft | asbestos_dashboard_data/data/asbestos.py:464 | what a tier leaves behind had no partner in that tier |
| Matcher.TiersPriority | asbestos_dashboard_data/data/asbestos.py:439-469 | with tiers in rank order, a permit matched by a tier had no partner in any earlier tier |
| Matcher.RankedPriority | asbestos_dashboard_data/data/asbestos.py:439-469 | name-to-name wins; an abbreviation or address match means the cleaned name matched no school name; an address match means the name matched no abbreviation either |
| Matcher.ExactPriority | asbestos_dashboard_data/data/asbestos.py:439-469 | the same priority for the pipeline's three tiers |
| Matcher.NewPairs | asbestos_dashboard_data/data/asbestos.py:480-484 | the new crosswalk holds exactly the (facility, school) pairs of the matches, each once |
| Matcher.Grow | asbestos_dashboard_data/data/asbestos.py:485 | the grown crosswalk holds exactly the old entries and the new pairs, each once |
| Matcher.GrownNamed | asbestos_dashboard_data/data/asbestos.py:480-485 | every entry of the grown crosswalk names a school |
| Matcher.MatchedPairsGrown | asbestos_dashboard_data/data/asbestos.py:480-485 | every facility a tier matched is a key of the grown crosswalk |
| Matcher.NullRowKnown | asbestos_dashboard_data/data/asbestos.py:472-488 | a permit the grown crosswalk leaves without a school is a known-missing facility |
| Matcher.SettledRow | asbestos_dashboard_data/data/asbestos.py:472-488 | a permit whose facility the grown crosswalk lacks is known-missing |
| Matcher.GrownCrosswalkSettles | asbestos_dashboard_data/data/asbestos.py:474-492 | when nothing but known-missing facilities is left, the second test merge succeeds, so the "should not happen" error cannot occur for unique permits and a named crosswalk and registry |
| Matcher.DistinctRowsDistinctPermits | asbestos_dashboard_data/data/asbestos.py:433 | two different rows of a table with unique permit numbers have different numbers |
| Matcher.ByScorePreorder | asbestos_dashboard_data/data/asbestos.py:517-523 | the score ordering is a total preorder |
| Matcher.Ranked | asbestos_dashboard_data/data/asbestos.py:517-523 | the candidates are sorted best first, a permutation of the input |
| Matcher.Report | asbestos_dashboard_data/data/asbestos.py:524 | the report has one candidate per permit, drawn from the candidates |
| Matcher.ReportKeepsBest | asbestos_dashboard_data/data/asbestos.py:517-524 | every permit with a candidate appears in the report with a score at least as high |
| Matcher.Right0 | asbestos_dashboard_data/data/asbestos.py:434-436 | one row per cleaned (name, address), the first such row, in registry order, with no cleaned (name, address) lost; each row is a registry school |
| Matcher.MatchDatasets | asbestos_dashboard_data/data/asbestos.py:416-540 | it returns the direct merge exactly when the first test merge succeeds; the rows after the exact tiers are those of a successful second test merge over the crosswalk grown by the tiers' pairs, reached only when the tiers leave nothing but known-missing facilities; a review report is produced exactly when the tiers leave something else, and is the de-duplicated ranking of the two fuzzy joins' output; with unique permit numbers a report is produced exactly when some permit is unplaceable; the "should not happen" error is raised exactly when the tiers leave only known-missing facilities and the second test merge still fails, which cannot happen for unique permits and a named crosswalk and registry |
| Matcher.ExactThenFuzzy | asbestos_dashboard_data/data/asbestos.py:428-540 | after a failed test merge: the same outcome clauses, stated for the permits it handed on, including that the error is raised exactly when the second test merge fails |
| Matcher.UnplaceableReviewed | asbestos_dashboard_data/data/asbestos.py:424-474 | with unique permit numbers, an unplaceable permit makes the test merge fail and reaches the fuzzy step |
| Matcher.UnpartneredLeftOver | asbestos_dashboard_data/data/asbestos.py:449-472 | for any tier list, a handed-on permit no tier can partner is left over, and survives the known-missing filter unless its facility is known-missing |
| Matcher.OtherPermit | asbestos_dashboard_data/data/asbestos.py:454-464 | with unique permit numbers, a permit with a partner in a tier has a different number from a permit without one |
| Matcher.SecondMergeRows | asbestos_dashboard_data/data/asbestos.py:488-490 | the second test merge's rows carry registry schools under the crosswalk's name |
| Matcher.LeftoverUnmatched | asbestos_dashboard_data/data/asbestos.py:472-494 | a permit sent to the fuzzy step is an unplaceable permit of the input: handed on by the test merge, not known-missing, with no exact partner in any tier |
| Matcher.LeftoverOf | asbestos_dashboard_data/data/asbestos.py:452-469 | a permit the tiers leave over came from their input and has no partner in any of them |
| Transform.SiteAddress | asbestos_dashboard_data/data/asbestos.py:258-264 | the address is the street address where present, else the facility address; no other column changes |
| Transform.UseSiteAddress | asbestos_dashboard_data/data/asbestos.py:258-264 | fails exactly when a column is missing; otherwise every row gets its site address, in place |
| Transform.SiteAddressMissing | asbestos_dashboard_data/data/asbestos.py:259 | an address is missing afterwards exactly when both were missing |
| Transform.Relocated | asbestos_dashboard_data/data/asbestos.py:307-309 | a row takes another row's coordinates and keeps everything else |
| Transform.SitesCover | asbestos_dashboard_data/data/asbestos.py:304-309 | every row finds its school's first row among the de-duplicated ones |
| Transform.DedupCoordinates | asbestos_dashboard_data/data/asbestos.py:303-309 | fails exactly when a column is missing; otherwise every row keeps its place and takes the coordinates of the first row of its school |
| Transform.SameSchoolSameCoordinates | asbestos_dashboard_data/data/asbestos.py:303-309 | two rows of one school end with the same coordinates, taken from an earlier row of that school |
| Transform.FirstAligned | asbestos_dashboard_data/data/asbestos.py:303-309 | when two row lists name the same schools position by position, a school's first row sits at the same position in both |
| Transform.RelocatedInPlace | asbestos_dashboard_data/data/asbestos.py:307-309 | taking coordinates a row already has changes nothing |
| Transform.SchoolNamesKept | asbestos_dashboard_data/data/asbestos.py:307-309 | every row keeps its school name |
| Transform.SettledRow | asbestos_dashboard_data/data/asbestos.py:303-309 | afterwards, each row already has its school's first coordinates |
| Transform.SettledTwice | asbestos_dashboard_data/data/asbestos.py:303-309 | running the step twice leaves each row as the first run left it |
| Transform.SettledRows | asbestos_dashboard_data/data/asbestos.py:303-309 | running the step twice leaves the rows as the first run left them |
| Transform.DedupCoordinatesIdempotent | asbestos_dashboard_data/data/asbestos.py:303-309 | the coordinate step is idempotent |
| Transform.MarkedClosed | asbestos_dashboard_data/data/asbestos.py:311-313 | only the school name can change |
| Transform.MarkedClosedMeaning | asbestos_dashboard_data/data/asbestos.py:311-313 | the name changes exactly for closed schools with a text name, and removing the suffix gives it back |
| Transform.MarkClosed | asbestos_dashboard_data/data/asbestos.py:311-313 | every row of the array is marked, in place |
| Transform.FixedLevel | asbestos_dashboard_data/data/asbestos.py:324-327 | only the school level can change |
| Transform.FixedLevelMeaning | asbestos_dashboard_data/data/asbestos.py:324-327 | no row is left with `elementarymiddle`, other values are untouched, and the fix is idempotent |
| Transform.FixSchoolLevel | asbestos_dashboard_data/data/asbestos.py:324-327 | every row of the array is fixed, in place |
| PermitUrls.PermitsToScrape | asbestos_dashboard_data/scrape.py:295-299 | the numbers looked up are the permits lacking a URL, or every permit when there is no URL column, each once |
| PermitUrls.ScrapePermitUrls | asbestos_dashboard_data/scrape.py:264-288 | fails exactly when some lookup fails; otherwise one (number, URL) pair per number, in order |
| PermitUrls.ScrapedUnique | asbestos_dashboard_data/scrape.py:284-288 | distinct numbers give pairs with distinct numbers |
| PermitUrls.FilledUrl | asbestos_dashboard_data/scrape.py:311-313 | a URL a row has is kept; a missing one takes the looked-up URL, if any |
| PermitUrls.FillUrls | asbestos_dashboard_data/scrape.py:308-313 | every merged row comes from an input row, changes only `permit_url`, and keeps the URL the row had |
| PermitUrls.FillUrlsKeepsRows | asbestos_dashboard_data/scrape.py:308-313 | with one pair per number, every row is kept in order and its URL is filled from its own pair |
| PermitUrls.FillUrlsComplete | asbestos_dashboard_data/scrape.py:302-313 | filling from the lookups of exactly the permits to scrape leaves no row without a URL; a row that had none gets the URL of its permit's pair |
| PermitUrls.FillUrlsLookedUp | asbestos_dashboard_data/scrape.py:302-313 | with the pairs the scrape returns, a row that had no URL gets exactly the URL looked up for its permit number |
| PermitUrls.LookedUp | asbestos_dashboard_data/scrape.py:295-304 | a row without a URL has its permit among the pairs |
| PermitUrls.UpdatePermitUrls | asbestos_dashboard_data/scrape.py:291-322 | nothing to look up returns the frame unchanged; it fails exactly when a lookup fails; otherwise every row is kept with its cells and keeps the URL it had, and a row that had none gets the URL looked up for its permit number |
| PermitUrls.AttachUrlCache | asbestos_dashboard_data/data/asbestos.py:315-319 | the cache is merged only when there is no URL column yet, which it then adds |
| PermitUrls.AttachUrlCacheKeepsRows | asbestos_dashboard_data/data/asbestos.py:318-319 | with one cached URL per permit, every row is kept and gets its permit's cached URL |
| PermitUrls.CombineReports | asbestos_dashboard_data/scrape.py:195-200 | one row per permit number; the numbers are those of both reports; every row comes from one of them |
| PermitUrls.FreshRowWins | asbestos_dashboard_data/scrape.py:195-200 | a permit in the download keeps the download's row, any other the previous report's |
| Frames.Set | asbestos_dashboard_data/__main__.py:47-51 | setting a cell changes that column only |
| Frames.PermitsMembers | asbestos_dashboard_data/__main__.py:41 | a number is in the column exactly when some row has it |
| Frames.Concat | asbestos_dashboard_data/__main__.py:66 | the rows of the first frame, then the second's, under the union of the columns |
| Frames.Drop | asbestos_dashboard_data/__main__.py:99 | fails exactly when a dropped column is missing; otherwise every row is kept without those columns |
| Frames.Project | asbestos_dashboard_data/__main__.py:106 | the projected cells are exactly those of the chosen columns |
| Updater.OverlapPartition | asbestos_dashboard_data/__main__.py:41-42 | every downloaded row is either already published or new, never both; the two counts add up |
| Updater.Overwrite | asbestos_dashboard_data/__main__.py:45-51 | the shared columns take the downloaded values; the others are kept |
| Updater.Refreshed | asbestos_dashboard_data/__main__.py:45-51 | refreshing keeps the permit number |
| Updater.Apply | asbestos_dashboard_data/__main__.py:47-51 | a published row with the downloaded row's permit number takes its values in the shared columns and keeps the rest; a row with another number is unchanged |
| Updater.RefreshedStep | asbestos_dashboard_data/__main__.py:46-51 | one more downloaded row applies its overwrite to the rows refreshed so far |
| Updater.OverwriteMatching | asbestos_dashboard_data/__main__.py:47-51 | the rows with the permit number are overwritten in place; the others are unchanged |
| Updater.OverwriteOverlap | asbestos_dashboard_data/__main__.py:45-51 | every published row ends as refreshed by all the overlapping downloaded rows |
| Updater.RefreshedRowsMeaning | asbestos_dashboard_data/__main__.py:45-51 | a published row with a downloaded partner takes its shared columns; any other row is unchanged |
| Updater.Combined | asbestos_dashboard_data/__main__.py:53-70 | the refreshed published rows come first; new rows are processed and appended, or the table is kept when there are none |
| Updater.CombinedKeepsPublished | asbestos_dashboard_data/__main__.py:53-70 | the published columns and permit numbers survive, in their order |
| Updater.EmptyDownloadKeepsTable | asbestos_dashboard_data/__main__.py:41-70 | an empty download leaves the table unchanged |
| Updater.ScrapeAndFill | asbestos_dashboard_data/__main__.py:72-90 | the row-count assertion never fails; it fails exactly when a lookup fails; otherwise every row keeps the URL it had, a row that had none gets the URL looked up for its permit number, and nothing else changes |
| Updater.Update | asbestos_dashboard_data/__main__.py:28-93 | the table is the combined one; the URL step follows as above, each missing URL being the one looked up for its row's permit number |
| Updater.PermitTable | asbestos_dashboard_data/__main__.py:99 | fails exactly when a dropped column is missing; otherwise every row without the geometry, website, address and opening year |
| Updater.SchoolTable | asbestos_dashboard_data/__main__.py:106 | fails exactly when a school column is missing; otherwise exactly the distinct projections of the rows onto the school columns and geometry |
| Tables.SortBy | asbestos_dashboard_data/data/asbestos.py:121 | the sort yields a sorted permutation of its input |
| Tables.DedupBy | asbestos_dashboard_data/data/schools.py:47 | keep-first de-duplication yields a subsequence with unique keys that keeps every key |
| Tables.FirstOfDedup | asbestos_dashboard_data/data/schools.py:47 | de-duplication keeps, for each key, its first row |
| Tables.LeftJoin | asbestos_dashboard_data/data/asbestos.py:154-160 | every merged row pairs a left row with a right row of the same key, or with none only when no right row has its key |
| Tables.InnerJoin | asbestos_dashboard_data/data/asbestos.py:456-460 | every merged pair joins a left row and a right row with equal keys |
| Strings.Lower | asbestos_dashboard_data/data/asbestos.py:22-34 | lower-casing keeps the length, leaves no upper-case letter and changes no other character |
| Strings.LowerIdempotent | asbestos_dashboard_data/data/asbestos.py:22-34 | lower-casing twice is lower-casing once |
| Strings.TokenIsRun | asbestos_dashboard_data/data/schools.py:76 | every word of `split()` is a maximal run of non-space characters |
| Strings.RunIsToken | asbestos_dashboard_data/data/schools.py:76 | every maximal run of non-space characters is a word of `split()` |
| Strings.StrLeTotal | asbestos_dashboard_data/data/asbestos.py:121 | string order is total |
| Strings.StrLeTrans | asbestos_dashboard_data/data/asbestos.py:121 | string order is transitive |

## Left out

- File and network I/O is left out: the Excel, CSV and GeoJSON reads and writes, S3 uploads, globbing and the `.env` API key check. Logging and `time.sleep` are left out too. The data they produce or consume are parameters or results.
- The geocoder (`ais2gpd.get`), the browser lookup (`_get_url`), `skool.clean_strings` and `skool.fuzzy_merge` are parameters; their own behaviour is not modelled.
- `DatabaseScraper.run` is not modelled beyond its report combine; the browser session that downloads the report is I/O.
- Floating point is left out: `project_length`, the coordinate systems and geometry, and the float parsing of the registry's GPS text. Coordinates are opaque cells.
- Dates are restricted to years 1000 to 9999, the range `%Y` writes as four digits. Only the application date's format, cut-off and sort are modelled; the other five date columns get the same formatting and are not used.
- The column rename and trimming of `extract_asbestos_data` and of `transform` are not modelled: rows carry the columns the later steps read.
- Strings.Lower lower-cases ASCII letters only; Python's `str.lower` also maps other Unicode letters.
- Tables.SortBy is a stable sort; pandas' default quicksort does not promise stability, so rows with equal keys may come out in another order.
- Matcher.ExactMatches does not model that `Index.difference` also sorts the remaining permits by permit number; the set of permits left over is modelled, their order is not.
- Matcher.Ranked models the fuzzy match probability as an integer score.
- Matcher.MatchDatasets: in the fuzzy branch it returns the review report, where the code writes it to a file and then raises. The crosswalk grown in the exact branch is used for the second test merge only and is never saved, as in the code.
- Updater.Update requires the downloaded permit numbers to be unique. With a repeated number, `old_data.loc[mask, cols] = new_rows.values` depends on how many rows share it on each side: pandas assigns position by position when the counts agree and raises when the shapes cannot be aligned. Neither behaviour is modelled.
- Updater.Update: `geocode` and `transform` of the new rows are the parameter `process`; the composition of the transform steps into one function is not modelled.
- Transform.MarkClosed and Transform.FixSchoolLevel work on an array of rows, so they do not model the failure when the column is missing. Transform.MarkedClosed leaves non-text names unchanged; in pandas, adding the suffix to a non-string name would raise or produce NaN.
- The " (Closed)" step and the URL steps are modelled one by one; their order inside `transform` is not a member of its own.

## Findings

| source | as written | input that shows it | evidently intended | confidence | as-written member | corrected member |
|---|---|---|---|---|---|---|
| asbestos_dashboard_data/data/asbestos.py:121 | the extract is sorted on the `mm-dd-yyyy` text of the application date, which is not chronological across years | two District permits applied for on 02-01-2016 and 01-05-2020: the 2020 permit is listed first | the extract sorted by application date | not executed | Extract.AsWrittenOutOfOrder | Extract.ExtractChronological |
| asbestos_dashboard_data/data/schools.py:75-77 | the EOP test calls `s.split()` on every school name before `dropna(subset=["school_name", ...])` at line 87, so a missing name raises and that `dropna` can never drop a nameless school | a registry with one row whose Publication Name is empty | schools without a name are dropped | not executed | Schools.MissingNameRaises | Schools.CleanRegistry |
