/**
 * Permit URLs (`scrape.py`): which permits are looked up, the lookup loop,
 * the fill-only-missing merge of the results, the merge of the cached URL
 * file, and the raw-report combine that lets a fresh download win over the
 * previous report.  The browser lookup is the parameter `lookup`.
 */
module PermitUrls {
  import opened Wrappers
  import opened Tables
  import opened Frames

  const UrlColumn: string := "permit_url"

  /** A row whose URL is missing. */
  predicate LacksUrl(r: Row) {
    Get(r, UrlColumn) == Null
  }

  /**
   * The permit numbers to look up: those whose `permit_url` is missing when
   * the column exists, every permit number otherwise; each once (`unique()`).
   */
  function PermitsToScrape(f: Frame): (ns: seq<string>)
    ensures forall n :: n in ns <==>
      exists r :: r in f.rows && r.permit == n && (UrlColumn in f.columns ==> LacksUrl(r))
    ensures forall i, j :: 0 <= i < j < |ns| ==> ns[i] != ns[j]
  {
    if UrlColumn in f.columns then
      PermitsMembers(Filter(f.rows, LacksUrl));
      Distinct(Permits(Filter(f.rows, LacksUrl)))
    else
      PermitsMembers(f.rows);
      Distinct(Permits(f.rows))
  }

  /**
   * `scrape_permit_urls`: one (permit number, URL) pair per permit number, in
   * order; a failed lookup raises and ends the loop.
   */
  method ScrapePermitUrls(numbers: seq<string>, lookup: string -> Option<string>)
    returns (pairs: Option<seq<(string, string)>>)
    ensures pairs.None? <==> exists n :: n in numbers && lookup(n).None?
    ensures pairs.Some? ==> |pairs.value| == |numbers|
    ensures pairs.Some? ==> forall i :: 0 <= i < |numbers| ==>
      lookup(numbers[i]).Some? && pairs.value[i] == (numbers[i], lookup(numbers[i]).value)
  {
    var out: seq<(string, string)> := [];
    for i := 0 to |numbers|
      invariant |out| == i
      invariant forall k :: 0 <= k < i ==> lookup(numbers[k]).Some? && out[k] == (numbers[k], lookup(numbers[k]).value)
    {
      var url := lookup(numbers[i]);
      if url.None? {
        return None;
      }
      out := out + [(numbers[i], url.value)];
    }
    forall n | n in numbers ensures lookup(n).Some? {
      var k :| 0 <= k < |numbers| && numbers[k] == n;
    }
    return Some(out);
  }

  function PairPermit(p: (string, string)): string {
    p.0
  }

  /** Pairs looked up for distinct permit numbers have distinct permit numbers. */
  lemma ScrapedUnique(numbers: seq<string>, pairs: seq<(string, string)>)
    requires forall i, j :: 0 <= i < j < |numbers| ==> numbers[i] != numbers[j]
    requires |pairs| == |numbers| && forall i :: 0 <= i < |numbers| ==> pairs[i].0 == numbers[i]
    ensures UniqueBy(pairs, PairPermit)
  {
  }

  /** The URL a row ends with: its own if it has one, else the one looked up, else missing. */
  function FilledUrl(own: Cell, found: Option<(string, string)>): (url: Cell)
    ensures own != Null ==> url == own
    ensures own == Null && found.Some? ==> url == Text(found.value.1)
    ensures own == Null && found.None? ==> url == Null
  {
    if own != Null then own
    else if found.Some? then Text(found.value.1)
    else Null
  }

  /** A row's own URL: none when the frame has no `permit_url` column yet. */
  function OwnUrl(f: Frame, r: Row): Cell {
    if UrlColumn in f.columns then Get(r, UrlColumn) else Null
  }

  /**
   * `pd.merge(data, url_data, on="permit_number", how="left", suffixes=("", "_y"))`
   * followed by `fillna` from `permit_url_y` and the drop of that column; when
   * `permit_url` was absent the merge brings it in directly.
   */
  function FillUrls(f: Frame, pairs: seq<(string, string)>): (out: Frame)
    ensures out.columns == f.columns + {UrlColumn}
    ensures forall r :: r in out.rows ==>
      exists x :: x in f.rows && r.permit == x.permit &&
        r.cells.Keys == x.cells.Keys + {UrlColumn} &&
        (forall c :: c != UrlColumn ==> Get(r, c) == Get(x, c)) &&
        (OwnUrl(f, x) != Null ==> Get(r, UrlColumn) == OwnUrl(f, x))
  {
    var joined := LeftJoin(f.rows, pairs, RowPermit, PairPermit);
    var rows := seq(|joined|, i requires 0 <= i < |joined| =>
      Set(joined[i].0, UrlColumn, FilledUrl(OwnUrl(f, joined[i].0), joined[i].1)));
    forall r | r in rows
      ensures
        exists x :: x in f.rows && r.permit == x.permit &&
          r.cells.Keys == x.cells.Keys + {UrlColumn} &&
          (forall c :: c != UrlColumn ==> Get(r, c) == Get(x, c)) &&
          (OwnUrl(f, x) != Null ==> Get(r, UrlColumn) == OwnUrl(f, x))
    {
      var i :| 0 <= i < |rows| && rows[i] == r;
      assert joined[i] in joined;
    }
    Frame(f.columns + {UrlColumn}, rows)
  }

  /**
   * Against looked-up pairs with distinct permit numbers the merge keeps the
   * row count and the row order, changes no column but `permit_url`, never
   * replaces a URL a row has, and fills a missing one from its permit's pair.
   */
  lemma FillUrlsKeepsRows(f: Frame, pairs: seq<(string, string)>)
    requires UniqueBy(pairs, PairPermit)
    ensures |FillUrls(f, pairs).rows| == |f.rows|
    ensures forall i :: 0 <= i < |f.rows| ==>
      var r, x := FillUrls(f, pairs).rows[i], f.rows[i];
      r.permit == x.permit &&
      (forall c :: c != UrlColumn ==> Get(r, c) == Get(x, c)) &&
      Get(r, UrlColumn) == FilledUrl(OwnUrl(f, x), First(pairs, PairPermit, x.permit))
  {
    LeftJoinUnique(f.rows, pairs, RowPermit, PairPermit);
  }

  /**
   * `update_permit_urls`: with nothing to look up the data comes back as it
   * was; otherwise every permit without a URL is looked up, a failed lookup
   * raises, and afterwards every row has a URL, the ones it had untouched.
   */
  method UpdatePermitUrls(f: Frame, lookup: string -> Option<string>) returns (out: Option<Frame>)
    ensures PermitsToScrape(f) == [] ==> out == Some(f)
    ensures out.None? <==> exists n :: n in PermitsToScrape(f) && lookup(n).None?
    ensures out.Some? && PermitsToScrape(f) != [] ==>
      out.value.columns == f.columns + {UrlColumn} && |out.value.rows| == |f.rows|
    ensures out.Some? && PermitsToScrape(f) != [] ==> forall i :: 0 <= i < |f.rows| ==>
      out.value.rows[i].permit == f.rows[i].permit &&
      (forall c :: c != UrlColumn ==> Get(out.value.rows[i], c) == Get(f.rows[i], c)) &&
      (OwnUrl(f, f.rows[i]) != Null ==> Get(out.value.rows[i], UrlColumn) == OwnUrl(f, f.rows[i])) &&
      Get(out.value.rows[i], UrlColumn) != Null
    ensures out.Some? && PermitsToScrape(f) != [] ==> forall i :: 0 <= i < |f.rows| ==>
      OwnUrl(f, f.rows[i]) == Null ==>
        lookup(f.rows[i].permit).Some? && Get(out.value.rows[i], UrlColumn) == Text(lookup(f.rows[i].permit).value)
  {
    var numbers := PermitsToScrape(f);
    if numbers == [] {
      return Some(f);
    }
    var pairs := ScrapePermitUrls(numbers, lookup);
    if pairs.None? {
      return None;
    }
    FillUrlsComplete(f, numbers, pairs.value);
    FillUrlsLookedUp(f, numbers, pairs.value, lookup);
    return Some(FillUrls(f, pairs.value));
  }

  /**
   * Filling from the looked-up URLs of exactly the permits to scrape keeps
   * every row, changes nothing but `permit_url`, keeps the URLs rows had,
   * and leaves no row without one.
   */
  lemma FillUrlsComplete(f: Frame, numbers: seq<string>, pairs: seq<(string, string)>)
    requires numbers == PermitsToScrape(f)
    requires |pairs| == |numbers| && forall k :: 0 <= k < |numbers| ==> pairs[k].0 == numbers[k]
    ensures |FillUrls(f, pairs).rows| == |f.rows|
    ensures forall i :: 0 <= i < |f.rows| ==>
      var r := FillUrls(f, pairs).rows[i];
      r.permit == f.rows[i].permit &&
      (forall c :: c != UrlColumn ==> Get(r, c) == Get(f.rows[i], c)) &&
      (OwnUrl(f, f.rows[i]) != Null ==> Get(r, UrlColumn) == OwnUrl(f, f.rows[i])) &&
      Get(r, UrlColumn) != Null
    ensures forall i :: 0 <= i < |f.rows| && OwnUrl(f, f.rows[i]) == Null ==>
      First(pairs, PairPermit, f.rows[i].permit).Some? &&
      Get(FillUrls(f, pairs).rows[i], UrlColumn) == Text(First(pairs, PairPermit, f.rows[i].permit).value.1)
  {
    ScrapedUnique(numbers, pairs);
    FillUrlsKeepsRows(f, pairs);
    forall i | 0 <= i < |f.rows| && OwnUrl(f, f.rows[i]) == Null
      ensures First(pairs, PairPermit, f.rows[i].permit).Some?
    {
      LookedUp(f, numbers, pairs, i);
    }
  }

  /**
   * Filling from the pairs `scrape_permit_urls` returns gives a row that had
   * no URL exactly the URL looked up for its own permit number.
   */
  lemma FillUrlsLookedUp(f: Frame, numbers: seq<string>, pairs: seq<(string, string)>,
                         lookup: string -> Option<string>)
    requires numbers == PermitsToScrape(f)
    requires |pairs| == |numbers| && forall k :: 0 <= k < |numbers| ==>
      lookup(numbers[k]).Some? && pairs[k] == (numbers[k], lookup(numbers[k]).value)
    ensures |FillUrls(f, pairs).rows| == |f.rows|
    ensures forall i :: 0 <= i < |f.rows| && OwnUrl(f, f.rows[i]) == Null ==>
      lookup(f.rows[i].permit).Some? &&
      Get(FillUrls(f, pairs).rows[i], UrlColumn) == Text(lookup(f.rows[i].permit).value)
  {
    FillUrlsComplete(f, numbers, pairs);
    forall i | 0 <= i < |f.rows| && OwnUrl(f, f.rows[i]) == Null
      ensures lookup(f.rows[i].permit).Some? &&
        Get(FillUrls(f, pairs).rows[i], UrlColumn) == Text(lookup(f.rows[i].permit).value)
    {
      var p := First(pairs, PairPermit, f.rows[i].permit).value;
      var k :| 0 <= k < |pairs| && pairs[k] == p;
    }
  }

  /** A row without a URL had its permit number looked up. */
  lemma LookedUp(f: Frame, numbers: seq<string>, pairs: seq<(string, string)>, i: int)
    requires numbers == PermitsToScrape(f)
    requires |pairs| == |numbers| && forall k :: 0 <= k < |numbers| ==> pairs[k].0 == numbers[k]
    requires 0 <= i < |f.rows| && OwnUrl(f, f.rows[i]) == Null
    ensures First(pairs, PairPermit, f.rows[i].permit).Some?
  {
    var r := f.rows[i];
    assert r in f.rows && (UrlColumn in f.columns ==> LacksUrl(r));
    assert r.permit in numbers;
    var k :| 0 <= k < |numbers| && numbers[k] == r.permit;
    assert PairPermit(pairs[k]) == r.permit;
    KeysOfMember(pairs, PairPermit, pairs[k]);
  }

  /**
   * `data.merge(urls, on="permit_number", how="left")` in `transform`, made
   * only when the frame has no `permit_url` column yet.
   */
  function AttachUrlCache(f: Frame, cache: seq<(string, Cell)>): (out: Frame)
    ensures UrlColumn in f.columns ==> out == f
    ensures UrlColumn !in f.columns ==> out.columns == f.columns + {UrlColumn}
  {
    if UrlColumn in f.columns then f
    else
      var joined := LeftJoin(f.rows, cache, RowPermit, CachedPermit);
      Frame(f.columns + {UrlColumn}, seq(|joined|, i requires 0 <= i < |joined| =>
        Set(joined[i].0, UrlColumn, if joined[i].1.Some? then joined[i].1.value.1 else Null)))
  }

  function CachedPermit(e: (string, Cell)): string {
    e.0
  }

  /** With one cached URL per permit, the cache merge keeps the rows and adds each permit's URL. */
  lemma AttachUrlCacheKeepsRows(f: Frame, cache: seq<(string, Cell)>)
    requires UrlColumn !in f.columns && UniqueBy(cache, CachedPermit)
    ensures |AttachUrlCache(f, cache).rows| == |f.rows|
    ensures forall i :: 0 <= i < |f.rows| ==>
      var r, x := AttachUrlCache(f, cache).rows[i], f.rows[i];
      r.permit == x.permit &&
      (forall c :: c != UrlColumn ==> Get(r, c) == Get(x, c)) &&
      Get(r, UrlColumn) == (if First(cache, CachedPermit, x.permit).Some? then First(cache, CachedPermit, x.permit).value.1 else Null)
  {
    LeftJoinUnique(f.rows, cache, RowPermit, CachedPermit);
  }

  // ---------------------------------------------------------------------------
  // The raw report combine in `DatabaseScraper.run`

  /**
   * `pd.concat([downloaded, previous]).drop_duplicates(subset=["Permit #"])`:
   * one row per permit number, each permit number of either report kept.
   */
  function CombineReports(downloaded: seq<Row>, previous: seq<Row>): (combined: seq<Row>)
    ensures UniqueBy(combined, RowPermit)
    ensures KeysOf(combined, RowPermit) == KeysOf(downloaded, RowPermit) + KeysOf(previous, RowPermit)
    ensures forall r :: r in combined ==> r in downloaded || r in previous
  {
    KeysOfAppend(downloaded, previous, RowPermit);
    var combined := DedupBy(downloaded + previous, RowPermit);
    SubseqMembers(combined, downloaded + previous);
    combined
  }

  /**
   * A freshly downloaded row wins: a permit in the download keeps the
   * download's first row for it, any other permit the previous report's.
   */
  lemma FreshRowWins(downloaded: seq<Row>, previous: seq<Row>, k: string)
    ensures k in KeysOf(downloaded, RowPermit) ==>
      First(CombineReports(downloaded, previous), RowPermit, k) == First(downloaded, RowPermit, k)
    ensures k !in KeysOf(downloaded, RowPermit) ==>
      First(CombineReports(downloaded, previous), RowPermit, k) == First(previous, RowPermit, k)
  {
    FirstOfDedup(downloaded + previous, RowPermit, k);
    FirstAppend(downloaded, previous, RowPermit, k);
  }
}
