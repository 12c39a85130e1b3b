/**
 * The cache decision in `geocode` (`data/asbestos.py`): coordinates already
 * on file are joined first, only the distinct addresses still lacking them
 * are sent to the geocoder, the answers fill the gaps, and the step fails
 * when an address stays unresolved unless failures are to be ignored.
 * The geocoding service is the parameter `geocoder`; coordinates are opaque
 * cells.
 */
module Geocoding {
  import opened Wrappers
  import opened Tables

  /** A permit row as it reaches `geocode`: its address and its other columns. */
  datatype Site = Site(address: Cell, details: seq<Cell>)

  /** A row of the geocoded-address files: an address with its coordinates. */
  datatype CacheEntry = CacheEntry(address: Cell, lat: Cell, lng: Cell)

  /** The geocoder's answer for one address: coordinates and the parcel columns it returns. */
  datatype Fix = Fix(lat: Cell, lng: Cell, info: seq<Cell>)

  /** A row after geocoding; `info` is `None` where the geocoder's columns are empty. */
  datatype Located = Located(site: Site, lat: Cell, lng: Cell, info: Option<seq<Cell>>)

  datatype GeocodeOutcome =
    | Done(rows: seq<Located>, request: seq<Cell>)
      /** `ValueError("Missing lat/lng coordinates ...")`, after listing the unresolved addresses. */
    | MissingCoordinates(request: seq<Cell>, unresolved: seq<Cell>)
      /** The geocoder answered with a different number of rows than it was asked for. */
    | GeocoderFailed(request: seq<Cell>)

  predicate Usable(e: CacheEntry) {
    e.lat != Null && e.lng != Null
  }

  predicate NeedsCoords(r: Located) {
    r.lat == Null || r.lng == Null
  }

  /** `geocoded_addresses.dropna(subset=["lat", "lng"]).drop_duplicates(subset=[address])`. */
  function CacheTable(cache: seq<CacheEntry>): (t: seq<CacheEntry>)
    ensures UniqueBy(t, (e: CacheEntry) => e.address)
    ensures forall e :: e in t ==> e in cache && Usable(e)
    ensures forall e :: e in cache && Usable(e) ==> e.address in KeysOf(t, (e: CacheEntry) => e.address)
  {
    var usable := Filter(cache, Usable);
    var t := DedupBy(usable, (e: CacheEntry) => e.address);
    SubseqMembers(t, usable);
    forall e | e in cache && Usable(e)
      ensures e.address in KeysOf(t, (e: CacheEntry) => e.address)
    {
      KeysOfMember(usable, (e: CacheEntry) => e.address, e);
    }
    t
  }

  /** The cached coordinates for an address: the first usable entry on file. */
  function Cached(cache: Option<seq<CacheEntry>>, a: Cell): (r: Option<CacheEntry>)
    ensures r.Some? ==> cache.Some? && r.value in cache.value && Usable(r.value) && r.value.address == a
    ensures r.None? <==> cache.None? || forall e :: e in cache.value && Usable(e) ==> e.address != a
  {
    if cache.None? then None
    else
      var t := CacheTable(cache.value);
      var r := First(t, (e: CacheEntry) => e.address, a);
      if r.None? then
        assert forall e :: e in cache.value && Usable(e) ==> e.address != a;
        r
      else r
  }

  function Addresses(rows: seq<Located>): (s: seq<Cell>)
    ensures |s| == |rows|
    ensures forall i :: 0 <= i < |rows| ==> s[i] == rows[i].site.address
  {
    seq(|rows|, i requires 0 <= i < |rows| => rows[i].site.address)
  }

  /** The requested addresses and the geocoder's answers, row by row (`set_index(...).join(...)`). */
  function Zip(request: seq<Cell>, fixes: seq<Fix>): (x: seq<(Cell, Fix)>)
    requires |fixes| == |request|
    ensures |x| == |request|
    ensures forall k :: 0 <= k < |x| ==> x[k] == (request[k], fixes[k])
  {
    seq(|request|, k requires 0 <= k < |request| => (request[k], fixes[k]))
  }

  /** The position of `a` in a list that holds it. */
  function IndexOf(s: seq<Cell>, a: Cell): (k: nat)
    requires a in s
    ensures k < |s| && s[k] == a
    ensures forall j :: 0 <= j < k ==> s[j] != a
  {
    if s[0] == a then 0 else 1 + IndexOf(s[1..], a)
  }

  /** The geocoder's answer for a requested address. */
  function FixFor(request: seq<Cell>, fixes: seq<Fix>, a: Cell): Fix
    requires |fixes| == |request| && a in request
  {
    fixes[IndexOf(request, a)]
  }

  /** In the joined answers, a requested address finds the answer given at its own position. */
  lemma {:induction false} ZipFirst(request: seq<Cell>, fixes: seq<Fix>, a: Cell)
    requires |fixes| == |request| && a in request
    ensures First(Zip(request, fixes), (p: (Cell, Fix)) => p.0, a) == Some((a, FixFor(request, fixes, a)))
    decreases |request|
  {
    var x := Zip(request, fixes);
    if request[0] != a {
      ZipFirst(request[1..], fixes[1..], a);
      assert x[1..] == Zip(request[1..], fixes[1..]);
    }
  }

  function FromCache(p: (Site, Option<CacheEntry>)): Located {
    match p.1
    case None => Located(p.0, Null, Null, None)
    case Some(e) => Located(p.0, e.lat, e.lng, None)
  }

  /** `fillna` of the row's coordinates from the geocoder's answer, if it has one. */
  function FillFrom(p: (Located, Option<(Cell, Fix)>)): Located {
    match p.1
    case None => p.0
    case Some((_, f)) =>
      Located(p.0.site,
              if p.0.lat == Null then f.lat else p.0.lat,
              if p.0.lng == Null then f.lng else p.0.lng,
              Some(f.info))
  }

  /** The rows as the cache leaves them: `merge(how="left")`, or empty coordinates with no cache. */
  method JoinCache(sites: seq<Site>, cache: Option<seq<CacheEntry>>) returns (rows: seq<Located>)
    ensures |rows| == |sites|
    ensures forall i :: 0 <= i < |sites| ==> rows[i].site == sites[i] && rows[i].info.None?
    ensures forall i :: 0 <= i < |sites| ==>
      match Cached(cache, sites[i].address)
      case Some(e) => rows[i].lat == e.lat && rows[i].lng == e.lng
      case None => rows[i].lat == Null && rows[i].lng == Null
  {
    if cache.None? {
      rows := seq(|sites|, i requires 0 <= i < |sites| => Located(sites[i], Null, Null, None));
    } else {
      var t := CacheTable(cache.value);
      var joined := LeftJoin(sites, t, (s: Site) => s.address, (e: CacheEntry) => e.address);
      LeftJoinUnique(sites, t, (s: Site) => s.address, (e: CacheEntry) => e.address);
      rows := seq(|joined|, i requires 0 <= i < |joined| => FromCache(joined[i]));
    }
  }

  /** The geocoder's answers joined back onto the rows (`merge(X, how="left")` and `fillna`). */
  method JoinFixes(rows: seq<Located>, request: seq<Cell>, fixes: seq<Fix>) returns (out: seq<Located>)
    requires |fixes| == |request|
    requires forall j, k :: 0 <= j < k < |request| ==> request[j] != request[k]
    ensures |out| == |rows|
    ensures forall i :: 0 <= i < |rows| ==>
      out[i] == if rows[i].site.address in request
                then Fill(rows[i], FixFor(request, fixes, rows[i].site.address))
                else rows[i]
  {
    var x := Zip(request, fixes);
    assert UniqueBy(x, (p: (Cell, Fix)) => p.0);
    var joined := LeftJoin(rows, x, (r: Located) => r.site.address, (p: (Cell, Fix)) => p.0);
    LeftJoinUnique(rows, x, (r: Located) => r.site.address, (p: (Cell, Fix)) => p.0);
    out := seq(|joined|, i requires 0 <= i < |joined| => FillFrom(joined[i]));
    forall i | 0 <= i < |rows|
      ensures out[i] == if rows[i].site.address in request
                        then Fill(rows[i], FixFor(request, fixes, rows[i].site.address))
                        else rows[i]
    {
      var a := rows[i].site.address;
      if a in request {
        ZipFirst(request, fixes, a);
      } else {
        assert forall k :: 0 <= k < |x| ==> x[k].0 != a;
      }
    }
  }

  /** `fillna` of a row's coordinates from one answer. */
  function Fill(r: Located, f: Fix): (o: Located)
    ensures o.site == r.site && o.info == Some(f.info)
    ensures o.lat == (if r.lat == Null then f.lat else r.lat)
    ensures o.lng == (if r.lng == Null then f.lng else r.lng)
  {
    FillFrom((r, Some((r.site.address, f))))
  }

  /** The distinct addresses of the rows lacking a coordinate. */
  function LackingAddresses(rows: seq<Located>): (s: seq<Cell>)
    ensures forall a :: a in s <==> exists i :: 0 <= i < |rows| && rows[i].site.address == a && NeedsCoords(rows[i])
    ensures forall j, k :: 0 <= j < k < |s| ==> s[j] != s[k]
  {
    var lacking := Filter(rows, NeedsCoords);
    var s := Distinct(Addresses(lacking));
    forall a | a in s
      ensures exists i :: 0 <= i < |rows| && rows[i].site.address == a && NeedsCoords(rows[i])
    {
      var k :| 0 <= k < |lacking| && Addresses(lacking)[k] == a;
      assert lacking[k] in rows;
      var i :| 0 <= i < |rows| && rows[i] == lacking[k];
    }
    forall a | exists i :: 0 <= i < |rows| && rows[i].site.address == a && NeedsCoords(rows[i])
      ensures a in s
    {
      var i :| 0 <= i < |rows| && rows[i].site.address == a && NeedsCoords(rows[i]);
      assert rows[i] in lacking;
      var k := IndexOfRow(lacking, rows[i]);
      assert Addresses(lacking)[k] == a;
    }
    s
  }

  function IndexOfRow(s: seq<Located>, r: Located): (k: nat)
    requires r in s
    ensures k < |s| && s[k] == r
  {
    if s[0] == r then 0 else 1 + IndexOfRow(s[1..], r)
  }

  /** Some requested address came back without a coordinate. */
  predicate SomeUnanswered(request: seq<Cell>, fixes: seq<Fix>)
    requires |fixes| == |request|
  {
    exists a :: a in request &&
      (FixFor(request, fixes, a).lat == Null || FixFor(request, fixes, a).lng == Null)
  }

  /**
   * `geocode(df, ignore_failure)`: joins the cache, asks the geocoder once
   * for the distinct addresses still lacking coordinates (not at all when
   * there are none), fills the gaps, and fails when a requested address
   * came back without coordinates unless `ignoreFailure` is set.
   */
  method Geocode(sites: seq<Site>, cache: Option<seq<CacheEntry>>, geocoder: seq<Cell> -> seq<Fix>, ignoreFailure: bool)
    returns (result: GeocodeOutcome)
    // the request: each address lacking cached coordinates, once
    ensures forall a :: a in result.request <==>
      exists i :: 0 <= i < |sites| && sites[i].address == a && Cached(cache, a).None?
    ensures forall j, k :: 0 <= j < k < |result.request| ==> result.request[j] != result.request[k]
    // the geocoder is asked only when something is missing, and must answer each address
    ensures result.GeocoderFailed? <==>
      result.request != [] && |geocoder(result.request)| != |result.request|
    ensures result.MissingCoordinates? <==>
      !ignoreFailure && result.request != [] && |geocoder(result.request)| == |result.request| &&
      SomeUnanswered(result.request, geocoder(result.request))
    ensures result.MissingCoordinates? ==>
      forall a :: a in result.unresolved ==> a in result.request
    // every row kept, in order; cached coordinates win, gaps filled from the answer
    ensures result.Done? ==> |result.rows| == |sites|
    ensures result.Done? ==> forall i :: 0 <= i < |sites| ==>
      var r := result.rows[i];
      var a := sites[i].address;
      r.site == sites[i] &&
      match Cached(cache, a)
      case Some(e) => r.lat == e.lat && r.lng == e.lng
      case None =>
        var f := FixFor(result.request, geocoder(result.request), a);
        r.lat == f.lat && r.lng == f.lng && r.info == Some(f.info)
  {
    var rows := JoinCache(sites, cache);
    var request := LackingAddresses(rows);
    RequestMembers(sites, cache, rows, request);
    if request == [] {
      forall i | 0 <= i < |sites| ensures Cached(cache, sites[i].address).Some? {
        assert sites[i].address !in request;
      }
      return Done(rows, request);
    }
    var fixes := geocoder(request);
    if |fixes| != |request| {
      return GeocoderFailed(request);
    }
    var out := JoinFixes(rows, request, fixes);
    var unresolved := LackingAddresses(out);
    UnresolvedRequested(sites, cache, rows, request, fixes, out, unresolved);
    if unresolved != [] && !ignoreFailure {
      return MissingCoordinates(request, unresolved);
    }
    FilledRows(sites, cache, rows, request, fixes, out);
    return Done(out, request);
  }

  /** After the answers are joined, cached rows keep their coordinates and the others carry their answer. */
  lemma FilledRows(sites: seq<Site>, cache: Option<seq<CacheEntry>>, rows: seq<Located>,
                   request: seq<Cell>, fixes: seq<Fix>, out: seq<Located>)
    requires |rows| == |sites| && |fixes| == |request|
    requires forall i :: 0 <= i < |sites| ==> rows[i].site == sites[i]
    requires forall i :: 0 <= i < |sites| ==>
      match Cached(cache, sites[i].address)
      case Some(e) => rows[i].lat == e.lat && rows[i].lng == e.lng
      case None => rows[i].lat == Null && rows[i].lng == Null
    requires forall a :: a in request <==>
      exists i :: 0 <= i < |sites| && sites[i].address == a && Cached(cache, a).None?
    requires |out| == |rows|
    requires forall i :: 0 <= i < |rows| ==>
      out[i] == if rows[i].site.address in request
                then Fill(rows[i], FixFor(request, fixes, rows[i].site.address))
                else rows[i]
    ensures forall i :: 0 <= i < |sites| ==>
      var r := out[i];
      var a := sites[i].address;
      r.site == sites[i] &&
      match Cached(cache, a)
      case Some(e) => r.lat == e.lat && r.lng == e.lng
      case None =>
        var f := FixFor(request, fixes, a);
        r.lat == f.lat && r.lng == f.lng && r.info == Some(f.info)
  {
    forall i | 0 <= i < |sites|
      ensures out[i].site == sites[i]
      ensures Cached(cache, sites[i].address).Some? ==>
        out[i].lat == Cached(cache, sites[i].address).value.lat && out[i].lng == Cached(cache, sites[i].address).value.lng
      ensures Cached(cache, sites[i].address).None? ==>
        sites[i].address in request &&
        out[i].lat == FixFor(request, fixes, sites[i].address).lat &&
        out[i].lng == FixFor(request, fixes, sites[i].address).lng &&
        out[i].info == Some(FixFor(request, fixes, sites[i].address).info)
    {
      var a := sites[i].address;
      if Cached(cache, a).Some? {
        assert !exists j :: 0 <= j < |sites| && sites[j].address == a && Cached(cache, a).None?;
        assert a !in request;
      }
    }
  }

  /** The addresses sent to the geocoder are exactly those with no cached coordinates. */
  lemma RequestMembers(sites: seq<Site>, cache: Option<seq<CacheEntry>>, rows: seq<Located>, request: seq<Cell>)
    requires |rows| == |sites|
    requires forall i :: 0 <= i < |sites| ==> rows[i].site == sites[i]
    requires forall i :: 0 <= i < |sites| ==>
      match Cached(cache, sites[i].address)
      case Some(e) => rows[i].lat == e.lat && rows[i].lng == e.lng
      case None => rows[i].lat == Null && rows[i].lng == Null
    requires request == LackingAddresses(rows)
    ensures forall a :: a in request <==>
      exists i :: 0 <= i < |sites| && sites[i].address == a && Cached(cache, a).None?
  {
    forall a | a in request
      ensures exists i :: 0 <= i < |sites| && sites[i].address == a && Cached(cache, a).None?
    {
      var i :| 0 <= i < |rows| && rows[i].site.address == a && NeedsCoords(rows[i]);
      assert sites[i].address == a;
    }
    forall a | exists i :: 0 <= i < |sites| && sites[i].address == a && Cached(cache, a).None?
      ensures a in request
    {
      var i :| 0 <= i < |sites| && sites[i].address == a && Cached(cache, a).None?;
      assert rows[i].site.address == a && NeedsCoords(rows[i]);
    }
  }

  /** One row after the answers are joined: it still lacks a coordinate exactly when its answer does. */
  lemma UnresolvedRow(sites: seq<Site>, cache: Option<seq<CacheEntry>>, rows: seq<Located>,
                      request: seq<Cell>, fixes: seq<Fix>, out: seq<Located>, i: int)
    requires |rows| == |sites| && |fixes| == |request| && |out| == |rows| && 0 <= i < |sites|
    requires rows[i].site == sites[i]
    requires match Cached(cache, sites[i].address)
      case Some(e) => rows[i].lat == e.lat && rows[i].lng == e.lng
      case None => rows[i].lat == Null && rows[i].lng == Null
    requires sites[i].address in request <==> Cached(cache, sites[i].address).None?
    requires out[i] == if rows[i].site.address in request
                       then Fill(rows[i], FixFor(request, fixes, rows[i].site.address))
                       else rows[i]
    ensures out[i].site.address == sites[i].address
    ensures NeedsCoords(out[i]) <==>
      sites[i].address in request &&
      (FixFor(request, fixes, sites[i].address).lat == Null || FixFor(request, fixes, sites[i].address).lng == Null)
  {
  }

  /** After the answers are joined, an address is still unresolved exactly when its answer lacks a coordinate. */
  lemma UnresolvedRequested(sites: seq<Site>, cache: Option<seq<CacheEntry>>, rows: seq<Located>,
                            request: seq<Cell>, fixes: seq<Fix>, out: seq<Located>, unresolved: seq<Cell>)
    requires |rows| == |sites| && |fixes| == |request|
    requires forall i :: 0 <= i < |sites| ==> rows[i].site == sites[i]
    requires forall i :: 0 <= i < |sites| ==>
      match Cached(cache, sites[i].address)
      case Some(e) => rows[i].lat == e.lat && rows[i].lng == e.lng
      case None => rows[i].lat == Null && rows[i].lng == Null
    requires forall a :: a in request <==>
      exists i :: 0 <= i < |sites| && sites[i].address == a && Cached(cache, a).None?
    requires |out| == |rows|
    requires forall i :: 0 <= i < |rows| ==>
      out[i] == if rows[i].site.address in request
                then Fill(rows[i], FixFor(request, fixes, rows[i].site.address))
                else rows[i]
    requires unresolved == LackingAddresses(out)
    ensures forall a :: a in unresolved ==> a in request
    ensures unresolved != [] <==> SomeUnanswered(request, fixes)
  {
    forall i | 0 <= i < |sites|
      ensures sites[i].address in request <==> Cached(cache, sites[i].address).None?
    {
      var a := sites[i].address;
      if Cached(cache, a).Some? {
        assert !exists j :: 0 <= j < |sites| && sites[j].address == a && Cached(cache, a).None?;
      }
    }
    forall a | a in unresolved ensures a in request {
      var i :| 0 <= i < |out| && out[i].site.address == a && NeedsCoords(out[i]);
      UnresolvedRow(sites, cache, rows, request, fixes, out, i);
    }
    if unresolved != [] {
      var a := unresolved[0];
      assert a in unresolved;
      var i :| 0 <= i < |out| && out[i].site.address == a && NeedsCoords(out[i]);
      UnresolvedRow(sites, cache, rows, request, fixes, out, i);
      assert SomeUnanswered(request, fixes);
    }
    if SomeUnanswered(request, fixes) {
      var a :| a in request && (FixFor(request, fixes, a).lat == Null || FixFor(request, fixes, a).lng == Null);
      var i :| 0 <= i < |sites| && sites[i].address == a && Cached(cache, a).None?;
      UnresolvedRow(sites, cache, rows, request, fixes, out, i);
      assert a in unresolved;
    }
  }
}
