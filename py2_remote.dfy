/**
 * `remote` of pirate-get.py: the page-count check, the category and sort
 * resolution against the script's own tables, the query parameters of each
 * page, and the page loop that pairs links with seeders and leechers and
 * stops after the first short page. Fetching a page is an oracle from the
 * mirror and the query parameters to the lists the page's tags yield.
 */
module Py2Remote {
  import opened Base
  import opened Text
  import opened Legacy
  import Mirrors

  // ---------------------------------------------------------------- tables

  const Categories: map<string, string> := map[
    "All" := "0", "Anime" := "1", "Software" := "2", "Games" := "3", "Adult" := "4",
    "Movies" := "5", "Music" := "6", "Other" := "7", "Series & TV" := "8", "Books" := "9"]

  const Sorts: map<string, string> := map[
    "created_at" := "0", "created_at.desc" := "1", "size" := "2", "size.desc" := "3",
    "seeders" := "4", "seeders.desc" := "5", "leechers" := "6", "leechers.desc" := "7"]

  /** `{v: k for k, v in sorts.items()}`. */
  const ReverseSorts: map<string, string> := map[
    "0" := "created_at", "1" := "created_at.desc", "2" := "size", "3" := "size.desc",
    "4" := "seeders", "5" := "seeders.desc", "6" := "leechers", "7" := "leechers.desc"]

  /** ReverseSorts is the inverse of Sorts: the values of `sorts` are distinct. */
  lemma ReverseSortsInverts()
    ensures ReverseSorts.Keys == Sorts.Values
    ensures forall k :: k in Sorts ==> ReverseSorts[Sorts[k]] == k
    ensures forall v :: v in ReverseSorts ==> ReverseSorts[v] in Sorts && Sorts[ReverseSorts[v]] == v
  {
    assert Sorts.Values == {"0", "1", "2", "3", "4", "5", "6", "7"} by {
      assert Sorts["created_at"] == "0" && Sorts["created_at.desc"] == "1";
      assert Sorts["size"] == "2" && Sorts["size.desc"] == "3";
      assert Sorts["seeders"] == "4" && Sorts["seeders.desc"] == "5";
      assert Sorts["leechers"] == "6" && Sorts["leechers.desc"] == "7";
    }
  }

  // ---------------------------------------------------------------- resolution

  /**
   * The category: kept when it is one of the codes, mapped when it is a
   * name, otherwise "0" with a warning (the boolean).
   */
  function ResolveCategory(c: string): (r: (string, bool))
    ensures r.0 in Categories.Values
    ensures r.1 <==> c !in Categories.Values && c !in Categories
    ensures c in Categories.Values ==> r.0 == c
    ensures c !in Categories.Values && c in Categories ==> r.0 == Categories[c]
  {
    if c in Categories.Values then (c, false)
    else if c in Categories then (Categories[c], false)
    else
      assert Categories["All"] == "0";
      ("0", true)
  }

  /**
   * The sort as written: a name is kept, a code is mapped back to its name,
   * and anything else only warns, leaving `sort` unassigned (None).
   */
  function ResolveSort(s: string): (r: Option<string>)
    ensures r.Some? ==> r.value in Sorts
    ensures r.None? <==> s !in Sorts && s !in Sorts.Values
    ensures s in Sorts ==> r == Some(s)
    ensures s in Sorts.Values && s !in Sorts ==> r == Some(ReverseSorts[s]) && Sorts[r.value] == s
  {
    ReverseSortsInverts();
    if s in Sorts then Some(s)
    else if s in Sorts.Values then Some(ReverseSorts[s])
    else None
  }

  /**
   * The sort as the warning "Invalid sort ignored" intends: an invalid sort
   * leaves `Torrent_sort` at the query's initial "".
   */
  function ResolveSortIgnoring(s: string): (r: string)
    ensures r == "" || r in Sorts
    ensures ResolveSort(s).Some? ==> r == ResolveSort(s).value
    ensures ResolveSort(s).None? ==> r == ""
  {
    match ResolveSort(s)
    case Some(name) => name
    case None => ""
  }

  // ---------------------------------------------------------------- query

  const PageLen: nat := 40

  /** The entries of `query_parameters`, by key. */
  datatype Params = Params(iht: string, age: string, sort: string, offset: string, q: string)

  /**
   * `query_parameters` by key. The path joins `k + "=" + str(v)` for each
   * entry with '&' and encodes nothing, so a term holding '&', '=' or a
   * space goes into the URL as it is.
   */
  function AsMap(p: Params): map<string, string> {
    map["iht" := p.iht, "age" := p.age, "Torrent_sort" := p.sort, "LTorrent_page" := p.offset, "q" := p.q]
  }

  /**
   * `query_parameters` when page p is requested: the offset, the category,
   * the sort, and either the terms joined by '+' or the age ("14" for recent).
   */
  function Query(page: nat, category: string, sort: string, terms: seq<string>, recent: bool): Params {
    Params(category, if |terms| == 0 && recent then "14" else "0", sort, NatToString(page * 40),
           if |terms| == 0 then "" else Join("+", terms))
  }

  /** Page p asks for the results from offset 40 p on, with the resolved category and sort. */
  lemma QueryFields(page: nat, category: string, sort: string, terms: seq<string>, recent: bool)
    ensures var m := AsMap(Query(page, category, sort, terms, recent));
      m.Keys == {"iht", "age", "Torrent_sort", "LTorrent_page", "q"}
      && ParseInt(m["LTorrent_page"]) == Some(page * 40)
      && m["iht"] == category && m["Torrent_sort"] == sort
  {
    ParseIntToString(page * 40);
  }

  /** Distinct pages ask for distinct offsets. */
  lemma QueryPagesDistinct(p1: nat, p2: nat, category: string, sort: string, terms: seq<string>, recent: bool)
    requires p1 != p2
    ensures Query(p1, category, sort, terms, recent) != Query(p2, category, sort, terms, recent)
  {
    QueryFields(p1, category, sort, terms, recent);
    QueryFields(p2, category, sort, terms, recent);
  }

  /** Terms without '+' can be read back from `q`; without terms, `age` says whether recent was asked. */
  lemma QueryTerms(page: nat, category: string, sort: string, terms: seq<string>, recent: bool)
    requires forall k :: 0 <= k < |terms| ==> '+' !in terms[k]
    ensures var m := AsMap(Query(page, category, sort, terms, recent));
      (|terms| > 0 ==> Split(m["q"], '+') == terms && m["age"] == "0")
      && (|terms| == 0 ==> m["q"] == "" && (m["age"] == "14" <==> recent))
  {
    if |terms| > 0 {
      SplitJoin(terms, '+');
    }
  }

  // ---------------------------------------------------------------- pages

  /** What one page yields: magnet hrefs, seeders, leechers, sizes, dates and identifiers, in page order. */
  datatype Page = Page(links: seq<string>, seeders: seq<string>, leechers: seq<string>,
                       sizes: seq<string>, uploaded: seq<string>, ids: seq<string>)

  /** `[links[i], seeders[i], leechers[i]]`. */
  datatype Rec = Rec(link: string, seeds: string, leeches: string)

  /** What `remote` returns: the records and the three lists extended page by page. */
  datatype Batch = Batch(records: seq<Rec>, sizes: seq<string>, uploaded: seq<string>, ids: seq<string>)

  const NoBatch: Batch := Batch([], [], [], [])

  function Concat(a: Batch, b: Batch): Batch {
    Batch(a.records + b.records, a.sizes + b.sizes, a.uploaded + b.uploaded, a.ids + b.ids)
  }

  function Prefix(a: Batch, r: Result<Batch>): Result<Batch> {
    match r
    case Err(e) => Err(e)
    case Ok(b) => Ok(Concat(a, b))
  }

  lemma ConcatUnit(b: Batch)
    ensures Concat(b, NoBatch) == b && Concat(NoBatch, b) == b
  {
    assert b.records + [] == b.records && [] + b.records == b.records;
  }

  lemma PrefixAssoc(a: Batch, b: Batch, r: Result<Batch>)
    ensures Prefix(a, Prefix(b, r)) == Prefix(Concat(a, b), r)
  {
    if r.Ok? {
      var c := r.value;
      assert a.records + (b.records + c.records) == (a.records + b.records) + c.records;
      assert a.sizes + (b.sizes + c.sizes) == (a.sizes + b.sizes) + c.sizes;
      assert a.uploaded + (b.uploaded + c.uploaded) == (a.uploaded + b.uploaded) + c.uploaded;
      assert a.ids + (b.ids + c.ids) == (a.ids + b.ids) + c.ids;
    }
  }

  /**
   * The pairing of one page: link i with seeders i and leechers i, for every
   * link; a shorter seeders or leechers list raises IndexError.
   */
  function Pair(pg: Page): (r: Result<seq<Rec>>)
    ensures r.Ok? <==> |pg.seeders| >= |pg.links| && |pg.leechers| >= |pg.links|
    ensures r.Err? ==> r.error == IndexError
    ensures r.Ok? ==> |r.value| == |pg.links| && forall i :: 0 <= i < |pg.links| ==>
      r.value[i] == Rec(pg.links[i], pg.seeders[i], pg.leechers[i])
  {
    if |pg.seeders| < |pg.links| || |pg.leechers| < |pg.links| then Err(IndexError)
    else Ok(seq(|pg.links|, i requires 0 <= i < |pg.links| => Rec(pg.links[i], pg.seeders[i], pg.leechers[i])))
  }

  /** The page's own contribution. */
  function PageBatch(pg: Page, recs: seq<Rec>): Batch {
    Batch(recs, pg.sizes, pg.uploaded, pg.ids)
  }

  /** The search parameters that stay the same from page to page. */
  datatype Search = Search(category: string, sort: string, terms: seq<string>, recent: bool)

  /** The query of each page of a search, by page number. */
  function QueryOf(s: Search): nat -> Params {
    (p: nat) => Query(p, s.category, s.sort, s.terms, s.recent)
  }

  /** The queries of pages 0 .. n-1, in order. */
  function Queries(query: nat -> Params, n: nat): (r: seq<Params>)
    ensures |r| == n
    decreases n
  {
    if n == 0 then [] else Queries(query, n - 1) + [query(n - 1)]
  }

  /** Entry p of Queries is the query of page p. */
  lemma {:induction false} QueriesAt(query: nat -> Params, n: nat, p: nat)
    requires p < n
    ensures Queries(query, n)[p] == query(p)
    decreases n
  {
    if p < n - 1 {
      QueriesAt(query, n - 1, p);
    }
  }

  /** The answer to each page's request, by page number. */
  function Answers(fetch: (string, Params) -> Result<Page>, mirror: string, query: nat -> Params): nat -> Result<Page> {
    (p: nat) => fetch(mirror, query(p))
  }

  /**
   * Pages p .. pages-1 given each page's answer: each page's batch, until
   * the first page with fewer than 40 links; the first error raises.
   */
  function Walk(answer: nat -> Result<Page>, p: nat, pages: nat): Result<Batch>
    decreases pages - p
  {
    if p >= pages then Ok(NoBatch)
    else
      match answer(p)
      case Err(e) => Err(e)
      case Ok(pg) =>
        match Pair(pg)
        case Err(e) => Err(e)
        case Ok(recs) =>
          if |pg.links| < PageLen then Ok(PageBatch(pg, recs))
          else Prefix(PageBatch(pg, recs), Walk(answer, p + 1, pages))
  }

  /** Pages 0 .. pages-1 of one search on one mirror. */
  function Pages(fetch: (string, Params) -> Result<Page>, mirror: string, s: Search, pages: nat): Result<Batch> {
    Walk(Answers(fetch, mirror, QueryOf(s)), 0, pages)
  }

  /** A page that was fetched and holds a full 40 links, after which the loop goes on. */
  predicate Full(got: Result<Page>) {
    got.Ok? && |got.value.links| >= PageLen
  }

  /** Pages 0 .. n-1 were all full. */
  predicate FullUpTo(answer: nat -> Result<Page>, n: nat)
    decreases n
  {
    n == 0 || (FullUpTo(answer, n - 1) && Full(answer(n - 1)))
  }

  /** Every page before n was full. */
  lemma {:induction false} FullUpToAt(answer: nat -> Result<Page>, n: nat, k: nat)
    requires FullUpTo(answer, n) && k < n
    ensures Full(answer(k))
    decreases n
  {
    if k < n - 1 {
      FullUpToAt(answer, n - 1, k);
    }
  }

  /**
   * The page loop, with page p's `query_parameters` given by `query`:
   * `requested` lists the query of every page asked for, in order; every
   * page but the last was full, a run that stops early stops at a page that
   * was not, and a run that raises raises at the last page asked for.
   */
  method PageLoop(fetch: (string, Params) -> Result<Page>, mirror: string, query: nat -> Params, pages: nat)
    returns (r: Result<Batch>, requested: seq<Params>)
    ensures r == Walk(Answers(fetch, mirror, query), 0, pages)
    ensures |requested| <= pages
    ensures requested == Queries(query, |requested|)
    ensures |requested| > 0 ==> FullUpTo(Answers(fetch, mirror, query), |requested| - 1)
    ensures r.Ok? && |requested| < pages ==>
      |requested| > 0 && fetch(mirror, query(|requested| - 1)).Ok? && !Full(fetch(mirror, query(|requested| - 1)))
    ensures r.Err? ==>
      |requested| > 0 && (fetch(mirror, query(|requested| - 1)).Err? || Pair(fetch(mirror, query(|requested| - 1)).value).Err?)
  {
    var acc := NoBatch;
    requested := [];
    var page := 0;
    ghost var answer := Answers(fetch, mirror, query);
    if Walk(answer, 0, pages).Ok? {
      ConcatUnit(Walk(answer, 0, pages).value);
    }
    while page < pages
      invariant 0 <= page <= pages
      invariant Walk(answer, 0, pages) == Prefix(acc, Walk(answer, page, pages))
      invariant requested == Queries(query, page)
      invariant FullUpTo(answer, page)
    {
      var params := query(page);
      requested := requested + [params];
      var got := fetch(mirror, params);
      assert answer(page) == got;
      if got.Err? {
        return Err(got.error), requested;
      }
      var pg := got.value;
      var recs := Pair(pg);
      if recs.Err? {
        return Err(recs.error), requested;
      }
      var b := PageBatch(pg, recs.value);
      PrefixAssoc(acc, b, Walk(answer, page + 1, pages));
      if |pg.links| < PageLen {
        ConcatUnit(b);
        return Ok(Concat(acc, b)), requested;
      }
      acc := Concat(acc, b);
      page := page + 1;
    }
    ConcatUnit(acc);
    return Ok(acc), requested;
  }

  /** `remote` once the sort is resolved to `sortName`. */
  function RemoteWith(fetch: (string, Params) -> Result<Page>, mirror: string,
                      pagesArg: string, category: string, sortName: string, terms: seq<string>, recent: bool): Result<Batch> {
    match PageCount(pagesArg)
    case Err(e) => Err(e)
    case Ok(n) => Pages(fetch, mirror, Search(ResolveCategory(category).0, sortName, terms, recent), n)
  }

  /** What `remote(args, mirror)` returns or raises as written: an invalid sort raises NameError at the first page. */
  function Remote(fetch: (string, Params) -> Result<Page>, mirror: string,
                  pagesArg: string, category: string, sort: string, terms: seq<string>, recent: bool): Result<Batch> {
    if PageCount(pagesArg).Err? then Err(PageCount(pagesArg).error)
    else
      match ResolveSort(sort)
      case None => Err(NameError)
      case Some(name) => RemoteWith(fetch, mirror, pagesArg, category, name, terms, recent)
  }

  /** `remote` with the invalid sort ignored, as its warning says. */
  function RemoteIgnoringSort(fetch: (string, Params) -> Result<Page>, mirror: string,
                              pagesArg: string, category: string, sort: string, terms: seq<string>, recent: bool): Result<Batch> {
    RemoteWith(fetch, mirror, pagesArg, category, ResolveSortIgnoring(sort), terms, recent)
  }

  /**
   * remote(args, mirror): the page count, the category and the sort, then
   * the page loop over the search's queries. An invalid sort leaves `sort`
   * unassigned, and the first page's `query_parameters["Torrent_sort"] = sort`
   * raises NameError (UnboundLocalError) before any request.
   */
  method RemoteSearch(fetch: (string, Params) -> Result<Page>, mirror: string,
                      pagesArg: string, category: string, sort: string, terms: seq<string>, recent: bool)
    returns (r: Result<Batch>, requested: seq<Params>)
    ensures r == Remote(fetch, mirror, pagesArg, category, sort, terms, recent)
    ensures PageCount(pagesArg).Err? || ResolveSort(sort).None? ==> requested == []
    ensures PageCount(pagesArg).Ok? && ResolveSort(sort).None? ==> r == Err(NameError)
    ensures PageCount(pagesArg).Ok? ==> |requested| <= PageCount(pagesArg).value
    ensures ResolveSort(sort).Some? ==>
      requested == Queries(QueryOf(Search(ResolveCategory(category).0, ResolveSort(sort).value, terms, recent)), |requested|)
    ensures PageCount(pagesArg).Ok? && ResolveSort(sort).Some? ==>
      var query := QueryOf(Search(ResolveCategory(category).0, ResolveSort(sort).value, terms, recent));
      && (|requested| > 0 ==> FullUpTo(Answers(fetch, mirror, query), |requested| - 1))
      && (r.Ok? && |requested| < PageCount(pagesArg).value ==>
            |requested| > 0 && fetch(mirror, query(|requested| - 1)).Ok? && !Full(fetch(mirror, query(|requested| - 1))))
      && (r.Err? ==>
            |requested| > 0 && (fetch(mirror, query(|requested| - 1)).Err? || Pair(fetch(mirror, query(|requested| - 1)).value).Err?))
  {
    var count := PageCount(pagesArg);
    if count.Err? {
      return Err(count.error), [];
    }
    var cat := ResolveCategory(category).0;
    var name := ResolveSort(sort);
    if name.None? {
      return Err(NameError), [];
    }
    var query := QueryOf(Search(cat, name.value, terms, recent));
    r, requested := PageLoop(fetch, mirror, query, count.value);
  }

  /**
   * As written, an invalid sort makes every mirror raise NameError before any
   * request, whatever the network would answer.
   */
  lemma InvalidSortRaises(fetch: (string, Params) -> Result<Page>, mirror: string,
                          pagesArg: string, category: string, sort: string, terms: seq<string>, recent: bool)
    requires PageCount(pagesArg).Ok?
    requires sort !in Sorts && sort !in Sorts.Values
    ensures Remote(fetch, mirror, pagesArg, category, sort, terms, recent) == Err(NameError)
  {
  }

  /**
   * With the sort ignored, an invalid sort requests the same pages as an
   * empty sort, and a valid one behaves as written.
   */
  lemma InvalidSortIgnored(fetch: (string, Params) -> Result<Page>, mirror: string,
                           pagesArg: string, category: string, sort: string, terms: seq<string>, recent: bool)
    ensures sort !in Sorts && sort !in Sorts.Values ==>
      RemoteIgnoringSort(fetch, mirror, pagesArg, category, sort, terms, recent)
      == RemoteWith(fetch, mirror, pagesArg, category, "", terms, recent)
    ensures sort in Sorts || sort in Sorts.Values ==>
      RemoteIgnoringSort(fetch, mirror, pagesArg, category, sort, terms, recent)
      == Remote(fetch, mirror, pagesArg, category, sort, terms, recent)
  {
  }

  /** The records of a `remote` call, which the mirror loop assigns to `mags`. */
  function Mags(r: Result<Batch>): Result<seq<Rec>> {
    match r
    case Err(e) => Err(e)
    case Ok(b) => Ok(b.records)
  }

  /**
   * As written, with an invalid sort every mirror's call raises, the loop
   * catches each, and `mags` is never assigned, whatever the mirror list.
   */
  lemma InvalidSortNoMirror(fetch: (string, Params) -> Result<Page>, mirrors: seq<string>,
                            pagesArg: string, category: string, sort: string, terms: seq<string>, recent: bool)
    requires sort !in Sorts && sort !in Sorts.Values
    ensures Mirrors.LegacyLoop(mirrors, m => Mags(Remote(fetch, m, pagesArg, category, sort, terms, recent)), false)
      == Mirrors.Unassigned
  {
    var call := m => Mags(Remote(fetch, m, pagesArg, category, sort, terms, recent));
    forall i | 0 <= i < |mirrors|
      ensures call(mirrors[i]).Err?
    {
    }
  }
}
