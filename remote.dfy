/**
 * The page loop of `remote` in pirate/torrent.py: check the page count, then
 * fetch and parse pages 0 .. pages-1 from one mirror, concatenating their
 * records. The network is a parameter: `fetch` maps a URL to what opening
 * it gives, and the handler around the request is modelled.
 */
module Remote {
  import opened Base
  import opened Text
  import opened Torrent
  import opened Page

  const PagesError: Error :=
    ValueError("Please provide an integer greater than 0 for the number of pages to fetch.")

  /**
   * What `opener.open` gives for one URL: the decoded page, an HTTP error
   * response (its status and body), or another exception.
   */
  datatype Response = Served(doc: Document) | HttpStatus(code: int, body: string) | Raised(error: Error)

  const Cloudflare: Error := IOError("Cloudflare protected")

  /**
   * The `except urllib.error.URLError` handler around the request. An HTTP
   * error response has a body: a 503 whose body holds
   * 'cf-browser-verification' becomes IOError, any other is re-raised. A
   * URLError that is not an HTTP error has no `fp`, so reading it raises
   * AttributeError. Other exceptions are not caught.
   */
  function Opened(resp: Response): (r: Result<Document>)
    ensures r.Ok? <==> resp.Served?
    ensures r.Ok? ==> r.value == resp.doc
    ensures resp.HttpStatus? ==>
      r == (if resp.code == 503 && Contains("cf-browser-verification", resp.body) then Err(Cloudflare)
            else Err(HttpError(resp.code)))
    ensures resp.Raised? ==> r == (if resp.error.UrlError? then Err(AttributeError) else Err(resp.error))
  {
    match resp
    case Served(doc) => Ok(doc)
    case HttpStatus(code, body) =>
      if code == 503 && Contains("cf-browser-verification", body) then Err(Cloudflare) else Err(HttpError(code))
    case Raised(e) => if e.UrlError? then Err(AttributeError) else Err(e)
  }

  /** The URL of page p. */
  function PageUrl(mirror: string, p: int, category: int, sort: int, mode: string, terms: seq<string>): Result<string> {
    match BuildRequestPath(p, category, sort, mode, terms)
    case Err(e) => Err(e)
    case Ok(path) => Ok(mirror + path)
  }

  /** The URLs of pages 0 .. n-1, in order. */
  function PageUrls(mirror: string, n: nat, category: int, sort: int, mode: string, terms: seq<string>): seq<Result<string>>
    decreases n
  {
    if n == 0 then [] else PageUrls(mirror, n - 1, category, sort, mode, terms) + [PageUrl(mirror, n - 1, category, sort, mode, terms)]
  }

  /** Entry p of PageUrls is the URL of page p. */
  lemma {:induction false} PageUrlsAt(mirror: string, n: nat, category: int, sort: int, mode: string, terms: seq<string>, p: nat)
    requires p < n
    ensures |PageUrls(mirror, n, category, sort, mode, terms)| == n
    ensures PageUrls(mirror, n, category, sort, mode, terms)[p] == PageUrl(mirror, p, category, sort, mode, terms)
    decreases n
  {
    if p < n - 1 {
      PageUrlsAt(mirror, n - 1, category, sort, mode, terms, p);
    } else if n > 1 {
      PageUrlsAt(mirror, n - 1, category, sort, mode, terms, 0);
    }
  }

  /** Each URL as a successful result. */
  function Oks(urls: seq<string>): (r: seq<Result<string>>)
    ensures |r| == |urls| && forall i :: 0 <= i < |urls| ==> r[i] == Ok(urls[i])
  {
    seq(|urls|, i requires 0 <= i < |urls| => Ok(urls[i]))
  }

  lemma OksSnoc(urls: seq<string>, u: string)
    ensures Oks(urls + [u]) == Oks(urls) + [Ok(u)]
  {
    assert Oks(urls + [u]) == Oks(urls) + [Ok(u)];
  }

  /** Fetching and parsing page p. */
  function FetchPage(fetch: string -> Response, mirror: string, p: int,
                     category: int, sort: int, mode: string, terms: seq<string>): Result<seq<Record>> {
    match PageUrl(mirror, p, category, sort, mode, terms)
    case Err(e) => Err(e)
    case Ok(url) =>
      match Opened(fetch(url))
      case Err(e) => Err(e)
      case Ok(doc) => PageResult(doc)
  }

  /** The outcome of each page in turn. */
  function Outcomes(fetch: string -> Response, mirror: string,
                    category: int, sort: int, mode: string, terms: seq<string>): nat -> Result<seq<Record>> {
    p => FetchPage(fetch, mirror, p, category, sort, mode, terms)
  }

  /** The records of pages 0 .. n-1 in page order, given each page's outcome; the first error is raised. */
  function Collect(outcome: nat -> Result<seq<Record>>, n: nat): Result<seq<Record>>
    decreases n
  {
    if n == 0 then Ok([])
    else
      match Collect(outcome, n - 1)
      case Err(e) => Err(e)
      case Ok(prev) =>
        match outcome(n - 1)
        case Err(e) => Err(e)
        case Ok(rs) => Ok(prev + rs)
  }

  /** The records of pages 0 .. n-1 of one mirror. */
  function FetchPages(fetch: string -> Response, mirror: string, n: nat,
                      category: int, sort: int, mode: string, terms: seq<string>): Result<seq<Record>> {
    Collect(Outcomes(fetch, mirror, category, sort, mode, terms), n)
  }

  /** What `remote` returns or raises. */
  function RemoteResult(fetch: string -> Response, mirror: string, pages: int,
                        category: int, sort: int, mode: string, terms: seq<string>): Result<seq<Record>> {
    if pages < 1 then Err(PagesError) else FetchPages(fetch, mirror, pages, category, sort, mode, terms)
  }

  /**
   * How many URLs the page loop requests: the pages before the first one
   * that raises, and that one too when its URL could be built.
   */
  function RequestCount(fetch: string -> Response, mirror: string, pages: nat,
                        category: int, sort: int, mode: string, terms: seq<string>): nat {
    var k := LeadingOks(Outcomes(fetch, mirror, category, sort, mode, terms), pages);
    if k < pages && PageUrl(mirror, k, category, sort, mode, terms).Ok? then k + 1 else k
  }

  /**
   * remote: the page-count check, then one request per page, accumulating
   * `res_l`. `requested` lists the URLs asked for, in order: every page up
   * to the first one that raises, that one included when its URL was built.
   */
  method RemoteSearch(fetch: string -> Response, mirror: string, pages: int,
                      category: int, sort: int, mode: string, terms: seq<string>)
    returns (r: Result<seq<Record>>, requested: seq<string>)
    ensures r == RemoteResult(fetch, mirror, pages, category, sort, mode, terms)
    ensures pages < 1 ==> requested == []
    ensures |requested| <= if pages < 1 then 0 else pages
    ensures PageUrls(mirror, |requested|, category, sort, mode, terms) == Oks(requested)
    ensures pages >= 1 ==> |requested| == RequestCount(fetch, mirror, pages, category, sort, mode, terms)
  {
    requested := [];
    if pages < 1 {
      return Err(PagesError), requested;
    }
    ghost var outcome := Outcomes(fetch, mirror, category, sort, mode, terms);
    var res: seq<Record> := [];
    var page := 0;
    while page < pages
      invariant 0 <= page <= pages
      invariant Collect(outcome, page) == Ok(res)
      invariant |requested| == page
      invariant PageUrls(mirror, page, category, sort, mode, terms) == Oks(requested)
    {
      var url := PageUrl(mirror, page, category, sort, mode, terms);
      if url.Err? {
        StopAt(fetch, mirror, pages, page, category, sort, mode, terms, url.error);
        return Err(url.error), requested;
      }
      OksSnoc(requested, url.value);
      requested := requested + [url.value];
      var doc := Opened(fetch(url.value));
      if doc.Err? {
        StopAt(fetch, mirror, pages, page, category, sort, mode, terms, doc.error);
        return Err(doc.error), requested;
      }
      var parsed := ParsePage(doc.value);
      if parsed.Err? {
        StopAt(fetch, mirror, pages, page, category, sort, mode, terms, parsed.error);
        return Err(parsed.error), requested;
      }
      assert outcome(page) == parsed;
      res := res + parsed.value;
      page := page + 1;
    }
    RunsThrough(fetch, mirror, pages, category, sort, mode, terms);
    return Ok(res), requested;
  }

  /**
   * A run succeeds exactly when no page raises; otherwise it raises the error
   * of the first page that does.
   */
  lemma {:induction false} CollectLeading(outcome: nat -> Result<seq<Record>>, n: nat)
    ensures Collect(outcome, n).Ok? <==> LeadingOks(outcome, n) == n
    ensures Collect(outcome, n).Err? ==> Collect(outcome, n).error == outcome(LeadingOks(outcome, n)).error
    decreases n
  {
    if n > 0 {
      CollectLeading(outcome, n - 1);
    }
  }

  /**
   * A run that raises at `page` raises its error, and requests the pages
   * before it, and that one when its URL was built.
   */
  lemma StopAt(fetch: string -> Response, mirror: string, pages: nat, page: nat,
               category: int, sort: int, mode: string, terms: seq<string>, e: Error)
    requires page < pages
    requires Collect(Outcomes(fetch, mirror, category, sort, mode, terms), page).Ok?
    requires FetchPage(fetch, mirror, page, category, sort, mode, terms) == Err(e)
    ensures RemoteResult(fetch, mirror, pages, category, sort, mode, terms) == Err(e)
    ensures RequestCount(fetch, mirror, pages, category, sort, mode, terms)
            == if PageUrl(mirror, page, category, sort, mode, terms).Ok? then page + 1 else page
  {
    var outcome := Outcomes(fetch, mirror, category, sort, mode, terms);
    assert outcome(page) == Err(e);
    CollectLeading(outcome, page);
    StepError(outcome, page, pages, e);
    LeadingOksIs(outcome, pages, page);
  }

  /** A run that gets through every page requests them all. */
  lemma RunsThrough(fetch: string -> Response, mirror: string, pages: nat,
                    category: int, sort: int, mode: string, terms: seq<string>)
    requires Collect(Outcomes(fetch, mirror, category, sort, mode, terms), pages).Ok?
    ensures RequestCount(fetch, mirror, pages, category, sort, mode, terms) == pages
  {
    CollectLeading(Outcomes(fetch, mirror, category, sort, mode, terms), pages);
  }

  /** A page that raises ends the whole run with its error. */
  lemma StepError(outcome: nat -> Result<seq<Record>>, n: nat, m: nat, e: Error)
    requires n < m
    requires Collect(outcome, n).Ok? && outcome(n) == Err(e)
    ensures Collect(outcome, m) == Err(e)
  {
    PrefixError(outcome, n + 1, m);
  }

  /** Once some page raises, so do all longer runs, with the same error. */
  lemma {:induction false} PrefixError(outcome: nat -> Result<seq<Record>>, n: nat, m: nat)
    requires n <= m && Collect(outcome, n).Err?
    ensures Collect(outcome, m) == Collect(outcome, n)
    decreases m - n
  {
    if n < m {
      PrefixError(outcome, n, m - 1);
    }
  }

  /** The records of a successful run are those of each page in turn, one page per request. */
  lemma {:induction false} FetchPagesSplit(fetch: string -> Response, mirror: string, n: nat,
                                           category: int, sort: int, mode: string, terms: seq<string>)
    requires FetchPages(fetch, mirror, n, category, sort, mode, terms).Ok?
    ensures forall p :: 0 <= p < n ==> FetchPage(fetch, mirror, p, category, sort, mode, terms).Ok?
    ensures n > 0 ==> (FetchPages(fetch, mirror, n, category, sort, mode, terms).value
                    == FetchPages(fetch, mirror, n - 1, category, sort, mode, terms).value
                     + FetchPage(fetch, mirror, n - 1, category, sort, mode, terms).value)
  {
    var outcome := Outcomes(fetch, mirror, category, sort, mode, terms);
    CollectSplit(outcome, n);
    forall p | 0 <= p < n
      ensures FetchPage(fetch, mirror, p, category, sort, mode, terms).Ok?
    {
      assert outcome(p).Ok?;
    }
  }

  lemma {:induction false} CollectSplit(outcome: nat -> Result<seq<Record>>, n: nat)
    requires Collect(outcome, n).Ok?
    ensures forall p :: 0 <= p < n ==> outcome(p).Ok?
    ensures n > 0 ==> Collect(outcome, n).value == Collect(outcome, n - 1).value + outcome(n - 1).value
    decreases n
  {
    if n > 0 {
      CollectSplit(outcome, n - 1);
    }
  }
}
