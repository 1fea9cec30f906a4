/**
 * `remote` of pirate-get-py3.py: the page-count check, one search URL per
 * page, and the loop that pairs the numeric cells of each page into seeds
 * and leeches. The regular-expression scan of a page is an extractor: a
 * page is the list of its matches, and fetching a URL is an oracle.
 */
module Py3Remote {
  import opened Base
  import opened Text
  import opened Legacy

  // ---------------------------------------------------------------- URL

  const SearchHost: string := "http://thepiratebay.se/search"

  /** The query with every space replaced by '+'. */
  function PlusQuery(q: string): (r: string)
    ensures |r| == |q| && ' ' !in r
    ensures forall i :: 0 <= i < |q| ==> r[i] == (if q[i] == ' ' then '+' else q[i])
  {
    ReplaceCharSpec(q, ' ', '+');
    Replace(q, " ", "+")
  }

  /** The URL of page p: the query, then the page number, sort 7 and category 0. */
  function SearchUrl(q: string, page: nat): string {
    SearchHost + "/" + PlusQuery(q) + "/" + NatToString(page) + "/" + "7" + "/" + "0"
  }

  /** The URLs of pages 0 .. n-1, in order. */
  function SearchUrls(q: string, n: nat): (r: seq<string>)
    ensures |r| == n
    decreases n
  {
    if n == 0 then [] else SearchUrls(q, n - 1) + [SearchUrl(q, n - 1)]
  }

  /** Entry p of SearchUrls is the URL of page p. */
  lemma {:induction false} SearchUrlsAt(q: string, n: nat, p: nat)
    requires p < n
    ensures SearchUrls(q, n)[p] == SearchUrl(q, p)
    decreases n
  {
    if p < n - 1 {
      SearchUrlsAt(q, n - 1, p);
    }
  }

  /** For a query without '/', the URL's last path segments are the query, the page number, "7" and "0". */
  lemma SearchUrlSegments(q: string, page: nat)
    requires '/' !in q
    ensures var parts := Split(SearchUrl(q, page), '/');
      |parts| >= 5 && parts[|parts| - 4..] == [PlusQuery(q), NatToString(page), "7", "0"]
      && ParseInt(parts[|parts| - 3]) == Some(page)
  {
    var pq, n := PlusQuery(q), NatToString(page);
    assert '/' !in pq by {
      forall i | 0 <= i < |pq| ensures pq[i] != '/' {
        assert q[i] in q;
      }
    }
    assert '/' !in n by {
      forall i | 0 <= i < |n| ensures n[i] != '/' {
        assert IsDigit(n[i]);
      }
    }
    LastSegments(SearchHost, pq, n, "7", "0");
    ParseIntToString(page);
  }

  lemma LastSegments(host: string, a: string, b: string, c: string, d: string)
    requires '/' !in a && '/' !in b && '/' !in c && '/' !in d
    ensures var parts := Split(host + "/" + a + "/" + b + "/" + c + "/" + d, '/');
      |parts| >= 5 && parts[|parts| - 4..] == [a, b, c, d]
  {
    var x := host + ['/'] + a;
    var y := x + ['/'] + b;
    var z := y + ['/'] + c;
    assert host + "/" + a + "/" + b + "/" + c + "/" + d == z + ['/'] + d;
    SplitSnoc(host, '/', a);
    SplitSnoc(x, '/', b);
    SplitSnoc(y, '/', c);
    SplitSnoc(z, '/', d);
  }

  // ---------------------------------------------------------------- pairing

  /**
   * One match of the page scan: the magnet group and the cell group; an
   * empty cell group means the magnet alternative matched.
   */
  datatype Match = Match(magnet: string, cell: string)

  /** A slot of `curr` that still holds its initial 0, or the text of a cell. */
  datatype Cell = Unset | Text(text: string)

  /** `curr`: [magnet, seeds, leeches]. */
  datatype Rec = Rec(magnet: string, seeds: Cell, leeches: Cell)

  /** Whether the next numeric cell is seeds or leeches. */
  datatype Half = Seeds | Leeches

  const Blank: Rec := Rec("", Unset, Unset)

  /** The loop over one page's matches from a given state and `curr`: the records it appends. */
  function Pairing(found: seq<Match>, half: Half, curr: Rec): seq<Rec>
    decreases |found|
  {
    if |found| == 0 then []
    else
      var f := found[0];
      if f.cell == "" then Pairing(found[1..], half, curr.(magnet := f.magnet))
      else if half == Seeds then Pairing(found[1..], Leeches, curr.(seeds := Text(f.cell)))
      else [curr.(leeches := Text(f.cell))] + Pairing(found[1..], Seeds, Blank)
  }

  /** The numeric cells of a page, in order. */
  function Numbers(found: seq<Match>): seq<string>
    decreases |found|
  {
    if |found| == 0 then []
    else (if found[0].cell == "" then [] else [found[0].cell]) + Numbers(found[1..])
  }

  /** The loop of one page, from state "seeds" and a blank `curr`. */
  method PairPage(found: seq<Match>) returns (res: seq<Rec>)
    ensures res == Pairing(found, Seeds, Blank)
  {
    res := [];
    var half := Seeds;
    var curr := Blank;
    var i := 0;
    while i < |found|
      invariant 0 <= i <= |found|
      invariant Pairing(found, Seeds, Blank) == res + Pairing(found[i..], half, curr)
    {
      assert found[i..][0] == found[i] && found[i..][1..] == found[i + 1..];
      var f := found[i];
      if f.cell == "" {
        curr := curr.(magnet := f.magnet);
      } else if half == Seeds {
        curr := curr.(seeds := Text(f.cell));
        half := Leeches;
      } else {
        curr := curr.(leeches := Text(f.cell));
        half := Seeds;
        res := res + [curr];
        curr := Blank;
      }
      i := i + 1;
    }
    assert found[i..] == [];
  }

  /** The numeric cells still to be paired: a seeds cell already read, then the page's. */
  function Pending(half: Half, curr: Rec, found: seq<Match>): seq<string>
    requires half == Leeches ==> curr.seeds.Text?
  {
    (if half == Leeches then [curr.seeds.text] else []) + Numbers(found)
  }

  /** Record k has cells 2k and 2k+1 as its seeds and leeches, and an odd last cell is dropped. */
  predicate Paired(recs: seq<Rec>, ns: seq<string>) {
    |recs| == |ns| / 2
    && forall k :: 0 <= k < |recs| ==> recs[k].seeds == Text(ns[2 * k]) && recs[k].leeches == Text(ns[2 * k + 1])
  }

  lemma PairedCons(r: Rec, rest: seq<Rec>, a: string, b: string, ns: seq<string>)
    requires r.seeds == Text(a) && r.leeches == Text(b) && Paired(rest, ns)
    ensures Paired([r] + rest, [a, b] + ns)
  {
    var recs, cells := [r] + rest, [a, b] + ns;
    forall k | 0 <= k < |recs|
      ensures recs[k].seeds == Text(cells[2 * k]) && recs[k].leeches == Text(cells[2 * k + 1])
    {
      if k > 0 {
        assert recs[k] == rest[k - 1];
        assert cells[2 * k] == ns[2 * (k - 1)] && cells[2 * k + 1] == ns[2 * (k - 1) + 1];
      }
    }
  }

  /** Numeric cells are taken two at a time, from wherever the loop stands. */
  lemma {:induction false} PairingCells(found: seq<Match>, half: Half, curr: Rec)
    requires half == Leeches ==> curr.seeds.Text?
    ensures Paired(Pairing(found, half, curr), Pending(half, curr, found))
    decreases |found|
  {
    if |found| > 0 {
      var f := found[0];
      var ns := Pending(half, curr, found);
      if f.cell == "" {
        PairingCells(found[1..], half, curr.(magnet := f.magnet));
        assert ns == Pending(half, curr.(magnet := f.magnet), found[1..]);
      } else if half == Seeds {
        PairingCells(found[1..], Leeches, curr.(seeds := Text(f.cell)));
        assert ns == Pending(Leeches, curr.(seeds := Text(f.cell)), found[1..]);
      } else {
        PairingCells(found[1..], Seeds, Blank);
        assert ns == [curr.seeds.text, f.cell] + Numbers(found[1..]);
        PairedCons(curr.(leeches := Text(f.cell)), Pairing(found[1..], Seeds, Blank),
                   curr.seeds.text, f.cell, Numbers(found[1..]));
      }
    }
  }

  /**
   * A page adds floor(n / 2) records for its n numeric cells: record k has
   * cells 2k and 2k+1 as its seeds and leeches, and an odd last cell is dropped.
   */
  lemma PageRecords(found: seq<Match>)
    ensures var recs, ns := Pairing(found, Seeds, Blank), Numbers(found);
      |recs| == |ns| / 2
      && forall k :: 0 <= k < |recs| ==> recs[k].seeds == Text(ns[2 * k]) && recs[k].leeches == Text(ns[2 * k + 1])
  {
    PairingCells(found, Seeds, Blank);
    assert Pending(Seeds, Blank, found) == Numbers(found);
  }

  // ---------------------------------------------------------------- remote

  /** The records of pages 0 .. n-1, in page order; the first failed request raises. */
  function Pages(fetch: string -> Result<seq<Match>>, q: string, n: nat): Result<seq<Rec>>
    decreases n
  {
    if n == 0 then Ok([])
    else
      match Pages(fetch, q, n - 1)
      case Err(e) => Err(e)
      case Ok(prev) =>
        match fetch(SearchUrl(q, n - 1))
        case Err(e) => Err(e)
        case Ok(found) => Ok(prev + Pairing(found, Seeds, Blank))
  }

  /** What `remote(args)` returns or raises. */
  function RemoteResult(fetch: string -> Result<seq<Match>>, q: string, pagesArg: string): Result<seq<Rec>> {
    match PageCount(pagesArg)
    case Err(e) => Err(e)
    case Ok(n) => Pages(fetch, q, n)
  }

  /** The answer to each page's request, by page number. */
  function Fetched(fetch: string -> Result<seq<Match>>, q: string): nat -> Result<seq<Match>> {
    (p: nat) => fetch(SearchUrl(q, p))
  }

  /** The pages succeed exactly when no request fails; otherwise the first failed request's error is raised. */
  lemma {:induction false} PagesLeading(fetch: string -> Result<seq<Match>>, q: string, n: nat)
    ensures Pages(fetch, q, n).Ok? <==> LeadingOks(Fetched(fetch, q), n) == n
    ensures Pages(fetch, q, n).Err? ==> Pages(fetch, q, n).error == fetch(SearchUrl(q, LeadingOks(Fetched(fetch, q), n))).error
    decreases n
  {
    if n > 0 {
      PagesLeading(fetch, q, n - 1);
    }
  }

  /** A run whose request for page `page` fails raises that error, having got through the pages before it. */
  lemma FailsAt(fetch: string -> Result<seq<Match>>, q: string, page: nat, pages: nat)
    requires page < pages && Pages(fetch, q, page).Ok? && fetch(SearchUrl(q, page)).Err?
    ensures Pages(fetch, q, pages) == Err(fetch(SearchUrl(q, page)).error)
    ensures LeadingOks(Fetched(fetch, q), pages) == page
  {
    PagesLeading(fetch, q, page);
    assert Fetched(fetch, q)(page) == fetch(SearchUrl(q, page));
    LeadingOksIs(Fetched(fetch, q), pages, page);
    PagesErr(fetch, q, page + 1, pages);
  }

  lemma {:induction false} PagesErr(fetch: string -> Result<seq<Match>>, q: string, n: nat, m: nat)
    requires n <= m && Pages(fetch, q, n).Err?
    ensures Pages(fetch, q, m) == Pages(fetch, q, n)
    decreases m - n
  {
    if n < m {
      PagesErr(fetch, q, n, m - 1);
    }
  }

  /**
   * remote: the page count first, then one request per page; `requested`
   * lists the URLs asked for, in order: every page up to and including the
   * first failed request.
   */
  method Remote(fetch: string -> Result<seq<Match>>, q: string, pagesArg: string)
    returns (r: Result<seq<Rec>>, requested: seq<string>)
    ensures r == RemoteResult(fetch, q, pagesArg)
    ensures PageCount(pagesArg).Err? ==> requested == []
    ensures PageCount(pagesArg).Ok? ==> |requested| <= PageCount(pagesArg).value
    ensures requested == SearchUrls(q, |requested|)
    ensures PageCount(pagesArg).Ok? ==>
      var n := PageCount(pagesArg).value;
      var k := LeadingOks(Fetched(fetch, q), n);
      |requested| == if k < n then k + 1 else n
  {
    requested := [];
    var count := PageCount(pagesArg);
    if count.Err? {
      return Err(count.error), requested;
    }
    var pages := count.value;
    var res: seq<Rec> := [];
    var page := 0;
    while page < pages
      invariant 0 <= page <= pages
      invariant Pages(fetch, q, page) == Ok(res)
      invariant |requested| == page
      invariant requested == SearchUrls(q, page)
    {
      var url := SearchUrl(q, page);
      requested := requested + [url];
      var found := fetch(url);
      if found.Err? {
        FailsAt(fetch, q, page, pages);
        return Err(found.error), requested;
      }
      var recs := PairPage(found.value);
      res := res + recs;
      page := page + 1;
    }
    PagesLeading(fetch, q, pages);
    return Ok(res), requested;
  }

  /** A page count that is not a number of at least one raises before any request. */
  lemma BadCountFirst(fetch: string -> Result<seq<Match>>, q: string, pagesArg: string)
    requires ParseInt(pagesArg).None? || ParseInt(pagesArg).value < 1
    ensures RemoteResult(fetch, q, pagesArg) == Err(Exception(PagesMessage))
  {
  }
}
