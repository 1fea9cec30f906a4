/**
 * The mirror handling of `main` in pirate/pirate.py: the candidate set
 * (the default mirror united with the published list, minus the blacklist)
 * and the failover loop over it; and the older loop of pirate-get.py, which
 * walks a list and stops at the first mirror with results. Fetching a
 * mirror is an oracle from its URL to the records or the raised error.
 */
module Mirrors {
  import opened Base
  import opened Text
  import opened Page
  import opened Remote

  // ---------------------------------------------------------------- candidates

  const DefaultMirror: string := "https://thepiratebay.mn"
  const ListError: Error := IOError("The proxy bay responded with an error.")

  /** The response to the mirror-list request: its status and its lines, decoded, newlines kept. */
  datatype Listing = Listing(code: int, lines: seq<string>)

  /** What `except IOError` catches in Python 3: OSError and its subclasses. */
  predicate IsOSError(e: Error) {
    e.IOError? || e.UrlError? || e.HttpError? || e.Timeout?
  }

  /** The stripped lines from the fourth on: `[i.strip() for i in lines][3:]`. */
  function Listed(lines: seq<string>): (r: set<string>)
    ensures forall m :: m in r <==> exists i :: 3 <= i < |lines| && Strip(lines[i]) == m
  {
    set i | 3 <= i < |lines| :: Strip(lines[i])
  }

  /**
   * The mirrors to try: only the default when the list request raises an
   * OSError; IOError when the list answers with a status other than 200;
   * otherwise the default and the listed mirrors, less the blacklist.
   */
  function Candidates(listing: Result<Listing>, blacklist: set<string>): (r: Result<set<string>>)
    ensures r.Err? <==> (listing.Err? && !IsOSError(listing.error)) || (listing.Ok? && listing.value.code != 200)
    ensures r.Err? && listing.Ok? ==> r.error == ListError
    ensures listing.Err? && IsOSError(listing.error) ==> r == Ok({DefaultMirror})
    ensures r.Ok? && listing.Ok? ==> forall m :: m in r.value <==>
      m !in blacklist && (m == DefaultMirror || exists i :: 3 <= i < |listing.value.lines| && Strip(listing.value.lines[i]) == m)
  {
    match listing
    case Err(e) => if IsOSError(e) then Ok({DefaultMirror}) else Err(e)
    case Ok(resp) =>
      if resp.code != 200 then Err(ListError)
      else Ok(({DefaultMirror} + Listed(resp.lines)) - blacklist)
  }

  /** A blacklisted mirror is never tried once the list has been read; without a list, the default always is. */
  lemma CandidatesAvoidBlacklist(listing: Result<Listing>, blacklist: set<string>)
    requires Candidates(listing, blacklist).Ok?
    ensures listing.Ok? ==> Candidates(listing, blacklist).value !! blacklist
    ensures listing.Err? ==> DefaultMirror in Candidates(listing, blacklist).value
    ensures listing.Ok? && DefaultMirror !in blacklist ==> DefaultMirror in Candidates(listing, blacklist).value
  {
  }

  // ---------------------------------------------------------------- failover

  /** How the loop ends: a mirror and its records, "No available mirrors", or an escaping error. */
  datatype Outcome = Found(mirror: string, records: seq<Record>) | NoMirrors | Crash(error: Error)

  /** The first i mirrors of the order all raised an error the loop catches. */
  predicate FailedBefore(order: seq<string>, i: nat, fetch: string -> Result<seq<Record>>)
    requires i <= |order|
  {
    forall j :: 0 <= j < i ==> fetch(order[j]).Err? && CaughtByMirrorLoop(fetch(order[j]).error)
  }

  /**
   * The loop over the mirrors in one iteration order: the first mirror whose
   * fetch returns is chosen, even with no records; a caught error moves on;
   * any other error escapes.
   */
  function TryInOrder(order: seq<string>, fetch: string -> Result<seq<Record>>): (r: Outcome)
    ensures r.Found? ==> (exists i :: 0 <= i < |order| && order[i] == r.mirror
                                   && fetch(order[i]) == Ok(r.records) && FailedBefore(order, i, fetch))
    ensures r.Crash? ==> !CaughtByMirrorLoop(r.error)
    ensures r.Crash? ==> (exists i :: 0 <= i < |order|
                                   && fetch(order[i]) == Err(r.error) && FailedBefore(order, i, fetch))
    ensures r.NoMirrors? <==> FailedBefore(order, |order|, fetch)
    decreases |order|
  {
    if |order| == 0 then NoMirrors
    else
      var rest := TryInOrder(order[1..], fetch);
      assert forall i :: 0 < i <= |order| ==> (FailedBefore(order, i, fetch) <==>
        FailedBefore(order, 1, fetch) && FailedBefore(order[1..], i - 1, fetch)) by {
        forall i | 0 < i <= |order|
          ensures FailedBefore(order, i, fetch) <==> FailedBefore(order, 1, fetch) && FailedBefore(order[1..], i - 1, fetch)
        {
          assert forall j :: 1 <= j < i ==> order[j] == order[1..][j - 1];
        }
      }
      match fetch(order[0])
      case Ok(records) => Found(order[0], records)
      case Err(e) =>
        if CaughtByMirrorLoop(e) then
          assert rest.Found? ==> (exists i :: 0 <= i < |order| && order[i] == rest.mirror
                                   && fetch(order[i]) == Ok(rest.records) && FailedBefore(order, i, fetch)) by {
            if rest.Found? {
              var i :| 0 <= i < |order[1..]| && order[1..][i] == rest.mirror
                && fetch(order[1..][i]) == Ok(rest.records) && FailedBefore(order[1..], i, fetch);
              assert order[i + 1] == rest.mirror && FailedBefore(order, i + 1, fetch);
            }
          }
          assert rest.Crash? ==> (exists i :: 0 <= i < |order|
                                   && fetch(order[i]) == Err(rest.error) && FailedBefore(order, i, fetch)) by {
            if rest.Crash? {
              var i :| 0 <= i < |order[1..]| && fetch(order[1..][i]) == Err(rest.error) && FailedBefore(order[1..], i, fetch);
              assert fetch(order[i + 1]) == Err(rest.error) && FailedBefore(order, i + 1, fetch);
            }
          }
          rest
        else Crash(e)
  }

  /** One more mirror after a run of caught failures. */
  lemma {:induction false} TryInOrderSnoc(order: seq<string>, m: string, fetch: string -> Result<seq<Record>>)
    requires TryInOrder(order, fetch) == NoMirrors
    ensures TryInOrder(order + [m], fetch) ==
      match fetch(m)
      case Ok(records) => Found(m, records)
      case Err(e) => if CaughtByMirrorLoop(e) then NoMirrors else Crash(e)
    decreases |order|
  {
    if |order| == 0 {
      assert order + [m] == [m];
      assert [m][1..] == [];
    } else {
      assert (order + [m])[0] == order[0] && (order + [m])[1..] == order[1..] + [m];
      assert FailedBefore(order, 1, fetch);
      TryInOrderSnoc(order[1..], m, fetch);
    }
  }

  /** The converse of TryInOrder's contract: after caught failures only, the first mirror that returns is chosen. */
  lemma {:induction false} TryInOrderAt(order: seq<string>, fetch: string -> Result<seq<Record>>, i: nat)
    requires i < |order| && FailedBefore(order, i, fetch) && fetch(order[i]).Ok?
    ensures TryInOrder(order, fetch) == Found(order[i], fetch(order[i]).value)
    decreases i
  {
    if i > 0 {
      assert FailedBefore(order[1..], i - 1, fetch) by {
        forall j | 0 <= j < i - 1
          ensures fetch(order[1..][j]).Err? && CaughtByMirrorLoop(fetch(order[1..][j]).error)
        {
          assert order[1..][j] == order[j + 1];
        }
      }
      assert order[1..][i - 1] == order[i];
      TryInOrderAt(order[1..], fetch, i - 1);
      assert fetch(order[0]).Err? && CaughtByMirrorLoop(fetch(order[0]).error);
    }
  }

  /**
   * The loop `for mirror in mirrors` over a set: Python's iteration order is
   * not specified, so the next mirror is any one not yet tried. `tried` lists
   * the mirrors in the order the loop tried them.
   */
  method Failover(mirrors: set<string>, fetch: string -> Result<seq<Record>>) returns (o: Outcome, tried: seq<string>)
    ensures o == TryInOrder(tried, fetch)
    ensures forall i :: 0 <= i < |tried| ==> tried[i] in mirrors
    ensures forall i, j :: 0 <= i < j < |tried| ==> tried[i] != tried[j]
    ensures o.Found? ==> o.mirror == tried[|tried| - 1] && fetch(o.mirror) == Ok(o.records)
    ensures o.NoMirrors? ==> forall m :: m in mirrors ==> m in tried
    ensures o.NoMirrors? <==> forall m :: m in mirrors ==> fetch(m).Err? && CaughtByMirrorLoop(fetch(m).error)
  {
    var rest := mirrors;
    tried := [];
    while rest != {}
      invariant rest <= mirrors
      invariant forall m :: m in mirrors ==> (m in rest <==> m !in tried)
      invariant forall i :: 0 <= i < |tried| ==> tried[i] in mirrors
      invariant forall i, j :: 0 <= i < j < |tried| ==> tried[i] != tried[j]
      invariant TryInOrder(tried, fetch) == NoMirrors
      decreases |rest|
    {
      var m :| m in rest;
      TryInOrderSnoc(tried, m, fetch);
      tried := tried + [m];
      rest := rest - {m};
      match fetch(m)
      case Ok(records) =>
        o := Found(m, records);
        return;
      case Err(e) =>
        if !CaughtByMirrorLoop(e) {
          o := Crash(e);
          return;
        }
    }
    o := NoMirrors;
    assert FailedBefore(tried, |tried|, fetch);
    forall m | m in mirrors
      ensures fetch(m).Err? && CaughtByMirrorLoop(fetch(m).error)
    {
      var i :| 0 <= i < |tried| && tried[i] == m;
    }
  }

  /** A mirror whose fetch returns is chosen even when it has no records. */
  lemma EmptyResultStops(order: seq<string>, fetch: string -> Result<seq<Record>>)
    requires |order| > 0 && fetch(order[0]) == Ok([])
    ensures TryInOrder(order, fetch) == Found(order[0], [])
  {
  }

  /** Errors outside the handler tuple end the loop on the spot, whatever the later mirrors hold. */
  lemma UncaughtStops(order: seq<string>, fetch: string -> Result<seq<Record>>, fetch2: string -> Result<seq<Record>>)
    requires |order| > 0 && fetch(order[0]).Err? && !CaughtByMirrorLoop(fetch(order[0]).error)
    requires fetch2(order[0]) == fetch(order[0])
    ensures TryInOrder(order, fetch) == Crash(fetch(order[0]).error) == TryInOrder(order, fetch2)
  {
  }

  // ---------------------------------------------------------------- calling remote

  /**
   * `pirate.torrent.remote(args, mirror)` as written: remote takes seven
   * parameters, so the two-argument call raises TypeError.
   */
  function FetchAsWritten(mirror: string): (r: Result<seq<Record>>)
    ensures r == Err(TypeError)
  {
    Err(TypeError)
  }

  /**
   * The call as intended: `remote(printer, pages, category, sort, mode,
   * terms, mirror)` with its record list bound to `mags`, without the
   * four-name unpack.
   */
  function FetchIntended(page: string -> Response, pages: int, category: int, sort: int,
                         mode: string, terms: seq<string>): string -> Result<seq<Record>> {
    m => RemoteResult(page, m, pages, category, sort, mode, terms)
  }

  /** As written, the TypeError is not among the handled errors: the first mirror tried ends the program. */
  lemma RemoteCallCrashes(order: seq<string>)
    requires |order| > 0
    ensures TryInOrder(order, FetchAsWritten) == Crash(TypeError)
  {
  }

  /**
   * With the intended call, a page count below one raises remote's
   * ValueError at every mirror, which the loop handles: it reports that no
   * mirror is available instead of crashing.
   */
  lemma {:induction false} InvalidPagesNoMirror(page: string -> Response, pages: int, category: int,
                                                sort: int, mode: string, terms: seq<string>, order: seq<string>)
    requires pages < 1
    ensures TryInOrder(order, FetchIntended(page, pages, category, sort, mode, terms)) == NoMirrors
  {
    var f := FetchIntended(page, pages, category, sort, mode, terms);
    forall j | 0 <= j < |order|
      ensures f(order[j]).Err? && CaughtByMirrorLoop(f(order[j]).error)
    {
      assert f(order[j]) == Err(PagesError);
    }
    assert FailedBefore(order, |order|, f);
  }

  /**
   * With the intended call and at least one page, the loop settles on the
   * first mirror in its order whose pages all fetch and parse, with their
   * records, once every mirror before it failed with a handled error.
   */
  lemma {:induction false} IntendedFailover(page: string -> Response, pages: int, category: int, sort: int, mode: string,
                         terms: seq<string>, order: seq<string>, i: nat)
    requires pages >= 1 && i < |order|
    requires FailedBefore(order, i, FetchIntended(page, pages, category, sort, mode, terms))
    requires FetchPages(page, order[i], pages, category, sort, mode, terms).Ok?
    ensures TryInOrder(order, FetchIntended(page, pages, category, sort, mode, terms))
            == Found(order[i], FetchPages(page, order[i], pages, category, sort, mode, terms).value)
  {
    var f := FetchIntended(page, pages, category, sort, mode, terms);
    assert f(order[i]) == FetchPages(page, order[i], pages, category, sort, mode, terms);
    TryInOrderAt(order, f, i);
  }

  /** Conversely, a mirror the intended loop settles on answered every page, and these are its records. */
  lemma IntendedFound(page: string -> Response, pages: int, category: int, sort: int, mode: string,
                      terms: seq<string>, order: seq<string>)
    requires TryInOrder(order, FetchIntended(page, pages, category, sort, mode, terms)).Found?
    ensures var o := TryInOrder(order, FetchIntended(page, pages, category, sort, mode, terms));
            pages >= 1 && o.mirror in order
            && FetchPages(page, o.mirror, pages, category, sort, mode, terms) == Ok(o.records)
  {
  }

  /**
   * A plain URLError on a mirror's first page (a refused connection, say) is
   * not skipped: the handler reads its missing `fp`, and the AttributeError
   * ends the loop when that mirror comes first.
   */
  lemma {:induction false} UrlErrorEndsLoop(page: string -> Response, pages: int, category: int, sort: int, mode: string,
                         terms: seq<string>, order: seq<string>)
    requires pages >= 1 && |order| > 0
    requires PageUrl(order[0], 0, category, sort, mode, terms).Ok?
    requires page(PageUrl(order[0], 0, category, sort, mode, terms).value) == Raised(UrlError)
    ensures TryInOrder(order, FetchIntended(page, pages, category, sort, mode, terms)) == Crash(AttributeError)
  {
    var f := FetchIntended(page, pages, category, sort, mode, terms);
    assert f(order[0]) == Err(AttributeError) by {
      var outcome := Outcomes(page, order[0], category, sort, mode, terms);
      assert outcome(0) == Err(AttributeError);
      StepError(outcome, 0, pages, AttributeError);
    }
    UncaughtStops(order, f, f);
  }

  // ---------------------------------------------------------------- pirate-get.py

  const LegacyDefaults: seq<string> := ["https://oldpiratebay.org", "http://thepiratebay.se"]

  /**
   * The mirror list of pirate-get.py: the two defaults, then the lines of
   * the list from the fourth on (split at "\n", not stripped) when the list
   * answers 200; any error, or another status, keeps the defaults alone.
   */
  function LegacyCandidates(listing: Result<(int, string)>): (r: seq<string>)
    ensures |r| >= 2 && r[..2] == LegacyDefaults
    ensures listing.Ok? && listing.value.0 == 200 && |Split(listing.value.1, '\n')| > 3
        ==> r[2..] == Split(listing.value.1, '\n')[3..]
    ensures !(listing.Ok? && listing.value.0 == 200) ==> r == LegacyDefaults
  {
    if listing.Ok? && listing.value.0 == 200 then
      var lines := Split(listing.value.1, '\n');
      LegacyDefaults + (if |lines| > 3 then lines[3..] else [])
    else LegacyDefaults
  }

  /**
   * How the older loop ends: the first mirror with results; or, when none
   * has any, `mags` left at the empty list of the last mirror that
   * answered; or `mags` never assigned, when every mirror raised.
   */
  datatype LegacyOutcome<T> = Chosen(mirror: string, records: seq<T>) | LastEmpty | Unassigned

  /** The older loop over the mirrors from index i on; `answered` says whether one before i returned. */
  function LegacyLoop<T>(mirrors: seq<string>, fetch: string -> Result<seq<T>>, answered: bool): (r: LegacyOutcome<T>)
    ensures r.Chosen? ==> r.records != []
    ensures r.Chosen? ==> (exists i :: 0 <= i < |mirrors| && mirrors[i] == r.mirror
                                   && fetch(mirrors[i]) == Ok(r.records) && NoneNonEmpty(mirrors, i, fetch))
    ensures !r.Chosen? <==> NoneNonEmpty(mirrors, |mirrors|, fetch)
    ensures r.Unassigned? <==> !answered && forall i :: 0 <= i < |mirrors| ==> fetch(mirrors[i]).Err?
    decreases |mirrors|
  {
    if |mirrors| == 0 then (if answered then LastEmpty else Unassigned)
    else
      var rest := LegacyLoop(mirrors[1..], fetch, answered || fetch(mirrors[0]).Ok?);
      assert forall i :: 0 <= i < |mirrors[1..]| ==> mirrors[1..][i] == mirrors[i + 1];
      assert forall i :: 0 < i <= |mirrors| ==> (NoneNonEmpty(mirrors, i, fetch) <==>
        NoneNonEmpty(mirrors, 1, fetch) && NoneNonEmpty(mirrors[1..], i - 1, fetch));
      match fetch(mirrors[0])
      case Ok(records) =>
        if records != [] then Chosen(mirrors[0], records)
        else
          LegacyShift(mirrors, fetch, rest);
          rest
      case Err(_) =>
        LegacyShift(mirrors, fetch, rest);
        rest
  }

  /** A mirror chosen after a first one without records is chosen for the whole list. */
  lemma LegacyShift<T>(mirrors: seq<string>, fetch: string -> Result<seq<T>>, rest: LegacyOutcome<T>)
    requires |mirrors| > 0 && NoneNonEmpty(mirrors, 1, fetch)
    requires rest.Chosen? ==> (exists i :: 0 <= i < |mirrors[1..]| && mirrors[1..][i] == rest.mirror
                                 && fetch(mirrors[1..][i]) == Ok(rest.records) && NoneNonEmpty(mirrors[1..], i, fetch))
    ensures rest.Chosen? ==> (exists i :: 0 <= i < |mirrors| && mirrors[i] == rest.mirror
                                 && fetch(mirrors[i]) == Ok(rest.records) && NoneNonEmpty(mirrors, i, fetch))
  {
    if rest.Chosen? {
      var i :| 0 <= i < |mirrors[1..]| && mirrors[1..][i] == rest.mirror
        && fetch(mirrors[1..][i]) == Ok(rest.records) && NoneNonEmpty(mirrors[1..], i, fetch);
      assert NoneNonEmpty(mirrors, i + 1, fetch);
    }
  }

  /** None of the first i mirrors returned any record. */
  predicate NoneNonEmpty<T>(mirrors: seq<string>, i: nat, fetch: string -> Result<seq<T>>)
    requires i <= |mirrors|
  {
    forall j :: 0 <= j < i ==> fetch(mirrors[j]).Err? || fetch(mirrors[j]).value == []
  }

  /**
   * The loop of pirate-get.py: `except Exception` catches every error, and
   * an empty result only moves on. `mags` is None while unassigned. After
   * the loop `mirror` holds the last mirror tried (the chosen one, or the
   * list's last), which the description and file-list requests use; it is
   * None only for an empty list.
   */
  method LegacyFailover<T>(mirrors: seq<string>, fetch: string -> Result<seq<T>>)
    returns (mirror: Option<string>, mags: Option<seq<T>>)
    ensures var o := LegacyLoop(mirrors, fetch, false);
      && (o.Chosen? ==> mirror == Some(o.mirror) && mags == Some(o.records))
      && (!o.Chosen? ==> mirror == (if |mirrors| == 0 then None else Some(mirrors[|mirrors| - 1])))
      && (o.LastEmpty? ==> mags == Some([]))
      && (o.Unassigned? ==> mags.None?)
  {
    mirror, mags := None, None;
    var i := 0;
    while i < |mirrors|
      invariant 0 <= i <= |mirrors|
      invariant LegacyLoop(mirrors[i..], fetch, mags.Some?) == LegacyLoop(mirrors, fetch, false)
      invariant mags.Some? ==> mags.value == []
      invariant mirror == (if i == 0 then None else Some(mirrors[i - 1]))
    {
      assert mirrors[i..][0] == mirrors[i] && mirrors[i..][1..] == mirrors[i + 1..];
      mirror := Some(mirrors[i]);
      var r := fetch(mirrors[i]);
      if r.Ok? {
        mags := Some(r.value);
        if r.value != [] {
          return;
        }
      }
      i := i + 1;
    }
  }
}
