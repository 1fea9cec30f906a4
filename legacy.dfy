/**
 * `MyHTMLParser`, the local-database reader that pirate-get-py3.py and
 * pirate-get.py both define: a four-state machine driven by the start tags
 * and the text of the database, which records a magnet for every entry whose
 * title contains the query. The two copies differ only in the percent-encoding
 * function (`urllib.parse.quote` and Python 2's `urllib.quote`), which is a
 * parameter here. Both scripts also share the page-count check of `remote`.
 */
module Legacy {
  import opened Base
  import opened Text
  import opened Url
  import opened Local

  // ---------------------------------------------------------------- the machine

  /** The values of the `state` field: 'looking', 'title', 'matched', 'magnet'. */
  datatype State = Looking | InTitle | Matched | InMagnet

  /** What `feed` hands to the handlers: a start tag's name, or a run of text. */
  datatype Event = StartTag(tag: string) | Data(text: string)

  /** The fields the handlers update. */
  datatype Machine = Machine(state: State, title: string)

  /** One entry of `results`: the magnet, then '?' for the unknown seeds and leeches. */
  function Entry(style: QuoteStyle, data: string, title: string): seq<string> {
    [MagnetPrefix + Quote(style, data) + "&dn=" + Quote(style, title), "?", "?"]
  }

  /** handle_starttag: a title tag always starts a title; a magnet tag counts only after a matching title. */
  function AfterStartTag(s: State, tag: string): State {
    if tag == "title" then InTitle
    else if tag == "magnet" && s == Matched then InMagnet
    else s
  }

  /**
   * handle_data: in a title, keep the title if its lower-cased text contains
   * the query, else go back to looking; in a magnet, go back to looking (the
   * entry is emitted by Emitted).
   */
  function AfterData(m: Machine, q: string, data: string): Machine {
    if m.state == InTitle then
      if Contains(q, Lower(data)) then Machine(Matched, data) else m.(state := Looking)
    else if m.state == InMagnet then m.(state := Looking)
    else m
  }

  function Step(m: Machine, q: string, e: Event): Machine {
    match e
    case StartTag(tag) => m.(state := AfterStartTag(m.state, tag))
    case Data(data) => AfterData(m, q, data)
  }

  /** The entries one event appends: one for the text of a magnet, none otherwise. */
  function Emitted(m: Machine, q: string, style: QuoteStyle, e: Event): seq<seq<string>> {
    if e.Data? && m.state == InMagnet then [Entry(style, e.text, m.title)] else []
  }

  /** The fields after a run of events. */
  function Final(m: Machine, q: string, events: seq<Event>): Machine
    decreases |events|
  {
    if |events| == 0 then m else Final(Step(m, q, events[0]), q, events[1..])
  }

  /** The entries a run of events appends, in order. */
  function Entries(m: Machine, q: string, style: QuoteStyle, events: seq<Event>): seq<seq<string>>
    decreases |events|
  {
    if |events| == 0 then []
    else Emitted(m, q, style, events[0]) + Entries(Step(m, q, events[0]), q, style, events[1..])
  }

  lemma {:induction false} RunSnoc(m: Machine, q: string, style: QuoteStyle, events: seq<Event>, e: Event)
    ensures Final(m, q, events + [e]) == Step(Final(m, q, events), q, e)
    ensures Entries(m, q, style, events + [e]) == Entries(m, q, style, events) + Emitted(Final(m, q, events), q, style, e)
    decreases |events|
  {
    if |events| == 0 {
      assert events + [e] == [e];
      assert [e][1..] == [];
    } else {
      assert (events + [e])[0] == events[0] && (events + [e])[1..] == events[1..] + [e];
      RunSnoc(Step(m, q, events[0]), q, style, events[1..], e);
    }
  }

  // ---------------------------------------------------------------- the class

  /** `results`: a class attribute, so one list shared by every parser. */
  class Results {
    var items: seq<seq<string>>

    constructor()
      ensures items == []
    {
      items := [];
    }
  }

  class Parser {
    const q: string
    const style: QuoteStyle
    const results: Results
    var state: State
    var title: string

    /** `__init__`: the query is lower-cased; `state` and `title` are still the class defaults. */
    constructor(query: string, style: QuoteStyle, results: Results)
      ensures q == Lower(query) && this.style == style && this.results == results
      ensures state == Looking && title == ""
    {
      q := Lower(query);
      this.style := style;
      this.results := results;
      state := Looking;
      title := "";
    }

    function Current(): Machine
      reads this
    {
      Machine(state, title)
    }

    /** A matched title, and the title of a pending magnet, contain the query. */
    predicate Valid()
      reads this
    {
      Consistent(Current(), q)
    }

    method HandleStartTag(tag: string)
      modifies this
      ensures Current() == Step(old(Current()), q, StartTag(tag))
      ensures old(Valid()) ==> Valid()
    {
      if tag == "title" {
        state := InTitle;
      }
      if tag == "magnet" && state == Matched {
        state := InMagnet;
      }
    }

    method HandleData(data: string)
      modifies this, results
      ensures Current() == Step(old(Current()), q, Data(data))
      ensures results.items == old(results.items) + Emitted(old(Current()), q, style, Data(data))
      ensures old(Valid()) ==> Valid()
    {
      if state == InTitle {
        if Contains(q, Lower(data)) {
          title := data;
          state := Matched;
        } else {
          state := Looking;
        }
      }
      if state == InMagnet {
        results.items := results.items + [Entry(style, data, title)];
        state := Looking;
      }
    }

    /** `feed`: the handlers called on each event in document order. */
    method Feed(events: seq<Event>)
      modifies this, results
      ensures Current() == Final(old(Current()), q, events)
      ensures results.items == old(results.items) + Entries(old(Current()), q, style, events)
    {
      var i := 0;
      while i < |events|
        invariant 0 <= i <= |events|
        invariant Current() == Final(old(Current()), q, events[..i])
        invariant results.items == old(results.items) + Entries(old(Current()), q, style, events[..i])
      {
        RunSnoc(old(Current()), q, style, events[..i], events[i]);
        assert events[..i + 1] == events[..i] + [events[i]];
        match events[i] {
          case StartTag(tag) => HandleStartTag(tag);
          case Data(text) => HandleData(text);
        }
        i := i + 1;
      }
      assert events[..i] == events;
    }
  }

  /**
   * `local(args)`: a fresh parser over the database. It returns the shared
   * list, so entries that earlier parsers appended come first.
   */
  method LocalSearch(query: string, style: QuoteStyle, shared: Results, events: seq<Event>)
    returns (r: seq<seq<string>>)
    modifies shared
    ensures r == old(shared.items) + Entries(Machine(Looking, ""), Lower(query), style, events)
  {
    var parser := new Parser(query, style, shared);
    parser.Feed(events);
    r := shared.items;
  }

  // ---------------------------------------------------------------- properties

  /** The invariant of the fields: a title kept for a magnet contains the query. */
  predicate Consistent(m: Machine, q: string) {
    (m.state == Matched || m.state == InMagnet) ==> Contains(q, Lower(m.title))
  }

  /** Every event keeps the invariant. */
  lemma StepConsistent(m: Machine, q: string, e: Event)
    requires Consistent(m, q)
    ensures Consistent(Step(m, q, e), q)
  {
  }

  /** A title tag always starts a title; a magnet tag starts a magnet exactly after a matched title. */
  lemma StartTagRules(m: Machine, q: string, tag: string)
    ensures Step(m, q, StartTag("title")).state == InTitle
    ensures tag == "magnet" ==> (Step(m, q, StartTag(tag)).state == InMagnet <==> m.state == Matched || m.state == InMagnet)
    ensures tag != "title" ==> Step(m, q, StartTag(tag)).title == m.title
  {
  }

  /** An entry for some text under a title that contains the query. */
  ghost predicate MatchedEntry(q: string, style: QuoteStyle, entry: seq<string>) {
    exists data, title :: Contains(q, Lower(title)) && entry == Entry(style, data, title)
  }

  /** Every entry a run appends carries a title that contains the query. */
  lemma {:induction false} EntriesMatchQuery(m: Machine, q: string, style: QuoteStyle, events: seq<Event>)
    requires Consistent(m, q)
    ensures forall k :: 0 <= k < |Entries(m, q, style, events)| ==> MatchedEntry(q, style, Entries(m, q, style, events)[k])
    decreases |events|
  {
    if |events| > 0 {
      var m' := Step(m, q, events[0]);
      StepConsistent(m, q, events[0]);
      EntriesMatchQuery(m', q, style, events[1..]);
      var head := Emitted(m, q, style, events[0]);
      var tail := Entries(m', q, style, events[1..]);
      assert Entries(m, q, style, events) == head + tail;
      forall k | 0 <= k < |head + tail|
        ensures MatchedEntry(q, style, (head + tail)[k])
      {
        if k < |head| {
          assert events[0].Data? && m.state == InMagnet;
          assert Contains(q, Lower(m.title)) && (head + tail)[k] == Entry(style, events[0].text, m.title);
        } else {
          assert (head + tail)[k] == tail[k - |head|];
        }
      }
    }
  }

  /** The number of magnet start tags in a run. */
  function MagnetTags(events: seq<Event>): nat
    decreases |events|
  {
    if |events| == 0 then 0
    else (if events[0] == StartTag("magnet") then 1 else 0) + MagnetTags(events[1..])
  }

  /** At most one entry per magnet tag (plus one for a magnet already open). */
  lemma {:induction false} EntriesBound(m: Machine, q: string, style: QuoteStyle, events: seq<Event>)
    ensures |Entries(m, q, style, events)| <= MagnetTags(events) + (if m.state == InMagnet then 1 else 0)
    decreases |events|
  {
    if |events| > 0 {
      var e := events[0];
      EntriesBound(Step(m, q, e), q, style, events[1..]);
      if e.StartTag? && e.tag == "magnet" {
        assert e == StartTag("magnet");
      }
    }
  }

  /**
   * An entry's magnet splits at '&' into the hash part and the name part,
   * and unquoting each part gives back the text and the title.
   */
  lemma EntryParts(style: QuoteStyle, data: string, title: string)
    requires WellFormedStyle(style) && !style.plus && '&' !in style.safe
    ensures var hash, name := Quote(style, data), Quote(style, title);
      && Split(Entry(style, data, title)[0], '&') == [MagnetPrefix + hash, "dn=" + name]
      && Unquote(hash) == data && Unquote(name) == title
  {
    EntrySplit(style, data, title);
    UnquoteQuote(style, data);
    UnquoteQuote(style, title);
  }

  lemma EntrySplit(style: QuoteStyle, data: string, title: string)
    requires WellFormedStyle(style) && '&' !in style.safe
    ensures Split(Entry(style, data, title)[0], '&') == [MagnetPrefix + Quote(style, data), "dn=" + Quote(style, title)]
  {
    var hash, name := Quote(style, data), Quote(style, title);
    QuotedNoAmp(style, data);
    QuotedNoAmp(style, title);
    MagnetPrefixChars();
    SplitMagnet(MagnetPrefix + hash, name);
  }

  lemma QuotedNoAmp(style: QuoteStyle, s: string)
    requires WellFormedStyle(style) && '&' !in style.safe
    ensures '&' !in Quote(style, s)
  {
    QuoteChars(style, s);
  }

  /** A magnet without other '&' splits into the part before the name and the name parameter. */
  lemma SplitMagnet(x: string, name: string)
    requires '&' !in x && '&' !in name
    ensures Split(x + "&dn=" + name, '&') == [x, "dn=" + name]
  {
    SplitAtDn(x, name);
    assert '&' !in "dn=" + name;
    SplitCons(x, '&', "dn=" + name);
    SplitFree("dn=" + name, '&');
  }

  /** Both dialects meet the conditions of EntryParts. */
  lemma StylesSplit()
    ensures WellFormedStyle(Quote3) && !Quote3.plus && '&' !in Quote3.safe
    ensures WellFormedStyle(Quote2) && !Quote2.plus && '&' !in Quote2.safe
  {
  }

  // ---------------------------------------------------------------- page count

  const PagesMessage: string := "Please provide an integer greater than 0 for the number of pages to fetch."

  /**
   * `int(args.pages)`, then `< 1`, inside `try ... except Exception`: any
   * failure becomes one Exception with the message above.
   */
  function PageCount(arg: string): (r: Result<nat>)
    ensures r.Ok? <==> ParseInt(arg).Some? && ParseInt(arg).value >= 1
    ensures r.Ok? ==> r.value == ParseInt(arg).value
    ensures r.Err? ==> r.error == Exception(PagesMessage)
  {
    match ParseInt(arg)
    case None => Err(Exception(PagesMessage))
    case Some(n) => if n < 1 then Err(Exception(PagesMessage)) else Ok(n)
  }

  /** The default of `-p`, and the count of any positive number written out. */
  lemma PageCountOf(n: nat)
    requires n >= 1
    ensures PageCount(IntToString(n)) == Ok(n)
  {
    ParseIntToString(n);
  }
}
