/**
 * Category and sort resolution and request-path building of
 * pirate/torrent.py.
 */
module Torrent {
  import opened Base
  import opened Text
  import opened Url

  // ---------------------------------------------------------------- category and sort

  /** A resolved site code, and whether the "Invalid ... ignored" warning was printed. */
  datatype Resolution = Resolution(code: int, warned: bool)

  /** The fallback codes of parse_category and parse_sort. */
  const AllCategories: int := 0
  const DefaultSort: int := 99

  /**
   * The shared rule of parse_category and parse_sort, given the name-to-code
   * table: the input is first read as an int; a known code is kept, a known
   * name (only when the input is not an int) is mapped, anything else falls
   * back with a warning. It never fails.
   */
  function Resolve(table: map<string, int>, input: string, fallback: int): (r: Resolution)
    ensures r.warned ==> r.code == fallback
    ensures !r.warned ==> r.code in table.Values
    ensures ParseInt(input).Some? && ParseInt(input).value in table.Values ==>
              r == Resolution(ParseInt(input).value, false)
    ensures ParseInt(input).None? && input in table ==> r == Resolution(table[input], false)
    ensures r.warned <==> if ParseInt(input).Some? then ParseInt(input).value !in table.Values else input !in table
  {
    match ParseInt(input)
    case Some(n) =>
      if n in table.Values then Resolution(n, false) else Resolution(fallback, true)
    case None =>
      if input in table then Resolution(table[input], false) else Resolution(fallback, true)
  }

  function ParseCategory(categories: map<string, int>, category: string): Resolution {
    Resolve(categories, category, AllCategories)
  }

  function ParseSort(sorts: map<string, int>, sort: string): Resolution {
    Resolve(sorts, sort, DefaultSort)
  }

  /** A known code, written the way `str` writes it, resolves to itself. */
  lemma ResolveKnownCode(table: map<string, int>, n: int, fallback: int)
    requires n in table.Values
    ensures Resolve(table, IntToString(n), fallback) == Resolution(n, false)
  {
    ParseIntToString(n);
  }

  /** A name that is not an integer resolves to its table entry, without warning. */
  lemma ResolveKnownName(table: map<string, int>, name: string, fallback: int)
    requires name in table && ParseInt(name).None?
    ensures Resolve(table, name, fallback) == Resolution(table[name], false)
  {
  }

  /**
   * Resolution warns exactly when the input is neither a known code nor a
   * known name; an integer that is no code is never looked up as a name.
   */
  lemma ResolveWarns(table: map<string, int>, input: string, fallback: int)
    ensures Resolve(table, input, fallback).warned <==>
      match ParseInt(input)
      case Some(n) => n !in table.Values
      case None => input !in table
  {
  }

  /** The unit-test vectors of parse_category, for any table holding the pinned entries. */
  lemma ParseCategoryVectors(categories: map<string, int>)
    requires "Audio" in categories && categories["Audio"] == 100
    requires "Video" in categories && categories["Video"] == 200
    requires "asdf" !in categories && 9001 !in categories.Values
    ensures ParseCategory(categories, "Audio") == Resolution(100, false)
    ensures ParseCategory(categories, "Video") == Resolution(200, false)
    ensures ParseCategory(categories, "100") == Resolution(100, false)
    ensures ParseCategory(categories, "asdf") == Resolution(0, true)
    ensures ParseCategory(categories, "9001") == Resolution(0, true)
  {
    NotAnInt("Audio");
    NotAnInt("Video");
    NotAnInt("asdf");
    assert categories["Audio"] in categories.Values;
    ResolveKnownCode(categories, 100, 0);
    Literal100();
    ParseIntToString(9001);
    Literal9001();
  }

  /** The unit-test vectors of parse_sort. */
  lemma ParseSortVectors(sorts: map<string, int>)
    requires "SeedersDsc" in sorts && sorts["SeedersDsc"] == 7
    requires "asdf" !in sorts && 7000 !in sorts.Values
    ensures ParseSort(sorts, "SeedersDsc") == Resolution(7, false)
    ensures ParseSort(sorts, "7") == Resolution(7, false)
    ensures ParseSort(sorts, "asdf") == Resolution(99, true)
    ensures ParseSort(sorts, "7000") == Resolution(99, true)
  {
    NotAnInt("SeedersDsc");
    NotAnInt("asdf");
    assert sorts["SeedersDsc"] in sorts.Values;
    ResolveKnownCode(sorts, 7, 99);
    assert IntToString(7) == "7";
    ParseIntToString(7000);
    Literal7000();
  }

  lemma Literal100()
    ensures IntToString(100) == "100"
  {
    assert NatToString(10) == NatToString(1) + ['0'];
  }

  lemma Literal9001()
    ensures IntToString(9001) == "9001"
  {
    assert NatToString(90) == NatToString(9) + ['0'];
    assert NatToString(900) == NatToString(90) + ['0'];
  }

  lemma Literal7000()
    ensures IntToString(7000) == "7000"
  {
    assert NatToString(70) == NatToString(7) + ['0'];
    assert NatToString(700) == NatToString(70) + ['0'];
  }

  /** A word that starts with a letter is not an int. */
  lemma NotAnInt(s: string)
    requires |s| > 0 && ('A' <= s[0] <= 'Z' || 'a' <= s[0] <= 'z')
    ensures ParseInt(s).None?
  {
    assert !IsSpace(s[0]);
    assert LeadingSpaces(s) == 0;
    var t := Strip(s);
    assert t[0] == s[0];
  }

  // ---------------------------------------------------------------- request paths

  /** The request a path stands for, as a decoder of paths reads it back. */
  datatype Request =
    | Browse(category: int, page: int, sort: int)
    | Recent(category: int)
    | Top(category: int)
    | Search(query: string, page: int, sort: int, category: int)

  /** `'all'` for category 0, else `str(category)`. */
  function CategorySegment(category: int): string {
    if category == 0 then "all" else IntToString(category)
  }

  /** build_request_path; an unknown mode raises Exception('Unknown mode.'). */
  function BuildRequestPath(page: int, category: int, sort: int, mode: string, terms: seq<string>): (r: Result<string>)
    ensures r.Err? <==> mode !in {"browse", "recent", "top", "search"}
    ensures r.Err? ==> r.error == Exception("Unknown mode.")
  {
    if mode == "browse" then
      var c := if category == 0 then 100 else category;
      Ok("/browse/" + IntToString(c) + "/" + IntToString(page) + "/" + IntToString(sort))
    else if mode == "recent" then
      // no '/' between "48h" and the category
      Ok("/top/48h" + CategorySegment(category))
    else if mode == "top" then
      Ok("/top/" + CategorySegment(category))
    else if mode == "search" then
      var query := Quote(QuotePlus3, Join(" ", terms));
      Ok("/search/" + query + "/" + IntToString(page) + "/" + IntToString(sort) + "/" + IntToString(category))
    else
      Err(Exception("Unknown mode."))
  }

  /** Reads a category segment back; `'all'` is category 0. */
  function ParseCategorySegment(s: string): Option<int> {
    if s == "all" then Some(0) else ParseInt(s)
  }

  /** Reading a path back into the request it asks for; the partner of BuildRequestPath. */
  function ParsePath(path: string): Option<Request> {
    ParseSegments(Split(path, '/'))
  }

  function ParseSegments(parts: seq<string>): Option<Request> {
    if |parts| == 5 && parts[0] == "" && parts[1] == "browse" then
      match (ParseInt(parts[2]), ParseInt(parts[3]), ParseInt(parts[4]))
      case (Some(c), Some(p), Some(s)) => Some(Browse(c, p, s))
      case _ => None
    else if |parts| == 3 && parts[0] == "" && parts[1] == "top" then
      if |parts[2]| >= 3 && parts[2][..3] == "48h" then
        match ParseCategorySegment(parts[2][3..])
        case Some(c) => Some(Recent(c))
        case None => None
      else
        match ParseCategorySegment(parts[2])
        case Some(c) => Some(Top(c))
        case None => None
    else if |parts| == 6 && parts[0] == "" && parts[1] == "search" then
      match (ParseInt(parts[3]), ParseInt(parts[4]), ParseInt(parts[5]))
      case (Some(p), Some(s), Some(c)) => Some(Search(UnquotePlus(parts[2]), p, s, c))
      case _ => None
    else None
  }

  /**
   * What a built path asks for: browse shows category 0 as 100; recent and top
   * keep only the category; search keeps the space-joined terms, page, sort
   * and category.
   */
  function Intended(page: int, category: int, sort: int, mode: string, terms: seq<string>): Option<Request> {
    if mode == "browse" then Some(Browse(if category == 0 then 100 else category, page, sort))
    else if mode == "recent" then Some(Recent(category))
    else if mode == "top" then Some(Top(category))
    else if mode == "search" then Some(Search(Join(" ", terms), page, sort, category))
    else None
  }

  lemma IntSegment(n: int)
    ensures '/' !in IntToString(n) && 'h' !in IntToString(n)
    ensures ParseInt(IntToString(n)) == Some(n)
  {
    IntToStringChars(n);
    ParseIntToString(n);
  }

  lemma CategorySegmentRoundTrip(c: int)
    ensures '/' !in CategorySegment(c)
    ensures ParseCategorySegment(CategorySegment(c)) == Some(c)
    ensures |CategorySegment(c)| >= 3 ==> CategorySegment(c)[..3] != "48h"
  {
    IntSegment(c);
    if c == 0 {
      assert "all"[0] != "48h"[0];
    } else {
      var s := IntToString(c);
      if |s| >= 3 {
        assert s[..3][2] == s[2] && s[2] in s;
      }
      assert "all" != s by {
        assert "all"[0] !in s;
      }
    }
  }

  /** Every built path reads back as the request the caller asked for. */
  lemma BuildThenParse(page: int, category: int, sort: int, mode: string, terms: seq<string>)
    requires BuildRequestPath(page, category, sort, mode, terms).Ok?
    ensures ParsePath(BuildRequestPath(page, category, sort, mode, terms).value) == Intended(page, category, sort, mode, terms)
  {
    if mode == "browse" {
      BrowseThenParse(page, category, sort);
    } else if mode == "recent" {
      TopThenParse(category, true);
    } else if mode == "top" {
      TopThenParse(category, false);
    } else {
      SearchThenParse(page, category, sort, terms);
    }
  }

  lemma BrowseSegments(a: string, b: string, c: string)
    ensures "/browse/" + a + "/" + b + "/" + c == Join("/", ["", "browse", a, b, c])
  {
    var p := ["", "browse", a, b, c];
    assert p[1..][1..][1..][1..] == [c];
    assert Join("/", p[1..][1..][1..]) == b + "/" + c;
    assert Join("/", p[1..][1..]) == a + "/" + (b + "/" + c);
    assert Join("/", p[1..]) == "browse" + "/" + (a + "/" + (b + "/" + c));
    assert Join("/", p) == "" + "/" + ("browse" + "/" + (a + "/" + (b + "/" + c)));
  }

  lemma TopSegments(last: string)
    ensures "/top/" + last == Join("/", ["", "top", last])
  {
    var p := ["", "top", last];
    assert p[1..][1..] == [last];
    assert Join("/", p[1..]) == "top" + "/" + last;
    assert Join("/", p) == "" + "/" + ("top" + "/" + last);
  }

  lemma SearchSegments(q: string, a: string, b: string, c: string)
    ensures "/search/" + q + "/" + a + "/" + b + "/" + c == Join("/", ["", "search", q, a, b, c])
  {
    var p := ["", "search"];
    assert Join("/", p) + "/" == "/search/";
    JoinSnoc("/", p, q);
    JoinSnoc("/", p + [q], a);
    JoinSnoc("/", p + [q] + [a], b);
    JoinSnoc("/", p + [q] + [a] + [b], c);
    assert p + [q] + [a] + [b] + [c] == ["", "search", q, a, b, c];
    Assoc(Join("/", p), "/", q);
  }

  lemma SplitFive(a: string, b: string, c: string, d: string, e: string)
    requires '/' !in a && '/' !in b && '/' !in c && '/' !in d && '/' !in e
    ensures Split(Join("/", [a, b, c, d, e]), '/') == [a, b, c, d, e]
  {
    var parts := [a, b, c, d, e];
    forall k | 0 <= k < |parts| ensures '/' !in parts[k] {
    }
    SplitJoin(parts, '/');
  }

  lemma SplitSix(a: string, b: string, c: string, d: string, e: string, f: string)
    requires '/' !in a && '/' !in b && '/' !in c && '/' !in d && '/' !in e && '/' !in f
    ensures Split(Join("/", [a, b, c, d, e, f]), '/') == [a, b, c, d, e, f]
  {
    var parts := [a, b, c, d, e, f];
    forall k | 0 <= k < |parts| ensures '/' !in parts[k] {
    }
    SplitJoin(parts, '/');
  }

  lemma BrowseThenParse(page: int, category: int, sort: int)
    ensures ParsePath(BuildRequestPath(page, category, sort, "browse", []).value)
         == Some(Browse(if category == 0 then 100 else category, page, sort))
  {
    var c := if category == 0 then 100 else category;
    var path := BuildRequestPath(page, category, sort, "browse", []).value;
    BrowseAsJoin(c, page, sort, path);
    BrowseSplit(c, page, sort, path);
    ParseBrowse(c, page, sort);
  }

  lemma BrowseAsJoin(c: int, page: int, sort: int, path: string)
    requires path == "/browse/" + IntToString(c) + "/" + IntToString(page) + "/" + IntToString(sort)
    ensures path == Join("/", ["", "browse", IntToString(c), IntToString(page), IntToString(sort)])
  {
    BrowseSegments(IntToString(c), IntToString(page), IntToString(sort));
  }

  lemma BrowseSplit(c: int, page: int, sort: int, path: string)
    requires path == Join("/", ["", "browse", IntToString(c), IntToString(page), IntToString(sort)])
    ensures Split(path, '/') == ["", "browse", IntToString(c), IntToString(page), IntToString(sort)]
  {
    IntSegment(c); IntSegment(page); IntSegment(sort);
    assert '/' !in "browse";
    SplitFive("", "browse", IntToString(c), IntToString(page), IntToString(sort));
  }

  lemma ParseBrowse(c: int, p: int, s: int)
    ensures ParseSegments(["", "browse", IntToString(c), IntToString(p), IntToString(s)]) == Some(Browse(c, p, s))
  {
    IntSegment(c); IntSegment(p); IntSegment(s);
  }

  lemma TopThenParse(category: int, recent: bool)
    ensures ParsePath(BuildRequestPath(0, category, 0, if recent then "recent" else "top", []).value)
         == Some(if recent then Recent(category) else Top(category))
  {
    var seg := CategorySegment(category);
    var last := if recent then "48h" + seg else seg;
    TopPath(category, recent);
    CategorySegmentRoundTrip(category);
    assert '/' !in last by {
      assert "48h" + seg == ['4', '8', 'h'] + seg;
    }
    TopSegments(last);
    assert '/' !in "top";
    SplitThree("", "top", last);
    ParseTop(category, recent);
  }

  lemma TopPath(category: int, recent: bool)
    ensures var seg := CategorySegment(category);
      BuildRequestPath(0, category, 0, if recent then "recent" else "top", []).value
      == "/top/" + (if recent then "48h" + seg else seg)
  {
    ModeNames();
    if recent {
      assert "/top/48h" == "/top/" + "48h";
      Assoc("/top/", "48h", CategorySegment(category));
    }
  }

  lemma SplitThree(a: string, b: string, c: string)
    requires '/' !in a && '/' !in b && '/' !in c
    ensures Split(Join("/", [a, b, c]), '/') == [a, b, c]
  {
    var parts := [a, b, c];
    forall k | 0 <= k < |parts| ensures '/' !in parts[k] {
    }
    SplitJoin(parts, '/');
  }

  lemma ParseTop(c: int, recent: bool)
    ensures ParseSegments(["", "top", if recent then "48h" + CategorySegment(c) else CategorySegment(c)])
         == Some(if recent then Recent(c) else Top(c))
  {
    CategorySegmentRoundTrip(c);
    if recent {
      var last := "48h" + CategorySegment(c);
      assert last[..3] == "48h" && last[3..] == CategorySegment(c);
    }
  }

  lemma SearchThenParse(page: int, category: int, sort: int, terms: seq<string>)
    ensures ParsePath(BuildRequestPath(page, category, sort, "search", terms).value)
         == Some(Search(Join(" ", terms), page, sort, category))
  {
    ModeNames();
    var q := Quote(QuotePlus3, Join(" ", terms));
    var path := BuildRequestPath(page, category, sort, "search", terms).value;
    SearchAsJoin(q, page, sort, category, path);
    QuotePlusNoSlash(Join(" ", terms));
    SearchSplit(q, page, sort, category, path);
    ParseSearch(Join(" ", terms), page, sort, category);
  }

  lemma SearchAsJoin(q: string, page: int, sort: int, category: int, path: string)
    requires path == "/search/" + q + "/" + IntToString(page) + "/" + IntToString(sort) + "/" + IntToString(category)
    ensures path == Join("/", ["", "search", q, IntToString(page), IntToString(sort), IntToString(category)])
  {
    SearchSegments(q, IntToString(page), IntToString(sort), IntToString(category));
  }

  lemma SearchSplit(q: string, page: int, sort: int, category: int, path: string)
    requires '/' !in q
    requires path == Join("/", ["", "search", q, IntToString(page), IntToString(sort), IntToString(category)])
    ensures Split(path, '/') == ["", "search", q, IntToString(page), IntToString(sort), IntToString(category)]
  {
    IntSegment(page); IntSegment(sort); IntSegment(category);
    assert '/' !in "search";
    SplitSix("", "search", q, IntToString(page), IntToString(sort), IntToString(category));
  }

  lemma ParseSearch(query: string, p: int, s: int, c: int)
    ensures ParseSegments(["", "search", Quote(QuotePlus3, query), IntToString(p), IntToString(s), IntToString(c)])
         == Some(Search(query, p, s, c))
  {
    IntSegment(c); IntSegment(p); IntSegment(s);
    QuotePlusRoundTrip(query);
  }

  /** The unit-test vectors of build_request_path. */
  lemma BrowseVectors()
    ensures BuildRequestPath(0, 100, 10, "browse", []) == Ok("/browse/100/0/10")
    ensures BuildRequestPath(0, 0, 10, "browse", []) == Ok("/browse/100/0/10")
  {
    Literal100();
    Literal10();
    assert BuildRequestPath(0, 100, 10, "browse", []).value == "/browse/100/0/10";
    assert BuildRequestPath(0, 0, 10, "browse", []).value == "/browse/100/0/10";
  }

  lemma TopVectors()
    ensures BuildRequestPath(0, 0, 10, "recent", []) == Ok("/top/48hall")
    ensures BuildRequestPath(0, 100, 10, "recent", []) == Ok("/top/48h100")
    ensures BuildRequestPath(0, 100, 10, "top", []) == Ok("/top/100")
    ensures BuildRequestPath(0, 0, 10, "top", []) == Ok("/top/all")
    ensures BuildRequestPath(0, 100, 10, "asdf", []).Err?
  {
    ModeNames();
    Literal100();
    assert BuildRequestPath(0, 0, 10, "recent", []).value == "/top/48hall";
    assert BuildRequestPath(0, 100, 10, "recent", []).value == "/top/48h100";
    assert BuildRequestPath(0, 100, 10, "top", []).value == "/top/100";
    assert BuildRequestPath(0, 0, 10, "top", []).value == "/top/all";
  }

  /** The unit-test vectors of build_request_path for a search. */
  lemma SearchVectorAbc()
    ensures BuildRequestPath(0, 100, 10, "search", ["abc"]) == Ok("/search/" + "abc" + "/0/10/100")
  {
    SearchVector(["abc"]);
    QuoteAbc();
  }

  lemma SearchVectorAbcDef()
    ensures BuildRequestPath(0, 100, 10, "search", ["abc", "def"]) == Ok("/search/" + "abc+def" + "/0/10/100")
  {
    SearchVector(["abc", "def"]);
    assert Join(" ", ["abc", "def"]) == "abc def";
    QuoteAbcDef();
  }

  lemma SearchVectorU1234()
    ensures BuildRequestPath(0, 100, 10, "search", ["ሴ"]) == Ok("/search/" + "%E1%88%B4" + "/0/10/100")
  {
    SearchVector(["ሴ"]);
    QuoteU1234();
  }

  lemma SearchVector(terms: seq<string>)
    ensures BuildRequestPath(0, 100, 10, "search", terms)
         == Ok("/search/" + Quote(QuotePlus3, Join(" ", terms)) + "/0/10/100")
  {
    ModeNames();
    Literal100();
    Literal10();
    assert BuildRequestPath(0, 100, 10, "search", terms).value
        == "/search/" + Quote(QuotePlus3, Join(" ", terms)) + "/0/10/100";
  }

  lemma QuoteAbc()
    ensures Quote(QuotePlus3, "abc") == "abc"
  {
    QuoteSafe(QuotePlus3, "abc");
  }

  lemma QuoteAbcDef()
    ensures Quote(QuotePlus3, "abc def") == "abc+def"
  {
    QuoteSafe(QuotePlus3, "abc");
    QuoteSafe(QuotePlus3, "def");
    assert Quote(QuotePlus3, " ") == "+";
    assert "abc def" == "abc" + " " + "def";
    QuoteAppend(QuotePlus3, "abc" + " ", "def");
    QuoteAppend(QuotePlus3, "abc", " ");
    assert "abc" + "+" + "def" == "abc+def";
  }

  /** quote_plus('\u1234') is the three UTF-8 octets E1 88 B4, percent-encoded. */
  lemma QuoteU1234()
    ensures Quote(QuotePlus3, "ሴ") == "%E1%88%B4"
  {
    var c := 'ሴ';
    assert c as int == 0x1234;
    assert Utf8Char(c) == [0xE1, 0x88, 0xB4];
    assert PercentByte(0xE1) == "%E1" by { assert HexDigits[14] == 'E' && HexDigits[1] == '1'; }
    assert PercentByte(0x88) == "%88" by { assert HexDigits[8] == '8'; }
    assert PercentByte(0xB4) == "%B4" by { assert HexDigits[11] == 'B' && HexDigits[4] == '4'; }
    var bs: seq<byte> := [0xE1, 0x88, 0xB4];
    assert bs[1..][1..][1..] == [];
    assert PercentBytes(bs) == PercentByte(0xE1) + (PercentByte(0x88) + (PercentByte(0xB4) + ""));
    assert QuoteChar(QuotePlus3, c) == "%E1%88%B4";
    assert Quote(QuotePlus3, "ሴ") == QuoteChar(QuotePlus3, c) + Quote(QuotePlus3, "");
  }

  lemma Literal10()
    ensures IntToString(10) == "10"
  {
    assert NatToString(10) == NatToString(1) + ['0'];
  }

  /** The four mode names differ from each other and from "asdf". */
  lemma ModeNames()
    ensures "browse" != "recent" && "browse" != "top" && "browse" != "search"
    ensures "recent" != "top" && "recent" != "search" && "top" != "search"
    ensures "asdf" !in {"browse", "recent", "top", "search"}
  {
    assert "browse"[0] == 'b' && "recent"[0] == 'r' && "top"[0] == 't' && "search"[0] == 's';
    assert "asdf"[0] == 'a';
  }
}
