/**
 * `parse_cmd` in pirate/pirate.py: the user's open command is cut into
 * arguments by the pattern `(('[^']*'|"[^"]*"|(\\\s|[^\s])+)+ *)`, each
 * argument is stripped, every `%s` in it becomes the magnet URL, and one
 * layer of matching outer quotes is removed.
 */
module Command {
  import opened Base
  import opened Text

  predicate IsQuote(c: char) { c == '\'' || c == '"' }

  /** `'[^']*'` or `"[^"]*"` at the start of s: its length, or 0 when there is no closing quote. */
  function QuotedLen(s: string): (n: nat)
    ensures n <= |s|
    ensures n > 0 ==> n >= 2 && IsQuote(s[0]) && s[n - 1] == s[0]
  {
    if |s| > 0 && IsQuote(s[0]) && IndexOf(s[1..], s[0]) < |s| - 1 then IndexOf(s[1..], s[0]) + 2 else 0
  }

  /** `(\\\s|[^\s])+` at the start of s, greedily: non-whitespace and backslash-escaped whitespace. */
  function RunLen(s: string): (n: nat)
    ensures n <= |s|
    decreases |s|
  {
    if |s| >= 2 && s[0] == '\\' && IsSpace(s[1]) then 2 + RunLen(s[2..])
    else if |s| > 0 && !IsSpace(s[0]) then 1 + RunLen(s[1..])
    else 0
  }

  /** One repetition of the group: the quoted alternatives are tried first. */
  function ElemLen(s: string): (n: nat)
    ensures n <= |s|
    ensures |s| > 0 && !IsSpace(s[0]) ==> n > 0
  {
    if QuotedLen(s) > 0 then QuotedLen(s) else RunLen(s)
  }

  /** The group repeated as often as it matches. */
  function ElemsLen(s: string): (n: nat)
    ensures n <= |s|
    decreases |s|
  {
    var e := ElemLen(s);
    if e == 0 then 0 else e + ElemsLen(s[e..])
  }

  /** ` *`: the spaces that follow. */
  function SpacesLen(s: string): (n: nat)
    ensures n <= |s|
    decreases |s|
  {
    if |s| > 0 && s[0] == ' ' then 1 + SpacesLen(s[1..]) else 0
  }

  /**
   * `re.findall(pattern, cmd)`, the whole-match group: the matches from left
   * to right; a position where the pattern cannot start is passed over.
   */
  function RawTokens(cmd: string): (r: seq<string>)
    ensures forall k :: 0 <= k < |r| ==> |r[k]| > 0
    decreases |cmd|
  {
    if |cmd| == 0 then []
    else
      var e := ElemsLen(cmd);
      if e == 0 then RawTokens(cmd[1..])
      else
        var n := e + SpacesLen(cmd[e..]);
        [cmd[..n]] + RawTokens(cmd[n..])
  }

  /** Removing one layer of matching outer quotes; an empty item raises IndexError at `item[0]`. */
  function Dequote(item: string): (r: Result<string>)
    ensures r.Err? <==> item == ""
    ensures r.Ok? && IsQuote(item[0]) && item[|item| - 1] == item[0] ==>
              (|item| == 1 && r.value == "") || (|item| >= 2 && r.value == item[1..|item| - 1])
    ensures r.Ok? && !(IsQuote(item[0]) && item[|item| - 1] == item[0]) ==> r.value == item
  {
    if |item| == 0 then Err(IndexError)
    else if IsQuote(item[0]) && item[|item| - 1] == item[0] then
      Ok(if |item| == 1 then "" else item[1..|item| - 1])
    else Ok(item)
  }

  /** One argument: strip, substitute the URL for every `%s`, dequote. */
  function Argument(raw: string, url: string): Result<string> {
    Dequote(Replace(Strip(raw), "%s", url))
  }

  /** args are the arguments of the matches raws, one for one and in order. */
  predicate ArgumentsOf(raws: seq<string>, url: string, args: seq<string>) {
    |args| == |raws| && forall k :: 0 <= k < |raws| ==> Argument(raws[k], url) == Ok(args[k])
  }

  /** The argument of some match raises. */
  predicate SomeRaises(raws: seq<string>, url: string) {
    exists k :: 0 <= k < |raws| && Argument(raws[k], url).Err?
  }

  /**
   * The arguments of the matches in order: argument k is match k processed;
   * the list raises IndexError exactly when some match's argument does.
   */
  function Arguments(raws: seq<string>, url: string): (r: Result<seq<string>>)
    ensures r.Ok? ==> ArgumentsOf(raws, url, r.value)
    ensures r.Err? <==> SomeRaises(raws, url)
    ensures r.Err? ==> r.error == IndexError
    decreases |raws|
  {
    if |raws| == 0 then Ok([])
    else
      match Argument(raws[0], url)
      case Err(e) => Err(e)
      case Ok(a) =>
        match Arguments(raws[1..], url)
        case Err(e) =>
          var k :| 0 <= k < |raws[1..]| && Argument(raws[1..][k], url).Err?;
          assert raws[1..][k] == raws[k + 1];
          Err(e)
        case Ok(rest) =>
          assert forall k :: 0 < k < |raws| ==> raws[k] == raws[1..][k - 1];
          Ok([a] + rest)
  }

  /** parse_cmd: one argument per match, in command order, or IndexError when one of them raises. */
  function ParseCmd(cmd: string, url: string): (r: Result<seq<string>>)
    ensures r.Ok? ==> ArgumentsOf(RawTokens(cmd), url, r.value)
    ensures r.Err? <==> SomeRaises(RawTokens(cmd), url)
    ensures r.Err? ==> r.error == IndexError
  {
    Arguments(RawTokens(cmd), url)
  }

  // ---------------------------------------------------------------- properties

  /** A plain word: no whitespace, no quote, no backslash. */
  predicate Plain(w: string) {
    |w| > 0 && forall i :: 0 <= i < |w| ==> !IsSpace(w[i]) && !IsQuote(w[i]) && w[i] != '\\'
  }

  lemma {:induction false} RunOfPlain(w: string, rest: string)
    requires forall i :: 0 <= i < |w| ==> !IsSpace(w[i]) && w[i] != '\\'
    requires |rest| > 0 && IsSpace(rest[0])
    ensures RunLen(w + rest) == |w|
    decreases |w|
  {
    if |w| > 0 {
      assert (w + rest)[1..] == w[1..] + rest;
      RunOfPlain(w[1..], rest);
    } else {
      assert w + rest == rest;
    }
  }

  lemma {:induction false} RunOfPlainEnd(w: string)
    requires forall i :: 0 <= i < |w| ==> !IsSpace(w[i]) && w[i] != '\\'
    ensures RunLen(w) == |w|
    decreases |w|
  {
    if |w| > 0 {
      RunOfPlainEnd(w[1..]);
    }
  }

  /** A plain word followed by one space and more text is one match, space included. */
  lemma WordToken(w: string, rest: string)
    requires Plain(w)
    requires |rest| > 0 && !IsSpace(rest[0])
    ensures RawTokens(w + " " + rest) == [w + " "] + RawTokens(rest)
  {
    var s := w + " " + rest;
    assert s == w + (" " + rest);
    RunOfPlain(w, " " + rest);
    assert QuotedLen(s) == 0;
    assert ElemLen(s) == |w|;
    assert s[|w|..] == " " + rest;
    assert ElemLen(" " + rest) == 0;
    assert ElemsLen(s) == |w|;
    assert (" " + rest)[1..] == rest;
    assert SpacesLen(" " + rest) == 1;
    assert s[..|w| + 1] == w + " " && s[|w| + 1..] == rest;
  }

  /** A plain word alone is one match. */
  lemma LastWordToken(w: string)
    requires Plain(w)
    ensures RawTokens(w) == [w]
  {
    RunOfPlainEnd(w);
    assert QuotedLen(w) == 0;
    assert w[|w|..] == "";
    assert ElemsLen(w) == |w|;
    assert w[..|w|] == w;
  }

  /** A quoted stretch is one match, whatever it holds besides its own quote character. */
  lemma QuotedToken(q: char, x: string)
    requires IsQuote(q) && q !in x
    ensures RawTokens([q] + x + [q]) == [[q] + x + [q]]
  {
    var s := [q] + x + [q];
    assert s[1..] == x + [q];
    assert IndexOf(x + [q], q) == |x| by {
      IndexOfAbsent(x, q);
    }
    assert QuotedLen(s) == |s|;
    assert s[|s|..] == "";
    assert ElemsLen(s) == |s|;
    assert s[..|s|] == s;
  }

  lemma {:induction false} IndexOfAbsent(x: string, q: char)
    requires q !in x
    ensures IndexOf(x + [q], q) == |x|
    decreases |x|
  {
    if |x| > 0 {
      assert (x + [q])[1..] == x[1..] + [q];
      IndexOfAbsent(x[1..], q);
    }
  }

  /** Each word's match: the word and the one space after it. */
  function Spaced(words: seq<string>): (r: seq<string>)
    ensures |r| == |words|
    decreases |words|
  {
    if |words| == 0 then [] else [words[0] + " "] + Spaced(words[1..])
  }

  /** Each word with the URL for each `%s`. */
  function Substituted(words: seq<string>, url: string): (r: seq<string>)
    ensures |r| == |words|
    decreases |words|
  {
    if |words| == 0 then [] else [Replace(words[0], "%s", url)] + Substituted(words[1..], url)
  }

  /** Space-separated plain words, then the tail: the words' matches come first, in order. */
  lemma {:induction false} WordsTokens(words: seq<string>, rest: string)
    requires forall k :: 0 <= k < |words| ==> Plain(words[k])
    requires |rest| > 0 && !IsSpace(rest[0])
    ensures RawTokens(Join(" ", words + [rest])) == Spaced(words) + RawTokens(rest)
    decreases |words|
  {
    if |words| > 0 {
      var tail := Join(" ", words[1..] + [rest]);
      assert words + [rest] == [words[0]] + (words[1..] + [rest]);
      JoinCons(" ", words[0], words[1..] + [rest]);
      JoinFirst(words[1..], rest);
      WordToken(words[0], tail);
      WordsTokens(words[1..], rest);
      Assoc([words[0] + " "], Spaced(words[1..]), RawTokens(rest));
    } else {
      assert words + [rest] == [rest];
    }
  }

  lemma JoinFirst(words: seq<string>, rest: string)
    requires forall k :: 0 <= k < |words| ==> Plain(words[k])
    requires |rest| > 0 && !IsSpace(rest[0])
    ensures var j := Join(" ", words + [rest]); |j| > 0 && !IsSpace(j[0])
  {
    if |words| > 0 {
      assert (words + [rest])[0] == words[0];
      assert words[0][0] == Join(" ", words + [rest])[0];
    } else {
      assert words + [rest] == [rest];
    }
  }

  /** Strip keeps a string that starts and ends with a non-space. */
  lemma StripEnds(s: string)
    requires |s| > 0 && !IsSpace(s[0]) && !IsSpace(s[|s| - 1])
    ensures Strip(s) == s
  {
  }

  lemma StripWordSpace(w: string)
    requires Plain(w)
    ensures Strip(w + " ") == w
  {
    var s := w + " ";
    assert s[..|s| - 1] == w;
    assert TrailingSpaces(s) == 1;
  }

  /** The characters of a replacement come from the string or from the replacement text. */
  lemma {:induction false} ReplaceChars(s: string, pat: string, rep: string)
    requires |pat| > 0
    ensures forall c :: c in Replace(s, pat, rep) ==> c in s || c in rep
    ensures |s| > 0 && |rep| > 0 ==> |Replace(s, pat, rep)| > 0
    decreases |s|
  {
    if |s| >= |pat| {
      if s[..|pat|] == pat {
        ReplaceChars(s[|pat|..], pat, rep);
        forall c | c in s[|pat|..] ensures c in s {
          var i :| 0 <= i < |s[|pat|..]| && s[|pat|..][i] == c;
          assert s[|pat| + i] == c;
        }
      } else {
        ReplaceChars(s[1..], pat, rep);
      }
    }
  }

  /** A plain word is passed on with the URL for each `%s`. */
  lemma PlainArgument(w: string, url: string, spaced: bool)
    requires Plain(w)
    requires |url| > 0 && forall i :: 0 <= i < |url| ==> !IsQuote(url[i])
    ensures Argument(if spaced then w + " " else w, url) == Ok(Replace(w, "%s", url))
  {
    if spaced {
      StripWordSpace(w);
    } else {
      StripEnds(w);
    }
    ReplaceChars(w, "%s", url);
    var r := Replace(w, "%s", url);
    assert r[0] in r;
    assert !IsQuote(r[0]);
  }

  /** A quoted argument loses its outer quotes and keeps whatever it holds, with the URL for each `%s`. */
  lemma QuotedArgument(q: char, x: string, url: string)
    requires IsQuote(q) && q !in x
    ensures Argument([q] + x + [q], url) == Ok(Replace(x, "%s", url))
  {
    var s := [q] + x + [q];
    StripEnds(s);
    ReplaceWrap(q, x, url);
    var r := [q] + Replace(x, "%s", url) + [q];
    assert r[1..|r| - 1] == Replace(x, "%s", url);
  }

  lemma ReplaceWrap(q: char, x: string, url: string)
    requires q != '%' && q != 's'
    ensures Replace([q] + x + [q], "%s", url) == [q] + Replace(x, "%s", url) + [q]
  {
    var s := [q] + x + [q];
    assert s[1..] == x + [q];
    ReplaceSuffix(x, q, url);
  }

  lemma {:induction false} ReplaceSuffix(x: string, c: char, url: string)
    requires c != 's'
    ensures Replace(x + [c], "%s", url) == Replace(x, "%s", url) + [c]
    decreases |x|
  {
    var s := x + [c];
    if |x| == 0 {
      assert s == [c];
    } else if |x| == 1 {
      assert s[1] == c;
      assert s[1..] == [c];
    } else if x[..2] == "%s" {
      assert s[..2] == x[..2];
      assert s[2..] == x[2..] + [c];
      ReplaceSuffix(x[2..], c, url);
      Assoc(url, Replace(x[2..], "%s", url), [c]);
    } else {
      assert s[..2] == x[..2];
      assert s[0] == x[0] && s[1..] == x[1..] + [c];
      ReplaceSuffix(x[1..], c, url);
      Assoc([x[0]], Replace(x[1..], "%s", url), [c]);
    }
  }

  /**
   * Plain words separated by single spaces, with a last argument: each comes
   * out in command order with the URL for each `%s`.
   */
  lemma {:induction false} ArgumentsOfWords(words: seq<string>, last: string, url: string)
    requires forall k :: 0 <= k < |words| ==> Plain(words[k])
    requires |url| > 0 && forall i :: 0 <= i < |url| ==> !IsQuote(url[i])
    requires Argument(last, url).Ok?
    ensures Arguments(Spaced(words) + [last], url) == Ok(Substituted(words, url) + [Argument(last, url).value])
    decreases |words|
  {
    var a := Argument(last, url).value;
    if |words| > 0 {
      var w := words[0];
      ArgumentsOfWords(words[1..], last, url);
      PlainArgument(w, url, true);
      SpacedCons(words, last);
      ArgumentsCons(w + " ", Spaced(words[1..]) + [last], url);
      Assoc([Replace(w, "%s", url)], Substituted(words[1..], url), [a]);
    } else {
      assert Spaced(words) + [last] == [last] + [];
      ArgumentsCons(last, [], url);
      assert [a] + [] == Substituted(words, url) + [a];
    }
  }

  /**
   * A command of plain words ending in a quoted argument: the words, and the
   * quoted text without its outer quotes (inner quotes of the other kind kept).
   */
  lemma ParseCmdQuoted(words: seq<string>, q: char, x: string, url: string)
    requires forall k :: 0 <= k < |words| ==> Plain(words[k])
    requires IsQuote(q) && q !in x
    requires |url| > 0 && forall i :: 0 <= i < |url| ==> !IsQuote(url[i])
    ensures ParseCmd(Join(" ", words + [[q] + x + [q]]), url) == Ok(Substituted(words, url) + [Replace(x, "%s", url)])
  {
    var last := [q] + x + [q];
    WordsTokens(words, last);
    QuotedToken(q, x);
    QuotedArgument(q, x, url);
    ArgumentsOfWords(words, last, url);
  }

  /** A command of plain words: one argument per word, in order, with the URL for each `%s`. */
  lemma ParseCmdWords(words: seq<string>, last: string, url: string)
    requires forall k :: 0 <= k < |words| ==> Plain(words[k])
    requires Plain(last)
    requires |url| > 0 && forall i :: 0 <= i < |url| ==> !IsQuote(url[i])
    ensures ParseCmd(Join(" ", words + [last]), url) == Ok(Substituted(words, url) + [Replace(last, "%s", url)])
  {
    WordsTokens(words, last);
    LastWordToken(last);
    PlainArgument(last, url, false);
    ArgumentsOfWords(words, last, url);
  }

  /** When the URL is empty, a last argument that is exactly `%s` becomes empty and `item[0]` raises. */
  lemma EmptyUrlRaises(words: seq<string>)
    requires forall k :: 0 <= k < |words| ==> Plain(words[k]) && !Contains("%s", words[k])
    ensures ParseCmd(Join(" ", words + ["%s"]), "") == Err(IndexError)
  {
    LastPatternRaises(words, "%s");
  }

  lemma LastPatternRaises(words: seq<string>, last: string)
    requires forall k :: 0 <= k < |words| ==> Plain(words[k]) && !Contains("%s", words[k])
    requires last == "%s"
    ensures ParseCmd(Join(" ", words + [last]), "") == Err(IndexError)
  {
    PatternAlone(last);
    WordsTokens(words, last);
    assert RawTokens(Join(" ", words + [last])) == Spaced(words) + [last];
    ArgumentsRaise(words, last, "");
  }

  /** The bare pattern is a plain word, and with an empty URL its argument is empty and raises. */
  lemma PatternAlone(last: string)
    requires last == "%s"
    ensures Plain(last) && RawTokens(last) == [last]
    ensures Argument(last, "") == Err(IndexError)
  {
    assert Plain(last);
    LastWordToken(last);
    StripEnds(last);
    ReplaceWhole(last, "");
  }

  /** A plain word without `%s` is passed on as it is. */
  lemma SpacedArgument(w: string, url: string)
    requires Plain(w) && !Contains("%s", w)
    ensures Argument(w + " ", url) == Ok(w)
  {
    StripWordSpace(w);
    var pat := "%s";
    ReplaceAbsent(w, pat, url);
    assert Strip(w + " ") == w;
    assert Replace(w, pat, url) == w;
  }

  lemma {:induction false} ArgumentsRaise(words: seq<string>, last: string, url: string)
    requires forall k :: 0 <= k < |words| ==> Plain(words[k]) && !Contains("%s", words[k])
    requires Argument(last, url).Err?
    ensures Arguments(Spaced(words) + [last], url) == Err(Argument(last, url).error)
    decreases |words|
  {
    if |words| > 0 {
      var w := words[0];
      ArgumentsRaise(words[1..], last, url);
      SpacedArgument(w, url);
      SpacedCons(words, last);
      ArgumentsCons(w + " ", Spaced(words[1..]) + [last], url);
    } else {
      assert Spaced(words) + [last] == [last];
    }
  }

  lemma SpacedCons(words: seq<string>, last: string)
    requires |words| > 0
    ensures Spaced(words) + [last] == [words[0] + " "] + (Spaced(words[1..]) + [last])
  {
    Assoc([words[0] + " "], Spaced(words[1..]), [last]);
  }

  /** A first argument that is read is followed by the others. */
  lemma ArgumentsCons(a: string, rest: seq<string>, url: string)
    requires Argument(a, url).Ok?
    ensures Arguments(rest, url).Err? ==> Arguments([a] + rest, url) == Arguments(rest, url)
    ensures Arguments(rest, url).Ok? ==> Arguments([a] + rest, url) == Ok([Argument(a, url).value] + Arguments(rest, url).value)
  {
    assert ([a] + rest)[0] == a && ([a] + rest)[1..] == rest;
  }

  // ---------------------------------------------------------------- test vectors

  lemma Plains()
    ensures Plain("abc") && Plain("%s") && Plain("bash") && Plain("-c")
  {
  }

  lemma ReplaceWhole(p: string, url: string)
    requires |p| > 0
    ensures Replace(p, p, url) == url
  {
    assert p[..|p|] == p && p[|p|..] == "";
  }

  lemma ReplaceNone(w: string, url: string)
    requires |w| < 2 || (w[..2] != "%s" && !Contains("%s", w[1..]))
    ensures Replace(w, "%s", url) == w
  {
    if |w| >= 2 {
      assert !Contains("%s", w) by {
        assert !StartsWith(w, "%s");
      }
    }
    ReplaceAbsent(w, "%s", url);
  }

  lemma {:induction false} SubstitutedPlain(words: seq<string>, url: string)
    requires forall k :: 0 <= k < |words| ==> !Contains("%s", words[k])
    ensures Substituted(words, url) == words
    decreases |words|
  {
    if |words| > 0 {
      ReplaceAbsent(words[0], "%s", url);
      SubstitutedPlain(words[1..], url);
      assert words == [words[0]] + words[1..];
    }
  }

  /** Literal facts the vectors use. */
  lemma Literals(url: string)
    ensures !Contains("%s", "abc") && !Contains("%s", "bash") && !Contains("%s", "-c")
    ensures Replace("%s", "%s", url) == url
    ensures Replace("'%s'", "%s", url) == "'" + url + "'"
  {
    ReplaceWhole("%s", url);
    var q := "'%s'";
    assert q[..2] != "%s" && q[1..][..2] == "%s" && q[1..][2..] == "'";
    assert Replace(q[1..][2..], "%s", url) == "'";
  }

  lemma CmdVectorOneUrl(cmd: string, url: string)
    requires cmd == "abc %s" && url == "url"
    ensures ParseCmd(cmd, url) == Ok(["abc", url])
  {
    assert Join(" ", ["abc"] + ["%s"]) == cmd by {
      JoinCons(" ", "abc", ["%s"]);
    }
    assert ParseCmd(Join(" ", ["abc"] + ["%s"]), url) == Ok(Substituted(["abc"], url) + [Replace("%s", "%s", url)]) by {
      Plains();
      ParseCmdWords(["abc"], "%s", url);
    }
    assert Substituted(["abc"], url) + [Replace("%s", "%s", url)] == ["abc", url] by {
      Literals(url);
      SubstitutedPlain(["abc"], url);
    }
  }

  lemma TwoUrlsJoin(cmd: string)
    requires cmd == "abc %s %s"
    ensures Join(" ", ["abc", "%s"] + ["%s"]) == cmd
  {
    assert ["abc", "%s"] + ["%s"] == ["abc"] + ["%s", "%s"];
    JoinCons(" ", "abc", ["%s", "%s"]);
    JoinCons(" ", "%s", ["%s"]);
  }

  lemma TwoUrlsParse(url: string)
    requires url == "url"
    ensures ParseCmd(Join(" ", ["abc", "%s"] + ["%s"]), url) == Ok(Substituted(["abc", "%s"], url) + [Replace("%s", "%s", url)])
  {
    Plains();
    ParseCmdWords(["abc", "%s"], "%s", url);
  }

  lemma TwoUrlsValue(url: string)
    requires url == "url"
    ensures Substituted(["abc", "%s"], url) + [Replace("%s", "%s", url)] == ["abc", url, url]
  {
    var words := ["abc", "%s"];
    Literals(url);
    SubstitutedPlain(["abc"], url);
    assert words[1..] == ["%s"];
    assert Substituted(["%s"], url) == [Replace("%s", "%s", url)] + Substituted([], url);
  }

  lemma CmdVectorTwoUrls(cmd: string, url: string)
    requires cmd == "abc %s %s" && url == "url"
    ensures ParseCmd(cmd, url) == Ok(["abc", url, url])
  {
    TwoUrlsJoin(cmd);
    TwoUrlsParse(url);
    TwoUrlsValue(url);
  }

  /** 'abc "%s"' and "abc '%s'": with either quote character the quotes go and the URL comes in. */
  lemma CmdVectorQuotes(cmd: string, q: char, url: string)
    requires IsQuote(q) && cmd == "abc " + [q] + "%s" + [q] && url == "url"
    ensures ParseCmd(cmd, url) == Ok(["abc", url])
  {
    var last := [q] + "%s" + [q];
    assert Join(" ", ["abc"] + [last]) == cmd by {
      JoinCons(" ", "abc", [last]);
    }
    assert ParseCmd(Join(" ", ["abc"] + [last]), url) == Ok(Substituted(["abc"], url) + [Replace("%s", "%s", url)]) by {
      Plains();
      ParseCmdQuoted(["abc"], q, "%s", url);
    }
    assert Substituted(["abc"], url) + [Replace("%s", "%s", url)] == ["abc", url] by {
      Literals(url);
      SubstitutedPlain(["abc"], url);
    }
  }

  lemma InnerQuotesJoin(cmd: string)
    requires cmd == "abc bash -c \"'%s'\""
    ensures Join(" ", ["abc", "bash", "-c"] + [['"'] + "'%s'" + ['"']]) == cmd
  {
    var last := ['"'] + "'%s'" + ['"'];
    var words := ["abc", "bash", "-c"];
    assert Join(" ", words) == "abc bash -c" by {
      assert words == ["abc"] + (["bash"] + ["-c"]);
      JoinCons(" ", "abc", ["bash"] + ["-c"]);
      JoinCons(" ", "bash", ["-c"]);
    }
    JoinSnoc(" ", words, last);
  }

  lemma InnerQuotesParse(url: string)
    requires url == "url"
    ensures ParseCmd(Join(" ", ["abc", "bash", "-c"] + [['"'] + "'%s'" + ['"']]), url)
         == Ok(Substituted(["abc", "bash", "-c"], url) + [Replace("'%s'", "%s", url)])
  {
    Plains();
    ParseCmdQuoted(["abc", "bash", "-c"], '"', "'%s'", url);
  }

  lemma InnerQuotesValue(url: string)
    requires url == "url"
    ensures Substituted(["abc", "bash", "-c"], url) + [Replace("'%s'", "%s", url)] == ["abc", "bash", "-c", "'" + url + "'"]
  {
    Literals(url);
    SubstitutedPlain(["abc", "bash", "-c"], url);
  }

  /** Only the outer double quotes go; the single quotes inside stay. */
  lemma CmdVectorInnerQuotes(cmd: string, url: string)
    requires cmd == "abc bash -c \"'%s'\"" && url == "url"
    ensures ParseCmd(cmd, url) == Ok(["abc", "bash", "-c", "'" + url + "'"])
  {
    InnerQuotesJoin(cmd);
    InnerQuotesParse(url);
    InnerQuotesValue(url);
  }

  /** A command without `%s` is passed through whatever the URL, even an empty one. */
  lemma CmdVectorNoUrl()
    ensures ParseCmd("abc", "") == Ok(["abc"])
  {
    Plains();
    LastWordToken("abc");
    StripEnds("abc");
    assert Replace("abc", "%s", "") == "abc" by {
      Literals("");
      ReplaceAbsent("abc", "%s", "");
    }
  }
}
