/**
 * The selection prompt of `main` in pirate/pirate.py: the command letter,
 * the clean-up of the rest of the input, the expansion of `a-b` ranges,
 * and the choices that `--first` and `--download-all` make instead.
 */
module Selection {
  import opened Base
  import opened Text

  // ---------------------------------------------------------------- the command letter

  const Codes: string := "hdfpmtq"

  /**
   * `re.search(r'([hdfpmtq])', l, flags=re.IGNORECASE).group(0).lower()`:
   * the first command letter in either case, lower-cased; None if there is none.
   */
  function CommandCode(l: string): (r: Option<char>)
    ensures r.Some? ==> r.value in Codes
    ensures r.None? <==> forall i :: 0 <= i < |l| ==> LowerChar(l[i]) !in Codes
    ensures r.Some? ==> exists i :: 0 <= i < |l| && LowerChar(l[i]) == r.value && NoCodeBefore(l, i)
    decreases |l|
  {
    if |l| == 0 then None
    else if LowerChar(l[0]) in Codes then
      assert NoCodeBefore(l, 0);
      Some(LowerChar(l[0]))
    else
      var r := CommandCode(l[1..]);
      if r.Some? then
        var i :| 0 <= i < |l[1..]| && LowerChar(l[1..][i]) == r.value && NoCodeBefore(l[1..], i);
        assert LowerChar(l[i + 1]) == r.value && NoCodeBefore(l, i + 1);
        r
      else
        assert forall i :: 1 <= i < |l| ==> l[i] == l[1..][i - 1];
        r
  }

  /** No command letter in l before index i. */
  predicate NoCodeBefore(l: string, i: int)
    requires 0 <= i <= |l|
  {
    forall j :: 0 <= j < i ==> LowerChar(l[j]) !in Codes
  }

  // ---------------------------------------------------------------- clean-up

  /** The characters `^[hdfp, ]*|[hdfp, ]*$` removes from either end (lower case only). */
  predicate Trimmed(c: char) { c in "hdfp, " }

  function TrimStart(s: string): (r: string)
    ensures |r| <= |s| && r == s[|s| - |r|..]
    ensures |r| > 0 ==> !Trimmed(r[0])
    decreases |s|
  {
    if |s| > 0 && Trimmed(s[0]) then TrimStart(s[1..]) else s
  }

  function TrimEnd(s: string): (r: string)
    ensures |r| <= |s| && r == s[..|r|]
    ensures |r| > 0 ==> !Trimmed(r[|r| - 1])
    decreases |s|
  {
    if |s| > 0 && Trimmed(s[|s| - 1]) then TrimEnd(s[..|s| - 1]) else s
  }

  /** `re.sub('[ ,]+', ',', l)`: every run of spaces and commas becomes one comma. */
  function Collapse(s: string): (r: string)
    ensures forall i :: 0 <= i < |r| ==> r[i] != ' '
    decreases |s|
  {
    if |s| == 0 then ""
    else if s[0] == ' ' || s[0] == ',' then "," + Collapse(s[SeparatorRun(s)..])
    else [s[0]] + Collapse(s[1..])
  }

  /** Length of the run of spaces and commas that starts s. */
  function SeparatorRun(s: string): (n: nat)
    ensures n <= |s|
    ensures |s| > 0 && (s[0] == ' ' || s[0] == ',') ==> n > 0
    decreases |s|
  {
    if |s| > 0 && (s[0] == ' ' || s[0] == ',') then 1 + SeparatorRun(s[1..]) else 0
  }

  predicate Kept(c: char) { IsDigit(c) || c == ',' || c == '-' }

  /** `re.sub('[^0-9,-]', '', l)`: everything but digits, commas and hyphens removed. */
  function KeepSelectionChars(s: string): (r: string)
    ensures forall i :: 0 <= i < |r| ==> Kept(r[i])
    decreases |s|
  {
    if |s| == 0 then ""
    else if Kept(s[0]) then [s[0]] + KeepSelectionChars(s[1..])
    else KeepSelectionChars(s[1..])
  }

  /** The three substitutions in turn. */
  function Cleanup(l: string): (r: string)
    ensures forall i :: 0 <= i < |r| ==> Kept(r[i])
  {
    KeepSelectionChars(Collapse(TrimEnd(TrimStart(l))))
  }

  // ---------------------------------------------------------------- ranges

  /** `range(a, b + 1)`. */
  function Range(a: int, b: int): (r: seq<int>)
    ensures |r| == if b < a then 0 else b - a + 1
    ensures forall k :: 0 <= k < |r| ==> r[k] == a + k
  {
    if b < a then [] else seq(b - a + 1, k requires 0 <= k <= b - a => a + k)
  }

  /**
   * One comma-separated piece, split at its first hyphen: `a-b` is a..b,
   * a lone number is itself, an empty piece is nothing; `int()` of something
   * that is not a number raises ValueError.
   */
  function Piece(elem: string): (r: Result<seq<int>>)
    ensures r.Err? ==> r.error.ValueError?
  {
    var i := IndexOf(elem, '-');
    var left := elem[..i];
    var right := if i < |elem| then elem[i + 1..] else "";
    if right != "" then
      match ParseInt(left)
      case None => Err(BadInt)
      case Some(a) =>
        match ParseInt(right)
        case None => Err(BadInt)
        case Some(b) => Ok(Range(a, b))
    else if left != "" then
      match ParseInt(left)
      case None => Err(BadInt)
      case Some(a) => Ok([a])
    else Ok([])
  }

  /** The pieces' numbers, flattened in input order; the first ValueError is raised. */
  function Expand(pieces: seq<string>): (r: Result<seq<int>>)
    decreases |pieces|
  {
    if |pieces| == 0 then Ok([])
    else
      match Piece(pieces[0])
      case Err(e) => Err(e)
      case Ok(head) =>
        match Expand(pieces[1..])
        case Err(e) => Err(e)
        case Ok(tail) => Ok(head + tail)
  }

  /** The chosen indices the prompt reads from l. */
  function Choices(l: string): Result<seq<int>> {
    Expand(Split(Cleanup(l), ','))
  }

  /** `[str(elem) for elem in choices]`. */
  function Strings(xs: seq<int>): (r: seq<string>)
    ensures |r| == |xs|
    ensures forall k :: 0 <= k < |xs| ==> ParseInt(r[k]) == Some(xs[k])
  {
    var r := seq(|xs|, k requires 0 <= k < |xs| => IntToString(xs[k]));
    forall k | 0 <= k < |xs| ensures ParseInt(r[k]) == Some(xs[k]) {
      ParseIntToString(xs[k]);
    }
    r
  }

  function Flatten(xss: seq<seq<int>>): seq<int>
    decreases |xss|
  {
    if |xss| == 0 then [] else xss[0] + Flatten(xss[1..])
  }

  lemma {:induction false} FlattenSnoc(xss: seq<seq<int>>, xs: seq<int>)
    ensures Flatten(xss + [xs]) == Flatten(xss) + xs
    decreases |xss|
  {
    if |xss| == 0 {
      assert [] + [xs] == [xs];
      assert Flatten([xs]) == xs + Flatten([]);
    } else {
      assert (xss + [xs])[1..] == xss[1..] + [xs];
      FlattenSnoc(xss[1..], xs);
    }
  }

  /** Expand over a prefix of the pieces, as the loop sees it. */
  function Partial(r: Result<seq<int>>, more: Result<seq<int>>): Result<seq<int>> {
    match r
    case Err(e) => Err(e)
    case Ok(xs) =>
      match more
      case Err(e) => Err(e)
      case Ok(ys) => Ok(xs + ys)
  }

  lemma PartialAssoc(a: Result<seq<int>>, b: Result<seq<int>>, c: Result<seq<int>>)
    ensures Partial(a, Partial(b, c)) == Partial(Partial(a, b), c)
  {
    if a.Ok? && b.Ok? && c.Ok? {
      assert a.value + (b.value + c.value) == (a.value + b.value) + c.value;
    }
  }

  lemma ExpandCons(ps: seq<string>)
    requires |ps| > 0
    ensures Expand(ps) == Partial(Piece(ps[0]), Expand(ps[1..]))
  {
  }

  /** Expansion distributes over the pieces: order is kept, and the first error wins. */
  lemma {:induction false} ExpandAppend(p: seq<string>, q: seq<string>)
    ensures Expand(p + q) == Partial(Expand(p), Expand(q))
    decreases |p|
  {
    if |p| == 0 {
      assert p + q == q;
      if Expand(q).Ok? {
        assert [] + Expand(q).value == Expand(q).value;
      }
    } else {
      assert (p + q)[0] == p[0] && (p + q)[1..] == p[1..] + q;
      ExpandAppend(p[1..], q);
      ExpandCons(p + q);
      ExpandCons(p);
      PartialAssoc(Piece(p[0]), Expand(p[1..]), Expand(q));
    }
  }

  /** One more piece, as the loop takes it. */
  lemma ExpandSnoc(ps: seq<string>, i: nat)
    requires i < |ps|
    ensures Expand(ps[..i + 1]) == Partial(Expand(ps[..i]), Piece(ps[i]))
  {
    assert ps[..i + 1] == ps[..i] + [ps[i]];
    ExpandAppend(ps[..i], [ps[i]]);
    assert Expand([ps[i]]) == Partial(Piece(ps[i]), Ok([])) by {
      assert [ps[i]][1..] == [];
    }
    if Piece(ps[i]).Ok? {
      assert Piece(ps[i]).value + [] == Piece(ps[i]).value;
    }
  }

  /** A piece that raises ends the expansion with its error. */
  lemma ExpandErrPrefix(ps: seq<string>, n: nat)
    requires n <= |ps| && Expand(ps[..n]).Err?
    ensures Expand(ps) == Expand(ps[..n])
  {
    ExpandAppend(ps[..n], ps[n..]);
    assert ps[..n] + ps[n..] == ps;
  }

  /**
   * The selection loop: the code, then the clean-up, the split, the
   * expansion of every piece into `choices`, the flattening, and the
   * conversion to strings.
   */
  method ParseSelection(l: string) returns (code: Option<char>, r: Result<seq<string>>)
    ensures code == CommandCode(l)
    ensures r.Err? <==> Choices(l).Err?
    ensures r.Ok? ==> r.value == Strings(Choices(l).value)
  {
    code := CommandCode(l);
    var pieces := Split(Cleanup(l), ',');
    var choices: seq<seq<int>> := [];
    var i := 0;
    while i < |pieces|
      invariant 0 <= i <= |pieces|
      invariant Expand(pieces[..i]) == Ok(Flatten(choices))
    {
      var piece := Piece(pieces[i]);
      ExpandSnoc(pieces, i);
      if piece.Err? {
        ExpandErrPrefix(pieces, i + 1);
        assert Choices(l).Err?;
        return code, Err(piece.error);
      }
      FlattenSnoc(choices, piece.value);
      choices := choices + [piece.value];
      i := i + 1;
    }
    assert pieces[..i] == pieces;
    assert Choices(l) == Ok(Flatten(choices));
    return code, Ok(Strings(Flatten(choices)));
  }

  // ---------------------------------------------------------------- properties

  lemma {:induction false} IndexOfAbsent(s: string, c: char)
    requires c !in s
    ensures IndexOf(s, c) == |s|
    decreases |s|
  {
    if |s| > 0 {
      IndexOfAbsent(s[1..], c);
    }
  }

  lemma {:induction false} IndexOfAfter(a: string, c: char, b: string)
    requires c !in a
    ensures IndexOf(a + [c] + b, c) == |a|
    decreases |a|
  {
    if |a| > 0 {
      assert (a + [c] + b)[1..] == a[1..] + [c] + b;
      IndexOfAfter(a[1..], c, b);
    }
  }

  lemma ParseDigits(a: string)
    requires |a| > 0 && AllDigits(a)
    ensures ParseInt(a) == Some(DigitsValue(a))
  {
    assert forall i :: 0 <= i < |a| ==> !IsSpace(a[i]) by {
      forall i | 0 <= i < |a| ensures !IsSpace(a[i]) {
        assert IsDigit(a[i]);
      }
    }
    StripNoSpace(a);
    ParseIntUnsigned(a);
  }

  /** `a-b` with two numbers is the inclusive range a..b. */
  lemma PieceRange(a: string, b: string)
    requires |a| > 0 && AllDigits(a) && |b| > 0 && AllDigits(b)
    ensures Piece(a + "-" + b) == Ok(Range(DigitsValue(a), DigitsValue(b)))
  {
    var elem := a + "-" + b;
    assert '-' !in a;
    IndexOfAfter(a, '-', b);
    assert elem[..|a|] == a && elem[|a| + 1..] == b;
    ParseDigits(a);
    ParseDigits(b);
  }

  /** A lone number yields itself. */
  lemma PieceSingle(a: string)
    requires |a| > 0 && AllDigits(a)
    ensures Piece(a) == Ok([DigitsValue(a)])
  {
    assert '-' !in a;
    IndexOfAbsent(a, '-');
    assert a[..|a|] == a;
    ParseDigits(a);
  }

  /** An empty piece, as between two commas, adds nothing. */
  lemma PieceEmpty()
    ensures Piece("") == Ok([])
  {
  }

  /** A hyphen with nothing before it is `int('')`: ValueError. */
  lemma PieceNoLeft(b: string)
    requires |b| > 0
    ensures Piece("-" + b).Err?
  {
    assert ("-" + b)[..0] == "";
    assert ("-" + b)[1..] == b;
  }

  /** Download-all: every index of the results, in order. */
  function AllChoices(n: nat): (r: seq<int>)
    ensures |r| == n && forall k :: 0 <= k < n ==> r[k] == k
  {
    seq(n, k requires 0 <= k < n => k)
  }

  /** `--first`: the first result alone. */
  function FirstChoice(): (r: seq<int>)
    ensures r == [0]
  {
    [0]
  }

  /** Download-all chooses each result exactly once; `--first` chooses result 0. */
  lemma AllChoicesExactly(n: nat)
    ensures forall i :: i in AllChoices(n) <==> 0 <= i < n
    ensures forall j, k :: 0 <= j < k < n ==> AllChoices(n)[j] != AllChoices(n)[k]
    ensures n > 0 ==> forall i :: i in FirstChoice() ==> i in AllChoices(n)
  {
    forall i | 0 <= i < n ensures i in AllChoices(n) {
      assert AllChoices(n)[i] == i;
    }
  }

  /** Characters `[hdfp, ]` at the start are dropped, whatever follows. */
  lemma {:induction false} TrimStartSkip(t: string, s: string)
    requires forall i :: 0 <= i < |t| ==> Trimmed(t[i])
    ensures TrimStart(t + s) == TrimStart(s)
    decreases |t|
  {
    if |t| > 0 {
      assert (t + s)[0] == t[0] && (t + s)[1..] == t[1..] + s;
      TrimStartSkip(t[1..], s);
    } else {
      assert t + s == s;
    }
  }

  /** Characters `[hdfp, ]` at the end are dropped, whatever precedes them. */
  lemma {:induction false} TrimEndSkip(s: string, t: string)
    requires forall i :: 0 <= i < |t| ==> Trimmed(t[i])
    ensures TrimEnd(s + t) == TrimEnd(s)
    decreases |t|
  {
    if |t| > 0 {
      var u := s + t;
      assert u[|u| - 1] == t[|t| - 1];
      assert u[..|u| - 1] == s + t[..|t| - 1];
      TrimEndSkip(s, t[..|t| - 1]);
    } else {
      assert s + t == s;
    }
  }

  /** Digits and hyphens pass through both substitutions unchanged. */
  predicate Plain(c: char) { IsDigit(c) || c == '-' }

  lemma {:induction false} CollapsePlain(a: string, b: string)
    requires forall i :: 0 <= i < |a| ==> Plain(a[i])
    ensures Collapse(a + b) == a + Collapse(b)
    ensures KeepSelectionChars(a + b) == a + KeepSelectionChars(b)
    decreases |a|
  {
    if |a| > 0 {
      assert (a + b)[0] == a[0] && (a + b)[1..] == a[1..] + b;
      CollapsePlain(a[1..], b);
      assert [a[0]] + (a[1..] + Collapse(b)) == a + Collapse(b);
      assert [a[0]] + (a[1..] + KeepSelectionChars(b)) == a + KeepSelectionChars(b);
    } else {
      assert a + b == b;
    }
  }

  /** A selection already made of numbers, hyphens and single commas is left as it is. */
  lemma {:induction false} CleanupKeeps(s: string)
    requires forall i :: 0 <= i < |s| ==> Plain(s[i]) || s[i] == ','
    requires forall i :: 0 <= i < |s| - 1 ==> s[i] == ',' ==> s[i + 1] != ','
    ensures Collapse(s) == s && KeepSelectionChars(s) == s
    decreases |s|
  {
    if |s| > 0 {
      CleanupKeeps(s[1..]);
      if s[0] == ',' {
        assert SeparatorRun(s) == 1 by {
          if |s| > 1 {
            assert s[1..][0] == s[1];
          }
        }
      }
      assert s == [s[0]] + s[1..];
    }
  }

  /** A single piece expands to what that piece gives. */
  lemma ExpandOne(p: string)
    ensures Expand([p]) == Piece(p)
  {
    assert [p][1..] == [];
    if Piece(p).Ok? {
      assert Piece(p).value + [] == Piece(p).value;
    }
  }

  /** The command letter is the first one: characters before it that are not letters do not matter. */
  lemma {:induction false} CodeAfter(p: string, s: string)
    requires forall i :: 0 <= i < |p| ==> LowerChar(p[i]) !in Codes
    ensures CommandCode(p + s) == CommandCode(s)
    decreases |p|
  {
    if |p| > 0 {
      assert (p + s)[0] == p[0] && (p + s)[1..] == p[1..] + s;
      CodeAfter(p[1..], s);
    } else {
      assert p + s == s;
    }
  }

  // ---------------------------------------------------------------- test vectors

  /** "1-3 d": download results 1, 2 and 3. */
  lemma CleanupRange(l: string, sel: string, tail: string)
    requires l == "1-3 d" && sel == "1-3" && tail == " d"
    ensures Cleanup(l) == sel
  {
    assert l == sel + tail;
    assert TrimStart(l) == l by {
      assert !Trimmed(l[0]);
    }
    assert TrimEnd(l) == sel by {
      assert forall i :: 0 <= i < |tail| ==> Trimmed(tail[i]);
      TrimEndSkip(sel, tail);
      assert !Trimmed(sel[2]);
    }
    CleanupKeeps(sel);
  }

  lemma ChoicesRange(l: string, a: string, b: string)
    requires l == "1-3 d" && a == "1" && b == "3"
    ensures Choices(l) == Ok([1, 2, 3])
  {
    var sel := a + "-" + b;
    CleanupRange(l, sel, " d");
    SplitFree(sel, ',');
    ExpandOne(sel);
    PieceOneToThree(a, b);
  }

  lemma PieceOneToThree(a: string, b: string)
    requires a == "1" && b == "3"
    ensures Piece(a + "-" + b) == Ok([1, 2, 3])
  {
    PieceRange(a, b);
    assert DigitsValue(a) == 1 && DigitsValue(b) == 3;
    assert Range(1, 3) == [1, 2, 3];
  }

  lemma CodeRange(l: string, p: string, d: string)
    requires l == "1-3 d" && p == "1-3 " && d == "d"
    ensures CommandCode(l) == Some('d')
  {
    assert l == p + d;
    CodeAfter(p, d);
  }

  /** "d 23, 1": download results 23 and 1, in that order. */
  lemma CleanupList(l: string, head: string, mid: string, sel: string)
    requires l == "d 23, 1" && head == "d " && mid == "23, 1" && sel == "23,1"
    ensures Cleanup(l) == sel
  {
    assert l == head + mid;
    assert TrimStart(l) == mid by {
      assert forall i :: 0 <= i < |head| ==> Trimmed(head[i]);
      TrimStartSkip(head, mid);
      assert mid[0] == '2';
      DigitKept(mid[0]);
    }
    assert TrimEnd(mid) == mid by {
      assert mid[4] == '1';
      DigitKept(mid[4]);
    }
    CollapseList(mid, "23", ", 1", "1");
    assert "23" + "," + "1" == sel;
    CleanupKeeps(sel);
  }

  lemma DigitKept(c: char)
    requires '0' <= c <= '9'
    ensures !Trimmed(c)
  {
  }

  lemma CollapseList(mid: string, a: string, sep: string, b: string)
    requires mid == "23, 1" && a == "23" && sep == ", 1" && b == "1"
    ensures Collapse(mid) == a + "," + b
  {
    assert mid == a + sep;
    CollapsePlain(a, sep);
    assert SeparatorRun(sep) == 2 by {
      assert sep[1..] == " 1" && sep[1..][1..] == b;
      assert SeparatorRun(b) == 0;
      assert SeparatorRun(sep[1..]) == 1;
    }
    assert sep[2..] == b;
    CleanupKeeps(b);
  }

  lemma ChoicesList(l: string, a: string, b: string)
    requires l == "d 23, 1" && a == "23" && b == "1"
    ensures Choices(l) == Ok([23, 1])
  {
    var sel := a + [','] + b;
    CleanupList(l, "d ", "23, 1", sel);
    SplitCons(a, ',', b);
    SplitFree(b, ',');
    assert [a] + [b] == [a, b];
    PiecesList(a, b);
  }

  lemma PiecesList(a: string, b: string)
    requires a == "23" && b == "1"
    ensures Expand([a, b]) == Ok([23, 1])
  {
    assert [a, b] == [a] + [b];
    ExpandAppend([a], [b]);
    ExpandOne(a);
    ExpandOne(b);
    PieceSingle(a);
    PieceSingle(b);
    assert DigitsValue(a) == 23 by {
      assert a[..1] == "2";
    }
    assert DigitsValue(b) == 1;
    assert [23] + [1] == [23, 1];
  }

  lemma CodeList(l: string)
    requires l == "d 23, 1"
    ensures CommandCode(l) == Some('d')
  {
    assert LowerChar(l[0]) == 'd';
  }
}
