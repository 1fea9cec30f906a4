/**
 * The local database search of pirate/local.py: NUL removal, comment
 * skipping, case-insensitive matching, the 30-result cap, magnet
 * construction from a Base64 hash, and the choice of binary size unit.
 * The CSV reader is not modelled: the search takes the rows it yields.
 */
module Local {
  import opened Base
  import opened Text
  import opened Url
  import opened Codec

  const Nul: char := 0 as char

  /** replace_iter: every line with its NUL characters deleted. */
  function ReplaceIter(lines: seq<string>): (r: seq<string>)
    ensures |r| == |lines|
  {
    seq(|lines|, i requires 0 <= i < |lines| => Replace(lines[i], [Nul], ""))
  }

  /** After replace_iter no line holds a NUL, and every other character of each line is kept. */
  lemma ReplaceIterSpec(lines: seq<string>)
    ensures forall i :: 0 <= i < |lines| ==> Nul !in ReplaceIter(lines)[i]
    ensures forall i, c :: 0 <= i < |lines| && c != Nul ==> (c in ReplaceIter(lines)[i] <==> c in lines[i])
    ensures forall i :: 0 <= i < |lines| && Nul !in lines[i] ==> ReplaceIter(lines)[i] == lines[i]
  {
    forall i | 0 <= i < |lines| {
      RemoveCharSpec(lines[i], Nul);
    }
  }

  // ---------------------------------------------------------------- sizeof_fmt

  /** The unit prefixes sizeof_fmt tries in turn, then its last resort. */
  const Units: seq<string> := ["", "Ki", "Mi", "Gi", "Ti", "Pi", "Ei", "Zi", "Yi"]

  function Pow1024(k: nat): (p: nat)
    ensures p >= 1
  {
    if k == 0 then 1 else 1024 * Pow1024(k - 1)
  }

  function Abs(n: int): nat { if n < 0 then -n else n }

  /** sizeof_fmt stops at unit k when |n| / 1024^k < 1024, that is when |n| < 1024^(k+1). */
  predicate Fits(n: int, k: nat) {
    Abs(n) < Pow1024(k + 1)
  }

  /** The index into Units sizeof_fmt picks for n: the first k below 8 where n fits; 8 ('Yi') if there is none. */
  function UnitIndex(n: int): (k: nat)
    ensures k <= 8
    ensures k < 8 ==> Fits(n, k)
    ensures forall j :: 0 <= j < k ==> !Fits(n, j)
  {
    UnitIndexFrom(n, 0)
  }

  function UnitIndexFrom(n: int, k: nat): (r: nat)
    requires k <= 8
    ensures k <= r <= 8
    ensures r < 8 ==> Fits(n, r)
    ensures forall j :: k <= j < r ==> !Fits(n, j)
    decreases 8 - k
  {
    if k == 8 || Fits(n, k) then k else UnitIndexFrom(n, k + 1)
  }

  /**
   * sizeof_fmt's loop, over exact integers: instead of dividing num by 1024
   * at each step, the bound it is compared with is multiplied by 1024.
   */
  method SizeUnit(n: int) returns (unit: string)
    ensures unit == Units[UnitIndex(n)]
  {
    var k := 0;
    var bound := 1024;
    while k < 8
      invariant 0 <= k <= 8
      invariant bound == Pow1024(k + 1)
      invariant forall j :: 0 <= j < k ==> !Fits(n, j)
    {
      if Abs(n) < bound {
        UnitIndexUnique(n, k);
        return Units[k];
      }
      k := k + 1;
      bound := bound * 1024;
    }
    UnitIndexUnique(n, 8);
    return Units[8];
  }

  /** The first fitting unit is the only index with both properties. */
  lemma UnitIndexUnique(n: int, k: nat)
    requires k <= 8
    requires k < 8 ==> Fits(n, k)
    requires forall j :: 0 <= j < k ==> !Fits(n, j)
    ensures UnitIndex(n) == k
  {
  }

  /** A larger size never gets a smaller unit. */
  lemma UnitIndexMonotone(m: int, n: int)
    requires Abs(m) <= Abs(n)
    ensures UnitIndex(m) <= UnitIndex(n)
  {
  }

  lemma Pow1024Values()
    ensures Pow1024(1) == 1024 && Pow1024(2) == 1048576
  {
    assert Pow1024(0) == 1;
    assert Pow1024(1) == 1024;
  }

  /** 1023 bytes stay bytes, 1024 are 1 KiB, 2^20 - 1 still KiB, 2^20 is 1 MiB. */
  lemma UnitVectors()
    ensures Units[UnitIndex(1023)] == ""
    ensures Units[UnitIndex(-1024)] == "Ki"
    ensures Units[UnitIndex(1048575)] == "Ki"
    ensures Units[UnitIndex(1048576)] == "Mi"
  {
    Pow1024Values();
    UnitIndexUnique(1023, 0);
    UnitIndexUnique(-1024, 1);
    UnitIndexUnique(1048575, 1);
    assert Fits(1048576, 2) by {
      assert Pow1024(3) == 1024 * Pow1024(2);
    }
    UnitIndexUnique(1048576, 2);
  }

  // ---------------------------------------------------------------- magnets

  const UrnPrefix: string := "magnet:?xt=urn:"
  const MagnetPrefix: string := UrnPrefix + "btih:"

  /**
   * The magnet of a database row: Base16 of the Base64-decoded hash, and the
   * percent-encoded title; a hash Python cannot decode raises binascii.Error,
   * a ValueError.
   */
  function LocalMagnet(hash64: string, title: string): (r: Result<string>)
    ensures r.Err? <==> Base64Decode(hash64).None?
  {
    match Base64Decode(hash64)
    case None => Err(DecodeError)
    case Some(bs) => Ok(MagnetPrefix + Base16(bs) + "&dn=" + Quote(Quote3, title))
  }

  /** The prefix holds no '&' and no 'd', and no 'b' before "btih:". */
  lemma MagnetPrefixChars()
    ensures '&' !in MagnetPrefix && 'd' !in MagnetPrefix && 'b' !in UrnPrefix
  {
    assert MagnetPrefix == "magnet:?xt=urn:btih:";
  }

  /** A magnet splits before its name parameter. */
  lemma SplitAtDn(x: string, q: string)
    ensures x + "&dn=" + q == (x + "&") + ("dn=" + q)
  {
    assert "&dn=" == "&" + "dn=";
    Assoc(x, "&", "dn=");
    Assoc(x + "&", "dn=", q);
  }

  /** A row whose hash is the Base64 of some octets gets the Base16 of those octets. */
  lemma LocalMagnetOfEncoded(bs: seq<byte>, title: string)
    ensures LocalMagnet(Base64Encode(bs), title) == Ok(MagnetPrefix + Base16(bs) + "&dn=" + Quote(Quote3, title))
  {
    Base64RoundTrip(bs);
  }

  // ---------------------------------------------------------------- search

  /** One result dictionary: date, size (its integer and its unit; the number formatting is not modelled), magnet. */
  datatype LocalResult = LocalResult(date: string, size: int, unit: string, magnet: string)

  /** A row that is not a comment, has a title, and whose title holds the query, ignoring case. */
  predicate Matches(row: seq<string>, terms: seq<string>) {
    |row| >= 3 && |row[0]| > 0 && row[0][0] != '#'
    && Contains(Lower(Join(" ", terms)), Lower(row[2]))
  }

  /**
   * One row of the search loop: Ok(None) for a comment or a row that does
   * not match, Ok(Some(result)) for a match, Err for what Python raises
   * (a missing field, a size that is not an int, a hash that is not Base64).
   */
  function ScanRow(row: seq<string>, terms: seq<string>): (r: Result<Option<LocalResult>>)
    ensures r.Ok? ==> (r.value.Some? <==> Matches(row, terms))
    ensures r.Ok? && r.value.Some? ==> r.value.value.date == row[0]
  {
    if |row| == 0 || |row[0]| == 0 then Err(IndexError)
    else if row[0][0] == '#' then Ok(None)
    else if |row| < 3 then Err(IndexError)
    else if !Contains(Lower(Join(" ", terms)), Lower(row[2])) then Ok(None)
    else if |row| < 4 then Err(IndexError)
    else
      match ParseInt(row[3])
      case None => Err(BadInt)
      case Some(size) =>
        match LocalMagnet(row[1], row[2])
        case Err(e) => Err(e)
        case Ok(magnet) => Ok(Some(LocalResult(row[0], size, Units[UnitIndex(size)], magnet)))
  }

  /** The results of all rows, in file order, before the cap; the first error is raised. */
  function AllMatches(rows: seq<seq<string>>, terms: seq<string>): Result<seq<LocalResult>>
    decreases |rows|
  {
    if |rows| == 0 then Ok([])
    else
      match ScanRow(rows[0], terms)
      case Err(e) => Err(e)
      case Ok(head) =>
        match AllMatches(rows[1..], terms)
        case Err(e) => Err(e)
        case Ok(tail) => Ok((if head.Some? then [head.value] else []) + tail)
  }

  const MaxResults: nat := 30

  /** What search returns: at most the first 30 matches. */
  function SearchResult(rows: seq<seq<string>>, terms: seq<string>): Result<seq<LocalResult>> {
    match AllMatches(rows, terms)
    case Err(e) => Err(e)
    case Ok(all) => Ok(if |all| <= MaxResults then all else all[..MaxResults])
  }

  function Prepend<T>(xs: seq<T>, r: Result<seq<T>>): Result<seq<T>> {
    match r
    case Err(e) => Err(e)
    case Ok(v) => Ok(xs + v)
  }

  /** search: the loop over the rows, then the slice to 30 results. */
  method Search(rows: seq<seq<string>>, terms: seq<string>) returns (r: Result<seq<LocalResult>>)
    ensures r == SearchResult(rows, terms)
    ensures r.Ok? ==> |r.value| <= MaxResults
  {
    var results: seq<LocalResult> := [];
    var i := 0;
    assert rows[0..] == rows;
    if AllMatches(rows, terms).Ok? {
      assert [] + AllMatches(rows, terms).value == AllMatches(rows, terms).value;
    }
    while i < |rows|
      invariant 0 <= i <= |rows|
      invariant AllMatches(rows, terms) == Prepend(results, AllMatches(rows[i..], terms))
    {
      var row := rows[i];
      assert rows[i..][0] == row && rows[i..][1..] == rows[i + 1..];
      var scanned := ScanRow(row, terms);
      if scanned.Err? {
        return Err(scanned.error);
      }
      if scanned.value.Some? {
        PrependAssoc(results, [scanned.value.value], AllMatches(rows[i + 1..], terms));
        results := results + [scanned.value.value];
      } else {
        assert [] + results == results;
        PrependAssoc(results, [], AllMatches(rows[i + 1..], terms));
        assert results + [] == results;
      }
      i := i + 1;
    }
    assert AllMatches(rows[i..], terms) == Ok([]);
    assert results + [] == results;
    if |results| > MaxResults {
      results := results[..MaxResults];
    }
    return Ok(results);
  }

  lemma PrependAssoc<T>(xs: seq<T>, ys: seq<T>, r: Result<seq<T>>)
    ensures Prepend(xs, Prepend(ys, r)) == Prepend(xs + ys, r)
  {
    if r.Ok? {
      assert xs + (ys + r.value) == (xs + ys) + r.value;
    }
  }

  /** The rows the search keeps, in file order. */
  function Kept(rows: seq<seq<string>>, terms: seq<string>): seq<seq<string>>
    decreases |rows|
  {
    if |rows| == 0 then []
    else (if Matches(rows[0], terms) then [rows[0]] else []) + Kept(rows[1..], terms)
  }

  /** Each result is what scanning the kept row at the same position gives. */
  predicate ResultsOf(kept: seq<seq<string>>, all: seq<LocalResult>, terms: seq<string>) {
    |all| == |kept| && forall k :: 0 <= k < |kept| ==> ScanRow(kept[k], terms) == Ok(Some(all[k]))
  }

  lemma ResultsOfCons(row: seq<string>, x: LocalResult, kept: seq<seq<string>>, all: seq<LocalResult>, terms: seq<string>)
    requires ScanRow(row, terms) == Ok(Some(x)) && ResultsOf(kept, all, terms)
    ensures ResultsOf([row] + kept, [x] + all, terms)
  {
    var kept', all' := [row] + kept, [x] + all;
    forall k | 0 <= k < |kept'|
      ensures ScanRow(kept'[k], terms) == Ok(Some(all'[k]))
    {
      if k > 0 {
        assert kept'[k] == kept[k - 1] && all'[k] == all[k - 1];
      }
    }
  }

  /**
   * When the search succeeds, its matches are exactly the kept rows, one
   * result per kept row and in the same order.
   */
  lemma {:induction false} AllMatchesAreKept(rows: seq<seq<string>>, terms: seq<string>)
    requires AllMatches(rows, terms).Ok?
    ensures |AllMatches(rows, terms).value| == |Kept(rows, terms)|
    ensures forall k :: 0 <= k < |Kept(rows, terms)| ==>
              ScanRow(Kept(rows, terms)[k], terms) == Ok(Some(AllMatches(rows, terms).value[k]))
  {
    KeptResults(rows, terms);
  }

  lemma {:induction false} KeptResults(rows: seq<seq<string>>, terms: seq<string>)
    requires AllMatches(rows, terms).Ok?
    ensures ResultsOf(Kept(rows, terms), AllMatches(rows, terms).value, terms)
    decreases |rows|
  {
    if |rows| > 0 {
      KeptResults(rows[1..], terms);
      var head := ScanRow(rows[0], terms);
      var tail := AllMatches(rows[1..], terms).value;
      if head.value.Some? {
        assert Kept(rows, terms) == [rows[0]] + Kept(rows[1..], terms);
        assert AllMatches(rows, terms).value == [head.value.value] + tail;
        ResultsOfCons(rows[0], head.value.value, Kept(rows[1..], terms), tail, terms);
      } else {
        assert Kept(rows, terms) == Kept(rows[1..], terms);
        assert AllMatches(rows, terms).value == tail;
      }
    }
  }

  /** A row is kept exactly when it is one of the rows and it matches. */
  lemma {:induction false} KeptIff(rows: seq<seq<string>>, terms: seq<string>, row: seq<string>)
    ensures row in Kept(rows, terms) <==> row in rows && Matches(row, terms)
    decreases |rows|
  {
    if |rows| > 0 {
      KeptIff(rows[1..], terms, row);
      assert rows == [rows[0]] + rows[1..];
    }
  }

  /** A comment row adds nothing. */
  lemma CommentSkipped(row: seq<string>, rest: seq<seq<string>>, terms: seq<string>)
    requires |row| > 0 && |row[0]| > 0 && row[0][0] == '#'
    ensures AllMatches([row] + rest, terms) == AllMatches(rest, terms)
  {
    assert ([row] + rest)[0] == row && ([row] + rest)[1..] == rest;
    if AllMatches(rest, terms).Ok? {
      assert [] + AllMatches(rest, terms).value == AllMatches(rest, terms).value;
    }
  }

  /** The cap keeps the first 30 matches, and everything when there are fewer. */
  lemma SearchIsPrefix(rows: seq<seq<string>>, terms: seq<string>)
    requires AllMatches(rows, terms).Ok?
    ensures SearchResult(rows, terms).Ok?
    ensures var all := AllMatches(rows, terms).value;
            var r := SearchResult(rows, terms).value;
            |r| == (if |all| < MaxResults then |all| else MaxResults) && r == all[..|r|]
  {
  }
}
