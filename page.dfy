/**
 * Result-page classification and row extraction of pirate/torrent.py
 * (parse_page, parse_table), over an abstract document: the HTML parser
 * itself is not modelled, only what the code asks of its output.
 */
module Page {
  import opened Base
  import opened Text

  /** An `<a>` tag: its CSS classes and its `href` attribute, if any. */
  datatype Anchor = Anchor(classes: seq<string>, href: Option<string>)

  /**
   * The `<font class="detDesc">` of a row, reduced to the first match of
   * the size pattern and of the uploaded pattern (None when the pattern
   * does not match); the regular expressions are treated as extractors.
   */
  datatype Description = Description(size: Option<string>, uploaded: Option<string>)

  /** A `<tr>`: its anchors in document order, the text of its `<td>` cells, its description. */
  datatype Row = Row(anchors: seq<Anchor>, cells: seq<string>, desc: Option<Description>)

  /** A `<table id="searchResult">`. */
  datatype Table = Table(rows: seq<Row>)

  /** A fetched page: its result tables and whether the "No hits" sentence occurs in it. */
  datatype Document = Document(tables: seq<Table>, noHits: bool)

  /** The dictionary built for one row: always exactly these six keys. */
  datatype Record = Record(magnet: string, seeds: string, leechers: string,
                           size: seq<string>, uploaded: string, id: string)

  const Blocked: Error := IOError("Blocked mirror detected.")
  const NoMagnets: Error := IOError("Mirror does not contain magnets.")

  // ---------------------------------------------------------------- one row

  /** `row.find('a', class_='detLink')`: the first anchor with that class. */
  function FindDetLink(anchors: seq<Anchor>): (r: Option<Anchor>)
    ensures r.Some? ==> r.value in anchors && "detLink" in r.value.classes
    ensures r.None? <==> forall k :: 0 <= k < |anchors| ==> "detLink" !in anchors[k].classes
    decreases |anchors|
  {
    if |anchors| == 0 then None
    else if "detLink" in anchors[0].classes then Some(anchors[0])
    else FindDetLink(anchors[1..])
  }

  /**
   * `row.find(lambda tag: tag.name == 'a' and tag['href'].startswith('magnet'))`:
   * the href of the first anchor whose href starts with "magnet"; reading the
   * href of an anchor that has none raises KeyError on the way.
   */
  function FindMagnet(anchors: seq<Anchor>): (r: Result<Option<string>>)
    ensures r.Ok? && r.value.Some? ==>
      StartsWith(r.value.value, "magnet") && exists k :: 0 <= k < |anchors| && anchors[k].href == r.value
    ensures r.Ok? && r.value.None? <==>
      forall k :: 0 <= k < |anchors| ==> anchors[k].href.Some? && !StartsWith(anchors[k].href.value, "magnet")
    ensures r.Err? ==> r.error == KeyError && exists k :: 0 <= k < |anchors| && anchors[k].href.None?
    decreases |anchors|
  {
    if |anchors| == 0 then Ok(None)
    else if anchors[0].href.None? then Err(KeyError)
    else if StartsWith(anchors[0].href.value, "magnet") then Ok(Some(anchors[0].href.value))
    else
      var rest := FindMagnet(anchors[1..]);
      assert rest.Ok? && rest.value.Some? ==> anchors[1..][0..] == anchors[1..];
      rest
  }

  /**
   * The row has a detLink anchor with an href of at least three
   * '/'-separated pieces, and at least two cells: the id and the counts
   * are read without raising.
   */
  predicate HeadReadable(row: Row) {
    var link := FindDetLink(row.anchors);
    link.Some? && link.value.href.Some? && |Split(link.value.href.value, '/')| >= 3 && |row.cells| >= 2
  }

  /** A magnet anchor was found after a readable head. */
  predicate MagnetFound(row: Row) {
    HeadReadable(row) && FindMagnet(row.anchors).Ok? && FindMagnet(row.anchors).value.Some?
  }

  /**
   * One row of parse_table: Ok(None) when the row is skipped (no detLink
   * anchor, or no magnet anchor), Ok(Some(record)) when it is kept, Err when
   * the code raises.
   */
  function ParseRow(row: Row): (r: Result<Option<Record>>)
    ensures r == Ok(None) <==>
      FindDetLink(row.anchors).None? || (HeadReadable(row) && FindMagnet(row.anchors) == Ok(None))
    ensures r.Ok? && r.value.Some? <==>
      MagnetFound(row) && row.desc.Some? && row.desc.value.size.Some? && row.desc.value.uploaded.Some?
    ensures r.Ok? && r.value.Some? ==>
      var link := FindDetLink(row.anchors);
      var rec := r.value.value;
      && link.Some? && link.value.href.Some?
      && |Split(link.value.href.value, '/')| >= 3
      && rec.id == Split(link.value.href.value, '/')[2]
      && |row.cells| >= 2
      && rec.seeds == row.cells[|row.cells| - 2]
      && rec.leechers == row.cells[|row.cells| - 1]
      && FindMagnet(row.anchors) == Ok(Some(rec.magnet))
      && StartsWith(rec.magnet, "magnet")
      && row.desc.Some? && row.desc.value.size.Some? && row.desc.value.uploaded.Some?
      && rec.size == Words(row.desc.value.size.value)
      && rec.uploaded == row.desc.value.uploaded.value
    ensures r.Err? ==> r.error in {KeyError, IndexError, ValueError("not enough values to unpack"), AttributeError}
    ensures r == Err(KeyError) <==>
      (FindDetLink(row.anchors).Some? && FindDetLink(row.anchors).value.href.None?)
      || (HeadReadable(row) && FindMagnet(row.anchors).Err?)
    ensures r == Err(IndexError) <==>
      (FindDetLink(row.anchors).Some? && FindDetLink(row.anchors).value.href.Some?
       && |Split(FindDetLink(row.anchors).value.href.value, '/')| < 3)
      || (MagnetFound(row) && row.desc.Some? && (row.desc.value.size.None? || row.desc.value.uploaded.None?))
    ensures r == Err(ValueError("not enough values to unpack")) <==>
      FindDetLink(row.anchors).Some? && FindDetLink(row.anchors).value.href.Some?
      && |Split(FindDetLink(row.anchors).value.href.value, '/')| >= 3 && |row.cells| < 2
    ensures r == Err(AttributeError) <==> MagnetFound(row) && row.desc.None?
  {
    match FindDetLink(row.anchors)
    case None => Ok(None)
    case Some(link) =>
      if link.href.None? then Err(KeyError)
      else
        var pieces := Split(link.href.value, '/');
        if |pieces| < 3 then Err(IndexError)
        else if |row.cells| < 2 then Err(ValueError("not enough values to unpack"))
        else
          var seeds, leechers := row.cells[|row.cells| - 2], row.cells[|row.cells| - 1];
          match FindMagnet(row.anchors)
          case Err(e) => Err(e)
          case Ok(None) => Ok(None)
          case Ok(Some(magnet)) =>
            if row.desc.None? then Err(AttributeError)
            else if row.desc.value.size.None? then Err(IndexError)
            else if row.desc.value.uploaded.None? then Err(IndexError)
            else Ok(Some(Record(magnet, seeds, leechers, Words(row.desc.value.size.value),
                                row.desc.value.uploaded.value, pieces[2])))
  }

  // ---------------------------------------------------------------- a table

  /** The records of the given rows, in row order; the first error stops the walk. */
  function ParseRows(rows: seq<Row>): Result<seq<Record>>
    decreases |rows|
  {
    if |rows| == 0 then Ok([])
    else
      match ParseRow(rows[0])
      case Err(e) => Err(e)
      case Ok(head) =>
        match ParseRows(rows[1..])
        case Err(e) => Err(e)
        case Ok(tail) => Ok((if head.Some? then [head.value] else []) + tail)
  }

  /** The rows after the heading row: `table('tr')[1:]`. */
  function DataRows(table: Table): seq<Row> {
    if |table.rows| == 0 then [] else table.rows[1..]
  }

  /** ParseRows over a prefix extends by one row at a time. */
  lemma {:induction false} ParseRowsSnoc(rows: seq<Row>, row: Row)
    requires ParseRows(rows).Ok?
    ensures ParseRows(rows + [row]) ==
      match ParseRow(row)
      case Err(e) => Err(e)
      case Ok(head) => Ok(ParseRows(rows).value + (if head.Some? then [head.value] else []))
    decreases |rows|
  {
    if |rows| == 0 {
      assert rows + [row] == [row];
      assert [row][1..] == [];
      match ParseRow(row)
      case Err(e) =>
      case Ok(head) =>
        var hd := if head.Some? then [head.value] else [];
        assert ParseRows([row]) == Ok(hd + []);
        assert hd + [] == [] + hd;
    } else {
      var all := rows + [row];
      assert all[1..] == rows[1..] + [row];
      assert all[0] == rows[0];
      ParseRowsSnoc(rows[1..], row);
      var h := ParseRow(rows[0]).value;
      var hs := if h.Some? then [h.value] else [];
      var p1 := ParseRows(rows[1..]).value;
      assert ParseRows(rows).value == hs + p1;
      match ParseRow(row)
      case Err(e) =>
        assert ParseRows(all[1..]) == Err(e);
      case Ok(head) =>
        var hd := if head.Some? then [head.value] else [];
        assert ParseRows(all[1..]) == Ok(p1 + hd);
        assert ParseRows(all) == Ok(hs + (p1 + hd));
        Assoc(hs, p1, hd);
    }
  }

  /** A row that raises makes the whole table raise. */
  lemma {:induction false} ParseRowsSnocErr(rows: seq<Row>, row: Row)
    requires ParseRows(rows).Err?
    ensures ParseRows(rows + [row]) == ParseRows(rows)
    decreases |rows|
  {
    assert (rows + [row])[0] == rows[0];
    if ParseRow(rows[0]).Ok? {
      assert (rows + [row])[1..] == rows[1..] + [row];
      ParseRowsSnocErr(rows[1..], row);
    }
  }

  /** parse_table: the loop over the data rows, appending each kept record. */
  method ParseTable(table: Table) returns (r: Result<seq<Record>>)
    ensures r == ParseRows(DataRows(table))
  {
    var rows := DataRows(table);
    var results: seq<Record> := [];
    var i := 0;
    while i < |rows|
      invariant 0 <= i <= |rows|
      invariant ParseRows(rows[..i]) == Ok(results)
    {
      var row := rows[i];
      assert rows[..i + 1] == rows[..i] + [row];
      ParseRowsSnoc(rows[..i], row);
      var parsed := ParseRow(row);
      if parsed.Err? {
        assert ParseRows(rows[..i + 1]) == Err(parsed.error);
        PrefixErr(rows, i + 1);
        return Err(parsed.error);
      }
      if parsed.value.Some? {
        results := results + [parsed.value.value];
      } else {
        assert results + [] == results;
      }
      i := i + 1;
    }
    assert rows[..i] == rows;
    return Ok(results);
  }

  /** An error in a prefix of the rows is the error of all of them. */
  lemma {:induction false} PrefixErr(rows: seq<Row>, n: nat)
    requires n <= |rows| && ParseRows(rows[..n]).Err?
    ensures ParseRows(rows) == ParseRows(rows[..n])
    decreases |rows| - n
  {
    if n < |rows| {
      assert rows[..n + 1] == rows[..n] + [rows[n]];
      ParseRowsSnocErr(rows[..n], rows[n]);
      PrefixErr(rows, n + 1);
    } else {
      assert rows[..n] == rows;
    }
  }

  /** A table never yields more records than it has rows. */
  lemma {:induction false} ParseRowsBound(rows: seq<Row>)
    requires ParseRows(rows).Ok?
    ensures |ParseRows(rows).value| <= |rows|
    decreases |rows|
  {
    if |rows| > 0 {
      ParseRowsBound(rows[1..]);
    }
  }

  /** Every record comes from one row of the table that yields exactly it. */
  lemma {:induction false} ParseRowsProvenance(rows: seq<Row>)
    requires ParseRows(rows).Ok?
    ensures forall rec :: rec in ParseRows(rows).value ==>
      exists k :: 0 <= k < |rows| && ParseRow(rows[k]) == Ok(Some(rec))
    decreases |rows|
  {
    if |rows| > 0 {
      ParseRowsProvenance(rows[1..]);
      forall rec | rec in ParseRows(rows).value
        ensures exists k :: 0 <= k < |rows| && ParseRow(rows[k]) == Ok(Some(rec))
      {
        if rec !in ParseRows(rows[1..]).value {
          assert ParseRow(rows[0]) == Ok(Some(rec));
        } else {
          var k :| 0 <= k < |rows[1..]| && ParseRow(rows[1..][k]) == Ok(Some(rec));
          assert ParseRow(rows[k + 1]) == Ok(Some(rec));
        }
      }
    }
  }

  /** A row without a detLink anchor contributes nothing. */
  lemma SkipRowWithoutDetLink(row: Row, rest: seq<Row>)
    requires FindDetLink(row.anchors).None?
    ensures ParseRows([row] + rest) == ParseRows(rest)
  {
    assert ([row] + rest)[1..] == rest;
    assert ([row] + rest)[0] == row;
    if ParseRows(rest).Ok? {
      assert [] + ParseRows(rest).value == ParseRows(rest).value;
    }
  }

  /** The errors a table can raise are those of its rows. */
  lemma {:induction false} ParseRowsErrors(rows: seq<Row>)
    ensures ParseRows(rows).Err? ==>
      ParseRows(rows).error in {KeyError, IndexError, ValueError("not enough values to unpack"), AttributeError}
    decreases |rows|
  {
    if |rows| > 0 {
      ParseRowsErrors(rows[1..]);
    }
  }

  // ---------------------------------------------------------------- a page

  /** The for-else over the tables: the first table that yields records. */
  function FirstNonEmpty(tables: seq<Table>): Result<seq<Record>>
    decreases |tables|
  {
    if |tables| == 0 then Err(NoMagnets)
    else
      match ParseRows(DataRows(tables[0]))
      case Err(e) => Err(e)
      case Ok(rs) => if |rs| > 0 then Ok(rs) else FirstNonEmpty(tables[1..])
  }

  /** What parse_page returns or raises. */
  function PageResult(doc: Document): Result<seq<Record>> {
    if |doc.tables| == 0 && !doc.noHits then Err(Blocked)
    else if doc.noHits then Ok([])
    else FirstNonEmpty(doc.tables)
  }

  /** parse_page: classify the page, then walk the tables until one yields records. */
  method ParsePage(doc: Document) returns (r: Result<seq<Record>>)
    ensures r == PageResult(doc)
  {
    if |doc.tables| == 0 && !doc.noHits {
      return Err(Blocked);
    }
    if doc.noHits {
      return Ok([]);
    }
    var i := 0;
    while i < |doc.tables|
      invariant 0 <= i <= |doc.tables|
      invariant FirstNonEmpty(doc.tables) == FirstNonEmpty(doc.tables[i..])
    {
      var results := ParseTable(doc.tables[i]);
      assert doc.tables[i..][0] == doc.tables[i];
      assert doc.tables[i..][1..] == doc.tables[i + 1..];
      if results.Err? {
        return results;
      }
      if |results.value| > 0 {
        return results;
      }
      i := i + 1;
    }
    return Err(NoMagnets);
  }

  /** The "No hits" sentence wins over any tables. */
  lemma NoHitsIsEmpty(doc: Document)
    requires doc.noHits
    ensures PageResult(doc) == Ok([])
  {
  }

  /** The mirror counts as blocked exactly when there are no tables and no "No hits" sentence. */
  lemma BlockedIff(doc: Document)
    ensures PageResult(doc) == Err(Blocked) <==> |doc.tables| == 0 && !doc.noHits
  {
    if |doc.tables| > 0 && !doc.noHits {
      FirstNonEmptyErrors(doc.tables);
    }
  }

  /** An error from the table walk is a row error or "no magnets", never "blocked". */
  lemma {:induction false} FirstNonEmptyErrors(tables: seq<Table>)
    ensures FirstNonEmpty(tables).Err? ==> FirstNonEmpty(tables).error != Blocked
    decreases |tables|
  {
    assert Blocked != NoMagnets by {
      assert "Blocked mirror detected."[0] != "Mirror does not contain magnets."[0];
    }
    if |tables| > 0 {
      var first := ParseRows(DataRows(tables[0]));
      ParseRowsErrors(DataRows(tables[0]));
      if first.Ok? && |first.value| == 0 {
        FirstNonEmptyErrors(tables[1..]);
      }
    }
  }

  /** An empty success means the page said "No hits": a results page never succeeds empty. */
  lemma {:induction false} EmptyMeansNoHits(doc: Document)
    requires PageResult(doc) == Ok([])
    ensures doc.noHits
  {
    if !doc.noHits {
      FirstNonEmptyNonEmpty(doc.tables);
    }
  }

  lemma {:induction false} FirstNonEmptyNonEmpty(tables: seq<Table>)
    ensures FirstNonEmpty(tables).Ok? ==> |FirstNonEmpty(tables).value| > 0
    decreases |tables|
  {
    if |tables| > 0 {
      FirstNonEmptyNonEmpty(tables[1..]);
    }
  }

  /** Every table before index i parsed without error to no records. */
  predicate EmptyBefore(tables: seq<Table>, i: int)
    requires 0 <= i <= |tables|
  {
    forall j :: 0 <= j < i ==> ParseRows(DataRows(tables[j])) == Ok([])
  }

  /**
   * A successful walk returns the records of some table, and every table
   * before it parsed without error to no records (fake ad tables are skipped).
   */
  lemma {:induction false} FirstNonEmptyIsFirst(tables: seq<Table>)
    requires FirstNonEmpty(tables).Ok?
    ensures exists i :: 0 <= i < |tables| && ParseRows(DataRows(tables[i])) == FirstNonEmpty(tables)
              && EmptyBefore(tables, i)
    decreases |tables|
  {
    var first := ParseRows(DataRows(tables[0]));
    if |first.value| > 0 {
      assert ParseRows(DataRows(tables[0])) == FirstNonEmpty(tables) && EmptyBefore(tables, 0);
    } else {
      var rest := tables[1..];
      assert FirstNonEmpty(tables) == FirstNonEmpty(rest);
      FirstNonEmptyIsFirst(rest);
      var i :| 0 <= i < |rest| && ParseRows(DataRows(rest[i])) == FirstNonEmpty(rest) && EmptyBefore(rest, i);
      assert tables[i + 1] == rest[i];
      assert EmptyBefore(tables, i + 1) by {
        forall j | 0 <= j < i + 1
          ensures ParseRows(DataRows(tables[j])) == Ok([])
        {
          if j > 0 {
            assert tables[j] == rest[j - 1];
          }
        }
      }
    }
  }

  /** Tables that all parse to nothing make the mirror "not contain magnets". */
  lemma {:induction false} AllEmptyTables(tables: seq<Table>)
    requires forall j :: 0 <= j < |tables| ==> ParseRows(DataRows(tables[j])) == Ok([])
    ensures FirstNonEmpty(tables) == Err(NoMagnets)
    decreases |tables|
  {
    if |tables| > 0 {
      AllEmptyTables(tables[1..]);
    }
  }
}
