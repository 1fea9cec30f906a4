/**
 * Saving chosen results (save_torrents, save_magnets, copy_magnets and the
 * URL of get_torrent in pirate/torrent.py): the file name taken from the
 * magnet's `dn=` field, the info hash taken from its `btih:` field, and the
 * loops over the chosen links. Downloads are an oracle from URL to octets or
 * to the error urllib raises; the file writes are returned, not performed.
 */
module Save {
  import opened Base
  import opened Text
  import opened Url
  import opened Codec
  import opened Local

  // ---------------------------------------------------------------- the dn= field

  /** Length of the run of characters other than '&' that starts s. */
  function NonAmpRun(s: string): (n: nat)
    ensures n <= |s|
    ensures forall i :: 0 <= i < n ==> s[i] != '&'
    ensures n < |s| ==> s[n] == '&'
    decreases |s|
  {
    if |s| == 0 || s[0] == '&' then 0 else 1 + NonAmpRun(s[1..])
  }

  /**
   * `re.search(r'dn=([^\&]*)', magnet)`: the characters up to the next '&'
   * after the leftmost "dn="; None when there is no "dn=".
   */
  function DnValue(m: string): (r: Option<string>)
    ensures r.Some? <==> Contains("dn=", m)
    ensures r.Some? ==> '&' !in r.value
    decreases |m|
  {
    if StartsWith(m, "dn=") then Some(m[3..][..NonAmpRun(m[3..])])
    else if |m| == 0 then None
    else DnValue(m[1..])
  }

  /** A prefix without 'd' cannot hold the match. */
  lemma {:induction false} DnValueSkip(p: string, s: string)
    requires 'd' !in p
    ensures DnValue(p + s) == DnValue(s)
    decreases |p|
  {
    if |p| > 0 {
      assert (p + s)[0] == p[0];
      assert (p + s)[1..] == p[1..] + s;
      DnValueSkip(p[1..], s);
    } else {
      assert p + s == s;
    }
  }

  /** The value is everything up to the '&' that ends it. */
  lemma DnValueAt(v: string, rest: string)
    requires '&' !in v
    requires rest == [] || rest[0] == '&'
    ensures DnValue("dn=" + v + rest) == Some(v)
  {
    var m := "dn=" + v + rest;
    assert StartsWith(m, "dn=");
    assert m[3..] == v + rest;
    assert NonAmpRun(v + rest) == |v| by {
      NonAmpRunOf(v, rest);
    }
    assert (v + rest)[..|v|] == v;
  }

  lemma {:induction false} NonAmpRunOf(v: string, rest: string)
    requires '&' !in v
    requires rest == [] || rest[0] == '&'
    ensures NonAmpRun(v + rest) == |v|
    decreases |v|
  {
    if |v| > 0 {
      assert (v + rest)[1..] == v[1..] + rest;
      NonAmpRunOf(v[1..], rest);
    } else {
      assert v + rest == rest;
    }
  }

  // ---------------------------------------------------------------- the btih: field

  predicate IsLowerHex(c: char) { '0' <= c <= '9' || 'a' <= c <= 'f' }

  /**
   * The hash pattern at index 0: "btih:" and then 40 characters the pattern
   * accepts (`lowerOnly` for `[a-f0-9]`, otherwise any case of hexadecimal).
   */
  predicate BtihAt(m: string, lowerOnly: bool) {
    |m| >= 45 && m[..5] == "btih:"
    && forall k :: 5 <= k < 45 ==> (if lowerOnly then IsLowerHex(m[k]) else IsHex(m[k]))
  }

  /** The leftmost match of the hash pattern: its 40 digits, or None. */
  function BtihSearch(m: string, lowerOnly: bool): (r: Option<string>)
    ensures r.Some? ==> |r.value| == 40 && AllHex(r.value)
    ensures r.Some? && lowerOnly ==> forall k :: 0 <= k < 40 ==> IsLowerHex(r.value[k])
    decreases |m|
  {
    if BtihAt(m, lowerOnly) then Some(m[5..45])
    else if |m| < 45 then None
    else BtihSearch(m[1..], lowerOnly)
  }

  /**
   * `int(re.search(r'btih:([a-f0-9]{40})', magnet).group(1), 16)` as written:
   * only lower-case digits match, and no match raises AttributeError.
   */
  function InfoHash(m: string): (r: Result<nat>)
    ensures r.Err? ==> r.error == AttributeError
    ensures r.Err? <==> forall i :: 0 <= i <= |m| ==> !BtihAt(m[i..], true)
    ensures r.Ok? ==> r.value < Pow16(40)
    ensures r.Ok? ==> exists i :: 0 <= i <= |m| - 45 && BtihAt(m[i..], true)
                        && r.value == HexToNat(m[i + 5..i + 45])
  {
    match BtihSearch(m, true)
    case None =>
      BtihSearchLeftmost(m, true);
      Err(AttributeError)
    case Some(h) =>
      BtihSearchLeftmost(m, true);
      HexToNatBound(h);
      Ok(HexToNat(h))
  }

  /**
   * The search finds the leftmost match: None exactly when the pattern
   * matches nowhere, otherwise the 40 digits of a match with none before it.
   */
  lemma {:induction false} BtihSearchLeftmost(m: string, lowerOnly: bool)
    ensures BtihSearch(m, lowerOnly).None? <==> forall i :: 0 <= i <= |m| ==> !BtihAt(m[i..], lowerOnly)
    ensures BtihSearch(m, lowerOnly).Some? ==>
      exists i :: 0 <= i <= |m| - 45 && BtihAt(m[i..], lowerOnly)
        && BtihSearch(m, lowerOnly).value == m[i + 5..i + 45]
        && forall j :: 0 <= j < i ==> !BtihAt(m[j..], lowerOnly)
    decreases |m|
  {
    if BtihAt(m, lowerOnly) {
      assert m[0..] == m;
      assert m[0..][5..45] == m[5..45];
    } else if |m| < 45 {
      forall i | 0 <= i <= |m|
        ensures !BtihAt(m[i..], lowerOnly)
      {
        if i == 0 {
          assert m[0..] == m;
        }
      }
    } else {
      var t := m[1..];
      BtihSearchLeftmost(t, lowerOnly);
      assert forall i :: 0 <= i <= |t| ==> t[i..] == m[i + 1..];
      assert m[0..] == m;
      if BtihSearch(t, lowerOnly).Some? {
        var i :| 0 <= i <= |t| - 45 && BtihAt(t[i..], lowerOnly)
          && BtihSearch(t, lowerOnly).value == t[i + 5..i + 45]
          && forall j :: 0 <= j < i ==> !BtihAt(t[j..], lowerOnly);
        assert t[i + 5..i + 45] == m[i + 1 + 5..i + 1 + 45];
        forall j | 0 <= j < i + 1
          ensures !BtihAt(m[j..], lowerOnly)
        {
          if j > 0 {
            assert m[j..] == t[j - 1..];
          }
        }
      } else {
        forall i | 0 <= i <= |m|
          ensures !BtihAt(m[i..], lowerOnly)
        {
          if i > 0 {
            assert m[i..] == t[i - 1..];
          }
        }
      }
    }
  }

  /** The info hash with the pattern matched without regard to case, as the magnets of the local database need. */
  function InfoHashAnyCase(m: string): (r: Result<nat>)
    ensures r.Err? ==> r.error == AttributeError
    ensures r.Ok? ==> r.value < Pow16(40)
  {
    match BtihSearch(m, false)
    case None => Err(AttributeError)
    case Some(h) => HexToNatBound(h); Ok(HexToNat(h))
  }

  function Pow16(k: nat): (p: nat)
    ensures p >= 1
  {
    if k == 0 then 1 else 16 * Pow16(k - 1)
  }

  lemma {:induction false} HexToNatBound(s: string)
    requires AllHex(s)
    ensures HexToNat(s) < Pow16(|s|)
    decreases |s|
  {
    if |s| > 0 {
      HexToNatBound(s[..|s| - 1]);
    }
  }

  /** A prefix without 'b' cannot hold the match. */
  lemma {:induction false} BtihSkip(p: string, s: string, lowerOnly: bool)
    requires 'b' !in p
    ensures BtihSearch(p + s, lowerOnly) == BtihSearch(s, lowerOnly)
    decreases |p|
  {
    if |p| > 0 {
      assert (p + s)[0] == p[0];
      assert !BtihAt(p + s, lowerOnly) by {
        if |p + s| >= 45 {
          assert (p + s)[..5][0] == p[0];
        }
      }
      assert (p + s)[1..] == p[1..] + s;
      BtihSkip(p[1..], s, lowerOnly);
    } else {
      assert p + s == s;
    }
  }

  /** A string without 'b' has no match. */
  lemma {:induction false} BtihNone(s: string, lowerOnly: bool)
    requires 'b' !in s
    ensures BtihSearch(s, lowerOnly) == None
    decreases |s|
  {
    if |s| > 0 {
      assert !BtihAt(s, lowerOnly) by {
        assert |s| >= 45 ==> s[..5][0] == s[0];
      }
      BtihNone(s[1..], lowerOnly);
    }
  }

  // ---------------------------------------------------------------- file names

  /** `name.replace('/', '_').replace('\\', '_')`. */
  function Sanitize(name: string): (r: string)
    ensures '/' !in r && '\\' !in r
    ensures |r| == |name|
    ensures forall i :: 0 <= i < |name| ==> r[i] == (if name[i] == '/' || name[i] == '\\' then '_' else name[i])
  {
    var once := Replace(name, "/", "_");
    ReplaceCharSpec(name, '/', '_');
    ReplaceCharSpec(once, '\\', '_');
    Replace(once, "\\", "_")
  }

  /** The torrent name as written: unquote, and then every '+' becomes a space. */
  function SaveName(dn: string): (r: string)
    ensures '/' !in r && '\\' !in r && '+' !in r
    ensures |r| == |Unquote(dn)|
    ensures forall i :: 0 <= i < |r| ==>
      r[i] == (if Unquote(dn)[i] == '+' then ' '
               else if Unquote(dn)[i] == '/' || Unquote(dn)[i] == '\\' then '_'
               else Unquote(dn)[i])
  {
    var u := Unquote(dn);
    ReplaceCharSpec(u, '+', ' ');
    var spaced := Replace(u, "+", " ");
    var r := Sanitize(spaced);
    assert forall i :: 0 <= i < |r| ==> r[i] != '+';
    r
  }

  /** The torrent name: `unquote_plus`, which turns only the form-encoded '+' into a space. */
  function SaveNameUnquotePlus(dn: string): (r: string)
    ensures '/' !in r && '\\' !in r
  {
    Sanitize(UnquotePlus(dn))
  }

  /** `os.path.join(folder, base)` on POSIX: an absolute base replaces the folder, otherwise one '/' separates them. */
  function PathJoin(folder: string, base: string): string {
    if |base| > 0 && base[0] == '/' then base
    else if folder == "" || folder[|folder| - 1] == '/' then folder + base
    else folder + "/" + base
  }

  /** A base without '/' lands directly in the folder: it is the path's last component. */
  lemma FileInFolder(folder: string, base: string)
    requires '/' !in base
    ensures var p := PathJoin(folder, base);
            |p| >= |base| && p[|p| - |base|..] == base
            && (|p| == |base| || p[|p| - |base| - 1] == '/')
            && (p[..|p| - |base|] == folder || p[..|p| - |base|] == folder + "/")
  {
    if |base| > 0 {
      assert base[0] in base;
    }
    var p := PathJoin(folder, base);
    if folder == "" || folder[|folder| - 1] == '/' {
      assert p == folder + base;
      assert p[..|p| - |base|] == folder;
    } else {
      assert p == (folder + "/") + base;
      assert p[..|p| - |base|] == folder + "/";
    }
  }

  /** Where one chosen magnet is saved, and the hash it names. */
  datatype Target = Target(path: string, hash: nat)

  /**
   * The per-link preamble of save_torrents and save_magnets: the magnet at
   * the index (IndexError), its `dn=` field (AttributeError), its hash
   * (AttributeError), then the sanitised file name in the folder.
   */
  function SaveTarget(magnets: seq<string>, link: int, folder: string, ext: string): (r: Result<Target>)
    ensures r.Ok? ==> -|magnets| <= link < |magnets|
    ensures r.Err? ==> r.error == IndexError || r.error == AttributeError
    ensures PyIndex(magnets, link).Err? ==> r == Err(IndexError)
    ensures PyIndex(magnets, link).Ok? ==>
      var m := PyIndex(magnets, link).value;
      && (r.Err? <==> !Contains("dn=", m) || InfoHash(m).Err?)
      && (r.Ok? ==> r.value.hash == InfoHash(m).value)
  {
    match PyIndex(magnets, link)
    case Err(e) => Err(e)
    case Ok(m) =>
      match DnValue(m)
      case None => Err(AttributeError)
      case Some(dn) =>
        match InfoHash(m)
        case Err(e) => Err(e)
        case Ok(h) => Ok(Target(PathJoin(folder, SaveName(dn) + ext), h))
  }

  /** The path ends in a component that is a name without '/' or '\\' followed by the extension. */
  ghost predicate LastComponentWith(p: string, ext: string) {
    exists name :: '/' !in name && '\\' !in name
      && |p| >= |name + ext| && p[|p| - |name + ext|..] == name + ext
      && (|p| == |name + ext| || p[|p| - |name + ext| - 1] == '/')
  }

  /** Every file is saved under the folder, as its last path component, with the extension. */
  lemma SaveTargetInFolder(magnets: seq<string>, link: int, folder: string, ext: string)
    requires '/' !in ext
    requires SaveTarget(magnets, link, folder, ext).Ok?
    ensures LastComponentWith(SaveTarget(magnets, link, folder, ext).value.path, ext)
  {
    var m := PyIndex(magnets, link).value;
    var name := SaveName(DnValue(m).value);
    assert SaveTarget(magnets, link, folder, ext).value.path == PathJoin(folder, name + ext);
    NameInFolder(folder, name, ext);
  }

  lemma NameInFolder(folder: string, name: string, ext: string)
    requires '/' !in name && '\\' !in name && '/' !in ext
    ensures LastComponentWith(PathJoin(folder, name + ext), ext)
  {
    assert '/' !in name + ext;
    FileInFolder(folder, name + ext);
    var p := PathJoin(folder, name + ext);
    assert '/' !in name && '\\' !in name
      && |p| >= |name + ext| && p[|p| - |name + ext|..] == name + ext
      && (|p| == |name + ext| || p[|p| - |name + ext| - 1] == '/');
  }

  // ---------------------------------------------------------------- get_torrent

  /** The torrent cache's address. */
  const CacheHost: string := "http://itorrents.org/torrent/"

  /** `'http://itorrents.org/torrent/{:X}.torrent'.format(h)` as written. */
  function TorrentUrl(h: nat): (u: string)
    ensures |u| > |CacheHost| + 8
    ensures u[..|CacheHost|] == CacheHost && u[|u| - 8..] == ".torrent"
    ensures AllHex(u[|CacheHost|..|u| - 8]) && HexToNat(u[|CacheHost|..|u| - 8]) == h
  {
    var digits := NatToHex(h);
    var u := CacheHost + digits + ".torrent";
    assert u[|CacheHost|..|u| - 8] == digits;
    HexToNatOfNatToHex(h);
    u
  }

  /** The cache URL with all 40 digits of the hash. */
  function TorrentUrlPadded(h: nat): (u: string)
    ensures |u| >= 29 + 40 + 8
  {
    CacheHost + NatToHexPadded(h, 40) + ".torrent"
  }

  /** Every hash below 16^40 gets exactly 40 digits, and they read back as the hash. */
  lemma TorrentUrlDigits(h: nat)
    requires h < Pow16(40)
    ensures |NatToHexPadded(h, 40)| == 40
    ensures HexToNat(NatToHexPadded(h, 40)) == h
  {
    HexToNatOfPadded(h, 40);
    NatToHexLength(h, 40);
  }

  lemma {:induction false} NatToHexLength(n: nat, k: nat)
    requires n < Pow16(k)
    ensures |NatToHex(n)| <= if k == 0 then 1 else k
    decreases n
  {
    if n >= 16 {
      assert k >= 2;
      NatToHexLength(n / 16, k - 1);
    }
  }

  /** As written, a hash whose first digit is 0 loses it: hash 1 has a one-digit name. */
  lemma TorrentUrlDropsZeros()
    ensures |NatToHex(1)| == 1
    ensures TorrentUrl(1) == CacheHost + "1" + ".torrent"
    ensures |NatToHexPadded(1, 40)| == 40
  {
    assert NatToHex(1) == "1";
  }

  // ---------------------------------------------------------------- the loops

  /** A file the loop writes. */
  datatype FileWrite<T> = FileWrite(path: string, content: T)

  /** What a save loop did: the files written, in order, and the exception that ended it, if any. */
  datatype Outcome<T> = Outcome(writes: seq<FileWrite<T>>, error: Option<Error>)

  function Then<T>(ws: seq<FileWrite<T>>, o: Outcome<T>): Outcome<T> {
    Outcome(ws + o.writes, o.error)
  }

  lemma ThenAssoc<T>(a: seq<FileWrite<T>>, b: seq<FileWrite<T>>, o: Outcome<T>)
    ensures Then(a, Then(b, o)) == Then(a + b, o)
  {
    assert a + (b + o.writes) == (a + b) + o.writes;
  }

  /** save_magnets: each magnet, with a newline, in `<name>.magnet`; the first exception ends the loop. */
  function SaveMagnetsSpec(links: seq<int>, magnets: seq<string>, folder: string): Outcome<string>
    decreases |links|
  {
    if |links| == 0 then Outcome([], None)
    else
      match SaveTarget(magnets, links[0], folder, ".magnet")
      case Err(e) => Outcome([], Some(e))
      case Ok(t) =>
        Then([FileWrite(t.path, magnets[if links[0] < 0 then |magnets| + links[0] else links[0]] + "\n")],
             SaveMagnetsSpec(links[1..], magnets, folder))
  }

  /** save_magnets: the loop over the chosen links. */
  method SaveMagnets(links: seq<int>, magnets: seq<string>, folder: string) returns (o: Outcome<string>)
    ensures o == SaveMagnetsSpec(links, magnets, folder)
  {
    var written: seq<FileWrite<string>> := [];
    var i := 0;
    assert links[0..] == links;
    assert Then([], SaveMagnetsSpec(links, magnets, folder)) == SaveMagnetsSpec(links, magnets, folder);
    while i < |links|
      invariant 0 <= i <= |links|
      invariant SaveMagnetsSpec(links, magnets, folder) == Then(written, SaveMagnetsSpec(links[i..], magnets, folder))
    {
      assert links[i..][0] == links[i] && links[i..][1..] == links[i + 1..];
      var target := SaveTarget(magnets, links[i], folder, ".magnet");
      if target.Err? {
        return Outcome(written, Some(target.error));
      }
      var magnet := PyIndex(magnets, links[i]).value;
      var w := FileWrite(target.value.path, magnet + "\n");
      ThenAssoc(written, [w], SaveMagnetsSpec(links[i + 1..], magnets, folder));
      written := written + [w];
      i := i + 1;
    }
    assert written + [] == written;
    return Outcome(written, None);
  }

  /**
   * save_torrents: each hash's torrent from the cache in `<name>.torrent`.
   * An HTTPError is reported and the loop goes on; any other exception ends it.
   */
  function SaveTorrentsSpec(download: string -> Result<seq<byte>>, links: seq<int>, magnets: seq<string>,
                            folder: string): Outcome<seq<byte>>
    decreases |links|
  {
    if |links| == 0 then Outcome([], None)
    else
      match SaveTarget(magnets, links[0], folder, ".torrent")
      case Err(e) => Outcome([], Some(e))
      case Ok(t) =>
        match download(TorrentUrl(t.hash))
        case Err(e) =>
          if e.HttpError? then SaveTorrentsSpec(download, links[1..], magnets, folder)
          else Outcome([], Some(e))
        case Ok(data) => Then([FileWrite(t.path, data)], SaveTorrentsSpec(download, links[1..], magnets, folder))
  }

  /** The link's magnet has a target, and the cache answers its download with an HTTP error. */
  predicate NotCached(download: string -> Result<seq<byte>>, magnets: seq<string>, folder: string, link: int) {
    var t := SaveTarget(magnets, link, folder, ".torrent");
    t.Ok? && download(TorrentUrl(t.value.hash)).Err? && download(TorrentUrl(t.value.hash)).error.HttpError?
  }

  /**
   * The links save_torrents reports as having no cached file, in order: the
   * chosen links whose download raises HTTPError, up to the exception that
   * ends the loop.
   */
  function MissingSpec(download: string -> Result<seq<byte>>, links: seq<int>, magnets: seq<string>,
                       folder: string): (r: seq<int>)
    ensures forall k :: 0 <= k < |r| ==> r[k] in links && NotCached(download, magnets, folder, r[k])
    decreases |links|
  {
    if |links| == 0 then []
    else
      var rest := MissingSpec(download, links[1..], magnets, folder);
      assert forall k :: 0 <= k < |rest| ==> rest[k] in links;
      match SaveTarget(magnets, links[0], folder, ".torrent")
      case Err(_) => []
      case Ok(t) =>
        match download(TorrentUrl(t.hash))
        case Err(e) => if e.HttpError? then [links[0]] + rest else []
        case Ok(_) => rest
  }

  /**
   * Every chosen link the torrent loop gets to is either saved or reported
   * missing: when no exception ends the loop, the two counts add up to the
   * number of chosen links.
   */
  lemma {:induction false} SavedOrMissing(download: string -> Result<seq<byte>>, links: seq<int>,
                                          magnets: seq<string>, folder: string)
    ensures |SaveTorrentsSpec(download, links, magnets, folder).writes| + |MissingSpec(download, links, magnets, folder)| <= |links|
    ensures SaveTorrentsSpec(download, links, magnets, folder).error.None? ==>
      |SaveTorrentsSpec(download, links, magnets, folder).writes| + |MissingSpec(download, links, magnets, folder)| == |links|
    decreases |links|
  {
    if |links| > 0 {
      var tail := links[1..];
      SavedOrMissing(download, tail, magnets, folder);
      var t := SaveTarget(magnets, links[0], folder, ".torrent");
      if t.Ok? {
        var got := download(TorrentUrl(t.value.hash));
        if got.Ok? {
          assert SaveTorrentsSpec(download, links, magnets, folder)
              == Then([FileWrite(t.value.path, got.value)], SaveTorrentsSpec(download, tail, magnets, folder));
          assert MissingSpec(download, links, magnets, folder) == MissingSpec(download, tail, magnets, folder);
        } else if got.error.HttpError? {
          assert SaveTorrentsSpec(download, links, magnets, folder) == SaveTorrentsSpec(download, tail, magnets, folder);
          assert MissingSpec(download, links, magnets, folder) == [links[0]] + MissingSpec(download, tail, magnets, folder);
        }
      }
    }
  }

  /** save_torrents: the loop over the chosen links. */
  method SaveTorrents(download: string -> Result<seq<byte>>, links: seq<int>, magnets: seq<string>, folder: string)
    returns (o: Outcome<seq<byte>>, missing: seq<int>)
    ensures o == SaveTorrentsSpec(download, links, magnets, folder)
    ensures missing == MissingSpec(download, links, magnets, folder)
  {
    var written: seq<FileWrite<seq<byte>>> := [];
    missing := [];
    var i := 0;
    assert links[0..] == links;
    assert Then([], SaveTorrentsSpec(download, links, magnets, folder)) == SaveTorrentsSpec(download, links, magnets, folder);
    while i < |links|
      invariant 0 <= i <= |links|
      invariant SaveTorrentsSpec(download, links, magnets, folder)
                == Then(written, SaveTorrentsSpec(download, links[i..], magnets, folder))
      invariant MissingSpec(download, links, magnets, folder) == missing + MissingSpec(download, links[i..], magnets, folder)
    {
      assert links[i..][0] == links[i] && links[i..][1..] == links[i + 1..];
      var target := SaveTarget(magnets, links[i], folder, ".torrent");
      if target.Err? {
        assert missing + [] == missing;
        return Outcome(written, Some(target.error)), missing;
      }
      var torrent := download(TorrentUrl(target.value.hash));
      if torrent.Err? {
        if !torrent.error.HttpError? {
          assert missing + [] == missing;
          return Outcome(written, Some(torrent.error)), missing;
        }
        assert missing + ([links[i]] + MissingSpec(download, links[i + 1..], magnets, folder))
            == (missing + [links[i]]) + MissingSpec(download, links[i + 1..], magnets, folder);
        missing := missing + [links[i]];
      } else {
        var w := FileWrite(target.value.path, torrent.value);
        ThenAssoc(written, [w], SaveTorrentsSpec(download, links[i + 1..], magnets, folder));
        written := written + [w];
      }
      i := i + 1;
    }
    assert written + [] == written;
    assert missing + [] == missing;
    return Outcome(written, None), missing;
  }

  /** An HTTP error on one link skips that link: the rest are saved as if it had not been chosen. */
  lemma HttpErrorContinues(download: string -> Result<seq<byte>>, link: int, rest: seq<int>,
                           magnets: seq<string>, folder: string)
    requires SaveTarget(magnets, link, folder, ".torrent").Ok?
    requires download(TorrentUrl(SaveTarget(magnets, link, folder, ".torrent").value.hash)).Err?
    requires download(TorrentUrl(SaveTarget(magnets, link, folder, ".torrent").value.hash)).error.HttpError?
    ensures SaveTorrentsSpec(download, [link] + rest, magnets, folder) == SaveTorrentsSpec(download, rest, magnets, folder)
  {
    assert ([link] + rest)[0] == link && ([link] + rest)[1..] == rest;
  }

  /** Every write is to the target of one of the chosen links. */
  ghost predicate FromTargets<T>(ws: seq<FileWrite<T>>, links: seq<int>, magnets: seq<string>, folder: string, ext: string) {
    forall w :: w in ws ==> exists k :: 0 <= k < |links| && SaveTarget(magnets, links[k], folder, ext).Ok?
                                && w.path == SaveTarget(magnets, links[k], folder, ext).value.path
  }

  /** Writes for the later links are writes for all of them. */
  lemma FromTargetsTail<T>(ws: seq<FileWrite<T>>, links: seq<int>, magnets: seq<string>, folder: string, ext: string)
    requires |links| > 0 && FromTargets(ws, links[1..], magnets, folder, ext)
    ensures FromTargets(ws, links, magnets, folder, ext)
  {
    forall w | w in ws
      ensures exists k :: 0 <= k < |links| && SaveTarget(magnets, links[k], folder, ext).Ok?
                && w.path == SaveTarget(magnets, links[k], folder, ext).value.path
    {
      var k :| 0 <= k < |links[1..]| && SaveTarget(magnets, links[1..][k], folder, ext).Ok?
                && w.path == SaveTarget(magnets, links[1..][k], folder, ext).value.path;
      assert links[1..][k] == links[k + 1];
    }
  }

  /** A write to the first link's target, in front of writes for the later links. */
  lemma FromTargetsHead<T>(w: FileWrite<T>, ws: seq<FileWrite<T>>, links: seq<int>, magnets: seq<string>,
                           folder: string, ext: string)
    requires |links| > 0 && SaveTarget(magnets, links[0], folder, ext).Ok?
    requires w.path == SaveTarget(magnets, links[0], folder, ext).value.path
    requires FromTargets(ws, links[1..], magnets, folder, ext)
    ensures FromTargets([w] + ws, links, magnets, folder, ext)
  {
    FromTargetsTail(ws, links, magnets, folder, ext);
  }

  /**
   * Every file either loop writes is the target of one of the chosen links:
   * named after its magnet, in the folder, with the loop's extension.
   */
  lemma SavedNamesInFolder(download: string -> Result<seq<byte>>, links: seq<int>, magnets: seq<string>, folder: string)
    ensures FromTargets(SaveMagnetsSpec(links, magnets, folder).writes, links, magnets, folder, ".magnet")
    ensures FromTargets(SaveTorrentsSpec(download, links, magnets, folder).writes, links, magnets, folder, ".torrent")
  {
    SavedMagnetNames(links, magnets, folder);
    SavedTorrentNames(download, links, magnets, folder);
  }

  lemma {:induction false} SavedMagnetNames(links: seq<int>, magnets: seq<string>, folder: string)
    ensures FromTargets(SaveMagnetsSpec(links, magnets, folder).writes, links, magnets, folder, ".magnet")
    decreases |links|
  {
    if |links| > 0 {
      SavedMagnetNames(links[1..], magnets, folder);
      var target := SaveTarget(magnets, links[0], folder, ".magnet");
      if target.Ok? {
        var m := magnets[if links[0] < 0 then |magnets| + links[0] else links[0]];
        FromTargetsHead(FileWrite(target.value.path, m + "\n"), SaveMagnetsSpec(links[1..], magnets, folder).writes,
                        links, magnets, folder, ".magnet");
      }
    }
  }

  lemma {:induction false} SavedTorrentNames(download: string -> Result<seq<byte>>, links: seq<int>,
                                             magnets: seq<string>, folder: string)
    ensures FromTargets(SaveTorrentsSpec(download, links, magnets, folder).writes, links, magnets, folder, ".torrent")
    decreases |links|
  {
    if |links| > 0 {
      SavedTorrentNames(download, links[1..], magnets, folder);
      var rest := SaveTorrentsSpec(download, links[1..], magnets, folder).writes;
      var target := SaveTarget(magnets, links[0], folder, ".torrent");
      if target.Ok? {
        match download(TorrentUrl(target.value.hash))
        case Err(e) =>
          if e.HttpError? {
            FromTargetsTail(rest, links, magnets, folder, ".torrent");
          }
        case Ok(data) =>
          FromTargetsHead(FileWrite(target.value.path, data), rest, links, magnets, folder, ".torrent");
      }
    }
  }

  /** copy_magnets: the chosen magnets, one per line, or the first exception. */
  function CopyText(links: seq<int>, magnets: seq<string>): Result<string>
    decreases |links|
  {
    if |links| == 0 then Ok("")
    else
      match PyIndex(magnets, links[0])
      case Err(e) => Err(e)
      case Ok(m) =>
        match InfoHash(m)
        case Err(e) => Err(e)
        case Ok(_) =>
          match CopyText(links[1..], magnets)
          case Err(e) => Err(e)
          case Ok(rest) => Ok(m + "\n" + rest)
  }

  /** copy_magnets: the loop accumulating the clipboard text. */
  method CopyMagnets(links: seq<int>, magnets: seq<string>) returns (r: Result<string>)
    ensures r == CopyText(links, magnets)
  {
    var text := "";
    var i := 0;
    assert links[0..] == links;
    assert Prepend(text, CopyText(links, magnets)) == CopyText(links, magnets) by {
      if CopyText(links, magnets).Ok? {
        assert "" + CopyText(links, magnets).value == CopyText(links, magnets).value;
      }
    }
    while i < |links|
      invariant 0 <= i <= |links|
      invariant CopyText(links, magnets) == Prepend(text, CopyText(links[i..], magnets))
    {
      assert links[i..][0] == links[i] && links[i..][1..] == links[i + 1..];
      var magnet := PyIndex(magnets, links[i]);
      if magnet.Err? {
        return Err(magnet.error);
      }
      var hash := InfoHash(magnet.value);
      if hash.Err? {
        return Err(hash.error);
      }
      var line := magnet.value + "\n";
      assert CopyText(links[i..], magnets) == Prepend(line, CopyText(links[i + 1..], magnets));
      PrependAssoc(text, line, CopyText(links[i + 1..], magnets));
      text := text + line;
      i := i + 1;
    }
    assert text + "" == text;
    return Ok(text);
  }

  /** The clipboard holds one line per chosen link: the chosen magnets, in order. */
  lemma {:induction false} CopyTextLines(links: seq<int>, magnets: seq<string>)
    requires CopyText(links, magnets).Ok?
    requires forall k :: 0 <= k < |links| ==> -|magnets| <= links[k] < |magnets|
    requires forall k :: 0 <= k < |magnets| ==> '\n' !in magnets[k]
    ensures Split(CopyText(links, magnets).value, '\n')
            == seq(|links|, k requires 0 <= k < |links| => PyIndex(magnets, links[k]).value) + [""]
    decreases |links|
  {
    if |links| > 0 {
      CopyTextLines(links[1..], magnets);
      var m := PyIndex(magnets, links[0]).value;
      var rest := CopyText(links[1..], magnets).value;
      SplitCons(m, '\n', rest);
      assert m + "\n" + rest == m + ['\n'] + rest;
      var lines := seq(|links|, k requires 0 <= k < |links| => PyIndex(magnets, links[k]).value);
      var tail := seq(|links| - 1, k requires 0 <= k < |links| - 1 => PyIndex(magnets, links[1..][k]).value);
      assert lines == [m] + tail;
    } else {
      assert Split("", '\n') == [""];
    }
  }

  // ---------------------------------------------------------------- findings

  /**
   * As written, a literal '+' in a name quoted with `quote` (as the local
   * database does) becomes a space: "C++" is saved as "C  ".
   */
  lemma PlusBecomesSpace(name: string)
    ensures SaveName(Quote(Quote3, name)) == Sanitize(Replace(name, "+", " "))
    ensures SaveNameUnquotePlus(Quote(Quote3, name)) == Sanitize(name)
  {
    UnquoteQuote(Quote3, name);
    NoPlusInQuote3(name);
    ReplaceAbsentChar(Quote(Quote3, name), '+', ' ');
  }

  lemma NoPlusInQuote3(name: string)
    ensures '+' !in Quote(Quote3, name)
  {
    QuoteChars(Quote3, name);
  }

  lemma PlusBecomesSpaceExample()
    ensures SaveName(Quote(Quote3, "C++")) == "C  "
    ensures SaveNameUnquotePlus(Quote(Quote3, "C++")) == "C++"
  {
    PlusBecomesSpace("C++");
    ReplaceCharSpec("C++", '+', ' ');
    assert Replace("C++", "+", " ") == "C  ";
  }

  /** Names encoded with quote_plus (spaces as '+') come back exactly too. */
  lemma SaveNameOfQuotePlus(name: string)
    ensures SaveNameUnquotePlus(Quote(QuotePlus3, name)) == Sanitize(name)
  {
    QuotePlusRoundTrip(name);
  }

  /** The magnet search builds for a row whose hash decodes to bs. */
  function LocalMagnetText(bs: seq<byte>, title: string): string {
    MagnetPrefix + Base16(bs) + "&dn=" + Quote(Quote3, title)
  }

  lemma LocalMagnetShape(bs: seq<byte>, title: string)
    ensures LocalMagnetText(bs, title) == UrnPrefix + ("btih:" + Base16(bs) + "&dn=" + Quote(Quote3, title))
    ensures 'b' !in UrnPrefix && 'd' !in MagnetPrefix
  {
    Reassoc(UrnPrefix, "btih:", Base16(bs), "&dn=", Quote(Quote3, title));
    MagnetPrefixChars();
  }

  lemma Reassoc(a: string, b: string, c: string, d: string, e: string)
    ensures a + b + c + d + e == a + (b + c + d + e)
  {
  }

  /**
   * As written, a local magnet whose Base16 hash has a letter cannot be saved
   * or copied: the lower-case-only pattern finds no hash and `.group` raises.
   */
  lemma LocalHashRejected()
    ensures var bs: seq<byte> := seq(20, _ => 0xAB);
            InfoHash(LocalMagnetText(bs, "")) == Err(AttributeError)
  {
    var bs: seq<byte> := seq(20, _ => 0xAB);
    var h := Base16(bs);
    var tail := "btih:" + h + "&dn=" + Quote(Quote3, "");
    LocalMagnetShape(bs, "");
    BtihSkip(UrnPrefix, tail, true);
    assert !BtihAt(tail, true) by {
      assert h[0] == 'A' by {
        assert bs[0] == 0xAB;
      }
      assert tail[5] == h[0];
    }
    assert 'b' !in tail[1..] by {
      Base16Chars(bs);
      assert Quote(Quote3, "") == "";
      assert tail[1..] == "tih:" + h + "&dn=";
    }
    BtihNone(tail[1..], true);
  }

  /** As written, saving or copying that local magnet raises at its link: nothing is written or copied. */
  lemma LocalMagnetNotSaved(folder: string)
    ensures var m := LocalMagnetText(seq(20, _ => 0xAB), "");
            SaveMagnetsSpec([0], [m], folder) == Outcome([], Some(AttributeError))
            && CopyText([0], [m]) == Err(AttributeError)
  {
    LocalHashRejected();
  }

  /**
   * Corrected: with the hash matched in either case, every local magnet of a
   * 20-octet hash names the hash it encodes.
   */
  lemma LocalMagnetHash(bs: seq<byte>, title: string)
    requires |bs| == 20
    ensures InfoHashAnyCase(LocalMagnetText(bs, title)) == Ok(HexToNat(Base16(bs)))
  {
    var h := Base16(bs);
    var tail := "btih:" + h + "&dn=" + Quote(Quote3, title);
    LocalMagnetShape(bs, title);
    BtihSkip(UrnPrefix, tail, false);
    assert tail[..5] == "btih:";
    assert forall k :: 5 <= k < 45 ==> tail[k] == h[k - 5];
    assert BtihAt(tail, false);
    assert tail[5..45] == h;
  }

  /** A local magnet is saved under its title, sanitised. */
  lemma LocalMagnetName(bs: seq<byte>, title: string)
    ensures DnValue(LocalMagnetText(bs, title)) == Some(Quote(Quote3, title))
    ensures SaveName(Quote(Quote3, title)) == Sanitize(Replace(title, "+", " "))
  {
    LocalMagnetDn(bs, title);
    PlusBecomesSpace(title);
  }

  lemma LocalMagnetDn(bs: seq<byte>, title: string)
    ensures DnValue(LocalMagnetText(bs, title)) == Some(Quote(Quote3, title))
  {
    var q := Quote(Quote3, title);
    var p := MagnetPrefix + Base16(bs) + "&";
    LocalPrefixNoD(bs);
    NoAmpInQuote3(title);
    DnValueSkip(p, "dn=" + q + "");
    SplitAtDn(MagnetPrefix + Base16(bs), q);
    assert "dn=" + q + "" == "dn=" + q;
    DnValueAt(q, "");
  }

  lemma LocalPrefixNoD(bs: seq<byte>)
    ensures 'd' !in MagnetPrefix + Base16(bs) + "&"
  {
    Base16Chars(bs);
    MagnetPrefixChars();
  }

  lemma NoAmpInQuote3(title: string)
    ensures '&' !in Quote(Quote3, title)
  {
    QuoteChars(Quote3, title);
  }
}
