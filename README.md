# pirate-get, modelled in Dafny

pirate-get is a command-line client for The Pirate Bay. This project models
the deterministic logic between the user's input and the network, and proves
properties of it:

- **Category and sort resolution.** A name or a code becomes a site code. An
  unknown value gets a fallback and a warning.
- **Request paths.** Browse, recent, top and search each have a path shape.
  Search terms are form-encoded: space becomes `+`, and other characters
  become UTF-8 percent escapes.
- **Result pages.** Each page is classified as "No hits", a blocked mirror or
  a results page. The record table is the first table that yields records.
- **The `remote` page loops** of all three programs, including the page-count
  check.
- **Mirror failover**, current and legacy: the candidate set, the blacklist,
  and what ends the loop.
- **The interactive parsers.** The custom-command tokenizer (`parse_cmd`),
  the command letter and the index-range selection, and the first/all
  choices.
- **The save helpers.** The file name comes from a magnet's `dn=` field and
  is sanitised. Cached-torrent URLs and the clipboard text are built here too.
- **The local database search.** It skips comment rows and matches titles
  ignoring case. It caps the results at 30, builds magnets from Base64 hashes
  via Base16, and picks the size unit.
- **The four-state `MyHTMLParser`** of both single-file scripts, and the
  seeds/leeches pairing loop of the Python 3 script.

Modules:

| module | contents |
|---|---|
| `Base` | outcome types and the exception kinds |
| `Text` | Python string built-ins: `lower`, `in`, `split`, `join`, `replace`, `strip`, `int()`, `str()` |
| `Url` | UTF-8, `quote`, `quote_plus` and `unquote` |
| `Codec` | Base16, Base64, hexadecimal formatting |
| `Torrent` | `pirate/torrent.py`: resolution and request paths |
| `Page` | `pirate/torrent.py`: pages and tables |
| `Remote` | `pirate/torrent.py`: the `remote` page loop |
| `Save` | `pirate/torrent.py`: the save and copy loops |
| `Command` | `pirate/pirate.py`: `parse_cmd` |
| `Selection` | `pirate/pirate.py`: the selection prompt |
| `Mirrors` | `pirate/pirate.py` and `pirate-get.py`: the mirror loops |
| `Local` | `pirate/local.py` |
| `Legacy` | the parser class and page-count check shared by both scripts |
| `Py3Remote` | `pirate-get-py3.py`: `remote` |
| `Py2Remote` | `pirate-get.py`: resolution and `remote` |

Code that changes state step by step is imperative Dafny. That covers the
table and page walks, the save loops, the local search, the selection loop,
the mirror loops, the page loops, the pairing loop and the parser class,
which has fields updated in place. Each method is proved against a function
that specifies it, and the properties are proved about those functions.

Network requests are oracles passed as parameters: a function from a URL or
a query to what the server answered (a page, an HTTP status with its body,
or a raised error); the handler that turns an answer into a document or an
exception is modelled. The static tables of `pirate/data.py` are
parameters too. Only the entries the unit tests pin are assumed.

## Model

| member | source | states |
|---|---|---|
| Torrent.Resolve | pirate/torrent.py:20-45 | an input that reads as an int is kept when it is a known code; an input that is not an int is mapped when it is a known name; a warning (with the fallback code) comes exactly when neither holds |
| Torrent.ResolveKnownCode | pirate/torrent.py:21-26 | a known code, given as its decimal text, resolves to itself without warning |
| Torrent.ResolveKnownName | pirate/torrent.py:27-28 | a name that is not an integer resolves to its table entry without warning |
| Torrent.ResolveWarns | pirate/torrent.py:29-31 | the warning is printed exactly when the input is neither a known code nor a known name |
| Torrent.ParseCategoryVectors | pirate/torrent.py:20-31 | for any table with the pinned entries: 'Audio' is 100, 'Video' is 200, '100' is 100, and 'asdf' and '9001' are 0 with a warning |
| Torrent.ParseSortVectors | pirate/torrent.py:34-45 | 'SeedersDsc' and '7' are 7; 'asdf' and '7000' are 99 with a warning |
| Torrent.BuildRequestPath | pirate/torrent.py:54-77 | the path is an error exactly for a mode other than browse, recent, top or search, and the error is Exception('Unknown mode.') |
| Torrent.BuildThenParse | pirate/torrent.py:54-75 | every path built reads back as the request asked for: browse with category 0 read as 100; top and recent keeping only the category; search with its terms |
| Torrent.BrowseThenParse | pirate/torrent.py:55-58 | a browse path reads back as category (0 becomes 100), page and sort |
| Torrent.TopThenParse | pirate/torrent.py:59-72 | top and recent paths read back as the category alone ('all' is 0), recent with the '48h' prefix and no slash |
| Torrent.SearchThenParse | pirate/torrent.py:73-75 | a search path reads back as the quote_plus of the space-joined terms, page, sort and category |
| Torrent.CategorySegmentRoundTrip | pirate/torrent.py:63-72 | the category segment has no '/', does not start with '48h', and reads back as the category |
| Torrent.BrowseVectors | pirate/torrent.py:55-58 | category 100 and category 0 both give '/browse/100/0/10' |
| Torrent.TopVectors | pirate/torrent.py:59-77 | '/top/48hall', '/top/48h100', '/top/100', '/top/all'; mode 'asdf' raises |
| Torrent.SearchVectorAbc | pirate/torrent.py:73-75 | ['abc'] gives '/search/abc/0/10/100' |
| Torrent.SearchVectorAbcDef | pirate/torrent.py:73-75 | ['abc', 'def'] gives '/search/abc+def/0/10/100' |
| Torrent.SearchVectorU1234 | pirate/torrent.py:73-75 | ['ሴ'] gives '/search/%E1%88%B4/0/10/100' |
| Torrent.QuoteU1234 | pirate/torrent.py:74 | quote_plus of 'ሴ' is its three UTF-8 octets percent-encoded |
| Url.Utf8RoundTrip | pirate/torrent.py:74 | decoding the UTF-8 encoding of any string gives the string back |
| Url.QuoteAppend | pirate/torrent.py:74 | quoting distributes over concatenation |
| Url.QuotePlusRoundTrip | pirate/torrent.py:74 | unquote_plus(quote_plus(s)) == s for every s |
| Url.QuotePlusNoSlash | pirate/torrent.py:74-75 | quote_plus never lets '/' through, so the query is one path segment |
| Url.UnquoteQuote | pirate/torrent.py:205 | unquote(quote(s)) == s for every s and every well-formed style without '+' |
| Url.PlusToSpace | pirate/torrent.py:205 | in quote_plus output a '+' only ever stands for a space |
| Page.FindDetLink | pirate/torrent.py:115 | the anchor found has class detLink; none is found exactly when no anchor has it |
| Page.FindMagnet | pirate/torrent.py:121-125 | the first anchor whose href starts with 'magnet'; none exactly when no anchor has one; a missing href before it raises KeyError |
| Page.ParseRow | pirate/torrent.py:113-141 | the row is skipped exactly when it has no detLink or its magnet search finds nothing; a record is emitted exactly when a magnet is found and the description holds a size and a date, and then it has the last two cells as seeds and leechers, the third '/'-segment of the detail href as id, the href the magnet search found, and the size words and upload date; each of KeyError, IndexError, the unpack ValueError and AttributeError is raised exactly in its own case |
| Page.ParseTable | pirate/torrent.py:109-143 | the loop over the rows after the heading returns the records of the kept rows, or the first row's error |
| Page.ParseRowsBound | pirate/torrent.py:113-141 | a table yields at most one record per row |
| Page.ParseRowsProvenance | pirate/torrent.py:113-141 | every record is exactly what some row of the table yields |
| Page.SkipRowWithoutDetLink | pirate/torrent.py:115-117 | a row without a detLink anchor contributes nothing |
| Page.ParseRowsErrors | pirate/torrent.py:113-141 | a table raises only the errors of its rows |
| Page.ParsePage | pirate/torrent.py:81-106 | the method returns what the classification and the for-else over the tables give |
| Page.NoHitsIsEmpty | pirate/torrent.py:95-96 | the "No hits" sentence gives [] whatever the tables |
| Page.BlockedIff | pirate/torrent.py:88-93 | the page raises "Blocked mirror detected." exactly when it has no result table and no "No hits" sentence |
| Page.FirstNonEmptyErrors | pirate/torrent.py:99-104 | the table walk never raises the blocked-mirror error |
| Page.EmptyMeansNoHits | pirate/torrent.py:81-106 | an empty success means the page said "No hits" |
| Page.FirstNonEmptyNonEmpty | pirate/torrent.py:99-104 | a successful table walk returns at least one record |
| Page.FirstNonEmptyIsFirst | pirate/torrent.py:99-104 | the records are those of a table, and every table before it parsed to no records |
| Page.AllEmptyTables | pirate/torrent.py:103-104 | when every table parses to nothing, the page raises "Mirror does not contain magnets." |
| Remote.RemoteSearch | pirate/torrent.py:146-185 | a page count below 1 raises before any request; otherwise entry p of the requested URLs is build_request_path(p, ...) on the mirror, and the pages requested are exactly those before the first page that raises, plus that page when its URL was built (all pages when none raises); each response goes through the URLError handler; the records are concatenated in page order up to the first error |
| Remote.Opened | pirate/torrent.py:167-173 | a served page is parsed; a 503 with the Cloudflare marker raises IOError("Cloudflare protected"), any other status an HTTP error; a plain URLError (which has no `fp`) becomes AttributeError, and every other error passes through |
| Remote.StepError | pirate/torrent.py:160-179 | a page that raises ends the whole run with its error |
| Remote.PrefixError | pirate/torrent.py:160-179 | once a page raises, every longer run raises the same error |
| Remote.FetchPagesSplit | pirate/torrent.py:160-179 | the records of a successful run are the records of each page in turn |
| Remote.CollectLeading | pirate/torrent.py:160-179 | a run succeeds exactly when no page raises, and otherwise raises the error of the first page that does |
| Base.LeadingOks | pirate/torrent.py:160-179 | the number of pages a loop gets through before one raises: every page before it succeeds, and the page at it, if any, raises |
| Save.DnValue | pirate/torrent.py:204 | a value exists exactly when the magnet contains 'dn=', and it holds no '&' |
| Save.DnValueAt | pirate/torrent.py:204 | the value is everything after 'dn=' up to the '&' that ends it |
| Save.BtihSearch | pirate/torrent.py:206 | a match is 40 hexadecimal digits, lower-case when the pattern is |
| Save.InfoHash | pirate/torrent.py:206 | with the lower-case-only pattern: AttributeError exactly when no position of the magnet matches; otherwise the value of the 40 digits of a match, below 16^40 |
| Save.BtihSearchLeftmost | pirate/torrent.py:206 | the search finds nothing exactly when no position matches; otherwise it returns the digits of the leftmost match |
| Save.Sanitize | pirate/torrent.py:207 | no '/' or '\\' remains, and every other character is kept in place |
| Save.SaveName | pirate/torrent.py:205-207 | the name is unquote(dn) character by character, with every '+' turned into a space and every '/' and '\\' into '_'; it holds no separator and no '+' |
| Save.FileInFolder | pirate/torrent.py:208 | a base name without '/' is the last component of the joined path |
| Save.SaveTarget | pirate/torrent.py:203-208 | an index Python rejects raises IndexError; otherwise the target fails exactly when the magnet has no 'dn=' or no lower-case hash (AttributeError), and its hash is the magnet's info hash |
| Save.SaveTargetInFolder | pirate/torrent.py:204-208 | every target is in the folder, as its last component: a name without separators, then the extension |
| Save.SaveMagnets | pirate/torrent.py:221-232 | the loop writes each chosen magnet plus a newline to its '.magnet' file, in order, and stops at the first exception, including the AttributeError of a magnet whose hash is not lower-case |
| Save.SaveTorrents | pirate/torrent.py:201-218 | the loop downloads each chosen link from the cache URL written with '{:X}' and writes it; the links reported missing are exactly the chosen links, in order, whose download raised an HTTP error before the loop stopped |
| Save.HttpErrorContinues | pirate/torrent.py:210-215 | an HTTP error on one link skips it, and the others are saved as if it had not been chosen |
| Save.SavedOrMissing | pirate/torrent.py:201-218 | no chosen link is both saved and reported missing; when no exception ends the loop, every chosen link is one or the other |
| Save.SavedNamesInFolder | pirate/torrent.py:201-232 | every file the magnet loop writes, and every file the torrent loop writes, is the target of some chosen link with that loop's extension |
| Save.TorrentUrl | pirate/torrent.py:189-190 | the URL is the cache host, then hexadecimal digits that read back as the hash (no padding), then '.torrent' |
| Save.TorrentUrlDigits | pirate/torrent.py:189 | a hash below 16^40 has exactly 40 digits, and they read back as the hash |
| Save.CopyMagnets | pirate/torrent.py:235-243 | the loop accumulates the chosen magnets, one per line, or raises the first exception, including the AttributeError of a magnet whose hash is not lower-case |
| Save.CopyTextLines | pirate/torrent.py:237-240 | split at newlines, the clipboard text is the chosen magnets in order, then one empty piece |
| Save.SaveNameOfQuotePlus | pirate/torrent.py:205 | with the corrected name (unquote_plus), a name encoded with quote_plus comes back exactly, sanitised |
| Save.LocalMagnetHash | pirate/local.py:34-39 | a magnet from the local database yields the value of its Base16 hash once the pattern ignores case |
| Save.LocalMagnetName | pirate/local.py:34-39 | as written, a magnet from the local database is saved under its own title with every '+' turned into a space, sanitised |
| Command.RawTokens | pirate/pirate.py:56-57 | each match of the argument pattern is non-empty |
| Command.Dequote | pirate/pirate.py:60-65 | exactly one layer of matching outer quotes is removed; other items pass unchanged; an empty item raises IndexError |
| Command.Arguments | pirate/pirate.py:58-65 | argument k is match k processed, for every k; the list raises IndexError exactly when some match's argument does |
| Command.ParseCmd | pirate/pirate.py:55-66 | argument k is match k with its outer quotes removed and the URL substituted, for every match in command order; IndexError exactly when the argument of some match raises |
| Command.WordsTokens | pirate/pirate.py:56-57 | space-separated plain words are matched one by one, in order, each with its trailing space |
| Command.QuotedToken | pirate/pirate.py:56 | a quoted stretch is one match whatever it holds besides its own quote character |
| Command.PlainArgument | pirate/pirate.py:58 | a plain word becomes itself with the URL in place of each '%s' |
| Command.QuotedArgument | pirate/pirate.py:58-63 | a quoted argument loses its outer quotes and keeps its inside, with the URL in place of each '%s' |
| Command.ParseCmdWords | pirate/pirate.py:55-66 | a command of plain words gives one argument per word, in order, with the URL substituted |
| Command.ParseCmdQuoted | pirate/pirate.py:55-66 | plain words, then a quoted argument: the words substituted, then the inside of the quotes |
| Command.EmptyUrlRaises | pirate/pirate.py:58-61 | with an empty URL a last argument that is exactly '%s' becomes empty and raises IndexError |
| Command.ArgumentsRaise | pirate/pirate.py:60-65 | an argument that raises makes the whole command raise |
| Command.CmdVectorOneUrl | pirate/pirate.py:55-66 | 'abc %s' gives ['abc', 'url'] |
| Command.CmdVectorTwoUrls | pirate/pirate.py:58 | 'abc %s %s' gives ['abc', 'url', 'url'] |
| Command.CmdVectorQuotes | pirate/pirate.py:60-63 | 'abc "%s"' and "abc '%s'" (the argument in either quote character) give ['abc', 'url'] |
| Command.CmdVectorInnerQuotes | pirate/pirate.py:60-65 | 'abc bash -c "\'%s\'"' gives ['abc', 'bash', '-c', "'url'"]: only the outer quotes go |
| Command.CmdVectorNoUrl | pirate/pirate.py:55-66 | 'abc' gives ['abc'] |
| Selection.CommandCode | pirate/pirate.py:224-229 | the code is one of h, d, f, p, m, t or q; it is None exactly when no character lower-cases to one of them; otherwise it is the first such character, lower-cased |
| Selection.CodeAfter | pirate/pirate.py:224-227 | characters before the first code letter do not change the code |
| Selection.Cleanup | pirate/pirate.py:235-237 | after cleanup only digits, ',' and '-' remain |
| Selection.TrimStartSkip | pirate/pirate.py:235 | leading characters from 'hdfp, ' are dropped whatever follows |
| Selection.TrimEndSkip | pirate/pirate.py:235 | trailing characters from 'hdfp, ' are dropped whatever precedes them |
| Selection.CleanupKeeps | pirate/pirate.py:236-237 | a selection of numbers, hyphens and single commas is left as it is |
| Selection.Range | pirate/pirate.py:246 | range(a, b + 1): b - a + 1 numbers from a, or none |
| Selection.Piece | pirate/pirate.py:244-248 | a piece either gives its numbers or raises ValueError |
| Selection.PieceRange | pirate/pirate.py:244-246 | 'a-b' expands to a..b inclusive |
| Selection.PieceSingle | pirate/pirate.py:247-248 | a lone number yields itself |
| Selection.PieceEmpty | pirate/pirate.py:247 | an empty piece adds nothing |
| Selection.PieceNoLeft | pirate/pirate.py:245-246 | a hyphen with nothing before it raises ValueError |
| Selection.ExpandAppend | pirate/pirate.py:243-251 | expansion keeps the input order, and the first error wins |
| Selection.ParseSelection | pirate/pirate.py:224-254 | the method returns the command code and the expanded choices as strings, or the ValueError |
| Selection.Strings | pirate/pirate.py:254 | each string reads back as its number |
| Selection.ChoicesRange | pirate/pirate.py:235-251 | '1-3 d' selects [1, 2, 3] |
| Selection.CodeRange | pirate/pirate.py:224-227 | '1-3 d' has command code 'd' |
| Selection.ChoicesList | pirate/pirate.py:235-251 | 'd 23, 1' selects [23, 1] in that order |
| Selection.CodeList | pirate/pirate.py:224-227 | 'd 23, 1' has command code 'd' |
| Selection.AllChoicesExactly | pirate/pirate.py:204-209 | download-all selects each of 0..n-1 exactly once; '-0' selects 0 |
| Mirrors.Listed | pirate/pirate.py:178-179 | a mirror is listed exactly when it is the strip of a line from the fourth on |
| Mirrors.Candidates | pirate/pirate.py:168-180 | an OSError while fetching the list leaves only the default; a non-200 status raises; otherwise the candidates are the default and the listed mirrors, minus the blacklist |
| Mirrors.CandidatesAvoidBlacklist | pirate/pirate.py:178-180 | once the list is read no blacklisted mirror is a candidate; without the list the default always is |
| Mirrors.TryInOrder | pirate/pirate.py:182-196 | the loop ends on the first mirror whose fetch returns, or on an error the handler does not catch; "No available mirrors" exactly when every mirror failed with a caught error |
| Mirrors.Failover | pirate/pirate.py:182-196 | the mirrors are tried in some order, each once; the outcome is that of the loop over that order; "No available mirrors" exactly when every candidate fails with a caught error |
| Mirrors.EmptyResultStops | pirate/pirate.py:190-193 | a mirror whose fetch returns is chosen even with no records |
| Mirrors.UncaughtStops | pirate/pirate.py:187-188 | an error outside the handled tuple ends the loop at once, whatever the later mirrors would do |
| Mirrors.TryInOrderAt | pirate/pirate.py:182-196 | when every mirror before position i fails with a caught error and mirror i answers, the loop chooses mirror i with its answer |
| Mirrors.IntendedFailover | pirate/pirate.py:182-196 | with the intended call and a page count of at least 1, once the mirrors before i fail with caught errors and mirror i's pages all parse, the loop chooses mirror i with the records of those pages |
| Mirrors.IntendedFound | pirate/pirate.py:182-196 | with the intended call, a chosen mirror is one of the candidates, the page count was at least 1, and the records are those of its pages |
| Mirrors.UrlErrorEndsLoop | pirate/torrent.py:167-173 | a URLError on the first mirror's first page becomes AttributeError in the handler, which the mirror loop does not catch: the loop ends there |
| Mirrors.InvalidPagesNoMirror | pirate/torrent.py:149-151 | with a page count below 1 every mirror fails with ValueError, and the loop reports no available mirrors |
| Mirrors.LegacyCandidates | pirate-get.py:286-295 | the two defaults come first; the list's lines from the fourth on follow when the list is fetched with status 200 |
| Mirrors.LegacyLoop | pirate-get.py:296-306 | the loop stops at the first mirror with a non-empty result; an empty result or an exception moves on |
| Mirrors.LegacyFailover | pirate-get.py:294-306 | when a mirror gave records, `mirror` is that mirror and `mags` holds its records; otherwise `mirror` (used at lines 338 and 363) is the last mirror tried, or unassigned for an empty list, and `mags` is [] after a last empty answer or stays unassigned when every mirror raised |
| Local.ReplaceIter | pirate/local.py:7-9 | one line out per line in |
| Local.ReplaceIterSpec | pirate/local.py:7-9 | no line keeps a NUL; every other character is kept; a line without NUL is unchanged |
| Local.UnitIndex | pirate/local.py:12-17 | the first unit below 'Yi' at which the size fits, else 'Yi' |
| Local.SizeUnit | pirate/local.py:12-17 | the dividing loop picks the unit UnitIndex names |
| Local.UnitIndexUnique | pirate/local.py:13-16 | the first fitting unit is the only index that fits with no smaller index fitting |
| Local.UnitIndexMonotone | pirate/local.py:13-16 | a larger size never gets a smaller unit |
| Local.UnitVectors | pirate/local.py:13-16 | 1023 is bytes, -1024 and 2^20-1 are Ki, 2^20 is Mi |
| Local.LocalMagnet | pirate/local.py:35-39 | a magnet is built exactly when the hash decodes as Base64 |
| Local.LocalMagnetOfEncoded | pirate/local.py:35-39 | the magnet of a Base64-encoded hash is the prefix, then its Base16, then '&dn=' and the quoted title |
| Local.ScanRow | pirate/local.py:25-41 | a row gives a result exactly when it is not a comment and its title holds the query, ignoring case |
| Local.Search | pirate/local.py:19-45 | the loop returns the matches in file order, capped at 30 |
| Local.AllMatchesAreKept | pirate/local.py:23-41 | the results are the kept rows' results, one for one, in file order |
| Local.KeptIff | pirate/local.py:31 | a row is kept exactly when it matches |
| Local.CommentSkipped | pirate/local.py:25-26 | a comment row adds nothing |
| Local.SearchIsPrefix | pirate/local.py:44 | the result is the first 30 matches, or all of them when there are fewer |
| Codec.Base16RoundTrip | pirate/local.py:37 | Base16 is invertible |
| Codec.Base16Chars | pirate/local.py:37 | Base16 writes only digits and upper-case A-F |
| Codec.Base64RoundTrip | pirate/local.py:37 | Base64 decoding undoes Base64 encoding |
| Codec.HexToNatOfNatToHex | pirate/torrent.py:189 | '{:X}' reads back as the number |
| Codec.HexToNatOfPadded | pirate/torrent.py:189 | zero padding does not change the value |
| Legacy.Parser.constructor | pirate-get-py3.py:16-18 | the query is lower-cased; state is 'looking' and title is empty |
| Legacy.Parser.HandleStartTag | pirate-get-py3.py:20-24 | the fields become what one start-tag step gives, and the invariant is kept |
| Legacy.Parser.HandleData | pirate-get-py3.py:26-35 | the fields become what one text step gives; results grow by exactly the entry that step emits |
| Legacy.Parser.Feed | pirate-get-py3.py:48-50 | after a run of events the fields and results are those of the run |
| Legacy.LocalSearch | pirate-get-py3.py:44-50 | the results are the shared list's old items, then the entries of the document's events from 'looking' |
| Legacy.StartTagRules | pirate-get-py3.py:20-24 | a title tag always starts a title; a magnet tag starts a magnet exactly after a matched title (or an open magnet) |
| Legacy.StepConsistent | pirate-get-py3.py:26-35 | every event keeps the invariant that a matched title contains the query |
| Legacy.EntriesMatchQuery | pirate-get-py3.py:27-34 | every entry carries a title that contains the query |
| Legacy.EntriesBound | pirate-get-py3.py:23-35 | at most one entry per magnet tag, plus one for a magnet already open |
| Legacy.EntryParts | pirate-get-py3.py:34 | an entry's magnet splits at '&' into the hash part and 'dn=' with the title; unquoting each gives the text and the title back |
| Legacy.StylesSplit | pirate-get.py:70 | both dialects' quote styles meet the conditions of EntryParts |
| Legacy.PageCount | pirate-get-py3.py:55-60 | the count is accepted exactly when it reads as an integer of at least 1; otherwise one Exception with the fixed message |
| Legacy.PageCountOf | pirate-get.py:137-142 | any positive number written out is accepted as itself |
| Py3Remote.PlusQuery | pirate-get-py3.py:63 | every space becomes '+' and nothing else changes |
| Py3Remote.SearchUrlSegments | pirate-get-py3.py:63 | the URL's last segments are the plus-query, the page number, '7' and '0', and the page reads back |
| Py3Remote.PairPage | pirate-get-py3.py:66-79 | the loop over one page gives the pairing of its matches |
| Py3Remote.PairingCells | pirate-get-py3.py:68-79 | from any loop state, numeric cells are taken two at a time as seeds and leeches |
| Py3Remote.PageRecords | pirate-get-py3.py:66-79 | a page adds floor(n/2) records for n numeric cells; record k has cells 2k and 2k+1 |
| Py3Remote.Remote | pirate-get-py3.py:53-80 | a bad count raises before any request; entry p of the requested URLs is page p's URL, and the pages requested are exactly those up to and including the first failed request (all pages when none fails); the records are those of the pages in order, up to the first failed request |
| Py3Remote.BadCountFirst | pirate-get-py3.py:55-60 | a count that is not an integer of at least 1 raises the page-count exception |
| Py3Remote.PagesLeading | pirate-get-py3.py:64-80 | the pages succeed exactly when no request fails, and otherwise raise the first failed request's error |
| Py2Remote.ReverseSortsInverts | pirate-get.py:122-132 | reverse_sorts is the inverse of sorts |
| Py2Remote.ResolveCategory | pirate-get.py:144-150 | a code string is kept; a name is mapped; anything else becomes "0" with a warning |
| Py2Remote.ResolveSort | pirate-get.py:152-157 | a name is kept, a code is mapped back through reverse_sorts, and an invalid sort leaves `sort` unassigned (None) |
| Py2Remote.QueryFields | pirate-get.py:171-176 | page p asks for offset 40p with the resolved category and sort |
| Py2Remote.QueryPagesDistinct | pirate-get.py:174 | distinct pages ask for distinct queries |
| Py2Remote.QueryTerms | pirate-get.py:177-180 | with terms, q is the terms joined by '+' and reads back as them; without terms, age is "14" exactly when recent is set |
| Py2Remote.Pair | pirate-get.py:209-213 | records pair links[i] with seeders[i] and leechers[i]; too few cells raise IndexError |
| Py2Remote.PageLoop | pirate-get.py:171-216 | the pages are requested in order; every page before the last one requested was full; a run that ends early ends on a page with fewer than 40 links; a run that raises raises at the last page requested |
| Py2Remote.RemoteSearch | pirate-get.py:135-221 | a bad count raises before any request; an invalid sort raises NameError before any request; otherwise the queries are those of the resolved search, in page order, at most the page count, every page before the last one requested was full, an early successful end is at a short page, and a raise is at the last page requested |
| Py2Remote.InvalidSortIgnored | pirate-get.py:152-157 | with the corrected sort, an invalid sort gives the search of the default; a valid one is unaffected |
| Save.PlusBecomesSpace | pirate/torrent.py:205-207 | as written, a quoted name comes back with every '+' turned into a space; corrected, it comes back exactly, sanitised |
| Save.PlusBecomesSpaceExample | pirate/torrent.py:205 | as written, 'C++' is saved as 'C  '; corrected, as 'C++' |
| Save.TorrentUrlDropsZeros | pirate/torrent.py:189 | as written, hash 1 gives a one-digit file name, where the padded form has 40 digits |
| Save.LocalHashRejected | pirate/torrent.py:206 | as written, a local magnet whose Base16 hash has a letter has no hash match, and the save raises AttributeError |
| Save.LocalMagnetNotSaved | pirate/torrent.py:221-243 | as written, saving that local magnet writes nothing and raises AttributeError, and copying it raises AttributeError |
| Mirrors.RemoteCallCrashes | pirate/pirate.py:185-188 | as written, the call raises TypeError, which the handler does not catch: the first mirror ends the program |
| Py2Remote.InvalidSortRaises | pirate-get.py:152-175 | as written, with a valid page count, an invalid sort raises NameError at the first page |
| Py2Remote.InvalidSortNoMirror | pirate-get.py:296-306 | as written, an invalid sort makes every mirror raise, so `mags` is never assigned, whatever the mirror list |
| Legacy.Results.constructor | pirate-get-py3.py:14 | the shared results list starts empty |

## Left out

- Network I/O is oracles passed as parameters: the page fetches, the mirror-list download and `get_torrent`'s download. Gzip decoding is not modelled; a page fetch's answer is a page, an HTTP status with its body, or a raised error, and the handler of `pirate/torrent.py:167-173` (the Cloudflare check included) is modelled on it.
- HTML parsing: a page is an abstract document (tables of rows, each row its anchors, cells and description). BeautifulSoup, `html.parser`'s tokenizer and the Python 2 page's CSS selectors are not modelled. The Size/Uploaded regular expressions are treated as extractors with given results.
- The `re.findall` scan in `pirate-get-py3.py:65` is also an extractor: a page is its list of matches.
- Printing, colour, the table layout, floating-point ratios, and the `%3.1f` formatting of sizes. `sizeof_fmt` is modelled as the choice of unit over exact integers.
- Randomness (`id_generator`), argparse, configuration loading, subprocess, webbrowser, pyperclip, Ctrl-C handling and the interactive input loop itself. Only the parsers and choice rules are modelled.
- File writes are recorded as the list of (path, content) pairs a save loop writes. The file system itself is not modelled.
- `pirate/data.py` loads JSON files that are not part of this model. The category and sort tables and the blacklist are parameters; only the test-pinned entries are assumed.
- Python 2 dictionary order: `pirate-get.py:182` builds the query string by iterating a dict. The model keeps the parameters as a map, not an ordered string.
- The py2 query path (`pirate-get.py:182`) joins `k=str(v)` with '&' and percent-encodes nothing; the map keeps the values unencoded, and the joined string itself is not modelled.
- Text.Lower: lower-cases ASCII letters only; Python's full Unicode case mapping is not modelled.
- Text.ParseInt: accepts surrounding whitespace, a sign and ASCII digits. Underscores and non-ASCII digits, which Python's `int()` also accepts, are not modelled.
- Codec.Base64Decode is stricter than Python's `b64decode`: it rejects characters outside the alphabet instead of discarding them.
- Save.PathJoin models the POSIX `os.path.join` only.
- Mirrors.Listed: the lines of the mirror list are given already decoded; a UTF-8 decoding error is not modelled.
- Mirrors.Failover: Python's set iteration order is unspecified, so the order is a nondeterministic choice and the contract holds for every order.
- Py2Remote: the identifiers regex (`pirate-get.py:204`) is assumed to match; its AttributeError on an href without a number is not modelled. Anchors whose `href` is missing (`get('href')` returning None) are not modelled.
- Py2Remote.ResolveCategory: the warning is returned as a flag, not printed.
- The `main` functions' handling of the local database path, of the `-p` default, and of the actions after selection (open, copy, save) are outside the model; only the save helpers are.

## Findings

| source | as written | input that shows it | evidently intended | confidence | as-written member | corrected member |
|---|---|---|---|---|---|---|
| pirate/torrent.py:205 | the name is `unquote(dn)` and then every '+' becomes a space | a title 'C++' quoted as 'C%2B%2B' is saved as 'C  ' | `unquote_plus`, which turns only the form-encoded '+' into a space | not executed | Save.PlusBecomesSpaceExample | Save.PlusBecomesSpace |
| pirate/torrent.py:189 | `'{:X}'` drops the leading zeros of the 40-digit hash | a hash starting with 0 (hash 1) gives 'http://itorrents.org/torrent/1.torrent' | all 40 hexadecimal digits (`'{:040X}'`) | not executed | Save.TorrentUrlDropsZeros | Save.TorrentUrlDigits |
| pirate/torrent.py:206 | the hash pattern `btih:([a-f0-9]{40})` is lower-case only, but local magnets use upper-case Base16 | a local magnet whose hash holds a letter (twenty 0xAB octets) raises AttributeError when saved or copied | match the hash without regard to case | not executed | Save.LocalHashRejected | Save.LocalMagnetHash |
| pirate/pirate.py:185-186 | `pirate.torrent.remote(args, mirror)` against `remote(printer, pages, category, sort, mode, terms, mirror)` raises TypeError, which the handler does not catch | any search against any mirror | `mags = remote(printer, pages, category, sort, mode, terms, mirror)`: the search arguments, and the record list kept whole (not unpacked into four names) | not executed | Mirrors.RemoteCallCrashes | Mirrors.IntendedFailover |
| pirate-get.py:152-175 | an invalid sort only warns and leaves `sort` unassigned; line 175 then raises NameError on every mirror | `-s asdf` with any page count of at least 1 | ignore the invalid sort, as the warning says, and keep the default "" | not executed | Py2Remote.InvalidSortRaises | Py2Remote.InvalidSortIgnored |
