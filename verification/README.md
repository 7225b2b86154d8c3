# iNotes mail export — a verified model

`main.py` exports every message of a folder in an HCL iNotes (Domino web
mail) mail file to one `.eml` file per message. It is driven from the
command line with a mail-file URL and a session cookie string copied from
a browser. Its core is modelled here in Dafny:

- **option handling** (`Options`): picking up the options, parsing the
  cookie string (`Cookies`, `prepareCookies`), exiting with status 9 when
  the mail file or the cookies are missing, and cutting one trailing `/`
  from the output directory;
- **folder enumeration** (`Listing`, `loadFolder`): paging through the
  folder's view listing, `count` rows at a time from the 1-based `start`,
  optionally capped at `max` identifiers, recursing while the run is below
  the cap and below the entry count the server reports;
- **message sanitization** (`Sanitize`): `replace("<br>", "")` followed by
  `html.unescape`;
- **the export loop** (`Export`): skipping identifiers whose output file
  exists, fetching and sanitizing the others, refusing blank bodies and
  writing the rest. The output directory is a `FileSystem` object whose
  path-to-content map the loop updates in place;
- **the Python string operations** these rely on (`Text`): `split`, `join`,
  `isspace` and `strip`, with their semantics written out;
- **the exceptions** the code can raise on bad input (`Errors`), as values:
  the `IndexError` of a cookie piece without `=`, the `KeyError` of a
  listing without rows, the `TypeError` of a listing with exactly one row,
  and `exit(9)`.

The server is a `Folder`: the identifiers of the folder in view order and
the `toplevelentries` count it reports. A listing request at `start`
returns the next `count` identifiers. The request for one message is the
parameter `fetch`, the response text for an identifier, and
`tempfile.gettempdir()` is the parameter `tempDir`.

Where the code does not do what a user of the exporter would expect, the
model follows the code:

- An empty folder makes `loadFolder` raise a `KeyError` (main.py:47); it
  is not read as an empty list.
- A listing with exactly one row makes it raise a `TypeError`
  (main.py:49). This happens for a folder of one message, for pages of one
  row, and when the server reports more entries than the folder holds, so
  that a later page with a single row is requested. With an honest total,
  at least two entries and pages of at least two rows, no one-row page is
  ever requested (`Listing.LoadFolderWholeFolder`).
- The sanitizer removes `<br>` before decoding entities. So
  `Hello&lt;br&gt;<br>World &amp; friends` becomes
  `Hello<br>World & friends`, with a literal `<br>` in it
  (`Sanitize.SanitizeExample`): a tag written as entities in the message
  survives as a tag.
- An uncapped run is not always complete, and a capped run does not
  always reach `min(max, K)`; see Findings.

## Model

| member | source | states |
|---|---|---|
| Text.Split | main.py:25-26 | `str.split` always yields at least one piece |
| Text.Join | main.py:111 | definition of `sep.join(pieces)`: the pieces with `sep` between each two (its properties: `Text.SplitJoin`, `Text.JoinLength`) |
| Text.SplitHeadPrefix | main.py:25-26 | the first piece of a split is a prefix of the string |
| Text.SplitPiecesNoSep | main.py:25-26 | `split` cuts at every occurrence: no piece holds the separator |
| Text.SplitJoin | main.py:25-26 | joining the pieces of `split(sep)` with `sep` gives the string back |
| Text.SplitWithoutSep | main.py:26 | a string without the separator splits into itself alone |
| Text.SplitWithSep | main.py:26 | a string holding the separator splits into at least two pieces |
| Text.SplitOnCharPieces | main.py:26 | no piece of a split on `=` contains `=` |
| Text.ContainsChar | main.py:26 | a one-character separator occurs exactly when the string holds that character |
| Text.JoinLength | main.py:111 | joining with `""` is shorter by one separator length per cut |
| Text.LStrip | main.py:114 | `lstrip()` removes a whitespace-only prefix and leaves a result that starts with a non-space |
| Text.RStrip | main.py:114 | `rstrip()` removes a whitespace-only suffix and leaves a result that ends with a non-space |
| Text.IsSpace | main.py:114 | definition of `str.isspace()` for one character: the 29 Unicode whitespace characters Python recognises |
| Text.Strip | main.py:114 | definition of `strip()` as `rstrip()` after `lstrip()` (their contracts: `Text.LStrip`, `Text.RStrip`) |
| Text.StripEmptyIff | main.py:114 | `strip() == ""` exactly when every character is whitespace |
| Cookies.Pieces | main.py:25 | there is at least one piece, the pieces re-joined by `"; "` give the cookie string, and no piece holds `"; "` |
| Cookies.Key | main.py:26-29 | definition of `y[0]`, the first piece of `x.split("=")` (its properties: `Cookies.PieceShape`) |
| Cookies.Value | main.py:26-29 | definition of `y[1]`, the second piece, defined only for a piece holding `=` (its properties: `Cookies.PieceHasTwoParts`, `Cookies.PieceShape`) |
| Cookies.PieceHasTwoParts | main.py:26-29 | `y[1]` exists exactly when the piece holds an `=` |
| Cookies.PieceShape | main.py:26-29 | the piece is `name=value`, optionally followed by `=` and more; neither part holds `=`, and the tail after a second `=` is dropped |
| Cookies.CookieJar | main.py:24-30 | definition of the dictionary filled piece by piece in order, or the IndexError of the first piece without `=` (its properties: the `CookieJar` lemmas below) |
| Cookies.CookieJarErrPersists | main.py:25-29 | once a piece raises, the whole parse raises the same error |
| Cookies.CookieJarOkIff | main.py:25-30 | the parse succeeds iff every piece holds `=` |
| Cookies.CookieJarFails | main.py:25-30 | a failed parse raises on the first piece without `=`: every earlier piece holds one |
| Cookies.CookieJarKeys | main.py:25-30 | a name is in the dictionary iff some piece carries it |
| Cookies.CookieJarLastWins | main.py:29 | the value kept for a name is that of the last piece carrying it |
| Cookies.PrepareCookies | main.py:23-30 | the loop builds exactly the dictionary `CookieJar` specifies, or its IndexError |
| Options.Configure | main.py:64-93 | definition of the settings `main` computes from the options, or the IndexError of the cookie parse, or exit 9 (its properties: `Options.ExitNineIff`, `Options.ConfigureOk`) |
| Options.TrimOutDir | main.py:92-93 | the result followed by the cut `/` (if any) is the given directory |
| Options.ParsedCookiesNonEmpty | main.py:77-80 | a cookie string that parses always gives at least one cookie |
| Options.ExitNineIff | main.py:69-82 | exit 9 happens exactly when the cookie string (if given) parses and the mail file or the cookie option is missing or empty |
| Options.ConfigureOk | main.py:64-93 | a run past the checks has the given mail file, a non-empty cookie map, the inbox as default folder, and the given or temp directory with at most one `/` cut |
| Listing.Request | main.py:35-42 | the listing holds the reported total and `min(count, K - start + 1)` rows (none past the end) |
| Listing.RequestRows | main.py:35-40 | the rows of a listing are the folder's identifiers from position `start` on, in view order |
| Listing.Entries | main.py:47-49 | iterating the rows succeeds iff the listing has at least two rows; zero rows is the KeyError and one row the TypeError |
| Listing.Taken | main.py:47-54 | the loop never appends more rows than the page has |
| Listing.TakenBreaks | main.py:47-54 | the `for` loop appends every row up to and including the first one after which `max > 0 and _index + start > max`, and stops early only there |
| Listing.TakenUnique | main.py:47-54 | any count with those two properties is the one `Taken` gives |
| Listing.CollectRows | main.py:44-54 | the loop over one page appends exactly the first `Taken` rows and leaves `_index` at that count |
| Listing.Enumerate | main.py:32-59 | definition of what `loadFolder` returns or raises: one page's rows up to the break, followed by the recursive call while `(max == 0 or start < max) and start < numentries` (its properties: the `Enumerate` and `LoadFolder` lemmas below) |
| Listing.LoadFolder | main.py:32-59 | the paging loop returns exactly what the recursive `Enumerate` specifies, errors included |
| Listing.EnumerateIsSlice | main.py:44-59 | a run returns a contiguous run of the folder's identifiers, in order, starting at `start` |
| Listing.EnumerateCapped | main.py:52-57 | with a cap `max > 0`, `start - 1` plus the identifiers returned never exceeds `max` |
| Listing.EnumerateNearlyComplete | main.py:52-58 | with an honest total, a successful run stops at most one identifier short of `min(max, K)` (of `K` without a cap) |
| Listing.LastReached | main.py:56-57 | an uncapped run over `K` entries stops at `K - 1` or `K` |
| Listing.AllPagesMore | main.py:56-58 | a full page followed by more is that page and the run after it |
| Listing.AllPagesLastFull | main.py:56-57 | a full page ending one entry before the folder does ends the run there |
| Listing.AllPagesTail | main.py:47-57 | a page that reaches the end of the folder returns the rest of it and ends the run |
| Listing.EnumerateAllPages | main.py:56-58 | from a page boundary, an uncapped run returns the identifiers up to `LastReached` |
| Listing.UncappedStep | main.py:47-58 | one uncapped step takes the whole page and recurses iff the next start is below the total |
| Listing.LoadFolderWholeFolder | main.py:95 | `main`'s uncapped call on a folder of at least two messages returns every identifier, or all but the last when `K - 1` is a multiple of the page size |
| Listing.LoadFolderSmallFails | main.py:47-49 | an empty folder raises the KeyError and a folder of one message (or pages of one row) the TypeError |
| Listing.EnumerateOverreportedFails | main.py:42-58 | without a cap (`max = 0`), a reported total more than one above the real count ends in an error |
| Listing.LoadFolderDropsLast | main.py:57 | three entries with pages of two return only the first two |
| Listing.LoadFolderCapShort | main.py:57 | a cap of 3 over four entries with pages of two returns two identifiers |
| Listing.Wanted | main.py:52-57 | the intended count is `K` without a cap; with a cap it is at most `K` and at most `max`, and equal to one of them |
| Listing.EnumerateFixed | main.py:44-58 | definition of the corrected run: continue while `start <= max` and `start <= numentries`, and read zero or one rows as zero or one identifiers (its properties: the `Fixed` lemmas below) |
| Listing.FixedTaken | main.py:47-57 | below `min(max, K)` the corrected run finds a non-empty page, takes at least one row, never passes the bound, and continues iff the next start is within it |
| Listing.FixedStepMore | main.py:56-58 | a corrected step below the bound is the rows taken followed by the run from the next start |
| Listing.FixedStepLast | main.py:56-59 | a corrected step that reaches the bound returns the rows taken, ending exactly at the bound |
| Listing.FixedContinues | main.py:56-58 | if the corrected run from the next start is the slice up to the bound, so is the run from `start` |
| Listing.FixedStops | main.py:56-59 | a corrected step that reaches the bound returns the slice from `start` to the bound |
| Listing.EnumerateFixedFrom | main.py:44-58 | the corrected run returns exactly the identifiers from `start` up to `min(max, K)` |
| Listing.EnumerateFixedComplete | main.py:44-58 | the corrected run returns exactly the first `min(max, K)` identifiers (all `K` uncapped), for any folder including empty and single-message ones |
| Sanitize.RemoveBr | main.py:111 | definition of `replace("<br>", "")` as `"".join(s.split("<br>"))` (its properties: the `RemoveBr` lemmas below) |
| Sanitize.RemoveBrCuts | main.py:111 | the body is cut at every `<br>`: the pieces rejoined with `<br>` give it back, no piece holds `<br>`, and the result is the pieces run together |
| Sanitize.RemoveBrLength | main.py:111 | each removed `<br>` shortens the body by four characters |
| Sanitize.RemoveBrUnchangedIff | main.py:111 | the removal leaves the body unchanged exactly when it contains no `<br>` |
| Sanitize.RemoveBrSinglePass | main.py:111 | the removal is one pass: `<b<br>r>` becomes `<br>` |
| Sanitize.SplitAround | main.py:111 | splitting at the first `<br>` separates the text before it from the split of the rest |
| Sanitize.FirstBrAfter | main.py:111 | a prefix without `<` cannot hide an earlier `<br>` |
| Sanitize.Unescape | main.py:112 | decoding never lengthens text |
| Sanitize.UnescapeCons | main.py:112 | a character other than `&` is copied as it is |
| Sanitize.UnescapePlain | main.py:112 | text without `&` passes through decoding unchanged wherever it stands |
| Sanitize.UnescapeNoEntity | main.py:112 | text without `&` is unchanged by decoding |
| Sanitize.UnescapeLt | main.py:112 | `&lt;` decodes to `<` |
| Sanitize.UnescapeGt | main.py:112 | `&gt;` decodes to `>` |
| Sanitize.UnescapeAmp | main.py:112 | `&amp;` decodes to `&` without the result being decoded again |
| Sanitize.Escape | main.py:112 | the inverse partner of the decoding there (`html.escape(s, quote=False)`, which main.py does not call): escaped text holds no `<` and no `>` |
| Sanitize.UnescapeEscape | main.py:112 | decoding undoes escaping |
| Sanitize.Sanitize | main.py:111-112 | definition of the body written: `<br>` removed first, entities decoded second (its properties: the `Sanitize` lemmas below) |
| Sanitize.SanitizePlainText | main.py:111-112 | a body with no `<br>` and no `&` is written unchanged |
| Sanitize.SanitizeEscaped | main.py:111-112 | an escaped body comes back exactly, including any `<br>` it encodes |
| Sanitize.SanitizeShape | main.py:111-112 | removal then decoding turns `a&lt;b&gt;<br>c&amp;d` into `a<b>c&d` when the plain parts hold no `&` and no `<` |
| Sanitize.SanitizeExample | main.py:111-112 | `Hello&lt;br&gt;<br>World &amp; friends` becomes `Hello<br>World & friends` |
| Sanitize.RemoveOneBr | main.py:111 | removing `<br>` from `a<br>b`, where neither part holds `<`, gives `ab` |
| Sanitize.UnescapeEntities | main.py:112 | decoding `a&lt;b&gt;c&amp;d` (no `&` in the plain parts) gives `a<b>c&d` |
| Export.OutPath | main.py:102 | the file name is the directory, `/`, the identifier and `.eml` |
| Export.Mail | main.py:108-112 | definition of the sanitized response for one identifier, with the request as the parameter `fetch` |
| Export.Blank | main.py:114 | definition of `_mail.strip() == ""` as "every character is whitespace", equal by `Text.StripEmptyIff` |
| Export.OutPathInjective | main.py:102 | two identifiers share an output file only if they are equal |
| Export.FileSystem.Exists | main.py:104 | `os.path.exists` is membership in the directory |
| Export.FileSystem.WriteFile | main.py:117-119 | writing sets that one path's content and leaves every other file as it was |
| Export.Export | main.py:99-121 | the specified run logs one outcome per identifier |
| Export.ExportAll | main.py:99-121 | the loop leaves the directory and log that `Export` specifies, and `_t` counts every identifier |
| Export.ExportKeepsExisting | main.py:104-106 | a file present before the run keeps its content: it is never overwritten (that it is not fetched again is `Skipped` in `Export.ExportOutcome`) |
| Export.ExportNewFiles | main.py:102-119 | every new file is the output file of an identifier and holds that identifier's sanitized, non-blank mail |
| Export.PresentMeansContent | main.py:104-119 | an identifier's file exists after the run only if it existed before or its mail has content |
| Export.ExportCoverage | main.py:101-119 | after the run, an identifier's file exists iff it existed before or its mail has content |
| Export.ExportPrefix | main.py:101 | the log of a run over a prefix of the identifiers is the prefix of the log |
| Export.ExportOutcome | main.py:104-119 | an identifier is skipped iff its file existed or an earlier occurrence wrote it, refused iff its mail is blank, and written otherwise |
| Export.ExportSettled | main.py:104-115 | a directory that already holds every non-blank mail is left unchanged, and only blank ones are fetched |
| Export.ExportIdempotent | main.py:99-121 | a second run leaves the directory as the first left it; every identifier is skipped except those with a blank mail and no earlier file, which are fetched again |
| Export.ExportFresh | main.py:99-119 | a first run over distinct new identifiers whose mails all have content writes every one |

## Left out

- HTTP: the listing and message requests, redirects, headers and URL construction (main.py:35-38, 108-109) are replaced by the `Folder` and by `fetch`; network failures are not modelled.
- XML: `xmltodict.parse` is modelled only by its effect on row iteration (zero, one, or several rows); a malformed document, a missing `toplevelentries` or a non-numeric count are not modelled.
- The folder name and the mail-file URL are used only inside URLs and are carried but not interpreted.
- `docopt` parsing of the command line and the `--help` screen: `Args` holds what it hands back.
- `tempfile.gettempdir()` is the parameter `tempDir`.
- Printing, including the debug lines, the progress line every 1000 messages and the "CANNOT PROCESS" report, is not modelled; the log's `EmptyBody` marks the last of these.
- Sanitize.Unescape: only the entities `&lt;`, `&gt;` and `&amp;` are decoded; the full HTML5 entity table and numeric character references of `html.unescape` are not modelled.
- Listing.Enumerate: the server is one fixed folder for the whole run; a folder that changes between page requests is not modelled. Python's recursion depth limit is not modelled.
- Text.Split: only non-empty separators, the only ones the code uses.
- Export.Export: `fetch` is one fixed function of the identifier, within a run and across runs, while main.py:109 makes a live request each time; `Export.ExportIdempotent` (the second run leaves the files as the first did) and the blank re-fetch in `Export.ExportOutcome` rely on the server answering the same way.
- Export.FileSystem.WriteFile: always succeeds and writes the file in full; `open(outfilename, "w")` at main.py:117 raises when the output directory is missing or not writable, which ends the run, and that is not modelled; nor are the UTF-8 encoding, partial writes and the unclosed file handle (`outf.close` without a call).

## Findings

| source | as written | input that shows it | evidently intended | confidence | as-written member | corrected member |
|---|---|---|---|---|---|---|
| main.py:57 | recursion continues only while `start < numentries`, where `start` is the 1-based position of the next entry | uncapped, 3 entries reported and present, page size 2: returns 2 identifiers | continue while `start <= numentries` and also read a one-row listing as its one identifier (the main.py:47-49 row): the first change alone requests the one-row page at `start = 3` and raises TypeError; with both, all 3 are returned | not executed | Listing.LoadFolderDropsLast | Listing.EnumerateFixedComplete |
| main.py:57 | recursion continues only while `start < max` | cap 3, 4 entries, page size 2: returns 2 identifiers | continue while `start <= max`, so `min(max, K)` = 3 are returned | not executed | Listing.LoadFolderCapShort | Listing.EnumerateFixedComplete |
| main.py:47-49 | rows are read as `['viewentry']`, which is missing for zero rows and a dictionary for one row | an empty folder raises KeyError; a folder of one message raises TypeError | zero rows give no identifiers and one row gives its identifier | not executed | Listing.LoadFolderSmallFails | Listing.EnumerateFixedComplete |
