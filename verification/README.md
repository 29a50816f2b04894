# Wayback Machine post scraper — a verified model

`wayback.py` downloads the archived copies of one account's posts from the
Wayback Machine. It runs four phases. It builds an index of candidate
captures from the archive's capture list, fetches each capture to a local
file with a small retry budget, parses every stored file into a row of post
fields, and joins the rows with the index into a table sorted by post
identifier. This project models the deterministic rules inside those
phases as pure Dafny functions and proves what they promise. The network,
the disk, the HTML parser, the JSON decoder and pandas are replaced by
parameters or values.

Modules (one file each):

- `Options`: the `Option` type used for "absent" and for "raised an exception".
- `Counters`: the retrieved and error counters the two phases report.
- `Text`: the Python `str` operations the script relies on. These are
  `find`, `s[s.find(c) + 1:]`, `split(sep)[-1]`, `replace(pat, "")`,
  `strip()`, `split()` and `str(n)`. Each of these has CPython's exact
  semantics, including the whitespace set of `strip()` and `split()`. It
  also covers `int(s)`: surrounding whitespace, an optional sign, and digits
  with single underscores. `int` trims a smaller whitespace set than
  `strip()`: it does not skip the separators U+001C..U+001F. It also reads
  ASCII digits only (see "## Left out").
- `Snowflake`: `snowflake2utc`, that is, `(sf >> 22) + 1288834974657`.
  The shift is floor division, including for negative values.
- `Retweet`: `get_retweet`.
- `CaptureIndex`: the candidate filter, the cast to a 64-bit column and the
  snapshot URL.
- `FileNames`: how a capture is named on disk, and how the parse phase
  reads the identifier and the parser back out of the name.
- `Retrieve`: the per-capture retry loop as a fold over a finite sequence of
  responses, and the batch over the whole index.
- `Extract`:
  - `parse_json`, over a decoded-object datatype;
  - the three HTML handler bodies, over an abstract view of the matched element;
  - the `parse_html` dispatch loop;
  - the parse phase over a directory listing.
- `Export`: the inner join with the index, the retweet column and the sort.
  It has two versions: `Export`, the table the step evidently means to
  write, and `AsWritten`, which models where the code stops without writing it.

Three behaviours of the code are worth stating up front:

- An identifier exactly equal to 292000000000000 is excluded, because the
  comparison at wayback.py:147 is strict (`CaptureIndex.AcceptsStatusUrl`).
- The file name keeps whatever subtype the mime type has
  (wayback.py:163-164). Only the parse side falls back to the HTML parser
  (wayback.py:200-202).
- When no entry of the capture list survives the filters, the run stops at
  wayback.py:148. Building the snapshot URL column row by row over an empty
  frame yields a frame rather than a column, and pandas refuses to store a
  frame as one column. This is pandas behaviour, so it does not appear in the
  script's text (`CaptureIndex.BuildIndex`).

## Model

| member | source | states |
|---|---|---|
| Text.Find | wayback.py:163 | `find` returns an index where the pattern occurs and no later than any occurrence, or -1 |
| Text.AfterFirst | wayback.py:163 | `s[s.find(c) + 1:]` is the text after the first `c`; without a `c` it is the whole string, because find's -1 turns the slice into `s[0:]` |
| Text.LastPieceSpec | wayback.py:144 | the last piece of `split(sep)` holds no separator, and starts either at 0 or right after a separator occurrence; `Text.SplitLastIsLastPiece` pins it to the left-to-right scan |
| Text.Split | wayback.py:144 | `split(sep)` always has at least one piece |
| Text.SplitRejoins | wayback.py:144 | joining the pieces of `split(sep)` with `sep` gives the text back |
| Text.SplitLastIsLastPiece | wayback.py:144 | `split(sep)[-1]` is the last piece of the left-to-right, non-overlapping split |
| Text.RemoveAll | wayback.py:203 | `replace(pat, "")` never lengthens the text and introduces no character |
| Text.RemoveAllAbsent | wayback.py:203 | `replace(pat, "")` leaves a text without `pat` unchanged |
| Text.FilterCounts | wayback.py:78 | the characters other than `c` keep their number of occurrences, and `c` has none |
| Text.RemoveAllSingle | wayback.py:78 | removing every `@` is the filter that keeps the other characters in order and each as often as before |
| Text.Strip | wayback.py:73 | the result of `strip()` neither starts nor ends with whitespace |
| Text.StripFrame | wayback.py:73 | `strip()` returns a slice of the text whose removed ends are all whitespace |
| Text.StripEmpty | wayback.py:45-47 | `strip()` yields the empty string exactly when the text is all whitespace |
| Text.StripKeeps | wayback.py:45 | `strip()` keeps every non-whitespace character |
| Text.WordsAreWords | wayback.py:78 | every word of `split()` is non-empty and holds no whitespace |
| Text.WordsOfToken | wayback.py:78 | a text that starts with a non-space has its leading run as its first word |
| Text.DecimalValue | wayback.py:161 | `str(n)` is a digit string whose value is `n` |
| Text.PyIntOfDecimal | wayback.py:203 | `int(str(n)) == n` |
| Text.PyIntOfNumeric | wayback.py:203 | `int` reads a digit string as its decimal value |
| Text.PyIntRejectsDot | wayback.py:203 | `int` refuses any text containing a `.` |
| Text.PyIntRejectsChar | wayback.py:203 | `int` refuses any text holding a character that is not its whitespace, an ASCII digit, `_` or a sign, wherever it stands |
| Text.PyIntRejectsSeparator | wayback.py:203 | the separators U+001C..U+001F are whitespace to `strip()`, yet `int` refuses a text holding one, even at its end |
| Text.PyIntTrims | wayback.py:203 | digits surrounded by `int`'s whitespace (tab to carriage return, space and the non-ASCII whitespace characters) read as their decimal value |
| Snowflake.ToUtcClosedForm | wayback.py:30-31 | `snowflake2utc(sf) == sf / 4194304 + 1288834974657` exactly, with floor division |
| Snowflake.ShiftRightIsDiv | wayback.py:31 | shifting right by n is floor division by 2^n |
| Snowflake.ToUtcMonotone | wayback.py:30-31 | a larger identifier never maps to an earlier time |
| Snowflake.ToUtcIgnoresLowBits | wayback.py:30-31 | identifiers that differ only in their low 22 bits map to the same millisecond |
| Snowflake.ToUtcSameHighBits | wayback.py:30-31 | identifiers with equal quotient by 2^22 share a time |
| Retweet.GetRetweet | wayback.py:33-38 | a non-empty handle needs the `RT @` marker; `Retweet.GetRetweetInText` and `Retweet.GetRetweetOfMarked` state the rest |
| Retweet.GetRetweetByPosition | wayback.py:33-38 | after `RT @`, the handle is what lies between the `@` and a final colon of that word, otherwise empty |
| Retweet.GetRetweetInText | wayback.py:33-38 | a non-empty handle `h` satisfies all of these: the text starts with `RT @`; `text[4..4+\|h\|] == h`; `text[4+\|h\|] == ':'`; the colon is followed by whitespace or the end; `h` has no whitespace |
| Retweet.GetRetweetOfMarked | wayback.py:33-38 | conversely, `RT @h:` followed by whitespace or nothing yields `h` |
| Retweet.RetweetWithColon | wayback.py:33-38 | `"RT @bob: hi"` yields `"bob"` |
| Retweet.RetweetWithoutColon | wayback.py:36-38 | `"RT @bob hi"` yields `""` |
| Retweet.RetweetMarkerNotFirst | wayback.py:34-38 | the marker must open the text: `"hello RT @bob: hi"` yields `""` |
| CaptureIndex.Select | wayback.py:143-149 | the selected candidates are exactly the accepted entries. Each carries its parsed identifier, which exceeds the threshold, and the URL `https://web.archive.org/web/<t>/<url>` |
| CaptureIndex.SelectAppend | wayback.py:143-147 | filtering is per entry and keeps index order |
| CaptureIndex.BuildIndex | wayback.py:143-149 | the run stops exactly when some ASCII digit-only identifier exceeds the 64-bit range, or when no entry is accepted (for other numeric last pieces see "Left out"). Otherwise the index is the non-empty selection, and every candidate's identifier lies above 292000000000000 and within that range |
| CaptureIndex.AcceptedShape | wayback.py:143-145 | every URL that mentions `status` and whose last `/status/` piece is all digits is `prefix + "/status/" + digits`, the digits being the identifier's text |
| CaptureIndex.AcceptsStatusUrl | wayback.py:143-147 | when the first `/status/` introduces a digit string, the URL is accepted exactly when its value is strictly greater than 292000000000000. Equality is excluded |
| CaptureIndex.StatusNamedAccount | wayback.py:143-147 | in `…/status/status/<digits>` the last piece is `status/<digits>`, so no post of an account named `status` is selected |
| CaptureIndex.StatusAccountUrl | wayback.py:143-147 | `https://twitter.com/status/status/123` is not selected |
| CaptureIndex.MentionIsNotNumeric | wayback.py:144-145 | a segment that still holds `status` is not all digits |
| FileNames.KindOf | wayback.py:200-202 | the extension `json` selects the JSON parser; every other extension selects the HTML parser |
| FileNames.FileNameExtension | wayback.py:161-164 | the extension read back from `<id>.<subtype>` is the subtype written |
| FileNames.Decode | wayback.py:200-203 | a decoded name selects the JSON parser exactly when its extension is `json`; `FileNames.RoundTrip` and `FileNames.DecodeFileName` state the identifier |
| FileNames.SeparatorSuffixFails | wayback.py:200-203 | a name `<id>.html` followed by one of U+001C..U+001F is not decoded: `int` raises, which the parse phase counts as an error |
| FileNames.DecodeFileName | wayback.py:200-203 | decoding a stored name applies `int` to the identifier digits followed by what remains of `.<subtype>` after removing `.<kind>` |
| FileNames.RoundTrip | wayback.py:200-203 | a capture stored with subtype `html` or `json` is read back with its own identifier and the matching parser |
| FileNames.OtherSubtypeFails | wayback.py:200-203 | a stored name with any other subtype that does not begin with `html` cannot be read back |
| FileNames.HtmlDigitSubtypeMisread | wayback.py:200-203 | a subtype `html<d>` is read as identifier `10 * id + d`, so post 123 stored as `123.html5` is parsed as post 1235 |
| Retrieve.Step | wayback.py:166-191 | one pass never raises the budget, stores only when the loop ends, and moves at most one counter by one, only when the loop ends |
| Retrieve.Drive | wayback.py:166-191 | the loop consumes at most the supplied responses; it stops early only when settled |
| Retrieve.DriveSettles | wayback.py:160-191 | a fresh loop ends in exactly one of three ways: still waiting with the counters untouched; stored with one more retrieved; or given up with one more error |
| Retrieve.StoredIsLastCapture | wayback.py:170-183 | what is stored is the last body consumed, and it carries neither an unavailable nor an overload marker |
| Retrieve.CaptureStored | wayback.py:179-183 | a body that is neither unavailable nor overloaded ends the loop at once: it is stored, and one more capture is retrieved |
| Retrieve.OverloadTransparent | wayback.py:175-178 | an overloaded body leaves the budget and the counters as they were: the run continues as if it had not arrived |
| Retrieve.UnavailableFirst | wayback.py:170-176 | an empty body, or one with a permanent marker, ends the loop at once with one error, even if it also carries an overload marker |
| Retrieve.FailuresWithinBudget | wayback.py:186-191 | the exceptions consumed never exceed the retries spent, so at most 3 are absorbed |
| Retrieve.ExhaustedGivesUp | wayback.py:186-191 | with only exceptions and overloaded bodies, the third exception gives the capture up with exactly one error |
| Retrieve.FetchOne | wayback.py:160-193 | one record uses no more responses than it is given; `Retrieve.FetchOneEffect` and `Retrieve.FetchOneStores` state its effect |
| Retrieve.FetchOneStores | wayback.py:165-183 | a missing capture whose first response is a capture is written under its file name and counted, after one request |
| Retrieve.FetchOneEffect | wayback.py:159-193 | per record: a file already present counts as retrieved, with no request and no change to the disk; otherwise a settled record moves exactly one counter, and a retrieved record leaves its file on disk. Files are only added, under the record's name |
| Retrieve.FetchAll | wayback.py:159-193 | the batch uses no more responses than it is given; `Retrieve.FetchAllEffect` and `Retrieve.CleanBatchStoresAll` state its effect |
| Retrieve.FetchAllEffect | wayback.py:159-193 | over a settled batch, retrieved plus errors grows by exactly the number of records. No file is removed or rewritten, and new files bear candidates' names |
| Retrieve.AllPresentNoRequests | wayback.py:165-193 | when every candidate's file exists, the batch makes no request and counts every record as retrieved |
| Retrieve.CleanBatchStoresAll | wayback.py:159-193 | a settled batch without new errors leaves every candidate's file on disk |
| Retrieve.RerunIsFree | wayback.py:159-193 | rerunning after a clean batch makes no request at all |
| Extract.Get | wayback.py:115-121 | a key lookup succeeds exactly when the key is present, and it returns the key's last value |
| Extract.ParseJson | wayback.py:113-122 | a parsed JSON row keeps its identifier, time and type |
| Extract.ParseJsonFields | wayback.py:113-122 | parsing succeeds exactly when the object has `text` and any quoted post is readable. The text is the object's `text`. The reply handle is set exactly when `in_reply_to_screen_name` is present. The quoted fields are set exactly when `quoted_status` is present |
| Extract.ParseJsonCapture | wayback.py:113-122 | on the fresh row of the parse phase, the reply and quoted fields are present exactly when their keys are |
| Extract.ParseJsonNeedsObject | wayback.py:114-115 | a failed decode, or a decoded value that is not an object, is an error |
| Extract.MentionReply | wayback.py:77-78 | a reply handle is produced exactly when the text starts with `@` |
| Extract.MentionReplyShape | wayback.py:78 | the reply handle holds no `@` and no whitespace, and draws only on characters of the text |
| Extract.MentionReplyOf | wayback.py:77-78 | `@h` followed by whitespace or nothing replies to `h` |
| Extract.JumboEmpty | wayback.py:45-47 | the jumbo handler returns `None` exactly when its text is all whitespace |
| Extract.ApplyNoRow | wayback.py:49 | no handler produces a row from a row that is `None` |
| Extract.Dispatch | wayback.py:101-111 | the loop never yields a row from `None`; `Extract.DispatchFirstHit` states which row it yields |
| Extract.DispatchNoRow | wayback.py:101-111 | once `row` is `None` the loop yields `None` |
| Extract.DispatchSound | wayback.py:101-111 | a returned row comes from a handler with exactly one match that returned it. Every handler before it did not run or raised |
| Extract.DispatchReaches | wayback.py:101-111 | conversely, such a handler's row is the result |
| Extract.DispatchFirstHit | wayback.py:99-111 | both directions together: the first-hit characterisation of `parse_html` |
| Extract.DispatchSkipsUnmatched | wayback.py:103-104 | a handler with zero or several matches never runs: removing it changes nothing |
| Extract.JumboEmptyPoisons | wayback.py:99-111 | when the jumbo handler runs on an all-whitespace text, the page yields `None` whatever later handlers would find |
| Extract.TextRowShape | wayback.py:69-92 | the compact and opened handlers keep the identity fields and store the text; a reply handle they set holds no `@` |
| Extract.ApplyShape | wayback.py:41-92 | every handler that returns a row keeps its identity fields and stores a stripped string text |
| Extract.ParseHtml | wayback.py:99-111 | every row `parse_html` returns has that shape |
| Extract.ParseFile | wayback.py:198-210 | a parsed file's row carries the identifier and parser its name decodes to, and the time derived from that identifier |
| Extract.Collect | wayback.py:196-221 | the rows counted are the rows kept, and every file moves exactly one counter; `count` restarts at 0 while `errors` carries on |
| Extract.CollectIsSuccesses | wayback.py:211-221 | the rows kept are the successful outcomes in listing order, each once; `count` is their number and every failure adds one error |
| Extract.CollectRows | wayback.py:211-218 | the rows kept are exactly the successful outcomes |
| Extract.ParsePhase | wayback.py:196-221 | over a listing, parsed plus errors grows by the number of files |
| Extract.ParsePhaseInOrder | wayback.py:196-221 | the rows handed on are the successful parses in listing order, and every file that does not parse is one more error |
| Extract.ParsePhaseRows | wayback.py:198-221 | every row comes from a file of the listing, and every file that parses contributes its row |
| Export.Join | wayback.py:233 | every joined pair carries a parsed row; `Export.JoinIn` states which pairs there are |
| Export.MatchesIn | wayback.py:233 | a row is paired with a URL exactly when the index holds its identifier with that URL |
| Export.JoinIn | wayback.py:233 | the inner join holds a pair exactly when its row was parsed and the index holds the identifier with that snapshot URL |
| Export.Insert | wayback.py:235 | inserting into an id-sorted table keeps it sorted and adds exactly that record |
| Export.SortById | wayback.py:235 | the sorted table is ordered by identifier and is a permutation of its input |
| Export.Export | wayback.py:233-235 | the table exists exactly when every joined text is a string; it is sorted by identifier and has one line per joined pair |
| Export.ExportContents | wayback.py:233-235 | the lines are exactly the records of parsed rows with an indexed snapshot URL. Each line's retweet handle is `get_retweet` of its own text, and its handle column is the account |
| Export.AsWritten | wayback.py:222-236 | when the code as written produces a table, it is the intended one; `Export.ExportSucceeds` states when it produces one |
| Export.ParsedTimeConverts | wayback.py:224-229 | a parsed row whose identifier fits in a signed 64-bit integer has a time `pd.to_datetime` accepts, so the conversion at 224 refuses only identifiers the cast at 229 refuses too |
| Export.AsWrittenFailsOnWideId | wayback.py:222-224 | a capture of post 10^20 with every field set lies past the datetime range, so the code stops at the conversion, where the intended (empty) table exists |
| Export.AsWrittenFailsOnNoRows | wayback.py:222-224 | with no parsed capture, no table is written where an empty one is meant |
| Export.AsWrittenFailsWithoutReplies | wayback.py:227-235 | rows that never set a reply handle make the column selection fail |
| Export.AsWrittenFailsWithoutQuotes | wayback.py:227-235 | one JSON capture with a text and a reply handle but no quoted post, present in the index, writes no table; the intended table has its one line |
| Export.ExportSucceeds | wayback.py:222-236 | with string texts the intended table always exists. The code as written succeeds exactly when rows exist, every time lies in the datetime range (224), every identifier fits in a signed 64-bit integer (229), and each of the quoted and reply fields was set by some row |

## Left out

- Network I/O:
  - the capture-list request (wayback.py:129-133);
  - each snapshot request and its timeout (169);
  - the sleeps (178, 187).

  The retry loop consumes a given sequence of responses instead.
- Disk I/O:
  - writing the capture list and the candidate CSV (134-136, 151);
  - creating the directory (154-156);
  - reading files (206).

  The capture directory is a map from file name to contents. The order in which `os.listdir` lists files (198) is the order of the given file list.
- The candidate CSV written at 151 and read back at 231-232 is taken to round-trip: `Export` receives the candidates themselves.
- Turning the capture list into a frame (139-142) is library behaviour, outside the filter rules. An empty list stops the run like an empty selection (`CaptureIndex.BuildIndex`).
- `str.isnumeric` and `int` accept different sets of non-ASCII characters. `isnumeric` is also true of numeric characters that are not decimal digits, such as `½`, `²`, `Ⅻ` and `三`, which `int` refuses; both accept every Unicode decimal digit. The model's `IsNumeric` and `PyInt` accept ASCII digits only.
- CaptureIndex.BuildIndex: a last piece that `isnumeric` accepts but that is not a decimal string, such as `½`, survives the filter at 145 and stops the run at the cast at 146. The model's `IsNumeric` refuses such a piece, so the model drops that entry and goes on where the code stops. A last piece of non-ASCII decimal digits, which the code reads as a number, is dropped by the model too.
- The HTML parser and DOM navigation (wayback.py:42-44, 50, 53-54, 60-61, 63, 70-72, 82-85, 100, 102) are left out. A page is a map from (tag, class) to the elements found. An element is the text, sibling boxes and inner paragraph those lookups would return. A raise during emoji replacement or lookup is a `None` in that view.
- `json.loads` (114) is a parameter returning a decoded `Json` value, or `None` when decoding fails. JSON numbers are integers only; floating point is not modelled.
- `pd.to_datetime` (224) is modelled only by its range check; `utcTime` stays in milliseconds. CSV formatting of the table (236) is left out.
- Export.AsWritten: the stops at 224 and 229 are modelled by pandas' nanosecond timestamp range (±(2^63 - 1) ns, in whole milliseconds) and by the signed 64-bit range of `astype(int)`. A column of identifiers between 2^63 and 2^64 might instead be stored unsigned, where the cast could wrap rather than raise; the model counts such identifiers as a stop, as it does at 146.
- Progress and error printing (150, 172, 177, 184-185, 191, 214-217, 220, 225-226) and `sys.argv` (126) are left out; the account handle is a parameter.
- Retrieve.Drive: the overload branch (175-178) can loop forever on a server that stays busy. The model runs only over a finite response sequence, and a record still waiting when the responses run out stops the batch (`settled == false`).
- Retrieve.Response: an exception raised while writing the capture file (180-181) is merged with a failed request into `Raised`. Both take the same branch (186-191). A partially written file left behind by such a failure is not modelled.
- Export.SortById: pandas' default sort is not stable. The contract promises only the order by identifier and the multiset of lines, not the relative order of equal identifiers.
- Export.ExportContents: states membership of lines. Multiplicity is covered only by the length equation in `Export.Export`, which gives one line per joined pair.
- Text.RemoveAll: for a pattern of more than one character the contract states only that the text does not grow, gains no character, and is unchanged when the pattern is absent (`Text.RemoveAllAbsent`). The file-name uses at wayback.py:203 are covered by the `FileNames` lemmas on the shapes that occur.
- Text.Words: carries no contract of its own. `Text.WordsAreWords` and `Text.WordsOfToken` state what the model needs; maximality of the runs is not stated separately.

## Findings

| source | as written | input that shows it | evidently intended | confidence | as-written member | corrected member |
|---|---|---|---|---|---|---|
| wayback.py:222-224 | the frame built from an empty row list has no `utcTime` column, so `df["utcTime"]` raises and no table is written | a run in which no capture parses (rows = []) | write the empty table | not executed; medium | Export.AsWrittenFailsOnNoRows | Export.ExportSucceeds |
| wayback.py:227-235 | selecting `columns` raises when no parsed row ever set `quotedHandle`, `quotedText` or `replyToHandle`, so no table is written | one JSON capture `{"text": "hello world", "in_reply_to_screen_name": "bob"}` of post 300000000000000000, present in the index | missing fields become empty cells and the table has its one line | not executed; high | Export.AsWrittenFailsWithoutQuotes | Export.ExportSucceeds |
