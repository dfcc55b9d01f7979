# Apple iTunes podcast helper — a Dafny model of its pure logic

The helper script `scripts/itunes_api.py` searches the iTunes podcast API,
lists a podcast's episodes and downloads one of them. Around the HTTP calls it
holds a few deterministic pieces, and this project models those and proves
what they guarantee:

- `safe_filename(name, max_length=100)`, a four-stage string pipeline. It
  deletes `<>:"/\|?*`, turns each whitespace run into one space, turns each
  dash run into one dash, cuts to `max_length` with Python slice semantics,
  and strips surrounding whitespace (`filename.dfy`, with generic stages in
  `seqs.dfy`).
- `format_duration(ms)`: the unit conversion, the two output shapes and the
  `"Unknown"` sentinel, with Python's `str(int)` rendering
  (`duration.dfy`, `decimal.dfy`).
- `format_date(iso)`: `iso.split('T')[0]`, or `"Unknown"` for the empty
  string (`date.dfy`, with `str.split`/`str.join` in `text.dfy`).
- The episode filter of `get_episodes`: keep the entries whose `kind` is
  `"podcast-episode"` (`episodes.dfy`).
- The `download` command without its I/O (`download.dfy`). This covers the
  index guard, Python's negative indexing, the default names, the URL check,
  the pathlib destination path, and the exit status and JSON report. The
  downloader's result is a parameter.
- The chunked read loop of `download_episode` and its `downloaded` byte
  counter (`downloader.dfy`).

`Option`/`Result` live in `wrappers.dfy`. Python's `//` and `%` floor. The
divisors here are always positive, so they agree with Dafny's Euclidean `/`
and `%`, and durations are modelled as unbounded `int`, negative ones
included.

An episode without a URL ends the command with a diagnostic on standard
error and status 1, and no JSON is printed
(`Download.MissingUrlPrintsNothing`).

## Model

| member | source | states |
|---|---|---|
| Filename.SafeFilename | scripts/itunes_api.py:120-128 | The result has no character of `<>:"/\|?*`. Its only whitespace is the plain space, never two adjacent, and never at either end. It has no `--`. Its length is at most `max_length` when that is non-negative, and at most the input's length. |
| Filename.RemoveUnsafe | scripts/itunes_api.py:123 | Every remaining character is safe, the result is an order-preserving subsequence of the input, and it is exactly as long as the input has safe characters, so every safe character is kept. |
| Seqs.CollapseRuns | scripts/itunes_api.py:125-126 | The result has no two adjacent run characters, starts with the replacement when the input starts with a run and with the input's first element otherwise, holds only the replacement and input elements outside runs, and is never longer than the input. |
| Seqs.CollapseRunsKeepsOthers | scripts/itunes_api.py:125-126 | The elements outside runs come through all of them, in order and unchanged, and nothing else outside a run is added. |
| Seqs.CollapseRunsOfRun | scripts/itunes_api.py:125-126 | A whole non-empty run becomes exactly one replacement element. |
| Seqs.CollapseRunsConcat | scripts/itunes_api.py:125-126 | Collapsing works piece by piece across any cut that does not split a run; with the previous row this fixes the result of every input. |
| Seqs.CollapseRunsFixpoint | scripts/itunes_api.py:125-126 | A string whose runs are already single replacement characters is unchanged by a collapsing stage. |
| Seqs.CollapseRunsKeepsNoAdjacent | scripts/itunes_api.py:125-126 | Collapsing dash runs never puts two whitespace characters next to each other. |
| Seqs.PyPrefix | scripts/itunes_api.py:128 | `s[:n]` is a prefix of `s`: exactly `n` elements for `0 <= n <= len(s)`, the whole of `s` for larger `n`, and `len(s) + n` elements (at least 0) for negative `n`. |
| Filename.Strip | scripts/itunes_api.py:128 | `strip()` returns the slice after the leading whitespace. It removes only whitespace at both ends, and the result neither starts nor ends with whitespace. |
| Filename.SanitizedIsFixpoint | scripts/itunes_api.py:120-128 | Any sanitised string within the limit passes through the whole pipeline unchanged. |
| Filename.SafeFilenameIdempotent | scripts/itunes_api.py:120-128 | Sanitising twice equals sanitising once, for every name and every non-negative `max_length`. |
| Filename.SafeFilenameKeepsPlain | scripts/itunes_api.py:120-128 | The characters that are neither unsafe, whitespace nor a dash survive in order: all of them when `max_length >= len(name)`, and a prefix of them under any limit. |
| Filename.WordsJoinedBySpace | scripts/itunes_api.py:124-128 | Two plain words with any whitespace run between them come out as the words joined by one space (for example "a  b" gives "a b"), within the limit. |
| Filename.NegativeLimitNotIdempotent | scripts/itunes_api.py:128 | With `max_length = -1`, sanitising a plain name of two or more characters twice differs from sanitising it once ("ab" gives "a", then ""), so idempotence needs a non-negative limit. |
| Filename.MinusOneDropsLast | scripts/itunes_api.py:128 | With `max_length = -1` a name of plain characters loses exactly its last character (and the empty name stays empty). |
| Filename.MinusOneTwice | scripts/itunes_api.py:128 | Two calls with `max_length = -1` on a plain name of length at least 2 drop its last two characters, one per call. |
| Filename.UnsafeRemovalFirst | scripts/itunes_api.py:123 | Deleting unsafe characters beforehand does not change the sanitised name. |
| Filename.PlainIsFixpoint | scripts/itunes_api.py:120-128 | A name with no unsafe, whitespace or dash character, within the limit, is its own safe name. |
| Filename.ExampleMyPodcast | scripts/itunes_api.py:123 | "My/Pod:cast?" sanitises to "MyPodcast". |
| Seqs.FilterCounts | scripts/itunes_api.py:52 | A filter keeps every copy of each kept element and no copy of any other, and contains exactly the kept elements. |
| Episodes.GetEpisodes | scripts/itunes_api.py:52 | Every returned entry has kind "podcast-episode", and every such input entry is returned as often as it occurs. The output is an order-preserving subsequence of the response and is no longer than it. |
| Episodes.GetEpisodesIdempotent | scripts/itunes_api.py:52 | Filtering an already filtered list returns it unchanged. |
| Decimal.NatToString | scripts/itunes_api.py:141-143 | The decimal text of a natural number has at least one digit, no leading zero, and denotes the number. |
| Decimal.IntToString | scripts/itunes_api.py:141-143 | `str(n)` starts with '-' exactly when n is negative, the digits after it denote the absolute value, and there is no leading zero. |
| Duration.Breakdown | scripts/itunes_api.py:131-143 | Zero gives the sentinel. The hour shape appears exactly when ms >= 3,600,000, with hours = ms div 3,600,000 and minutes = (ms div 60,000) mod 60. Otherwise minutes = ms div 60,000 and seconds = (ms div 1000) mod 60. |
| Duration.FormatDuration | scripts/itunes_api.py:131-143 | 0 gives "Unknown". From 3,600,000 ms up the text is "{ms div 3600000}h {(ms div 60000) mod 60}m". Otherwise it is "{ms div 60000}m {(ms div 1000) mod 60}s". |
| Duration.BreakdownBrackets | scripts/itunes_api.py:136-143 | The hour shape shows ms cut down to whole minutes, the minute shape shows it cut down to whole seconds, and the smaller unit is always in [0, 60). |
| Duration.FormatDurationExamples | scripts/itunes_api.py:133-141 | 0 gives "Unknown" and 3661000 gives "1h 1m". |
| Text.Split | scripts/itunes_api.py:152 | `split` gives at least one piece, no piece contains the separator, and joining the pieces with it restores the input. |
| Text.SplitJoin | scripts/itunes_api.py:152 | Splitting separator-free pieces joined by the separator returns the pieces. |
| Text.FirstPiece | scripts/itunes_api.py:152 | The first piece is the prefix before the first separator, contains none, and is the whole input when there is no separator. |
| Text.JoinAppend | scripts/itunes_api.py:238 | Joining with one more piece appends the separator and the piece, or gives the piece alone when there were none. |
| Date.FormatDate | scripts/itunes_api.py:146-152 | "" gives "Unknown". Otherwise the result is a prefix of the input without 'T' and is followed in the input by 'T' when shorter. The whole input comes back when it contains no 'T'. |
| Date.CutsAtFirstT | scripts/itunes_api.py:152 | When the first 'T' is at position k, the result is exactly the k characters before it. |
| Date.LeadingTGivesEmpty | scripts/itunes_api.py:148-152 | A timestamp starting with 'T' gives the empty string, not "Unknown". |
| Date.ExampleDate | scripts/itunes_api.py:151-152 | "2025-12-26T10:45:00Z" gives "2025-12-26". |
| Download.Position | scripts/itunes_api.py:225 | `episodes[index]` reads position index for index >= 0 and len + index for negative index, always in range. |
| Download.EpisodeFileName | scripts/itunes_api.py:237 | The file name is `safe_filename(f"{podcast} - {episode}")` followed by ".mp3": it has no '/' and is at most 104 characters long. |
| Download.EpisodeFileNameKeepsTitles | scripts/itunes_api.py:237 | When "podcast - episode" fits the 100-character limit, the file name keeps every plain character of the two titles, in order, and adds none. |
| Download.Child | scripts/itunes_api.py:238 | `p / name` keeps the rootedness, appends the name as a component unless it is empty or ".", and keeps every component valid. |
| Download.PathString | scripts/itunes_api.py:99 | `str(p)` of a valid path is not empty and starts with '/' exactly when the path is rooted. |
| Download.PathStringSplits | scripts/itunes_api.py:99 | Splitting `str(p)` at '/' gives back the components, after one empty piece for the root. |
| Download.ChildString | scripts/itunes_api.py:238 | `str(p / name)` is `str(p)`, '/', and the name, except after the root ("/name") and the empty relative path ("name"). |
| Download.OutputPath | scripts/itunes_api.py:237-238 | The path extends the output directory, keeps its rootedness, and ends with the file name. It has a podcast folder component equal to the sanitised podcast name exactly when that name is neither empty nor ".". |
| Download.OutputPathString | scripts/itunes_api.py:237-238 | The reported path is the directory, the sanitised podcast folder unless pathlib drops it, and the file name, joined by '/'. |
| Download.SelectDownload | scripts/itunes_api.py:221-238 | Fails with "not found" exactly when the list is empty or index >= len, and with an IndexError exactly when index < -len. Fails for a missing URL exactly when the chosen entry's URL is absent or empty. Otherwise returns that URL, the names with their defaults, and the path built from them. |
| Download.MinusOneSelectsLast | scripts/itunes_api.py:221-225 | Index -1 passes the guard and selects the last episode. |
| Download.RunDownload | scripts/itunes_api.py:219-263 | Exit status is 0 exactly when selection succeeds and the download completes, else 1. A JSON report is printed exactly when selection succeeds, with the path, episode and podcast on success or the error on failure. |
| Download.ReportedPathParses | scripts/itunes_api.py:244-252 | The "path" of a successful report splits at '/' into the components of the chosen output path (after an empty piece for a rooted directory). |
| Download.MissingUrlPrintsNothing | scripts/itunes_api.py:232-234 | An in-range episode without a URL ends with status 1 and no JSON report. |
| Download.IndexPastEndSkipsDownload | scripts/itunes_api.py:221-223 | An index past the last episode ends with status 1 and no report, whatever the downloader would do. |
| Downloader.ReadsBeforeEnd | scripts/itunes_api.py:82-85 | Counts the reads before the first empty one: all earlier reads are non-empty, and the one at the count is empty when it exists. |
| Downloader.CopyChunks | scripts/itunes_api.py:76-88 | The file receives the chunks before the first empty read, in order. `downloaded` equals the number of bytes written and is at most 8192 per chunk. |

## Left out

- `_fetch_json`, `search_podcasts`, `get_episodes`'s request, `urlopen` and the JSON decoding: network I/O. The lookup response is a parameter (`lookup`), and `limit=episode_index + 1` is part of the request, so it is not modelled.
- `_encode` (`urllib.parse.quote`): a library call whose behaviour is not part of this model.
- `download_episode` apart from its read loop: the request headers, `Content-Length`, `mkdir`, the file, and the progress line. The percentage and MB figures are floating point. `Downloader.CopyChunks` requires each read to hold at most 8192 bytes, which is what `read(8192)` guarantees.
- `cmd_search`, `cmd_episodes`, `main`: argument-count checks, `int()` parsing (which can raise), printing and `json.dumps`. In `cmd_download` the index arrives as an `int` and the output directory as an already parsed `Path`. The default directory string "downloads/podcasts" and the parsing of `args[2]` are not modelled.
- Download.OutputPathString, Download.PathStringSplits: state the path string for a directory whose components are all kept ones (`ValidPath`), which is what parsing `args[2]` into a `Path` yields; the parsing itself is not modelled.
- Paths follow pathlib's POSIX flavour only. `Download.Child` requires a name without '/', which every sanitised name satisfies.
- JSON fields are either absent or strings. A key present with value `null` yields `None` in Python: in an f-string that prints "None", and in `safe_filename` it raises. Neither case is modelled, and neither are non-string values.
- Duration.FormatDuration: takes an `int` and Date.FormatDate a `string`. The other falsy arguments (`None`) also give "Unknown" in the source and are not modelled.
- Whitespace is Python's `str.isspace` set written out in `Filename.IsSpace`. This is the set that `\s` and `strip()` use on `str`.
