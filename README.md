# SupeRenamer core, modelled in Dafny

SupeRenamer is a desktop tool that renames TV-episode video files. The user drops files or folders on
a table, and the scanner keeps the video files. "Analyse" asks The Movie Database (TMDB) for the
show, season and episode that each file name best matches, and previews a new name built from a
pattern such as `{n} - {s00e00} - {t}`. "Rename" renames each analysed row and counts the
successes.

This project models the non-graphical logic of `main.py`:

- `cleaner.dfy` (module `SearchCleaner`) is `RenameEngine.clean_filename_for_search`. Each regular
  expression of the pipeline is a left-to-right scanner: leftmost match, greedy digits, no
  overlaps. The output is shown to be a clean fragment: words of ASCII letters and digits,
  separated by single spaces. Re-normalising such a fragment changes nothing.
- `matcher.dfy` (module `Matcher`) is `RenameEngine.get_match`. The guess (`guessit`), the TMDB
  replies and the two `rapidfuzz` scores are inputs: functions held in an `Engine` value. Every
  reply may fail. The search is
  - a specification function `Resolve`, which returns the result and the list of lookups made,
  - the method `GetMatch` with its nested loops, proved equal to `Resolve`,
  - lemmas for the season order, the acceptance test, the early exits, the first-match-wins rule,
    the fallback and the error path.
- `pattern.dfy` (module `RenamePattern`) is the rename-pattern expression of `process_matches`.
  It covers Python's `str.replace`, `str.zfill` and the `S..E..` tag.
- `batch.dfy` (module `Batch`) is the table bookkeeping of `add_rows`, `process_matches` and
  `execute_rename`. It is a class `RenameTable` whose `rows` field the methods update. The outcome
  of each `os.rename` is an input.
- `scan.dfy` (module `VideoScan`) is `ScanWorker.run`. What the file system says about each dropped
  path, and what `os.walk` yields, are inputs.
- `text.dfy`, `paths.dfy` and `wrappers.dfy` hold the pieces of Python's `str` and `os.path` the
  core uses, and an `Option` type.

## Model

| member | source | states |
|---|---|---|
| Paths.SplitExt | main.py:81 | `os.path.splitext`: root plus extension is the path. A non-empty extension is one dot and then text without dot or separator, and the last component has a non-dot before it. The extension is empty only when every dot of the last component belongs to its leading dots |
| Paths.Ext | main.py:299 | The extension split off is a part of the path |
| Paths.Basename | main.py:285 | `os.path.basename`: the part after the last `/`, without a separator |
| Paths.Dirname | main.py:325 | `os.path.dirname`: the prefix of the path up to its last separator, without the separators that end it, unless that prefix is all separators, in which case it is kept whole. It is empty exactly when the path has no separator. It ends in a separator only when it consists of separators |
| Paths.Join | main.py:140 | `os.path.join`: an absolute second part replaces the first. Otherwise the result is the first part, then a `/` unless the first part is empty or already ends in one, then the second part |
| Paths.ExtUnderDirectory | main.py:139-140 | A file name keeps its extension when joined under a directory |
| SearchCleaner.MatchIsLongest | main.py:82-85 | Each scanner finds the longest prefix the regular expression matches (greedy), and no longer prefix matches |
| SearchCleaner.DeleteNothing | main.py:82-85 | `re.sub(..., '')` changes nothing when the pattern matches nowhere |
| SearchCleaner.KeepsPrefix | main.py:82-85 | `re.sub(..., '')` keeps, in order, every leading character at which no match starts |
| SearchCleaner.DeleteLeftmost | main.py:82-85 | `re.sub(..., '')` keeps the text before the leftmost match, drops the match and continues after it, so matches never overlap |
| SearchCleaner.StripVideoIdIsSubstitution | main.py:83 | Cutting off the id is exactly the leftmost, non-overlapping substitution of `[-_][a-zA-Z0-9_-]{11}$` by the empty string, where `$` is the end of the name or the point before one final newline |
| SearchCleaner.IdAtEndOnly | main.py:83 | When the name ends in an id, no match of the pattern starts earlier in the name |
| SearchCleaner.Depunctuate | main.py:86 | Each character that is not an ASCII letter, digit or whitespace becomes a space; all others are kept in place |
| SearchCleaner.StripLeading | main.py:87 | `lstrip`: only whitespace removed, and the result does not start with whitespace |
| SearchCleaner.StripTrailing | main.py:87 | `rstrip`: only whitespace removed, and the result does not end with whitespace |
| SearchCleaner.CleanForSearch | main.py:80-87 | The search fragment holds only ASCII letters, digits and single spaces, with no space at either end |
| SearchCleaner.WordsAreProper | main.py:87 | `split()` yields non-empty words without whitespace, made of the characters of the input |
| SearchCleaner.WordsOfJoin | main.py:87 | Splitting words joined by single spaces gives the words back (round trip) |
| SearchCleaner.StripClean | main.py:87 | `strip()` does not change a clean fragment |
| SearchCleaner.NormalizeShape | main.py:86-87 | Normalisation always yields a clean fragment |
| SearchCleaner.NormalizeIdempotent | main.py:86-87 | Normalising twice is the same as normalising once |
| Matcher.SeasonsExceptShape | main.py:110 | `range(1, N+1)` without the guessed season is ascending, within the bounds, excludes the season, contains every other season, and has the right length |
| Matcher.SeasonOrderShape | main.py:110 | The scan order starts with the guessed season and then runs ascending. It has no duplicates, and contains exactly the guess and the seasons 1..N, including a guess above N |
| Matcher.ShortFragmentNeedsTitleScore | main.py:116-118 | For a fragment of at most 3 characters, an episode is accepted iff its token-sort score exceeds 85 |
| Matcher.FirstAccepted | main.py:115-119 | The episode returned is in the list and is accepted |
| Matcher.FirstAcceptedIsFirst | main.py:115-119 | No episode is returned iff none is accepted; otherwise the first accepted one is returned |
| Matcher.FindEpisode | main.py:115-119 | The episode loop returns the first accepted episode of the reply |
| Matcher.ScanSeasons | main.py:112-119 | A hit inside a show carries that show's name |
| Matcher.Top | main.py:104 | `results[:3]`: a prefix of the results, of length 3 when there are at least 3 |
| Matcher.SeasonLookups | main.py:113-114 | One season lookup is made per season, in scan order |
| Matcher.ScanSeasonsAllMissed | main.py:112-119 | The season scan misses iff every season misses, and then it has looked up every season in order |
| Matcher.ScanSeasonsFirstDecides | main.py:112-119 | The first season that does not miss decides the outcome, and no later season is looked up |
| Matcher.ScanShowsAllMissed | main.py:104-119 | The show scan misses iff every show misses, and then it has made the lookups of every show in order: its detail, then its seasons |
| Matcher.ScanShowsFirstDecides | main.py:104-119 | The first show that does not miss decides the outcome. The lookups are those of the shows before it, then its detail and its season lookups; no later show is fetched |
| Matcher.ScanSeasonsLookups | main.py:113-114 | A show's season scan only looks up seasons of that show |
| Matcher.ScanShowsLookups | main.py:104-114 | The show scan makes no search, and asks only about the shows it was given |
| Matcher.NoKeyNoLookups | main.py:90-95 | No lookup is made iff the API key is empty. Then the guess is returned with "Set API Key"; otherwise the first lookup is the search for the guessed title |
| Matcher.SearchExits | main.py:97-122 | A failed search returns the guess with "Error: " and the message. An empty result list returns the guess with "Show Not Found". Either way, only the search is made |
| Matcher.OnlyTopShowsFetched | main.py:104-108 | After the search, every lookup concerns one of the first 3 shows found; the 4th and later are never fetched |
| Matcher.SearchOutcome | main.py:104-122 | When all top shows miss, the result is the first result's name with the guessed season and episode and "Using Guess (No Title Match)". Otherwise the first show that does not miss decides: its name, season, episode number and title on a hit, or the guess with "Error: …" on a failed lookup |
| Matcher.GuessedSeasonScan | main.py:104-119 | When every title scores above 85, the first episode of the guessed season of the first show wins, after exactly two lookups |
| Matcher.GuessedSeasonFirst | main.py:89-119 | The same, end to end: the first show's name, the guessed season, the first episode's number and title, after search, detail and season lookups |
| Matcher.ScanShowSeasons | main.py:112-119 | The season loop computes `ScanSeasons` |
| Matcher.ScanTopShows | main.py:104-119 | The show loop computes `ScanShows` |
| Matcher.GetMatch | main.py:89-122 | `get_match` returns what `Resolve` specifies and makes the lookups it lists |
| RenamePattern.Split | main.py:303 | `str.split(sep)` yields at least one piece |
| RenamePattern.ReplaceIsSplitJoin | main.py:303 | `s.replace(a, b)` is `b.join(s.split(a))` |
| RenamePattern.SplitJoinRoundTrip | main.py:303 | Joining the pieces of a split with the separator gives the string back |
| RenamePattern.ReplaceByItself | main.py:303 | Replacing a string by itself changes nothing |
| RenamePattern.ReplaceAbsent | main.py:303 | Replacing a string that does not occur changes nothing |
| RenamePattern.ZFillShape | main.py:303 | `str.zfill`: the sign stays in front, zeros follow, then the other characters unchanged. The length is the larger of the width and the original length, so nothing is truncated |
| RenamePattern.PadNatural | main.py:303 | A non-negative number is zero-padded to at least the width, with only digits, ending in its own digits and reading back as the number |
| RenamePattern.PadNegative | main.py:303 | A negative number keeps its sign in front of the zeros |
| RenamePattern.TagReadsBack | main.py:303 | The tag of non-negative numbers matches the `[Ss]\d+[Ee]\d+` pattern of the cleaner, and both numbers read back |
| RenamePattern.TagExample | main.py:303 | Season 1, episode 2 gives `S01E02` |
| RenamePattern.Render | main.py:303 | The new name always ends with the original extension |
| RenamePattern.RenderPlain | main.py:303 | A pattern without placeholders gives the pattern plus the extension |
| RenamePattern.OnePlaceholderEach | main.py:303 | A pattern with each placeholder once, in order, gets show, tag and title in their places, for a show name without `{` and any title |
| RenamePattern.DefaultPattern | main.py:303 | For a show name without `{`, the default pattern `{n} - {s00e00} - {t}` gives show, ` - `, tag, ` - `, title and extension |
| RenamePattern.ShowNameSubstitutedFirst | main.py:303 | Substitution order matters: a `{t}` inside the show name is itself replaced by the title |
| VideoScan.KeepVideosMembers | main.py:134-139 | A path is kept iff it is listed and its lower-cased extension is one of the 7 video extensions |
| VideoScan.KeepVideosAppend | main.py:132-140 | The filter keeps the input order |
| VideoScan.KeepVideosIdempotent | main.py:134 | Filtering twice is filtering once |
| VideoScan.StepFoundIsFilter | main.py:138-140 | A folder contributes exactly the video files among its joined paths, in order |
| VideoScan.FoundAreVideos | main.py:133-140 | Every path the scan reports is a video file |
| VideoScan.FilesOnly | main.py:133-135 | Given dropped files only, the scan keeps exactly the video files, in their order |
| VideoScan.StepVideos | main.py:138-140 | The loop over one folder's files yields its video files joined to the folder, in order |
| VideoScan.WalkVideos | main.py:137-140 | The walk loop yields the video files of every step, step by step |
| VideoScan.Scan | main.py:130-141 | `ScanWorker.run` emits the list that `Found` specifies |
| Batch.RenameTable.constructor | main.py:178 | A new table has no rows |
| Batch.RenameTable.AddRows | main.py:281-289 | Each file becomes a new row at the end: its path, its base name and the status "Ready"; earlier rows are unchanged |
| Batch.RenameTable.ProcessMatches | main.py:291-316 | Every row gets the match of its base name: show, `S{s}E{e}`, the rendered new name, and the status "Matched" followed by the mark; path and name are unchanged |
| Batch.RenameTable.RenameRow | main.py:321-330 | One pass of the loop body: an eligible row becomes "Renamed!" or "Error" after an attempted rename to its target, and counts when it succeeds; any other row is left alone |
| Batch.RenameTable.ExecuteRename | main.py:318-331 | Each eligible row becomes "Renamed!" or "Error", depending on its outcome, and no other row changes. The count is the number of successful eligible rows, and the attempted renames are the eligible rows in order |
| Batch.SuccessesBounded | main.py:319-328 | The success count is at most the number of eligible rows, which is at most the number of rows. It equals the eligible count iff every eligible rename succeeded |
| Batch.FinalStatusesSettle | main.py:327-330 | "Renamed!" and "Error" do not contain "Matched" |
| Batch.RenameSettles | main.py:318-331 | After a rename pass no row is eligible, so a second pass attempts nothing and counts 0 |
| Batch.NothingEligible | main.py:319-323 | A table with no eligible row attempts nothing and counts 0 |
| Batch.MatchedStatusMatches | main.py:312-323 | The status written by the analysis contains "Matched" |
| Batch.AnalysedRowEligible | main.py:299-323 | An analysed row is marked matched whatever the match was. It is eligible iff its new name is not empty, which holds for every file with an extension |
| Batch.NoKeyRowRenamed | main.py:301-312 | Without an API key, the row still becomes eligible, with the title "Set API Key" in its new name |
| Batch.RunAsWritten | main.py:320-330 | The rename loop as written leaves the row count unchanged, also when it stops with an exception |
| Batch.UnanalysedRowAborts | main.py:320-323 | As written, the loop stops at a row without a new name whatever follows it: with such a row first nothing is renamed, while reading the missing name as empty renames an analysed row behind it |
| Batch.RunAsWrittenFrom | main.py:320-330 | From any row on, once every row has a new name, the loop as written finishes with the same rows and count as the corrected one |
| Batch.SuccessesIneligibleTail | main.py:319-328 | Rows whose rename is never attempted add nothing to the count |
| Batch.RenamedRowsIneligibleTail | main.py:320-330 | Rows whose rename is never attempted come out of the pass unchanged |
| Batch.RunAsWrittenUntil | main.py:320-330 | From any row on, the loop as written renames the rows before the first row without a new name as the corrected loop does, and then raises at that row |
| Batch.UnanalysedTailAborts | main.py:318-331 | When the rows from some point on were never analysed, the loop as written makes the corrected loop's renames and count and then raises at the first of them instead of returning |
| Batch.AddedAfterAnalysisAborts | main.py:281-331 | Analysis, then more files added, then a rename pass (or a rename pass before any analysis): the analysed rows are renamed and counted as the corrected loop does, then the pass raises at the first added row |
| Batch.AnalysedTableRunsToEnd | main.py:318-331 | After an analysis of every row, the loop as written finishes and agrees with `RenameTable.ExecuteRename` |

## Left out

- The PyQt6 interface is not modelled: style sheet, widgets, dialogs, drag and drop, progress bar, `processEvents`, status-bar messages and the final message box.
- Storing the API key with `QSettings` is not modelled; the key is a plain value in `Engine`.
- HTTP, URL building and JSON parsing are not modelled. Each TMDB reply is a function result that either fails with a message or holds the decoded data.
- The `rapidfuzz` scores are uninterpreted functions from two strings to a number; only the thresholds are modelled.
- `guessit` is an input: a function from the file name to the optional title, season and episode.
- A season or episode that is not an integer (`guessit` can return a list) is not modelled. Neither is a `number_of_seasons` key that is present but null.
- Threading, `os.walk`, `os.path.isfile`, `os.path.isdir` and `os.rename` are inputs. The scan takes a function from path to entry, and the rename takes one outcome per row. An `os.walk` error is not modelled.
- Text is ASCII only: no Unicode case folding and no Unicode whitespace.
- RenamePattern.Replace: requires a non-empty search string. The three placeholders are never empty, so Python's empty-string case is not needed.
- Matcher.GetMatch: each nested loop is its own method. The early `return` from inside the loops becomes a returned scan outcome that the caller turns into the result.
- VideoScan.Scan: each of the two inner loops is its own method, and what a directory yields is appended to `found` at once rather than path by path. The final list is the same.
- Matcher.GetMatch: the lookups made are a ghost output, used only to state which requests happen.
- RenamePattern.DefaultPattern: the default-pattern example with the concrete values Foo, 1, 2 and Bar is stated for any show name without `{` and any numbers and title. Only the tag of season 1, episode 2 is checked as a literal (`RenamePattern.TagExample`).
- Batch.RenameTable.ProcessMatches: the status literal is modelled exactly as the source has it. Its check mark is stored mis-encoded, as the three characters U+201A, U+00FA, U+00D6.
- Batch.RenameTable.ProcessMatches: following the code, a row whose match was "Set API Key", "Show Not Found", a fallback or an error is also written as matched and will be renamed with that text as its title.

## Findings

| source | as written | input that shows it | evidently intended | confidence | as-written member | corrected member |
|---|---|---|---|---|---|---|
| main.py:322 | The new name is read with `self.table.item(i, 3).text()` before the guard and outside the `try`. A row that was added but never analysed has no item in column 3, so `.text()` raises `AttributeError`. The rows before it are renamed, but the pass ends with the exception instead of the summary message, and under PyQt6 an exception that escapes a slot can end the whole application | "ANALYZE MATCHES", then "Add Files/Folders" (or a drop) with at least one video file, then "EXECUTE RENAME"; or "EXECUTE RENAME" on a freshly loaded table before any analysis | Skip a row without a new name, as the `if new_name` guard implies, and go on with the others | not executed | Batch.RunAsWritten, Batch.AddedAfterAnalysisAborts | Batch.RenameTable.ExecuteRename |
