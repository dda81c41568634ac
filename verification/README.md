# bioconda-tests, modelled in Dafny

bioconda-tests re-tests packages of the bioconda channel in rotation. Two
programs share the work:

- The **selector** (`select_packages.py`) runs first.
  - It takes the current time from the NTP pool.
  - It reads the download statistics of every package and the status document
    of every package tested before.
  - It ranks the packages: the least recently processed come first, and among
    equal times the most downloaded. Packages being tested by another job right
    now are left out.
  - It writes the first `num_packages` of them into one list file per conda
    subdirectory. A `noarch` package goes into the `noarch` list only.
- The **tester** (`test_packages.py`) reads the lists of its platform's
  subdirectories and handles each listed package in name order.
  - It solves an environment with `mamba create --dry-run` and picks the fetch
    record of the package.
  - It rewrites the record's archive URL to the channel URL and downloads the
    file.
  - It runs `conda mambabuild --test` on the file.
  - It writes a status document per package.

`ntp_time.py` supplies the clock. It also supplies the one timestamp layout,
`%Y-%m-%dT%H:%M:%S+00:00`, in which status documents record their times.

The model keeps Python's semantics where the code depends on them:

- `datetime` covers years 1 to 9999.
- Aware datetimes compare by the instant they denote.
- `strptime` reads its fields leniently.
- `timedelta.days` is a floor.
- `sorted` is stable.
- Dicts keep insertion order.
- Tuple unpacking from a generator stops at the second match.
- `re.sub` replaces every leftmost, greedy, non-overlapping match. In its
  pattern an unescaped `.` matches any character but a newline.
- `str.strip` removes Python's whitespace set.
- Text files are read with universal newlines.

Every external effect is a parameter. This covers the NTP replies, the snapshot
of the statistics repository, the status directory, the outcome of each
subprocess and each download.

| file | module | models |
|---|---|---|
| `wrappers.dfy` | `Wrappers` | `Option` and `Result` (a raised exception is a `Failure`) |
| `civil.dfy` | `Civil` | the proleptic Gregorian calendar, its day ordinals and their inverse |
| `utc_time.dfy` | `UtcTime` | datetimes, and `format_utc_time` and `parse_utc_time` |
| `ntp.dfy` | `Ntp` | `get_ntp_time` |
| `ordered_dict.dfy` | `OrderedDict` | an insertion-ordered dict |
| `sorting.dfy` | `Sorting` | sorting under a strict total order, and the uniqueness of its result |
| `json.dfy` | `Json` | the JSON values the programs look at |
| `selection.dfy` | `Selection` | `fetch_package_downloads`, `get_processed_packages` and `get_selected_packages` |
| `subdir_lists.dfy` | `SubdirLists` | the grouping of selected packages by subdirectory in the selector's `main` |
| `list_files.dfy` | `ListFiles` | writing the list files, and reading them back with `get_lines` |
| `url_rewrite.dfy` | `UrlRewrite` | the `re.sub` that turns an archive URL into a download URL |
| `process.dfy` | `Process` | the status constants, the timeouts, and `call` with its exit status |
| `solver.dfy` | `Solver` | `solve`, both as written and corrected |
| `builder.dfy` | `Builder` | `test_build` |
| `test_packages.dfy` | `TestPackages` | `test_package_mamba`, `test_package`, and the tester's `main` |
| `pipeline.dfy` | `Pipeline` | the selector's `main`, and how the two programs fit together |

## Model

| member | source | states |
|---|---|---|
| Civil.DateRoundTrip | src/bioconda_tests/ntp_time.py:25 | every valid calendar date maps to a day ordinal in range, and that ordinal maps back to the same date |
| Civil.FromOrdinal | src/bioconda_tests/ntp_time.py:25 | every ordinal from 1 to 3652059 names a valid date whose ordinal is that ordinal |
| UtcTime.SecondsRoundTrip | src/bioconda_tests/ntp_time.py:25 | splitting seconds since the epoch into calendar fields and recombining them gives back the seconds, over datetime's whole range |
| UtcTime.FieldsRoundTrip | src/bioconda_tests/ntp_time.py:30-37 | the calendar fields of any valid date and time survive the round trip through seconds since the epoch |
| UtcTime.Format | src/bioconda_tests/ntp_time.py:30-32 | a valid UTC time formats to the fixed layout: 4-digit year, 2-digit fields and the `+00:00` suffix, with its own calendar fields |
| UtcTime.Parse | src/bioconda_tests/ntp_time.py:35-37 | a parsed time is a valid UTC datetime with no microseconds |
| UtcTime.ParseFormat | src/bioconda_tests/ntp_time.py:30-37 | parsing a formatted UTC time gives back the time, truncated to whole seconds |
| UtcTime.FormatParse | src/bioconda_tests/ntp_time.py:30-37 | a string in the layout that parses formats back to the same string |
| UtcTime.ParseLayoutIff | src/bioconda_tests/ntp_time.py:36 | a string in the layout parses if and only if its fields name a real date and a time with seconds below 60 |
| UtcTime.ParseLayoutErrors | src/bioconda_tests/ntp_time.py:36 | a field outside the pattern's digit ranges fails to match; a field that matches but makes no real date (February 30, second 60) is out of range |
| UtcTime.ParseUnpaddedMonth | src/bioconda_tests/ntp_time.py:36 | a month written with one digit parses like the zero-padded month |
| UtcTime.ParseLowerT | src/bioconda_tests/ntp_time.py:36 | the pattern ignores case, so a lower-case `t` between date and time parses like `T` |
| UtcTime.ShiftFrom | src/bioconda_tests/ntp_time.py:36 | how the rest of the pattern matches depends only on the text from the current position on |
| UtcTime.ParseSpacePaddedDay | src/bioconda_tests/ntp_time.py:36 | a day written with a leading space parses like the zero-padded day |
| UtcTime.ParseRejectsMonth13 | src/bioconda_tests/ntp_time.py:36 | example: a thirteenth month does not match the pattern (the general rule is ParseLayoutErrors) |
| UtcTime.ParseRejectsZulu | src/bioconda_tests/ntp_time.py:36 | example: a `Z` suffix in place of `+00:00` does not match (the general rule is ParseShape) |
| UtcTime.ParseRejectsShortYear | src/bioconda_tests/ntp_time.py:36 | example: a two-digit year does not match (the general rule is ParseShape) |
| UtcTime.ParseShape | src/bioconda_tests/ntp_time.py:36 | every parsable string is 20 to 25 characters long, opens with four digits and a dash, and ends in `+00:00` |
| Ntp.FromTimestamp | src/bioconda_tests/ntp_time.py:25-26 | the reply's transmit time becomes a valid UTC datetime denoting exactly that many microseconds since the epoch; it fails exactly when the time lies outside datetime's range |
| Ntp.Errors | src/bioconda_tests/ntp_time.py:18-24 | the error list holds one error per failed server, in pool order |
| Ntp.GetNtpTime | src/bioconda_tests/ntp_time.py:9-27 | the servers are asked in pool order while each raises `NTPException`. The first answer gives the time. An exception of any other kind propagates at once, and no later server is asked. If all four raise `NTPException`, it raises with all four errors |
| OrderedDict.IndexOf | src/bioconda_tests/select_packages.py:36 | finds a key's position if and only if the key is present |
| OrderedDict.Put | src/bioconda_tests/select_packages.py:36 | assignment keeps keys distinct and the existing keys in place; an existing key keeps its position, a new key is appended; afterwards the key maps to the new value |
| OrderedDict.PutOthers | src/bioconda_tests/select_packages.py:36 | assignment leaves every other key's value unchanged |
| OrderedDict.GetAt | src/bioconda_tests/select_packages.py:72 | looking up the key of any entry yields that entry's value |
| Sorting.Sort | src/bioconda_tests/select_packages.py:76 | sorting yields a strictly sorted sequence of the same elements |
| Sorting.SortedUnique | src/bioconda_tests/select_packages.py:76 | under a strict total order, two strictly sorted sequences with the same elements are equal |
| Sorting.SortedDistinct | src/bioconda_tests/select_packages.py:76 | a strictly sorted sequence has no duplicates |
| Sorting.DistinctCard | src/bioconda_tests/select_packages.py:76-79 | a sequence without duplicates has as many elements as its set |
| Selection.FetchPackageDownloads | src/bioconda_tests/select_packages.py:27-37 | the loaded snapshot maps each package once |
| Selection.FetchDownloadsSpec | src/bioconda_tests/select_packages.py:27-37 | loading fails exactly when some statistics file has an empty series; otherwise every package a file names is present, with the last total of the last file naming it |
| Selection.StalenessRule | src/bioconda_tests/select_packages.py:52-63 | a `running` record at least 48 hours old counts as never processed; a younger `running` record counts as processed now; any other state counts as processed at its start time |
| Selection.ReadRecord | src/bioconda_tests/select_packages.py:51-63 | a status document reads without raising exactly when it has `state` and a parsable string `started_at`, and then yields the time the staleness rule gives |
| Selection.ProcessedErrors | src/bioconda_tests/select_packages.py:43-64 | reading the status directory fails exactly when some document is malformed, and then with the error of the first malformed document |
| Selection.ProcessedTimes | src/bioconda_tests/select_packages.py:43-64 | on success the result holds exactly the directories with a status document, each mapped to the time its document records |
| Selection.Candidates | src/bioconda_tests/select_packages.py:70-74 | the ranking dict holds exactly the snapshot's packages whose time is not `now`, each keyed by (time, downloads), in snapshot order |
| Selection.EligibleNames | src/bioconda_tests/select_packages.py:71-74 | a package is eligible if and only if it is in the snapshot and its processed time (the epoch if none) is not the instant `now` |
| Selection.Ranking | src/bioconda_tests/select_packages.py:76 | the ranking is sorted by time, then by downloads descending, then by snapshot position, and holds exactly the eligible candidates |
| Selection.RankingNames | src/bioconda_tests/select_packages.py:71-76 | the ranked names are distinct and are exactly the eligible packages, each with its own key |
| Selection.RankingUnique | src/bioconda_tests/select_packages.py:76 | any arrangement of the eligible candidates sorted by that order is the ranking |
| Selection.SelectionSpec | src/bioconda_tests/select_packages.py:67-79 | the selection is distinct, eligible and in rank order; it is the top `num_packages` when that is positive, with every left-out package ranking after every selected one; it is all eligible packages otherwise |
| Selection.GetSelectedPackages | src/bioconda_tests/select_packages.py:67-69 | selection succeeds only when the snapshot and the status directory both load, and then ranks them |
| Selection.SelectedErrors | src/bioconda_tests/select_packages.py:67-69 | selection fails exactly on an empty series or a malformed status document, and an empty series is reported first |
| Selection.RunningElsewhereNotSelected | src/bioconda_tests/select_packages.py:54-60 | a package `running` for less than 48 hours is never selected |
| Selection.InterruptedRanksAsNeverProcessed | src/bioconda_tests/select_packages.py:54-57 | a package `running` for 48 hours or more ranks as if never processed |
| Selection.MostDownloadedFirst | src/bioconda_tests/select_packages.py:72-78 | for any two distinct never-processed packages, the one with more downloads is selected first, in either snapshot order |
| Selection.OldestProcessedFirst | src/bioconda_tests/select_packages.py:72-76 | for any two distinct packages and any downloads, the one processed two days ago ranks before the one processed an hour ago |
| SubdirLists.Stem | src/bioconda_tests/select_packages.py:129 | `name[:-len(".json")]` drops the last five characters, or yields the empty string for a shorter name |
| SubdirLists.ListedSubdirs | src/bioconda_tests/select_packages.py:128-132 | a package is listed under its own subdirectories; if `noarch` is among them, under `noarch` alone |
| SubdirLists.ListedUnder | src/bioconda_tests/select_packages.py:122-134 | a subdirectory's list holds exactly the selected packages listed there, without duplicates when the selection has none |
| SubdirLists.ListedInOrder | src/bioconda_tests/select_packages.py:122-134 | any two packages of a subdirectory's list come in the order the selection has them |
| SubdirLists.GroupSpec | src/bioconda_tests/select_packages.py:121-134 | the lists exist for exactly the subdirectories some selected package is listed under, and each list is that subdirectory's list |
| SubdirLists.NoArchOnly | src/bioconda_tests/select_packages.py:131-134 | a selected `noarch` package appears in the `noarch` list and in no other |
| SubdirLists.EverySelectedListed | src/bioconda_tests/select_packages.py:122-134 | every selected package with at least one subdirectory appears in some list |
| ListFiles.Strip | src/bioconda_tests/test_packages.py:177 | `str.strip` yields the slice of the string between its leading and its trailing whitespace, with no whitespace left at either end; a stripped string comes back unchanged |
| ListFiles.UniversalNewlines | src/bioconda_tests/test_packages.py:176-177 | reading in text mode leaves no carriage return |
| ListFiles.NewlineSteps | src/bioconda_tests/test_packages.py:176-177 | text mode reads `\r\n` and a lone `\r` as `\n`, and every other character as itself |
| ListFiles.UniversalLines | src/bioconda_tests/test_packages.py:176-177 | the lines read in text mode are the pieces of the file ended by `\r\n`, `\r` or `\n` |
| ListFiles.NewlinesUnchanged | src/bioconda_tests/test_packages.py:176-177 | text without carriage returns reads unchanged |
| ListFiles.SplitLines | src/bioconda_tests/test_packages.py:177 | iterating the file yields lines without line breaks, and introduces no character the file lacks |
| ListFiles.JoinSplit | src/bioconda_tests/test_packages.py:177 | joining the lines back together gives the file's text |
| ListFiles.SplitJoin | src/bioconda_tests/test_packages.py:177 | splitting joined lines without line breaks gives back those lines |
| ListFiles.FilterPicks | src/bioconda_tests/test_packages.py:177 | `filter(None, ...)` keeps exactly the non-empty strings, each once, in their order |
| ListFiles.StripAllFilters | src/bioconda_tests/test_packages.py:177 | stripping the lines and dropping the empty ones is filtering the stripped lines |
| ListFiles.GetLines | src/bioconda_tests/test_packages.py:173-177 | no file gives no lines; otherwise the result is exactly the non-empty stripped lines of the file (ended by `\r\n`, `\r` or `\n`), in file order, so none is empty, padded or holds a line break |
| ListFiles.WriteList | src/bioconda_tests/select_packages.py:137-139 | every character of every package appears in the written file |
| ListFiles.WriteListJoined | src/bioconda_tests/select_packages.py:137-139 | the written file is exactly the packages, each followed by a line break, in selection order |
| ListFiles.ReadWritten | src/bioconda_tests/select_packages.py:137-139 | reading a written list gives back exactly the packages written, provided no name is empty, padded with whitespace or broken by a line break |
| UrlRewrite.LineEnd | src/bioconda_tests/test_packages.py:57-61 | `.*` can extend up to the end of the line and no further |
| UrlRewrite.LastSuffix | src/bioconda_tests/test_packages.py:58 | the greedy `.*` settles on the last occurrence of the suffix within reach |
| UrlRewrite.MatchAt | src/bioconda_tests/test_packages.py:57-61 | a match is non-empty and needs an occurrence of the suffix |
| UrlRewrite.NotArchiveUnchanged | src/bioconda_tests/test_packages.py:57-61 | a URL the pattern matches at no position passes through unchanged |
| UrlRewrite.NoPrefixUnchanged | src/bioconda_tests/test_packages.py:57-61 | a URL without the archive prefix passes through unchanged, even if it holds the suffix |
| UrlRewrite.NoSuffixUnchanged | src/bioconda_tests/test_packages.py:57-61 | text with no suffix after a position is copied unchanged from there on |
| UrlRewrite.ArchiveUrl | src/bioconda_tests/test_packages.py:57-61 | an archive URL whose last suffix lies on its first line becomes `https://` followed by what follows that suffix |
| Process.Classify | src/bioconda_tests/test_packages.py:43-45 | the status is `success` exactly for exit code 0, `timeout` exactly for a timeout, and `failed` exactly for a nonzero exit code |
| Process.LogPath | src/bioconda_tests/test_packages.py:92-95 | a log is written exactly when the status is not `success` |
| Solver.Scan | src/bioconda_tests/test_packages.py:128 | unpacking stops at the first nameless entry, at the second match, or at the end, and yields the one match only if exactly one entry matches and all are named |
| Solver.SingleMatchSpec | src/bioconda_tests/test_packages.py:128 | unpacking succeeds exactly when all entries are named and exactly one is the package; it fails with no match, with too many matches (a second match before any nameless entry), or with a `KeyError` at the first nameless entry before a second match |
| Solver.MatchCountMonotone | src/bioconda_tests/test_packages.py:128 | the number of matches among the first entries never decreases as more are read |
| Solver.FetchInfo | src/bioconda_tests/test_packages.py:127-128 | a successful solve yields fetch information exactly when its output has `FETCH` actions with exactly one record of the package |
| Solver.Solve | src/bioconda_tests/test_packages.py:99-133 | the command is `create --dry-run --name=solve --json` with the timeout; the status classifies the outcome; fetch information comes back exactly on success; a log exactly otherwise; it fails only when a successful solve's output lacks exactly one record of the package |
| Solver.SolveAsWrittenRaises | src/bioconda_tests/test_packages.py:119-133 | as written, `solve` agrees with the corrected one on every successful solve, and raises on every timeout or failure |
| Solver.TimeoutRaises | src/bioconda_tests/test_packages.py:119-133 | a timed-out solve raises as written, where the corrected `solve` reports `timeout` with its log |
| Builder.StringField | src/bioconda_tests/test_packages.py:56-65 | reading a key fails with `KeyError` when it is absent and with a type error when it is not a string |
| Builder.TestBuild | src/bioconda_tests/test_packages.py:49-96 | the build test succeeds exactly when the record is usable and the download works. The errors come in the order the code reads `url`, `fn` and `subdir`. On success it downloads the rewritten URL and tests the file under its subdirectory; a log is written exactly when the status is not `success` |
| TestPackages.FirstMissing | src/bioconda_tests/test_packages.py:149-152 | finds the first of the keys missing from a record, if any |
| TestPackages.Project | src/bioconda_tests/test_packages.py:149-152 | the projection succeeds exactly when all six keys are present, and then copies exactly those keys |
| TestPackages.TestPackageMamba | src/bioconda_tests/test_packages.py:136-157 | over the corrected `solve`: the status names `mamba` and the solve status. An unsolved package returns with `test` `not run`, no package record and the solve log. A tested package was solved, and carries the build's status and a record with exactly the six keys |
| TestPackages.TestPackageMambaAsWritten | src/bioconda_tests/test_packages.py:119-145 | over `solve` as written: it agrees with the corrected version whenever the solve succeeds, and raises on every timed-out or failed solve |
| TestPackages.TestedWhenSolved | src/bioconda_tests/test_packages.py:143-157 | a package that solves to a single usable, downloadable record is tested, and its status holds the projected record and the build status |
| TestPackages.MambaErrors | src/bioconda_tests/test_packages.py:136-157 | over the corrected `solve`, handling a package raises exactly when the solve's output cannot be unpacked, the record lacks a key, or the build test raises |
| TestPackages.DocumentJson | src/bioconda_tests/test_packages.py:162-166 | the status document has exactly the keys `name`, `platform` and `status` |
| TestPackages.TestPackage | src/bioconda_tests/test_packages.py:160-170 | a package's document is written exactly when handling it does not raise, and it names the package, the platform and the one mamba status |
| TestPackages.TestPackageAsWritten | src/bioconda_tests/test_packages.py:160-170 | as written, no document is written for a package whose solve times out or fails; otherwise the document is the corrected version's |
| TestPackages.LexStrictTotal | src/bioconda_tests/test_packages.py:203 | string comparison is a strict total order |
| TestPackages.ListedLines | src/bioconda_tests/test_packages.py:203-207 | the lines read are exactly the lines of the given subdirectories' lists |
| TestPackages.PackagesToTest | src/bioconda_tests/test_packages.py:203-207 | the packages to test are sorted, distinct, and exactly those listed for some given subdirectory |
| TestPackages.RunAll | src/bioconda_tests/test_packages.py:208-209 | the packages are handled in order; all documents are written unless one package raises, and then those before it are written |
| TestPackages.TestMain | src/bioconda_tests/test_packages.py:193-209 | over the corrected `solve`: without `--subdir` it raises. Otherwise the platform is the first subdirectory, and the sorted listed packages are tested in order until one raises |
| TestPackages.TestMainAsWritten | src/bioconda_tests/test_packages.py:193-209 | as written, documents are written only for packages whose solve succeeds, and the run stops, raising, no later than the first package whose solve times out or fails |
| Pipeline.WrittenLists | src/bioconda_tests/select_packages.py:135-139 | one list file is written for each subdirectory that has selected packages |
| Pipeline.ListReadBack | src/bioconda_tests/select_packages.py:135-139 | the tester reads from each subdirectory's file exactly the selector's list for it |
| Pipeline.TesterTestsSelection | src/bioconda_tests/test_packages.py:203-207 | the tester tests a package exactly when it was selected and listed under one of the tester's subdirectories |
| Pipeline.TesterDocumentUnreadable | src/bioconda_tests/select_packages.py:52 | example: a document the tester writes lacks `state`, so the selector raises on reading it (the general rule is ReadRecord) |
| Pipeline.SelectMain | src/bioconda_tests/select_packages.py:96-140 | the clock is read first, and any NTP failure ends the run, including an exception other than `NTPException`. Selection then runs at that time, and its failure ends the run. Otherwise the selected packages are written out, one list per subdirectory |

## Left out

- The `git` sparse checkout of the statistics repository. The snapshot is a parameter: a sequence of statistics files in glob order.
- JSON decoding. Documents are given decoded, and statistics files are given as their package and series of totals.
- A statistics file without `package`, `downloads_per_date` or `total` is not modelled. It would raise `KeyError`.
- Selection.ProcessedTimes: it assumes distinct directory names, which a real directory listing guarantees.
- Filesystem effects: `mkdir` failures (the selector's output directory must not exist yet), the bytes of logs, JSON indentation, and path normalisation by `pathlib`.
- Builder.TestBuild: the download is a parameter saying whether it worked. The HTTP status is not checked, as in the code, and the file's content is not modelled.
- The subprocess plumbing of `call`: process groups, `SIGINT`, pipes and environment variables. Only the exit status or the timeout reaches the model.
- A log is modelled by the path it is written to. The code writes the captured output there; `exc.stdout` may be `None` after a timeout, and then the write raises.
- Argument parsing. `--num-packages` is the integer `numPackages`, `--subdir` is a sequence (empty when never given), and the workspace is implicit.
- Logging, and the `__main__` printing of `ntp_time.py`.
- Ntp.FromTimestamp: `tx_time` is a float. The model takes it already rounded to whole microseconds and does not model the rounding.
- `strptime` also accepts non-ASCII decimal digits. The model reads ASCII digits only.
- UtcTime.Format: `strftime` pads years below 1000 on some C libraries and not on others. The model always pads to four digits.
- TestPackages.TestPackageMamba: stated over the corrected `solve` of the Findings table, so an unsuccessful solve is reported as a status. The code as written raises there; TestPackages.TestPackageMambaAsWritten models that.
- TestPackages.MambaErrors: over the corrected `solve` too; as written, handling a package also raises on every timed-out or failed solve (TestPackages.TestPackageMambaAsWritten).
- TestPackages.TestMain: over the corrected `solve` too; as written, the run stops at the first package whose solve times out or fails (TestPackages.TestMainAsWritten).
- Time zones other than fixed offsets are opaque. Comparing a naive with an aware datetime raises `TypeError` in Python; it never happens here, because every time is made aware.

Where the code and its documentation disagree, the model follows the code:

- A `running` status counts as stale once `(now - started).days > 1`, that is after 48 hours, not 24.
- `parse_utc_time` is lenient. It accepts unpadded fields, a lower-case `t` and a space-padded day, rather than rejecting every deviation from the layout.

## Findings

| source | as written | input that shows it | evidently intended | confidence | as-written member | corrected member |
|---|---|---|---|---|---|---|
| src/bioconda_tests/test_packages.py:102-133 | `solve` binds `fetch_info` but returns `package_fetch_info`, which only the success branch binds, so every timeout or failed solve raises `UnboundLocalError` after writing its log | a `mamba create` that times out (`Solver.TimeoutRaises`) | return the status with no fetch information, so that `test_package_mamba` records the status and skips the build test | not executed | Solver.SolveAsWritten | Solver.Solve |
