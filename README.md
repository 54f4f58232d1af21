# session-memory, modelled in Dafny

session-memory is a small command-line ledger for an AI agent's working sessions. It keeps one SQLite database with six tables:
- `sessions`: one row per working session on a project directory;
- `file_reads`, `changes`, `tests`, `notes` and `errors`: the events of a session.

This project models the `SessionMemory` object that keeps the ledger:
- **Session resolution.** `get_current_session` finds or creates the active session of the working directory.
- **Logging.** `log_read`, `log_change`, `log_test`, `add_note` and `log_error` each resolve the session and append one row.
- **Context guess.** `infer_context` is the heuristic that describes a file that was read.
- **Reading back.** `query_session` gives the newest rows of one kind, or a five-row summary. `get_session_analytics` gives counts, test pass rate, a file-type histogram and duration.

Modules:
- `Wrappers`: `Option`.
- `Text`: the string operations the source relies on:
  - `str.lower` and `in`;
  - `os.path.basename`, `Path.name` and `Path.suffix`;
  - the two regular expressions `keyword\s+\w+`.
- `Context`: `infer_context`. Its two tables are sequences in the source's order. The elif chain of refinements is mirrored by a rule table (`Refinements`), and lemmas prove the two agree.
- `Records`: the rows of the six tables, and the invariants the schema keeps:
  - AUTOINCREMENT ids;
  - time order;
  - the foreign key to `sessions`.
- `Analytics`: every SELECT as a function of the tables:
  - the active-session lookup;
  - the before-hash lookup;
  - `ORDER BY ... DESC LIMIT`;
  - the summary;
  - the pass rate;
  - the `CASE` bucket expression;
  - `GROUP BY` and `ORDER BY count DESC LIMIT 5`;
  - the duration.
- `Store`: the ledger itself. Session resolution is the function `Resolve`. The class `SessionStore` holds the six tables as sequence fields, and its methods change them exactly as the source's INSERT and UPDATE statements do.

What the database and the operating system supply is passed in as parameters of the methods:
- the working directory (`cwd`);
- the current time (`now`, in seconds);
- the file system (`FileState`: absent, directory, or a regular file with its bytes and first ten lines);
- the MD5 digest, the class's `digest` function.

## Model

| member | source | states |
|---|---|---|
| Text.Lower | session-memory.py:194 | `str.lower` keeps the length and lower-cases each character on its own |
| Text.ContainsIff | session-memory.py:197-199 | Python's substring test `pattern in name` holds exactly when the pattern occurs as a slice of the name at some offset |
| Text.AfterLastSlash | session-memory.py:137 | the base name has no '/', is a suffix of the path, and is preceded by a '/' unless it is the whole path |
| Text.LastIndexOf | session-memory.py:202 | the index found holds the character and no later index does; None only when the character is absent |
| Text.Suffix | session-memory.py:202 | `Path.suffix` is non-empty exactly when the name has a last dot that is neither its first nor its last character; it then runs from that dot to the end, and holds no other dot |
| Text.SuffixWithoutDot | session-memory.py:213 | `suffix[1:]` of a non-empty suffix is the bare extension name: the suffix is a dot followed by it, and it holds no dot |
| Context.FirstContained | session-memory.py:197-199 | the first special-file pattern, in table order, that occurs in the name; None when none occurs |
| Context.Lookup | session-memory.py:203-204 | the extension table's entry for the key; None exactly when no entry has that key |
| Context.SpecialNameWins | session-memory.py:194-199 | InferContext, special-name branch: the first special pattern the lower-cased name contains decides the context, whatever the extension and the content |
| Context.PackageJsonIsDependencies | session-memory.py:180-199 | a name containing "package.json" is described as dependencies and scripts, not by the ".json" entry |
| Context.ConfigNameIsSpecial | session-memory.py:191-220 | a name containing "config" always gets a special-file context, so the `'config' in filename_lower` refinement cannot fire |
| Context.RefineFirstRule | session-memory.py:212-227 | Refine, the elif chain of refinements, is the rule table read top to bottom: the first rule that holds gives "Examining <ext> <caption>" |
| Context.NameRulesFail | session-memory.py:212-222 | when none of the five name checks matches, Refine is RefineByContent: the chain goes on to the class, function and import checks of the first lines |
| Context.RefineNoRule | session-memory.py:204-227 | when no refinement holds, Refine keeps the plain extension description |
| Context.RulesUnfold | session-memory.py:212-227 | each rule of the table tests exactly the words or patterns of its elif branch |
| Context.ExtensionRefined | session-memory.py:202-232 | InferContext, known-extension branch: a readable file with no special name is described by the first rule that holds |
| Context.ExtensionUnrefined | session-memory.py:202-232 | InferContext, known-extension branch: a readable file with no special name that no rule matches keeps the plain table entry |
| Context.TestNameWins | session-memory.py:212-213 | a known extension whose name contains "test" is a test file, whatever else the name or the content says |
| Context.UnreadableKeepsPlain | session-memory.py:204-232 | InferContext, known-extension branch: a directory, or a file that cannot be opened, keeps the plain extension description |
| Context.Fallback | session-memory.py:234-238 | InferContext, outside both tables: "Examining directory structure" for a directory, otherwise "Examining <suffix without dot>", or "Examining file" when there is no suffix |
| Context.DotFileHasNoSuffix | session-memory.py:202 | a name such as ".env" whose only dot is its first character has no suffix |
| Analytics.OfSession | session-memory.py:265-269 | `WHERE session_id = ?` keeps only rows of that session, and keeps every row of that session |
| Analytics.OfSessionSelects | session-memory.py:265-269 | the selection as a multiset: each row of the session as often as the table holds it, and no row of any other session |
| Analytics.OfSessionOrdered | session-memory.py:441-447 | on a table with AUTOINCREMENT ids, the selected rows come in increasing id order, that is in table order |
| Analytics.OfSessionChronological | session-memory.py:445-446 | selecting one session's rows keeps them in time order |
| Analytics.CountAppend | session-memory.py:265-269 | logging one row makes `COUNT(*)` of its session grow by one and leaves every other session's count unchanged |
| Analytics.Limit | session-memory.py:447 | `LIMIT n` gives the first min(n, length) rows, in order; a negative n keeps all rows |
| Analytics.Reverse | session-memory.py:446 | reversal keeps the length and reads the rows back to front |
| Analytics.Recent | session-memory.py:441-480 | min(limit, count) rows, all of the session; the i-th row returned is the session's i-th newest row in table order |
| Analytics.RecentNewestFirst | session-memory.py:441-480 | on a table written in time order, the rows are newest first, and a row of the session that is left out is not newer than any row returned |
| Analytics.RecentOrdered | session-memory.py:441-447 | on a table written in time order, the rows returned are newest first |
| Analytics.LeftOutIsOlder | session-memory.py:441-447 | on a table written in time order, a row of the session that `LIMIT` leaves out is no newer than any row returned |
| Analytics.MostRecentActive | session-memory.py:118-124 | `WHERE project_path = ? AND status = 'active' ORDER BY last_active DESC LIMIT 1`: a session that IsCurrentFor the project, with the greatest last_active among those; None exactly when there is none |
| Analytics.LatestRead | session-memory.py:358-363 | the last read of the path in the session, with no later one; None exactly when there is no such read |
| Analytics.LatestReadIsNewest | session-memory.py:361 | on a table in time order, the last read has the greatest read_at among the reads of that path |
| Analytics.LastReadHash | session-memory.py:358-365 | the before-hash is the file_hash of the latest read of that path in that session, and None when the session never read the path |
| Analytics.CountResultIsMultiplicity | session-memory.py:284-285 | `GROUP BY result`: each result's count is the number of times it occurs among the session's test results |
| Analytics.ResultCountsSum | session-memory.py:284-289 | the pass, fail and error counts add up to the number of tests |
| Analytics.PassRate | session-memory.py:283-291 | the rate is present exactly when the session ran tests, as passes over tests; passes, failures and errors add up to the total |
| Analytics.Bucket | session-memory.py:296-306 | the CASE expression: a named bucket's path ends with that bucket's extension, ignoring ASCII case, and 'Other' is chosen exactly when no extension matches |
| Analytics.BucketExact | session-memory.py:296-306 | no path ends with two of the eight extensions, so a path is in a named bucket exactly when it ends with that bucket's extension, whatever the WHEN order |
| Analytics.Buckets | session-memory.py:296-312 | the CASE expression applied to each path of the subquery, in order |
| Analytics.BucketCountIsMultiplicity | session-memory.py:307 | `COUNT(*)` of a bucket is the number of times the bucket occurs among the classified paths |
| Analytics.BucketsPartition | session-memory.py:296-313 | every path falls in exactly one bucket, so the nine bucket counts add up to the number of paths |
| Analytics.HistogramOverCounts | session-memory.py:307-313 | each `GROUP BY file_type` group is a non-empty bucket and carries that bucket's count |
| Analytics.HistogramSum | session-memory.py:307-313 | Histogram: the `GROUP BY file_type` counts add up to the number of classified paths |
| Analytics.HistogramDistinctTypes | session-memory.py:313 | Histogram: `GROUP BY` names each bucket at most once |
| Analytics.HistogramComplete | session-memory.py:313 | Histogram: every non-empty bucket has a group with its count |
| Analytics.HistogramEntries | session-memory.py:307-313 | Histogram: every group is a non-empty bucket and carries that bucket's count |
| Analytics.InsertPermutes | session-memory.py:314 | inserting a group for `ORDER BY count DESC` adds exactly that group and keeps all others |
| Analytics.InsertSorted | session-memory.py:314 | inserting a group into groups ordered by non-increasing count keeps them ordered |
| Analytics.SortByCountPermutes | session-memory.py:314 | `ORDER BY count DESC` reorders the groups: a permutation of them |
| Analytics.SortByCountSorted | session-memory.py:314 | the groups are in non-increasing order of count, with the same sum and still distinct |
| Analytics.TopFive | session-memory.py:315 | `LIMIT 5` keeps at most five groups |
| Analytics.TopFivePrefix | session-memory.py:314-315 | TopFive is a prefix of the groups ordered by count, which are a permutation of the histogram |
| Analytics.TopFiveOrdered | session-memory.py:314-315 | TopFive of distinct groups is ordered by non-increasing count and distinct |
| Analytics.TopFiveFrom | session-memory.py:314-315 | every group TopFive keeps is a group of the histogram |
| Analytics.TopFiveTotal | session-memory.py:314-315 | the counts TopFive keeps add up to no more than the histogram's |
| Analytics.TopFiveComplete | session-memory.py:314-315 | a group that `LIMIT 5` leaves out is no larger than any kept, and is left out only when five are kept |
| Analytics.FileTypes | session-memory.py:294-318 | file_types has at most five buckets |
| Analytics.FileTypesOrdered | session-memory.py:294-318 | file_types is ordered by count and names each bucket at most once |
| Analytics.FileTypesCounts | session-memory.py:294-318 | each bucket file_types lists is non-empty and has the number of read and changed paths in it |
| Analytics.FileTypesBounded | session-memory.py:294-318 | file_types has at most five buckets, and its counts add up to no more than the number of reads and changes |
| Analytics.FileTypesComplete | session-memory.py:294-318 | a non-empty bucket is missing from file_types only when five buckets at least as large are listed |
| Analytics.DurationMinutes | session-memory.py:260 | `int(seconds / 60)` truncates toward zero: the whole minutes elapsed, for either sign of the difference |
| Analytics.SessionById | session-memory.py:253-257 | `WHERE id = ?` finds a session with that id, or shows there is none |
| Analytics.TouchedPaths | session-memory.py:308-312 | the `UNION ALL`: first the file path of each of the session's reads, in table order, then that of each of its changes |
| Analytics.Analyze | session-memory.py:243-321 | the report: the pass rate is present exactly when tests ran, and is at most one; file_types is sorted, distinct, at most five long and bounded by reads plus changes; the duration is present exactly when the session exists |
| Analytics.ParseKind | session-memory.py:441-481 | the query type names a kind exactly when it is that kind's table name ("reads" ... "errors"); anything else, or none, names no kind |
| Analytics.Summary | session-memory.py:483-499 | five (type, count) rows, in the order reads, changes, tests, notes, errors |
| Analytics.SummaryAgreesWithAnalytics | session-memory.py:483-499 | the summary's counts are the analytics' files_read, changes_made, tests_run, notes_added and errors_logged |
| Analytics.Query | session-memory.py:441-499 | one of the five kinds gives that table's newest rows, and any other query type, or none, gives the summary |
| Records.AppendKeepsWellFormed | session-memory.py:46-96 | a row appended with the next AUTOINCREMENT id, the current timestamp and an existing session keeps the table numbered, in time order and owned |
| Store.Describe | session-memory.py:137 | a new session is described as "Session for " followed by the base name of the project path, and by nothing else |
| Store.Resolve | session-memory.py:110-142 | either no session of the table is current for the directory and a new active session with the next id, started and touched at now, is appended; or the most recently active current session is touched at now and nothing else changes |
| Store.OnlyCurrent | session-memory.py:118-122 | when at most one session per project is active, the lookup finds that session |
| Store.ResolveCurrent | session-memory.py:110-142 | the id returned names an active session of the working directory, touched at now. A session is created exactly when the directory had no active one; it then has id count + 1 and the new row's fields. Otherwise only last_active of the returned session changes. The table keeps its invariants |
| Store.ResolveStable | session-memory.py:110-142 | resolving again later in the same directory returns the same session and creates none |
| Store.ResolveSeparates | session-memory.py:110-142 | two different directories never resolve to the same session |
| Store.Readable | session-memory.py:207-209 | the file can be opened exactly when it is a regular file, and then the text read is its first lines |
| Store.ReadContext | session-memory.py:329-331 | a read records the caller's context when one is given, even an empty one, and the inferred one otherwise |
| Store.BeforeHash | session-memory.py:351-366 | before_hash is absent for 'create', and for 'modify' and 'delete' is the hash of the latest read of the file in the session |
| Store.ChangeSeesLatestRead | session-memory.py:354-365 | a 'modify' or 'delete' right after a read of the same file in the same session records that read's hash |
| Store.ChangeWithoutRead | session-memory.py:354-366 | a change of a file never read in the session has no before_hash |
| Store.StoredTags | session-memory.py:402 | tags are stored only when a non-empty list is given; no tags and an empty list are both NULL |
| Store.StoredErrorPath | session-memory.py:419 | an error's file path is stored only when a non-empty path is given |
| Store.SessionByIdNumbered | session-memory.py:253-256 | with AUTOINCREMENT ids, the session with id sid is row sid |
| Store.SessionStore.constructor | session-memory.py:26-104 | a new ledger has six empty tables, which keep every invariant |
| Store.SessionStore.FileHash | session-memory.py:144-150 | the file's hash is its digest when it can be opened, and None otherwise |
| Store.SessionStore.AfterHash | session-memory.py:368-369 | after_hash is the file's hash for 'create' and 'modify', and absent for 'delete' |
| Store.SessionStore.CurrentSession | session-memory.py:110-142 | the new sessions table and the id are those of Resolve, the id names an existing session, the event tables are unchanged, and the invariants are kept |
| Store.SessionStore.LogRead | session-memory.py:323-343 | appends exactly one read row, whose hash and context are given by FileHash and ReadContext; the returned id is the new row count; every other event table is unchanged |
| Store.SessionStore.LogChange | session-memory.py:345-381 | appends exactly one change row, with BeforeHash from the reads before the change and AfterHash from the file after it; the returned id is the new row count; every other event table is unchanged |
| Store.SessionStore.LogTest | session-memory.py:383-397 | appends exactly one test row; the returned id is the new row count; every other event table is unchanged |
| Store.SessionStore.AddNote | session-memory.py:399-414 | appends exactly one note row with its stored tags; the returned id is the new row count; every other event table is unchanged |
| Store.SessionStore.LogError | session-memory.py:416-431 | appends exactly one error row with its stored path; the returned id is the new row count; every other event table is unchanged |
| Store.SessionStore.QuerySession | session-memory.py:433-503 | resolves the session, changes no event table, and returns Query on the tables |
| Store.SessionStore.SessionAnalytics | session-memory.py:243-321 | resolves the session, changes no event table, and returns Analyze; the duration is always present and never negative |

## Left out

- The command line is not part of this model: `main`, argument parsing, printing, and the `export_session` JSON dump.
- The SQLite connection, commit and close calls are not modelled. Each method is one atomic step on the tables.
- Concurrent writers to the same database are not modelled.
- MD5 is kept abstract: `digest` is a parameter of the ledger.
- `os.getcwd()`, `CURRENT_TIMESTAMP` and the file system are parameters: `cwd`, `now` and `FileState`.
- The methods require that `now` is not earlier than any stored timestamp (`NotAfterNow`). This is the clock assumption that makes the tables chronological.
- `os.path.abspath` is not modelled: paths are taken as already absolute and normalised.
- ISO timestamp text and its parsing in `datetime.fromisoformat` are not modelled: timestamps are whole seconds.
- Analytics.PassRate: gives the exact pair (passes, tests) instead of the floating-point percentage `passes / tests * 100`.
- Text.Lower: lower-cases ASCII letters only. Python's `str.lower` and the `\s` and `\w` classes also act on other characters. SQLite's `LIKE` folds ASCII case only, as the model does.
- Text.Suffix: follows `pathlib` before Python 3.14, where a name ending in a dot, such as "notes.", has no suffix. From 3.14 on its suffix is ".".
- Reading the first ten lines as UTF-8 with undecodable bytes dropped is not modelled. `FileState.Regular` carries that text as given.
- Store.StoredTags: stores the tag list itself, not its `json.dumps` text.
- Analytics.OfSession: its own contract says which rows are selected, not how often or in what order. OfSessionSelects proves the multiplicities and OfSessionOrdered the order. They are separate lemmas because, on the function itself, these facts make its many callers too costly to verify.
- Analytics.Query: returns whole rows, not only the columns each SELECT projects.
- Analytics.Recent: rows that share a timestamp come back latest-written first. SQLite leaves the order of such ties unspecified.
- Analytics.LatestRead: among reads in the same second, the last one written is taken. SQLite may return any of them.
- Analytics.FileTypes: buckets with equal counts are ordered by a stable insertion sort; SQLite leaves that order unspecified.
- `file_types` is returned as a list of (bucket, count) pairs, not a dictionary.
- Change kinds and test results are restricted to the command line's choices: create/modify/delete and pass/fail/error. The library itself accepts any string.
- The default limits (50 in `query_session`, 20 on the command line) are not modelled: every caller passes `limit` explicitly.
- The outer `except` of `infer_context`, which returns "Examining file", is not modelled. Nothing in the model raises.
- Sessions are never closed by this code (`status` stays 'active'). `Inactive` exists only so that the lookup's `status = 'active'` filter is modelled.
