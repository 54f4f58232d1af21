// Everything the ledger reads back: session resolution's lookup, the
// before-hash lookup of a change, per-kind retrieval, the five-row summary,
// and the session analytics (counts, test pass rate, file-type histogram,
// duration). All of them are SELECT statements, so all are functions of
// the tables.
module Analytics {
  import opened Wrappers
  import opened Text
  import opened Records

  // ---------------------------------------------------------------------
  // Selecting rows

  /** `WHERE session_id = ?`: the rows of session `sid`, in table order. */
  function OfSession<P>(rows: seq<Row<P>>, sid: nat): (r: seq<Row<P>>)
    ensures |r| <= |rows|
    ensures forall i :: 0 <= i < |r| ==> r[i] in rows && r[i].sessionId == sid
    ensures forall i :: 0 <= i < |rows| && rows[i].sessionId == sid ==> rows[i] in r
    decreases |rows|
  {
    if rows == [] then []
    else
      var init := rows[..|rows| - 1];
      var last := rows[|rows| - 1];
      assert rows == init + [last];
      OfSession(init, sid) + (if last.sessionId == sid then [last] else [])
  }

  /** `COUNT(*) ... WHERE session_id = ?`. */
  function Count<P>(rows: seq<Row<P>>, sid: nat): nat {
    |OfSession(rows, sid)|
  }

  /** A row is logged to a table: the session's count grows by one exactly
      when the row belongs to it. */
  lemma CountAppend<P>(rows: seq<Row<P>>, row: Row<P>, sid: nat)
    ensures Count(rows + [row], sid) == Count(rows, sid) + (if row.sessionId == sid then 1 else 0)
  {
    assert (rows + [row])[..|rows|] == rows;
  }

  /** OfSession keeps each row of the session as often as the table holds
      it, and no row of another session. */
  lemma {:induction false} OfSessionSelects<P>(rows: seq<Row<P>>, sid: nat)
    ensures forall x :: multiset(OfSession(rows, sid))[x] == (if x.sessionId == sid then multiset(rows)[x] else 0)
    decreases |rows|
  {
    if rows != [] {
      var init := rows[..|rows| - 1];
      var last := rows[|rows| - 1];
      assert rows == init + [last];
      OfSessionSelects(init, sid);
    }
  }

  /** On a numbered table OfSession lists its rows by increasing id, that
      is in table order; with OfSessionSelects this determines it. */
  lemma {:induction false} OfSessionOrdered<P>(rows: seq<Row<P>>, sid: nat)
    requires Numbered(rows)
    ensures forall i, j :: 0 <= i < j < |OfSession(rows, sid)| ==> OfSession(rows, sid)[i].id < OfSession(rows, sid)[j].id
    decreases |rows|
  {
    if rows != [] {
      var init := rows[..|rows| - 1];
      var last := rows[|rows| - 1];
      assert Numbered(init);
      OfSessionOrdered(init, sid);
      var f := OfSession(init, sid);
      forall k | 0 <= k < |f| ensures f[k].id < last.id {
        var i :| 0 <= i < |init| && init[i] == f[k];
        assert rows[i] == f[k];
      }
    }
  }

  /** Selecting a session's rows keeps them in the order they were written. */
  lemma {:induction false} OfSessionChronological<P>(rows: seq<Row<P>>, sid: nat)
    requires Chronological(rows)
    ensures Chronological(OfSession(rows, sid))
    decreases |rows|
  {
    if rows != [] {
      var init := rows[..|rows| - 1];
      var last := rows[|rows| - 1];
      assert Chronological(init);
      OfSessionChronological(init, sid);
      var f := OfSession(init, sid);
      forall k | 0 <= k < |f| ensures f[k].at <= last.at {
        var i :| 0 <= i < |init| && init[i] == f[k];
        assert rows[i] == f[k];
      }
    }
  }

  function Reverse<T>(s: seq<T>): (r: seq<T>)
    ensures |r| == |s|
    ensures forall i :: 0 <= i < |s| ==> r[i] == s[|s| - 1 - i]
  {
    if s == [] then [] else Reverse(s[1..]) + [s[0]]
  }

  function Min(a: int, b: int): int {
    if a <= b then a else b
  }

  /** SQL's `LIMIT n`: the first n rows, or all of them when there are
      fewer; a negative `n` means no limit at all. */
  function Limit<T>(s: seq<T>, n: int): (r: seq<T>)
    ensures |r| == (if n < 0 then |s| else Min(n, |s|))
    ensures r == s[..|r|]
  {
    if n < 0 || n >= |s| then s else s[..n]
  }

  /** `WHERE session_id = ? ORDER BY <timestamp> DESC LIMIT ?`: the newest
      rows of session `sid`, newest first. */
  function Recent<P>(rows: seq<Row<P>>, sid: nat, limit: int): (r: seq<Row<P>>)
    ensures limit >= 0 ==> |r| == Min(limit, Count(rows, sid))
    ensures limit < 0 ==> |r| == Count(rows, sid)
    ensures forall i :: 0 <= i < |r| ==> r[i] in rows && r[i].sessionId == sid
    ensures forall i :: 0 <= i < |r| ==> r[i] == OfSession(rows, sid)[|OfSession(rows, sid)| - 1 - i]
  {
    var f := OfSession(rows, sid);
    var r := Limit(Reverse(f), limit);
    assert forall i :: 0 <= i < |r| ==> r[i] == f[|f| - 1 - i];
    r
  }

  /** Recent is the ORDER BY ... DESC LIMIT of the source: on a table written
      in time order, its rows are newest first, and no row of the session it
      leaves out is newer than a row it returns. */
  lemma RecentNewestFirst<P>(rows: seq<Row<P>>, sid: nat, limit: int)
    requires Chronological(rows)
    ensures forall i, j :: 0 <= i < j < |Recent(rows, sid, limit)| ==>
              Recent(rows, sid, limit)[i].at >= Recent(rows, sid, limit)[j].at
    ensures forall i, j ::
              (0 <= i < |rows| && rows[i].sessionId == sid && rows[i] !in Recent(rows, sid, limit) &&
               0 <= j < |Recent(rows, sid, limit)|) ==> rows[i].at <= Recent(rows, sid, limit)[j].at
  {
    RecentOrdered(rows, sid, limit);
    forall i, q | 0 <= i < |rows| && rows[i].sessionId == sid && rows[i] !in Recent(rows, sid, limit) &&
                  0 <= q < |Recent(rows, sid, limit)|
      ensures rows[i].at <= Recent(rows, sid, limit)[q].at
    {
      LeftOutIsOlder(rows, sid, limit, i, q);
    }
  }

  /** The rows Recent returns are newest first. */
  lemma RecentOrdered<P>(rows: seq<Row<P>>, sid: nat, limit: int)
    requires Chronological(rows)
    ensures forall i, j :: 0 <= i < j < |Recent(rows, sid, limit)| ==>
              Recent(rows, sid, limit)[i].at >= Recent(rows, sid, limit)[j].at
  {
    var f := OfSession(rows, sid);
    OfSessionChronological(rows, sid);
    var r := Recent(rows, sid, limit);
    assert |f| == Count(rows, sid);
    assert forall i :: 0 <= i < |r| ==> r[i] == f[|f| - 1 - i];
  }

  /** A row of the session that Recent leaves out is no newer than one it returns. */
  lemma LeftOutIsOlder<P>(rows: seq<Row<P>>, sid: nat, limit: int, i: nat, q: nat)
    requires Chronological(rows)
    requires i < |rows| && rows[i].sessionId == sid && rows[i] !in Recent(rows, sid, limit)
    requires q < |Recent(rows, sid, limit)|
    ensures rows[i].at <= Recent(rows, sid, limit)[q].at
  {
    var f := OfSession(rows, sid);
    var r := Recent(rows, sid, limit);
    assert |r| <= |f| && forall k :: 0 <= k < |r| ==> r[k] == f[|f| - 1 - k];
    OfSessionChronological(rows, sid);
    var p :| 0 <= p < |f| && f[p] == rows[i];
    NewestSuffix(f, r, p, q);
  }

  /** When `r` lists the last |r| rows of `f` newest first, and `f` is in
      time order, a row of `f` that `r` does not list is no newer than any
      row it does. */
  lemma NewestSuffix<P>(f: seq<Row<P>>, r: seq<Row<P>>, p: nat, q: nat)
    requires Chronological(f)
    requires |r| <= |f| && forall k :: 0 <= k < |r| ==> r[k] == f[|f| - 1 - k]
    requires p < |f| && q < |r|
    ensures f[p] in r || f[p].at <= r[q].at
  {
    if |f| - 1 - p < |r| {
      assert r[|f| - 1 - p] == f[p];
    } else {
      assert r[q] == f[|f| - 1 - q];
    }
  }

  // ---------------------------------------------------------------------
  // Session resolution's lookup

  /** A session that resolution may pick for `path`. */
  predicate IsCurrentFor(s: Session, path: string) {
    s.projectPath == path && s.status == Active
  }

  /** `WHERE project_path = ? AND status = 'active' ORDER BY last_active DESC
      LIMIT 1`, as an index into the sessions table. */
  function MostRecentActive(sessions: seq<Session>, path: string): (r: Option<nat>)
    ensures r.Some? ==> r.value < |sessions| && IsCurrentFor(sessions[r.value], path)
    ensures r.Some? ==> forall j :: 0 <= j < |sessions| && IsCurrentFor(sessions[j], path) ==>
                          sessions[j].lastActive <= sessions[r.value].lastActive
    ensures r.None? ==> forall j :: 0 <= j < |sessions| ==> !IsCurrentFor(sessions[j], path)
    decreases |sessions|
  {
    if sessions == [] then None
    else
      var n := |sessions| - 1;
      var best := MostRecentActive(sessions[..n], path);
      assert forall j :: 0 <= j < n ==> sessions[..n][j] == sessions[j];
      if IsCurrentFor(sessions[n], path) && (best.None? || sessions[best.value].lastActive < sessions[n].lastActive)
      then Some(n)
      else best
  }

  // ---------------------------------------------------------------------
  // The before-hash lookup of a change

  /** A read of `path` within session `sid`. */
  predicate IsReadOf(row: Row<ReadInfo>, sid: nat, path: string) {
    row.sessionId == sid && row.info.filePath == path
  }

  /** `SELECT file_hash FROM file_reads WHERE session_id = ? AND file_path = ?
      ORDER BY read_at DESC LIMIT 1`, as an index: the last such read. */
  function LatestRead(log: seq<Row<ReadInfo>>, sid: nat, path: string): (r: Option<nat>)
    ensures r.Some? ==> r.value < |log| && IsReadOf(log[r.value], sid, path)
    ensures r.Some? ==> forall j :: r.value < j < |log| ==> !IsReadOf(log[j], sid, path)
    ensures r.None? ==> forall j :: 0 <= j < |log| ==> !IsReadOf(log[j], sid, path)
    decreases |log|
  {
    if log == [] then None
    else if IsReadOf(log[|log| - 1], sid, path) then Some(|log| - 1)
    else
      var r := LatestRead(log[..|log| - 1], sid, path);
      assert forall j :: 0 <= j < |log| - 1 ==> log[..|log| - 1][j] == log[j];
      r
  }

  /** On a table written in time order, the last read is the one with the
      greatest read_at, as the ORDER BY read_at DESC asks. */
  lemma LatestReadIsNewest(log: seq<Row<ReadInfo>>, sid: nat, path: string)
    requires Chronological(log) && LatestRead(log, sid, path).Some?
    ensures forall j :: 0 <= j < |log| && IsReadOf(log[j], sid, path) ==>
              log[j].at <= log[LatestRead(log, sid, path).value].at
  {
  }

  /** The hash a change records as its `before_hash`: the file_hash of the
      latest read of the same path in the same session, or NULL. */
  function LastReadHash(log: seq<Row<ReadInfo>>, sid: nat, path: string): (h: Option<string>)
    ensures forall j ::
              (0 <= j < |log| && IsReadOf(log[j], sid, path) &&
               forall k :: j < k < |log| ==> !IsReadOf(log[k], sid, path)) ==> h == log[j].info.fileHash
    ensures (forall j :: 0 <= j < |log| ==> !IsReadOf(log[j], sid, path)) ==> h == None
  {
    match LatestRead(log, sid, path)
    case Some(k) => log[k].info.fileHash
    case None => None
  }

  // ---------------------------------------------------------------------
  // Test pass rate

  /** The result column of `rows`. */
  function ResultsOf(rows: seq<Row<TestInfo>>): (r: seq<TestResult>)
    ensures |r| == |rows|
    ensures forall i :: 0 <= i < |rows| ==> r[i] == rows[i].info.result
  {
    if rows == [] then [] else [rows[0].info.result] + ResultsOf(rows[1..])
  }

  /** `COUNT(*)` of one `GROUP BY result` group: how often `result` occurs in the column. */
  function CountResult(rows: seq<Row<TestInfo>>, result: TestResult): (n: nat)
    ensures n <= |rows|
  {
    if rows == [] then 0
    else CountResult(rows[1..], result) + (if rows[0].info.result == result then 1 else 0)
  }

  /** A group's count is the number of times its result occurs in the column. */
  lemma {:induction false} CountResultIsMultiplicity(rows: seq<Row<TestInfo>>, result: TestResult)
    ensures CountResult(rows, result) == multiset(ResultsOf(rows))[result]
    decreases |rows|
  {
    if rows != [] {
      CountResultIsMultiplicity(rows[1..], result);
      assert ResultsOf(rows) == [rows[0].info.result] + ResultsOf(rows[1..]);
    }
  }

  /** `GROUP BY result`: the three per-result counts add up to the number of tests. */
  lemma {:induction false} ResultCountsSum(rows: seq<Row<TestInfo>>)
    ensures CountResult(rows, Pass) + CountResult(rows, Fail) + CountResult(rows, Error) == |rows|
  {
    if rows != [] {
      ResultCountsSum(rows[1..]);
    }
  }

  /** test_success_rate as the exact pair (passes, tests): the rate is
      100 * passes / tests. Absent when the session ran no tests. */
  function PassRate(tests: seq<Row<TestInfo>>, sid: nat): (r: Option<(nat, nat)>)
    ensures r.Some? <==> Count(tests, sid) > 0
    ensures r.Some? ==> r.value.1 == Count(tests, sid) && r.value.0 <= r.value.1
    ensures r.Some? ==> r.value.0 + CountResult(OfSession(tests, sid), Fail)
                        + CountResult(OfSession(tests, sid), Error) == r.value.1
  {
    var mine := OfSession(tests, sid);
    ResultCountsSum(mine);
    if |mine| > 0 then Some((CountResult(mine, Pass), |mine|)) else None
  }

  // ---------------------------------------------------------------------
  // File-type histogram

  /** The buckets of the CASE expression; they stand for the names 'Python',
      'JavaScript', 'TypeScript', 'React', 'React TS', 'CSS', 'Markdown',
      'JSON' and 'Other' that file_types is keyed by. */
  datatype FileType = Python | JavaScript | TypeScript | React | ReactTS | CSS | Markdown | JSON | Other

  /** The LIKE pattern of each bucket but Other: the extension it ends with. */
  function Pattern(t: FileType): string {
    match t
    case Python => ".py"
    case JavaScript => ".js"
    case TypeScript => ".ts"
    case React => ".jsx"
    case ReactTS => ".tsx"
    case CSS => ".css"
    case Markdown => ".md"
    case JSON => ".json"
    case Other => ""
  }

  /** SQLite's `path LIKE '%<ext>'`, which ignores ASCII case. */
  predicate LikeEndsWith(path: string, ext: string) {
    EndsWith(Lower(path), ext)
  }

  /** The CASE expression: the first WHEN that matches. */
  function Bucket(path: string): (r: FileType)
    ensures r != Other ==> LikeEndsWith(path, Pattern(r))
    ensures r == Other <==> forall t :: t != Other ==> !LikeEndsWith(path, Pattern(t))
  {
    if LikeEndsWith(path, ".py") then Python
    else if LikeEndsWith(path, ".js") then JavaScript
    else if LikeEndsWith(path, ".ts") then TypeScript
    else if LikeEndsWith(path, ".jsx") then React
    else if LikeEndsWith(path, ".tsx") then ReactTS
    else if LikeEndsWith(path, ".css") then CSS
    else if LikeEndsWith(path, ".md") then Markdown
    else if LikeEndsWith(path, ".json") then JSON
    else Other
  }

  /** A string that ends with two extensions ends with the longer one's
      shorter tail. */
  lemma EndsWithBoth(s: string, a: string, b: string)
    requires EndsWith(s, a) && EndsWith(s, b) && |a| <= |b|
    ensures EndsWith(b, a)
  {
    assert b[|b| - |a|..] == s[|s| - |a|..];
  }

  /** No path ends with two of the eight patterns, so the order of the WHEN
      clauses does not matter: a path is in bucket t exactly when it ends
      with t's extension. */
  lemma BucketExact(path: string, t: FileType)
    requires t != Other
    ensures Bucket(path) == t <==> LikeEndsWith(path, Pattern(t))
  {
    var u := Bucket(path);
    if u != t && u != Other && LikeEndsWith(path, Pattern(t)) {
      var s := Lower(path);
      if |Pattern(t)| <= |Pattern(u)| {
        EndsWithBoth(s, Pattern(t), Pattern(u));
      } else {
        EndsWithBoth(s, Pattern(u), Pattern(t));
      }
    }
  }

  const AllFileTypes: seq<FileType> :=
    [Python, JavaScript, TypeScript, React, ReactTS, CSS, Markdown, JSON, Other]

  lemma AllFileTypesDistinct()
    ensures Distinct(AllFileTypes)
  {
  }

  /** The bucket of each path. */
  function Buckets(paths: seq<string>): (bs: seq<FileType>)
    ensures |bs| == |paths|
    ensures forall i :: 0 <= i < |paths| ==> bs[i] == Bucket(paths[i])
  {
    if paths == [] then [] else [Bucket(paths[0])] + Buckets(paths[1..])
  }

  /** Number of entries of `bs` that are bucket `t`. */
  function BucketCount(bs: seq<FileType>, t: FileType): (n: nat)
    ensures n <= |bs|
  {
    if bs == [] then 0
    else BucketCount(bs[..|bs| - 1], t) + (if bs[|bs| - 1] == t then 1 else 0)
  }

  /** A bucket's count is the number of times it occurs in `bs`. */
  lemma {:induction false} BucketCountIsMultiplicity(bs: seq<FileType>, t: FileType)
    ensures BucketCount(bs, t) == multiset(bs)[t]
    decreases |bs|
  {
    if bs != [] {
      assert bs == bs[..|bs| - 1] + [bs[|bs| - 1]];
      BucketCountIsMultiplicity(bs[..|bs| - 1], t);
    }
  }

  /** The sum of the bucket counts of `types`. */
  function TotalOver(bs: seq<FileType>, types: seq<FileType>): nat {
    if types == [] then 0 else BucketCount(bs, types[0]) + TotalOver(bs, types[1..])
  }

  /** The sum of the counts of a histogram. */
  function Total(h: seq<(FileType, nat)>): nat {
    if h == [] then 0 else h[0].1 + Total(h[1..])
  }

  predicate Distinct(types: seq<FileType>) {
    forall i, j :: 0 <= i < j < |types| ==> types[i] != types[j]
  }

  lemma TotalOverCons(bs: seq<FileType>, t: FileType, rest: seq<FileType>)
    ensures TotalOver(bs, [t] + rest) == BucketCount(bs, t) + TotalOver(bs, rest)
  {
    assert ([t] + rest)[1..] == rest;
  }

  lemma TotalOverAll(bs: seq<FileType>)
    ensures TotalOver(bs, AllFileTypes) ==
      BucketCount(bs, Python) + BucketCount(bs, JavaScript) + BucketCount(bs, TypeScript) +
      BucketCount(bs, React) + BucketCount(bs, ReactTS) + BucketCount(bs, CSS) +
      BucketCount(bs, Markdown) + BucketCount(bs, JSON) + BucketCount(bs, Other)
  {
    TotalOverCons(bs, Other, []);
    TotalOverCons(bs, JSON, [Other]);
    TotalOverCons(bs, Markdown, [JSON, Other]);
    TotalOverCons(bs, CSS, [Markdown, JSON, Other]);
    TotalOverCons(bs, ReactTS, [CSS, Markdown, JSON, Other]);
    TotalOverCons(bs, React, [ReactTS, CSS, Markdown, JSON, Other]);
    TotalOverCons(bs, TypeScript, [React, ReactTS, CSS, Markdown, JSON, Other]);
    TotalOverCons(bs, JavaScript, [TypeScript, React, ReactTS, CSS, Markdown, JSON, Other]);
    TotalOverCons(bs, Python, [JavaScript, TypeScript, React, ReactTS, CSS, Markdown, JSON, Other]);
  }

  /** Every path falls in exactly one bucket, so the buckets partition the bs. */
  lemma {:induction false} BucketsPartition(bs: seq<FileType>)
    ensures TotalOver(bs, AllFileTypes) == |bs|
    decreases |bs|
  {
    TotalOverAll(bs);
    if bs != [] {
      var init := bs[..|bs| - 1];
      BucketsPartition(init);
      TotalOverAll(init);
    }
  }

  predicate DistinctTypes(h: seq<(FileType, nat)>) {
    forall i, j :: 0 <= i < j < |h| ==> h[i].0 != h[j].0
  }

  predicate SortedByCount(h: seq<(FileType, nat)>) {
    forall i, j :: 0 <= i < j < |h| ==> h[i].1 >= h[j].1
  }

  /** The histogram entry of bucket `t`: none when the bucket is empty. */
  function Entry(bs: seq<FileType>, t: FileType): seq<(FileType, nat)> {
    var c := BucketCount(bs, t);
    if c > 0 then [(t, c)] else []
  }

  /** `GROUP BY file_type` over the buckets of `types`: one entry per
      non-empty bucket, with its count. */
  function HistogramOver(bs: seq<FileType>, types: seq<FileType>): seq<(FileType, nat)>
    decreases |types|
  {
    if types == [] then [] else Entry(bs, types[0]) + HistogramOver(bs, types[1..])
  }

  /** Each entry of the histogram is a non-empty bucket, with its count. */
  lemma {:induction false} HistogramOverCounts(bs: seq<FileType>, types: seq<FileType>)
    ensures forall i :: 0 <= i < |HistogramOver(bs, types)| ==>
              HistogramOver(bs, types)[i].1 == BucketCount(bs, HistogramOver(bs, types)[i].0) > 0
    decreases |types|
  {
    if types != [] {
      HistogramOverCounts(bs, types[1..]);
      var e: seq<(FileType, nat)> := Entry(bs, types[0]);
      var rest: seq<(FileType, nat)> := HistogramOver(bs, types[1..]);
      assert HistogramOver(bs, types) == e + rest;
      forall i | |e| <= i < |e + rest| ensures (e + rest)[i] == rest[i - |e|] {
      }
    }
  }

  /** Each entry of the histogram is a bucket of `types`. */
  lemma {:induction false} HistogramOverTypes(bs: seq<FileType>, types: seq<FileType>)
    ensures forall i :: 0 <= i < |HistogramOver(bs, types)| ==> HistogramOver(bs, types)[i].0 in types
    decreases |types|
  {
    if types != [] {
      HistogramOverTypes(bs, types[1..]);
      var e: seq<(FileType, nat)> := Entry(bs, types[0]);
      var rest: seq<(FileType, nat)> := HistogramOver(bs, types[1..]);
      assert HistogramOver(bs, types) == e + rest;
      forall i | |e| <= i < |e + rest| ensures (e + rest)[i].0 in types {
        assert (e + rest)[i] == rest[i - |e|];
        var j :| 0 <= j < |types[1..]| && types[1..][j] == rest[i - |e|].0;
        assert types[j + 1] == rest[i - |e|].0;
      }
    }
  }

  /** Each non-empty bucket of `types` has its entry in the histogram. */
  lemma {:induction false} HistogramOverComplete(bs: seq<FileType>, types: seq<FileType>, t: FileType)
    requires t in types && BucketCount(bs, t) > 0
    ensures (t, BucketCount(bs, t)) in HistogramOver(bs, types)
    decreases |types|
  {
    if types[0] != t {
      HistogramOverComplete(bs, types[1..], t);
    }
  }

  lemma {:induction false} HistogramTotal(bs: seq<FileType>, types: seq<FileType>)
    ensures Total(HistogramOver(bs, types)) == TotalOver(bs, types)
    decreases |types|
  {
    if types != [] {
      HistogramTotal(bs, types[1..]);
      var rest: seq<(FileType, nat)> := HistogramOver(bs, types[1..]);
      var c := BucketCount(bs, types[0]);
      var h := HistogramOver(bs, types);
      if c > 0 {
        assert h == [(types[0], c)] + rest;
        assert h[1..] == rest;
      } else {
        assert h == rest;
      }
    }
  }

  lemma {:induction false} HistogramDistinct(bs: seq<FileType>, types: seq<FileType>)
    requires Distinct(types)
    ensures DistinctTypes(HistogramOver(bs, types))
    decreases |types|
  {
    if types != [] {
      assert Distinct(types[1..]);
      HistogramDistinct(bs, types[1..]);
      HistogramOverTypes(bs, types[1..]);
      var rest: seq<(FileType, nat)> := HistogramOver(bs, types[1..]);
      forall i | 0 <= i < |rest| ensures rest[i].0 != types[0] {
        var j :| 0 <= j < |types[1..]| && types[1..][j] == rest[i].0;
        assert types[j + 1] == rest[i].0;
      }
    }
  }

  function Histogram(bs: seq<FileType>): seq<(FileType, nat)> {
    HistogramOver(bs, AllFileTypes)
  }

  /** Insertion into a histogram sorted by non-increasing count. */
  function Insert(x: (FileType, nat), s: seq<(FileType, nat)>): (r: seq<(FileType, nat)>)
    ensures |r| == |s| + 1
    decreases |s|
  {
    if s == [] || x.1 >= s[0].1 then [x] + s else [s[0]] + Insert(x, s[1..])
  }

  /** Insert adds `x` and keeps everything else. */
  lemma {:induction false} InsertPermutes(x: (FileType, nat), s: seq<(FileType, nat)>)
    ensures multiset(Insert(x, s)) == multiset(s) + multiset{x}
    decreases |s|
  {
    if s != [] && x.1 < s[0].1 {
      InsertPermutes(x, s[1..]);
      assert s == [s[0]] + s[1..];
    }
  }

  lemma {:induction false} InsertSorted(x: (FileType, nat), s: seq<(FileType, nat)>)
    requires SortedByCount(s)
    ensures SortedByCount(Insert(x, s))
    decreases |s|
  {
    if s != [] && x.1 < s[0].1 {
      InsertSorted(x, s[1..]);
      InsertPermutes(x, s[1..]);
      var rest := Insert(x, s[1..]);
      forall k | 0 <= k < |rest| ensures rest[k].1 <= s[0].1 {
        assert rest[k] in multiset(rest);
      }
    }
  }

  lemma {:induction false} InsertTotal(x: (FileType, nat), s: seq<(FileType, nat)>)
    ensures Total(Insert(x, s)) == Total(s) + x.1
    decreases |s|
  {
    if s == [] || x.1 >= s[0].1 {
      assert ([x] + s)[1..] == s;
    } else {
      InsertTotal(x, s[1..]);
      assert ([s[0]] + Insert(x, s[1..]))[1..] == Insert(x, s[1..]);
    }
  }

  lemma {:induction false} InsertDistinct(x: (FileType, nat), s: seq<(FileType, nat)>)
    requires DistinctTypes(s) && forall i :: 0 <= i < |s| ==> s[i].0 != x.0
    ensures DistinctTypes(Insert(x, s))
    decreases |s|
  {
    if s != [] && x.1 < s[0].1 {
      InsertDistinct(x, s[1..]);
      InsertPermutes(x, s[1..]);
      var rest := Insert(x, s[1..]);
      forall k | 0 <= k < |rest| ensures rest[k].0 != s[0].0 {
        assert rest[k] in multiset(rest);
        if rest[k] != x {
          var j :| 0 <= j < |s[1..]| && s[1..][j] == rest[k];
          assert s[j + 1] == rest[k];
        }
      }
    }
  }

  /** ORDER BY count DESC, as an insertion sort: a permutation of its input. */
  function SortByCount(s: seq<(FileType, nat)>): (r: seq<(FileType, nat)>)
    ensures |r| == |s|
    decreases |s|
  {
    if s == [] then [] else Insert(s[0], SortByCount(s[1..]))
  }

  /** SortByCount is a permutation of its input. */
  lemma {:induction false} SortByCountPermutes(s: seq<(FileType, nat)>)
    ensures multiset(SortByCount(s)) == multiset(s)
    decreases |s|
  {
    if s != [] {
      SortByCountPermutes(s[1..]);
      InsertPermutes(s[0], SortByCount(s[1..]));
      assert s == [s[0]] + s[1..];
    }
  }

  /** SortByCount orders by non-increasing count, keeps the sum of the
      counts, and keeps bucket names distinct. */
  lemma {:induction false} SortByCountSorted(s: seq<(FileType, nat)>)
    ensures SortedByCount(SortByCount(s))
    ensures Total(SortByCount(s)) == Total(s)
    ensures DistinctTypes(s) ==> DistinctTypes(SortByCount(s))
    decreases |s|
  {
    if s != [] {
      SortByCountSorted(s[1..]);
      SortByCountPermutes(s[1..]);
      var rest := SortByCount(s[1..]);
      InsertSorted(s[0], rest);
      InsertTotal(s[0], rest);
      if DistinctTypes(s) {
        assert DistinctTypes(s[1..]);
        forall i | 0 <= i < |rest| ensures rest[i].0 != s[0].0 {
          assert rest[i] in multiset(s[1..]);
          var j :| 0 <= j < |s[1..]| && s[1..][j] == rest[i];
          assert s[j + 1] == rest[i];
        }
        InsertDistinct(s[0], rest);
      }
    }
  }

  lemma {:induction false} TotalPrefix(h: seq<(FileType, nat)>, n: nat)
    requires n <= |h|
    ensures Total(h[..n]) <= Total(h)
    decreases n
  {
    if n > 0 {
      assert h[..n][1..] == h[1..][..n - 1];
      TotalPrefix(h[1..], n - 1);
    }
  }

  /** ORDER BY count DESC LIMIT 5 over a histogram. */
  function TopFive(h: seq<(FileType, nat)>): (r: seq<(FileType, nat)>)
    ensures |r| <= 5
  {
    Limit(SortByCount(h), 5)
  }

  /** TopFive keeps a prefix of the sorted histogram. */
  lemma TopFivePrefix(h: seq<(FileType, nat)>)
    ensures TopFive(h) == SortByCount(h)[..|TopFive(h)|]
    ensures SortedByCount(SortByCount(h)) && Total(SortByCount(h)) == Total(h)
    ensures multiset(SortByCount(h)) == multiset(h)
    ensures DistinctTypes(h) ==> DistinctTypes(SortByCount(h))
  {
    SortByCountSorted(h);
    SortByCountPermutes(h);
  }

  /** TopFive orders by non-increasing count and keeps bucket names distinct. */
  lemma TopFiveOrdered(h: seq<(FileType, nat)>)
    requires DistinctTypes(h)
    ensures SortedByCount(TopFive(h)) && DistinctTypes(TopFive(h))
  {
    TopFivePrefix(h);
  }

  /** TopFive lists only entries of its histogram. */
  lemma TopFiveFrom(h: seq<(FileType, nat)>)
    ensures forall i :: 0 <= i < |TopFive(h)| ==> TopFive(h)[i] in h
  {
    TopFivePrefix(h);
    var r := TopFive(h);
    forall i | 0 <= i < |r| ensures r[i] in h {
      assert r[i] in multiset(h);
    }
  }

  /** TopFive's counts add up to no more than the histogram's. */
  lemma TopFiveTotal(h: seq<(FileType, nat)>)
    ensures Total(TopFive(h)) <= Total(h)
  {
    TopFivePrefix(h);
    TotalPrefix(SortByCount(h), |TopFive(h)|);
  }

  /** An entry TopFive leaves out is no larger than any it lists, and is
      left out only when five are listed. */
  lemma TopFiveComplete(h: seq<(FileType, nat)>, e: (FileType, nat))
    requires e in h
    requires forall i :: 0 <= i < |TopFive(h)| ==> TopFive(h)[i].0 != e.0
    ensures |TopFive(h)| == 5
    ensures forall i :: 0 <= i < |TopFive(h)| ==> e.1 <= TopFive(h)[i].1
  {
    TopFivePrefix(h);
    var r := TopFive(h);
    var s := SortByCount(h);
    assert e in multiset(s);
    var p :| 0 <= p < |s| && s[p] == e;
    assert forall k :: 0 <= k < |r| ==> r[k] == s[k] && s[k] != e;
    assert p >= |r|;
  }

  /** A histogram of bs names each bucket at most once. */
  lemma HistogramDistinctTypes(bs: seq<FileType>)
    ensures DistinctTypes(Histogram(bs))
  {
    AllFileTypesDistinct();
    HistogramDistinct(bs, AllFileTypes);
  }

  /** The counts of a histogram of bs add up to the number of bs. */
  lemma HistogramSum(bs: seq<FileType>)
    ensures Total(Histogram(bs)) == |bs|
  {
    HistogramTotal(bs, AllFileTypes);
    BucketsPartition(bs);
  }

  /** A histogram of bs has an entry for every non-empty bucket. */
  lemma HistogramComplete(bs: seq<FileType>, t: FileType)
    requires BucketCount(bs, t) > 0
    ensures (t, BucketCount(bs, t)) in Histogram(bs)
  {
    assert t in AllFileTypes;
    HistogramOverComplete(bs, AllFileTypes, t);
  }

  /** Each entry of a histogram of bs is a non-empty bucket with its count. */
  lemma HistogramEntries(bs: seq<FileType>)
    ensures forall i :: 0 <= i < |Histogram(bs)| ==> Histogram(bs)[i].1 == BucketCount(bs, Histogram(bs)[i].0) > 0
  {
    HistogramOverCounts(bs, AllFileTypes);
  }

  /** analytics['file_types']: the buckets of `paths` by count, top five. */
  function FileTypes(paths: seq<string>): (r: seq<(FileType, nat)>)
    ensures |r| <= 5
  {
    TopFive(Histogram(Buckets(paths)))
  }

  /** file_types lists buckets in non-increasing order of count, each at most once. */
  lemma FileTypesOrdered(paths: seq<string>)
    ensures SortedByCount(FileTypes(paths)) && DistinctTypes(FileTypes(paths))
  {
    HistogramDistinctTypes(Buckets(paths));
    TopFiveOrdered(Histogram(Buckets(paths)));
  }

  /** Each bucket file_types lists is non-empty and carries its true count. */
  lemma FileTypesCounts(paths: seq<string>)
    ensures forall i :: 0 <= i < |FileTypes(paths)| ==>
              FileTypes(paths)[i].1 == BucketCount(Buckets(paths), FileTypes(paths)[i].0) > 0
  {
    HistogramEntries(Buckets(paths));
    TopFiveFrom(Histogram(Buckets(paths)));
  }

  /** The counts file_types lists add up to no more than the number of paths. */
  lemma FileTypesBounded(paths: seq<string>)
    ensures Total(FileTypes(paths)) <= |paths|
  {
    HistogramSum(Buckets(paths));
    TopFiveTotal(Histogram(Buckets(paths)));
  }

  /** A non-empty bucket is left out of file_types only when five buckets
      at least as large are listed. */
  lemma FileTypesComplete(paths: seq<string>, t: FileType)
    requires BucketCount(Buckets(paths), t) > 0
    requires forall i :: 0 <= i < |FileTypes(paths)| ==> FileTypes(paths)[i].0 != t
    ensures |FileTypes(paths)| == 5
    ensures forall i :: 0 <= i < |FileTypes(paths)| ==> BucketCount(Buckets(paths), t) <= FileTypes(paths)[i].1
  {
    TopBucketsComplete(Buckets(paths), t, FileTypes(paths));
  }

  /** TopFiveComplete for the histogram of `bs`, whose top five are `r`. */
  lemma TopBucketsComplete(bs: seq<FileType>, t: FileType, r: seq<(FileType, nat)>)
    requires r == TopFive(Histogram(bs))
    requires BucketCount(bs, t) > 0
    requires forall i :: 0 <= i < |r| ==> r[i].0 != t
    ensures |r| == 5
    ensures forall i :: 0 <= i < |r| ==> BucketCount(bs, t) <= r[i].1
  {
    HistogramComplete(bs, t);
    TopFiveComplete(Histogram(bs), (t, BucketCount(bs, t)));
  }

  // ---------------------------------------------------------------------
  // Session analytics

  /** `int(seconds / 60)`: truncation toward zero. */
  function DurationMinutes(startedAt: int, lastActive: int): (d: int)
    ensures lastActive >= startedAt ==> d >= 0 && 60 * d <= lastActive - startedAt < 60 * (d + 1)
    ensures lastActive < startedAt ==> d <= 0 && 60 * (d - 1) < lastActive - startedAt <= 60 * d
  {
    var elapsed := lastActive - startedAt;
    if elapsed >= 0 then elapsed / 60 else -((-elapsed) / 60)
  }

  /** `SELECT ... FROM sessions WHERE id = ?`. */
  function SessionById(sessions: seq<Session>, sid: nat): (r: Option<Session>)
    ensures r.Some? ==> r.value in sessions && r.value.id == sid
    ensures r.None? ==> forall s :: s in sessions ==> s.id != sid
  {
    if sessions == [] then None
    else if sessions[0].id == sid then Some(sessions[0])
    else SessionById(sessions[1..], sid)
  }

  /** The paths of a session's reads and changes: the UNION ALL. */
  function TouchedPaths(t: Tables, sid: nat): (p: seq<string>)
    ensures |p| == Count(t.fileReads, sid) + Count(t.changes, sid)
    ensures forall i :: 0 <= i < Count(t.fileReads, sid) ==> p[i] == OfSession(t.fileReads, sid)[i].info.filePath
    ensures forall i :: 0 <= i < Count(t.changes, sid) ==>
              p[Count(t.fileReads, sid) + i] == OfSession(t.changes, sid)[i].info.filePath
  {
    var readRows := OfSession(t.fileReads, sid);
    var changes := OfSession(t.changes, sid);
    seq(|readRows|, i requires 0 <= i < |readRows| => readRows[i].info.filePath)
    + seq(|changes|, i requires 0 <= i < |changes| => changes[i].info.filePath)
  }

  datatype Report = Report(
    durationMinutes: Option<int>,
    filesRead: nat,
    changesMade: nat,
    testsRun: nat,
    notesAdded: nat,
    errorsLogged: nat,
    testSuccess: Option<(nat, nat)>,
    fileTypes: seq<(FileType, nat)>)

  /** get_session_analytics for session `sid`. */
  function Analyze(t: Tables, sid: nat): (r: Report)
    ensures r.testSuccess.Some? <==> r.testsRun > 0
    ensures r.testSuccess.Some? ==> r.testSuccess.value.1 == r.testsRun && r.testSuccess.value.0 <= r.testsRun
    ensures |r.fileTypes| <= 5 && SortedByCount(r.fileTypes) && DistinctTypes(r.fileTypes)
    ensures Total(r.fileTypes) <= r.filesRead + r.changesMade
    ensures r.durationMinutes.Some? <==> exists s :: s in t.sessions && s.id == sid
  {
    FileTypesOrdered(TouchedPaths(t, sid));
    FileTypesBounded(TouchedPaths(t, sid));
    var duration := match SessionById(t.sessions, sid)
      case Some(s) => Some(DurationMinutes(s.startedAt, s.lastActive))
      case None => None;
    Report(
      duration,
      Count(t.fileReads, sid),
      Count(t.changes, sid),
      Count(t.tests, sid),
      Count(t.notes, sid),
      Count(t.errors, sid),
      PassRate(t.tests, sid),
      FileTypes(TouchedPaths(t, sid)))
  }

  // ---------------------------------------------------------------------
  // query_session

  datatype Kind = Reads | Changes | Tests | Notes | Errors

  /** The query type that names each kind. */
  function KindName(k: Kind): string {
    match k
    case Reads => "reads"
    case Changes => "changes"
    case Tests => "tests"
    case Notes => "notes"
    case Errors => "errors"
  }

  /** The query type; any other value, or none, asks for the summary. */
  function ParseKind(s: Option<string>): (r: Option<Kind>)
    ensures r.Some? ==> s == Some(KindName(r.value))
    ensures forall k :: s == Some(KindName(k)) ==> r == Some(k)
  {
    match s
    case None => None
    case Some(name) =>
      if name == "reads" then Some(Reads)
      else if name == "changes" then Some(Changes)
      else if name == "tests" then Some(Tests)
      else if name == "notes" then Some(Notes)
      else if name == "errors" then Some(Errors)
      else None
  }

  datatype QueryResult =
    | ReadRows(readRows: seq<Row<ReadInfo>>)
    | ChangeRows(changes: seq<Row<ChangeInfo>>)
    | TestRows(tests: seq<Row<TestInfo>>)
    | NoteRows(notes: seq<Row<NoteInfo>>)
    | ErrorRows(errors: seq<Row<ErrorInfo>>)
    | SummaryRows(counts: seq<(string, nat)>)

  /** The summary query: one (type, count) row per table, in a fixed order. */
  function Summary(t: Tables, sid: nat): (r: seq<(string, nat)>)
    ensures |r| == 5
    ensures r[0].0 == "reads" && r[1].0 == "changes" && r[2].0 == "tests" && r[3].0 == "notes" && r[4].0 == "errors"
  {
    [("reads", Count(t.fileReads, sid)),
     ("changes", Count(t.changes, sid)),
     ("tests", Count(t.tests, sid)),
     ("notes", Count(t.notes, sid)),
     ("errors", Count(t.errors, sid))]
  }

  /** The summary's counts are the analytics' counts. */
  lemma SummaryAgreesWithAnalytics(t: Tables, sid: nat)
    ensures var s := Summary(t, sid); var a := Analyze(t, sid);
      s[0].1 == a.filesRead && s[1].1 == a.changesMade && s[2].1 == a.testsRun &&
      s[3].1 == a.notesAdded && s[4].1 == a.errorsLogged
  {
  }

  /** query_session for session `sid`, after the session has been resolved. */
  function Query(t: Tables, sid: nat, kind: Option<string>, limit: int): (r: QueryResult)
    ensures ParseKind(kind).None? <==> r.SummaryRows?
    ensures r.SummaryRows? ==> r.counts == Summary(t, sid)
    ensures r.ReadRows? ==> ParseKind(kind) == Some(Reads) && r.readRows == Recent(t.fileReads, sid, limit)
    ensures r.ChangeRows? ==> ParseKind(kind) == Some(Changes) && r.changes == Recent(t.changes, sid, limit)
    ensures r.TestRows? ==> ParseKind(kind) == Some(Tests) && r.tests == Recent(t.tests, sid, limit)
    ensures r.NoteRows? ==> ParseKind(kind) == Some(Notes) && r.notes == Recent(t.notes, sid, limit)
    ensures r.ErrorRows? ==> ParseKind(kind) == Some(Errors) && r.errors == Recent(t.errors, sid, limit)
  {
    match ParseKind(kind)
    case Some(Reads) => ReadRows(Recent(t.fileReads, sid, limit))
    case Some(Changes) => ChangeRows(Recent(t.changes, sid, limit))
    case Some(Tests) => TestRows(Recent(t.tests, sid, limit))
    case Some(Notes) => NoteRows(Recent(t.notes, sid, limit))
    case Some(Errors) => ErrorRows(Recent(t.errors, sid, limit))
    case None => SummaryRows(Summary(t, sid))
  }
}
