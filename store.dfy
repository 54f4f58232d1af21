// The session ledger itself: the SessionMemory object over its database.
// Session resolution (get_current_session) is specified by the function
// Resolve; every logging and query method first resolves the session of the
// working directory and then inserts one row into, or reads from, the tables.
module Store {
  import opened Wrappers
  import opened Text
  import opened Records
  import opened Context
  import opened Analytics

  // ---------------------------------------------------------------------
  // Session resolution

  /** The description of a new session: "Session for " and the last
      component of the project path (os.path.basename). */
  function Describe(projectPath: string): (d: string)
    ensures StartsWith(d, "Session for ") && EndsWith(d, AfterLastSlash(projectPath))
    ensures |d| == |"Session for "| + |AfterLastSlash(projectPath)|
  {
    "Session for " + AfterLastSlash(projectPath)
  }

  /** The sessions table as the ledger keeps it: ids by AUTOINCREMENT, no
      session active before it started, at most one active session per
      project. */
  predicate SessionsValid(s: seq<Session>) {
    (forall i :: 0 <= i < |s| ==> s[i].id == i + 1 && s[i].startedAt <= s[i].lastActive) &&
    (forall i, j :: 0 <= i < j < |s| && s[i].status == Active && s[j].status == Active ==>
       s[i].projectPath != s[j].projectPath)
  }

  /** No session was touched after time `now`. */
  predicate SessionsNotAfter(s: seq<Session>, now: int) {
    forall i :: 0 <= i < |s| ==> s[i].lastActive <= now
  }

  /** get_current_session at time `now` in working directory `cwd`: the new
      sessions table and the id of the session. The most recently active
      session of the project is touched; when there is none, a new session
      is created. */
  function Resolve(s: seq<Session>, cwd: string, now: int): (r: (seq<Session>, nat))
    ensures |r.0| == |s| || |r.0| == |s| + 1
    ensures |r.0| == |s| + 1 ==>
              (forall i :: 0 <= i < |s| ==> !IsCurrentFor(s[i], cwd)) &&
              r.0 == s + [Session(|s| + 1, cwd, now, now, Describe(cwd), Active)] && r.1 == |s| + 1
    ensures |r.0| == |s| ==>
              exists k :: 0 <= k < |s| && IsCurrentFor(s[k], cwd) && r.1 == s[k].id &&
                r.0 == s[k := s[k].(lastActive := now)] &&
                forall j :: 0 <= j < |s| && IsCurrentFor(s[j], cwd) ==> s[j].lastActive <= s[k].lastActive
  {
    match MostRecentActive(s, cwd)
    case Some(k) => (s[k := s[k].(lastActive := now)], s[k].id)
    case None => (s + [Session(|s| + 1, cwd, now, now, Describe(cwd), Active)], |s| + 1)
  }

  /** With one active session per project, that session is the one found. */
  lemma OnlyCurrent(s: seq<Session>, cwd: string, k: nat)
    requires SessionsValid(s) && k < |s| && IsCurrentFor(s[k], cwd)
    ensures MostRecentActive(s, cwd) == Some(k)
  {
    var m := MostRecentActive(s, cwd);
    assert m.Some?;
  }

  /** What resolution promises: the returned id names an active session of
      the project, touched at `now`; every other session is as it was; no
      project path changes; a session is created exactly when the project
      had no active one; and the table stays valid. */
  lemma ResolveCurrent(s: seq<Session>, cwd: string, now: int)
    requires SessionsValid(s) && SessionsNotAfter(s, now)
    ensures SessionsValid(Resolve(s, cwd, now).0) && SessionsNotAfter(Resolve(s, cwd, now).0, now)
    ensures 1 <= Resolve(s, cwd, now).1 <= |Resolve(s, cwd, now).0|
    ensures IsCurrentFor(Resolve(s, cwd, now).0[Resolve(s, cwd, now).1 - 1], cwd)
    ensures Resolve(s, cwd, now).0[Resolve(s, cwd, now).1 - 1].lastActive == now
    ensures forall i :: 0 <= i < |s| && i != Resolve(s, cwd, now).1 - 1 ==> Resolve(s, cwd, now).0[i] == s[i]
    ensures forall i :: 0 <= i < |s| ==> Resolve(s, cwd, now).0[i].projectPath == s[i].projectPath
    ensures |Resolve(s, cwd, now).0| == |s| + 1 <==> forall i :: 0 <= i < |s| ==> !IsCurrentFor(s[i], cwd)
    ensures |Resolve(s, cwd, now).0| == |s| || |Resolve(s, cwd, now).0| == |s| + 1
    ensures |Resolve(s, cwd, now).0| == |s| + 1 ==>
              Resolve(s, cwd, now).1 == |s| + 1 &&
              Resolve(s, cwd, now).0[|s|] == Session(|s| + 1, cwd, now, now, Describe(cwd), Active)
    ensures Resolve(s, cwd, now).1 <= |s| ==>
              Resolve(s, cwd, now).0[Resolve(s, cwd, now).1 - 1] == s[Resolve(s, cwd, now).1 - 1].(lastActive := now)
  {
    match MostRecentActive(s, cwd)
    case Some(k) =>
    case None =>
      var t := Resolve(s, cwd, now).0;
      assert forall i :: 0 <= i < |s| ==> t[i] == s[i];
  }

  /** Resolving again in the same directory, later, returns the same
      session and creates nothing. */
  lemma ResolveStable(s: seq<Session>, cwd: string, t1: int, t2: int)
    requires SessionsValid(s) && SessionsNotAfter(s, t1) && t1 <= t2
    ensures Resolve(Resolve(s, cwd, t1).0, cwd, t2).1 == Resolve(s, cwd, t1).1
    ensures |Resolve(Resolve(s, cwd, t1).0, cwd, t2).0| == |Resolve(s, cwd, t1).0|
  {
    ResolveCurrent(s, cwd, t1);
    var s1 := Resolve(s, cwd, t1).0;
    var sid := Resolve(s, cwd, t1).1;
    OnlyCurrent(s1, cwd, sid - 1);
  }

  /** Two projects never share a session. */
  lemma ResolveSeparates(s: seq<Session>, p1: string, p2: string, t1: int, t2: int)
    requires SessionsValid(s) && SessionsNotAfter(s, t1) && t1 <= t2 && p1 != p2
    ensures Resolve(Resolve(s, p1, t1).0, p2, t2).1 != Resolve(s, p1, t1).1
  {
    ResolveCurrent(s, p1, t1);
    var s1 := Resolve(s, p1, t1).0;
    var sid1 := Resolve(s, p1, t1).1;
    ResolveCurrent(s1, p2, t2);
    var s2 := Resolve(s1, p2, t2).0;
    assert s2[sid1 - 1].projectPath == p1;
  }

  // ---------------------------------------------------------------------
  // What the logging methods store

  /** What the file system gives for a path: nothing that can be opened, a
      directory, or a regular file with its bytes and the text of its first
      ten lines (read as UTF-8, undecodable bytes dropped). */
  datatype FileState = Absent | Directory | Regular(bytes: seq<byte>, firstLines: string)

  /** The text infer_context gets to see, if it can open the file. */
  function Readable(f: FileState): (t: Option<string>)
    ensures t.Some? <==> f.Regular?
    ensures t.Some? ==> t.value == f.firstLines
  {
    if f.Regular? then Some(f.firstLines) else None
  }

  /** The context a read records: the caller's, when given (even an empty
      one), and otherwise the inferred one. */
  function ReadContext(path: string, f: FileState, context: Option<string>): (c: string)
    ensures context.Some? ==> c == context.value
    ensures context.None? ==> c == InferContext(path, f.Directory?, Readable(f))
  {
    match context
    case Some(given) => given
    case None => InferContext(path, f.Directory?, Readable(f))
  }

  /** The before_hash of a change: the hash of the latest read of the file
      in the session, looked up only for 'modify' and 'delete'. */
  function BeforeHash(kind: ChangeKind, log: seq<Row<ReadInfo>>, sid: nat, path: string): (h: Option<string>)
    ensures kind == Create ==> h == None
    ensures kind != Create ==> h == LastReadHash(log, sid, path)
  {
    match kind
    case Modify => LastReadHash(log, sid, path)
    case Delete => LastReadHash(log, sid, path)
    case Create => None
  }

  /** A change records the hash of the read just before it. */
  lemma ChangeSeesLatestRead(log: seq<Row<ReadInfo>>, row: Row<ReadInfo>, kind: ChangeKind)
    requires kind != Create
    ensures BeforeHash(kind, log + [row], row.sessionId, row.info.filePath) == row.info.fileHash
  {
    var all := log + [row];
    assert IsReadOf(all[|all| - 1], row.sessionId, row.info.filePath);
  }

  /** A change of a file never read in the session has no before_hash. */
  lemma ChangeWithoutRead(log: seq<Row<ReadInfo>>, kind: ChangeKind, sid: nat, path: string)
    requires forall i :: 0 <= i < |log| ==> !IsReadOf(log[i], sid, path)
    ensures BeforeHash(kind, log, sid, path) == None
  {
    assert LatestRead(log, sid, path).None?;
  }

  /** `json.dumps(tags) if tags else None`: no tags and an empty list are
      both stored as NULL. */
  function StoredTags(tags: Option<seq<string>>): (r: Option<seq<string>>)
    ensures r.Some? <==> tags.Some? && tags.value != []
    ensures r.Some? ==> r == tags
  {
    match tags
    case Some(list) => if list == [] then None else Some(list)
    case None => None
  }

  /** `os.path.abspath(file_path) if file_path else None`: no path and the
      empty path are both stored as NULL. */
  function StoredErrorPath(path: Option<string>): (r: Option<string>)
    ensures r.Some? <==> path.Some? && path.value != []
    ensures r.Some? ==> r == path
  {
    match path
    case Some(p) => if p == [] then None else Some(p)
    case None => None
  }

  /** The session found by id is the session with that row number. */
  lemma SessionByIdNumbered(s: seq<Session>, sid: nat)
    requires SessionsValid(s) && 1 <= sid <= |s|
    ensures SessionById(s, sid) == Some(s[sid - 1])
  {
    var r := SessionById(s, sid);
    assert s[sid - 1] in s;
    var i :| 0 <= i < |s| && s[i] == r.value;
  }

  // ---------------------------------------------------------------------
  // The ledger

  class SessionStore {
    /** hashlib.md5(contents).hexdigest(), kept abstract. */
    const digest: seq<byte> -> string

    var sessions: seq<Session>
    var fileReads: seq<Row<ReadInfo>>
    var changes: seq<Row<ChangeInfo>>
    var tests: seq<Row<TestInfo>>
    var notes: seq<Row<NoteInfo>>
    var errors: seq<Row<ErrorInfo>>

    /** The schema's invariants: numbered rows in time order, each owned
        by an existing session, and a valid sessions table. */
    ghost predicate Valid()
      reads this
    {
      SessionsValid(sessions) &&
      WellFormed(fileReads, |sessions|) && WellFormed(changes, |sessions|) &&
      WellFormed(tests, |sessions|) && WellFormed(notes, |sessions|) &&
      WellFormed(errors, |sessions|)
    }

    /** Nothing in the database is timestamped after `now`. */
    ghost predicate NotAfterNow(now: int)
      reads this
    {
      SessionsNotAfter(sessions, now) &&
      NotAfter(fileReads, now) && NotAfter(changes, now) && NotAfter(tests, now) &&
      NotAfter(notes, now) && NotAfter(errors, now)
    }

    /** The database as a value. */
    function Snapshot(): Tables
      reads this
    {
      Tables(sessions, fileReads, changes, tests, notes, errors)
    }

    /** init_database on a new database file: six empty tables. */
    constructor(digest: seq<byte> -> string)
      ensures Valid() && this.digest == digest
      ensures sessions == [] && fileReads == [] && changes == [] && tests == [] && notes == [] && errors == []
    {
      this.digest := digest;
      sessions := [];
      fileReads := [];
      changes := [];
      tests := [];
      notes := [];
      errors := [];
    }

    /** file_hash: the digest of the file's bytes, None when it cannot be opened. */
    function FileHash(f: FileState): (h: Option<string>)
      ensures h.Some? <==> f.Regular?
      ensures f.Regular? ==> h == Some(digest(f.bytes))
    {
      if f.Regular? then Some(digest(f.bytes)) else None
    }

    /** The after_hash of a change: the file's hash after a 'create' or 'modify'. */
    function AfterHash(kind: ChangeKind, f: FileState): (h: Option<string>)
      ensures kind == Delete ==> h == None
      ensures kind != Delete ==> h == FileHash(f)
    {
      match kind
      case Create => FileHash(f)
      case Modify => FileHash(f)
      case Delete => None
    }

    /** get_current_session. */
    method CurrentSession(cwd: string, now: int) returns (sid: nat)
      requires Valid() && NotAfterNow(now)
      modifies this
      ensures Valid() && NotAfterNow(now)
      ensures (sessions, sid) == Resolve(old(sessions), cwd, now)
      ensures 1 <= sid <= |sessions|
      ensures fileReads == old(fileReads) && changes == old(changes) && tests == old(tests)
      ensures notes == old(notes) && errors == old(errors)
    {
      ResolveCurrent(sessions, cwd, now);
      var found := MostRecentActive(sessions, cwd);
      match found {
        case Some(k) =>
          sid := sessions[k].id;
          sessions := sessions[k := sessions[k].(lastActive := now)];
        case None =>
          sid := |sessions| + 1;
          sessions := sessions + [Session(sid, cwd, now, now, Describe(cwd), Active)];
      }
    }

    /** log_read: records a read of `path` with its hash and context, and
        returns the new row's id. */
    method LogRead(cwd: string, path: string, file: FileState, context: Option<string>, now: int)
      returns (id: nat)
      requires Valid() && NotAfterNow(now)
      modifies this
      ensures Valid() && NotAfterNow(now)
      ensures sessions == Resolve(old(sessions), cwd, now).0
      ensures id == |old(fileReads)| + 1
      ensures fileReads == old(fileReads) + [Row(id, Resolve(old(sessions), cwd, now).1, now,
                ReadInfo(path, FileHash(file), ReadContext(path, file, context)))]
      ensures changes == old(changes) && tests == old(tests) && notes == old(notes) && errors == old(errors)
    {
      var sid := CurrentSession(cwd, now);
      var hash := FileHash(file);
      var ctx := ReadContext(path, file, context);
      id := |fileReads| + 1;
      var row := Row(id, sid, now, ReadInfo(path, hash, ctx));
      AppendKeepsWellFormed(fileReads, row, |sessions|, now);
      fileReads := fileReads + [row];
    }

    /** log_change: records a change of `path`; `file` is the file as it is
        after the change. */
    method LogChange(cwd: string, path: string, kind: ChangeKind, description: Option<string>,
                     file: FileState, now: int)
      returns (id: nat)
      requires Valid() && NotAfterNow(now)
      modifies this
      ensures Valid() && NotAfterNow(now)
      ensures sessions == Resolve(old(sessions), cwd, now).0
      ensures id == |old(changes)| + 1
      ensures changes == old(changes) + [Row(id, Resolve(old(sessions), cwd, now).1, now,
                ChangeInfo(path, kind, description,
                  BeforeHash(kind, old(fileReads), Resolve(old(sessions), cwd, now).1, path),
                  AfterHash(kind, file)))]
      ensures fileReads == old(fileReads) && tests == old(tests) && notes == old(notes) && errors == old(errors)
    {
      var sid := CurrentSession(cwd, now);
      var before := BeforeHash(kind, fileReads, sid, path);
      var after := AfterHash(kind, file);
      id := |changes| + 1;
      var row := Row(id, sid, now, ChangeInfo(path, kind, description, before, after));
      AppendKeepsWellFormed(changes, row, |sessions|, now);
      changes := changes + [row];
    }

    /** log_test: records a test run. */
    method LogTest(cwd: string, command: string, result: TestResult, output: Option<string>, now: int)
      returns (id: nat)
      requires Valid() && NotAfterNow(now)
      modifies this
      ensures Valid() && NotAfterNow(now)
      ensures sessions == Resolve(old(sessions), cwd, now).0
      ensures id == |old(tests)| + 1
      ensures tests == old(tests) + [Row(id, Resolve(old(sessions), cwd, now).1, now, TestInfo(command, result, output))]
      ensures fileReads == old(fileReads) && changes == old(changes) && notes == old(notes) && errors == old(errors)
    {
      var sid := CurrentSession(cwd, now);
      id := |tests| + 1;
      var row := Row(id, sid, now, TestInfo(command, result, output));
      AppendKeepsWellFormed(tests, row, |sessions|, now);
      tests := tests + [row];
    }

    /** add_note: records a note with its tags, if any. */
    method AddNote(cwd: string, content: string, tags: Option<seq<string>>, now: int)
      returns (id: nat)
      requires Valid() && NotAfterNow(now)
      modifies this
      ensures Valid() && NotAfterNow(now)
      ensures sessions == Resolve(old(sessions), cwd, now).0
      ensures id == |old(notes)| + 1
      ensures notes == old(notes) + [Row(id, Resolve(old(sessions), cwd, now).1, now, NoteInfo(content, StoredTags(tags)))]
      ensures fileReads == old(fileReads) && changes == old(changes) && tests == old(tests) && errors == old(errors)
    {
      var sid := CurrentSession(cwd, now);
      id := |notes| + 1;
      var row := Row(id, sid, now, NoteInfo(content, StoredTags(tags)));
      AppendKeepsWellFormed(notes, row, |sessions|, now);
      notes := notes + [row];
    }

    /** log_error: records an error, with the file it concerns if one is named. */
    method LogError(cwd: string, errorType: string, message: string, path: Option<string>,
                    context: Option<string>, now: int)
      returns (id: nat)
      requires Valid() && NotAfterNow(now)
      modifies this
      ensures Valid() && NotAfterNow(now)
      ensures sessions == Resolve(old(sessions), cwd, now).0
      ensures id == |old(errors)| + 1
      ensures errors == old(errors) + [Row(id, Resolve(old(sessions), cwd, now).1, now,
                ErrorInfo(errorType, message, StoredErrorPath(path), context))]
      ensures fileReads == old(fileReads) && changes == old(changes) && tests == old(tests) && notes == old(notes)
    {
      var sid := CurrentSession(cwd, now);
      id := |errors| + 1;
      var row := Row(id, sid, now, ErrorInfo(errorType, message, StoredErrorPath(path), context));
      AppendKeepsWellFormed(errors, row, |sessions|, now);
      errors := errors + [row];
    }

    /** query_session: the session's newest rows of one kind, or the summary. */
    method QuerySession(cwd: string, kind: Option<string>, limit: int, now: int) returns (r: QueryResult)
      requires Valid() && NotAfterNow(now)
      modifies this
      ensures Valid() && NotAfterNow(now)
      ensures sessions == Resolve(old(sessions), cwd, now).0
      ensures fileReads == old(fileReads) && changes == old(changes) && tests == old(tests)
      ensures notes == old(notes) && errors == old(errors)
      ensures r == Query(Snapshot(), Resolve(old(sessions), cwd, now).1, kind, limit)
    {
      var sid := CurrentSession(cwd, now);
      r := Query(Snapshot(), sid, kind, limit);
    }

    /** get_session_analytics: the report on the current session, whose
        duration is always known and never negative, since the session was
        just touched. */
    method SessionAnalytics(cwd: string, now: int) returns (r: Report)
      requires Valid() && NotAfterNow(now)
      modifies this
      ensures Valid() && NotAfterNow(now)
      ensures sessions == Resolve(old(sessions), cwd, now).0
      ensures fileReads == old(fileReads) && changes == old(changes) && tests == old(tests)
      ensures notes == old(notes) && errors == old(errors)
      ensures r == Analyze(Snapshot(), Resolve(old(sessions), cwd, now).1)
      ensures r.durationMinutes.Some? && r.durationMinutes.value >= 0
    {
      var sid := CurrentSession(cwd, now);
      ResolveCurrent(old(sessions), cwd, now);
      SessionByIdNumbered(sessions, sid);
      r := Analyze(Snapshot(), sid);
    }
  }
}
