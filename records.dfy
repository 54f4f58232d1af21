// The rows of the ledger's six tables: sessions, and the five kinds of
// event a session owns (file reads, changes, test runs, notes, errors).
module Records {
  import opened Wrappers

  newtype byte = b: int | 0 <= b < 256

  /** A session's status; only Active is ever written by the ledger. */
  datatype Status = Active | Inactive(name: string)

  datatype Session = Session(
    id: nat,
    projectPath: string,
    startedAt: int,
    lastActive: int,
    description: string,
    status: Status)

  datatype ChangeKind = Create | Modify | Delete

  datatype TestResult = Pass | Fail | Error

  /** An event row: its AUTOINCREMENT id, the session that owns it, its
      timestamp (read_at, changed_at, run_at, created_at, occurred_at) and
      the columns particular to its table. */
  datatype Row<P> = Row(id: nat, sessionId: nat, at: int, info: P)

  datatype ReadInfo = ReadInfo(filePath: string, fileHash: Option<string>, context: string)

  datatype ChangeInfo = ChangeInfo(
    filePath: string,
    kind: ChangeKind,
    description: Option<string>,
    beforeHash: Option<string>,
    afterHash: Option<string>)

  datatype TestInfo = TestInfo(command: string, result: TestResult, output: Option<string>)

  /** A note; `tags` is the list its JSON column encodes, None for NULL. */
  datatype NoteInfo = NoteInfo(content: string, tags: Option<seq<string>>)

  datatype ErrorInfo = ErrorInfo(
    errorType: string,
    message: string,
    filePath: Option<string>,
    context: Option<string>)

  /** The whole store as a value. */
  datatype Tables = Tables(
    sessions: seq<Session>,
    fileReads: seq<Row<ReadInfo>>,
    changes: seq<Row<ChangeInfo>>,
    tests: seq<Row<TestInfo>>,
    notes: seq<Row<NoteInfo>>,
    errors: seq<Row<ErrorInfo>>)

  /** Rows are never deleted, so AUTOINCREMENT gives row i the id i + 1. */
  predicate Numbered<P>(rows: seq<Row<P>>) {
    forall i :: 0 <= i < |rows| ==> rows[i].id == i + 1
  }

  /** Rows were inserted in time order. CURRENT_TIMESTAMP has a resolution
      of one second, so rows written in the same second share a timestamp. */
  predicate Chronological<P>(rows: seq<Row<P>>) {
    forall i, j :: 0 <= i < j < |rows| ==> rows[i].at <= rows[j].at
  }

  /** Every row references an existing session (the foreign key). */
  predicate Owned<P>(rows: seq<Row<P>>, sessionCount: nat) {
    forall i :: 0 <= i < |rows| ==> 1 <= rows[i].sessionId <= sessionCount
  }

  /** No row was written after time `now`. */
  predicate NotAfter<P>(rows: seq<Row<P>>, now: int) {
    forall i :: 0 <= i < |rows| ==> rows[i].at <= now
  }

  /** The invariant every event table keeps. */
  predicate WellFormed<P>(rows: seq<Row<P>>, sessionCount: nat) {
    Numbered(rows) && Chronological(rows) && Owned(rows, sessionCount)
  }

  /** Appending the next row, stamped `now` and owned by an existing
      session, keeps a table well formed and not after `now`. */
  lemma AppendKeepsWellFormed<P>(rows: seq<Row<P>>, row: Row<P>, sessionCount: nat, now: int)
    requires WellFormed(rows, sessionCount) && NotAfter(rows, now)
    requires row.id == |rows| + 1 && 1 <= row.sessionId <= sessionCount && row.at == now
    ensures WellFormed(rows + [row], sessionCount) && NotAfter(rows + [row], now)
  {
  }
}
