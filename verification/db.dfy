/**
 * The record store's access layer (db.c): locating the database, opening and
 * closing it, recording a compile invocation, and iterating over the records
 * whose file matches a pattern.
 *
 * SQLite is represented by inputs: whether `sqlite3_open`, the busy timeout,
 * the `CREATE TABLE` and `sqlite3_prepare_v2` succeed; a `FileOutcome` per
 * file for the binds and step of an insert; and a `Cursor` for a `SELECT`.
 */
module Db {
  import opened Wrappers
  import opened Env
  import opened Text
  import opened Table

  /** `db_path`: a copy of `CDCC_DB`, or nothing when it is unset. */
  function DbPath(env: map<string, string>): (r: Option<string>)
    ensures r.Some? <==> DB_VARIABLE in env
    ensures r.Some? ==> r.value == env[DB_VARIABLE]
  {
    Getenv(env, DB_VARIABLE)
  }

  /**
   * `db_open`: a connection when the file opens and the `cflags` table exists
   * or is created; a failed busy timeout is only reported. The rows are not
   * touched.
   */
  method Open(store: StoreFile, openOk: bool, busyOk: bool, schemaOk: bool) returns (db: Connection?)
    requires store.Valid()
    modifies store
    ensures db != null <==> openOk && schemaOk
    ensures db != null ==> fresh(db) && db.store == store && db.isOpen && !db.unfinalized
    ensures store.hasSchema == (old(store.hasSchema) || (openOk && schemaOk))
    ensures store.rows == old(store.rows)
    ensures store.Valid()
  {
    if !openOk {
      return null;
    }
    if !schemaOk {
      return null;
    }
    store.hasSchema := true;
    db := new Connection(store);
  }

  /**
   * `db_close`: `sqlite3_close` on a non-null handle, its result ignored. The
   * close succeeds only when every statement prepared on the handle was
   * finalized; otherwise SQLite answers `SQLITE_BUSY` and the handle stays
   * open until the process exits. A null handle is left alone.
   */
  method Close(db: Connection?)
    modifies db
    ensures db != null ==> db.isOpen == (old(db.isOpen) && db.unfinalized)
    ensures db != null ==> db.unfinalized == old(db.unfinalized)
  {
    if db != null && !db.unfinalized {
      db.isOpen := false;
    }
  }

  /**
   * The table after db.c's insert loop has handled `files` with `outcomes`
   * from a prepared statement: a bind failure skips that file, a step failure
   * ends the loop, and an accepted file is upserted with the shared `dir` and
   * `flags` before the statement is reset for the next one.
   */
  function InsertRows(t: seq<Record>, dir: string, files: seq<string>, flags: string,
                      outcomes: seq<FileOutcome>): (r: seq<Record>)
    requires |outcomes| == |files|
    ensures |r| <= |t| + |files|
    decreases |files|
  {
    if files == [] then t
    else match outcomes[0]
      case BindRejected => InsertRows(t, dir, files[1..], flags, outcomes[1..])
      case StepRejected => t
      case Accepted => InsertRows(Upsert(t, Record(dir, files[0], flags)), dir, files[1..], flags, outcomes[1..])
  }

  /**
   * `db_insert`: prepare the insert once, then bind `dir`, the file and the
   * space-joined `argv` and step, file by file. A failed prepare writes nothing.
   * A prepared statement is reset but never finalized.
   */
  method Insert(db: Connection, dir: string, files: seq<string>, argv: seq<string>,
                prepareOk: bool, outcomes: seq<FileOutcome>)
    requires db.isOpen && db.store.hasSchema && db.store.Valid()
    requires |outcomes| == |files|
    modifies db, db.store
    ensures db.store.hasSchema
    ensures db.store.rows == if prepareOk then InsertRows(old(db.store.rows), dir, files, JoinSpace(argv), outcomes)
                             else old(db.store.rows)
    ensures db.store.Valid()
    ensures db.isOpen && db.unfinalized == (old(db.unfinalized) || prepareOk)
  {
    if !prepareOk {
      return;
    }
    db.unfinalized := true;
    var store := db.store;
    var flags := JoinSpace(argv);
    ghost var target := InsertRows(store.rows, dir, files, flags, outcomes);
    var i := 0;
    while i < |files|
      invariant 0 <= i <= |files|
      invariant db.isOpen && db.unfinalized
      invariant store.hasSchema && store.Valid()
      invariant InsertRows(store.rows, dir, files[i..], flags, outcomes[i..]) == target
      decreases |files| - i
    {
      assert files[i..][1..] == files[i + 1..] && outcomes[i..][1..] == outcomes[i + 1..];
      match outcomes[i]
      case BindRejected =>
        i := i + 1;
        continue;
      case StepRejected =>
        break;
      case Accepted =>
        UpsertReplaces(store.rows, Record(dir, files[i], flags));
        store.rows := Upsert(store.rows, Record(dir, files[i], flags));
        i := i + 1;
    }
    assert files[i..] == [] || outcomes[i].StepRejected?;
  }

  /** Upserts keep the primary key. */
  lemma {:induction false} InsertKeepsKeys(t: seq<Record>, dir: string, files: seq<string>, flags: string,
                                           outcomes: seq<FileOutcome>)
    requires |outcomes| == |files|
    requires UniqueKeys(t)
    ensures UniqueKeys(InsertRows(t, dir, files, flags, outcomes))
    decreases |files|
  {
    if files != [] && !outcomes[0].StepRejected? {
      var t' := if outcomes[0].Accepted? then Upsert(t, Record(dir, files[0], flags)) else t;
      UpsertReplaces(t, Record(dir, files[0], flags));
      InsertKeepsKeys(t', dir, files[1..], flags, outcomes[1..]);
    }
  }

  /** Every row an insert leaves was there before or is one of the files with the call's `dir` and `flags`. */
  lemma {:induction false} InsertRowsOrigin(t: seq<Record>, dir: string, files: seq<string>, flags: string,
                                            outcomes: seq<FileOutcome>)
    requires |outcomes| == |files|
    ensures forall x :: x in InsertRows(t, dir, files, flags, outcomes) ==>
      x in t || (x.dir == dir && x.flags == flags && x.file in files)
    decreases |files|
  {
    if files != [] && !outcomes[0].StepRejected? {
      var t' := if outcomes[0].Accepted? then Upsert(t, Record(dir, files[0], flags)) else t;
      InsertRowsOrigin(t', dir, files[1..], flags, outcomes[1..]);
    }
  }

  /**
   * When every file is accepted, each file can be looked up with the call's
   * flags, and every key that is not one of the files keeps its flags.
   */
  lemma {:induction false} InsertAllAccepted(t: seq<Record>, dir: string, files: seq<string>, flags: string,
                                             outcomes: seq<FileOutcome>)
    requires |outcomes| == |files|
    requires forall j :: 0 <= j < |outcomes| ==> outcomes[j] == Accepted
    ensures forall f :: f in files ==> Lookup(InsertRows(t, dir, files, flags, outcomes), Key(dir, f)) == Some(flags)
    ensures forall k: Key :: k.dir != dir || k.file !in files ==>
      Lookup(InsertRows(t, dir, files, flags, outcomes), k) == Lookup(t, k)
    decreases |files|
  {
    if files != [] {
      var row := Record(dir, files[0], flags);
      var t' := Upsert(t, row);
      UpsertReplaces(t, row);
      InsertAllAccepted(t', dir, files[1..], flags, outcomes[1..]);
      var r := InsertRows(t, dir, files, flags, outcomes);
      assert r == InsertRows(t', dir, files[1..], flags, outcomes[1..]);
      forall f | f in files
        ensures Lookup(r, Key(dir, f)) == Some(flags)
      {
        if f !in files[1..] {
          assert f == files[0];
        }
      }
      forall k: Key | k.dir != dir || k.file !in files
        ensures Lookup(r, k) == Lookup(t, k)
      {
        assert k != KeyOf(row);
        assert k.dir != dir || k.file !in files[1..];
      }
    }
  }

  /** Files after a step failure are never stored: the result is that of the files before it. */
  lemma {:induction false} StepFailureStops(t: seq<Record>, dir: string, files: seq<string>, flags: string,
                                            outcomes: seq<FileOutcome>, i: nat)
    requires |outcomes| == |files|
    requires i < |files| && outcomes[i] == StepRejected
    ensures InsertRows(t, dir, files, flags, outcomes) == InsertRows(t, dir, files[..i], flags, outcomes[..i])
    decreases i
  {
    if i > 0 && !outcomes[0].StepRejected? {
      var t' := if outcomes[0].Accepted? then Upsert(t, Record(dir, files[0], flags)) else t;
      StepFailureStops(t', dir, files[1..], flags, outcomes[1..], i - 1);
      assert files[..i][1..] == files[1..][..i - 1];
      assert outcomes[..i][1..] == outcomes[1..][..i - 1];
    }
  }

  /** Dropping an element past the head keeps the head and drops it from the tail. */
  lemma DropInner<T>(s: seq<T>, i: nat)
    requires 0 < i < |s|
    ensures var d := s[..i] + s[i + 1..];
      d != [] && d[0] == s[0] && d[1..] == s[1..][..i - 1] + s[1..][i..]
  {
    var d := s[..i] + s[i + 1..];
    assert d[1..] == s[1..][..i - 1] + s[1..][i..];
  }

  /** A bind failure skips only its own file: the result is that of the call without it. */
  lemma {:induction false} BindFailureSkipsOne(t: seq<Record>, dir: string, files: seq<string>, flags: string,
                                               outcomes: seq<FileOutcome>, i: nat)
    requires |outcomes| == |files|
    requires i < |files| && outcomes[i] == BindRejected
    ensures InsertRows(t, dir, files, flags, outcomes) ==
            InsertRows(t, dir, files[..i] + files[i + 1..], flags, outcomes[..i] + outcomes[i + 1..])
    decreases i
  {
    if i == 0 {
      assert files[..0] + files[1..] == files[1..];
      assert outcomes[..0] + outcomes[1..] == outcomes[1..];
    } else if !outcomes[0].StepRejected? {
      var t' := if outcomes[0].Accepted? then Upsert(t, Record(dir, files[0], flags)) else t;
      BindFailureSkipsOne(t', dir, files[1..], flags, outcomes[1..], i - 1);
      DropInner(files, i);
      DropInner(outcomes, i);
    } else {
      var fs := files[..i] + files[i + 1..];
      var os := outcomes[..i] + outcomes[i + 1..];
      assert fs != [] && os[0] == outcomes[0];
    }
  }

  /** Recording the same file twice leaves one row for it, with the second call's flags. */
  lemma ReinsertReplaces(t: seq<Record>, dir: string, file: string, first: string, second: string)
    ensures var r := InsertRows(InsertRows(t, dir, [file], first, [Accepted]), dir, [file], second, [Accepted]);
      KeyCount(r, Key(dir, file)) == 1 && Lookup(r, Key(dir, file)) == Some(second)
  {
    assert [file][1..] == [] && [Accepted][1..] == [];
    var once := InsertRows(t, dir, [file], first, [Accepted]);
    assert once == InsertRows(Upsert(t, Record(dir, file, first)), dir, [], first, []);
    var twice := InsertRows(once, dir, [file], second, [Accepted]);
    assert twice == InsertRows(Upsert(once, Record(dir, file, second)), dir, [], second, []);
    UpsertReplaces(once, Record(dir, file, second));
  }

  /** Once a key of the call's directory holds the call's flags, the rest of the insert keeps it so. */
  lemma {:induction false} InsertRowsKeepsFlags(t: seq<Record>, dir: string, files: seq<string>, flags: string,
                                                outcomes: seq<FileOutcome>, k: Key)
    requires |outcomes| == |files|
    requires k.dir == dir && Lookup(t, k) == Some(flags)
    ensures Lookup(InsertRows(t, dir, files, flags, outcomes), k) == Some(flags)
    decreases |files|
  {
    if files != [] && !outcomes[0].StepRejected? {
      var row := Record(dir, files[0], flags);
      var t' := if outcomes[0].Accepted? then Upsert(t, row) else t;
      UpsertReplaces(t, row);
      InsertRowsKeepsFlags(t', dir, files[1..], flags, outcomes[1..], k);
    }
  }

  /**
   * A file SQLite accepts is stored with the call's directory and flags,
   * unless a step failed before it: whatever the other files' fates, its
   * record is in the table afterwards.
   */
  lemma {:induction false} AcceptedIsStored(t: seq<Record>, dir: string, files: seq<string>, flags: string,
                                            outcomes: seq<FileOutcome>, i: nat)
    requires |outcomes| == |files|
    requires i < |files| && outcomes[i] == Accepted
    requires forall j :: 0 <= j < i ==> outcomes[j] != StepRejected
    ensures Lookup(InsertRows(t, dir, files, flags, outcomes), Key(dir, files[i])) == Some(flags)
    ensures Record(dir, files[i], flags) in InsertRows(t, dir, files, flags, outcomes)
    decreases i
  {
    var row := Record(dir, files[0], flags);
    var t' := if outcomes[0].Accepted? then Upsert(t, row) else t;
    if i == 0 {
      UpsertReplaces(t, row);
      InsertRowsKeepsFlags(t', dir, files[1..], flags, outcomes[1..], KeyOf(row));
    } else {
      assert outcomes[0] != StepRejected;
      AcceptedIsStored(t', dir, files[1..], flags, outcomes[1..], i - 1);
      assert files[1..][i - 1] == files[i];
    }
  }

  // ---------------------------------------------------------------------
  // Querying
  // ---------------------------------------------------------------------

  /** A `db_query_result_fn`: sees the records delivered so far (its user data) and the current one; FALSE stops. */
  type Callback = (seq<Record>, Record) -> bool

  /** The callback answers TRUE to the record at `j`, having been handed those before it. */
  predicate Continues(fn: Callback, records: seq<Record>, j: nat)
    requires j < |records|
  {
    fn(records[..j], records[j])
  }

  /** Some record is answered FALSE by the callback, every earlier one having been delivered. */
  predicate Stopped(fn: Callback, records: seq<Record>) {
    exists i :: 0 <= i < |records| && !Continues(fn, records, i)
  }

  /** The records delivered from position `i` on, once those before it were all answered TRUE. */
  function DeliveredFrom(fn: Callback, records: seq<Record>, i: nat): seq<Record>
    requires i <= |records|
    decreases |records| - i
  {
    if i == |records| then []
    else if Continues(fn, records, i) then [records[i]] + DeliveredFrom(fn, records, i + 1)
    else [records[i]]
  }

  /** The records `db_query` hands to the callback: all of them, or up to the first one it answers FALSE. */
  function Delivered(fn: Callback, records: seq<Record>): (r: seq<Record>)
    ensures records != [] ==> |r| > 0 && r[0] == records[0]
  {
    DeliveredFrom(fn, records, 0)
  }

  /** The position of the first record, from `i` on, that the callback answers FALSE. */
  function FirstStopFrom(fn: Callback, records: seq<Record>, i: nat): (k: nat)
    requires i <= |records|
    requires exists j :: i <= j < |records| && !Continues(fn, records, j)
    ensures i <= k < |records| && !Continues(fn, records, k)
    ensures forall j :: i <= j < k ==> Continues(fn, records, j)
    decreases |records| - i
  {
    if !Continues(fn, records, i) then i else FirstStopFrom(fn, records, i + 1)
  }

  lemma {:induction false} DeliveredFromStop(fn: Callback, records: seq<Record>, i: nat)
    requires i <= |records|
    requires exists j :: i <= j < |records| && !Continues(fn, records, j)
    ensures records[..i] + DeliveredFrom(fn, records, i) == records[..FirstStopFrom(fn, records, i) + 1]
    decreases |records| - i
  {
    var j :| i <= j < |records| && !Continues(fn, records, j);
    if Continues(fn, records, i) {
      assert i < j;
      DeliveredFromStop(fn, records, i + 1);
      assert DeliveredFrom(fn, records, i) == [records[i]] + DeliveredFrom(fn, records, i + 1);
      assert records[..i] + [records[i]] == records[..i + 1];
    } else {
      assert DeliveredFrom(fn, records, i) == [records[i]];
      assert records[..i] + [records[i]] == records[..i + 1];
    }
  }

  lemma {:induction false} DeliveredFromAll(fn: Callback, records: seq<Record>, i: nat)
    requires i <= |records|
    requires forall j :: i <= j < |records| ==> Continues(fn, records, j)
    ensures records[..i] + DeliveredFrom(fn, records, i) == records
    decreases |records| - i
  {
    if i == |records| {
      assert records[..i] == records;
    } else {
      assert records[..i] + [records[i]] == records[..i + 1];
      DeliveredFromAll(fn, records, i + 1);
    }
  }

  /** A delivered prefix ends at the first record answered FALSE; those before it were answered TRUE. */
  lemma DeliveredUntilStop(fn: Callback, records: seq<Record>, k: nat)
    requires k < |records| && !Continues(fn, records, k)
    requires forall j :: 0 <= j < k ==> Continues(fn, records, j)
    ensures var d := records[..k + 1];
      !Continues(fn, d, k) && forall j :: 0 <= j < k ==> Continues(fn, d, j)
  {
    var d := records[..k + 1];
    assert d[..k] == records[..k] && d[k] == records[k];
    forall j | 0 <= j < k
      ensures Continues(fn, d, j)
    {
      assert d[..j] == records[..j] && d[j] == records[j];
      assert Continues(fn, records, j);
    }
  }

  /**
   * What the callback sees: a prefix of the records, in order; all of them
   * unless the callback stops; otherwise every one but the last was answered
   * TRUE and the last one delivered is the one it answered FALSE.
   */
  lemma DeliveredShape(fn: Callback, records: seq<Record>)
    ensures Delivered(fn, records) <= records
    ensures !Stopped(fn, records) ==> Delivered(fn, records) == records
    ensures Stopped(fn, records) ==> var d := Delivered(fn, records);
      |d| > 0 && !Continues(fn, d, |d| - 1) &&
      forall j :: 0 <= j < |d| - 1 ==> Continues(fn, d, j)
  {
    if Stopped(fn, records) {
      var k := FirstStopFrom(fn, records, 0);
      assert Delivered(fn, records) == records[..k + 1] by {
        DeliveredFromStop(fn, records, 0);
        assert records[..0] == [];
      }
      DeliveredUntilStop(fn, records, k);
    } else {
      assert Delivered(fn, records) == records by {
        DeliveredFromAll(fn, records, 0);
        assert records[..0] == [];
      }
    }
  }

  /** With a callback that never stops, every record is delivered. */
  lemma DeliveredAll(fn: Callback, records: seq<Record>)
    requires forall h, r :: fn(h, r)
    ensures Delivered(fn, records) == records
  {
    DeliveredShape(fn, records);
  }

  /**
   * Where the query loop stands after handing over `visited`: a prefix of the
   * records; while going on, all of them were answered TRUE and the rest of
   * the delivery is still to come; once stopped, the delivery is complete.
   */
  ghost predicate Handed(fn: Callback, all: seq<Record>, visited: seq<Record>, keepGoing: bool) {
    && |visited| <= |all| && all[..|visited|] == visited
    && (keepGoing ==> (forall k :: 0 <= k < |visited| ==> Continues(fn, all, k)) &&
                      Delivered(fn, all) == visited + DeliveredFrom(fn, all, |visited|))
    && (!keepGoing ==> visited == Delivered(fn, all) && Stopped(fn, all))
  }

  /** Handing the next record to the callback keeps the loop's account of the delivery. */
  lemma HandOne(fn: Callback, all: seq<Record>, visited: seq<Record>, rec: Record)
    requires Handed(fn, all, visited, true)
    requires |visited| < |all| && all[|visited|] == rec
    ensures Handed(fn, all, visited + [rec], fn(visited, rec))
  {
    var n := |visited|;
    assert Continues(fn, all, n) == fn(visited, rec);
    assert all[..n + 1] == visited + [rec];
  }

  /** When every record was answered TRUE, all of them were delivered and the callback never stopped. */
  lemma HandedAll(fn: Callback, all: seq<Record>)
    requires Handed(fn, all, all, true)
    ensures all == Delivered(fn, all) && !Stopped(fn, all)
  {
    assert DeliveredFrom(fn, all, |all|) == [];
  }

  /**
   * When the cursor answers for the table, every delivered record is a
   * matching row of the table; when stepping ends with `SQLITE_DONE` and the
   * callback never stops, each matching row is delivered exactly once.
   */
  lemma DeliveredFromTable(fn: Callback, c: Cursor, t: seq<Record>, glob: (string, string) -> bool, pattern: string)
    requires Answers(c, t, glob, pattern) && c.Rows?
    ensures forall x :: x in Delivered(fn, Records(c.rows)) ==> x in t && glob(pattern, x.file)
    ensures c.end == Done && !Stopped(fn, Records(c.rows)) ==>
      multiset(Delivered(fn, Records(c.rows))) == multiset(Matching(t, glob, pattern))
  {
    var all := Records(c.rows);
    DeliveredShape(fn, all);
    AnswersFromTable(c, t, glob, pattern);
    var d := Delivered(fn, all);
    forall x | x in d
      ensures x in all
    {
      var i :| 0 <= i < |d| && d[i] == x;
      assert all[i] == x;
    }
  }

  /**
   * The stepping loop of `db_query` (db.c:130-153) over the rows a successful
   * bind yields: rows with a NULL column are skipped, the others are handed to
   * `fn` until it answers FALSE.
   */
  method HandRows(rows: seq<Row>, fn: Callback) returns (stopped: bool, visited: seq<Record>)
    ensures visited == Delivered(fn, Records(rows))
    ensures stopped == Stopped(fn, Records(rows))
  {
    ghost var all := Records(rows);
    visited := [];
    var j := 0;
    var keepGoing := true;
    while keepGoing && j < |rows|
      invariant 0 <= j <= |rows|
      invariant visited == Records(rows[..j])
      invariant Handed(fn, all, visited, keepGoing)
      decreases |rows| - j, keepGoing
    {
      var row := rows[j];
      RecordsStep(rows, j);
      j := j + 1;
      if !Complete(row) {
        continue;
      }
      var rec := RecordOf(row);
      HandOne(fn, all, visited, rec);
      keepGoing := fn(visited, rec);
      visited := visited + [rec];
    }
    if keepGoing {
      assert rows[..j] == rows;
      HandedAll(fn, all);
    }
    stopped := !keepGoing;
  }

  /**
   * `db_query`: run the `SELECT … WHERE file GLOB pattern` and hand each row
   * with no NULL column to `fn` in step order until it answers FALSE. The
   * answer is TRUE when the rows ran out or `fn` stopped, FALSE when
   * preparing, binding or stepping failed. `select` stands for SQLite running
   * the statement on the table, `glob` for its GLOB operator. The statement is
   * finalized only on the TRUE path; after a failed bind or step it is not.
   */
  method Query(db: Connection, glob: (string, string) -> bool, select: string -> Cursor, pattern: string,
               fn: Callback) returns (ok: bool, visited: seq<Record>)
    requires db.isOpen && Answers(select(pattern), db.store.rows, glob, pattern)
    modifies db
    ensures db.isOpen
    ensures db.unfinalized == (old(db.unfinalized) || select(pattern).BindFailed? || (select(pattern).Rows? && !ok))
    ensures !select(pattern).Rows? ==> !ok && visited == []
    ensures select(pattern).Rows? ==> visited == Delivered(fn, Records(select(pattern).rows))
    ensures select(pattern).Rows? ==>
      (ok <==> Stopped(fn, Records(select(pattern).rows)) || select(pattern).end == Done)
    ensures forall x :: x in visited ==> x in db.store.rows && glob(pattern, x.file)
    ensures ok && select(pattern).Rows? && !Stopped(fn, Records(select(pattern).rows)) ==>
      multiset(visited) == multiset(Matching(db.store.rows, glob, pattern))
  {
    var cursor := select(pattern);
    if cursor.PrepareFailed? {
      return false, [];
    }
    if cursor.BindFailed? {
      db.unfinalized := true;
      return false, [];
    }
    var stopped;
    stopped, visited := HandRows(cursor.rows, fn);
    ok := stopped || cursor.end == Done;
    if !ok {
      db.unfinalized := true;
    }
    DeliveredFromTable(fn, cursor, db.store.rows, glob, pattern);
  }
}
