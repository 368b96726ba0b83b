/**
 * The older, self-contained proxy (cdcc.c): it always runs `gcc` with the
 * caller's arguments, waits for it, and on success records the source files
 * in the store named by `CDCC_DB`, with its own copy of the insert loop.
 *
 * Its opening and closing of the store differ from db.c's only in setting the
 * busy timeout after creating the table (cdcc.c:51 before cdcc.c:60), so under
 * a concurrent writer its `CREATE TABLE` can fail at once where db.c's waits.
 * The model does not express the difference, because whether that statement
 * succeeds is an input, and `Db.Open` and `Db.Close` serve both. Its insert
 * loop differs: it never resets the statement, and it goes on after a failed
 * step.
 */
module Cdcc {
  import opened Wrappers
  import opened Text
  import opened Env
  import opened Proxy
  import opened Classifier
  import opened Table
  import Db

  /**
   * The table after cdcc.c's insert loop, as written. The statement is never
   * reset, and SQLite refuses to bind a statement that has been stepped since
   * its last reset (`SQLITE_MISUSE`); so once one file has reached the step,
   * every later file fails its first bind and is skipped. `ready` says whether
   * the statement can still be bound.
   */
  function InsertRowsAsWritten(t: seq<Record>, dir: string, files: seq<string>, flags: string,
                               outcomes: seq<FileOutcome>, ready: bool): (r: seq<Record>)
    requires |outcomes| == |files|
    ensures |r| <= |t| + |files|
    decreases |files|
  {
    if files == [] then t
    else if !ready then InsertRowsAsWritten(t, dir, files[1..], flags, outcomes[1..], false)
    else match outcomes[0]
      case BindRejected => InsertRowsAsWritten(t, dir, files[1..], flags, outcomes[1..], true)
      case StepRejected => InsertRowsAsWritten(t, dir, files[1..], flags, outcomes[1..], false)
      case Accepted =>
        InsertRowsAsWritten(Upsert(t, Record(dir, files[0], flags)), dir, files[1..], flags, outcomes[1..], false)
  }

  /**
   * The loop as evidently intended: reset after every step, so each file is
   * bound afresh; a bind failure skips its file and a failed step is only
   * reported, the loop going on.
   */
  function InsertRowsWithReset(t: seq<Record>, dir: string, files: seq<string>, flags: string,
                               outcomes: seq<FileOutcome>): (r: seq<Record>)
    requires |outcomes| == |files|
    ensures |r| <= |t| + |files|
    decreases |files|
  {
    if files == [] then t
    else
      var t' := if outcomes[0] == Accepted then Upsert(t, Record(dir, files[0], flags)) else t;
      InsertRowsWithReset(t', dir, files[1..], flags, outcomes[1..])
  }

  /** Once the statement is spent, nothing more is written. */
  lemma {:induction false} SpentStatementWritesNothing(t: seq<Record>, dir: string, files: seq<string>, flags: string,
                                                       outcomes: seq<FileOutcome>)
    requires |outcomes| == |files|
    ensures InsertRowsAsWritten(t, dir, files, flags, outcomes, false) == t
    decreases |files|
  {
    if files != [] {
      SpentStatementWritesNothing(t, dir, files[1..], flags, outcomes[1..]);
    }
  }

  /**
   * As written, only the first file whose binds succeed can be stored: the
   * table is unchanged, or it is the upsert of that one file.
   */
  lemma {:induction false} AsWrittenStoresOnlyFirstStepped(t: seq<Record>, dir: string, files: seq<string>,
                                                           flags: string, outcomes: seq<FileOutcome>, i: nat)
    requires |outcomes| == |files|
    requires i < |files| && outcomes[i] != BindRejected
    requires forall j :: 0 <= j < i ==> outcomes[j] == BindRejected
    ensures InsertRowsAsWritten(t, dir, files, flags, outcomes, true) ==
      if outcomes[i] == Accepted then Upsert(t, Record(dir, files[i], flags)) else t
    decreases i
  {
    if i == 0 {
      var t' := if outcomes[0] == Accepted then Upsert(t, Record(dir, files[0], flags)) else t;
      SpentStatementWritesNothing(t', dir, files[1..], flags, outcomes[1..]);
    } else {
      AsWrittenStoresOnlyFirstStepped(t, dir, files[1..], flags, outcomes[1..], i - 1);
    }
  }

  /**
   * The input that shows it: compiling `a.c b.c` where SQLite would accept both
   * rows stores only `a.c`; with a reset after each step both are stored.
   */
  lemma SecondFileLost(dir: string, flags: string)
    ensures var files, outcomes := ["a.c", "b.c"], [Accepted, Accepted];
      && Lookup(InsertRowsAsWritten([], dir, files, flags, outcomes, true), Key(dir, "b.c")).None?
      && Lookup(InsertRowsWithReset([], dir, files, flags, outcomes), Key(dir, "a.c")) == Some(flags)
      && Lookup(InsertRowsWithReset([], dir, files, flags, outcomes), Key(dir, "b.c")) == Some(flags)
  {
    var files: seq<string>, outcomes := ["a.c", "b.c"], [Accepted, Accepted];
    var a := Record(dir, "a.c", flags);
    AsWrittenStoresOnlyFirstStepped([], dir, files, flags, outcomes, 0);
    assert InsertRowsAsWritten([], dir, files, flags, outcomes, true) == Upsert([], a);
    assert Upsert([], a) == [a];
    assert "a.c"[0] != "b.c"[0];
    assert Lookup([a], Key(dir, "b.c")) == Lookup([], Key(dir, "b.c"));
    InsertWithResetStoresAccepted([], dir, files, flags, outcomes);
  }

  /** Upserts keep the primary key. */
  lemma {:induction false} InsertWithResetKeepsKeys(t: seq<Record>, dir: string, files: seq<string>, flags: string,
                                                    outcomes: seq<FileOutcome>)
    requires |outcomes| == |files|
    requires UniqueKeys(t)
    ensures UniqueKeys(InsertRowsWithReset(t, dir, files, flags, outcomes))
    decreases |files|
  {
    if files != [] {
      var t' := if outcomes[0] == Accepted then Upsert(t, Record(dir, files[0], flags)) else t;
      UpsertReplaces(t, Record(dir, files[0], flags));
      InsertWithResetKeepsKeys(t', dir, files[1..], flags, outcomes[1..]);
    }
  }

  /**
   * With a reset after every step, every accepted file is stored with the
   * call's flags, and every other key keeps what it had.
   */
  lemma {:induction false} InsertWithResetStoresAccepted(t: seq<Record>, dir: string, files: seq<string>, flags: string,
                                                         outcomes: seq<FileOutcome>)
    requires |outcomes| == |files|
    ensures forall i :: 0 <= i < |files| && outcomes[i] == Accepted ==>
      Lookup(InsertRowsWithReset(t, dir, files, flags, outcomes), Key(dir, files[i])) == Some(flags)
    ensures forall k: Key :: (forall i :: 0 <= i < |files| && outcomes[i] == Accepted ==> k != Key(dir, files[i])) ==>
      Lookup(InsertRowsWithReset(t, dir, files, flags, outcomes), k) == Lookup(t, k)
    decreases |files|
  {
    if files != [] {
      var row := Record(dir, files[0], flags);
      var t' := if outcomes[0] == Accepted then Upsert(t, row) else t;
      UpsertReplaces(t, row);
      InsertWithResetStoresAccepted(t', dir, files[1..], flags, outcomes[1..]);
      var r := InsertRowsWithReset(t, dir, files, flags, outcomes);
      assert r == InsertRowsWithReset(t', dir, files[1..], flags, outcomes[1..]);
      forall i | 0 <= i < |files| && outcomes[i] == Accepted
        ensures Lookup(r, Key(dir, files[i])) == Some(flags)
      {
        if i > 0 {
          assert files[1..][i - 1] == files[i] && outcomes[1..][i - 1] == outcomes[i];
        } else if j :| 0 <= j < |files| - 1 && outcomes[1..][j] == Accepted && Key(dir, files[1..][j]) == KeyOf(row) {
          // a later accepted copy of the same file stores it again
        }
      }
      forall k: Key | forall i :: 0 <= i < |files| && outcomes[i] == Accepted ==> k != Key(dir, files[i])
        ensures Lookup(r, k) == Lookup(t, k)
      {
        forall j | 0 <= j < |files| - 1 && outcomes[1..][j] == Accepted
          ensures k != Key(dir, files[1..][j])
        {
          assert files[1..][j] == files[j + 1] && outcomes[1..][j] == outcomes[j + 1];
        }
        if outcomes[0] == Accepted {
          assert k != KeyOf(row);
        }
      }
    }
  }

  /**
   * cdcc.c's `db_insert` as written: one prepared statement, bound and stepped
   * file by file, never reset; bind failures skip the file, step failures are
   * reported and the loop goes on. The statement is never finalized.
   */
  method Insert(db: Connection, dir: string, files: seq<string>, args: seq<string>,
                prepareOk: bool, outcomes: seq<FileOutcome>)
    requires db.isOpen && db.store.hasSchema && db.store.Valid()
    requires |outcomes| == |files|
    modifies db, db.store
    ensures db.store.hasSchema
    ensures db.store.rows ==
      if prepareOk then InsertRowsAsWritten(old(db.store.rows), dir, files, JoinSpace(args), outcomes, true)
      else old(db.store.rows)
    ensures db.store.Valid()
    ensures db.isOpen && db.unfinalized == (old(db.unfinalized) || prepareOk)
  {
    if !prepareOk {
      return;
    }
    db.unfinalized := true;
    var store := db.store;
    var flags := JoinSpace(args);
    ghost var target := InsertRowsAsWritten(store.rows, dir, files, flags, outcomes, true);
    var ready := true;  // no step since the statement was prepared or reset
    var i := 0;
    while i < |files|
      invariant 0 <= i <= |files|
      invariant db.isOpen && db.unfinalized
      invariant store.hasSchema && store.Valid()
      invariant InsertRowsAsWritten(store.rows, dir, files[i..], flags, outcomes[i..], ready) == target
      decreases |files| - i
    {
      assert files[i..][1..] == files[i + 1..] && outcomes[i..][1..] == outcomes[i + 1..];
      if !ready {
        i := i + 1;  // the first bind is refused with SQLITE_MISUSE
        continue;
      }
      match outcomes[i] {
        case BindRejected =>
        case StepRejected =>
          ready := false;
        case Accepted =>
          UpsertReplaces(store.rows, Record(dir, files[i], flags));
          store.rows := Upsert(store.rows, Record(dir, files[i], flags));
          ready := false;
      }
      i := i + 1;
    }
  }

  /** The command recorded for every file starts with `gcc`, followed by the caller's arguments. */
  lemma CommandNamesGcc(argv: seq<string>)
    requires |argv| >= 1
    ensures HasPrefix(JoinSpace(["gcc"] + argv[1..]), "gcc")
    ensures |argv| > 1 ==> JoinSpace(["gcc"] + argv[1..]) == "gcc " + JoinSpace(argv[1..])
  {
    var args := ["gcc"] + argv[1..];
    JoinSpaceHead(args);
    if |argv| > 1 {
      JoinSpaceAppend(["gcc"], argv[1..]);
      assert JoinSpace(["gcc"]) == "gcc";
    }
  }

  /** How the process ends: `main` returns a value, or `g_error` aborts it. */
  datatype Exit = Exit(code: int) | Aborted

  /** Whether `main` reaches the insert: `CDCC_DB` is set, a source file was found, and the store opened. */
  predicate ReachesInsert(argv: seq<string>, env: map<string, string>, openOk: bool, schemaOk: bool) {
    DB_VARIABLE in env && SourceFiles(argv) != [] && openOk && schemaOk
  }

  /**
   * cdcc.c's `main`: run `gcc` with the caller's arguments; abort when the
   * spawn or the wait fails; return a nonzero status as it is, without
   * touching the store; on 0, record the source files when `CDCC_DB` is set
   * and return 0 whatever happens to the recording.
   */
  method Run(argv: seq<string>, spawnOk: bool, waits: seq<WaitResult>, env: map<string, string>,
             cwd: string, store: StoreFile, openOk: bool, busyOk: bool, schemaOk: bool,
             prepareOk: bool, outcomes: seq<FileOutcome>)
    returns (exit: Exit, args: seq<string>)
    requires |argv| >= 1
    requires spawnOk ==> Settles(waits)
    requires store.Valid()
    requires |outcomes| == |SourceFiles(argv)|
    modifies store
    ensures args == ["gcc"] + argv[1..]
    ensures store.Valid()
    ensures !spawnOk ==> exit == Aborted && unchanged(store)
    ensures spawnOk ==>
      var w := waits[FirstSettled(waits)];
      && (w.WaitFailed? ==> exit == Aborted && unchanged(store))
      && (w.Reaped? && w.status != 0 ==> exit == Exit(w.status) && unchanged(store))
      && (w.Reaped? && w.status == 0 ==> exit == Exit(0))
    ensures spawnOk && waits[FirstSettled(waits)] == Reaped(0) ==>
      && store.hasSchema == (old(store.hasSchema) || ReachesInsert(argv, env, openOk, schemaOk))
      && store.rows == if ReachesInsert(argv, env, openOk, schemaOk) && prepareOk
                       then InsertRowsAsWritten(old(store.rows), cwd, SourceFiles(argv), JoinSpace(args), outcomes, true)
                       else old(store.rows)
  {
    var a := new string[|argv|];
    a[0] := "gcc";
    var i := 1;
    while i < |argv|
      modifies a
      invariant 1 <= i <= |argv|
      invariant a[0] == "gcc" && forall j :: 1 <= j < i ==> a[j] == argv[j]
      decreases |argv| - i
    {
      a[i] := argv[i];
      i := i + 1;
    }
    args := a[..];
    assert args == ["gcc"] + argv[1..];

    if !spawnOk {
      return Aborted, args;
    }
    var k := 0;
    while waits[k].Interrupted?  // `goto again` on EINTR
      invariant k <= FirstSettled(waits)
      decreases FirstSettled(waits) - k
    {
      k := k + 1;
    }
    if waits[k].WaitFailed? {
      return Aborted, args;
    }
    var status := waits[k].status;
    if status != 0 {
      return Exit(status), args;
    }
    var dbPath := Getenv(env, DB_VARIABLE);
    if dbPath.None? {
      return Exit(0), args;
    }
    var files := CollectSources(argv);
    if |files| > 0 {
      var db := Db.Open(store, openOk, busyOk, schemaOk);
      if db == null {
        return Exit(0), args;
      }
      Insert(db, cwd, files, args, prepareOk, outcomes);
      Db.Close(db);
    }
    return Exit(0), args;
  }
}
