/**
 * The record store: the `cflags(dir, file, flags)` table with its
 * `PRIMARY KEY(dir, file) ON CONFLICT REPLACE` rule, the database file that
 * holds it, an open connection to it, and the values SQLite hands back while
 * a statement runs.
 *
 * The table is a sequence of rows in storage order. SQLite's REPLACE policy
 * deletes the rows whose key conflicts with the new row and then inserts it;
 * that the key stays unique is a property proved here, not assumed.
 */
module Table {
  import opened Wrappers

  /** One row of `cflags`, and the `Record` that `db_query` passes to its callback. */
  datatype Record = Record(dir: string, file: string, flags: string)

  datatype Key = Key(dir: string, file: string)

  function KeyOf(r: Record): Key {
    Key(r.dir, r.file)
  }

  /** How many rows carry key `k`. */
  function KeyCount(t: seq<Record>, k: Key): nat {
    if t == [] then 0
    else (if KeyOf(t[0]) == k then 1 else 0) + KeyCount(t[1..], k)
  }

  /** The primary key holds: no key is carried by two rows. */
  ghost predicate UniqueKeys(t: seq<Record>) {
    forall k :: KeyCount(t, k) <= 1
  }

  /** The flags of the row with key `k` (the first one, should there be several). */
  function Lookup(t: seq<Record>, k: Key): (r: Option<string>)
    ensures r.Some? <==> KeyCount(t, k) > 0
    ensures r.Some? ==> Record(k.dir, k.file, r.value) in t
  {
    if t == [] then None
    else if KeyOf(t[0]) == k then Some(t[0].flags)
    else Lookup(t[1..], k)
  }

  /** The rows that do not carry key `k`, in their order. */
  function Without(t: seq<Record>, k: Key): (r: seq<Record>)
    ensures forall x :: x in r <==> x in t && KeyOf(x) != k
    ensures |r| <= |t|
  {
    if t == [] then []
    else (if KeyOf(t[0]) == k then [] else [t[0]]) + Without(t[1..], k)
  }

  /** `INSERT INTO cflags …` under `ON CONFLICT REPLACE`: conflicting rows are deleted, the new row is added. */
  function Upsert(t: seq<Record>, row: Record): (r: seq<Record>)
    ensures row in r && |r| <= |t| + 1
    ensures forall x :: x in r ==> x == row || (x in t && KeyOf(x) != KeyOf(row))
    ensures forall x :: x in t && KeyOf(x) != KeyOf(row) ==> x in r
  {
    Without(t, KeyOf(row)) + [row]
  }

  lemma {:induction false} KeyCountAppend(a: seq<Record>, b: seq<Record>, k: Key)
    ensures KeyCount(a + b, k) == KeyCount(a, k) + KeyCount(b, k)
    decreases |a|
  {
    if a != [] {
      assert (a + b)[1..] == a[1..] + b;
      KeyCountAppend(a[1..], b, k);
    } else {
      assert a + b == b;
    }
  }

  lemma {:induction false} LookupAppend(a: seq<Record>, b: seq<Record>, k: Key)
    ensures Lookup(a + b, k) == if Lookup(a, k).Some? then Lookup(a, k) else Lookup(b, k)
    decreases |a|
  {
    if a != [] {
      assert (a + b)[1..] == a[1..] + b;
      LookupAppend(a[1..], b, k);
    } else {
      assert a + b == b;
    }
  }

  lemma {:induction false} WithoutCounts(t: seq<Record>, k: Key, k': Key)
    ensures KeyCount(Without(t, k), k') == if k' == k then 0 else KeyCount(t, k')
    ensures |Without(t, k)| + KeyCount(t, k) == |t|
    ensures k' != k ==> Lookup(Without(t, k), k') == Lookup(t, k')
    decreases |t|
  {
    if t != [] {
      WithoutCounts(t[1..], k, k');
      var head := if KeyOf(t[0]) == k then [] else [t[0]];
      KeyCountAppend(head, Without(t[1..], k), k');
      LookupAppend(head, Without(t[1..], k), k');
    }
  }

  /**
   * REPLACE semantics: after an upsert exactly one row carries the new key and
   * it holds the new flags; every other key keeps its row; the table stays
   * keyed; and it grows by one row only when the key was new.
   */
  lemma UpsertReplaces(t: seq<Record>, row: Record)
    ensures KeyCount(Upsert(t, row), KeyOf(row)) == 1
    ensures Lookup(Upsert(t, row), KeyOf(row)) == Some(row.flags)
    ensures forall k :: k != KeyOf(row) ==> Lookup(Upsert(t, row), k) == Lookup(t, k)
    ensures UniqueKeys(t) ==> UniqueKeys(Upsert(t, row))
    ensures UniqueKeys(t) ==> |Upsert(t, row)| == |t| + (if Lookup(t, KeyOf(row)).Some? then 0 else 1)
  {
    var w := Without(t, KeyOf(row));
    forall k
      ensures KeyCount(Upsert(t, row), k) == (if k == KeyOf(row) then 1 else KeyCount(t, k))
      ensures k != KeyOf(row) ==> Lookup(Upsert(t, row), k) == Lookup(t, k)
    {
      WithoutCounts(t, KeyOf(row), k);
      KeyCountAppend(w, [row], k);
      LookupAppend(w, [row], k);
      assert KeyCount([row], k) == (if k == KeyOf(row) then 1 else 0) by {
        assert [row][1..] == [];
      }
    }
    WithoutCounts(t, KeyOf(row), KeyOf(row));
    LookupAppend(w, [row], KeyOf(row));
  }

  /**
   * The database file named by `CDCC_DB`: whether the `cflags` table exists,
   * and its rows. Every proxy process of a build opens and writes the same file.
   */
  class StoreFile {
    var hasSchema: bool
    var rows: seq<Record>

    ghost predicate Valid()
      reads this
    {
      UniqueKeys(rows) && (!hasSchema ==> rows == [])
    }

    /** A database file that has never been initialised. */
    constructor ()
      ensures Valid() && !hasSchema && rows == []
    {
      hasSchema := false;
      rows := [];
    }
  }

  /**
   * A `sqlite3 *` handle on a database file. `unfinalized` records that a
   * prepared statement was never handed to `sqlite3_finalize`; while one is,
   * `sqlite3_close` answers `SQLITE_BUSY` and leaves the handle open.
   */
  class Connection {
    const store: StoreFile
    var isOpen: bool
    var unfinalized: bool

    constructor (store: StoreFile)
      ensures this.store == store && isOpen && !unfinalized
    {
      this.store := store;
      isOpen := true;
      unfinalized := false;
    }
  }

  /**
   * What SQLite does with one file of an insert loop, given a freshly reset
   * statement: one of the three `sqlite3_bind_text` calls fails, the bindings
   * succeed but `sqlite3_step` fails, or the row is written.
   */
  datatype FileOutcome = BindRejected | StepRejected | Accepted

  /** The three columns of a row as `sqlite3_column_text` returns them; a NULL column is `None`. */
  datatype Row = Row(dir: Option<string>, file: Option<string>, flags: Option<string>)

  /** How stepping ends once the rows are exhausted: `SQLITE_DONE`, or an error code. */
  datatype End = Done | Failed

  /** What running a `SELECT` yields: a failed prepare, a failed bind, or the rows stepped through and the final step. */
  datatype Cursor = PrepareFailed | BindFailed | Rows(rows: seq<Row>, end: End)

  predicate Complete(row: Row) {
    row.dir.Some? && row.file.Some? && row.flags.Some?
  }

  /** The record a row with no NULL column stands for. */
  function RecordOf(row: Row): (r: Record)
    requires Complete(row)
    ensures Row(Some(r.dir), Some(r.file), Some(r.flags)) == row
  {
    Record(row.dir.value, row.file.value, row.flags.value)
  }

  /** The records of the rows with no NULL column, in step order. */
  function Records(rows: seq<Row>): (r: seq<Record>)
    ensures |r| <= |rows|
    ensures forall x :: x in r <==> Row(Some(x.dir), Some(x.file), Some(x.flags)) in rows
  {
    if rows == [] then []
    else
      var row := rows[0];
      var rest := Records(rows[1..]);
      assert forall w :: w in rows <==> w == row || w in rows[1..];
      if Complete(row) then [RecordOf(row)] + rest else rest
  }

  /**
   * The rows of `t` whose file the pattern matches, in storage order. `glob`
   * stands for SQLite's GLOB operator, `glob(pattern, file)`, whose matching
   * rules are not modelled.
   */
  function Matching(t: seq<Record>, glob: (string, string) -> bool, pattern: string): (r: seq<Record>)
    ensures forall x :: x in r <==> x in t && glob(pattern, x.file)
    ensures |r| <= |t|
  {
    if t == [] then []
    else
      assert forall x :: x in t <==> x == t[0] || x in t[1..];
      (if glob(pattern, t[0].file) then [t[0]] else []) + Matching(t[1..], glob, pattern)
  }

  /**
   * `c` is what SQLite can yield for `SELECT * from cflags WHERE file GLOB
   * pattern` on the table `t`: when stepping ends with `SQLITE_DONE`, the
   * records are the matching rows, each once, in some order; when a step
   * fails, they are some of them.
   */
  predicate Answers(c: Cursor, t: seq<Record>, glob: (string, string) -> bool, pattern: string) {
    c.Rows? ==>
      && (c.end == Done ==> multiset(Records(c.rows)) == multiset(Matching(t, glob, pattern)))
      && (c.end == Failed ==> multiset(Records(c.rows)) <= multiset(Matching(t, glob, pattern)))
  }

  /** What a cursor answering for the table yields comes from the table; run to the end, it yields every matching row. */
  lemma AnswersFromTable(c: Cursor, t: seq<Record>, glob: (string, string) -> bool, pattern: string)
    requires Answers(c, t, glob, pattern) && c.Rows?
    ensures forall x :: x in Records(c.rows) ==> x in t && glob(pattern, x.file)
    ensures c.end == Done ==> forall x :: x in t && glob(pattern, x.file) ==> x in Records(c.rows)
  {
    var m := Matching(t, glob, pattern);
    forall x | x in Records(c.rows)
      ensures x in t && glob(pattern, x.file)
    {
      assert x in multiset(Records(c.rows));
      assert x in multiset(m);
    }
    if c.end == Done {
      forall x | x in t && glob(pattern, x.file)
        ensures x in Records(c.rows)
      {
        assert x in multiset(m);
        assert x in multiset(Records(c.rows));
      }
    }
  }

  lemma {:induction false} RecordsAppend(a: seq<Row>, b: seq<Row>)
    ensures Records(a + b) == Records(a) + Records(b)
    decreases |a|
  {
    if a != [] {
      assert (a + b)[1..] == a[1..] + b;
      RecordsAppend(a[1..], b);
    } else {
      assert a + b == b;
    }
  }

  /** Stepping past row `j`: the records so far grow by that row's record, if it has no NULL column. */
  lemma RecordsStep(rows: seq<Row>, j: nat)
    requires j < |rows|
    ensures Records(rows[..j + 1]) == Records(rows[..j]) + (if Complete(rows[j]) then [RecordOf(rows[j])] else [])
    ensures var n := |Records(rows[..j])|;
      n <= |Records(rows)| && Records(rows)[..n] == Records(rows[..j]) &&
      (Complete(rows[j]) ==> n < |Records(rows)| && Records(rows)[n] == RecordOf(rows[j]))
  {
    assert rows[..j + 1] == rows[..j] + [rows[j]];
    RecordsAppend(rows[..j], [rows[j]]);
    assert [rows[j]][1..] == [];
    assert rows == rows[..j] + rows[j..];
    RecordsAppend(rows[..j], rows[j..]);
    assert rows[j..] == [rows[j]] + rows[j + 1..];
    RecordsAppend([rows[j]], rows[j + 1..]);
  }
}
