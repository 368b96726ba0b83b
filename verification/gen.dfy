/**
 * The compilation-database generator (gen.c): for each directory given on
 * the command line it queries the records whose file lies in that directory
 * and writes them to `compile_commands.json` there, as an array of objects
 * with the members `directory`, `command` and `file` (the JSON Compilation
 * Database format of clang's tooling).
 *
 * The JSON document is modelled as a value built through a `JsonBuilder`
 * that mirrors json-glib's builder calls; serialising it to text and writing
 * the file are represented by `canWrite`, whether `json_generator_to_file`
 * succeeds for a path.
 */
module Gen {
  import opened Wrappers
  import opened Env
  import opened Text
  import opened Table
  import Db

  datatype Json = JString(s: string) | JArray(items: seq<Json>) | JObject(members: seq<Member>)

  datatype Member = Member(name: string, value: Json)

  /** A container the builder has begun and not yet ended; an object remembers the member name set last. */
  datatype Frame = ArrayFrame(items: seq<Json>) | ObjectFrame(members: seq<Member>, pending: Option<string>)

  /** The frame can take a value now: it is an array, or an object whose member name has been set. */
  predicate Open(f: Frame) {
    f.ArrayFrame? || f.pending.Some?
  }

  /** A value can be added: into the innermost open container, or as the root when none is open and no root exists. */
  predicate Accepts(stack: seq<Frame>, root: Option<Json>) {
    if stack == [] then root.None? else Open(stack[|stack| - 1])
  }

  /** Where a finished value goes: appended to the innermost array, bound to the pending member name, or made the root. */
  function Deposit(stack: seq<Frame>, root: Option<Json>, v: Json): (r: (seq<Frame>, Option<Json>))
    requires Accepts(stack, root)
    ensures |r.0| == |stack| && (stack == [] ==> r.1 == Some(v)) && (stack != [] ==> r.1 == root)
    ensures forall i :: 0 <= i < |stack| - 1 ==> r.0[i] == stack[i]
    ensures stack != [] && stack[|stack| - 1].ArrayFrame? ==>
      r.0[|stack| - 1] == ArrayFrame(stack[|stack| - 1].items + [v])
    ensures stack != [] && stack[|stack| - 1].ObjectFrame? ==>
      r.0[|stack| - 1] == ObjectFrame(stack[|stack| - 1].members + [Member(stack[|stack| - 1].pending.value, v)], None)
  {
    if stack == [] then ([], Some(v))
    else
      var rest := stack[..|stack| - 1];
      match stack[|stack| - 1]
      case ArrayFrame(items) => (rest + [ArrayFrame(items + [v])], root)
      case ObjectFrame(members, pending) => (rest + [ObjectFrame(members + [Member(pending.value, v)], None)], root)
  }

  /** json-glib's `JsonBuilder`: a stack of open containers and, once the outermost one is ended, the root. */
  class JsonBuilder {
    var stack: seq<Frame>
    var root: Option<Json>

    /** Every container below the innermost one is waiting for the value being built; there is no root while one is open. */
    ghost predicate Valid()
      reads this
    {
      && (stack != [] ==> root.None?)
      && forall i :: 0 <= i < |stack| - 1 ==> Open(stack[i])
    }

    constructor ()
      ensures Valid() && stack == [] && root == None
    {
      stack := [];
      root := None;
    }

    method Add(v: Json)
      requires Valid() && Accepts(stack, root)
      modifies this
      ensures Valid()
      ensures (stack, root) == Deposit(old(stack), old(root), v)
    {
      var d := Deposit(stack, root, v);
      stack, root := d.0, d.1;
    }

    /** `json_builder_begin_array`. */
    method BeginArray()
      requires Valid() && Accepts(stack, root)
      modifies this
      ensures Valid()
      ensures stack == old(stack) + [ArrayFrame([])] && root == old(root)
    {
      stack := stack + [ArrayFrame([])];
    }

    /** `json_builder_end_array`: the array becomes a value of the enclosing container, or the root. */
    method EndArray()
      requires Valid() && stack != [] && stack[|stack| - 1].ArrayFrame?
      modifies this
      ensures Valid()
      ensures (stack, root) == Deposit(old(stack)[..|old(stack)| - 1], old(root), JArray(old(stack)[|old(stack)| - 1].items))
    {
      var items := stack[|stack| - 1].items;
      stack := stack[..|stack| - 1];
      Add(JArray(items));
    }

    /** `json_builder_begin_object`. */
    method BeginObject()
      requires Valid() && Accepts(stack, root)
      modifies this
      ensures Valid()
      ensures stack == old(stack) + [ObjectFrame([], None)] && root == old(root)
    {
      stack := stack + [ObjectFrame([], None)];
    }

    /** `json_builder_set_member_name`. */
    method SetMemberName(name: string)
      requires Valid() && stack != [] && stack[|stack| - 1].ObjectFrame? && stack[|stack| - 1].pending.None?
      modifies this
      ensures Valid()
      ensures stack == old(stack)[..|old(stack)| - 1] + [ObjectFrame(old(stack)[|old(stack)| - 1].members, Some(name))]
      ensures root == old(root)
    {
      stack := stack[..|stack| - 1] + [ObjectFrame(stack[|stack| - 1].members, Some(name))];
    }

    /** `json_builder_add_string_value`. */
    method AddStringValue(s: string)
      requires Valid() && Accepts(stack, root)
      modifies this
      ensures Valid()
      ensures (stack, root) == Deposit(old(stack), old(root), JString(s))
    {
      Add(JString(s));
    }

    /** `json_builder_end_object`: the object becomes a value of the enclosing container, or the root. */
    method EndObject()
      requires Valid() && stack != [] && stack[|stack| - 1].ObjectFrame? && stack[|stack| - 1].pending.None?
      modifies this
      ensures Valid()
      ensures (stack, root) ==
        Deposit(old(stack)[..|old(stack)| - 1], old(root), JObject(old(stack)[|old(stack)| - 1].members))
    {
      var members := stack[|stack| - 1].members;
      stack := stack[..|stack| - 1];
      Add(JObject(members));
    }
  }

  // ---------------------------------------------------------------------
  // The compilation database
  // ---------------------------------------------------------------------

  /** One entry of the compilation database. */
  function ToObject(rec: Record): (r: Json)
    ensures FromObject(r) == Some(rec)
  {
    JObject([Member("directory", JString(rec.dir)),
             Member("command", JString(rec.flags)),
             Member("file", JString(rec.file))])
  }

  /** Reading an entry back: exactly the three string members, in their order. */
  function FromObject(j: Json): Option<Record> {
    match j
    case JObject(ms) =>
      if |ms| == 3 && ms[0].name == "directory" && ms[1].name == "command" && ms[2].name == "file" &&
         ms[0].value.JString? && ms[1].value.JString? && ms[2].value.JString?
      then Some(Record(ms[0].value.s, ms[2].value.s, ms[1].value.s))
      else None
    case _ => None
  }

  /** An entry carries its record faithfully, and an entry that reads back is exactly the object of its record. */
  lemma ObjectRoundTrip(rec: Record, j: Json)
    ensures FromObject(ToObject(rec)) == Some(rec)
    ensures FromObject(j) == Some(rec) ==> j == ToObject(rec)
  {
    if FromObject(j) == Some(rec) {
      var ms := j.members;
      assert ms == [ms[0], ms[1], ms[2]];
    }
  }

  /** The entries of a list of records, in order. */
  function Objects(recs: seq<Record>): (r: seq<Json>)
    ensures |r| == |recs|
  {
    seq(|recs|, k requires 0 <= k < |recs| => ToObject(recs[k]))
  }

  /** The document `export_json` writes: one array holding an entry per record. */
  function Document(recs: seq<Record>): Json {
    JArray(Objects(recs))
  }

  function FromObjects(items: seq<Json>): Option<seq<Record>>
    decreases |items|
  {
    if items == [] then Some([])
    else match (FromObject(items[0]), FromObjects(items[1..]))
      case (Some(rec), Some(recs)) => Some([rec] + recs)
      case _ => None
  }

  /** Reading a document back: an array all of whose items are entries. */
  function FromDocument(j: Json): Option<seq<Record>> {
    if j.JArray? then FromObjects(j.items) else None
  }

  lemma {:induction false} ObjectsRoundTrip(recs: seq<Record>, items: seq<Json>)
    ensures FromObjects(Objects(recs)) == Some(recs)
    ensures FromObjects(items) == Some(recs) ==> items == Objects(recs)
    decreases |recs| + |items|
  {
    if recs == [] {
      assert Objects(recs) == [];
    } else {
      assert [recs[0]] + recs[1..] == recs;
      assert Objects(recs)[0] == ToObject(recs[0]);
      assert Objects(recs)[1..] == Objects(recs[1..]);
      ObjectsRoundTrip(recs[1..], []);
      ObjectRoundTrip(recs[0], ToObject(recs[0]));
    }
    if FromObjects(items) == Some(recs) && items != [] {
      var head := FromObject(items[0]).value;
      var tail := FromObjects(items[1..]).value;
      ObjectRoundTrip(head, items[0]);
      ObjectsRoundTrip(tail, items[1..]);
      assert recs == [head] + tail;
      assert items == [items[0]] + items[1..];
    }
  }

  /** The document holds the records, in order, and nothing else. */
  lemma DocumentRoundTrip(recs: seq<Record>, j: Json)
    ensures FromDocument(Document(recs)) == Some(recs)
    ensures FromDocument(j) == Some(recs) ==> j == Document(recs)
  {
    ObjectsRoundTrip(recs, if j.JArray? then j.items else []);
  }

  /** A stack with one more frame on top of `below`. */
  lemma OnTop(below: seq<Frame>, f: Frame)
    ensures (below + [f])[..|below|] == below && (below + [f])[|below|] == f
  {
  }

  /** `json_builder_set_member_name` then `json_builder_add_string_value` on the innermost object. */
  method AddMemberStep(b: JsonBuilder, ghost below: seq<Frame>, ghost ms: seq<Member>, name: string, value: string)
    requires b.Valid() && b.stack == below + [ObjectFrame(ms, None)]
    modifies b
    ensures b.Valid() && b.root == old(b.root)
    ensures b.stack == below + [ObjectFrame(ms + [Member(name, JString(value))], None)]
  {
    OnTop(below, ObjectFrame(ms, None));
    b.SetMemberName(name);
    OnTop(below, ObjectFrame(ms, Some(name)));
    b.AddStringValue(value);
  }

  /**
   * `export_single`: add one entry to the open array. It answers TRUE, so the
   * query is never stopped early.
   */
  method ExportSingle(b: JsonBuilder, rec: Record) returns (keepGoing: bool)
    requires b.Valid() && b.stack != [] && b.stack[|b.stack| - 1].ArrayFrame?
    modifies b
    ensures keepGoing
    ensures b.Valid() && b.root == old(b.root)
    ensures b.stack == old(b.stack)[..|old(b.stack)| - 1] +
                       [ArrayFrame(old(b.stack)[|old(b.stack)| - 1].items + [ToObject(rec)])]
  {
    ghost var s0 := b.stack;
    ghost var ms: seq<Member> := [];
    b.BeginObject();
    AddMemberStep(b, s0, ms, "directory", rec.dir);
    ms := ms + [Member("directory", JString(rec.dir))];
    AddMemberStep(b, s0, ms, "command", rec.flags);
    ms := ms + [Member("command", JString(rec.flags))];
    AddMemberStep(b, s0, ms, "file", rec.file);
    ms := ms + [Member("file", JString(rec.file))];
    assert JObject(ms) == ToObject(rec);
    assert b.stack == s0 + [ObjectFrame(ms, None)];
    b.EndObject();
    assert b.stack == Deposit(s0, b.root, ToObject(rec)).0;
    assert s0[|s0| - 1] == ArrayFrame(s0[|s0| - 1].items);
    return true;
  }

  /** The answer `export_single` gives the query, whatever it is handed. */
  const Exporting: Db.Callback := (seen, rec) => true

  /** The records `db_query` delivers for a cursor to a callback that never stops. */
  function Exported(c: Cursor): (r: seq<Record>)
    ensures forall x :: x in r <==> c.Rows? && Row(Some(x.dir), Some(x.file), Some(x.flags)) in c.rows
  {
    if c.Rows? then Records(c.rows) else []
  }

  /** A file `export_json` wrote. */
  datatype Output = Output(path: string, document: Json)

  /** The GLOB pattern `export_json` queries with: `path`, a separator, then `*` (which SQLite lets match `/` too, so files in subdirectories are included). */
  function Glob(path: string): (r: string)
    ensures path == "" ==> r == "*"
    ensures path != "" ==> HasPrefix(r, TrimTrailingSeparators(path)) && HasSuffix(r, "/*")
  {
    assert "/" + "*" == "/*";
    BuildFilename(path, "*")
  }

  /** The file `export_json` writes: `compile_commands.json` in the directory `path`. */
  function Target(path: string): (r: string)
    ensures path == "" ==> r == "compile_commands.json"
    ensures path != "" ==> HasPrefix(r, TrimTrailingSeparators(path)) && HasSuffix(r, "/compile_commands.json")
  {
    assert "/" + "compile_commands.json" == "/compile_commands.json";
    BuildFilename(path, "compile_commands.json")
  }

  /** The query `export_json` runs for `path` answers for the table `t`. */
  predicate AnswersFor(select: string -> Cursor, t: seq<Record>, glob: (string, string) -> bool, path: string) {
    Answers(select(Glob(path)), t, glob, Glob(path))
  }

  /** The exported records come from the table and match the pattern; a query run to the end exports every matching row. */
  lemma ExportedFromStore(c: Cursor, t: seq<Record>, glob: (string, string) -> bool, pattern: string)
    requires Answers(c, t, glob, pattern)
    ensures forall x :: x in Exported(c) ==> x in t && glob(pattern, x.file)
    ensures c.Rows? && c.end == Done ==> forall x :: x in t && glob(pattern, x.file) ==> x in Exported(c)
  {
    if c.Rows? {
      AnswersFromTable(c, t, glob, pattern);
    }
  }

  /**
   * From recording to export: after an insert in which SQLite accepts file
   * `files[i]` (no step failing before it), a `gen` run over a directory whose
   * pattern matches that file, with the query running to the end, writes an
   * entry with the call's directory, command and file.
   */
  lemma AcceptedFileExported(t: seq<Record>, dir: string, files: seq<string>, flags: string,
                             outcomes: seq<FileOutcome>, i: nat, c: Cursor, glob: (string, string) -> bool,
                             path: string)
    requires |outcomes| == |files|
    requires i < |files| && outcomes[i] == Accepted
    requires forall j :: 0 <= j < i ==> outcomes[j] != StepRejected
    requires Answers(c, Db.InsertRows(t, dir, files, flags, outcomes), glob, Glob(path))
    requires c.Rows? && c.end == Done && glob(Glob(path), files[i])
    ensures ToObject(Record(dir, files[i], flags)) in Document(Exported(c)).items
  {
    var rec := Record(dir, files[i], flags);
    Db.AcceptedIsStored(t, dir, files, flags, outcomes, i);
    ExportedFromStore(c, Db.InsertRows(t, dir, files, flags, outcomes), glob, Glob(path));
    var recs := Exported(c);
    var k :| 0 <= k < |recs| && recs[k] == rec;
    assert Objects(recs)[k] == ToObject(rec);
  }

  /**
   * The builder calls of `export_json` and its callback: begin the array, add
   * one entry per delivered record through `export_single`, end the array; the
   * root is then the document.
   */
  method BuildDocument(recs: seq<Record>) returns (document: Json)
    ensures document == Document(recs)
  {
    var b := new JsonBuilder();
    b.BeginArray();
    var i := 0;
    while i < |recs|
      invariant 0 <= i <= |recs|
      invariant b.Valid() && b.stack == [ArrayFrame(Objects(recs[..i]))] && b.root == None
      decreases |recs| - i
    {
      var go := ExportSingle(b, recs[i]);
      assert Objects(recs[..i + 1]) == Objects(recs[..i]) + [ToObject(recs[i])];
      i := i + 1;
    }
    b.EndArray();
    assert recs[..i] == recs;
    document := b.root.value;
  }

  /**
   * `export_json`: one array of entries for the records the query delivers
   * (all it delivers, even when it ends with an error), written to
   * `compile_commands.json` under `path` whether or not any record matched;
   * 0 when the file was written, 1 otherwise. The document reads back to the
   * exported records.
   */
  method ExportJson(db: Connection, glob: (string, string) -> bool, select: string -> Cursor, path: string,
                    canWrite: string -> bool)
    returns (code: int, output: Option<Output>)
    requires db.isOpen && AnswersFor(select, db.store.rows, glob, path)
    modifies db
    ensures db.isOpen
    ensures db.unfinalized == (old(db.unfinalized) || select(Glob(path)).BindFailed? ||
                               (select(Glob(path)).Rows? && select(Glob(path)).end == Failed))
    ensures code == (if canWrite(Target(path)) then 0 else 1)
    ensures output.Some? <==> code == 0
    ensures output.Some? ==> output.value == Output(Target(path), Document(Exported(select(Glob(path)))))
    ensures output.Some? ==> FromDocument(output.value.document) == Some(Exported(select(Glob(path))))
  {
    var pattern := Glob(path);
    var _, visited := Db.Query(db, glob, select, pattern, Exporting);
    if select(pattern).Rows? {
      Db.DeliveredAll(Exporting, Records(select(pattern).rows));
    }
    var document := BuildDocument(visited);
    DocumentRoundTrip(visited, document);
    var target := Target(path);
    if canWrite(target) {
      return 0, Some(Output(target, document));
    }
    return 1, None;
  }

  /** The file `export_json` writes for one path when the write succeeds. */
  function OutputFor(select: string -> Cursor, p: string): Output {
    Output(Target(p), Document(Exported(select(Glob(p)))))
  }

  /** The files written for `paths`, in order: one per path whose write succeeded. */
  function Written(select: string -> Cursor, canWrite: string -> bool, paths: seq<string>): (r: seq<Output>)
    ensures |r| <= |paths|
    ensures forall o :: o in r ==> exists p :: p in paths && canWrite(Target(p)) && o == OutputFor(select, p)
    decreases |paths|
  {
    if paths == [] then []
    else
      var p := paths[|paths| - 1];
      var init := Written(select, canWrite, paths[..|paths| - 1]);
      init + (if canWrite(Target(p)) then [OutputFor(select, p)] else [])
  }

  /** Every path whose write succeeds gets its file. */
  lemma {:induction false} WrittenComplete(select: string -> Cursor, canWrite: string -> bool, paths: seq<string>, k: nat)
    requires k < |paths| && canWrite(Target(paths[k]))
    ensures OutputFor(select, paths[k]) in Written(select, canWrite, paths)
    decreases |paths|
  {
    var init := paths[..|paths| - 1];
    if k < |paths| - 1 {
      assert init[k] == paths[k];
      WrittenComplete(select, canWrite, init, k);
    }
  }

  /** When every write succeeds, the files follow the path arguments one for one, in order. */
  lemma {:induction false} WrittenInOrder(select: string -> Cursor, canWrite: string -> bool, paths: seq<string>)
    requires forall k :: 0 <= k < |paths| ==> canWrite(Target(paths[k]))
    ensures |Written(select, canWrite, paths)| == |paths|
    ensures forall k :: 0 <= k < |paths| ==> Written(select, canWrite, paths)[k] == OutputFor(select, paths[k])
    decreases |paths|
  {
    if paths != [] {
      var n := |paths| - 1;
      var init := paths[..n];
      WrittenInOrder(select, canWrite, init);
      var w := Written(select, canWrite, paths);
      var wi := Written(select, canWrite, init);
      assert w == wi + [OutputFor(select, paths[n])];
      forall k | 0 <= k < |paths|
        ensures w[k] == OutputFor(select, paths[k])
      {
        if k < n {
          assert init[k] == paths[k];
          assert w[k] == wi[k];
        }
      }
    }
  }

  /** The loop of gen.c's `main`: export every path in order, whatever each export returns. */
  method ExportAll(db: Connection, glob: (string, string) -> bool, select: string -> Cursor, paths: seq<string>,
                   canWrite: string -> bool) returns (outputs: seq<Output>)
    requires db.isOpen
    requires forall k :: 0 <= k < |paths| ==> AnswersFor(select, db.store.rows, glob, paths[k])
    modifies db
    ensures db.isOpen
    ensures outputs == Written(select, canWrite, paths)
  {
    outputs := [];
    var i := 0;
    while i < |paths|
      invariant 0 <= i <= |paths|
      invariant db.isOpen
      invariant outputs == Written(select, canWrite, paths[..i])
      decreases |paths| - i
    {
      var res, written := ExportJson(db, glob, select, paths[i], canWrite);
      assert paths[..i + 1][..i] == paths[..i];
      if written.Some? {
        outputs := outputs + [written.value];
      }
      i := i + 1;
    }
    assert paths[..i] == paths;
  }

  /**
   * gen.c's `main`: nothing to do without a path; 1 when `CDCC_DB` is unset or
   * the store does not open; otherwise export every path in order and return
   * 0, however the exports fare.
   */
  method Run(argv: seq<string>, env: map<string, string>, store: StoreFile, openOk: bool, busyOk: bool,
             schemaOk: bool, glob: (string, string) -> bool, select: string -> Cursor, canWrite: string -> bool)
    returns (code: int, outputs: seq<Output>)
    requires store.Valid()
    requires forall i :: 1 <= i < |argv| ==> AnswersFor(select, store.rows, glob, argv[i])
    modifies store
    ensures store.Valid() && store.rows == old(store.rows)
    ensures |argv| < 2 ==> code == 0 && outputs == [] && unchanged(store)
    ensures |argv| >= 2 ==> (code == 0 <==> DB_VARIABLE in env && openOk && schemaOk)
    ensures code != 0 ==> code == 1 && outputs == []
    ensures |argv| >= 2 && code == 0 ==> outputs == Written(select, canWrite, argv[1..])
  {
    if |argv| < 2 {
      return 0, [];
    }
    var dbPath := Getenv(env, DB_VARIABLE);
    if dbPath.None? {
      return 1, [];
    }
    var db := Db.Open(store, openOk, busyOk, schemaOk);
    if db == null {
      return 1, [];
    }
    outputs := ExportAll(db, glob, select, argv[1..], canWrite);
    Db.Close(db);
    return 0, outputs;
  }
}
