# cdcc — a verified model of the compile-command recorder

cdcc records how the files of a C/C++ build are compiled and turns those
records into a `compile_commands.json` compilation database, the format of
clang's tooling. It has three programs:

- **`cc`**, the proxy (cc.c). It is installed under a name such as
  `cdcc-gcc` and finds the real tool from the text after the first `-` of
  its own name, falling back to `cc`. It runs that tool with the caller's
  arguments and waits for it. When the tool succeeds and `CDCC_DB` names a
  database, it records the source files among the arguments together with
  the whole command line.
- **`cdcc`**, an older self-contained proxy (cdcc.c). It always runs
  `gcc` and has its own copies of the database code.
- **`gen`**, the generator (gen.c). For each directory given to it, it
  queries the records whose file lies under that directory. It writes them
  to `compile_commands.json` there, as an array of objects with the members
  `directory`, `command` and `file`.

The record store is an SQLite table
`cflags(dir, file, flags, PRIMARY KEY(dir, file) ON CONFLICT REPLACE)`,
accessed through db.c.

The model is split into these files:

- `wrappers.dfy`: `Option`, and the environment as a map.
- `text.dfy`: the GLib string helpers, `g_strjoinv(" ")` and `g_build_filename`.
- `proxy.dfy`: waiting for the child, and the wait-status encoding.
- `classifier.dfy`: the known suffixes, and the argument scan both proxies share.
- `cc.dfy`: the `cc` proxy.
- `table.dfy`: the table as a sequence of rows under the REPLACE policy, the
  database file and connection as classes, and what a `SELECT` yields.
- `db.dfy`: db.c.
- `cdcc.dfy`: the `cdcc` proxy.
- `gen.dfy`: the JSON builder and the generator.

Whatever the operating system, SQLite or json-glib decide is passed in as
a parameter:

- whether a spawn succeeds;
- the sequence of `waitpid` results;
- whether opening the database, creating the table and preparing a
  statement succeed;
- one `FileOutcome` per file of an insert;
- the `Cursor` a `SELECT` yields for a pattern;
- whether writing the JSON file succeeds;
- `g_find_program_in_path`;
- the current directory.

The main results:

- The table keeps one row per `(dir, file)`, and a re-recorded file gets the
  newer flags.
- The argument scan selects exactly the non-option operands with a known
  suffix that are not the operand of `-o`. This is proved against an
  independent index-based description.
- `db_query` hands its callback a prefix of the complete rows, in order, and
  stops at the first FALSE. It answers TRUE exactly when the rows ran out
  cleanly or the callback stopped.
- The generated document reads back to exactly the records queried.
- A file stored by an insert that accepts it is exported, with the call's flags, by a later export whose pattern matches it, when that export's query runs to the end (DONE).
- The two findings below are proved.

## Model

| member | source | states |
|---|---|---|
| Env.Getenv | cc.c:91-94 | the value of `CDCC_DB` is returned exactly when the variable is bound, and it is the bound value |
| Text.IndexOf | cc.c:40 | the index found holds the character and no earlier index does; none is found only when the character is absent |
| Text.JoinSpace | db.c:71 | `g_strjoinv(" ", argv)` (also cdcc.c:88): the command line ends with the last argument and has at least one character per gap between neighbours; that the gap is a single space is JoinSpaceHead and JoinSpaceAppend |
| Text.JoinSpaceHead | db.c:71 | the joined command line starts with `argv[0]`, followed by a space when more arguments follow |
| Text.JoinSpaceAppend | db.c:71 | joining two non-empty vectors is joining each and putting one space between |
| Text.SplitJoinSpace | db.c:71 | when no argument contains a space, cutting the joined command at spaces gives back the vector |
| Text.BuildFilename | gen.c:34 | an empty directory is dropped; a directory made only of separators is kept verbatim in front of the name; otherwise the result is the directory cut after its last non-separator, one `/`, then the name; it always starts with the directory without its trailing separators |
| Proxy.FirstSettled | cc.c:71-83 | the retry loop stops at the first `waitpid` result that is not EINTR; every earlier result was EINTR |
| Proxy.WaitStatus | cc.c:73-86 | the raw status of a valid termination is a 16-bit value, and it is 0 exactly when the child exited with 0, the test cc.c:147 makes |
| Proxy.SeenExitCode | cc.c:145-148 | what a parent sees of `main`'s return value is in 0..255 |
| Proxy.RawStatusMasksFailure | cc.c:86 | for a tool exit code in 1..255, the raw status `main` returns is nonzero (nothing recorded), yet the build sees exit code 0 |
| Proxy.RawStatusMasksExitTwo | cdcc.c:166-167 | a compiler exiting with 2 gives raw status 512, which the build sees as 0 |
| Proxy.WaitStatusDecodes | cc.c:86 | `WIFEXITED`/`WEXITSTATUS` undo the encoding: a normal exit decodes to its code, and a signal is never taken for a normal exit |
| Proxy.StatusDecodes | cc.c:86 | the same for every valid termination that produces a given status |
| Proxy.ExitStatus | cc.c:145-148 | corrected decoding: for every valid termination whose raw status it is given, the child's exit code, or 1 when a signal ended it; 0 exactly when the child exited with 0 |
| Proxy.ExitStatusReportsChild | cdcc.c:166-168 | with the decoding, the build sees the child's own exit code (1 for a signal), and 0 exactly when the child exited with 0 |
| Classifier.HasAnySuffix | cc.c:25-36 | true exactly when some suffix of the table ends the name |
| Classifier.IsKnownType | cc.c:15-36 | true exactly when the name ends in `.h`, `.hpp`, `.c`, `.cc`, `.cxx` or `.cpp` |
| Classifier.KnownTypeLastChar | cdcc.c:11-32 | a known name has at least two characters and ends in `h`, `p`, `c` or `x` |
| Classifier.KnownTypeExamples | cdcc.c:21-32 | matching is case-sensitive and exact: `main.c`, `x.cpp` and `util.hpp` are known; `a.o`, `x.C` and `c` are not |
| Classifier.ScanFrom | cc.c:99-113 | the iterator loop from a position, as a definition: a non-option with a known suffix is collected, `-o` skips the next argument, any other option only itself; its properties are ScanMembers, ScanIsSelection and CollectSources |
| Classifier.SourceFiles | cc.c:99-113 | the scan started after `argv[0]`, as a definition; SourceFileMembership characterises its members |
| Classifier.ScanMembers | cc.c:101-104 | everything the scan collects is an argument, not an option, with a known suffix |
| Classifier.CollectSources | cc.c:98-113 | the loop from index 1 collects exactly the scan's file list |
| Classifier.Consumed | cdcc.c:186-189 | the index-based description of an `-o` operand: it follows an `-o` that is not itself an operand (a definition, used by the selection lemmas) |
| Classifier.Selected | cdcc.c:177-190 | an index at or above 1 is selected when it is not an `-o` operand and holds a non-option with a known suffix (a definition, used by the selection lemmas) |
| Classifier.SelectedFrom | cdcc.c:177-190 | the selected arguments from an index on, in order, as a definition; SelectedFromMembers characterises its members |
| Classifier.ScanIsSelection | cdcc.c:177-190 | from any index that is not an `-o` operand, the scan equals the index-based selection |
| Classifier.SourceFilesAreSelected | cc.c:98-113 | the recorded files are the selected arguments, in their original order |
| Classifier.SelectedFromMembers | cdcc.c:177-190 | a string is selected from index i on exactly when it stands at a selected index at or above i |
| Classifier.SourceFileMembership | cc.c:98-113 | a string is recorded iff it stands at an index >= 1 that is not an `-o` operand, is not an option, and has a known suffix |
| Classifier.ScanIgnoresHead | cc.c:99 | the scan never reads `argv[0]` |
| Classifier.SourceFilesIgnoreProgram | cdcc.c:127-131 | replacing `argv[0]` (by the tool path, or by `gcc`) leaves the recorded files unchanged |
| Classifier.ConsumedUnaffected | cc.c:109-112 | overwriting an `-o` operand changes which indices are `-o` operands at no other index |
| Classifier.SelectedFromUnaffected | cc.c:109-112 | overwriting an `-o` operand leaves the selection unchanged |
| Classifier.OutputOperandIgnored | cc.c:109-112 | whatever stands after `-o` has no influence on the files recorded, and is itself recorded only if it also appears at a selected index |
| Classifier.SourceOperand | cc.c:101-104 | a stem not starting with `-` followed by a known suffix is a recorded operand |
| Classifier.ObjectOperand | cc.c:101-104 | an object file `a.o` is an operand that is not recorded |
| Classifier.CompileOneExample | cc.c:98-113 | `cc -c a.c -o a.o` records `a.c` only |
| Classifier.CompileTwoExample | cc.c:98-113 | `cc -c a.c b.c` records both files, in order |
| Classifier.OutputWithSourceSuffixExample | cc.c:109-112 | `cc -o foo.cc a.c` records `a.c` only, although the output path has a source suffix |
| Classifier.TrailingOutputFlagExample | cdcc.c:186-189 | `cc a.c -o` records `a.c`; a trailing `-o` ends the scan |
| Cc.ExtractToolname | cc.c:38-47 | the text after the first `-` of the whole name; nothing when there is no `-` or it is the last character |
| Cc.ToolName | cc.c:136-140 | never empty; `cc` when there is no usable dash; otherwise a proper suffix of the name preceded by `-` |
| Cc.ToolNameAfterFirstDash | cc.c:38-47 | when the first `-` is at k and is not last, the tool is the rest of the name after k |
| Cc.ToolNameExamples | cc.c:136-140 | `cdcc-gcc` runs `gcc`; `/opt/my-tools/cc` runs `tools/cc`, because a dash in a directory decides |
| Cc.CallTool | cc.c:49-87 | 1 when the spawn fails or `waitpid` fails other than by EINTR; otherwise the raw status of the first settled wait |
| Cc.SaveDecision | cc.c:89-132 | an insert is attempted only when the store opened, with the non-empty list of scanned files |
| Cc.SaveFlags | cc.c:89-132 | always 0; no recording without `CDCC_DB` or without a source file; an open failure is recorded as such; otherwise an insert of the scanned files with the whole vector into the store named by `CDCC_DB` |
| Cc.Run | cc.c:134-155 | the child vector is the tool path followed by `argv[1..]`; a missing tool or failed spawn or wait gives 1; a nonzero status is returned as it is with nothing recorded; on 0 the recording follows `SaveDecision` and 0 is returned |
| Table.Lookup | db.c:34-37 | a key is found exactly when some row carries it, and the row found is in the table |
| Table.Without | db.c:34-37 | the rows kept are exactly those that do not carry the key |
| Table.KeyCountAppend | db.c:34-37 | key counts add over concatenation |
| Table.LookupAppend | db.c:34-37 | lookup in a concatenation finds the first part's row first |
| Table.WithoutCounts | db.c:34-37 | removing a key leaves no row for it, keeps the other keys' counts and lookups, and shrinks the table by that key's count |
| Table.Upsert | db.c:34-37 | `INSERT … ON CONFLICT REPLACE`: the new row is present; every other row was there before with another key; every old row with another key stays; the table grows by one at most |
| Table.UpsertReplaces | db.c:34-37 | after `ON CONFLICT REPLACE`: one row for the new key with the new flags; other keys unchanged; the primary key preserved; the table grows only for a new key |
| Table.StoreFile.constructor | db.c:34-37 | a database file without the table holds no rows |
| Table.Connection.constructor | db.c:17-26 | a new handle is open on its file, with no statement left unfinalized |
| Table.RecordOf | db.c:134-137 | the record carries the row's three column values |
| Table.Records | db.c:130-153 | at most one record per row; a record is produced exactly for a row with no NULL column |
| Table.Matching | db.c:114 | the rows of `WHERE file GLOB ?`: exactly the table's rows whose file the pattern matches |
| Table.AnswersFromTable | db.c:114 | a cursor that answers from the table yields only matching rows, and on DONE every matching row |
| Table.RecordsAppend | db.c:139-142 | dropping the NULL rows distributes over concatenation |
| Table.RecordsStep | db.c:130-144 | stepping past one row extends the records so far by that row's record when it is complete, and they stay a prefix of all records |
| Db.DbPath | db.c:8-15 | a copy of `CDCC_DB` exactly when it is set |
| Db.Open | db.c:17-50 | a fresh open connection exactly when the open and the `CREATE TABLE IF NOT EXISTS` succeed, whatever the busy timeout does; the table then exists; rows untouched |
| Db.Close | db.c:52-56 | `sqlite3_close`'s result is ignored: a non-null handle is closed when no statement prepared on it is left unfinalized, and otherwise stays open (`SQLITE_BUSY`); a null handle is left alone |
| Db.InsertRows | db.c:73-107 | the insert loop over the files grows the table by at most one row per file |
| Db.Insert | db.c:58-109 | the rows become `InsertRows` of the old rows with the space-joined argv; a failed prepare writes nothing; the primary key is kept; a prepared statement is left unfinalized |
| Db.InsertKeepsKeys | db.c:98-106 | an insert keeps one row per key |
| Db.InsertRowsOrigin | db.c:70-95 | every row after an insert was there before, or is one of the call's files with its dir and flags |
| Db.InsertAllAccepted | db.c:73-107 | when every file is accepted, each one is found with the call's flags and every other key keeps its flags |
| Db.StepFailureStops | db.c:98-102 | the files after a failed step are never stored |
| Db.BindFailureSkipsOne | db.c:78-95 | a failed bind skips only its own file |
| Db.ReinsertReplaces | db.c:58-109 | recording the same file twice leaves one row, with the second call's flags |
| Db.InsertRowsKeepsFlags | db.c:73-107 | a row of the call's directory keeps its flags through the loop, whatever the outcomes |
| Db.AcceptedIsStored | db.c:73-107 | a file accepted before any failed step is found after the insert with the call's flags |
| Db.FirstStopFrom | db.c:130-144 | the first record the callback answers FALSE, all before it answered TRUE |
| Db.DeliveredFromStop | db.c:130-153 | when some record from a position on is answered FALSE, the delivery from there ends with the first such record |
| Db.DeliveredFromAll | db.c:130-153 | when every record from a position on is answered TRUE, the delivery from there runs to the end |
| Db.Delivered | db.c:130-153 | the first record, when there is one, is always handed over |
| Db.DeliveredUntilStop | db.c:144 | within the delivered prefix, the last record is answered FALSE and the others TRUE |
| Db.DeliveredShape | db.c:130-153 | the delivered records are a prefix of the records; all of them unless the callback stops; when it stops, it answered FALSE to the last delivered and TRUE to the others |
| Db.DeliveredAll | db.c:130-153 | a callback that always continues receives every record |
| Db.HandOne | db.c:144 | handing one more record keeps the loop's account of the delivery |
| Db.HandedAll | db.c:146-147 | when every record was answered TRUE, all were delivered and the callback never stopped |
| Db.DeliveredFromTable | db.c:130-153 | what a query of the table hands over are matching rows of the table; on DONE with no stop, exactly the matching rows, as a multiset |
| Db.HandRows | db.c:130-153 | the stepping loop hands the callback exactly `Delivered` of the complete rows, and reports a stop exactly when the callback answered FALSE to one of them |
| Db.Query | db.c:111-157 | the statement is finalized only when the answer is TRUE, and left unfinalized after a failed bind or step; FALSE with nothing delivered when prepare or bind fails; otherwise delivers exactly `Delivered` of the complete rows, answering TRUE iff the callback stopped or stepping ended with DONE; every delivered record is a row of the store whose file matches the pattern; when stepping ends with DONE and the callback never stops, the delivered records are the matching rows, as a multiset |
| Cdcc.InsertRowsAsWritten | cdcc.c:91-118 | the loop as written, without a reset: the table grows by at most one row per file |
| Cdcc.InsertRowsWithReset | cdcc.c:91-118 | the loop with a reset after each step: the table grows by at most one row per file |
| Cdcc.SpentStatementWritesNothing | cdcc.c:91-118 | once the statement has been stepped without a reset, no later file is written |
| Cdcc.AsWrittenStoresOnlyFirstStepped | cdcc.c:91-118 | as written, the table is unchanged or holds the upsert of only the first file whose binds succeed |
| Cdcc.SecondFileLost | cdcc.c:91-118 | `a.c b.c` with both rows acceptable: as written `b.c` is not stored; with a reset both are |
| Cdcc.InsertWithResetKeepsKeys | cdcc.c:91-118 | the corrected loop keeps one row per key |
| Cdcc.InsertWithResetStoresAccepted | cdcc.c:91-118 | with a reset after each step, every accepted file is stored with the call's flags and every other key keeps its flags |
| Cdcc.Insert | cdcc.c:75-120 | the rows become the as-written loop's result, with the statement never reset and a step failure not ending the loop; a failed prepare writes nothing; a prepared statement is left unfinalized |
| Cdcc.CommandNamesGcc | cdcc.c:127-131 | the recorded command starts with `gcc`, then a space and the caller's arguments when there are any |
| Cdcc.Run | cdcc.c:123-209 | runs `gcc` with `argv[1..]`; aborts when the spawn or wait fails; a nonzero status is returned unchanged with the store untouched; on 0 the store gets the as-written insert of the scanned files when `CDCC_DB` is set, a file was found and the store opened; returns 0 |
| Gen.Deposit | gen.c:13-25 | a finished value becomes the root when no container is open; otherwise it is appended to the innermost array's items, or added to the innermost object under the pending name, which is then cleared; the containers below and the root are untouched |
| Gen.JsonBuilder.constructor | gen.c:31 | a new builder has no open container and no root |
| Gen.JsonBuilder.Add | gen.c:15 | adds a value where `Deposit` puts it, keeping the builder well formed |
| Gen.JsonBuilder.BeginArray | gen.c:33 | opens an empty array on top of the stack |
| Gen.JsonBuilder.EndArray | gen.c:36 | closes the innermost array and deposits it |
| Gen.JsonBuilder.BeginObject | gen.c:13 | opens an empty object on top of the stack |
| Gen.JsonBuilder.SetMemberName | gen.c:14 | names the next member of the innermost object |
| Gen.JsonBuilder.AddStringValue | gen.c:15 | deposits a string value |
| Gen.JsonBuilder.EndObject | gen.c:25 | closes the innermost object and deposits it |
| Gen.ToObject | gen.c:13-25 | the entry of a record reads back to that record |
| Gen.ObjectRoundTrip | gen.c:13-25 | an entry reads back to its record, and only the entry of a record reads back to it |
| Gen.Objects | gen.c:35 | one entry per record |
| Gen.ObjectsRoundTrip | gen.c:33-36 | a list of entries reads back to its records, and only that list does |
| Gen.DocumentRoundTrip | gen.c:33-36 | the document reads back to exactly the records, in order, and only that document does |
| Gen.AddMemberStep | gen.c:14-15 | naming a member and adding its string appends that member to the innermost object |
| Gen.ExportSingle | gen.c:8-27 | appends the record's entry (directory, command, file) to the open array and answers TRUE |
| Gen.Exported | gen.c:35 | the records exported are exactly the complete rows of the cursor; none when the query fails |
| Gen.Glob | gen.c:34 | `g_build_filename(path, "*")`: `*` for an empty path; otherwise it starts with the path without trailing separators and ends in `/*` |
| Gen.Target | gen.c:44 | `g_build_filename(path, "compile_commands.json")`: the same shape, ending in `/compile_commands.json` |
| Gen.ExportedFromStore | gen.c:34-35 | the exported records are rows of the store under the path's pattern; on DONE, all of them |
| Gen.AcceptedFileExported | gen.c:34-35 | after an insert that accepts a file, a query whose pattern matches it exports that file's entry with the call's flags |
| Gen.BuildDocument | gen.c:13-36 | replaying the builder over the records gives their document |
| Gen.ExportJson | gen.c:29-47 | leaves a statement unfinalized exactly when the query fails at bind or step; returns 0 iff writing `compile_commands.json` under the path succeeds, and 1 otherwise; the file then holds the document of every record the query of the store delivers, and that document reads back to exactly those records |
| Gen.Written | gen.c:70-79 | at most one output per path argument, so a path given twice is written twice; each output is the document for a path whose write succeeded |
| Gen.WrittenComplete | gen.c:70-79 | every path argument whose write succeeds gets its document |
| Gen.WrittenInOrder | gen.c:70-79 | when every write succeeds, there is one output per path argument, in argument order |
| Gen.ExportAll | gen.c:70-79 | the outputs of the loop over the paths are `Written` of them; the handle stays open throughout |
| Gen.Run | gen.c:49-83 | 0 with no effect when there is no path; 1 with no output when `CDCC_DB` is unset or the store does not open; otherwise the outputs are `Written` over the path arguments and 0 is returned; rows untouched |

## Left out

- Spawning and waiting are inputs to the model: `spawnOk` and the sequence of `waitpid` results. A run in which every wait is interrupted is excluded by `Settles`.
- `g_find_program_in_path` is the input `findProgram`.
- `g_get_current_dir` and `g_file_get_path` are the input directory.
- Db.Close: neither `db_insert` (db.c:58-109, cdcc.c:75-120) finalizes its statement, and `db_query` does not after a failed bind or step (db.c:127, db.c:150), so the following `db_close` leaves the handle open until the process exits; the model records this (`Connection.unfinalized`) but not what an open handle holds (locks, memory).
- SQLite's engine is not modelled: file locking, journaling, the busy timeout's retries, and errors other than success or failure per call are outside the model.
- The rows a `SELECT … WHERE file GLOB ?` returns are the input `select`, assumed to answer from the table: on DONE the records are the rows matching the pattern, as a multiset; on an error, some of them (the `Answers` requirement). GLOB matching itself is the input `glob`, and the order of the rows is left open.
- JSON serialisation (`json_generator_set_pretty`, the text written) is not modelled. Writing the file is the input `canWrite`.
- Logging to stderr, `g_warning`, and freeing memory are left out.
- query.c and db.h are not part of this model. db.h declares only `db_open`, `db_close` and a three-argument `db_insert`; the `Record` layout and the callback type follow the columns db.c's `SELECT` reads (db.c:134-137) and the call at db.c:144.
- Cc.SaveFlags: cc.c calls a three-argument `db_insert(db, files, args)` that db.c does not define. db.c's version takes a `GFile` directory and `GFile` files, so its effect on the store cannot be stated from the sources. The model states the call's arguments (`Recording.Inserted`) and not its effect.
- Classifier.CollectSources: in cc.c a trailing `-o` moves the iterator past the vector's terminating NULL, which is undefined behaviour. The model ends the scan there, as cdcc.c's bounded loop does.
- Text.BuildFilename: a directory made only of separators is copied verbatim, as GLib does (`//` and `*` give `//*`). GLib's handling of separators inside the name, of an absolute name and of an empty name is not modelled; the names used are `*` and `compile_commands.json`.
- Db.Query: the callback is a pure function of the records already delivered and the current one. `export_single`'s builder calls are replayed in delivery order after the query (Gen.BuildDocument), which is equivalent because it always answers TRUE.
- Cdcc.Run: `g_error` ends the process; it is modelled as the `Aborted` outcome. cdcc.c's own `db_open` and `db_close` differ from db.c's only in setting the busy timeout after creating the table (cdcc.c:51 before cdcc.c:60), so under a concurrent writer cdcc's `CREATE TABLE` can fail at once where db.c's waits. The model does not express the difference, because whether that statement succeeds is the input `schemaOk`; `Db.Open` and `Db.Close` serve both.
- Cc.Run: when `g_find_program_in_path` returns NULL (cc.c:142-145), the model assumes the spawn fails and `main` returns 1. What GLib does with a vector whose first element is NULL is not modelled, nor the dereference of a NULL `err` at cc.c:66 should GLib reject the call without setting it.
- Cc.Run and Cdcc.Run require `argc >= 1`, as every exec'd program has.
- Gen.ExportJson writes `compile_commands.json` even when no record matches and even when the query fails, as gen.c does; the result code reflects only the write.

## Findings

| source | as written | input that shows it | evidently intended | confidence | as-written member | corrected member |
|---|---|---|---|---|---|---|
| cc.c:86 | `call_tool` returns the raw `waitpid` status and `main` returns it (cc.c:147-148; also cdcc.c:166-167). The process exit keeps only the low 8 bits, where a normal exit code is zero | the compiler exits with code 2: raw status 512, the proxy exits with 0, and the build goes on as if the compile succeeded | decode the status with `WIFEXITED`/`WEXITSTATUS` and return the child's exit code (1 for a signal) | not executed; follows from the wait-status encoding of Linux/glibc | Proxy.RawStatusMasksFailure | Proxy.ExitStatus |
| cdcc.c:91-118 | the insert statement is bound and stepped per file but never reset; SQLite refuses `sqlite3_bind_*` on a statement stepped since its last reset (`SQLITE_MISUSE`) | `cdcc -c a.c b.c` with `CDCC_DB` set: only `a.c` is stored, and `b.c`'s first bind fails | reset the statement after each step, as db.c:105 does, so every file is stored | not executed; relies on SQLite's documented bind rule | Cdcc.SecondFileLost | Cdcc.InsertRowsWithReset |
