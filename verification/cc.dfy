/**
 * The `cc` proxy (cc.c): it finds the real tool from its own name, runs it,
 * hands the tool's status back, and after a successful run asks the record
 * store to record the invocation.
 *
 * The operating system is represented by inputs: `findProgram` stands for
 * `g_find_program_in_path`, `spawnOk` for the result of
 * `g_spawn_async_with_pipes`, `waits` for the successive results of `waitpid`,
 * `env` for the environment and `openOk` for the result of `db_open`.
 */
module Cc {
  import opened Wrappers
  import opened Text
  import opened Env
  import opened Proxy
  import opened Classifier

  /**
   * `extract_toolname`: the text after the first `-` of the whole name (not of
   * its base name), or nothing when there is no `-` or it is the last character.
   */
  function ExtractToolname(name: string): (r: Option<string>)
    ensures r.Some? ==> exists k :: 0 <= k < |name| - 1 && name[k] == '-' &&
                                    (forall j :: 0 <= j < k ==> name[j] != '-') &&
                                    r.value == name[k + 1..]
    ensures r.None? ==> (forall j :: 0 <= j < |name| ==> name[j] != '-') ||
                        (name[|name| - 1] == '-' && forall j :: 0 <= j < |name| - 1 ==> name[j] != '-')
  {
    match IndexOf(name, '-')
    case None => None
    case Some(pos) => if pos + 1 == |name| then None else Some(name[pos + 1..])
  }

  /** The tool `main` looks up: the extracted name, or "cc" when there is none. */
  function ToolName(argv0: string): (r: string)
    ensures r != ""
    ensures (forall j :: 0 <= j < |argv0| ==> argv0[j] != '-') ==> r == "cc"
    ensures |argv0| > 0 && argv0[|argv0| - 1] == '-' && (forall j :: 0 <= j < |argv0| - 1 ==> argv0[j] != '-') ==> r == "cc"
    ensures r == "cc" || (HasSuffix(argv0, r) && |r| < |argv0| && argv0[|argv0| - |r| - 1] == '-')
  {
    var t := ExtractToolname(argv0);
    if t.Some? then
      assert argv0[|argv0| - |t.value|..] == t.value;
      t.value
    else "cc"
  }

  /** When the first `-` of the name is at `k` and is not the last character, the tool is the rest of the name. */
  lemma ToolNameAfterFirstDash(name: string, k: nat)
    requires k < |name| - 1 && name[k] == '-'
    requires forall j :: 0 <= j < k ==> name[j] != '-'
    ensures ToolName(name) == name[k + 1..]
  {
    var t := ExtractToolname(name);
    assert t.Some?;
    var k' :| 0 <= k' < |name| - 1 && name[k'] == '-' && (forall j :: 0 <= j < k' ==> name[j] != '-') &&
              t.value == name[k' + 1..];
    assert k' == k;
  }

  /** The name is taken after the first dash of the whole path, so a dash in a directory name decides the tool. */
  lemma ToolNameExamples()
    ensures ToolName("cdcc-gcc") == "gcc"
    ensures ToolName("/opt/my-tools/cc") == "tools/cc"
  {
    var a := "cdcc-gcc";
    assert a[0] != '-' && a[1] != '-' && a[2] != '-' && a[3] != '-' && a[4] == '-';
    ToolNameAfterFirstDash(a, 4);
    assert a[5..] == "gcc";
    var b := "/opt/my-tools/cc";
    assert b[0] != '-' && b[1] != '-' && b[2] != '-' && b[3] != '-' && b[4] != '-' && b[5] != '-' && b[6] != '-';
    assert b[7] == '-';
    ToolNameAfterFirstDash(b, 7);
    assert b[8..] == "tools/cc";
  }

  /**
   * `call_tool`: 1 when the spawn fails, `waitpid` retried while it is
   * interrupted, 1 when it fails otherwise, else the raw wait status.
   */
  method CallTool(spawnOk: bool, waits: seq<WaitResult>) returns (res: int)
    requires spawnOk ==> Settles(waits)
    ensures !spawnOk ==> res == 1
    ensures spawnOk ==> waits[FirstSettled(waits)].WaitFailed? ==> res == 1
    ensures spawnOk ==> waits[FirstSettled(waits)].Reaped? ==> res == waits[FirstSettled(waits)].status
  {
    if !spawnOk {
      return 1;
    }
    var i := 0;
    while waits[i].Interrupted?
      invariant i <= FirstSettled(waits)
      decreases FirstSettled(waits) - i
    {
      i := i + 1;
    }
    match waits[i]
    case WaitFailed => res := 1;
    case Reaped(status) => res := status;
  }

  /** What `save_flags` asks of the record store. */
  datatype Recording =
    | NotAttempted                                                // no database opened
    | OpenFailed(path: string)                                    // `db_open` returned NULL
    | Inserted(path: string, files: seq<string>, argv: seq<string>)  // `db_insert(db, files, args)` then `db_close`

  /**
   * The decision `save_flags` takes: nothing without `CDCC_DB` or without a
   * source file; otherwise open the store named by `CDCC_DB` and, if that
   * works, insert the source files with the whole vector.
   */
  predicate SaveDecision(args: seq<string>, env: map<string, string>, openOk: bool, r: Recording)
    ensures SaveDecision(args, env, openOk, r) && r.Inserted? ==> openOk && r.files != [] && r.files == SourceFiles(args)
  {
    && (r.NotAttempted? <==> DB_VARIABLE !in env || SourceFiles(args) == [])
    && (r.OpenFailed? <==> DB_VARIABLE in env && SourceFiles(args) != [] && !openOk)
    && (r.OpenFailed? ==> r.path == env[DB_VARIABLE])
    && (r.Inserted? ==> r == Inserted(env[DB_VARIABLE], SourceFiles(args), args))
  }

  /** `save_flags`: classify the arguments and record them; recording never fails the proxy. */
  method SaveFlags(args: seq<string>, env: map<string, string>, openOk: bool) returns (ret: int, recording: Recording)
    ensures ret == 0
    ensures SaveDecision(args, env, openOk, recording)
  {
    var dbPath := Getenv(env, DB_VARIABLE);
    if dbPath.None? {
      return 0, NotAttempted;
    }
    var files := CollectSources(args);
    if |files| > 0 {
      if !openOk {
        return 0, OpenFailed(dbPath.value);
      }
      return 0, Inserted(dbPath.value, files, args);
    }
    return 0, NotAttempted;
  }

  /**
   * `main`: run the tool named by `argv[0]` with `argv[0]` replaced by its
   * path; a nonzero result is returned as it is and nothing is recorded; on 0
   * the invocation is recorded and 0 is returned whatever recording does.
   */
  method Run(argv: seq<string>, findProgram: string -> Option<string>, spawnOk: bool,
              waits: seq<WaitResult>, env: map<string, string>, openOk: bool)
    returns (ret: int, child: seq<string>, recording: Recording)
    requires |argv| >= 1
    requires findProgram(ToolName(argv[0])).Some? && spawnOk ==> Settles(waits)
    ensures child == [] <==> findProgram(ToolName(argv[0])).None?
    ensures child != [] ==> child == [findProgram(ToolName(argv[0])).value] + argv[1..]
    ensures child == [] || !spawnOk ==> ret == 1 && recording == NotAttempted
    ensures child != [] && spawnOk ==>
      var w := waits[FirstSettled(waits)];
      && (w.WaitFailed? ==> ret == 1 && recording == NotAttempted)
      && (w.Reaped? && w.status != 0 ==> ret == w.status && recording == NotAttempted)
      && (w.Reaped? && w.status == 0 ==> ret == 0 && SaveDecision(child, env, openOk, recording))
  {
    var toolpath := findProgram(ToolName(argv[0]));
    // argv[0] = toolpath; a NULL path ends the vector there
    child := if toolpath.Some? then [toolpath.value] + argv[1..] else [];
    var res := CallTool(spawnOk && child != [], waits);
    if res != 0 {
      return res, child, NotAttempted;
    }
    var _, saved := SaveFlags(child, env, openOk);
    return res, child, saved;
  }
}
