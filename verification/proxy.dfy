/**
 * What the proxies learn from the operating system about the compiler they
 * ran: the results of successive `waitpid` calls, the encoding of a child's
 * end in the wait status, and what a parent sees of the value `main` returns.
 */
module Proxy {

  /** One `waitpid(pid, &status, 0)` call: interrupted (EINTR), failed otherwise, or reaped the child. */
  datatype WaitResult = Interrupted | WaitFailed | Reaped(status: int)

  /** The child is eventually reaped or waiting fails: not every call is interrupted. */
  predicate Settles(waits: seq<WaitResult>) {
    exists i :: 0 <= i < |waits| && !waits[i].Interrupted?
  }

  /** The index of the `waitpid` call that the `goto again` retry loop stops at. */
  function FirstSettled(waits: seq<WaitResult>): (k: nat)
    requires Settles(waits)
    ensures k < |waits| && !waits[k].Interrupted?
    ensures forall j :: 0 <= j < k ==> waits[j].Interrupted?
  {
    if !waits[0].Interrupted? then 0
    else
      assert Settles(waits[1..]) by {
        var i :| 0 <= i < |waits| && !waits[i].Interrupted?;
        assert i > 0 && !waits[1..][i - 1].Interrupted?;
      }
      1 + FirstSettled(waits[1..])
  }

  // ---------------------------------------------------------------------
  // Wait-status encoding (Linux/glibc convention) and process exit codes.
  // ---------------------------------------------------------------------

  /** How a child process ended. */
  datatype Termination = Exited(code: int) | Signaled(signal: int, coreDumped: bool)

  predicate ValidTermination(t: Termination) {
    match t
    case Exited(code) => 0 <= code < 256
    case Signaled(signal, _) => 1 <= signal < 128
  }

  /** The raw status `waitpid` stores: the exit code in bits 8..15, or the signal in bits 0..6 with bit 7 for a core dump. */
  function WaitStatus(t: Termination): (s: int)
    ensures ValidTermination(t) ==> 0 <= s < 0x1_0000
    ensures ValidTermination(t) ==> (s == 0 <==> t == Exited(0))
  {
    match t
    case Exited(code) => code * 256
    case Signaled(signal, core) => signal + (if core then 128 else 0)
  }

  /** `WIFEXITED(status)`: `(status & 0x7f) == 0`. */
  predicate ExitedNormally(status: int) {
    status % 128 == 0
  }

  /** `WEXITSTATUS(status)`: `(status >> 8) & 0xff` (Dafny's `/` and `%` floor, as the shift and mask do). */
  function ExitCodeOf(status: int): int {
    (status / 256) % 256
  }

  /** What the parent of a process sees when that process's `main` returns `r`: `exit(r)` keeps `r & 0377`. */
  function SeenExitCode(r: int): (c: int)
    ensures 0 <= c < 256
  {
    r % 256
  }

  /**
   * As written (cc.c:86 with cc.c:147-148, cdcc.c:166-167): `main` returns the raw
   * wait status. For a compiler that fails with any exit code 1..255 that status
   * is nonzero, so nothing is recorded, yet the build sees exit code 0.
   */
  lemma RawStatusMasksFailure(code: int)
    requires 1 <= code < 256
    ensures WaitStatus(Exited(code)) != 0
    ensures SeenExitCode(WaitStatus(Exited(code))) == 0
  {
    assert WaitStatus(Exited(code)) == code * 256;
  }

  /** The concrete case: a compiler exiting with status 2 makes the proxy look successful. */
  lemma RawStatusMasksExitTwo()
    ensures WaitStatus(Exited(2)) == 512
    ensures SeenExitCode(WaitStatus(Exited(2))) == 0
  {
  }

  /** Decoding the status of a valid termination: a normal exit is recognised and gives back its code; a signal is not a normal exit. */
  lemma WaitStatusDecodes(t: Termination)
    requires ValidTermination(t)
    ensures t.Exited? ==> ExitedNormally(WaitStatus(t)) && ExitCodeOf(WaitStatus(t)) == t.code
    ensures t.Signaled? ==> !ExitedNormally(WaitStatus(t))
  {
    match t
    case Exited(code) =>
      assert WaitStatus(t) == code * 256;
      assert (code * 256) / 256 == code;
    case Signaled(signal, core) =>
      var s := WaitStatus(t);
      assert s == signal + (if core then 128 else 0);
      assert s % 128 == signal;
  }

  /** Every termination a status can stand for decodes the same way from it. */
  lemma StatusDecodes(status: int)
    ensures forall t :: ValidTermination(t) && WaitStatus(t) == status ==>
      (t.Exited? ==> ExitedNormally(status) && ExitCodeOf(status) == t.code) &&
      (t.Signaled? ==> !ExitedNormally(status))
  {
    forall t | ValidTermination(t) && WaitStatus(t) == status
      ensures t.Exited? ==> ExitedNormally(status) && ExitCodeOf(status) == t.code
      ensures t.Signaled? ==> !ExitedNormally(status)
    {
      WaitStatusDecodes(t);
    }
  }

  /**
   * Corrected: decode the wait status before returning it from `main` — the
   * child's exit code when it exited, the generic failure 1 when a signal
   * ended it — so the result is 0 exactly for a successful compile.
   */
  function ExitStatus(status: int): (r: int)
    ensures forall t :: ValidTermination(t) && WaitStatus(t) == status ==>
      r == (if t.Exited? then t.code else 1)
    ensures forall t :: ValidTermination(t) && WaitStatus(t) == status ==>
      (r == 0 <==> t == Exited(0))
  {
    StatusDecodes(status);
    if ExitedNormally(status) then ExitCodeOf(status) else 1
  }

  /** With the decoding, the build sees the compiler's own exit code, and 0 only for a successful compile. */
  lemma ExitStatusReportsChild(t: Termination)
    requires ValidTermination(t)
    ensures t.Exited? ==> SeenExitCode(ExitStatus(WaitStatus(t))) == t.code
    ensures t.Signaled? ==> SeenExitCode(ExitStatus(WaitStatus(t))) == 1
    ensures SeenExitCode(ExitStatus(WaitStatus(t))) == 0 <==> t == Exited(0)
  {
    var r := ExitStatus(WaitStatus(t));
    assert r == (if t.Exited? then t.code else 1);
  }
}
