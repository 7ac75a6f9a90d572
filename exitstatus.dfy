/** The status `main` ends with in src/main.c and varnishlog-buffer/src/main.c
    once varnishlog has been reaped: the child's wait status, except that
    death by SIGINT (which `shutdown_varnishlog` sends) counts as success.
    The `<sys/wait.h>` macros are written out as glibc defines them. */
module ExitStatus {
  import opened Varnishlog

  const SIGINT: int := 2
  const EXIT_SUCCESS: int := 0

  /** `WTERMSIG`: the low seven bits. */
  function TermSig(stat: WaitStatus): int
  {
    stat % 0x80
  }

  /** `WIFSIGNALED`: the low seven bits are neither 0 (exited) nor 0x7f (stopped). */
  predicate IfSignaled(stat: WaitStatus)
  {
    stat % 0x80 != 0 && stat % 0x80 != 0x7f
  }

  /** `WIFEXITED`. */
  predicate IfExited(stat: WaitStatus)
  {
    stat % 0x80 == 0
  }

  /** `WEXITSTATUS`: bits 8 to 15. */
  function ExitCode(stat: WaitStatus): int
  {
    stat / 0x100 % 0x100
  }

  /** The value `main` returns after a successful shutdown. */
  function MainReturn(stat: WaitStatus): int
  {
    if !IfSignaled(stat) || TermSig(stat) != SIGINT then stat else EXIT_SUCCESS
  }

  /** What `main` returns: EXIT_SUCCESS for a child killed by SIGINT, the wait
      status itself otherwise. */
  lemma MainReturnFolds(stat: WaitStatus)
    ensures IfSignaled(stat) && TermSig(stat) == SIGINT ==> MainReturn(stat) == EXIT_SUCCESS
    ensures !(IfSignaled(stat) && TermSig(stat) == SIGINT) ==> MainReturn(stat) == stat
    ensures MainReturn(stat) == EXIT_SUCCESS <==> stat == 0 || stat % 0x80 == SIGINT
  {
  }

  /** The parent of a process sees the low eight bits of the value `main`
      returns. */
  function Reported(ret: int): (code: int)
    ensures 0 <= code < 0x100
  {
    ret % 0x100
  }

  /** The status the daemon exits with, as written. */
  function DaemonExitAsWritten(stat: WaitStatus): int
  {
    Reported(MainReturn(stat))
  }

  /** A child that exits with status 1 has wait status 0x100; returning that
      from `main` reports success. */
  lemma ChildFailureReportedAsSuccess()
    ensures IfExited(0x100) && ExitCode(0x100) == 1
    ensures DaemonExitAsWritten(0x100) == EXIT_SUCCESS
  {
  }

  /** Every exit status of the child is lost in the same way: `exit(code)`
      leaves the wait status `code << 8`, whose low eight bits are zero. */
  lemma ExitCodeLost(code: int)
    requires 0 <= code < 0x100
    ensures IfExited(code * 0x100) && ExitCode(code * 0x100) == code
    ensures DaemonExitAsWritten(code * 0x100) == EXIT_SUCCESS
  {
  }

  /** The status as evidently intended: a child's own exit status is passed
      on, death by SIGINT is success, other deaths keep the low bits. */
  function DaemonExit(stat: WaitStatus): int
  {
    if IfExited(stat) then ExitCode(stat)
    else Reported(MainReturn(stat))
  }

  /** The daemon reports success exactly when varnishlog exited with status 0
      or was killed by SIGINT, and passes a child's exit status on unchanged. */
  lemma DaemonExitSucceeds(stat: WaitStatus)
    ensures DaemonExit(stat) == EXIT_SUCCESS <==>
      (IfExited(stat) && ExitCode(stat) == 0) || (IfSignaled(stat) && TermSig(stat) == SIGINT)
    ensures IfExited(stat) ==> DaemonExit(stat) == ExitCode(stat)
    ensures 0 <= DaemonExit(stat) < 0x100
  {
    if IfExited(stat) {
      assert DaemonExit(stat) == ExitCode(stat);
    } else if IfSignaled(stat) && TermSig(stat) == SIGINT {
      assert DaemonExit(stat) == EXIT_SUCCESS;
    } else {
      assert DaemonExit(stat) == stat % 0x100;
      LowBitsKept(stat);
    }
  }

  /** The low seven bits survive the cut to eight: a status with any of them
      set is not reported as zero. */
  lemma LowBitsKept(stat: WaitStatus)
    ensures stat % 0x100 % 0x80 == stat % 0x80
  {
    var q, r := stat / 0x100, stat % 0x100;
    assert stat == 0x80 * (2 * q) + r;
  }
}
