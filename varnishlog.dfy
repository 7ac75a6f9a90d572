/** The varnishlog subprocess as src/varnishlog.c sees it: reading one entry
    from its pipe, and tearing its handle down. The outcomes of `getline`,
    `kill`, `fclose` and `waitpid` are parameters. */
module Varnishlog {
  import opened Wrappers
  import opened CStrings
  import opened GErrors

  /** `ESRCH` on Linux: `kill` found no such process. */
  const ESRCH: Int32 := 3

  /** A status as `waitpid` stores it: 16 significant bits. */
  type WaitStatus = s: int | 0 <= s < 0x1_0000

  // ----- read_varnishlog_entry

  /** What one `getline` call on the pipe produced: the bytes it read (the
      line and its newline if the stream had one), or -1 with the `errno` it
      left (0 if none) and the stream's end-of-file indicator. */
  datatype Getline = GotLine(bytes: seq<Byte>) | GetlineFailed(errno: Errno, atEof: bool)

  /** A successful `getline` returns at least one byte and stops at the
      first newline. */
  predicate IsGetlineLine(bytes: seq<Byte>)
  {
    |bytes| > 0 && forall i :: 0 <= i < |bytes| - 1 ==> bytes[i] != Newline
  }

  const PipeEofMessage: CString := "End of file found on varnishlog pipe"
  const PipeUnspecMessage: CString := "Unspecified error reading varnishlog pipe"

  /** The error `read_varnishlog_entry` sets for a failed read. */
  function EntryError(errno: Errno, atEof: bool): (r: GError)
    ensures errno.code != 0 ==> r == ErrnoError(errno)
    ensures errno.code == 0 && atEof ==>
      r == GError(BufferDomain, ErrorEof, PipeEofMessage)
    ensures errno.code == 0 && !atEof ==>
      r == GError(BufferDomain, ErrorUnspec, PipeUnspecMessage)
  {
    if errno.code != 0 then ErrnoError(errno)
    else if atEof then GError(BufferDomain, ErrorEof, PipeEofMessage)
    else GError(BufferDomain, ErrorUnspec, PipeUnspecMessage)
  }

  /** The buffer `getline` fills (the bytes and a NUL) after the entry's
      trailing newline, if any, has been overwritten by NUL. */
  function Framed(bytes: seq<Byte>): (buf: seq<Byte>)
  {
    if |bytes| > 0 && bytes[|bytes| - 1] == Newline then bytes[..|bytes| - 1] + [NUL, NUL]
    else bytes + [NUL]
  }

  /** The entry a C string reader sees in the buffer: the line without its
      newline. A final line without a newline is kept whole. */
  lemma FramedText(bytes: seq<Byte>)
    requires IsGetlineLine(bytes) && NUL !in bytes
    ensures |Framed(bytes)| == |bytes| + 1
    ensures bytes[|bytes| - 1] == Newline ==>
      UpToNul(Framed(bytes)) == bytes[..|bytes| - 1] && Newline !in UpToNul(Framed(bytes))
    ensures bytes[|bytes| - 1] != Newline ==>
      UpToNul(Framed(bytes)) == bytes && Newline !in UpToNul(Framed(bytes))
  {
    var n := |bytes|;
    if bytes[n - 1] == Newline {
      var text := bytes[..n - 1];
      assert NUL !in text by {
        forall i | 0 <= i < |text| ensures text[i] != NUL { assert text[i] == bytes[i]; }
      }
      assert Framed(bytes) == text + [NUL] + [NUL];
      UpToNulTerminated(text, [NUL]);
      assert Newline !in text by {
        forall i | 0 <= i < |text| ensures text[i] != Newline { assert text[i] == bytes[i]; }
      }
    } else {
      assert Framed(bytes) == bytes + [NUL] + [];
      UpToNulTerminated(bytes, []);
      assert Newline !in bytes by {
        forall i | 0 <= i < n ensures bytes[i] != Newline {
          if i < n - 1 { } else { assert bytes[i] == bytes[n - 1]; }
        }
      }
    }
  }

  /** `read_varnishlog_entry(v, &line, &len, &err)`, with `errno` cleared
      before the read so that only the error `getline` left is seen. */
  method ReadEntry(got: Getline) returns (ok: bool, line: array?<Byte>, len: nat, err: Option<GError>)
    requires got.GotLine? ==> IsGetlineLine(got.bytes)
    ensures ok <==> got.GotLine?
    ensures ok ==> line != null && fresh(line) && line[..] == Framed(got.bytes)
    ensures ok ==> len == |got.bytes| && err == None
    ensures !ok ==> line == null && err == Some(EntryError(got.errno, got.atEof))
  {
    if got.GetlineFailed? {
      return false, null, 0, Some(EntryError(got.errno, got.atEof));
    }
    var bytes := got.bytes;
    var slen := |bytes|;
    line := new Byte[slen + 1](i requires 0 <= i <= slen => if i < slen then bytes[i] else NUL);
    assert line[..] == bytes + [NUL];
    len := slen;
    if line[slen - 1] == Newline {
      line[slen - 1] := NUL;
      assert line[..] == bytes[..slen - 1] + [NUL, NUL];
    }
    ok, err := true, None;
  }

  // ----- shutdown_varnishlog

  /** What `waitpid` returned: the child's status, or -1 with `errno`. */
  datatype Wait = Reaped(status: WaitStatus) | WaitFailed(errno: Errno)

  /** The handle's `FILE *`: an open stream, a stream `fclose` has already
      released although the pointer still refers to it, or NULL. */
  datatype Stream = Open(id: nat) | Released(id: nat) | Null

  /** How a `shutdown_varnishlog` call ends: it returned true (with the
      status `waitpid` stored, if it got that far), it returned false with
      `*err` set, or it called `fclose` on a NULL or already released
      stream, which is undefined behaviour. */
  datatype Teardown = Succeeded(stat: Option<WaitStatus>) | Erred(err: GError) | Undefined

  /** `shutdown_varnishlog` on a handle with pid `pid` and stream `stream`:
      how it ends, and the pid and stream it leaves. `kill` and `fclose` give
      `None` on success and the `errno` otherwise. Whether or not `fclose`
      succeeds, the stream is released. */
  function ShutdownOf(pid: Option<int>, stream: Stream, kill: Option<Errno>, fclose: Option<Errno>, wait: Wait)
    : (Teardown, Option<int>, Stream)
  {
    if pid.None? then (Succeeded(None), pid, stream)
    else if kill.Some? && kill.value.code != ESRCH then (Erred(ErrnoError(kill.value)), pid, stream)
    else if !stream.Open? then (Undefined, pid, stream)
    else if fclose.Some? then (Erred(ErrnoError(fclose.value)), pid, Released(stream.id))
    else if wait.WaitFailed? then (Erred(ErrnoError(wait.errno)), pid, Null)
    else (Succeeded(Some(wait.status)), None, Null)
  }

  /** The cases of a teardown, step by step. */
  lemma TeardownCases(pid: Option<int>, stream: Stream, kill: Option<Errno>, fclose: Option<Errno>, wait: Wait)
    // already torn down: success, nothing changes
    ensures pid.None? ==> ShutdownOf(pid, stream, kill, fclose, wait) == (Succeeded(None), pid, stream)
    // kill failed for a reason other than "no such process": nothing changes
    ensures pid.Some? && kill.Some? && kill.value.code != ESRCH ==>
      ShutdownOf(pid, stream, kill, fclose, wait) == (Erred(ErrnoError(kill.value)), pid, stream)
    // the signal was delivered, or the child was already gone ...
    ensures pid.Some? && (kill.None? || kill.value.code == ESRCH) ==>
      var (r, p, s) := ShutdownOf(pid, stream, kill, fclose, wait);
      // ... and the stream is NULL or released already
      && (!stream.Open? ==> r == Undefined)
      // ... closing the stream failed: it is released all the same
      && (stream.Open? && fclose.Some? ==>
            r == Erred(ErrnoError(fclose.value)) && p == pid && s == Released(stream.id))
      // ... the stream is closed, but reaping failed: the pid stays
      && (stream.Open? && fclose.None? && wait.WaitFailed? ==>
            r == Erred(ErrnoError(wait.errno)) && p == pid && s == Null)
      // ... everything succeeded
      && (stream.Open? && fclose.None? && wait.Reaped? ==>
            r == Succeeded(Some(wait.status)) && p == None && s == Null)
  {
  }

  /** A teardown returns true exactly when there was nothing to tear down or
      every step succeeded, and then no pid is left. */
  lemma TeardownFinished(pid: Option<int>, stream: Stream, kill: Option<Errno>, fclose: Option<Errno>, wait: Wait)
    ensures var (r, p, s) := ShutdownOf(pid, stream, kill, fclose, wait);
      && (r.Succeeded? <==> pid.None? || ((kill.None? || kill.value.code == ESRCH) && stream.Open? && fclose.None? && wait.Reaped?))
      && (r.Succeeded? ==> p == None)
      && (r.Erred? ==> p == pid && p.Some?)
  {
  }

  /** As written, after a first teardown that fails at `waitpid`, the second
      call that main's error path makes reaches `fclose(NULL)`. */
  lemma RetryAfterWaitFailure(pid: int, stream: nat, wait: Wait, errno: Errno, kill: Option<Errno>, fclose: Option<Errno>)
    requires kill.None? || kill.value.code == ESRCH
    ensures var (r1, p1, s1) := ShutdownOf(Some(pid), Open(stream), None, None, WaitFailed(errno));
      && r1 == Erred(ErrnoError(errno)) && s1 == Null
      && ShutdownOf(p1, s1, kill, fclose, wait).0 == Undefined
  {
  }

  /** As written, after a first teardown whose `fclose` fails, the second
      call closes the released stream again. */
  lemma RetryAfterCloseFailure(pid: int, stream: nat, errno: Errno, wait: Wait, kill: Option<Errno>, fclose: Option<Errno>, wait2: Wait)
    requires kill.None? || kill.value.code == ESRCH
    ensures var (r1, p1, s1) := ShutdownOf(Some(pid), Open(stream), None, Some(errno), wait);
      && r1 == Erred(ErrnoError(errno)) && s1 == Released(stream)
      && ShutdownOf(p1, s1, kill, fclose, wait2).0 == Undefined
  {
  }

  /** The teardown evidently intended: the stream is closed only while it is
      open and is cleared as soon as `fclose` is called, so that calling the
      teardown again after a failure is safe. */
  function GuardedTeardown(pid: Option<int>, stream: Stream, kill: Option<Errno>, fclose: Option<Errno>, wait: Wait)
    : (Teardown, Option<int>, Stream)
  {
    if pid.None? then (Succeeded(None), pid, stream)
    else if kill.Some? && kill.value.code != ESRCH then (Erred(ErrnoError(kill.value)), pid, stream)
    else if stream.Open? && fclose.Some? then (Erred(ErrnoError(fclose.value)), pid, Null)
    else if wait.WaitFailed? then (Erred(ErrnoError(wait.errno)), pid, Null)
    else (Succeeded(Some(wait.status)), None, Null)
  }

  /** The guarded teardown never has undefined behaviour, never leaves a
      released stream behind, and differs from the source's only where the
      source has undefined behaviour or leaves the stream released. */
  lemma GuardedTeardownSafe(pid: Option<int>, stream: Stream, kill: Option<Errno>, fclose: Option<Errno>, wait: Wait)
    requires !stream.Released?
    ensures var (r, p, s) := GuardedTeardown(pid, stream, kill, fclose, wait);
      r != Undefined && !s.Released?
    ensures ShutdownOf(pid, stream, kill, fclose, wait).0 != Undefined && !ShutdownOf(pid, stream, kill, fclose, wait).2.Released? ==>
      GuardedTeardown(pid, stream, kill, fclose, wait) == ShutdownOf(pid, stream, kill, fclose, wait)
  {
  }

  /** With the guarded teardown, main's second call after any failure is
      safe, and when the child can then be reaped it is. */
  lemma GuardedRetry(pid: int, stream: nat, kill1: Option<Errno>, fclose1: Option<Errno>, wait1: Wait,
                     kill2: Option<Errno>, fclose2: Option<Errno>, status: WaitStatus)
    requires kill2.None? || kill2.value.code == ESRCH
    ensures var (r1, p1, s1) := GuardedTeardown(Some(pid), Open(stream), kill1, fclose1, wait1);
      var (r2, p2, s2) := GuardedTeardown(p1, s1, kill2, fclose2, Reaped(status));
      r1.Erred? ==> r2 != Undefined && (s1.Null? ==> r2 == Succeeded(Some(status)) && p2 == None)
  {
  }

  /** `struct Varnishlog`: the child's pid (NULL once reaped) and the stream
      reading its standard output. */
  class Handle {
    var pid: Option<int>
    var stdout: Stream

    /** The handle `start_varnishlog` returns on success. */
    constructor (pid: int, stream: nat)
      ensures this.pid == Some(pid) && stdout == Open(stream)
    {
      this.pid := Some(pid);
      stdout := Open(stream);
    }

    /** `shutdown_varnishlog(v, &stat, &err)`: send SIGINT, close the stream,
        reap the child. */
    method Shutdown(kill: Option<Errno>, fclose: Option<Errno>, wait: Wait) returns (r: Teardown)
      modifies this
      ensures (r, pid, stdout) == ShutdownOf(old(pid), old(stdout), kill, fclose, wait)
    {
      if pid.None? {
        return Succeeded(None);
      }
      if kill.Some? && kill.value.code != ESRCH {
        return Erred(ErrnoError(kill.value));
      }
      if !stdout.Open? {
        return Undefined;
      }
      var closing := stdout.id;
      stdout := Released(closing);
      if fclose.Some? {
        return Erred(ErrnoError(fclose.value));
      }
      stdout := Null;
      if wait.WaitFailed? {
        return Erred(ErrnoError(wait.errno));
      }
      pid := None;
      r := Succeeded(Some(wait.status));
    }
  }
}
