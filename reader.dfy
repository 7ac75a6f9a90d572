/** The reading side of `main` in src/main.c and varnishlog-buffer/src/main.c:
    read an entry from the varnishlog pipe, push it onto the shared list, and
    on a failed read decide between stopping, retrying and giving up. The
    process-wide `shutdown` flag, set by the signal handlers, is an input:
    each read comes with the value the flag has once the read returns. */
module Reader {
  import opened Wrappers
  import opened CStrings
  import opened GErrors
  import opened Varnishlog
  import opened Strings
  import opened Sender

  /** What `main` does after a failed `read_varnishlog_entry`. */
  datatype Action =
    | Stop   // clear the error and leave the loop
    | Retry  // clear the error and read again
    | Fatal  // keep the error and take the error path

  /** The decision: stop if a shutdown was requested, retry an interrupted
      system call (errno EINTR), otherwise give up. */
  function FailureAction(shutdown: bool, err: GError): Action
  {
    if shutdown then Stop
    else if err.domain == ErrnoDomain && err.code == EINTR then Retry
    else Fatal
  }

  /** The decision for each kind of failed read: only an `errno` of EINTR is
      retried, and a pending shutdown wins over everything. */
  lemma FailedReadAction(shutdown: bool, errno: Errno, atEof: bool)
    ensures shutdown ==> FailureAction(shutdown, EntryError(errno, atEof)) == Stop
    ensures !shutdown && errno.code == EINTR ==> FailureAction(shutdown, EntryError(errno, atEof)) == Retry
    ensures !shutdown && errno.code != EINTR ==> FailureAction(shutdown, EntryError(errno, atEof)) == Fatal
  {
    if errno.code == 0 {
      assert BufferDomain[0] != ErrnoDomain[0];
    }
  }

  /** One read: what `getline` produced and whether `shutdown` is set once
      it has returned. */
  datatype ReadStep = ReadStep(got: Getline, shutdownAfter: bool)

  predicate WellFormed(steps: seq<ReadStep>)
  {
    forall i :: 0 <= i < |steps| ==> steps[i].got.GotLine? ==> IsGetlineLine(steps[i].got.bytes)
  }

  /** How the loop ends: it saw the flag set, it took the error path with
      that error, or the reads given ran out first. */
  datatype End = Stopped | Failed(err: GError) | Pending

  /** The loop's course: how it ends and the lines it read, oldest first. */
  datatype Course = Course(end: End, lines: seq<seq<Byte>>)

  /** The read loop of `main` as a function of the reads it is given and the
      flag's value at the loop test. */
  function Reading(steps: seq<ReadStep>, shutdown: bool): Course
    decreases |steps|
  {
    if shutdown then Course(Stopped, [])
    else if steps == [] then Course(Pending, [])
    else
      var step := steps[0];
      match step.got
      case GotLine(bytes) =>
        var c := Reading(steps[1..], step.shutdownAfter);
        Course(c.end, [bytes] + c.lines)
      case GetlineFailed(errno, atEof) =>
        var err := EntryError(errno, atEof);
        match FailureAction(step.shutdownAfter, err)
        case Stop => Course(Stopped, [])
        case Retry => Reading(steps[1..], step.shutdownAfter)
        case Fatal => Course(Failed(err), [])
  }

  /** The lines of the successful reads among `steps`, in order. */
  function GotLines(steps: seq<ReadStep>): (r: seq<seq<Byte>>)
    ensures |r| <= |steps|
  {
    if steps == [] then []
    else if steps[0].got.GotLine? then [steps[0].got.bytes] + GotLines(steps[1..])
    else GotLines(steps[1..])
  }

  /** An interrupted read is never reported: the error path is never taken
      with errno EINTR, and never while a shutdown is pending. */
  lemma {:induction false} NoFatalEintr(steps: seq<ReadStep>, shutdown: bool)
    ensures Reading(steps, shutdown).end.Failed? ==>
      var err := Reading(steps, shutdown).end.err;
      !(err.domain == ErrnoDomain && err.code == EINTR)
    decreases |steps|
  {
    if !shutdown && steps != [] {
      NoFatalEintr(steps[1..], steps[0].shutdownAfter);
    }
  }

  /** The lines the loop reads are the successful reads, in order, up to
      where it ends: interruptions neither lose nor repeat a line. */
  lemma {:induction false} ReadsEveryLine(steps: seq<ReadStep>)
    requires forall i :: 0 <= i < |steps| ==> !steps[i].shutdownAfter
    requires forall i :: 0 <= i < |steps| ==> steps[i].got.GetlineFailed? ==> steps[i].got.errno.code == EINTR
    ensures Reading(steps, false) == Course(Pending, GotLines(steps))
    decreases |steps|
  {
    if steps != [] {
      ReadsEveryLine(steps[1..]);
      if steps[0].got.GetlineFailed? {
        FailedReadAction(false, steps[0].got.errno, steps[0].got.atEof);
      }
    }
  }

  /** The lines read before any failure are a prefix of the successful reads. */
  lemma {:induction false} ReadsPrefix(steps: seq<ReadStep>, shutdown: bool)
    ensures Reading(steps, shutdown).lines <= GotLines(steps)
    decreases |steps|
  {
    if !shutdown && steps != [] {
      ReadsPrefix(steps[1..], steps[0].shutdownAfter);
    }
  }

  /** What `printf("%s\n", ...)` prints for a line framed by
      `read_varnishlog_entry` is the line as varnishlog wrote it; a last line
      without a newline gets one. */
  lemma PrintedFramed(bytes: seq<Byte>)
    requires IsGetlineLine(bytes) && NUL !in bytes
    ensures bytes[|bytes| - 1] == Newline ==> Printed(Framed(bytes)) == bytes
    ensures bytes[|bytes| - 1] != Newline ==> Printed(Framed(bytes)) == bytes + [Newline]
  {
    FramedText(bytes);
    if bytes[|bytes| - 1] == Newline {
      assert bytes == bytes[..|bytes| - 1] + [Newline];
    }
  }

  /** One turn of the loop as `Reading` takes it. */
  lemma ReadingStep(steps: seq<ReadStep>, i: nat)
    requires i < |steps|
    ensures var step, next := steps[i], Reading(steps[i + 1..], steps[i].shutdownAfter);
      && (step.got.GotLine? ==> Reading(steps[i..], false) == Course(next.end, [step.got.bytes] + next.lines))
      && (step.got.GetlineFailed? ==>
            var err := EntryError(step.got.errno, step.got.atEof);
            match FailureAction(step.shutdownAfter, err)
            case Stop => Reading(steps[i..], false) == Course(Stopped, [])
            case Retry => Reading(steps[i..], false) == next
            case Fatal => Reading(steps[i..], false) == Course(Failed(err), []))
  {
    assert steps[i..][0] == steps[i] && steps[i..][1..] == steps[i + 1..];
  }

  /** Moving a line from the course ahead to the lines read. */
  lemma Shift(read: seq<seq<Byte>>, b: seq<Byte>, rest: seq<seq<Byte>>)
    ensures read + ([b] + rest) == (read + [b]) + rest
  {
  }

  /** The loop body up to the failure decision: read an entry and, if a
      line was read, push it, wrapped in a new record. */
  method ReadAndPush(control: SenderControl, got: Getline) returns (err: Option<GError>, ghost line: String?)
    requires got.GotLine? ==> IsGetlineLine(got.bytes)
    requires control.Valid() && !control.shutdown
    modifies control
    ensures err.None? <==> got.GotLine?
    ensures err.None? ==> line != null && fresh(line) && line.bytes[..] == Framed(got.bytes) && line.len == |got.bytes|
    ensures err.None? ==> control.pushed == old(control.pushed) + [line]
    ensures err.Some? ==> err.value == EntryError(got.errno, got.atEof) && control.pushed == old(control.pushed)
    ensures control.sent == old(control.sent) && control.dropped == old(control.dropped)
    ensures control.Valid() && !control.shutdown
  {
    var ok, buf, len, failure := ReadEntry(got);
    if !ok {
      return failure, null;
    }
    var record := new String.NewMallocedWithLen(buf, len);
    control.Push(record);
    return None, record;
  }

  /** The loop `while( !shutdown )` of `main`: read, and push each line
      read, wrapped in a new record, onto the shared list. */
  method ReadLoop(control: SenderControl, steps: seq<ReadStep>, shutdown: bool)
    returns (end: End, ghost added: seq<String>)
    requires WellFormed(steps)
    requires control.Valid() && !control.shutdown
    modifies control
    ensures end == Reading(steps, shutdown).end
    ensures |added| == |Reading(steps, shutdown).lines|
    ensures forall i :: 0 <= i < |added| ==>
      fresh(added[i]) && added[i].bytes[..] == Framed(Reading(steps, shutdown).lines[i])
      && added[i].len == |Reading(steps, shutdown).lines[i]|
    ensures control.pushed == old(control.pushed) + added
    ensures control.sent == old(control.sent) && control.dropped == old(control.dropped)
    ensures control.Valid() && !control.shutdown
  {
    var flag := shutdown;
    var i := 0;
    ghost var read: seq<seq<Byte>> := [];
    added := [];
    while !flag && i < |steps|
      invariant 0 <= i <= |steps|
      invariant Reading(steps, shutdown).end == Reading(steps[i..], flag).end
      invariant Reading(steps, shutdown).lines == read + Reading(steps[i..], flag).lines
      invariant |added| == |read|
      invariant forall j :: 0 <= j < |added| ==>
        fresh(added[j]) && added[j].bytes[..] == Framed(read[j]) && added[j].len == |read[j]|
      invariant control.pushed == old(control.pushed) + added
      invariant control.sent == old(control.sent) && control.dropped == old(control.dropped)
      invariant control.Valid() && !control.shutdown
    {
      var step := steps[i];
      ReadingStep(steps, i);
      ghost var next := Reading(steps[i + 1..], step.shutdownAfter);
      var err, line := ReadAndPush(control, step.got);
      if err.Some? {
        var action := FailureAction(step.shutdownAfter, err.value);
        if action == Stop {
          assert read + [] == read;
          return Stopped, added;
        } else if action == Fatal {
          assert read + [] == read;
          return Failed(err.value), added;
        }
        assert Reading(steps[i..], false) == next;
      } else {
        Shift(read, step.got.bytes, next.lines);
        read := read + [step.got.bytes];
        added := added + [line];
      }
      flag := step.shutdownAfter;
      i := i + 1;
    }
    if flag {
      end := Stopped;
    } else {
      end := Pending;
      assert steps[i..] == [];
    }
  }
}
