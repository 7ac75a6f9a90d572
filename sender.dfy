/** The record list shared by the reader and the sender in src/main.c and
    varnishlog-buffer/src/main.c. The reader prepends each line it reads; the
    sender takes the whole list, reverses it, prints every line and frees the
    records. Locking and waiting are not modelled: each operation is one
    critical section run to completion. */
module Sender {
  import opened CStrings
  import opened Strings

  /** The list read from its last element to its first. */
  function Reversed<T>(s: seq<T>): (r: seq<T>)
    ensures |r| == |s|
    ensures forall i :: 0 <= i < |s| ==> r[i] == s[|s| - 1 - i]
  {
    if s == [] then [] else [s[|s| - 1]] + Reversed(s[..|s| - 1])
  }

  /** Prepending to the list appends to its reversal. */
  lemma ReversedCons<T>(x: T, s: seq<T>)
    ensures Reversed([x] + s) == Reversed(s) + [x]
  {
    var l, r := Reversed([x] + s), Reversed(s) + [x];
    assert |l| == |r|;
    forall i | 0 <= i < |l| ensures l[i] == r[i] {
      if i < |s| { assert l[i] == ([x] + s)[|s| - i] == s[|s| - 1 - i]; }
    }
  }

  /** Reversing twice gives the list back. */
  lemma ReversedReversed<T>(s: seq<T>)
    ensures Reversed(Reversed(s)) == s
  {
    var r := Reversed(Reversed(s));
    assert |r| == |s|;
    forall i | 0 <= i < |s| ensures r[i] == s[i] {
      assert r[i] == Reversed(s)[|s| - 1 - i];
    }
  }

  /** Standard output: the bytes written so far, and how many of them have
      been handed to the system by `fflush`. */
  class Stdout {
    var text: seq<Byte>
    var flushed: nat

    constructor ()
      ensures text == [] && flushed == 0
    {
      text, flushed := [], 0;
    }
  }

  /** What `printf("%s\n", line->bytes)` writes for a buffer holding
      `text`: the bytes up to the first NUL, then one newline. */
  function Printed(text: seq<Byte>): seq<Byte>
  {
    UpToNul(text) + [Newline]
  }

  /** A printed line is a prefix of the buffer, without NUL, and one
      newline; a buffer without NUL is printed whole. */
  lemma PrintedLine(text: seq<Byte>)
    ensures var out := Printed(text);
      && |out| > 0 && out[|out| - 1] == Newline && NUL !in out
      && out[..|out| - 1] <= text
      && (NUL !in text ==> out == text + [Newline])
  {
    UpToNulPrefix(text);
    assert Printed(text)[..|Printed(text)| - 1] == UpToNul(text);
  }

  /** The buffers of a batch printed in order. */
  function PrintedAll(texts: seq<seq<Byte>>): (r: seq<Byte>)
    ensures |r| >= |texts|
  {
    if texts == [] then [] else PrintedAll(texts[..|texts| - 1]) + Printed(texts[|texts| - 1])
  }

  /** Printing two batches one after the other prints their concatenation. */
  lemma {:induction false} PrintedAllAppend(a: seq<seq<Byte>>, b: seq<seq<Byte>>)
    ensures PrintedAll(a + b) == PrintedAll(a) + PrintedAll(b)
    decreases |b|
  {
    if b == [] {
      assert a + b == a;
    } else {
      var b', last := b[..|b| - 1], b[|b| - 1];
      assert (a + b)[..|a + b| - 1] == a + b';
      assert (a + b)[|a + b| - 1] == last;
      PrintedAllAppend(a, b');
      var p := Printed(last);
      calc {
        PrintedAll(a + b);
        PrintedAll(a + b') + p;
        (PrintedAll(a) + PrintedAll(b')) + p;
        PrintedAll(a) + (PrintedAll(b') + p);
      }
    }
  }

  /** What the buffers of `lines` hold. */
  function Contents(lines: seq<String>): (r: seq<seq<Byte>>)
    reads set l | l in lines :: l.bytes
    ensures |r| == |lines|
    ensures forall i :: 0 <= i < |lines| ==> r[i] == lines[i].bytes[..]
  {
    if lines == [] then [] else Contents(lines[..|lines| - 1]) + [lines[|lines| - 1].bytes[..]]
  }

  /** `send_log_entry_to_rails(line)`; `flush` is whether the variant calls
      `fflush(stdout)` after each line (varnishlog-buffer/src/main.c does,
      src/main.c does not). */
  method SendLogEntry(line: String, out: Stdout, flush: bool)
    modifies out
    ensures out.text == old(out.text) + Printed(line.bytes[..])
    ensures flush ==> out.flushed == |out.text|
    ensures !flush ==> out.flushed == old(out.flushed)
  {
    out.text := out.text + UpToNul(line.bytes[..]) + [Newline];
    if flush {
      out.flushed := |out.text|;
    }
  }

  /** `g_slist_foreach(lines, send_log_entry_to_rails, NULL)`. */
  method SendAll(batch: seq<String>, out: Stdout, flush: bool)
    modifies out
    ensures out.text == old(out.text) + PrintedAll(old(Contents(batch)))
    ensures flush && batch != [] ==> out.flushed == |out.text|
    ensures !flush ==> out.flushed == old(out.flushed)
  {
    ghost var texts := Contents(batch);
    var i := 0;
    while i < |batch|
      invariant 0 <= i <= |batch|
      invariant out.text == old(out.text) + PrintedAll(texts[..i])
      invariant flush && i > 0 ==> out.flushed == |out.text|
      invariant !flush ==> out.flushed == old(out.flushed)
    {
      assert batch[i].bytes[..] == texts[i];
      SendLogEntry(batch[i], out, flush);
      assert texts[..i + 1][..i] == texts[..i];
      i := i + 1;
    }
    assert texts[..i] == texts;
  }

  /** `g_slist_free_full(lines, string_free)`: every record, in list order. */
  method FreeAll(lines: seq<String>, heap: Heap)
    modifies heap
    ensures heap.freed == old(heap.freed) + ReleasedAll(lines)
  {
    var i := 0;
    while i < |lines|
      invariant 0 <= i <= |lines|
      invariant heap.freed == old(heap.freed) + ReleasedAll(lines[..i])
    {
      lines[i].Free(heap);
      assert lines[..i + 1] == lines[..i] + [lines[i]];
      ReleasedAllAppend(lines[..i], [lines[i]]);
      assert ReleasedAll([lines[i]]) == lines[i].Released() by {
        assert [lines[i]][1..] == [];
      }
      i := i + 1;
    }
    assert lines[..i] == lines;
  }

  /** `SenderControl`: the list (newest line first) and the sender's stop
      flag. The ghost fields record every line ever pushed, those the sender
      took, and those discarded on the error path. */
  class SenderControl {
    var lines: seq<String>
    var shutdown: bool
    const flushEachLine: bool
    ghost var pushed: seq<String>
    ghost var sent: seq<String>
    ghost var dropped: seq<String>

    /** FIFO: what was taken or discarded, followed by the list read
        oldest first, is exactly what was pushed, in order. Lines are
        discarded only once the flag is raised, and nothing is queued after. */
    ghost predicate Valid()
      reads this
    {
      && sent + dropped + Reversed(lines) == pushed
      && (dropped != [] ==> shutdown && lines == [])
    }

    /** The initialiser in `main`: an empty list, the flag clear. */
    constructor (flushEachLine: bool)
      ensures lines == [] && !shutdown && this.flushEachLine == flushEachLine
      ensures pushed == [] && sent == [] && dropped == []
      ensures Valid()
    {
      lines, shutdown := [], false;
      this.flushEachLine := flushEachLine;
      pushed, sent, dropped := [], [], [];
    }

    /** `g_slist_prepend` under the lock: the line goes to the front. The
        reader pushes only before `main` raises the sender's flag. */
    method Push(line: String)
      requires Valid() && !shutdown
      modifies this
      ensures lines == [line] + old(lines)
      ensures pushed == old(pushed) + [line]
      ensures sent == old(sent) && dropped == old(dropped) && shutdown == old(shutdown)
      ensures Valid()
    {
      ReversedCons(line, lines);
      lines := [line] + lines;
      pushed := pushed + [line];
    }

    /** One pass of the loop in `rails_sender_main`, once the priority calls
        have succeeded: take the whole list (possibly empty) and leave NULL,
        reverse it, print every line, free every record. The pass also runs
        once the flag is raised: the wait for lines ends on either, and the
        outer loop checks the flag only after the pass. */
    method Cycle(out: Stdout, heap: Heap)
      requires Valid()
      modifies this, out, heap
      ensures lines == [] && shutdown == old(shutdown)
      ensures pushed == old(pushed) && dropped == old(dropped)
      ensures sent == old(sent) + Reversed(old(lines))
      ensures out.text == old(out.text) + PrintedAll(old(Contents(Reversed(lines))))
      ensures flushEachLine && old(lines) != [] ==> out.flushed == |out.text|
      ensures !flushEachLine ==> out.flushed == old(out.flushed)
      ensures heap.freed == old(heap.freed) + ReleasedAll(Reversed(old(lines)))
      ensures Valid()
      // everything pushed is now sent or discarded; sent, unless a discard came first
      ensures sent + dropped == pushed
      ensures dropped == [] ==> sent == pushed
    {
      ghost var texts := Contents(Reversed(lines));
      var batch := lines;
      lines := [];
      batch := Reversed(batch);
      assert |batch| == |old(lines)|;
      sent := sent + batch;
      assert Valid();

      label Taken:
      assert Contents(batch) == texts;
      SendAll(batch, out, flushEachLine);
      assert out.text == old(out.text) + PrintedAll(texts);
      FreeAll(batch, heap);
      assert unchanged@Taken(this);
    }

    /** The normal end of `main`'s read loop: the sender is told to stop. */
    method Stop()
      modifies this
      ensures shutdown
      ensures lines == old(lines) && pushed == old(pushed) && sent == old(sent) && dropped == old(dropped)
    {
      shutdown := true;
    }

    /** The error path of `main`: the sender is told to stop and the lines
        still queued are freed unsent, in list order, leaving the list empty. */
    method Discard(heap: Heap)
      requires Valid()
      modifies this, heap
      ensures shutdown && lines == []
      ensures pushed == old(pushed) && sent == old(sent)
      ensures dropped == old(dropped) + Reversed(old(lines))
      ensures heap.freed == old(heap.freed) + ReleasedAll(old(lines))
      ensures Valid()
    {
      shutdown := true;
      var queued := lines;
      FreeAll(queued, heap);
      lines := [];
      dropped := dropped + Reversed(queued);
    }
  }
}
