/** src/strings.c: the record that carries one log line, and its release.
    The allocator is modelled by the trace of blocks handed back to it. */
module Strings {
  import opened CStrings

  /** The allocator (`free` and `g_slice_free`): the blocks released so far,
      oldest first. */
  class Heap {
    var freed: seq<object>

    constructor ()
      ensures freed == []
    {
      freed := [];
    }
  }

  /** `String`: a buffer, its length and whether the record owns the buffer.
      No code changes the fields after construction. */
  class String {
    const bytes: array<Byte>
    const len: nat
    const shouldFree: bool

    /** `string_new_malloced_with_len`: the buffer and the length are kept as
        given, and the record owns the buffer. */
    constructor NewMallocedWithLen(bytes: array<Byte>, len: nat)
      ensures this.bytes == bytes && this.len == len && shouldFree
    {
      this.bytes := bytes;
      this.len := len;
      shouldFree := true;
    }

    /** The blocks `string_free` gives back, in order: the buffer when the
        record owns it, then the record itself. */
    function Released(): (r: seq<object>)
      ensures |r| > 0 && r[|r| - 1] == this
      ensures shouldFree <==> bytes in r
      ensures shouldFree ==> r == [bytes, this]
      ensures !shouldFree ==> r == [this]
    {
      if shouldFree then [bytes, this] else [this]
    }

    /** `string_free(st)`. */
    method Free(heap: Heap)
      modifies heap
      ensures heap.freed == old(heap.freed) + Released()
    {
      if shouldFree {
        heap.freed := heap.freed + [bytes];
      }
      heap.freed := heap.freed + [this];
    }
  }

  /** What freeing each record of `lines` in turn gives back. */
  function ReleasedAll(lines: seq<String>): (r: seq<object>)
    ensures |r| >= |lines|
  {
    if lines == [] then [] else lines[0].Released() + ReleasedAll(lines[1..])
  }

  /** Releasing two runs of records is releasing their concatenation. */
  lemma {:induction false} ReleasedAllAppend(a: seq<String>, b: seq<String>)
    ensures ReleasedAll(a + b) == ReleasedAll(a) + ReleasedAll(b)
  {
    if a != [] {
      assert (a + b)[1..] == a[1..] + b;
      ReleasedAllAppend(a[1..], b);
    } else {
      assert a + b == b;
    }
  }

  /** Freeing a list of records gives every one of them back. */
  lemma {:induction false} ReleasedAllRecords(lines: seq<String>, i: nat)
    requires i < |lines|
    ensures lines[i] in ReleasedAll(lines)
  {
    if i == 0 {
      assert lines[0] == lines[0].Released()[|lines[0].Released()| - 1];
    } else {
      ReleasedAllRecords(lines[1..], i - 1);
    }
  }
}
