/** C-level text: bytes, NUL-terminated strings and the prefix `%s` prints. */
module CStrings {
  import opened Wrappers


  /** A C `char`: one byte, represented by a character below 256 so that
      string literals can be used directly. */
  type Byte = c: char | c as int < 256

  /** The contents of a C string: bytes before the terminating NUL. */
  type CString = s: seq<Byte> | '\0' !in s

  const NUL: Byte := '\0'
  const Newline: Byte := '\n'

  /** The bytes a `%s` conversion reads from a buffer: everything before the
      first NUL, or the whole buffer if it holds none. */
  function UpToNul(buf: seq<Byte>): (s: CString)
    ensures |s| <= |buf|
  {
    if buf == [] then []
    else if buf[0] == NUL then []
    else [buf[0]] + UpToNul(buf[1..])
  }

  /** `%s` stops at the first NUL: what it reads is a prefix of the buffer,
      followed by a NUL unless it is the whole buffer. */
  lemma {:induction false} UpToNulPrefix(buf: seq<Byte>)
    ensures UpToNul(buf) == buf[..|UpToNul(buf)|]
    ensures |UpToNul(buf)| < |buf| ==> buf[|UpToNul(buf)|] == NUL
    ensures NUL !in buf ==> UpToNul(buf) == buf
  {
    if buf != [] && buf[0] != NUL {
      UpToNulPrefix(buf[1..]);
      assert buf == [buf[0]] + buf[1..];
    }
  }

  /** A C string stored in memory followed by its terminator: `%s` gets it back. */
  lemma {:induction false} UpToNulTerminated(s: CString, rest: seq<Byte>)
    ensures UpToNul(s + [NUL] + rest) == s
  {
    if s != [] {
      assert (s + [NUL] + rest)[1..] == s[1..] + [NUL] + rest;
      UpToNulTerminated(s[1..], rest);
    }
  }
}
