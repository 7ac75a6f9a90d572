/** The error side channel of src/errors.c: `write_gerror` serialises a
    GError onto a GIOChannel, `read_gerror` decodes one from it.

    Wire format: the domain name and a NUL, the raw 4-byte `gint` code, then
    the message field. As written, the message field is `strlen(domain) + 1`
    bytes long (not `strlen(message) + 1`), so the round trip holds only when
    the message is no longer than the domain; `WireIntended` is the format the
    reader expects, and it round-trips for every error. */
module SideChannel {
  import opened Wrappers
  import opened CStrings
  import opened GErrors

  // ----- the code field: sizeof(gint) raw bytes, little-endian two's complement

  function Unsigned(c: Int32): (u: int)
    ensures 0 <= u < 0x1_0000_0000
    ensures c >= 0 ==> u == c as int
    ensures c < 0 ==> u == c as int + 0x1_0000_0000
  {
    if c < 0 then c as int + 0x1_0000_0000 else c as int
  }

  /** The bytes of `&e->code` as they lie in memory. */
  function EncodeCode(c: Int32): (bs: seq<Byte>)
    ensures |bs| == 4
  {
    var u := Unsigned(c);
    var q1 := u / 0x100;
    var q2 := q1 / 0x100;
    var q3 := q2 / 0x100;
    [(u % 0x100) as char, (q1 % 0x100) as char, (q2 % 0x100) as char, q3 as char]
  }

  /** The `gint` that four bytes read into `&code` stand for. */
  function DecodeCode(bs: seq<Byte>): Int32
    requires |bs| == 4
  {
    var u := bs[0] as int + 0x100 * (bs[1] as int) + 0x1_0000 * (bs[2] as int)
             + 0x100_0000 * (bs[3] as int);
    if u >= 0x8000_0000 then (u - 0x1_0000_0000) as Int32 else u as Int32
  }

  lemma DecodeEncodeCode(c: Int32)
    ensures DecodeCode(EncodeCode(c)) == c
  {
    var u := Unsigned(c);
    var q1 := u / 0x100;
    var q2 := q1 / 0x100;
    var q3 := q2 / 0x100;
    assert u == u % 0x100 + 0x100 * q1;
    assert q1 == q1 % 0x100 + 0x100 * q2;
    assert q2 == q2 % 0x100 + 0x100 * q3;
    var bs := EncodeCode(c);
    assert bs[0] as int + 0x100 * (bs[1] as int) + 0x1_0000 * (bs[2] as int) + 0x100_0000 * (bs[3] as int) == u;
  }

  // ----- the bytes write_gerror puts on the channel

  /** The message field as written: `strlen(domain) + 1` bytes starting at
      `e->message`. `after` is the memory that follows the message's
      terminating NUL; it is read when the message is shorter than the domain. */
  function MessageField(e: GError, after: seq<Byte>): (f: seq<Byte>)
    requires |e.message| + |after| >= |e.domain|
    ensures |f| == |e.domain| + 1
    ensures |e.message| > |e.domain| ==> f == e.message[..|e.domain| + 1]
    ensures |e.message| <= |e.domain| ==> f == e.message + [NUL] + after[..|e.domain| - |e.message|]
  {
    (e.message + [NUL] + after)[..|e.domain| + 1]
  }

  /** Everything `write_gerror` writes when every step succeeds. */
  function WireAsWritten(e: GError, after: seq<Byte>): (w: seq<Byte>)
    requires |e.message| + |after| >= |e.domain|
    ensures |w| == 2 * |e.domain| + 6
  {
    e.domain + [NUL] + EncodeCode(e.code) + MessageField(e, after)
  }

  /** The format `read_gerror` expects: the message followed by its NUL. */
  function WireIntended(e: GError): (w: seq<Byte>)
    ensures |w| == |e.domain| + |e.message| + 6
  {
    e.domain + [NUL] + EncodeCode(e.code) + e.message + [NUL]
  }

  // ----- writing

  /** A GIOStatus. `Error` carries the GError that GLib stores in `*err`. */
  datatype IOStatus = Normal | Eof | Again | Error(e: GError)

  /** What the channel reports for one `g_io_channel_write_chars` call: its
      status and how many bytes it says it wrote. */
  datatype WriteStep = WriteStep(status: IOStatus, written: nat)

  /** The channel's answers to the three writes and the flush, in order. */
  datatype WriteReplies = WriteReplies(domain: WriteStep, code: WriteStep, message: WriteStep, flush: IOStatus)

  /** The end of a `write_gerror` or `read_gerror` call: it returned
      normally, it returned failure with `*err` set, or a `g_assert` aborted
      the process. */
  datatype Outcome = Done | Failed(err: GError) | Aborted

  /** The error left in `*err` after a failed step (out_error). */
  function FailureError(s: IOStatus): (r: GError)
    requires s.Eof? || s.Error?
    ensures s.Eof? ==> r == PrematureEof()
    ensures s.Error? ==> r == s.e
  {
    if s.Eof? then PrematureEof() else s.e
  }

  function Min(a: nat, b: nat): nat { if a <= b then a else b }

  /** The bytes one write step puts on the channel. */
  function Part(buf: seq<Byte>, s: WriteStep): (p: seq<Byte>)
    ensures p == buf[..Min(s.written, |buf|)]
  {
    buf[..Min(s.written, |buf|)]
  }

  /** `write_gerror` as a function of the channel's replies: how the call
      ends and the bytes it puts on the channel. The steps run in order and
      the first that fails ends the call. A short domain or message write
      fails its `g_assert` before its status is looked at; the code write's
      count is not checked. AGAIN fails the `g_assert` on the status. */
  function Writing(e: GError, after: seq<Byte>, replies: WriteReplies): (Outcome, seq<Byte>)
    requires |e.message| + |after| >= |e.domain|
  {
    var d, c, m := e.domain + [NUL], EncodeCode(e.code), MessageField(e, after);
    var od, oc, om, f := replies.domain, replies.code, replies.message, replies.flush;
    if od.written != |d| || od.status.Again? then (Aborted, Part(d, od))
    else if !od.status.Normal? then (Failed(FailureError(od.status)), d)
    else if oc.status.Again? then (Aborted, d + Part(c, oc))
    else if !oc.status.Normal? then (Failed(FailureError(oc.status)), d + Part(c, oc))
    else if om.written != |m| || om.status.Again? then (Aborted, d + Part(c, oc) + Part(m, om))
    else if !om.status.Normal? then (Failed(FailureError(om.status)), d + Part(c, oc) + m)
    else if f.Again? then (Aborted, d + Part(c, oc) + m)
    else if !f.Normal? then (Failed(FailureError(f)), d + Part(c, oc) + m)
    else (Done, d + Part(c, oc) + m)
  }

  /** The call succeeds exactly when the domain and message writes are
      complete and all four steps report NORMAL. */
  lemma WritingDone(e: GError, after: seq<Byte>, replies: WriteReplies)
    requires |e.message| + |after| >= |e.domain|
    ensures Writing(e, after, replies).0 == Done <==>
      && replies.domain == WriteStep(Normal, |e.domain| + 1)
      && replies.code.status.Normal?
      && replies.message == WriteStep(Normal, |e.domain| + 1)
      && replies.flush.Normal?
  {
  }

  /** A complete successful call writes the whole wire format. */
  lemma WritingWire(e: GError, after: seq<Byte>, replies: WriteReplies)
    requires |e.message| + |after| >= |e.domain|
    requires Writing(e, after, replies).0 == Done && replies.code.written >= 4
    ensures Writing(e, after, replies).1 == WireAsWritten(e, after)
  {
  }

  /** Whatever the replies, when the code is written whole, what reaches the
      channel is a prefix of the wire format: no field is written after
      one that failed. */
  lemma WritingPrefix(e: GError, after: seq<Byte>, replies: WriteReplies)
    requires |e.message| + |after| >= |e.domain|
    requires replies.code.written >= 4
    ensures Writing(e, after, replies).1 <= WireAsWritten(e, after)
  {
    var d, c, m := e.domain + [NUL], EncodeCode(e.code), MessageField(e, after);
    assert WireAsWritten(e, after) == d + c + m;
    assert Part(c, replies.code) == c;
    PrefixOf(Part(d, replies.domain), d, c + m);
    PrefixOf(d + c + Part(m, replies.message), d + c + m, []);
    assert (d + c + m) + [] == d + c + m;
    assert d + (c + m) == d + c + m;
    assert d + c <= d + c + m;
  }

  lemma PrefixOf(p: seq<Byte>, a: seq<Byte>, b: seq<Byte>)
    requires p <= a
    ensures p <= a + b
  {
    assert (a + b)[..|p|] == a[..|p|];
  }

  /** A failed call reports premature end of file, or the error GLib
      returned for one of the steps. */
  lemma WritingFailure(e: GError, after: seq<Byte>, replies: WriteReplies)
    requires |e.message| + |after| >= |e.domain|
    requires Writing(e, after, replies).0.Failed?
    ensures var err := Writing(e, after, replies).0.err;
      || err == PrematureEof()
      || Error(err) == replies.domain.status || Error(err) == replies.code.status
      || Error(err) == replies.message.status || Error(err) == replies.flush
  {
  }

  /** The sending end of the side channel: the bytes written so far, and how
      many of them a flush has pushed out. */
  class OutChannel {
    var data: seq<Byte>
    var flushed: nat

    constructor ()
      ensures data == [] && flushed == 0
    {
      data := [];
      flushed := 0;
    }

    /** `write_gerror(channel, e, err)`. */
    method WriteGError(e: GError, after: seq<Byte>, replies: WriteReplies) returns (r: Outcome)
      requires |e.message| + |after| >= |e.domain|
      modifies this
      ensures r == Writing(e, after, replies).0
      ensures data == old(data) + Writing(e, after, replies).1
      ensures r == Done ==> flushed == |data|
      ensures r != Done ==> flushed == old(flushed)
    {
      var domain := e.domain + [NUL];
      var domainLen := |e.domain| + 1;
      data := data + Part(domain, replies.domain);
      if replies.domain.written != domainLen { return Aborted; }
      assert Part(domain, replies.domain) == domain;
      var status := replies.domain.status;
      if status.Again? { return Aborted; }
      if !status.Normal? { return Failed(FailureError(status)); }

      var code := Part(EncodeCode(e.code), replies.code);
      data := data + code;
      Append2(old(data), domain, code);
      status := replies.code.status;
      if status.Again? { return Aborted; }
      if !status.Normal? { return Failed(FailureError(status)); }

      var messageLen := |e.domain| + 1;  // from the domain, as in the source
      var message := MessageField(e, after);
      data := data + Part(message, replies.message);
      if replies.message.written != messageLen {
        Append3(old(data), domain, code, Part(message, replies.message));
        return Aborted;
      }
      Append3(old(data), domain, code, message);
      status := replies.message.status;
      if status.Again? { return Aborted; }
      if !status.Normal? { return Failed(FailureError(status)); }

      status := replies.flush;
      if status.Again? { return Aborted; }
      if !status.Normal? { return Failed(FailureError(status)); }
      flushed := |data|;
      r := Done;
    }
  }

  lemma Append2(s: seq<Byte>, a: seq<Byte>, b: seq<Byte>)
    ensures s + a + b == s + (a + b)
  {
  }

  lemma Append3(s: seq<Byte>, a: seq<Byte>, b: seq<Byte>, c: seq<Byte>)
    ensures s + a + b + c == s + (a + b + c)
  {
  }

  // ----- reading

  /** `g_io_channel_read_line` with NUL as the line terminator, on the bytes
      still in the channel: the text before the first NUL and what follows
      it; at end of file with bytes left but no NUL, those bytes as a final
      line; with no bytes left, end of file. */
  datatype LineRead = Line(text: CString, rest: seq<Byte>) | LineEof

  function ReadLine(data: seq<Byte>): (l: LineRead)
    ensures l.LineEof? <==> data == []
    ensures l.Line? && NUL in data ==> data == l.text + [NUL] + l.rest
    ensures l.Line? && NUL !in data ==> l.text == data && l.rest == []
  {
    if data == [] then LineEof
    else
      UpToNulPrefix(data);
      var text := UpToNul(data);
      if |text| < |data| then Line(text, data[|text| + 1..])
      else Line(text, [])
  }

  /** What `read_gerror` returns and what it leaves in the channel. */
  datatype Received = Received(outcome: Outcome, error: Option<GError>, rest: seq<Byte>)

  /** How the channel answers one read of `read_gerror`, apart from the
      bytes: it delivers them (NORMAL or EOF, decided by what is left), it
      reports AGAIN, or it reports ERROR with the GError that GLib stores in
      `*err`. */
  datatype ReadFault = Delivered | ReadAgain | ReadError(e: GError)

  /** The channel's answers to the domain read, the code read and the
      message read. */
  datatype ReadReplies = ReadReplies(domain: ReadFault, code: ReadFault, message: ReadFault)

  /** A channel that delivers every read. */
  const Clean := ReadReplies(Delivered, Delivered, Delivered)

  /** A read that did not deliver: AGAIN fails the `g_assert` on the status,
      ERROR ends the call with GLib's error; the bytes stay in the channel. */
  function Interrupted(f: ReadFault, data: seq<Byte>): (r: Received)
    requires !f.Delivered?
    ensures f.ReadAgain? ==> r == Received(Aborted, None, data)
    ensures f.ReadError? ==> r == Received(Failed(f.e), None, data)
  {
    if f.ReadAgain? then Received(Aborted, None, data) else Received(Failed(f.e), None, data)
  }

  /** `read_gerror`: the domain line, four bytes of code, the message line.
      A read that reports AGAIN or ERROR ends the call there; end of file at
      any step gives "Premature end of file"; a short code read fails the
      `g_assert(nread == sizeof(code))`. */
  function Decode(data: seq<Byte>, replies: ReadReplies): (r: Received)
    ensures r.outcome == Done <==> r.error.Some?
    ensures r.outcome == Done ==> replies == Clean
    ensures r.outcome.Failed? ==>
      || r.outcome.err == PrematureEof()
      || replies.domain == ReadError(r.outcome.err)
      || replies.code == ReadError(r.outcome.err)
      || replies.message == ReadError(r.outcome.err)
    ensures replies == Clean && r.outcome.Failed? ==> r.outcome.err == PrematureEof()
  {
    if !replies.domain.Delivered? then Interrupted(replies.domain, data)
    else match ReadLine(data)
    case LineEof => Received(Failed(PrematureEof()), None, data)
    case Line(domain, afterDomain) =>
      if !replies.code.Delivered? then Interrupted(replies.code, afterDomain)
      else if afterDomain == [] then Received(Failed(PrematureEof()), None, [])
      else if |afterDomain| < 4 then Received(Aborted, None, [])
      else
        var code := DecodeCode(afterDomain[..4]);
        if !replies.message.Delivered? then Interrupted(replies.message, afterDomain[4..])
        else match ReadLine(afterDomain[4..])
        case LineEof => Received(Failed(PrematureEof()), None, [])
        case Line(message, rest) => Received(Done, Some(GError(domain, code, message)), rest)
  }

  /** A read fault never makes up an error: a call that returns one is the
      call on a clean channel. A fault on the first read ends the call with
      that fault, whatever the bytes. */
  lemma FaultsOnlyEndEarly(data: seq<Byte>, replies: ReadReplies)
    ensures Decode(data, replies).outcome == Done ==> Decode(data, replies) == Decode(data, Clean)
    ensures replies.domain == ReadAgain ==> Decode(data, replies) == Received(Aborted, None, data)
    ensures replies.domain.ReadError? ==>
      Decode(data, replies) == Received(Failed(replies.domain.e), None, data)
  {
  }

  /** Where the clean read finds a whole error, a fault at the message read
      ends the call with that fault, and the domain and code stay consumed. */
  lemma LateFault(domain: CString, code: seq<Byte>, message: CString, rest: seq<Byte>, e: GError)
    requires |code| == 4
    ensures Decode(domain + [NUL] + code + message + [NUL] + rest, ReadReplies(Delivered, Delivered, ReadError(e)))
         == Received(Failed(e), None, message + [NUL] + rest)
  {
    var tail := message + [NUL] + rest;
    Fields(domain, code, tail, message, rest);
    ReadTerminated(domain, code + tail);
  }

  /** The receiving end of the side channel: the bytes not yet consumed. */
  class InChannel {
    var data: seq<Byte>

    constructor (bytes: seq<Byte>)
      ensures data == bytes
    {
      data := bytes;
    }

    /** `read_gerror(channel, err)`: consumes the three fields in order and
        stops at the first step that fails. */
    method ReadGError(replies: ReadReplies) returns (outcome: Outcome, error: Option<GError>)
      modifies this
      ensures Received(outcome, error, data) == Decode(old(data), replies)
    {
      if replies.domain.ReadAgain? {
        return Aborted, None;
      } else if replies.domain.ReadError? {
        return Failed(replies.domain.e), None;
      }
      var line := ReadLine(data);
      if line.LineEof? {
        return Failed(PrematureEof()), None;
      }
      var domain := line.text;
      data := line.rest;

      if replies.code.ReadAgain? {
        return Aborted, None;
      } else if replies.code.ReadError? {
        return Failed(replies.code.e), None;
      }
      if data == [] {
        return Failed(PrematureEof()), None;
      }
      if |data| < 4 {
        data := [];
        return Aborted, None;
      }
      var code := DecodeCode(data[..4]);
      data := data[4..];

      if replies.message.ReadAgain? {
        return Aborted, None;
      } else if replies.message.ReadError? {
        return Failed(replies.message.e), None;
      }
      line := ReadLine(data);
      if line.LineEof? {
        return Failed(PrematureEof()), None;
      }
      data := line.rest;
      outcome, error := Done, Some(GError(domain, code, line.text));
    }
  }

  // ----- properties of the format

  /** A NUL-terminated field is read back as itself. */
  lemma ReadTerminated(text: CString, rest: seq<Byte>)
    ensures ReadLine(text + [NUL] + rest) == Line(text, rest)
  {
    UpToNulTerminated(text, rest);
    assert (text + [NUL] + rest)[|text| + 1..] == rest;
  }

  /** Reading the three fields back: a NUL-terminated domain, four code bytes
      and a NUL-terminated message give exactly that error, and leave what
      follows in the channel. */
  lemma DecodeFields(domain: CString, code: seq<Byte>, message: CString, rest: seq<Byte>)
    requires |code| == 4
    ensures Decode(domain + [NUL] + code + message + [NUL] + rest, Clean)
         == Received(Done, Some(GError(domain, DecodeCode(code), message)), rest)
  {
    var tail := message + [NUL] + rest;
    var afterDomain := code + tail;
    Fields(domain, code, tail, message, rest);
    ReadTerminated(domain, afterDomain);
    ReadTerminated(message, rest);
    DecodeLines(domain + [NUL] + afterDomain, domain, afterDomain, message, rest);
  }

  /** The three fields, grouped as the reader takes them apart. */
  lemma Fields(domain: CString, code: seq<Byte>, tail: seq<Byte>, message: CString, rest: seq<Byte>)
    requires |code| == 4 && tail == message + [NUL] + rest
    ensures domain + [NUL] + code + message + [NUL] + rest == domain + [NUL] + (code + tail)
    ensures (code + tail)[..4] == code && (code + tail)[4..] == tail
  {
  }

  /** `read_gerror` once both lines have been found. */
  lemma DecodeLines(data: seq<Byte>, domain: CString, afterDomain: seq<Byte>, message: CString, rest: seq<Byte>)
    requires ReadLine(data) == Line(domain, afterDomain) && |afterDomain| >= 4
    requires ReadLine(afterDomain[4..]) == Line(message, rest)
    ensures Decode(data, Clean) == Received(Done, Some(GError(domain, DecodeCode(afterDomain[..4]), message)), rest)
  {
  }

  /** The intended format round-trips every error. */
  lemma RoundTripIntended(e: GError, rest: seq<Byte>)
    ensures Decode(WireIntended(e) + rest, Clean) == Received(Done, Some(e), rest)
  {
    DecodeEncodeCode(e.code);
    assert WireIntended(e) + rest == e.domain + [NUL] + EncodeCode(e.code) + e.message + [NUL] + rest;
    DecodeFields(e.domain, EncodeCode(e.code), e.message, rest);
  }

  /** As written, the round trip holds when the message is exactly as long as
      the domain: the message field is then the message and its NUL. */
  lemma RoundTripEqualLengths(e: GError, after: seq<Byte>, rest: seq<Byte>)
    requires |e.message| == |e.domain|
    ensures Decode(WireAsWritten(e, after) + rest, Clean) == Received(Done, Some(e), rest)
  {
    assert MessageField(e, after) == e.message + [NUL];
    assert WireAsWritten(e, after) == WireIntended(e);
    RoundTripIntended(e, rest);
  }

  /** As written, a message shorter than the domain still comes back intact,
      but `|domain| - |message|` bytes of the memory after it are left in the
      channel in front of whatever follows. */
  lemma RoundTripShorterMessage(e: GError, after: seq<Byte>, rest: seq<Byte>)
    requires |e.message| < |e.domain| <= |e.message| + |after|
    ensures Decode(WireAsWritten(e, after) + rest, Clean)
         == Received(Done, Some(e), after[..|e.domain| - |e.message|] + rest)
  {
    var junk := after[..|e.domain| - |e.message|];
    assert WireAsWritten(e, after) + rest == WireIntended(e) + (junk + rest);
    RoundTripIntended(e, junk + rest);
  }

  /** As written, a message longer than the domain loses its NUL, and when
      it is longer by two or more bytes its tail too: with nothing after it
      in the channel, the reader's final line is the first `|domain| + 1`
      bytes of the message. */
  lemma LongerMessageTruncated(e: GError, after: seq<Byte>)
    requires |e.message| > |e.domain|
    ensures Decode(WireAsWritten(e, after), Clean)
         == Received(Done, Some(GError(e.domain, e.code, e.message[..|e.domain| + 1])), [])
    ensures |e.message| > |e.domain| + 1 ==> Decode(WireAsWritten(e, after), Clean).error != Some(e)
  {
    var m := e.message[..|e.domain| + 1];
    var w := WireAsWritten(e, after);
    DecodeEncodeCode(e.code);
    assert w == e.domain + [NUL] + (EncodeCode(e.code) + m);
    UpToNulTerminated(e.domain, EncodeCode(e.code) + m);
    assert w[|e.domain| + 1..] == EncodeCode(e.code) + m;
    assert (EncodeCode(e.code) + m)[..4] == EncodeCode(e.code);
    assert (EncodeCode(e.code) + m)[4..] == m;
    assert NUL !in m by {
      forall i | 0 <= i < |m| ensures m[i] != NUL { assert m[i] == e.message[i]; }
    }
  }

  /** The example of an error sent as domain "x", code 7, message "boom":
      the peer receives the message "bo". */
  lemma BoomArrivesAsBo()
    ensures Decode(WireAsWritten(GError("x", 7, "boom"), []), Clean).error == Some(GError("x", 7, "bo"))
  {
    LongerMessageTruncated(GError("x", 7, "boom"), []);
    assert "boom"[..2] == "bo";
  }

  /** A channel closed with nothing written reads as premature end of file. */
  lemma EmptyChannelIsPrematureEof()
    ensures Decode([], Clean) == Received(Failed(PrematureEof()), None, [])
  {
  }

  /** A sender that stops early: if the channel ends inside or right after
      the domain, or right after the code, the reader reports premature end
      of file; if it ends inside the code, the short read aborts. */
  lemma TruncatedWire(e: GError, n: nat)
    requires n <= |WireIntended(e)|
    ensures n <= |e.domain| + 1 || n == |e.domain| + 5 ==>
      Decode(WireIntended(e)[..n], Clean).outcome == Failed(PrematureEof())
    ensures |e.domain| + 1 < n < |e.domain| + 5 ==> Decode(WireIntended(e)[..n], Clean).outcome == Aborted
  {
    var w := WireIntended(e);
    var p := w[..n];
    var dn := |e.domain| + 1;
    if n == 0 {
    } else if n <= |e.domain| {
      assert p == e.domain[..n];
      assert NUL !in p by {
        forall i | 0 <= i < n ensures p[i] != NUL { assert p[i] == e.domain[i]; }
      }
      assert ReadLine(p) == Line(p, []);
    } else {
      assert p == e.domain + [NUL] + w[dn..n];
      UpToNulTerminated(e.domain, w[dn..n]);
      assert p[dn..] == w[dn..n];
      if n == dn + 4 {
        assert w[dn..n][4..] == [];
      }
    }
  }
}
