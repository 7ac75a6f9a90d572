/** The payload recognisers of varnishlog-parser.rb's tag handlers: the
    `RxHeader` pattern `^\s*([^:]+):\s*(.*)$` and the `SessionOpen` pattern
    `^((?:\d+\.){3}\d+) \d+ (?:(?:\d+\.){3}\d+)?:\d+$`. Payloads come from the
    line tokeniser and hold no line feed, so `^` and `$` are the ends of the
    text and `.` matches every character. */
module Payloads {
  import opened Wrappers
  import opened Scan

  /** The parts of a header line: leading spaces, name, colon, spaces, value. */
  datatype Header = Header(lead: string, name: string, spaces: string, value: string)

  function HeaderText(h: Header): string
  {
    h.lead + (h.name + ([':'] + (h.spaces + h.value)))
  }

  /** The parts match `\s*`, `[^:]+`, `\s*` and `.*`. */
  predicate HeaderShaped(h: Header)
  {
    && All(h.lead, Space)
    && |h.name| > 0 && All(h.name, Except(':'))
    && All(h.spaces, Space)
  }

  /** `\s*` followed by `[^:]+` on the text before the first colon: the
      spaces are taken greedily, but the name keeps at least one character. */
  function SplitLead(front: string): (r: (string, string))
    requires front != []
    ensures r.0 + r.1 == front && All(r.0, Space) && |r.1| > 0
    ensures |r.1| == 1 || !IsSpace(r.1[0])
  {
    var r := Split(front, Space);
    if r.1 != [] then r
    else
      var a := r.0;
      assert a == a[..|a| - 1] + a[|a| - 1..];
      AllPrefix(a, Space, |a| - 1);
      (a[..|a| - 1], a[|a| - 1..])
  }

  lemma AllPrefix(s: string, k: Class, n: nat)
    requires n <= |s| && All(s, k)
    ensures All(s[..n], k)
  {
    assert forall i :: 0 <= i < n ==> s[..n][i] == s[i];
  }

  /** `SplitLead` takes every space it can: at least as many as any other
      split into spaces and a non-empty name. */
  lemma SplitLeadLongest(a: string, b: string)
    requires All(a, Space) && |b| > 0
    ensures |SplitLead(a + b).0| >= |a|
  {
    RunAppend(a, b, Space);
  }

  /** The match the backtracking matcher reports: the name runs to the first
      colon, after the leading spaces `SplitLead` takes; the value starts
      after all the spaces that follow the colon. No colon, or a colon
      first, is no match. */
  function ParseHeader(data: string): Option<Header>
  {
    var cut := Split(data, Except(':'));
    if cut.1 == [] || cut.0 == [] then None
    else
      var named := SplitLead(cut.0);
      var valued := Split(cut.1[1..], Space);
      Some(Header(named.0, named.1, valued.0, valued.1))
  }

  /** Soundness: what the recogniser returns spells the payload, with every
      part of its shape, the name at most one space at its front, and the
      value not starting with a space. */
  lemma ParseHeaderSound(data: string)
    ensures ParseHeader(data).Some? ==>
      var h := ParseHeader(data).value;
      && HeaderShaped(h) && HeaderText(h) == data
      && (|h.name| == 1 || !IsSpace(h.name[0]))
      && (h.value != [] ==> !IsSpace(h.value[0]))
  {
    if ParseHeader(data).Some? {
      var h := ParseHeader(data).value;
      var cut := Split(data, Except(':'));
      Rejoin(cut.0, cut.1, h);
      AllSuffix(cut.0, Except(':'), |h.lead|);
      assert h.name == cut.0[|h.lead|..];
    }
  }

  /** The parts around the first colon spell the text. */
  lemma Rejoin(front: string, rest: string, h: Header)
    requires rest != [] && rest[0] == ':' && rest[1..] == h.spaces + h.value
    requires front == h.lead + h.name
    ensures HeaderText(h) == front + rest
  {
    assert rest == [':'] + rest[1..];
  }

  lemma AllSuffix(s: string, k: Class, n: nat)
    requires n <= |s| && All(s, k)
    ensures All(s[n..], k)
  {
    assert forall i :: 0 <= i < |s| - n ==> s[n..][i] == s[n + i];
  }

  /** Both parts of a text before its first colon have no colon. */
  lemma NoColonBefore(m: Header)
    requires HeaderShaped(m)
    ensures All(m.lead + m.name, Except(':'))
  {
    assert forall i :: 0 <= i < |m.lead| ==> (m.lead + m.name)[i] == m.lead[i];
    assert forall i :: |m.lead| <= i < |m.lead + m.name| ==> (m.lead + m.name)[i] == m.name[i - |m.lead|];
  }

  /** `Split` takes at least every character of the class at the front. */
  lemma SplitLongest(a: string, b: string, k: Class)
    requires All(a, k)
    ensures |Split(a + b, k).0| >= |a|
  {
    RunAppend(a, b, k);
  }

  /** Completeness: every text of the header's shape is recognised, the name
      ending at the same colon, and the leading spaces and the spaces after
      the colon at least as long: the regular expression's greedy choice. */
  lemma ParseHeaderComplete(m: Header)
    requires HeaderShaped(m)
    ensures ParseHeader(HeaderText(m)).Some?
    ensures var h := ParseHeader(HeaderText(m)).value;
      && h.lead + h.name == m.lead + m.name && |h.lead| >= |m.lead|
      && h.spaces + h.value == m.spaces + m.value && |h.spaces| >= |m.spaces|
  {
    var front, rest := m.lead + m.name, [':'] + (m.spaces + m.value);
    Rejoin(front, rest, m);
    NoColonBefore(m);
    SplitExact(front, rest, Except(':'));
    SplitLeadLongest(m.lead, m.name);
    assert rest[1..] == m.spaces + m.value;
    SplitLongest(m.spaces, m.value, Space);
  }

  /** A dotted quad `a.b.c.d`, each part one or more digits. */
  datatype Quad = Quad(a: string, b: string, c: string, d: string)

  function QuadPieces(q: Quad): seq<string>
  {
    [q.a, ".", q.b, ".", q.c, ".", q.d]
  }

  /** `(?:\d+\.){3}\d+` */
  const QuadPattern: seq<Item> :=
    [Plus(Digit), Literal('.'), Plus(Digit), Literal('.'), Plus(Digit), Literal('.'), Plus(Digit)]

  /** The text of a quad: the text the `SessionOpen` handler saves as `ip`. */
  function QuadText(q: Quad): string
  {
    Concat(QuadPieces(q))
  }

  predicate QuadShaped(q: Quad)
  {
    && |q.a| > 0 && All(q.a, Digit) && |q.b| > 0 && All(q.b, Digit)
    && |q.c| > 0 && All(q.c, Digit) && |q.d| > 0 && All(q.d, Digit)
  }

  /** The parts of a `SessionOpen` payload: client address and port, the
      optional local address, and the local port. */
  datatype Open = Open(ip: Quad, port: string, peer: Option<Quad>, peerPort: string)

  /** Up to the optional address: `((?:\d+\.){3}\d+) \d+ `. */
  const OpenHead: seq<Item> := QuadPattern + [Literal(' '), Plus(Digit), Literal(' ')]

  /** The rest with the address present: `(?:\d+\.){3}\d+:\d+`. */
  const PeerTail: seq<Item> := QuadPattern + [Literal(':'), Plus(Digit)]

  /** The rest without it: `:\d+`. */
  const BareTail: seq<Item> := [Literal(':'), Plus(Digit)]

  function HeadPieces(o: Open): seq<string>
  {
    QuadPieces(o.ip) + [" ", o.port, " "]
  }

  function TailPieces(o: Open): seq<string>
  {
    match o.peer
    case Some(q) => QuadPieces(q) + [":", o.peerPort]
    case None => [":", o.peerPort]
  }

  function OpenText(o: Open): string
  {
    Concat(HeadPieces(o)) + Concat(TailPieces(o))
  }

  predicate OpenShaped(o: Open)
  {
    && QuadShaped(o.ip) && |o.port| > 0 && All(o.port, Digit)
    && (o.peer.Some? ==> QuadShaped(o.peer.value))
    && |o.peerPort| > 0 && All(o.peerPort, Digit)
  }

  /** The `SessionOpen` pattern. The optional address starts with a digit
      and what follows it with a colon, so the first character after the
      client port decides; every run of digits ends at a literal or at the
      end, so the greedy runs are the only ones that can match. */
  function ParseOpen(data: string): Option<Open>
  {
    var r := ScanItems(OpenHead, data);
    if r.None? || |r.value.0| != 10 then None
    else
      var ps, rest := r.value.0, r.value.1;
      var ip := Quad(ps[0], ps[2], ps[4], ps[6]);
      if rest != [] && rest[0] == ':' then
        var t := ScanItems(BareTail, rest);
        if t.None? || |t.value.0| != 2 || t.value.1 != [] then None
        else Some(Open(ip, ps[8], None, t.value.0[1]))
      else
        var t := ScanItems(PeerTail, rest);
        if t.None? || |t.value.0| != 9 || t.value.1 != [] then None
        else
          var qs := t.value.0;
          Some(Open(ip, ps[8], Some(Quad(qs[0], qs[2], qs[4], qs[6])), qs[8]))
  }

  /** Pieces of the quad pattern's shapes are those of a quad. */
  lemma QuadFits(ps: seq<string>)
    requires |ps| >= 7 && forall i :: 0 <= i < 7 ==> Fits(QuadPattern[i], ps[i])
    ensures QuadShaped(Quad(ps[0], ps[2], ps[4], ps[6]))
    ensures QuadPieces(Quad(ps[0], ps[2], ps[4], ps[6])) == ps[..7]
  {
    assert Fits(QuadPattern[1], ps[1]) && Fits(QuadPattern[3], ps[3]) && Fits(QuadPattern[5], ps[5]);
    assert Fits(QuadPattern[0], ps[0]) && Fits(QuadPattern[2], ps[2]);
    assert Fits(QuadPattern[4], ps[4]) && Fits(QuadPattern[6], ps[6]);
  }

  lemma HeadFits(ps: seq<string>)
    requires |ps| == 10 && forall i :: 0 <= i < 10 ==> Fits(OpenHead[i], ps[i])
    ensures QuadShaped(Quad(ps[0], ps[2], ps[4], ps[6])) && |ps[8]| > 0 && All(ps[8], Digit)
    ensures ps == HeadPieces(Open(Quad(ps[0], ps[2], ps[4], ps[6]), ps[8], None, ""))
  {
    assert forall i :: 0 <= i < 7 ==> OpenHead[i] == QuadPattern[i];
    QuadFits(ps);
    assert Fits(OpenHead[7], ps[7]) && Fits(OpenHead[8], ps[8]) && Fits(OpenHead[9], ps[9]);
    assert ps == ps[..7] + [ps[7], ps[8], ps[9]];
  }

  lemma PeerTailFits(qs: seq<string>)
    requires |qs| == 9 && forall i :: 0 <= i < 9 ==> Fits(PeerTail[i], qs[i])
    ensures QuadShaped(Quad(qs[0], qs[2], qs[4], qs[6])) && |qs[8]| > 0 && All(qs[8], Digit)
    ensures qs == QuadPieces(Quad(qs[0], qs[2], qs[4], qs[6])) + [":", qs[8]]
  {
    assert forall i :: 0 <= i < 7 ==> PeerTail[i] == QuadPattern[i];
    QuadFits(qs);
    assert Fits(PeerTail[7], qs[7]) && Fits(PeerTail[8], qs[8]);
    assert qs == qs[..7] + [qs[7], qs[8]];
  }

  /** Soundness: a recognised payload is the text of an address record of
      the right shape. */
  lemma ParseOpenSound(data: string)
    ensures ParseOpen(data).Some? ==> OpenShaped(ParseOpen(data).value) && OpenText(ParseOpen(data).value) == data
  {
    if ParseOpen(data).Some? {
      var o := ParseOpen(data).value;
      ScanSound(OpenHead, data);
      var ps, rest := ScanItems(OpenHead, data).value.0, ScanItems(OpenHead, data).value.1;
      HeadFits(ps);
      assert Concat(HeadPieces(o)) == Concat(ps);
      if rest != [] && rest[0] == ':' {
        ScanSound(BareTail, rest);
        var qs := ScanItems(BareTail, rest).value.0;
        assert Fits(BareTail[0], qs[0]) && Fits(BareTail[1], qs[1]);
        assert qs == TailPieces(o);
      } else {
        ScanSound(PeerTail, rest);
        var qs := ScanItems(PeerTail, rest).value.0;
        PeerTailFits(qs);
      }
    }
  }

  /** The quad's pieces each end where the next starts. */
  lemma QuadStops(q: Quad, ps: seq<string>, rest: string, i: nat)
    requires QuadShaped(q) && i < 7 && |ps| >= 7 && ps[..7] == QuadPieces(q)
    requires 7 < |ps| ==> ps[7] != [] && !Decimal.IsDigit(ps[7][0])
    requires |ps| == 7 ==> rest == [] || !Decimal.IsDigit(rest[0])
    ensures Fits(QuadPattern[i], ps[i]) && Stops(QuadPattern[i], Concat(ps[i + 1..]) + rest)
  {
    if i + 1 < |ps| {
      ConcatHead(ps[i + 1..], rest);
    } else {
      assert ps[i + 1..] == [];
    }
  }

  /** The head of a well-shaped payload scans to its pieces. */
  lemma HeadScans(o: Open)
    requires OpenShaped(o)
    ensures ScanItems(OpenHead, OpenText(o)) == Some((HeadPieces(o), Concat(TailPieces(o))))
  {
    var hs, rest := HeadPieces(o), Concat(TailPieces(o));
    TailStarts(o);
    forall i | 0 <= i < 10
      ensures Fits(OpenHead[i], hs[i]) && Stops(OpenHead[i], Concat(hs[i + 1..]) + rest)
    {
      if i < 7 {
        QuadStops(o.ip, hs, rest, i);
        assert OpenHead[i] == QuadPattern[i];
      } else if i < 9 {
        ConcatHead(hs[i + 1..], rest);
      } else {
        assert hs[10..] == [];
      }
    }
    ScanExact(OpenHead, hs, rest);
  }

  /** What follows the client port starts with a colon exactly when the
      local address is absent, and otherwise with a digit. */
  lemma TailStarts(o: Open)
    requires OpenShaped(o)
    ensures Concat(TailPieces(o)) != []
    ensures Concat(TailPieces(o))[0] == ':' <==> o.peer.None?
    ensures Concat(TailPieces(o))[0] == ':' || Decimal.IsDigit(Concat(TailPieces(o))[0])
  {
    ConcatHead(TailPieces(o), []);
    assert Concat(TailPieces(o)) + [] == Concat(TailPieces(o));
  }

  /** The rest of a well-shaped payload scans to its pieces with nothing left. */
  lemma TailScans(o: Open)
    requires OpenShaped(o)
    ensures o.peer.None? ==> ScanItems(BareTail, Concat(TailPieces(o))) == Some((TailPieces(o), []))
    ensures o.peer.Some? ==> ScanItems(PeerTail, Concat(TailPieces(o))) == Some((TailPieces(o), []))
  {
    var ts := TailPieces(o);
    assert Concat(ts) + [] == Concat(ts);
    match o.peer
    case None =>
      forall i | 0 <= i < 2
        ensures Fits(BareTail[i], ts[i]) && Stops(BareTail[i], Concat(ts[i + 1..]) + [])
      {
        if i == 0 { ConcatHead(ts[1..], []); } else { assert ts[2..] == []; }
      }
      ScanExact(BareTail, ts, []);
    case Some(q) =>
      forall i | 0 <= i < 9
        ensures Fits(PeerTail[i], ts[i]) && Stops(PeerTail[i], Concat(ts[i + 1..]) + [])
      {
        if i < 7 {
          QuadStops(q, ts, [], i);
          assert PeerTail[i] == QuadPattern[i];
        } else if i == 7 {
          ConcatHead(ts[8..], []);
        } else {
          assert ts[9..] == [];
        }
      }
      ScanExact(PeerTail, ts, []);
  }

  /** Completeness: every payload of the shape is recognised, with exactly
      its parts. */
  lemma ParseOpenComplete(o: Open)
    requires OpenShaped(o)
    ensures ParseOpen(OpenText(o)) == Some(o)
  {
    HeadScans(o);
    TailStarts(o);
    TailScans(o);
  }
}
