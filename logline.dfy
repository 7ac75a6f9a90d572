/** The line tokeniser of varnishlog-parser.rb: each line of varnishlog's
    output is matched against `^\s*(\d+)\s+([^\s]+)\s+c\s+(.+)$`, giving the
    session id, the tag and the payload. The regular expression is written
    out as a scanner that makes the choices Ruby's backtracking matcher
    makes, and is proved to accept exactly the lines of that shape. */
module LogLine {
  import opened Wrappers
  import opened Scan
  import Decimal

  /** A line as `ARGF.each` yields it: no line feed except a final one. */
  predicate IsArgfLine(line: string)
  {
    forall i :: 0 <= i < |line| - 1 ==> line[i] != '\n'
  }

  /** The line without its final line feed: `$` matches before it and `.`
      does not match it, so this is the text the pattern sees. */
  function Body(line: string): (b: string)
    requires IsArgfLine(line)
    ensures '\n' !in b
    ensures line == b || line == b + "\n"
  {
    var b := if |line| > 0 && line[|line| - 1] == '\n' then line[..|line| - 1] else line;
    assert forall i :: 0 <= i < |b| ==> b[i] == line[i];
    b
  }

  /** The pieces of a matching line, one per part of the pattern. */
  datatype Tokens = Tokens(lead: string, digits: string, sep1: string, tag: string,
                           sep2: string, sep3: string, payload: string)

  /** The pieces match their parts of the pattern. */
  predicate Shaped(t: Tokens)
  {
    && All(t.lead, Space)
    && |t.digits| > 0 && All(t.digits, Digit)
    && |t.sep1| > 0 && All(t.sep1, Space)
    && |t.tag| > 0 && All(t.tag, NonSpace)
    && |t.sep2| > 0 && All(t.sep2, Space)
    && |t.sep3| > 0 && All(t.sep3, Space)
    && |t.payload| > 0 && '\n' !in t.payload
  }

  /** The text the pieces spell. */
  function Joined(t: Tokens): string
  {
    t.lead + (t.digits + (t.sep1 + (t.tag + (t.sep2 + ("c" + (t.sep3 + t.payload))))))
  }

  /** `\s+(.+)$`: the spaces are taken greedily, but at least one character
      is left for the payload. */
  function Tail(r: string): Option<(string, string)>
  {
    var s := Run(r, Space);
    var k := if s < |r| then s else |r| - 1;
    if k < 1 then None else Some((r[..k], r[k..]))
  }

  /** What `Tail` accepts has the shape. */
  lemma TailSound(r: string)
    ensures Tail(r).Some? ==>
      var (sep, p) := Tail(r).value;
      r == sep + p && |sep| > 0 && All(sep, Space) && |p| > 0
  {
    var s := Run(r, Space);
    if Tail(r).Some? {
      var k := if s < |r| then s else |r| - 1;
      assert r == r[..k] + r[k..];
      assert All(r[..k], Space) by {
        assert forall i :: 0 <= i < k ==> r[..k][i] == r[..s][i];
      }
    }
  }

  /** `Tail` accepts every text of the shape, with the longest separator. */
  lemma TailComplete(sep: string, p: string)
    requires |sep| > 0 && All(sep, Space) && |p| > 0
    ensures Tail(sep + p).Some? && |Tail(sep + p).value.0| >= |sep|
  {
    RunAppend(sep, p, Space);
  }

  /** The pattern up to the payload: `\s*`, `\d+`, `\s+`, `[^\s]+`, `\s+`, `c`. */
  const Pattern: seq<Item> := [Star(Space), Plus(Digit), Plus(Space), Plus(NonSpace), Plus(Space), Literal('c')]

  /** The whole pattern. Each item is taken greedily; since no run could
      give back a character to the next item, this is the match Ruby's
      backtracking matcher finds, except in the final `\s+(.+)`. */
  function Tokenise(body: string): Option<Tokens>
  {
    var r := ScanItems(Pattern, body);
    if r.None? then None
    else
      var (ps, rest) := r.value;
      var tail := Tail(rest);
      if tail.None? || |ps| != 6 then None
      else Some(Tokens(ps[0], ps[1], ps[2], ps[3], ps[4], tail.value.0, tail.value.1))
  }

  /** The pieces before the payload separator, as the scan sees them. */
  function Pieces(t: Tokens): seq<string>
  {
    [t.lead, t.digits, t.sep1, t.tag, t.sep2, "c"]
  }

  lemma JoinedPieces(t: Tokens)
    ensures Joined(t) == Concat(Pieces(t)) + (t.sep3 + t.payload)
  {
    var ps := Pieces(t);
    assert Concat(ps[5..]) == "c" by { assert ps[5..][1..] == []; }
    assert Concat(ps[4..]) == t.sep2 + "c" by { assert ps[4..][1..] == ps[5..]; }
    assert Concat(ps[3..]) == t.tag + (t.sep2 + "c") by { assert ps[3..][1..] == ps[4..]; }
    assert Concat(ps[2..]) == t.sep1 + (t.tag + (t.sep2 + "c")) by { assert ps[2..][1..] == ps[3..]; }
    assert Concat(ps[1..]) == t.digits + (t.sep1 + (t.tag + (t.sep2 + "c"))) by { assert ps[1..][1..] == ps[2..]; }
    assert Concat(ps) == t.lead + (t.digits + (t.sep1 + (t.tag + (t.sep2 + "c"))));
  }

  /** A piece of a text without line feeds has none either. */
  lemma NoNewlineIn(a: string, b: string)
    requires '\n' !in a + b
    ensures '\n' !in b
  {
    assert forall i :: 0 <= i < |b| ==> b[i] == (a + b)[|a| + i];
  }

  /** What a successful tokenisation is made of. */
  lemma TokeniseParts(body: string)
    requires Tokenise(body).Some?
    ensures ScanItems(Pattern, body).Some?
    ensures var ps, rest := ScanItems(Pattern, body).value.0, ScanItems(Pattern, body).value.1;
      var t := Tokenise(body).value;
      && |ps| == 6 && Tail(rest) == Some((t.sep3, t.payload))
      && ps[0] == t.lead && ps[1] == t.digits && ps[2] == t.sep1 && ps[3] == t.tag && ps[4] == t.sep2
  {
  }

  /** Soundness: what the tokeniser returns is a decomposition of the line
      with every piece of the right shape. */
  lemma TokeniseSound(body: string)
    requires '\n' !in body
    ensures Tokenise(body).Some? ==> Shaped(Tokenise(body).value) && Joined(Tokenise(body).value) == body
  {
    if Tokenise(body).Some? {
      var t := Tokenise(body).value;
      TokeniseParts(body);
      ScanSound(Pattern, body);
      var ps, rest := ScanItems(Pattern, body).value.0, ScanItems(Pattern, body).value.1;
      TailSound(rest);
      PiecesFit(t, ps);
      JoinedPieces(t);
      NoNewlineIn(Concat(ps) + t.sep3, t.payload);
    }
  }

  /** Pieces that fit the pattern are the scanner's tokens, of their shapes. */
  lemma PiecesFit(t: Tokens, ps: seq<string>)
    requires |ps| == 6 && forall i :: 0 <= i < 6 ==> Fits(Pattern[i], ps[i])
    requires ps[0] == t.lead && ps[1] == t.digits && ps[2] == t.sep1 && ps[3] == t.tag && ps[4] == t.sep2
    ensures Pieces(t) == ps
    ensures All(t.lead, Space) && |t.digits| > 0 && All(t.digits, Digit)
    ensures |t.sep1| > 0 && All(t.sep1, Space) && |t.tag| > 0 && All(t.tag, NonSpace)
    ensures |t.sep2| > 0 && All(t.sep2, Space)
  {
    assert Fits(Pattern[5], ps[5]);
    assert Fits(Pattern[0], ps[0]) && Fits(Pattern[1], ps[1]) && Fits(Pattern[2], ps[2]);
    assert Fits(Pattern[3], ps[3]) && Fits(Pattern[4], ps[4]);
  }

  /** Completeness: every decomposition of the right shape is found, with the
      same id digits, tag and separators, and a separator before the payload
      at least as long (the greedy choice). */
  lemma TokeniseComplete(t: Tokens)
    requires Shaped(t)
    ensures Tokenise(Joined(t)).Some?
    ensures var u := Tokenise(Joined(t)).value;
      && u.lead == t.lead && u.digits == t.digits && u.sep1 == t.sep1
      && u.tag == t.tag && u.sep2 == t.sep2 && |u.sep3| >= |t.sep3|
      && u.sep3 + u.payload == t.sep3 + t.payload
  {
    PatternScans(t);
    var rest := t.sep3 + t.payload;
    TailComplete(t.sep3, t.payload);
    TailSound(rest);
  }

  /** The pattern up to the payload scans a line of the shape into its pieces. */
  lemma PatternScans(t: Tokens)
    requires Shaped(t)
    ensures ScanItems(Pattern, Joined(t)) == Some((Pieces(t), t.sep3 + t.payload))
  {
    var ps, rest := Pieces(t), t.sep3 + t.payload;
    JoinedPieces(t);
    forall i | 0 <= i < 6
      ensures Fits(Pattern[i], ps[i]) && Stops(Pattern[i], Concat(ps[i + 1..]) + rest)
    {
      if i < 5 {
        ConcatHead(ps[i + 1..], rest);
      }
    }
    ScanExact(Pattern, ps, rest);
  }

  /** What a line yields: the session id (`md[1].to_i`), the tag and the
      payload. */
  datatype Entry = Entry(id: nat, tag: string, payload: string)

  /** The tokeniser on one line; `None` is the `InvalidParseError`. A
      recognised line has a tag without spaces and a non-empty payload
      without a line feed. */
  function ParseLine(line: string): (r: Option<Entry>)
    requires IsArgfLine(line)
    ensures r.Some? ==> |r.value.tag| > 0 && All(r.value.tag, NonSpace)
    ensures r.Some? ==> |r.value.payload| > 0 && '\n' !in r.value.payload
  {
    var t := Tokenise(Body(line));
    if t.None? then None
    else
      TokeniseSound(Body(line));
      assert Decimal.AllDigits(t.value.digits) by {
        assert forall i :: 0 <= i < |t.value.digits| ==> In(t.value.digits[i], Digit);
      }
      Some(Entry(Decimal.Value(t.value.digits), t.value.tag, t.value.payload))
  }

  /** Every line of the shape, with or without its line feed, is recognised:
      the id is the value of its digits, the tag is its tag, and the payload
      is what follows the longest run of spaces after the `c` that leaves
      the payload one character. */
  lemma ParseLineComplete(t: Tokens, line: string)
    requires Shaped(t) && '\n' !in Joined(t)
    requires line == Joined(t) || line == Joined(t) + "\n"
    ensures IsArgfLine(line)
    ensures ParseLine(line).Some?
    ensures ParseLine(line).value.id == Decimal.Value(t.digits)
    ensures ParseLine(line).value.tag == t.tag
    ensures t.sep3 + t.payload == Tokenise(Body(line)).value.sep3 + ParseLine(line).value.payload
  {
    assert IsArgfLine(line) by {
      assert forall i :: 0 <= i < |line| - 1 ==> line[i] == Joined(t)[i];
    }
    assert Body(line) == Joined(t) by {
      if line == Joined(t) + "\n" {
        assert '\n' in line;
      } else {
        assert line[|line| - 1] != '\n' || line == [];
      }
    }
    TokeniseComplete(t);
  }
}
