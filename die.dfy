/** src/die.c: the fatal-error exits. Every path formats a message, writes
    it and one newline to standard error, and exits with EXIT_FAILURE. The
    formatted output is modelled by a small interpreter of the conversions
    these functions use (`%s`, `%d`, `%%`). */
module Die {
  import opened Wrappers
  import opened CStrings
  import opened GErrors
  import Decimal

  const EXIT_FAILURE: int := 1

  /** An argument passed through `...` / `va_list`. */
  datatype Arg = Str(s: CString) | Int(n: Int32)

  /** The process ends: what it wrote to standard error and its exit status. */
  datatype Exit = Exit(stderr: seq<Byte>, status: int)

  function Prepend(prefix: seq<Byte>, rest: Option<seq<Byte>>): (r: Option<seq<Byte>>)
    ensures rest.None? <==> r.None?
    ensures rest.Some? ==> r.value == prefix + rest.value
  {
    if rest.Some? then Some(prefix + rest.value) else None
  }

  /** The text `vfprintf(stderr, fmt, ap)` writes; `None` where the format
      and the arguments do not agree (undefined behaviour). */
  function Format(fmt: seq<Byte>, args: seq<Arg>): Option<seq<Byte>>
    decreases |fmt|
  {
    if fmt == [] then Some([])
    else if fmt[0] != '%' then Prepend([fmt[0]], Format(fmt[1..], args))
    else if |fmt| < 2 then None
    else
      var c := Conversion(fmt[1], args);
      if c.None? then None
      else Prepend(c.value.0, Format(fmt[2..], c.value.1))
  }

  /** One conversion: the text it produces and the arguments it leaves. */
  function Conversion(spec: Byte, args: seq<Arg>): Option<(seq<Byte>, seq<Arg>)>
  {
    if spec == '%' then Some((['%'], args))
    else if spec == 's' && args != [] && args[0].Str? then Some((args[0].s, args[1..]))
    else if spec == 'd' && args != [] && args[0].Int? then Some((Rendered(args[0].n), args[1..]))
    else None
  }

  /** What `%d` writes for `n`, as bytes. */
  function Rendered(n: Int32): (s: seq<Byte>)
    ensures s == Decimal.Render(n as int)
  {
    var t := Decimal.Render(n as int);
    assert forall i :: 0 <= i < |t| ==> t[i] == '-' || Decimal.IsDigit(t[i]);
    t
  }

  /** Text without `%` is copied as it is. */
  lemma {:induction false} FormatLiteral(lit: seq<Byte>, rest: seq<Byte>, args: seq<Arg>)
    requires '%' !in lit
    ensures Format(lit + rest, args) == Prepend(lit, Format(rest, args))
  {
    if lit != [] {
      assert lit[0] in lit;
      assert (lit + rest)[0] == lit[0] != '%';
      assert (lit + rest)[1..] == lit[1..] + rest;
      assert '%' !in lit[1..] by {
        forall i | 0 <= i < |lit| - 1 ensures lit[1..][i] != '%' { assert lit[1..][i] == lit[i + 1]; }
      }
      FormatLiteral(lit[1..], rest, args);
      assert Format(lit + rest, args) == Prepend([lit[0]], Format(lit[1..] + rest, args));
      assert [lit[0]] + lit[1..] == lit;
      var f := Format(rest, args);
      if f.Some? {
        assert [lit[0]] + (lit[1..] + f.value) == lit + f.value;
      }
    } else {
      assert lit + rest == rest;
      assert Format(rest, args).Some? ==> lit + Format(rest, args).value == Format(rest, args).value;
    }
  }

  lemma FormatString(s: CString, rest: seq<Byte>, args: seq<Arg>)
    ensures Format("%s" + rest, [Str(s)] + args) == Prepend(s, Format(rest, args))
  {
    assert ("%s" + rest)[2..] == rest;
    assert ([Str(s)] + args)[1..] == args;
  }

  lemma FormatInt(n: Int32, rest: seq<Byte>, args: seq<Arg>)
    ensures Format("%d" + rest, [Int(n)] + args) == Prepend(Rendered(n), Format(rest, args))
  {
    assert ("%d" + rest)[2..] == rest;
    assert ([Int(n)] + args)[1..] == args;
  }

  /** `diefv`: the formatted message, exactly one newline, EXIT_FAILURE; it
      does not return. */
  function Diefv(fmt: seq<Byte>, args: seq<Arg>): (r: Option<Exit>)
    ensures Format(fmt, args).Some? <==> r.Some?
    ensures r.Some? ==> r.value.status == EXIT_FAILURE
    ensures r.Some? ==> r.value.stderr == Format(fmt, args).value + "\n"
  {
    var text := Format(fmt, args);
    if text.Some? then Some(Exit(text.value + "\n", EXIT_FAILURE)) else None
  }

  /** `die(msg)`: `msg` is the argument of a `%s`, so it is printed as it is,
      whatever `%` signs it holds. */
  function Die(msg: CString): (r: Exit)
    ensures r == Exit(msg + "\n", EXIT_FAILURE)
  {
    FormatString(msg, [], []);
    assert "%s" + [] == "%s" && [Str(msg)] + [] == [Str(msg)] && msg + [] == msg;
    var r := Diefv("%s", [Str(msg)]);
    r.value
  }

  /** `g_die(err)`: `"<domain> (<code>): <message>"`, or "Unspecified error"
      when there is no error. */
  function GDie(err: Option<GError>): (r: Exit)
    ensures r.status == EXIT_FAILURE
    ensures err.Some? ==>
      r.stderr == err.value.domain + (" (" + (Rendered(err.value.code) + ("): " + err.value.message))) + "\n"
    ensures err.None? ==> r.stderr == "Unspecified error\n"
  {
    if err.Some? then
      var e := err.value;
      GDieFormat(e.domain, e.code, e.message);
      Diefv("%s (%d): %s", [Str(e.domain), Int(e.code), Str(e.message)]).value
    else
      Die("Unspecified error")
  }

  /** g_die's format gives "domain (code): message". */
  lemma GDieFormat(d: CString, c: Int32, m: CString)
    ensures Format("%s (%d): %s", [Str(d), Int(c), Str(m)])
         == Some(d + (" (" + (Rendered(c) + ("): " + m))))
  {
    // the format cut at its conversions
    assert "%s (%d): %s" == "%s" + (" (" + ("%d" + ("): " + "%s")));
    FormatThree(d, c, m, " (", "): ");
  }

  /** A string, a separator, a number, a separator and a string, read from
      the end of the format to its start. */
  lemma FormatThree(d: CString, c: Int32, m: CString, sep1: seq<Byte>, sep2: seq<Byte>)
    requires '%' !in sep1 && '%' !in sep2
    ensures Format("%s" + (sep1 + ("%d" + (sep2 + "%s"))), [Str(d), Int(c), Str(m)])
         == Some(d + (sep1 + (Rendered(c) + (sep2 + m))))
  {
    FormatString(m, [], []);
    assert "%s" + [] == "%s" && [Str(m)] + [] == [Str(m)] && m + [] == m;
    FormatLiteral(sep2, "%s", [Str(m)]);
    FormatInt(c, sep2 + "%s", [Str(m)]);
    assert [Int(c)] + [Str(m)] == [Int(c), Str(m)];
    FormatLiteral(sep1, "%d" + (sep2 + "%s"), [Int(c), Str(m)]);
    FormatString(d, sep1 + ("%d" + (sep2 + "%s")), [Int(c), Str(m)]);
    assert [Str(d)] + [Int(c), Str(m)] == [Str(d), Int(c), Str(m)];
  }
}
