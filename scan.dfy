/** Character classes of Ruby regular expressions and the longest run of a
    class at the front of a string: what a greedy `\s*`, `\d+` or `[^\s]+`
    consumes when what follows cannot start with that class. */
module Scan {
  import Decimal
  import opened Wrappers

  /** `\s`: space, tab, line feed, vertical tab, form feed, carriage return. */
  predicate IsSpace(c: char)
  {
    c == ' ' || ('\t' <= c <= '\r')
  }

  /** `\s`, `\d`, `[^\s]`, and `[^x]` for a character `x`. */
  datatype Class = Space | Digit | NonSpace | Except(x: char)

  predicate In(c: char, k: Class)
  {
    match k
    case Space => IsSpace(c)
    case Digit => Decimal.IsDigit(c)
    case NonSpace => !IsSpace(c)
    case Except(x) => c != x
  }

  predicate All(s: string, k: Class)
  {
    forall i :: 0 <= i < |s| ==> In(s[i], k)
  }

  /** The length of the longest prefix of `s` made of class `k`. */
  function Run(s: string, k: Class): (n: nat)
    ensures n <= |s|
    ensures All(s[..n], k)
    ensures n < |s| ==> !In(s[n], k)
  {
    if s == [] || !In(s[0], k) then 0
    else
      var n := 1 + Run(s[1..], k);
      assert forall i :: 1 <= i < n ==> s[..n][i] == s[1..][..n - 1][i - 1];
      n
  }

  /** A run of the class in front of `b` adds to the run at the front of `b`. */
  lemma {:induction false} RunAppend(a: string, b: string, k: Class)
    requires All(a, k)
    ensures Run(a + b, k) == |a| + Run(b, k)
  {
    if a != [] {
      assert (a + b)[0] == a[0];
      assert (a + b)[1..] == a[1..] + b;
      RunAppend(a[1..], b, k);
    } else {
      assert a + b == b;
    }
  }

  /** A run cannot go past a character outside its class. */
  lemma {:induction false} RunBound(s: string, k: Class, i: nat)
    requires i < |s| && !In(s[i], k)
    ensures Run(s, k) <= i
  {
    if s != [] && In(s[0], k) {
      RunBound(s[1..], k, i - 1);
    }
  }

  /** A run of the class followed by something else: the run is exactly it. */
  lemma RunExact(a: string, b: string, k: Class)
    requires All(a, k)
    requires b != [] ==> !In(b[0], k)
    ensures Run(a + b, k) == |a|
  {
    RunAppend(a, b, k);
  }

  /** The longest prefix of class `k`, and the rest. */
  function Split(s: string, k: Class): (r: (string, string))
    ensures s == r.0 + r.1 && All(r.0, k)
    ensures r.1 != [] ==> !In(r.1[0], k)
  {
    var n := Run(s, k);
    assert s == s[..n] + s[n..];
    (s[..n], s[n..])
  }

  /** A run of the class followed by something else splits where it ends. */
  lemma SplitExact(a: string, b: string, k: Class)
    requires All(a, k)
    requires b != [] ==> !In(b[0], k)
    ensures Split(a + b, k) == (a, b)
  {
    RunExact(a, b, k);
    assert (a + b)[..|a|] == a && (a + b)[|a|..] == b;
  }

  /** One element of a pattern: `k*`, `k+` or a literal character. */
  datatype Item = Star(k: Class) | Plus(k: Class) | Literal(c: char)

  /** The text an item matched has the item's shape. */
  predicate Fits(it: Item, piece: string)
  {
    match it
    case Star(k) => All(piece, k)
    case Plus(k) => |piece| > 0 && All(piece, k)
    case Literal(c) => piece == [c]
  }

  /** What follows a run cannot continue it; anything may follow a literal. */
  predicate Stops(it: Item, rest: string)
  {
    match it
    case Star(k) => rest != [] ==> !In(rest[0], k)
    case Plus(k) => rest != [] ==> !In(rest[0], k)
    case Literal(_) => true
  }

  /** A greedy match of one item at the front of `s`: the text matched and the rest. */
  function Take(it: Item, s: string): Option<(string, string)>
  {
    match it
    case Star(k) => Some(Split(s, k))
    case Plus(k) =>
      var (a, b) := Split(s, k);
      if a == [] then None else Some((a, b))
    case Literal(c) => if s != [] && s[0] == c then Some(([c], s[1..])) else None
  }

  lemma TakeSound(it: Item, s: string)
    ensures Take(it, s).Some? ==>
      var (a, b) := Take(it, s).value;
      s == a + b && Fits(it, a) && Stops(it, b)
  {
    if it.Literal? && Take(it, s).Some? {
      assert s == [s[0]] + s[1..];
    }
  }

  lemma TakeExact(it: Item, a: string, b: string)
    requires Fits(it, a) && Stops(it, b)
    ensures Take(it, a + b) == Some((a, b))
  {
    match it
    case Star(k) => SplitExact(a, b, k);
    case Plus(k) => SplitExact(a, b, k);
    case Literal(c) => assert (a + b)[1..] == b;
  }

  /** The pieces written one after the other. */
  function Concat(ps: seq<string>): string
  {
    if ps == [] then [] else ps[0] + Concat(ps[1..])
  }

  lemma ConcatHead(ps: seq<string>, rest: string)
    requires ps != [] && ps[0] != []
    ensures Concat(ps) + rest != [] && (Concat(ps) + rest)[0] == ps[0][0]
  {
  }

  /** The items matched one after the other, each greedily: the piece each
      matched, and what is left. */
  function ScanItems(items: seq<Item>, s: string): Option<(seq<string>, string)>
    decreases |items|
  {
    if items == [] then Some(([], s))
    else
      var t := Take(items[0], s);
      if t.None? then None
      else
        var r := ScanItems(items[1..], t.value.1);
        if r.None? then None else Some(([t.value.0] + r.value.0, r.value.1))
  }

  /** The scan yields one piece per item. */
  lemma {:induction false} ScanLength(items: seq<Item>, s: string)
    ensures ScanItems(items, s).Some? ==> |ScanItems(items, s).value.0| == |items|
    decreases |items|
  {
    if items != [] && ScanItems(items, s).Some? {
      ScanLength(items[1..], Take(items[0], s).value.1);
    }
  }

  /** The pieces and the rest spell the text. */
  lemma {:induction false} ScanSpells(items: seq<Item>, s: string)
    ensures ScanItems(items, s).Some? ==> Concat(ScanItems(items, s).value.0) + ScanItems(items, s).value.1 == s
    decreases |items|
  {
    if items != [] && ScanItems(items, s).Some? {
      var t := Take(items[0], s).value;
      TakeSound(items[0], s);
      ScanSpells(items[1..], t.1);
      var r := ScanItems(items[1..], t.1).value;
      assert ([t.0] + r.0)[1..] == r.0;
    }
  }

  /** Each piece has its item's shape. */
  lemma {:induction false} ScanFits(items: seq<Item>, s: string)
    requires ScanItems(items, s).Some?
    ensures |ScanItems(items, s).value.0| == |items|
    ensures forall i :: 0 <= i < |items| ==> Fits(items[i], ScanItems(items, s).value.0[i])
    decreases |items|
  {
    ScanLength(items, s);
    if items != [] {
      var t := Take(items[0], s).value;
      TakeSound(items[0], s);
      ScanFits(items[1..], t.1);
      var qs := ScanItems(items[1..], t.1).value.0;
      var ps := ScanItems(items, s).value.0;
      assert ps == [t.0] + qs;
      forall i | 0 <= i < |items|
        ensures Fits(items[i], ps[i])
      {
        if i > 0 {
          assert Fits(items[1..][i - 1], qs[i - 1]);
        }
      }
    }
  }

  /** Soundness: the pieces spell the text, and each has its item's shape. */
  lemma ScanSound(items: seq<Item>, s: string)
    ensures ScanItems(items, s).Some? ==>
      var (ps, rest) := ScanItems(items, s).value;
      && |ps| == |items| && Concat(ps) + rest == s
      && forall i :: 0 <= i < |items| ==> Fits(items[i], ps[i])
  {
    ScanLength(items, s);
    ScanSpells(items, s);
    if ScanItems(items, s).Some? {
      ScanFits(items, s);
    }
  }

  /** Uniqueness: a decomposition in which no run could have been longer is
      the one the scan finds. */
  lemma {:induction false} ScanExact(items: seq<Item>, ps: seq<string>, rest: string)
    requires |ps| == |items|
    requires forall i :: 0 <= i < |items| ==> Fits(items[i], ps[i]) && Stops(items[i], Concat(ps[i + 1..]) + rest)
    ensures ScanItems(items, Concat(ps) + rest) == Some((ps, rest))
    decreases |items|
  {
    if items != [] {
      var s, x := Concat(ps) + rest, Concat(ps[1..]) + rest;
      assert Fits(items[0], ps[0]) && Stops(items[0], Concat(ps[0 + 1..]) + rest);
      assert s == ps[0] + x;
      TakeExact(items[0], ps[0], x);
      forall i | 0 <= i < |items| - 1
        ensures Fits(items[1..][i], ps[1..][i]) && Stops(items[1..][i], Concat(ps[1..][i + 1..]) + rest)
      {
        assert ps[1..][i + 1..] == ps[i + 2..];
        assert Stops(items[i + 1], Concat(ps[(i + 1) + 1..]) + rest);
      }
      ScanExact(items[1..], ps[1..], rest);
      assert ScanItems(items[1..], x) == Some((ps[1..], rest));
      assert [ps[0]] + ps[1..] == ps;
    } else {
      assert Concat(ps) + rest == rest;
    }
  }
}
