/** The session tracker of varnishlog-parser.rb: a `Session` per session id
    collects the raw entries and what the tag handlers extract from them,
    and a session is finished when its `SessionClose` entry arrives. */
module Sessions {
  import opened Wrappers
  import Payloads
  import LogLine

  const RxHeader := "RxHeader"
  const SessionOpen := "SessionOpen"
  const SessionClose := "SessionClose"
  const RxProtocol := "RxProtocol"
  const RxURL := "RxURL"
  const RxRequest := "RxRequest"
  const TxStatus := "TxStatus"

  const Protocol := "protocol"
  const Url := "url"
  const Method := "method"
  const Status := "status"
  const Ip := "ip"

  /** What the handler registered for a tag does. */
  datatype Handler =
    | Save(field: string)  // `on_tag_save`: store the payload under `field`
    | Header               // parse a header line into the `:headers` hash
    | Open                 // parse the client address into `'ip'`
    | Close                // mark the session closed

  /** The handler table `Session.tag_handlers`. */
  function HandlerFor(tag: string): (h: Option<Handler>)
    ensures h.Some? <==> tag in {RxHeader, SessionOpen, SessionClose, RxProtocol, RxURL, RxRequest, TxStatus}
    ensures h == Some(Close) <==> tag == SessionClose
  {
    if tag == RxHeader then Some(Header)
    else if tag == SessionOpen then Some(Open)
    else if tag == SessionClose then Some(Close)
    else if tag == RxProtocol then Some(Save(Protocol))
    else if tag == RxURL then Some(Save(Url))
    else if tag == RxRequest then Some(Save(Method))
    else if tag == TxStatus then Some(Save(Status))
    else None
  }

  /** What a session has extracted: the string-keyed entries of
      `@session_data`, its `:headers` hash (absent until the first header),
      and `@closed`. */
  datatype State = State(data: map<string, string>, headers: Option<map<string, string>>, closed: bool)

  const Initial := State(map[], None, false)

  /** The headers so far; `||= {}` starts from an empty hash. */
  function HeadersOf(st: State): map<string, string>
  {
    if st.headers.Some? then st.headers.value else map[]
  }

  /** The handler for `tag` run on `payload`; `None` is the
      `InvalidParseError` a payload the handler's pattern rejects raises. */
  function Handle(st: State, tag: string, payload: string): Option<State>
  {
    match HandlerFor(tag)
    case None => Some(st)
    case Some(Save(field)) => Some(st.(data := st.data[field := payload]))
    case Some(Header) =>
      var h := Payloads.ParseHeader(payload);
      if h.None? then None
      else Some(st.(headers := Some(HeadersOf(st)[h.value.name := h.value.value])))
    case Some(Open) =>
      var o := Payloads.ParseOpen(payload);
      if o.None? then None
      else Some(st.(data := st.data[Ip := Payloads.QuadText(o.value.ip)]))
    case Some(Close) => Some(st.(closed := true))
  }

  /** A tag without a handler only adds to the raw data. */
  lemma HandleUnknown(st: State, tag: string, payload: string)
    requires tag !in {RxHeader, SessionOpen, SessionClose, RxProtocol, RxURL, RxRequest, TxStatus}
    ensures Handle(st, tag, payload) == Some(st)
  {
  }

  /** The saved tags store their payload, whatever it is, under their field
      and change nothing else. */
  lemma HandleSave(st: State, tag: string, payload: string)
    requires tag in {RxProtocol, RxURL, RxRequest, TxStatus}
    ensures var field := if tag == RxProtocol then Protocol else if tag == RxURL then Url
                         else if tag == RxRequest then Method else Status;
      && Handle(st, tag, payload).Some?
      && Handle(st, tag, payload).value.data == st.data[field := payload]
      && Handle(st, tag, payload).value.headers == st.headers
      && Handle(st, tag, payload).value.closed == st.closed
  {
  }

  /** `SessionClose` closes the session whatever its payload, and nothing
      else does; a closed session stays closed. */
  lemma HandleClose(st: State, tag: string, payload: string)
    ensures tag == SessionClose ==> Handle(st, tag, payload) == Some(st.(closed := true))
    ensures Handle(st, tag, payload).Some? ==>
      (Handle(st, tag, payload).value.closed <==> st.closed || tag == SessionClose)
  {
  }

  /** `RxHeader` fails exactly on a payload its pattern rejects; otherwise
      it sets the header's value, keeps every other header, and starts the
      hash if there was none. */
  lemma HandleHeader(st: State, payload: string)
    ensures Handle(st, RxHeader, payload).None? <==> Payloads.ParseHeader(payload).None?
    ensures Handle(st, RxHeader, payload).Some? ==>
      var h := Payloads.ParseHeader(payload).value;
      var r := Handle(st, RxHeader, payload).value;
      && r.headers.Some? && h.name in r.headers.value && r.headers.value[h.name] == h.value
      && (forall n :: n != h.name ==> (n in r.headers.value <==> n in HeadersOf(st)))
      && (forall n :: n != h.name && n in HeadersOf(st) ==> r.headers.value[n] == HeadersOf(st)[n])
      && r.data == st.data && r.closed == st.closed
  {
  }

  /** `SessionOpen` fails exactly on a payload its pattern rejects; otherwise
      it saves the client address, as written, under `'ip'`. */
  lemma HandleOpen(st: State, payload: string)
    ensures Handle(st, SessionOpen, payload).None? <==> Payloads.ParseOpen(payload).None?
    ensures Handle(st, SessionOpen, payload).Some? ==>
      var r := Handle(st, SessionOpen, payload).value;
      && r.data == st.data[Ip := Payloads.QuadText(Payloads.ParseOpen(payload).value.ip)]
      && r.headers == st.headers && r.closed == st.closed
  {
  }

  /** The handlers run over a session's entries in order, stopping at the
      first that raises. */
  function Replay(st: State, entries: seq<(string, string)>): Option<State>
  {
    if entries == [] then Some(st)
    else
      var r := Replay(st, entries[..|entries| - 1]);
      if r.None? then None
      else Handle(r.value, entries[|entries| - 1].0, entries[|entries| - 1].1)
  }

  /** The payload of the last entry with tag `tag`. */
  function Last(entries: seq<(string, string)>, tag: string): Option<string>
  {
    if entries == [] then None
    else if entries[|entries| - 1].0 == tag then Some(entries[|entries| - 1].1)
    else Last(entries[..|entries| - 1], tag)
  }

  /** A session is closed exactly when one of its entries is a
      `SessionClose`. */
  lemma {:induction false} ReplayClosed(entries: seq<(string, string)>)
    ensures Replay(Initial, entries).Some? ==>
      (Replay(Initial, entries).value.closed <==> exists i :: 0 <= i < |entries| && entries[i].0 == SessionClose)
  {
    if entries != [] && Replay(Initial, entries).Some? {
      var front, x := entries[..|entries| - 1], entries[|entries| - 1];
      ReplayClosed(front);
      HandleClose(Replay(Initial, front).value, x.0, x.1);
      assert forall i :: 0 <= i < |front| ==> front[i] == entries[i];
      if x.0 != SessionClose && Replay(Initial, entries).value.closed {
        var i :| 0 <= i < |front| && front[i].0 == SessionClose;
        assert entries[i].0 == SessionClose;
      }
    }
  }

  /** The field of a saved tag holds the payload of the last entry with
      that tag: later values overwrite earlier ones. */
  lemma {:induction false} ReplaySaved(entries: seq<(string, string)>, tag: string, field: string)
    requires HandlerFor(tag) == Some(Save(field))
    ensures Replay(Initial, entries).Some? ==>
      && (field in Replay(Initial, entries).value.data <==> Last(entries, tag).Some?)
      && (field in Replay(Initial, entries).value.data ==> Replay(Initial, entries).value.data[field] == Last(entries, tag).value)
  {
    if entries != [] && Replay(Initial, entries).Some? {
      var front, x := entries[..|entries| - 1], entries[|entries| - 1];
      ReplaySaved(front, tag, field);
      if x.0 != tag {
        OtherTagsKeep(Replay(Initial, front).value, x.0, x.1, tag, field);
      }
    }
  }

  /** Each saved tag has a field of its own, and none of them is `'ip'`. */
  lemma SavedFieldsDistinct(tag: string, other: string, field: string)
    requires HandlerFor(tag) == Some(Save(field)) && other != tag
    ensures HandlerFor(other) != Some(Save(field)) && field != Ip
  {
    assert Protocol != Url && Protocol != Method && Protocol != Status && Protocol != Ip;
    assert Url != Method && Url != Status && Url != Ip;
    assert Method != Status && Method != Ip && Status != Ip;
  }

  /** No other handler writes the field of a saved tag. */
  lemma OtherTagsKeep(st: State, other: string, payload: string, tag: string, field: string)
    requires HandlerFor(tag) == Some(Save(field)) && other != tag
    requires Handle(st, other, payload).Some?
    ensures (field in Handle(st, other, payload).value.data <==> field in st.data)
    ensures field in st.data ==> Handle(st, other, payload).value.data[field] == st.data[field]
  {
    SavedFieldsDistinct(tag, other, field);
  }

  /** What the tracker holds of one session: its extracted state and its
      raw entries. */
  type Snapshot = (State, seq<string>)

  /** `$sessions` and `$finished_sessions` as values. */
  datatype Tables = Tables(live: map<nat, Snapshot>, done: seq<Snapshot>)

  /** What `add_data` makes of the entry's session (a new one for an unseen
      id): the raw entry is recorded and the handler's result applied. The
      flag is false where the handler raises, after the raw entry is
      recorded. */
  function Updated(t: Tables, e: LogLine.Entry): (Snapshot, bool)
  {
    var (st, raw) := if e.id in t.live then t.live[e.id] else (Initial, []);
    var h := Handle(st, e.tag, e.payload);
    ((if h.Some? then h.value else st, raw + [e.tag + " " + e.payload]), h.Some?)
  }

  /** The body of `ARGF.each` for a tokenised line: the entry's session is
      updated, and one the entry closed moves to the finished list. */
  function Enter(t: Tables, e: LogLine.Entry): (Tables, bool)
  {
    var (x, ok) := Updated(t, e);
    if ok && x.0.closed then (Tables(t.live - {e.id}, t.done + [x]), true)
    else (Tables(t.live[e.id := x], t.done), ok)
  }

  /** `Enter` as the update of one entry of the live table, followed by the
      move of a closed session to the finished list. */
  lemma EnterUpdates(t: Tables, e: LogLine.Entry)
    ensures var (x, ok) := Updated(t, e);
      var live := t.live[e.id := x];
      Enter(t, e) == if ok && x.0.closed then (Tables(live - {e.id}, t.done + [live[e.id]]), true)
                     else (Tables(live, t.done), ok)
  {
    var x := Updated(t, e).0;
    assert t.live[e.id := x] - {e.id} == t.live - {e.id};
  }

  /** One line, as the loop sees it after the tokeniser: its entry, or
      `None` for a line that does not tokenise, which raises and changes
      nothing. */
  function Step(t: Tables, p: Option<LogLine.Entry>): (Tables, bool)
  {
    if p.None? then (t, false) else Enter(t, p.value)
  }

  predicate ArgfLines(lines: seq<string>)
  {
    forall i :: 0 <= i < |lines| ==> LogLine.IsArgfLine(lines[i])
  }

  /** `ps` holds what each of the lines tokenises to. */
  ghost predicate ParsedAs(lines: seq<string>, ps: seq<Option<LogLine.Entry>>)
  {
    && ArgfLines(lines)
    && |ps| == |lines|
    && forall i {:trigger LogLine.ParseLine(lines[i])} :: 0 <= i < |lines| ==> ps[i] == LogLine.ParseLine(lines[i])
  }

  /** Every sequence of lines has its entries. */
  lemma ParsedAsExists(lines: seq<string>)
    requires ArgfLines(lines)
    ensures ParsedAs(lines, seq(|lines|, i requires 0 <= i < |lines| => LogLine.ParseLine(lines[i])))
  {
  }

  /** A loop that applies `step` to each element in turn, up to and
      including the first whose step fails: the state then, and how many
      elements went through. */
  function Fold<S, P>(step: (S, P) -> (S, bool), t: S, ps: seq<P>): (S, nat)
    decreases |ps|
  {
    if ps == [] then (t, 0)
    else
      var u := step(t, ps[0]);
      if !u.1 then (u.0, 0)
      else
        var v := Fold(step, u.0, ps[1..]);
        (v.0, v.1 + 1)
  }

  /** A loop whose first `d` elements all went through continues with
      element `d`: if it goes through too, so does the prefix one longer;
      if it fails, the loop ends there. */
  lemma {:induction false} FoldSnoc<S, P>(step: (S, P) -> (S, bool), t: S, ps: seq<P>, d: nat)
    requires d < |ps| && Fold(step, t, ps[..d]).1 == d
    ensures var u := step(Fold(step, t, ps[..d]).0, ps[d]);
      && (u.1 ==> Fold(step, t, ps[..d + 1]) == (u.0, d + 1))
      && (!u.1 ==> Fold(step, t, ps) == (u.0, d))
    decreases d
  {
    var v := step(t, ps[0]);
    if d == 0 {
      assert ps[..1][1..] == [];
    } else {
      assert ps[..d][0] == ps[0] && ps[..d][1..] == ps[1..][..d - 1];
      assert ps[..d + 1][0] == ps[0] && ps[..d + 1][1..] == ps[1..][..d];
      assert ps[1..][d - 1] == ps[d];
      FoldSnoc(step, v.0, ps[1..], d - 1);
    }
  }

  /** The loop stops at the first element that fails: every element before
      it goes through, and the state is the one the failing step leaves. */
  lemma {:induction false} FoldStop<S, P>(step: (S, P) -> (S, bool), t: S, ps: seq<P>)
    ensures Fold(step, t, ps).1 <= |ps|
    ensures var n := Fold(step, t, ps).1;
      n < |ps| ==>
        && Fold(step, t, ps[..n]).1 == n
        && !step(Fold(step, t, ps[..n]).0, ps[n]).1
        && Fold(step, t, ps).0 == step(Fold(step, t, ps[..n]).0, ps[n]).0
    decreases |ps|
  {
    if ps != [] {
      var u := step(t, ps[0]);
      if u.1 {
        FoldStop(step, u.0, ps[1..]);
        var n := Fold(step, t, ps).1;
        assert ps[..n][1..] == ps[1..][..n - 1];
        if n < |ps| {
          assert ps[1..][n - 1] == ps[n];
        }
      } else {
        assert ps[..0] == [];
      }
    }
  }

  /** No element after the one that fails is looked at: any longer prefix
      gives the same result. */
  lemma {:induction false} FoldIgnoresLater<S, P>(step: (S, P) -> (S, bool), t: S, ps: seq<P>, m: nat)
    requires Fold(step, t, ps).1 < m <= |ps|
    ensures Fold(step, t, ps[..m]) == Fold(step, t, ps)
    decreases |ps|
  {
    var q := ps[..m];
    assert q[0] == ps[0];
    var u := step(t, ps[0]);
    if u.1 {
      assert q[1..] == ps[1..][..m - 1];
      FoldIgnoresLater(step, u.0, ps[1..], m - 1);
    }
  }

  /** `ARGF.each` over lines whose entries are `ps`, up to and including the
      first line that raises: the tables then, and how many lines went
      through without raising. */
  function Steps(t: Tables, ps: seq<Option<LogLine.Entry>>): (Tables, nat)
  {
    Fold(Step, t, ps)
  }

  /** Live sessions are open and finished ones closed. */
  predicate Sorted(t: Tables)
  {
    && (forall a :: a in t.live ==> !t.live[a].0.closed)
    && (forall i :: 0 <= i < |t.done| ==> t.done[i].0.closed)
  }

  /** Every line keeps live sessions open and finished ones closed, and the
      finished list only grows: what is finished stays as it was. */
  lemma {:induction false} StepsKeep(t: Tables, ps: seq<Option<LogLine.Entry>>)
    requires Sorted(t)
    ensures Sorted(Steps(t, ps).0)
    ensures t.done <= Steps(t, ps).0.done
    decreases |ps|
  {
    if ps != [] {
      var u := Step(t, ps[0]);
      StepKeeps(t, ps[0]);
      assert Steps(t, ps) == if !u.1 then (u.0, 0) else var v := Steps(u.0, ps[1..]); (v.0, v.1 + 1);
      if u.1 {
        StepsKeep(u.0, ps[1..]);
      }
    }
  }

  lemma StepKeeps(t: Tables, p: Option<LogLine.Entry>)
    requires Sorted(t)
    ensures Sorted(Step(t, p).0) && t.done <= Step(t, p).0.done
  {
    if p.Some? {
      var e := p.value;
      var st := if e.id in t.live then t.live[e.id].0 else Initial;
      HandleClose(st, e.tag, e.payload);
    }
  }

  /** `Session`: its extracted state, the raw entries `"tag payload"` in the
      order they arrived, and whether it is closed. */
  class Session {
    var data: map<string, string>
    var headers: Option<map<string, string>>
    var rawData: seq<string>
    var closed: bool

    function Extracted(): State
      reads this
    {
      State(data, headers, closed)
    }

    function Snap(): Snapshot
      reads this
    {
      (Extracted(), rawData)
    }

    /** `Session.new`: no data, no raw entries, open. */
    constructor ()
      ensures Extracted() == Initial && rawData == []
    {
      data, headers, rawData, closed := map[], None, [], false;
    }

    /** `add_data`: record the raw entry, then run the tag's handler, if
        any. A handler that raises leaves the raw entry recorded and the
        rest as it was. */
    method AddData(tag: string, payload: string) returns (ok: bool)
      modifies this
      ensures rawData == old(rawData) + [tag + " " + payload]
      ensures ok <==> Handle(old(Extracted()), tag, payload).Some?
      ensures ok ==> Extracted() == Handle(old(Extracted()), tag, payload).value
      ensures !ok ==> Extracted() == old(Extracted())
    {
      rawData := rawData + [tag + " " + payload];
      var handler := HandlerFor(tag);
      if handler.None? {
        return true;
      }
      match handler.value
      case Save(field) =>
        data := data[field := payload];
        ok := true;
      case Header =>
        var h := Payloads.ParseHeader(payload);
        if h.None? {
          return false;
        }
        var table := if headers.Some? then headers.value else map[];
        headers := Some(table[h.value.name := h.value.value]);
        ok := true;
      case Open =>
        var o := Payloads.ParseOpen(payload);
        if o.None? {
          return false;
        }
        data := data[Ip := Payloads.QuadText(o.value.ip)];
        ok := true;
      case Close =>
        closed := true;
        ok := true;
    }
  }

  /** The snapshots of the live sessions. */
  ghost function LiveSnaps(m: map<nat, Session>): map<nat, Snapshot>
    reads m.Values
  {
    map a | a in m :: m[a].Snap()
  }

  /** The snapshots of the finished sessions, in order. */
  ghost function Snaps(ss: seq<Session>): seq<Snapshot>
    reads set s | s in ss
  {
    seq(|ss|, i requires 0 <= i < |ss| reads set s | s in ss => ss[i].Snap())
  }

  lemma LiveSnapsPut(m: map<nat, Session>, id: nat, s: Session)
    ensures LiveSnaps(m[id := s]) == LiveSnaps(m)[id := s.Snap()]
  {
  }

  lemma LiveSnapsRemove(m: map<nat, Session>, id: nat)
    ensures LiveSnaps(m - {id}) == LiveSnaps(m) - {id}
  {
  }

  lemma SnapsAppend(ss: seq<Session>, s: Session)
    ensures Snaps(ss + [s]) == Snaps(ss) + [s.Snap()]
  {
  }

  /** No session object is in the tables twice. */
  ghost predicate Apart(m: map<nat, Session>, f: seq<Session>)
  {
    && (forall a, b :: a in m && b in m && a != b ==> m[a] != m[b])
    && (forall i :: 0 <= i < |f| ==> f[i] !in m.Values)
    && (forall i, j :: 0 <= i < j < |f| ==> f[i] != f[j])
  }

  /** Moving a live session to the end of the finished list keeps the
      objects apart. */
  lemma ApartRetire(m: map<nat, Session>, f: seq<Session>, id: nat)
    requires Apart(m, f) && id in m
    ensures Apart(m - {id}, f + [m[id]])
  {
    var m', f' := m - {id}, f + [m[id]];
    assert forall i :: 0 <= i < |f| ==> f'[i] == f[i];
    forall i | 0 <= i < |f'|
      ensures f'[i] !in m'.Values
    {
      if i < |f| {
        assert f[i] !in m.Values;
      } else {
        forall a | a in m' ensures m'[a] != m[id] { assert a != id; }
      }
    }
  }

  lemma PutRemove(m: map<nat, Session>, k: nat, v: Session)
    ensures m[k := v] - {k} == m - {k}
  {
  }

  lemma PutTwice(m: map<nat, Snapshot>, k: nat, x: Snapshot, y: Snapshot)
    ensures m[k := x][k := y] == m[k := y]
  {
  }

  /** `$sessions` and `$finished_sessions`. */
  class Tracker {
    var sessions: map<nat, Session>
    var finished: seq<Session>

    /** Each live id has its own session, no finished session is live, and
        each is finished once. */
    ghost predicate Distinct()
      reads this
    {
      && (forall a, b :: a in sessions && b in sessions && a != b ==> sessions[a] != sessions[b])
      && (forall i :: 0 <= i < |finished| ==> finished[i] !in sessions.Values)
      && (forall i, j :: 0 <= i < j < |finished| ==> finished[i] != finished[j])
    }

    /** The live sessions are open and the finished ones closed. */
    ghost predicate Valid()
      reads this, sessions.Values, set s | s in finished
    {
      && Distinct()
      && (forall a :: a in sessions ==> !sessions[a].closed)
      && (forall i :: 0 <= i < |finished| ==> finished[i].closed)
    }

    /** The tables as values: each session's extracted state and raw
        entries. */
    ghost function Abstract(): Tables
      reads this, sessions.Values, set s | s in finished
    {
      Tables(LiveSnaps(sessions), Snaps(finished))
    }

    constructor ()
      ensures sessions == map[] && finished == [] && Valid()
    {
      sessions, finished := map[], [];
    }

    /** `$sessions[session_id] = Session.new unless ...`, then the lookup. */
    method Lookup(id: nat) returns (session: Session)
      requires Valid()
      modifies this
      ensures Valid() && finished == old(finished)
      ensures id in old(sessions) ==> sessions == old(sessions) && session == old(sessions[id])
      ensures id !in old(sessions) ==>
        && fresh(session) && sessions == old(sessions)[id := session]
        && session.Extracted() == Initial && session.rawData == []
      ensures Abstract() == Tables(old(Abstract()).live[id := session.Snap()], old(Abstract()).done)
    {
      if id !in sessions {
        session := new Session();
        sessions := sessions[id := session];
        LiveSnapsPut(old(sessions), id, session);
        assert LiveSnaps(old(sessions)) == old(LiveSnaps(sessions));
      } else {
        session := sessions[id];
        LiveSnapsPut(sessions, id, session);
        assert sessions[id := session] == sessions;
      }
    }

    /** Changing one live session changes only its entry in the tables. */
    twostate lemma OneSessionChanged(id: nat)
      requires old(Distinct()) && unchanged(this) && id in sessions
      requires forall a :: a in sessions && a != id ==> unchanged(sessions[a])
      requires forall i :: 0 <= i < |finished| ==> unchanged(finished[i])
      ensures Abstract() == Tables(old(Abstract()).live[id := sessions[id].Snap()], old(Abstract()).done)
    {
    }

    /** A session that is still open after its entry stays live. */
    lemma StillOpen(id: nat)
      requires Distinct() && id in sessions && !sessions[id].closed
      requires forall a :: a in sessions && a != id ==> !sessions[a].closed
      requires forall i :: 0 <= i < |finished| ==> finished[i].closed
      ensures Valid()
    {
    }

    /** `$finished_sessions << session` and `$sessions.delete(session_id)`. */
    method Retire(id: nat)
      requires Distinct() && id in sessions && sessions[id].closed
      requires forall a :: a in sessions && a != id ==> !sessions[a].closed
      requires forall i :: 0 <= i < |finished| ==> finished[i].closed
      modifies this
      ensures sessions == old(sessions) - {id} && finished == old(finished) + [old(sessions[id])]
      ensures Valid()
      ensures Abstract() == Tables(old(Abstract()).live - {id}, old(Abstract()).done + [old(Abstract()).live[id]])
    {
      var s := sessions[id];
      ghost var live, done := LiveSnaps(sessions), Snaps(finished);
      assert live[id] == s.Snap();
      finished := finished + [s];
      sessions := sessions - {id};
      LiveSnapsRemove(old(sessions), id);
      SnapsAppend(old(finished), s);
      assert LiveSnaps(sessions) == live - {id};
      assert Snaps(finished) == done + [s.Snap()];
      ApartRetire(old(sessions), old(finished), id);
      assert forall a :: a in sessions ==> a in old(sessions) && a != id;
    }

    /** The body of `ARGF.each` once the line is tokenised: find or create
        the session for the id, add the entry, and move a session that is
        now closed from the live table to the finished list. `ok` is false
        where the handler raises `InvalidParseError`. */
    method Deliver(e: LogLine.Entry) returns (ok: bool, ghost s: Session)
      requires Valid()
      modifies this, sessions.Values
      ensures Valid()
      ensures e.id in old(sessions) ==> s == old(sessions[e.id])
      ensures e.id !in old(sessions) ==> fresh(s)
      ensures s.rawData == old(if e.id in sessions then sessions[e.id].rawData else []) + [e.tag + " " + e.payload]
      ensures var before := old(if e.id in sessions then sessions[e.id].Extracted() else Initial);
        && (ok <==> Handle(before, e.tag, e.payload).Some?)
        && (ok ==> s.Extracted() == Handle(before, e.tag, e.payload).value)
        && (!ok ==> s.Extracted() == before)
      ensures ok && s.closed ==> sessions == old(sessions) - {e.id} && finished == old(finished) + [s]
      ensures !(ok && s.closed) ==> sessions == old(sessions)[e.id := s] && finished == old(finished)
      // no other session, live or finished, is touched
      ensures forall a :: a in old(sessions) && a != e.id ==> unchanged(old(sessions[a]))
      ensures forall i :: 0 <= i < |old(finished)| ==> unchanged(old(finished[i]))
      ensures (Abstract(), ok) == Enter(old(Abstract()), e)
    {
      ghost var before := if e.id in sessions then sessions[e.id].Extracted() else Initial;
      ok, s := Admit(e);
      EnterUpdates(old(Abstract()), e);
      HandleClose(before, e.tag, e.payload);
      if ok && sessions[e.id].closed {
        PutRemove(old(sessions), e.id, s);
        Retire(e.id);
      } else {
        StillOpen(e.id);
      }
    }

    /** Find or create the session for the entry's id and add the entry:
        only that session and the live table change. */
    method Admit(e: LogLine.Entry) returns (ok: bool, ghost s: Session)
      requires Valid()
      modifies this, sessions.Values
      ensures Distinct() && e.id in sessions && s == sessions[e.id]
      ensures sessions == old(sessions)[e.id := s] && finished == old(finished)
      ensures e.id in old(sessions) ==> s == old(sessions[e.id])
      ensures e.id !in old(sessions) ==> fresh(s)
      ensures forall a :: a in old(sessions) && a != e.id ==> unchanged(old(sessions[a]))
      ensures forall i :: 0 <= i < |old(finished)| ==> unchanged(old(finished[i]))
      ensures forall a :: a in sessions && a != e.id ==> !sessions[a].closed
      ensures forall i :: 0 <= i < |finished| ==> finished[i].closed
      ensures var before := old(if e.id in sessions then sessions[e.id].Extracted() else Initial);
        && s.rawData == old(if e.id in sessions then sessions[e.id].rawData else []) + [e.tag + " " + e.payload]
        && (ok <==> Handle(before, e.tag, e.payload).Some?)
        && (ok ==> s.Extracted() == Handle(before, e.tag, e.payload).value)
        && (!ok ==> s.Extracted() == before && !s.closed)
      ensures (s.Snap(), ok) == Updated(old(Abstract()), e)
      ensures Abstract() == Tables(old(Abstract()).live[e.id := s.Snap()], old(Abstract()).done)
    {
      ghost var a0 := Abstract();
      var session := Lookup(e.id);
      label Loaded:
      ok := Record(e.id, e.tag, e.payload);
      s := session;
      PutTwice(a0.live, e.id, old@Loaded(session.Snap()), s.Snap());
    }

    /** `session.add_data(tag, payload)` on the live session of `id`: only
        that session changes. */
    method Record(id: nat, tag: string, payload: string) returns (ok: bool)
      requires Distinct() && id in sessions
      modifies sessions[id]
      ensures var x := sessions[id];
        && x.rawData == old(x.rawData) + [tag + " " + payload]
        && (ok <==> Handle(old(x.Extracted()), tag, payload).Some?)
        && (ok ==> x.Extracted() == Handle(old(x.Extracted()), tag, payload).value)
        && (!ok ==> x.Extracted() == old(x.Extracted()))
      ensures Abstract() == Tables(old(Abstract()).live[id := sessions[id].Snap()], old(Abstract()).done)
    {
      ok := sessions[id].AddData(tag, payload);
      OneSessionChanged(id);
    }

    /** One iteration of `ARGF.each`: a line that does not tokenise raises
        `InvalidParseError` before any session is touched. */
    method ProcessLine(line: string) returns (ok: bool, ghost s: Session?)
      requires Valid() && LogLine.IsArgfLine(line)
      modifies this, sessions.Values
      ensures Valid()
      ensures LogLine.ParseLine(line).None? ==>
        !ok && unchanged(this) && unchanged(old(sessions.Values))
      ensures LogLine.ParseLine(line).Some? ==>
        var e := LogLine.ParseLine(line).value;
        && s != null
        && (e.id in old(sessions) ==> s == old(sessions[e.id]))
        && (e.id !in old(sessions) ==> fresh(s))
        && (s.Snap(), ok) == Updated(old(Abstract()), e)
        && (ok && s.closed ==> sessions == old(sessions) - {e.id} && finished == old(finished) + [s])
        && (!(ok && s.closed) ==> sessions == old(sessions)[e.id := s] && finished == old(finished))
        && (forall a :: a in old(sessions) && a != e.id ==> unchanged(old(sessions[a])))
      ensures forall i :: 0 <= i < |old(finished)| ==> unchanged(old(finished[i]))
      ensures forall a :: a in sessions ==> sessions[a] in old(sessions.Values) || fresh(sessions[a])
      ensures old(finished) <= finished
      ensures (Abstract(), ok) == Step(old(Abstract()), LogLine.ParseLine(line))
    {
      var parsed := LogLine.ParseLine(line);
      if parsed.None? {
        return false, null;
      }
      ok, s := Deliver(parsed.value);
    }

    /** One turn of the loop in `Run`: line `d`, after the first `d` lines
        have been taken. */
    method Feed(lines: seq<string>, ghost ps: seq<Option<LogLine.Entry>>, d: nat, ghost start: Tables)
      returns (processed: bool)
      requires Valid() && ParsedAs(lines, ps) && d < |lines|
      requires Steps(start, ps[..d]) == (Abstract(), d)
      modifies this, sessions.Values
      ensures Valid()
      ensures old(finished) <= finished
      ensures forall k :: k in sessions ==> sessions[k] in old(sessions.Values) || fresh(sessions[k])
      ensures processed ==> Steps(start, ps[..d + 1]) == (Abstract(), d + 1)
      ensures !processed ==> Steps(start, ps) == (Abstract(), d)
    {
      ghost var s;
      processed, s := ProcessLine(lines[d]);
      FoldSnoc(Step, start, ps, d);
    }

    /** `ARGF.each` over the given lines, whose entries are `ps`: stop at the
        first line that raises. `done` lines were processed; if not `ok`,
        the next one raised. */
    method Run(lines: seq<string>, ghost ps: seq<Option<LogLine.Entry>>) returns (ok: bool, done: nat)
      requires Valid() && ParsedAs(lines, ps)
      modifies this, sessions.Values
      ensures Valid()
      ensures ok <==> done == |lines|
      ensures done <= |lines|
      ensures old(finished) <= finished
      ensures (Abstract(), done) == Steps(old(Abstract()), ps)
    {
      ghost var start := Abstract();
      done := 0;
      assert ps[..0] == [];
      while done < |lines|
        invariant done <= |lines| && Valid()
        invariant old(finished) <= finished
        invariant forall k :: k in sessions ==> sessions[k] in old(sessions.Values) || fresh(sessions[k])
        invariant Steps(start, ps[..done]) == (Abstract(), done)
      {
        var processed := Feed(lines, ps, done, start);
        if !processed {
          return false, done;
        }
        done := done + 1;
      }
      assert ps[..done] == ps;
      ok := true;
    }
  }
}
