/** Any number of connections over the shim's operations, with descriptor numbers handed out again:
    the callers keep the discipline that Ffi/README.md documents and Shell/Transport/Tls.lean follows,
    and the finalizer may run at any time after a handle was dropped. Every interleaving is a run. */
module Ownership {
  import opened Bytes
  import opened Shim

  datatype Role = Client | Server

  datatype Stage = Fresh | Ready | Failed | Session

  /** What the caller knows of connection number `c`; its socket is also number `c`, since each
      connection opens one socket. `owes` is the caller's duty to close the descriptor, `handle` the
      SSL object not yet finalized, `held` whether the caller can still use it. */
  datatype Conn = Conn(role: Role, fd: Fd, stage: Stage, owes: bool, handle: Option<Handle>, held: bool) {
    predicate Open() {
      owes || (role.Client? && handle.Some?)
    }
  }

  datatype System = System(w: World, conns: seq<Conn>)

  const Start: System := System(World(map[], {}, multiset{}, map[], 0), [])

  datatype Event =
    | Opened(role: Role, fd: Fd)
    | Connects(c: nat, a: ConnectAnswers)
    | Handshakes(c: nat, t: TlsAnswers)
    | Reads(c: nat)
    | ShutsDown(c: nat, m: CloseAnswers)
    | Drops(c: nat)
    | Closes(c: nat)
    | Finalizes(c: nat)

  /** When a step may happen. The operating system never hands out a number that is open; the caller
      closes what it owes and has stopped using; the finalizer runs on what nobody holds. Nothing is
      assumed of the answers of the mode calls. */
  predicate Enabled(s: System, e: Event) {
    match e
    case Opened(role, fd) => fd !in s.w.table
    case Connects(c, a) =>
      && c < |s.conns| && s.conns[c].role.Client? && s.conns[c].stage == Fresh && s.conns[c].owes
    case Handshakes(c, t) =>
      && c < |s.conns| && s.conns[c].owes
      && s.conns[c].stage == (if s.conns[c].role.Client? then Ready else Fresh)
    case Reads(c) => c < |s.conns| && s.conns[c].handle.Some? && s.conns[c].held
    case ShutsDown(c, _) => c < |s.conns| && s.conns[c].handle.Some? && s.conns[c].held
    case Drops(c) => c < |s.conns| && s.conns[c].held
    case Closes(c) => c < |s.conns| && s.conns[c].owes && !s.conns[c].held
    case Finalizes(c) => c < |s.conns| && s.conns[c].handle.Some? && !s.conns[c].held
  }

  function WithConn(s: System, w: World, c: nat, k: Conn): System
    requires c < |s.conns|
  {
    System(w, s.conns[c := k])
  }

  /** The step: the shim's operation, and what the caller concludes from its result alone. After a
      handshake it owes the close unless it is a client and got an object. */
  function Step(s: System, e: Event): System
    requires Enabled(s, e) && Inv(s)
  {
    match e
    case Opened(role, fd) =>
      System(s.w.(table := s.w.table[fd := |s.conns|]),
             s.conns + [Conn(role, fd, Fresh, true, None, false)])
    case Connects(c, a) =>
      var (w, ok) := Connected(s.w, s.conns[c].fd, a);
      WithConn(s, w, c, s.conns[c].(stage := if ok then Ready else Failed))
    case Handshakes(c, t) =>
      var k := s.conns[c];
      var (w, h) := Handshaken(s.w, k.fd, k.role.Client?, t);
      WithConn(s, w, c,
               if h.None? then k.(stage := Failed)
               else k.(stage := Session, handle := h, held := true, owes := k.role.Server?))
    case Reads(c) => s
    case ShutsDown(c, m) =>
      assert HandleOk(s, c);
      WithConn(s, ShutDown(s.w, s.conns[c].handle.value, m), c, s.conns[c])
    case Drops(c) => WithConn(s, s.w, c, s.conns[c].(held := false))
    case Closes(c) => WithConn(s, Closed(s.w, s.conns[c].fd), c, s.conns[c].(owes := false))
    case Finalizes(c) =>
      assert HandleOk(s, c);
      WithConn(s, Freed(s.w, s.conns[c].handle.value), c, s.conns[c].(handle := None))
  }

  // ---------------------------------------------------------------- the invariant

  /** An open connection's number stands for its own socket. */
  predicate SocketOk(s: System, c: nat)
    requires c < |s.conns|
  {
    s.conns[c].Open() ==> s.conns[c].fd in s.w.table && s.w.table[s.conns[c].fd] == c
  }

  /** Every open number belongs to an open connection. */
  predicate EntryOk(s: System, fd: Fd)
    requires fd in s.w.table
  {
    var c := s.w.table[fd];
    c < |s.conns| && s.conns[c].Open() && s.conns[c].fd == fd
  }

  /** A handle is a live object over the connection's number that closes exactly for clients. */
  predicate HandleOk(s: System, c: nat)
    requires c < |s.conns|
  {
    var k := s.conns[c];
    && (k.handle.Some? ==>
          && k.handle.value in s.w.heap
          && s.w.heap[k.handle.value] == Ssl(Some(k.fd), k.role.Client?))
    && (k.held ==> k.handle.Some? && (k.role.Server? ==> k.owes))
    && (k.handle.Some? && k.role.Client? ==> !k.owes)
    && (k.handle.Some? ==> k.stage == Session)
  }

  /** Each socket has been closed exactly once if its connection is not open any more, else never. */
  predicate CountOk(s: System, c: nat)
    requires c < |s.conns|
  {
    s.w.closed[Some(c)] == if s.conns[c].Open() then 0 else 1
  }

  predicate HeapOk(s: System, h: Handle)
  {
    h < s.w.made && exists c | 0 <= c < |s.conns| :: s.conns[c].handle == Some(h)
  }

  predicate Inv(s: System) {
    && (forall c | 0 <= c < |s.conns| :: SocketOk(s, c) && HandleOk(s, c) && CountOk(s, c))
    && (forall fd | fd in s.w.table :: EntryOk(s, fd))
    && (forall h | h in s.w.heap :: HeapOk(s, h))
    && (forall b, c | 0 <= b < c < |s.conns| && s.conns[b].handle.Some? :: s.conns[b].handle != s.conns[c].handle)
    && (forall x | x in s.w.closed :: x.Some? && x.value < |s.conns|)
  }

  // ---------------------------------------------------------------- every step keeps it

  lemma {:induction false} OpenedKeeps(s: System, role: Role, fd: Fd)
    requires Inv(s) && Enabled(s, Opened(role, fd))
    ensures Inv(Step(s, Opened(role, fd)))
  {
    var t := Step(s, Opened(role, fd));
    forall c | 0 <= c < |t.conns| ensures SocketOk(t, c) && HandleOk(t, c) && CountOk(t, c) {
      if c < |s.conns| { assert SocketOk(s, c) && HandleOk(s, c) && CountOk(s, c); }
    }
    forall f | f in t.w.table ensures EntryOk(t, f) {
      if f != fd { assert EntryOk(s, f); }
    }
    forall h | h in t.w.heap ensures HeapOk(t, h) {
      assert HeapOk(s, h);
      var c :| 0 <= c < |s.conns| && s.conns[c].handle == Some(h);
      assert t.conns[c].handle == Some(h);
    }
  }

  /** A step that changes one connection's record, but not what it holds, keeps the invariant. */
  lemma {:induction false} SameHoldings(s: System, c: nat, k: Conn)
    requires Inv(s) && c < |s.conns|
    requires k.role == s.conns[c].role && k.fd == s.conns[c].fd && k.owes == s.conns[c].owes
    requires k.handle == s.conns[c].handle && (k.held ==> s.conns[c].held)
    requires k.handle.Some? ==> k.stage == Session
    ensures Inv(WithConn(s, s.w, c, k))
  {
    var t := WithConn(s, s.w, c, k);
    forall i | 0 <= i < |t.conns| ensures SocketOk(t, i) && HandleOk(t, i) && CountOk(t, i) {
      assert SocketOk(s, i) && HandleOk(s, i) && CountOk(s, i);
    }
    forall f | f in t.w.table ensures EntryOk(t, f) { assert EntryOk(s, f); }
    forall h | h in t.w.heap ensures HeapOk(t, h) {
      assert HeapOk(s, h);
      var i :| 0 <= i < |s.conns| && s.conns[i].handle == Some(h);
      assert t.conns[i].handle == Some(h);
    }
  }

  /** Ownership does not depend on the modes. */
  lemma {:induction false} ModesKeep(s: System, nonblocking: set<Sock>)
    requires Inv(s)
    ensures Inv(System(s.w.(nonblocking := nonblocking), s.conns))
  {
    var t := System(s.w.(nonblocking := nonblocking), s.conns);
    forall i | 0 <= i < |t.conns| ensures SocketOk(t, i) && HandleOk(t, i) && CountOk(t, i) {
      assert SocketOk(s, i) && HandleOk(s, i) && CountOk(s, i);
    }
    forall f | f in t.w.table ensures EntryOk(t, f) { assert EntryOk(s, f); }
    forall h | h in t.w.heap ensures HeapOk(t, h) { assert HeapOk(s, h); }
  }

  /** Two mode calls change only the mode, and only that of the number's own socket. */
  lemma {:induction false} ModeCalls(w: World, fd: Fd, set_: bool, clear: bool)
    ensures var t := SetMode(SetMode(w, fd, true, set_), fd, false, clear);
            && t == w.(nonblocking := t.nonblocking)
            && forall x :: x in t.nonblocking <==>
                 if SocketAt(w, fd) == Some(x) then (x in w.nonblocking || set_) && !clear else x in w.nonblocking
  {
  }

  /** A successful handshake adds one object and one handle; the socket has the same owner or, for a
      client, passes to the object. */
  lemma {:induction false} SessionKeeps(s: System, c: nat, t: TlsAnswers)
    requires Inv(s) && Enabled(s, Handshakes(c, t))
    requires Handshaken(s.w, s.conns[c].fd, s.conns[c].role.Client?, t).1.Some?
    ensures Inv(Step(s, Handshakes(c, t)))
  {
    var u := Step(s, Handshakes(c, t));
    var h := s.w.made;
    assert h !in s.w.heap by {
      assert h in s.w.heap ==> HeapOk(s, h);
    }
    assert HandleOk(s, c);
    forall i | 0 <= i < |u.conns| ensures SocketOk(u, i) && HandleOk(u, i) && CountOk(u, i) {
      SessionKeepsConn(s, c, t, i);
    }
    forall f | f in u.w.table ensures EntryOk(u, f) { assert EntryOk(s, f); }
    forall g | g in u.w.heap ensures HeapOk(u, g) {
      if g == h {
        assert u.conns[c].handle == Some(h);
      } else {
        assert HeapOk(s, g);
        var i :| 0 <= i < |s.conns| && s.conns[i].handle == Some(g);
        assert HandleOk(s, c);
        assert u.conns[i].handle == Some(g);
      }
    }
    forall a, b | 0 <= a < b < |u.conns| && u.conns[a].handle.Some? ensures u.conns[a].handle != u.conns[b].handle {
      assert HandleOk(s, a) && HandleOk(s, b);
    }
  }

  lemma {:induction false} SessionKeepsConn(s: System, c: nat, t: TlsAnswers, i: nat)
    requires Inv(s) && Enabled(s, Handshakes(c, t)) && i < |s.conns|
    requires Handshaken(s.w, s.conns[c].fd, s.conns[c].role.Client?, t).1.Some?
    ensures var u := Step(s, Handshakes(c, t));
            SocketOk(u, i) && HandleOk(u, i) && CountOk(u, i)
  {
    assert HandleOk(s, c) && SocketOk(s, c) && CountOk(s, c);
    assert SocketOk(s, i) && HandleOk(s, i) && CountOk(s, i);
    if s.conns[i].handle.Some? {
      assert s.conns[i].handle.value in s.w.heap && HeapOk(s, s.conns[i].handle.value);
    }
  }

  /** Closing an open connection's number hits its own socket, which was never closed before. */
  lemma {:induction false} CloseHitsOwn(s: System, c: nat)
    requires Inv(s) && c < |s.conns| && s.conns[c].Open()
    ensures SocketAt(s.w, s.conns[c].fd) == Some(c)
    ensures s.w.closed[Some(c)] == 0
  {
    assert SocketOk(s, c) && CountOk(s, c);
  }

  /** What a close leaves of connection `c`, and of the heap when it was the object that closed. */
  predicate CloseLeaves(s: System, w: World, c: nat, k: Conn) {
    && c < |s.conns| && s.conns[c].Open() && !s.conns[c].held
    && k == s.conns[c].(owes := false, handle := if s.conns[c].role.Client? then None else s.conns[c].handle)
    && w == Closed(s.w.(heap := w.heap), s.conns[c].fd)
    && w.heap == if s.conns[c].role.Client? && s.conns[c].handle.Some? then s.w.heap - {s.conns[c].handle.value} else s.w.heap
  }

  /** After the number is closed and its connection holds nothing, the others are as they were. */
  lemma {:induction false} ClosedKeeps(s: System, w: World, c: nat, k: Conn)
    requires Inv(s) && CloseLeaves(s, w, c, k)
    ensures Inv(WithConn(s, w, c, k))
  {
    hide SocketOk, HandleOk, CountOk;
    var t := WithConn(s, w, c, k);
    CloseHitsOwn(s, c);
    forall i | 0 <= i < |t.conns| ensures SocketOk(t, i) && HandleOk(t, i) && CountOk(t, i) {
      ClosedKeepsConn(s, w, c, k, i);
    }
    forall f | f in t.w.table ensures EntryOk(t, f) { assert EntryOk(s, f); }
    forall h | h in t.w.heap ensures HeapOk(t, h) {
      assert HeapOk(s, h);
      var i :| 0 <= i < |s.conns| && s.conns[i].handle == Some(h);
      assert t.conns[i].handle == Some(h);
    }
  }

  lemma {:induction false} ClosedKeepsConn(s: System, w: World, c: nat, k: Conn, i: nat)
    requires Inv(s) && CloseLeaves(s, w, c, k) && i < |s.conns|
    ensures SocketOk(WithConn(s, w, c, k), i) && HandleOk(WithConn(s, w, c, k), i) && CountOk(WithConn(s, w, c, k), i)
  {
    CloseHitsOwn(s, c);
    assert HandleOk(s, c);
    assert SocketOk(s, i) && HandleOk(s, i) && CountOk(s, i);
  }

  /** Freeing a server's object closes nothing, before or after its socket was closed. */
  lemma {:induction false} ServerFreeKeeps(s: System, c: nat)
    requires Inv(s) && Enabled(s, Finalizes(c)) && s.conns[c].role.Server?
    ensures Inv(Step(s, Finalizes(c)))
  {
    var t := Step(s, Finalizes(c));
    assert HandleOk(s, c);
    forall i | 0 <= i < |t.conns| ensures SocketOk(t, i) && HandleOk(t, i) && CountOk(t, i) {
      assert SocketOk(s, i) && HandleOk(s, i) && CountOk(s, i);
    }
    forall f | f in t.w.table ensures EntryOk(t, f) { assert EntryOk(s, f); }
    forall h | h in t.w.heap ensures HeapOk(t, h) {
      assert HeapOk(s, h);
      var i :| 0 <= i < |s.conns| && s.conns[i].handle == Some(h);
      assert t.conns[i].handle == Some(h);
    }
  }

  lemma {:induction false} StepKeeps(s: System, e: Event)
    requires Inv(s) && Enabled(s, e)
    ensures Inv(Step(s, e))
  {
    hide Inv, Freed, Closed, SetMode;
    match e
    case Opened(role, fd) => OpenedKeeps(s, role, fd);
    case Connects(c, a) => ConnectKeeps(s, c, a);
    case Handshakes(c, t) =>
      if Handshaken(s.w, s.conns[c].fd, s.conns[c].role.Client?, t).1.Some? {
        SessionKeeps(s, c, t);
      } else {
        FailureKeeps(s, c, t);
      }
    case Reads(c) =>
    case ShutsDown(c, m) => ShutDownKeeps(s, c, m);
    case Drops(c) => DropKeeps(s, c);
    case Closes(c) => CloseKeeps(s, c);
    case Finalizes(c) =>
      if s.conns[c].role.Server? { ServerFreeKeeps(s, c); } else { ClientFreeKeeps(s, c); }
  }

  lemma {:induction false} ConnectKeeps(s: System, c: nat, a: ConnectAnswers)
    requires Inv(s) && Enabled(s, Connects(c, a))
    ensures Inv(Step(s, Connects(c, a)))
  {
    var k := s.conns[c];
    assert HandleOk(s, c);
    k := k.(stage := if a.Connects() then Ready else Failed);
    SameHoldings(s, c, k);
    ModeCalls(s.w, k.fd, a.setOk, a.clearOk);
    ModesKeep(WithConn(s, s.w, c, k), Step(s, Connects(c, a)).w.nonblocking);
  }

  lemma {:induction false} FailureKeeps(s: System, c: nat, t: TlsAnswers)
    requires Inv(s) && Enabled(s, Handshakes(c, t))
    requires Handshaken(s.w, s.conns[c].fd, s.conns[c].role.Client?, t).1.None?
    ensures Inv(Step(s, Handshakes(c, t)))
  {
    assert HandleOk(s, c);
    var k := s.conns[c].(stage := Failed);
    SameHoldings(s, c, k);
    MadeGrows(WithConn(s, s.w, c, k));
  }

  lemma {:induction false} MadeGrows(s: System)
    requires Inv(s)
    ensures Inv(System(s.w.(made := s.w.made + 1), s.conns))
  {
    var t := System(s.w.(made := s.w.made + 1), s.conns);
    forall i | 0 <= i < |t.conns| ensures SocketOk(t, i) && HandleOk(t, i) && CountOk(t, i) {
      assert SocketOk(s, i) && HandleOk(s, i) && CountOk(s, i);
    }
    forall f | f in t.w.table ensures EntryOk(t, f) { assert EntryOk(s, f); }
    forall h | h in t.w.heap ensures HeapOk(t, h) { assert HeapOk(s, h); }
  }

  lemma {:induction false} ShutDownKeeps(s: System, c: nat, m: CloseAnswers)
    requires Inv(s) && Enabled(s, ShutsDown(c, m))
    ensures Inv(Step(s, ShutsDown(c, m)))
  {
    assert HandleOk(s, c);
    ModeCalls(s.w, s.conns[c].fd, m.setRead || m.setWrite, m.clearRead || m.clearWrite);
    ModesKeep(s, Step(s, ShutsDown(c, m)).w.nonblocking);
    assert s.conns[c := s.conns[c]] == s.conns;
  }

  lemma {:induction false} DropKeeps(s: System, c: nat)
    requires Inv(s) && Enabled(s, Drops(c))
    ensures Inv(Step(s, Drops(c)))
  {
    assert HandleOk(s, c);
    SameHoldings(s, c, s.conns[c].(held := false));
  }

  lemma {:induction false} CloseKeeps(s: System, c: nat)
    requires Inv(s) && Enabled(s, Closes(c))
    ensures Inv(Step(s, Closes(c)))
  {
    assert HandleOk(s, c);
    var k := s.conns[c].(owes := false);
    assert s.w.(heap := s.w.heap) == s.w;
    ClosedKeeps(s, Closed(s.w, s.conns[c].fd), c, k);
  }

  lemma {:induction false} ClientFreeKeeps(s: System, c: nat)
    requires Inv(s) && Enabled(s, Finalizes(c)) && s.conns[c].role.Client?
    ensures Inv(Step(s, Finalizes(c)))
  {
    assert HandleOk(s, c);
    var k := s.conns[c].(handle := None);
    ClosedKeeps(s, Freed(s.w, s.conns[c].handle.value), c, k);
  }

  // ---------------------------------------------------------------- whole runs

  /** The system after a run, or nothing when some step of it could not happen. */
  ghost function Run(events: seq<Event>): (s: Option<System>)
    ensures s.Some? ==> Inv(s.value)
  {
    if events == [] then
      Some(Start)
    else
      var before := Run(events[..|events| - 1]);
      var e := events[|events| - 1];
      if before.None? || !Enabled(before.value, e) then None
      else
        StepKeeps(before.value, e);
        Some(Step(before.value, e))
  }

  /** MAIN RESULT, safety. In every run, every close hit a socket and no socket was closed twice: no
      number was closed after it had been closed or handed out again. */
  lemma {:induction false} NoSocketIsClosedTwice(events: seq<Event>, s: System)
    requires Run(events) == Some(s)
    ensures None !in s.w.closed
    ensures forall x | x in s.w.closed :: s.w.closed[x] == 1
  {
    forall x | x in s.w.closed ensures x.Some? && s.w.closed[x] == 1 {
      assert CountOk(s, x.value);
    }
  }

  /** MAIN RESULT, no leak. When every caller has closed what it owed and every object has been
      finalized, each socket ever opened has been closed exactly once and nothing is left. */
  lemma {:induction false} EverySocketIsClosedOnce(events: seq<Event>, s: System)
    requires Run(events) == Some(s)
    requires forall c | 0 <= c < |s.conns| :: !s.conns[c].owes && s.conns[c].handle.None?
    ensures forall c | 0 <= c < |s.conns| :: s.w.closed[Some(c)] == 1
    ensures s.w.table == map[] && s.w.heap == map[]
  {
    forall c | 0 <= c < |s.conns| ensures s.w.closed[Some(c)] == 1 {
      assert CountOk(s, c);
    }
    assert forall fd | fd in s.w.table :: EntryOk(s, fd);
    assert forall h | h in s.w.heap :: HeapOk(s, h);
    assert s.w.table.Keys == {} && s.w.heap.Keys == {};
  }

  /** The close that each step performs is the close of the step's own connection; a server's object
      closes nothing. */
  lemma {:induction false} StepsCloseTheirOwn(events: seq<Event>, s: System, e: Event)
    requires Run(events) == Some(s) && Enabled(s, e)
    ensures Step(s, e).w.closed
         == s.w.closed + (match e
                          case Closes(c) => multiset{Some(c)}
                          case Finalizes(c) => if s.conns[c].role.Client? then multiset{Some(c)} else multiset{}
                          case _ => multiset{})
  {
    match e
    case Closes(c) => CloseHitsOwn(s, c);
    case Finalizes(c) =>
      assert HandleOk(s, c);
      if s.conns[c].role.Client? { CloseHitsOwn(s, c); }
    case _ =>
  }

  // ---------------------------------------------------------------- sessions

  /** A TLS handshake of connection `c` went through, and a client's peer name was pinned before it. */
  predicate Shook(e: Event, c: nat, role: Role) {
    && e.Handshakes? && e.c == c
    && e.t.newOk && e.t.fdSet && e.t.shaken && (role.Client? ==> e.t.nameSet)
  }

  /** The connect of connection `c` completed: writable in time, and no pending error. */
  predicate Arrived(e: Event, c: nat) {
    && e.Connects? && e.c == c
    && e.a.started && e.a.poll > 0 && e.a.soError == Some(0)
  }

  predicate HasShaken(events: seq<Event>, c: nat, role: Role) {
    exists i | 0 <= i < |events| :: Shook(events[i], c, role)
  }

  predicate HasArrived(events: seq<Event>, c: nat) {
    exists i | 0 <= i < |events| :: Arrived(events[i], c)
  }

  lemma {:induction false} StagesAreEarned(events: seq<Event>, s: System, c: nat)
    requires Run(events) == Some(s) && c < |s.conns|
    ensures s.conns[c].stage == Session ==> HasShaken(events, c, s.conns[c].role)
    ensures s.conns[c].role.Client? && (s.conns[c].stage == Ready || s.conns[c].stage == Session) ==> HasArrived(events, c)
    decreases events
  {
    hide Inv, HasShaken, HasArrived, SetMode, Freed, Closed, ShutDown;
    if events != [] {
      var front, e := events[..|events| - 1], events[|events| - 1];
      var before := Run(front).value;
      assert front + [e] == events;
      Earlier(front, e, c);
      if c < |before.conns| {
        StagesAreEarned(front, before, c);
      }
    }
  }

  lemma {:induction false} Earlier(events: seq<Event>, e: Event, c: nat)
    ensures forall role :: HasShaken(events + [e], c, role) <==> HasShaken(events, c, role) || Shook(e, c, role)
    ensures HasArrived(events + [e], c) <==> HasArrived(events, c) || Arrived(e, c)
  {
    var all := events + [e];
    assert all[|events|] == e && forall j | 0 <= j < |events| :: all[j] == events[j];
  }

  /** MAIN RESULT, sessions. In every run, a connection that can be read from has been through a
      handshake that succeeded; a client has pinned its peer's name for it, and its connect completed. */
  lemma {:induction false} ReadsNeedAHandshake(events: seq<Event>, s: System, c: nat)
    requires Run(events) == Some(s) && Enabled(s, Reads(c))
    ensures exists i | 0 <= i < |events| :: Shook(events[i], c, s.conns[c].role)
    ensures s.conns[c].role.Client? ==> exists i | 0 <= i < |events| :: Arrived(events[i], c)
  {
    assert HandleOk(s, c);
    StagesAreEarned(events, s, c);
  }

  // ---------------------------------------------------------------- the blocking mode

  predicate Sets(e: Event, c: nat) {
    (e.Connects? && e.c == c && e.a.setOk) || (e.ShutsDown? && e.c == c && (e.m.setRead || e.m.setWrite))
  }

  predicate Clears(e: Event, c: nat) {
    (e.Connects? && e.c == c && e.a.clearOk) || (e.ShutsDown? && e.c == c && (e.m.clearRead || e.m.clearWrite))
  }

  /** A step of connection `c` set the mode and neither it nor a later one cleared it. */
  predicate LeftNonblocking(events: seq<Event>, c: nat) {
    exists i | 0 <= i < |events| :: Sets(events[i], c) && NotCleared(events, i, c)
  }

  predicate NotCleared(events: seq<Event>, i: nat, c: nat) {
    forall j | i <= j < |events| :: !Clears(events[j], c)
  }

  /** Each step changes the modes of its own connection's socket only. */
  lemma {:induction false} StepMode(s: System, e: Event, c: nat)
    requires Inv(s) && Enabled(s, e)
    ensures c in Step(s, e).w.nonblocking <==> (c in s.w.nonblocking || Sets(e, c)) && !Clears(e, c)
  {
    match e
    case Connects(d, a) =>
      assert SocketOk(s, d);
      ModeCalls(s.w, s.conns[d].fd, a.setOk, a.clearOk);
    case ShutsDown(d, m) =>
      assert SocketOk(s, d) && HandleOk(s, d);
      ModeCalls(s.w, s.conns[d].fd, m.setRead || m.setWrite, m.clearRead || m.clearWrite);
    case _ =>
  }

  lemma {:induction false} LeftNonblockingNext(events: seq<Event>, e: Event, c: nat)
    ensures LeftNonblocking(events + [e], c) <==> (LeftNonblocking(events, c) || Sets(e, c)) && !Clears(e, c)
  {
    var all, n := events + [e], |events|;
    assert all[n] == e && forall j | 0 <= j < n :: all[j] == events[j];
    if LeftNonblocking(all, c) {
      var i :| 0 <= i < |all| && Sets(all[i], c) && NotCleared(all, i, c);
      if i < n {
        assert Sets(events[i], c) && NotCleared(events, i, c);
      }
    }
    if (LeftNonblocking(events, c) || Sets(e, c)) && !Clears(e, c) {
      var i :| 0 <= i < |all| && Sets(all[i], c) && (i == n || NotCleared(events, i, c));
      assert NotCleared(all, i, c);
    }
  }

  lemma {:induction false} NothingLeft(c: nat)
    ensures !LeftNonblocking([], c)
  {
  }

  lemma {:induction false} NonblockingExactly(events: seq<Event>, s: System, c: nat)
    requires Run(events) == Some(s)
    ensures c in s.w.nonblocking <==> LeftNonblocking(events, c)
    decreases events
  {
    hide Enabled, Inv, LeftNonblocking, Sets, Clears;
    if events == [] {
      NothingLeft(c);
    } else {
      var front, e := events[..|events| - 1], events[|events| - 1];
      var before := Run(front).value;
      NonblockingExactly(front, before, c);
      StepMode(before, e, c);
      LeftNonblockingNext(front, e, c);
      assert front + [e] == events;
    }
  }

  /** MAIN RESULT, use. Whenever a run reaches a read (or a shutdown, which needs the same), the object's number stands for the
      connection's own socket; and that socket is nonblocking exactly when the connect or an earlier
      shutdown of this connection set the mode, and neither that call nor a later one cleared it. */
  lemma {:induction false} UsesTheirOwnSocket(events: seq<Event>, s: System, c: nat)
    requires Run(events) == Some(s)
    requires Enabled(s, Reads(c))
    ensures s.conns[c].handle.value in s.w.heap
    ensures var bio := s.w.heap[s.conns[c].handle.value].bio;
            bio.Some? && SocketAt(s.w, bio.value) == Some(c)
    ensures c in s.w.nonblocking <==> LeftNonblocking(events, c)
  {
    assert HandleOk(s, c) && SocketOk(s, c);
    NonblockingExactly(events, s, c);
  }

  /** What `dsh_tls_read` says of its socket holds in every run where each call that sets the mode also
      clears it. */
  lemma {:induction false} ReadsBlock(events: seq<Event>, s: System, c: nat)
    requires Run(events) == Some(s)
    requires forall i | 0 <= i < |events| && Sets(events[i], c) :: Clears(events[i], c)
    ensures c !in s.w.nonblocking
  {
    NonblockingExactly(events, s, c);
  }

  /** And it can fail: the connect sets the mode and cannot clear it, which the code ignores; the good
      handshake that follows leaves the caller with an object to read from and a nonblocking socket. */
  lemma {:induction false} ReadCanMeetNonblocking(fd: Fd)
    ensures var run := [Opened(Client, fd), StuckConnect, GoodHandshake];
            Run(run).Some? && Enabled(Run(run).value, Reads(0)) && 0 in Run(run).value.w.nonblocking
  {
    hide Inv, NotCleared;
    var first: seq<Event> := [Opened(Client, fd)];
    RunNext([], Opened(Client, fd));
    assert [] + first == first;
    RunNext(first, StuckConnect);
    RunNext(first + [StuckConnect], GoodHandshake);
    var run := [Opened(Client, fd), StuckConnect, GoodHandshake];
    assert first + [StuckConnect] + [GoodHandshake] == run;
    var s := Run(run).value;
    NeverCleared(fd);
    assert Sets(run[1], 0);
    NonblockingExactly(run, s, 0);
  }

  lemma {:induction false} NeverCleared(fd: Fd)
    ensures NotCleared([Opened(Client, fd), StuckConnect, GoodHandshake], 1, 0)
  {
  }

  const StuckConnect: Event := Connects(0, ConnectAnswers(true, true, 1, Some(0), false))
  const GoodHandshake: Event := Handshakes(0, TlsAnswers(true, true, true, true))

  lemma {:induction false} RunNext(events: seq<Event>, e: Event)
    requires Run(events).Some? && Enabled(Run(events).value, e)
    ensures Run(events + [e]) == Some(Step(Run(events).value, e))
  {
    assert (events + [e])[..|events|] == events;
  }

  /** The discipline is needed. A caller that also closed the descriptor after a successful client
      handshake would have the finalizer close a number that may stand for another socket by then. */
  lemma {:induction false} DoubleOwnerHitsAnother(w: World, fd: Fd, own: Sock, other: Sock, t: TlsAnswers)
    requires w.table == map[fd := own] && own != other && w.heap == map[]
    requires Handshaken(w, fd, true, t).1.Some?
    ensures var (w1, h) := Handshaken(w, fd, true, t);
            var w2 := Closed(w1, fd);
            var w3 := w2.(table := w2.table[fd := other]);
            Freed(w3, h.value).closed == w.closed + multiset{Some(own)} + multiset{Some(other)}
  {
  }
}
