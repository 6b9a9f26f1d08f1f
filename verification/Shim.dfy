/** The descriptor side of the C shims: `dsh_connect_loopback`, `dsh_connect_ipv4` and `dsh_close_fd`
    (Ffi/socket_shim.c), and the life of an SSL object in `dsh_tls_connect`, `dsh_tls_accept`,
    `dsh_tls_close` and `ssl_finalizer` (Ffi/tls_shim.c).

    A descriptor is a number the operating system hands out again after a close; a socket is what a
    number stood for, and is never handed out twice. What the system and OpenSSL answer is a value
    given to each operation. */
module Shim {
  import opened Bytes

  type Fd = nat
  type Sock = nat
  type Handle = nat

  /** An SSL object: the descriptor its BIO wraps, once set, and whether freeing it closes that. */
  datatype Ssl = Ssl(bio: Option<Fd>, closes: bool)

  /** `closed` counts what each `close` hit: a socket, or nothing when the number was not open. */
  datatype World = World(
    table: map<Fd, Sock>, nonblocking: set<Sock>, closed: multiset<Option<Sock>>,
    heap: map<Handle, Ssl>, made: nat)

  // ---------------------------------------------------------------- what the operations do

  function SocketAt(w: World, fd: Fd): Option<Sock> {
    if fd in w.table then Some(w.table[fd]) else None
  }

  function Closed(w: World, fd: Fd): World {
    w.(table := w.table - {fd}, closed := w.closed + multiset{SocketAt(w, fd)})
  }

  /** `fcntl` or `ioctlsocket`: the mode belongs to the socket; a failing call changes nothing. */
  function SetMode(w: World, fd: Fd, nonblocking: bool, ok: bool): World {
    if !ok || fd !in w.table then w
    else if nonblocking then w.(nonblocking := w.nonblocking + {w.table[fd]})
    else w.(nonblocking := w.nonblocking - {w.table[fd]})
  }

  /** The answers to one connect: mode set, `connect` done or in progress, the poll, SO_ERROR
      (nothing when `getsockopt` fails), mode cleared. */
  datatype ConnectAnswers = ConnectAnswers(setOk: bool, started: bool, poll: int, soError: Option<int>, clearOk: bool) {
    predicate Connects() {
      started && poll > 0 && soError == Some(0)
    }
  }

  /** Both connect functions: the outcome is the answers' alone, and the mode is put back last. */
  function Connected(w: World, fd: Fd, a: ConnectAnswers): (World, bool) {
    (SetMode(SetMode(w, fd, true, a.setOk), fd, false, a.clearOk), a.Connects())
  }

  /** The answers of a handshake: allocation, descriptor, expected peer name (client), handshake. */
  datatype TlsAnswers = TlsAnswers(newOk: bool, fdSet: bool, nameSet: bool, shaken: bool)

  /** A handshake that succeeds leaves a live SSL object, which closes the socket only for a client;
      one that fails leaves the descriptor and the heap as they were. */
  function Handshaken(w: World, fd: Fd, client: bool, a: TlsAnswers): (World, Option<Handle>) {
    if !a.newOk then (w, None)
    else if a.fdSet && (client ==> a.nameSet) && a.shaken then
      (w.(heap := w.heap[w.made := Ssl(Some(fd), client)], made := w.made + 1), Some(w.made))
    else (w.(made := w.made + 1), None)
  }

  /** `SSL_free`. */
  function Freed(w: World, h: Handle): World
    requires h in w.heap
  {
    var s := w.heap[h];
    var w' := w.(heap := w.heap - {h});
    if s.closes && s.bio.Some? then Closed(w', s.bio.value) else w'
  }

  /** The answers of a shutdown: whether each mode call on the reading and the writing BIO worked. */
  datatype CloseAnswers = CloseAnswers(setRead: bool, setWrite: bool, clearRead: bool, clearWrite: bool)

  /** `dsh_tls_close`: both BIOs are one socket BIO, so one call of a pair that works is enough. */
  function ShutDown(w: World, h: Handle, a: CloseAnswers): World
    requires h in w.heap
  {
    var bio := w.heap[h].bio;
    if bio.None? then w
    else SetMode(SetMode(w, bio.value, true, a.setRead || a.setWrite), bio.value, false, a.clearRead || a.clearWrite)
  }

  // ---------------------------------------------------------------- the code

  class Shim {
    var w: World

    constructor ()
      ensures w == World(map[], {}, multiset{}, map[], 0)
    {
      w := World(map[], {}, multiset{}, map[], 0);
    }

    method CloseFd(fd: Fd)
      modifies this
      ensures w == Closed(old(w), fd)
    {
      w := w.(table := w.table - {fd}, closed := w.closed + multiset{SocketAt(w, fd)});
    }

    method SetNonblock(fd: Fd, ok: bool)
      modifies this
      ensures w == SetMode(old(w), fd, true, ok)
    {
      w := SetMode(w, fd, true, ok);
    }

    method ClearNonblock(fd: Fd, ok: bool)
      modifies this
      ensures w == SetMode(old(w), fd, false, ok)
    {
      w := SetMode(w, fd, false, ok);
    }

    /** `dsh_connect_loopback`: every failure goes through the one exit that clears the mode. */
    method ConnectLoopback(fd: Fd, a: ConnectAnswers) returns (connected: bool)
      modifies this
      ensures (w, connected) == Connected(old(w), fd, a)
      ensures connected <==> a.started && a.poll > 0 && a.soError == Some(0)
    {
      SetNonblock(fd, a.setOk);
      connected := false;
      label fail: {
        if !a.started { break fail; }
        if a.poll <= 0 { break fail; }
        if a.soError.None? || a.soError.value != 0 { break fail; }
        connected := true;
      }
      ClearNonblock(fd, a.clearOk);
    }

    /** `dsh_connect_ipv4`: a malformed address is refused before the mode is touched; the rest is the
        same sequence of calls. */
    method ConnectIpv4(fd: Fd, addressOk: bool, a: ConnectAnswers) returns (connected: bool)
      modifies this
      ensures (w, connected) == if addressOk then Connected(old(w), fd, a) else (old(w), false)
      ensures connected <==> addressOk && a.started && a.poll > 0 && a.soError == Some(0)
    {
      if !addressOk {
        return false;
      }
      connected := ConnectLoopback(fd, a);
    }

    method SslNew(ok: bool) returns (s: Option<Handle>)
      modifies this
      ensures !ok ==> s == None && w == old(w)
      ensures ok ==> s == Some(old(w).made)
      ensures ok ==> w == old(w).(heap := old(w).heap[old(w).made := Ssl(None, false)], made := old(w).made + 1)
    {
      if !ok {
        return None;
      }
      s := Some(w.made);
      w := w.(heap := w.heap[w.made := Ssl(None, false)], made := w.made + 1);
    }

    method SslSetFd(s: Handle, fd: Fd, ok: bool)
      requires s in w.heap
      modifies this
      ensures w == if ok then old(w).(heap := old(w).heap[s := Ssl(Some(fd), false)]) else old(w)
    {
      if ok {
        w := w.(heap := w.heap[s := Ssl(Some(fd), false)]);
      }
    }

    method SslFree(s: Handle)
      requires s in w.heap
      modifies this
      ensures w == Freed(old(w), s)
    {
      var ssl := w.heap[s];
      w := w.(heap := w.heap - {s});
      if ssl.closes && ssl.bio.Some? {
        CloseFd(ssl.bio.value);
      }
    }

    /** `dsh_tls_accept`: no exit gives the socket away. */
    method TlsAccept(fd: Fd, a: TlsAnswers) returns (r: Option<Handle>)
      requires w.made !in w.heap
      modifies this
      ensures (w, r) == Handshaken(old(w), fd, false, a)
      ensures r.Some? <==> a.newOk && a.fdSet && a.shaken
      ensures w.table == old(w).table && w.closed == old(w).closed && w.nonblocking == old(w).nonblocking
      ensures w.heap == if r.Some? then old(w).heap[r.value := Ssl(Some(fd), false)] else old(w).heap
    {
      var s := SslNew(a.newOk);
      if s.None? {
        return None;
      }
      SslSetFd(s.value, fd, a.fdSet);
      if !a.fdSet || !a.shaken {
        Discarded(old(w), if a.fdSet then Some(fd) else None);
        SslFree(s.value);
        return None;
      }
      Overwritten(old(w).heap, s.value, Ssl(None, false), Ssl(Some(fd), false));
      return s;
    }

    /** `dsh_tls_connect`: only the last step makes the SSL object the owner of the socket. */
    method TlsConnect(fd: Fd, a: TlsAnswers) returns (r: Option<Handle>)
      requires w.made !in w.heap
      modifies this
      ensures (w, r) == Handshaken(old(w), fd, true, a)
      ensures r.Some? <==> a.newOk && a.fdSet && a.nameSet && a.shaken
      ensures w.table == old(w).table && w.closed == old(w).closed && w.nonblocking == old(w).nonblocking
      ensures w.heap == if r.Some? then old(w).heap[r.value := Ssl(Some(fd), true)] else old(w).heap
    {
      var s := SslNew(a.newOk);
      if s.None? {
        return None;
      }
      SslSetFd(s.value, fd, a.fdSet);
      if !a.fdSet || !a.nameSet || !a.shaken {
        Discarded(old(w), if a.fdSet then Some(fd) else None);
        SslFree(s.value);
        return None;
      }
      Overwritten(old(w).heap, s.value, Ssl(None, false), Ssl(Some(fd), false));
      Overwritten(old(w).heap, s.value, Ssl(Some(fd), false), Ssl(Some(fd), true));
      w := w.(heap := w.heap[s.value := w.heap[s.value].(closes := true)]);
      return s;
    }

    /** `ssl_finalizer`: a failure sentinel has no object to free. */
    method Finalize(s: Option<Handle>)
      requires s.Some? ==> s.value in w.heap
      modifies this
      ensures w == if s.Some? then Freed(old(w), s.value) else old(w)
    {
      if s.None? {
        return;
      }
      SslFree(s.value);
    }

    /** `dsh_tls_close`: set the mode on both BIOs, send close_notify, restore both. */
    method TlsClose(s: Handle, a: CloseAnswers)
      requires s in w.heap
      modifies this
      ensures w == ShutDown(old(w), s, a)
    {
      var bio := w.heap[s].bio;
      if bio.Some? {
        SetNonblock(bio.value, a.setRead);
        SetNonblock(bio.value, a.setWrite);
        ClearNonblock(bio.value, a.clearRead);
        ClearNonblock(bio.value, a.clearWrite);
      }
    }
  }

  lemma {:induction false} Overwritten(heap: map<Handle, Ssl>, h: Handle, a: Ssl, b: Ssl)
    ensures heap[h := a][h := b] == heap[h := b]
  {
  }

  lemma {:induction false} Discarded(w: World, bio: Option<Fd>)
    requires w.made !in w.heap
    ensures w.heap[w.made := Ssl(bio, false)] - {w.made} == w.heap
    ensures w.heap[w.made := Ssl(None, false)][w.made := Ssl(bio, false)] - {w.made} == w.heap
  {
  }

  // ---------------------------------------------------------------- the blocking mode

  /** Exactly when a connect leaves its socket nonblocking: the code ignores whether the mode could be
      cleared, so it is when that failed and the socket was nonblocking or had been made so. */
  lemma {:induction false} ConnectMode(w: World, fd: Fd, a: ConnectAnswers)
    requires fd in w.table
    ensures w.table[fd] in Connected(w, fd, a).0.nonblocking
       <==> !a.clearOk && (a.setOk || w.table[fd] in w.nonblocking)
    ensures Connected(w, fd, a).0.nonblocking - {w.table[fd]} == w.nonblocking - {w.table[fd]}
  {
  }
}
