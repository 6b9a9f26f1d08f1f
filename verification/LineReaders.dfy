/** Two readers of one JSON line, however its bytes arrive: one byte at a time
    (tools/check-client-framing.py) and a bounded `readline` with a guard
    (tools/check-async-server-resources.py). */
module LineReaders {
  import opened Bytes

  const LIMIT: nat := 65535

  // ---------------------------------------------------------------- what a packet is

  /** How much of the stream one read takes, accepted or not: a line, or `LIMIT + 2` bytes. */
  function Taken(s: seq<byte>): (n: nat)
    ensures n <= |s|
  {
    Min(LineLength(s), LIMIT + 2)
  }

  /** The packet at the front of a stream: a whole line of at most `LIMIT` bytes and its LF. */
  function Packet(s: seq<byte>): Option<seq<byte>> {
    var n := Taken(s);
    if n > 0 && n <= LIMIT + 1 && s[n - 1] == LF then Some(s[..n]) else None
  }

  /** A stream has a packet exactly when its first line feed is no later than byte `LIMIT`; the
      packet then is everything through that line feed. */
  lemma {:induction false} PacketByFirstLineFeed(s: seq<byte>, i: nat)
    requires i < |s| && s[i] == LF && LF !in s[..i]
    ensures Packet(s) == if i <= 65535 then Some(s[..i + 1]) else None
    ensures Taken(s) == if i <= 65536 then i + 1 else 65537
  {
    assert s == s[..i] + [LF] + s[i + 1..];
    LineLengthOf(s[..i], s[i + 1..]);
  }

  lemma {:induction false} PacketExactly(s: seq<byte>)
    ensures Packet(s).Some? <==> LF in s[..Min(|s|, 65536)]
    ensures LF !in s ==> Taken(s) == Min(|s|, 65537)
  {
    if LF in s {
      var n := LineLength(s);
      LineFeedEnds(s);
      assert n > LIMIT + 1 ==> s[..LIMIT + 1] == s[..n - 1][..LIMIT + 1];
      assert n <= LIMIT + 1 ==> s[..Min(|s|, LIMIT + 1)][n - 1] == LF;
    } else {
      NoLineFeed(s);
    }
  }

  // ---------------------------------------------------------------- arrival

  function Flat(chunks: seq<seq<byte>>): seq<byte> {
    if chunks == [] then [] else chunks[0] + Flat(chunks[1..])
  }

  predicate Arrivals(chunks: seq<seq<byte>>) {
    forall i | 0 <= i < |chunks| :: chunks[i] != []
  }

  lemma {:induction false} FlatIsEmpty(chunks: seq<seq<byte>>)
    requires Arrivals(chunks)
    ensures Flat(chunks) == [] <==> chunks == []
  {
    if chunks != [] {
      assert chunks[0] != [];
    }
  }

  /** A connection whose peer's bytes arrive in the pieces `pending`, then end. */
  class Socket {
    var pending: seq<seq<byte>>
    var sent: seq<byte>

    predicate Valid()
      reads this
    {
      Arrivals(pending)
    }

    function Stream(): seq<byte>
      reads this
    {
      Flat(pending)
    }

    constructor (chunks: seq<seq<byte>>)
      requires Arrivals(chunks)
      ensures Valid() && Stream() == Flat(chunks) && sent == []
    {
      pending, sent := chunks, [];
    }

    /** At most `n` bytes of the next piece; nothing only at the end. */
    method Recv(n: nat) returns (part: seq<byte>)
      requires Valid() && n > 0
      modifies this`pending
      ensures Valid() && old(Stream()) == part + Stream()
      ensures |part| <= n && (part == [] <==> old(Stream()) == [])
    {
      FlatIsEmpty(pending);
      if pending == [] {
        return [];
      }
      var first, rest := pending[0], pending[1..];
      if |first| <= n {
        part, pending := first, rest;
      } else {
        part, pending := first[..n], [first[n..]] + rest;
        assert pending[1..] == rest;
        Associate(first[..n], first[n..], Flat(rest));
        assert first[..n] + first[n..] == first;
      }
    }

    method SendAll(bytes: seq<byte>)
      modifies this`sent
      ensures sent == old(sent) + bytes
    {
      sent := sent + bytes;
    }

    // ---------------------------------------------------------------- byte by byte

    /** The packet loop of `serve`; a failed assertion is `None`. */
    method ReadPacket() returns (r: Option<seq<byte>>)
      requires Valid()
      modifies this`pending
      ensures Valid() && r == Packet(old(Stream()))
      ensures Stream() == old(Stream())[Taken(old(Stream()))..]
    {
      hide Flat, Arrivals, Packet, Taken, LineLength;
      ghost var s := Stream();
      var packet: seq<byte> := [];
      ghost var text: seq<byte> := [];
      while (packet == [] || packet[|packet| - 1] != LF) && |packet| <= LIMIT + 1
        invariant Valid() && packet + Stream() == s
        invariant |packet| <= LIMIT + 2 && LF !in text
        invariant packet == text || packet == text + [LF]
        decreases LIMIT + 2 - |packet|
      {
        var part := Recv(1);
        if part == [] {
          NothingMore(packet);
          return None;
        }
        Associate(packet, part, Stream());
        assert packet == text;
        if part[0] != LF {
          text := text + part;
        }
        packet := packet + part;
      }
      PacketOf(text, packet, Stream());
      if packet[|packet| - 1] == LF && |packet| <= LIMIT + 1 {
        return Some(packet);
      }
      return None;
    }
  }

  lemma {:induction false} NothingMore(text: seq<byte>)
    requires LF !in text && |text| <= LIMIT + 1
    ensures forall s | s == text + [] :: Packet(s) == None && s[Taken(s)..] == []
  {
    NoLineFeed(text);
    assert text + [] == text;
  }

  /** What the loop holds when it stops: a line, or as many bytes as it takes without one. */
  lemma {:induction false} PacketOf(text: seq<byte>, packet: seq<byte>, rest: seq<byte>)
    requires LF !in text && |packet| <= LIMIT + 2
    requires packet == text + [LF] || (packet == text && |text| == LIMIT + 2)
    ensures (packet + rest)[Taken(packet + rest)..] == rest
    ensures Packet(packet + rest)
         == if packet[|packet| - 1] == LF && |packet| <= LIMIT + 1 then Some(packet) else None
  {
    hide LineLength;
    if packet == text + [LF] {
      LineLengthOf(text, rest);
    } else {
      LineAtLeast(text, rest);
    }
    assert (packet + rest)[..|packet|] == packet && (packet + rest)[|packet|..] == rest;
  }

  lemma {:induction false} NoLineFeed(s: seq<byte>)
    requires LF !in s
    ensures LineLength(s) == |s|
  {
    if s != [] {
      NoLineFeed(s[1..]);
    }
  }

  lemma {:induction false} LineAtLeast(front: seq<byte>, rest: seq<byte>)
    requires LF !in front
    ensures LineLength(front + rest) >= |front|
  {
    if front != [] {
      LineAtLeast(front[1..], rest);
      assert (front + rest)[1..] == front[1..] + rest;
    }
  }

  lemma {:induction false} LineFeedEnds(s: seq<byte>)
    requires LF in s
    ensures LineLength(s) > 0 && s[LineLength(s) - 1] == LF
  {
    if s[0] != LF {
      LineFeedEnds(s[1..]);
    }
  }

  // ---------------------------------------------------------------- buffered

  /** A client with a buffered stream over its socket. */
  class Client {
    const sock: Socket
    var buffered: seq<byte>

    predicate Valid()
      reads this, sock
    {
      sock.Valid()
    }

    /** The bytes not yet given to the caller. */
    function Unread(): seq<byte>
      reads this, sock
    {
      buffered + sock.Stream()
    }

    constructor (s: Socket)
      requires s.Valid()
      ensures sock == s && Valid() && Unread() == s.Stream()
    {
      sock, buffered := s, [];
      new;
      assert [] + sock.Stream() == sock.Stream();
    }

    /** `readline(limit)`: the buffer grows by what arrives, in pieces of any size, until it holds a
        line feed or `limit` bytes, or the stream ends. */
    method ReadLine(limit: nat) returns (line: seq<byte>)
      requires Valid() && limit > 0
      modifies this`buffered, sock`pending
      ensures Valid()
      ensures var s := old(Unread());
              line == s[..Min(LineLength(s), limit)] && Unread() == s[Min(LineLength(s), limit)..]
    {
      hide Flat, Arrivals, LineLength;
      ghost var s := Unread();
      var more := true;
      while more && LF !in buffered && |buffered| < limit
        invariant Valid() && Unread() == s
        invariant !more ==> sock.Stream() == []
        decreases |sock.Stream()|, more
      {
        var part := sock.Recv(8192);
        Associate(buffered, part, sock.Stream());
        buffered := buffered + part;
        more := part != [];
      }
      var n := Min(LineLength(buffered), limit);
      LineInBuffer(buffered, sock.Stream(), limit);
      assert s[..n] == buffered[..n] && s[n..] == buffered[n..] + sock.Stream();
      line := buffered[..n];
      buffered := buffered[n..];
    }

    /** `Client.call`: send one line, take one line; a failed `require` is `None`. */
    method Call(message: seq<byte>) returns (r: Option<seq<byte>>)
      requires Valid()
      modifies this`buffered, sock
      ensures Valid() && sock.sent == old(sock.sent) + message + [LF]
      ensures r == Packet(old(Unread()))
      ensures Unread() == old(Unread())[Taken(old(Unread()))..]
    {
      hide Flat, LineLength, Arrivals;
      Associate(sock.sent, message, [LF]);
      sock.SendAll(message + [LF]);
      var line := ReadLine(65537);
      if line != [] && line[|line| - 1] == LF && |line| <= 65536 {
        return Some(line);
      }
      return None;
    }
  }

  lemma {:induction false} LineInBuffer(buffered: seq<byte>, rest: seq<byte>, limit: nat)
    requires LF in buffered || |buffered| >= limit || rest == []
    ensures Min(LineLength(buffered), limit) == Min(LineLength(buffered + rest), limit)
  {
    hide LineLength;
    if LF in buffered {
      var n := LineLength(buffered);
      LineFeedEnds(buffered);
      assert buffered + rest == buffered[..n - 1] + [LF] + (buffered + rest)[n..];
      LineLengthOf(buffered[..n - 1], (buffered + rest)[n..]);
    } else if rest == [] {
      assert buffered + rest == buffered;
    } else {
      LineAtLeast(buffered, rest);
      NoLineFeed(buffered);
    }
  }

  // ---------------------------------------------------------------- many calls

  /** The results of `k` reads in a row. */
  function Packets(s: seq<byte>, k: nat): seq<Option<seq<byte>>> {
    if k == 0 then [] else [Packet(s)] + Packets(s[Taken(s)..], k - 1)
  }

  predicate IsLine(line: seq<byte>) {
    0 < |line| <= 65536 && line[|line| - 1] == LF && LF !in line[..|line| - 1]
  }

  /** No byte is lost and none bleeds from one call into the next: a stream of lines within the limit
      is taken apart into exactly those lines. */
  lemma {:induction false} CallsReturnTheLines(lines: seq<seq<byte>>, rest: seq<byte>)
    requires forall i | 0 <= i < |lines| :: IsLine(lines[i])
    ensures |Packets(Flat(lines) + rest, |lines|)| == |lines|
    ensures forall i | 0 <= i < |lines| :: Packets(Flat(lines) + rest, |lines|)[i] == Some(lines[i])
    decreases lines
  {
    hide LineLength;
    if lines != [] {
      var line, after := lines[0], Flat(lines[1..]) + rest;
      var s := Flat(lines) + rest;
      assert IsLine(line);
      assert s == line[..|line| - 1] + [LF] + after;
      LineLengthOf(line[..|line| - 1], after);
      assert s[..|line|] == line && s[|line|..] == after;
      CallsReturnTheLines(lines[1..], rest);
      assert forall i | 1 <= i < |lines| :: lines[i] == lines[1..][i - 1];
    }
  }

  /** MAIN RESULT. On the same stream, cut into pieces in any two ways, the two readers give the same
      packet or both refuse, and leave the same bytes unread. */
  method ReadersAgree(a: seq<seq<byte>>, b: seq<seq<byte>>)
    returns (x: Option<seq<byte>>, y: Option<seq<byte>>, restX: seq<byte>, restY: seq<byte>)
    requires Arrivals(a) && Arrivals(b) && Flat(a) == Flat(b)
    ensures x == y == Packet(Flat(a))
    ensures restX == restY == Flat(a)[Taken(Flat(a))..]
  {
    var left := new Socket(a);
    x := left.ReadPacket();
    restX := Flat(left.pending);
    var right := new Socket(b);
    var client := new Client(right);
    y := client.Call([]);
    restY := client.buffered + Flat(right.pending);
  }
}
