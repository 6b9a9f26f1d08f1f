/** The keep-alive request loop of the loopback fixture (tools/http_test_server.py), and a client
    that reads its responses by RFC 9112: sections 6.3 (body length) and 7.1 (chunked coding). */
module HttpFixture {
  import opened Bytes

  type Fields = map<seq<byte>, seq<byte>>

  function LowerByte(b: byte): byte {
    if 65 <= b <= 90 then b + 32 else b
  }

  function Lower(s: seq<byte>): (l: seq<byte>)
    ensures |l| == |s| && forall k | 0 <= k < |s| :: l[k] == LowerByte(s[k])
  {
    seq(|s|, k requires 0 <= k < |s| => LowerByte(s[k]))
  }

  /** ASCII letters lose their case, and nothing else changes. */
  lemma {:induction false} LowerIsAscii(s: seq<byte>)
    ensures |Lower(s)| == |s|
    ensures forall k | 0 <= k < |s| ::
              Lower(s)[k] == if 'A' as int <= s[k] <= 'Z' as int then s[k] - 'A' as int + 'a' as int else s[k]
  {
  }

  function IndexOf(s: seq<byte>, b: byte): (i: Option<nat>)
    ensures i.Some? ==> i.value < |s| && s[i.value] == b && b !in s[..i.value]
    ensures i.None? ==> b !in s
  {
    if s == [] then None
    else if s[0] == b then Some(0)
    else
      var i := IndexOf(s[1..], b);
      if i.None? then None
      else
        assert s[..i.value + 1] == [s[0]] + s[1..][..i.value];
        Some(i.value + 1)
  }

  lemma {:induction false} IndexOfIs(a: seq<byte>, b: byte, rest: seq<byte>)
    requires b !in a
    ensures IndexOf(a + [b] + rest, b) == Some(|a|)
  {
    var s := a + [b] + rest;
    if a != [] {
      IndexOfIs(a[1..], b, rest);
      assert s[1..] == a[1..] + [b] + rest;
    }
  }

  // ---------------------------------------------------------------- field lines

  /** `Ended` is the end of the stream inside the head, `Malformed` a line without a colon. */
  datatype Head = Ended | Malformed(rest: seq<byte>) | Got(fields: Fields, rest: seq<byte>)

  /** Field lines up to the blank line; a later field of the same name replaces an earlier one. */
  function ReadFields(s: seq<byte>, fields: Fields): (h: Head)
    ensures !h.Ended? ==> |h.rest| < |s|
    decreases |s|
  {
    var n := LineLength(s);
    var line := s[..n];
    if line == CRLF then Got(fields, s[n..])
    else if line == [] then Ended
    else
      var colon := IndexOf(line, COLON);
      if colon.None? then Malformed(s[n..])
      else
        ReadFields(s[n..], fields[Lower(line[..colon.value]) := Lower(Strip(line[colon.value + 1..]))])
  }

  /** One line of the head, when `line` is the first line of the stream. */
  lemma {:induction false} ReadFieldsLine(line: seq<byte>, rest: seq<byte>, fields: Fields)
    requires LineLength(line + rest) == |line|
    ensures ReadFields(line + rest, fields)
         == if line == CRLF then Got(fields, rest)
            else if line == [] then Ended
            else
              var colon := IndexOf(line, COLON);
              if colon.None? then Malformed(rest)
              else
                ReadFields(rest, fields[Lower(line[..colon.value]) := Lower(Strip(line[colon.value + 1..]))])
  {
    hide Lower, Strip, IndexOf, LineLength;
    var s := line + rest;
    assert s[..|line|] == line && s[|line|..] == rest;
  }

  function Get(fields: Fields, key: seq<byte>, default: seq<byte>): seq<byte> {
    if key in fields then fields[key] else default
  }

  // ---------------------------------------------------------------- the responses

  const ContentLength: seq<byte> := Ascii("content-length")
  const Connection: seq<byte> := Ascii("connection")
  const TransferEncoding: seq<byte> := Ascii("transfer-encoding")
  const Close: seq<byte> := Ascii("close")
  const KeepAlive: seq<byte> := Ascii("keep-alive")
  const Chunked: seq<byte> := Ascii("chunked")
  const ChunkedPath: seq<byte> := Ascii("/chunked")
  const SilentPath: seq<byte> := Ascii("/silent")
  const RacePath: seq<byte> := Ascii("/race")
  const StatusLine: seq<byte> := Ascii("HTTP/1.1 200 OK") + CRLF

  function HeadLine(name: seq<byte>, value: seq<byte>): seq<byte> {
    name + [COLON] + ([SPACE] + value) + CRLF
  }

  function Chunk(part: seq<byte>): seq<byte> {
    Numeral(|part|, 16) + CRLF + (part + CRLF)
  }

  function Middle(body: seq<byte>): nat {
    if |body| / 2 > 1 then |body| / 2 else 1
  }

  function Clip(n: nat, max: nat): (m: nat)
    ensures m <= max && m <= n
  {
    if n < max then n else max
  }

  /** The body in two halves, then the last chunk. An empty half is itself a last chunk. */
  function ChunkedPayload(body: seq<byte>): seq<byte> {
    var mid := Clip(Middle(body), |body|);
    Chunk(body[..mid]) + (Chunk(body[mid..]) + Chunk([]))
  }

  /** The two field lines and the blank line. */
  function ResponseLines(path: seq<byte>, length: nat, close: bool): seq<byte> {
    HeadLine(Ascii("Connection"), if close then Close else KeepAlive)
    + (if path == ChunkedPath then HeadLine(Ascii("Transfer-Encoding"), Chunked)
       else HeadLine(Ascii("Content-Length"), Numeral(length, 10)))
    + CRLF
  }

  function Response(path: seq<byte>, body: seq<byte>, close: bool): seq<byte> {
    StatusLine
    + (ResponseLines(path, |body|, close) + (if path == ChunkedPath then ChunkedPayload(body) else body))
  }

  // ---------------------------------------------------------------- one request

  /** `first.split(b" ")[1]`: what stands between the first space and the next. */
  function PathOf(first: seq<byte>): Option<seq<byte>> {
    var space := IndexOf(first, SPACE);
    if space.None? then None
    else
      var rest := first[space.value + 1..];
      var next := IndexOf(rest, SPACE);
      Some(if next.None? then rest else rest[..next.value])
  }

  /** `Quit` is every way the handler ends without a response, exceptions included. */
  datatype Served = Quit(rest: seq<byte>) | Reply(payload: seq<byte>, rest: seq<byte>, close: bool)

  /** One turn of the loop on the unread input `s`. `race` says, by what is left unread, whether the
      barrier of the `/race` path lets the request through. */
  function ServeOne(s: seq<byte>, race: nat -> bool): (r: Served)
    ensures |r.rest| <= |s|
    ensures r.Reply? ==> |r.rest| < |s|
  {
    var n := LineLength(s);
    var first := s[..n];
    if first == [] then Quit(s)
    else
      var head := ReadFields(s[n..], map[]);
      if !head.Got? then Quit(if head.Ended? then [] else head.rest)
      else ServeBody(first, head.fields, head.rest, race)
  }

  function ServeBody(first: seq<byte>, fields: Fields, s: seq<byte>, race: nat -> bool): (r: Served)
    ensures |r.rest| <= |s|
  {
    var length := PyInt(Get(fields, ContentLength, Ascii("0")));
    if length.None? || length.value > 65536 || length.value < -1 then Quit(s)
    else
      var n := ReadLength(length.value, |s|);
      var body, rest := s[..n], s[n..];
      var path := PathOf(first);
      if path.None? || path.value == SilentPath || (path.value == RacePath && !race(|rest|)) then Quit(rest)
      else
        var close := Connection in fields && fields[Connection] == Close;
        Reply(Response(path.value, body, close), rest, close)
  }

  /** Everything the handler writes for the input `s`. */
  function ServeAll(s: seq<byte>, race: nat -> bool): seq<byte>
    decreases |s|
  {
    var r := ServeOne(s, race);
    if r.Quit? then []
    else r.payload + (if r.close then [] else ServeAll(r.rest, race))
  }

  /** What is unread when the handler returns. */
  function Unread(s: seq<byte>, race: nat -> bool): seq<byte>
    decreases |s|
  {
    var r := ServeOne(s, race);
    if r.Quit? || r.close then r.rest else Unread(r.rest, race)
  }

  /** The two streams of a `StreamRequestHandler`. */
  class Handler {
    var input: seq<byte>
    var output: seq<byte>

    constructor (bytes: seq<byte>)
      ensures input == bytes && output == []
    {
      input, output := bytes, [];
    }

    method ReadLine() returns (line: seq<byte>)
      modifies this`input
      ensures line == old(input)[..LineLength(old(input))]
      ensures input == old(input)[LineLength(old(input))..]
    {
      var n := LineLength(input);
      line := input[..n];
      input := input[n..];
    }

    /** `read` raises for a length below -1. */
    method Read(length: int) returns (body: Option<seq<byte>>)
      modifies this`input
      ensures length < -1 ==> body == None && input == old(input)
      ensures length >= -1 ==>
                var n := ReadLength(length, |old(input)|);
                body == Some(old(input)[..n]) && input == old(input)[n..]
    {
      if length < -1 {
        return None;
      }
      var n := ReadLength(length, |input|);
      body := Some(input[..n]);
      input := input[n..];
    }

    method Write(payload: seq<byte>)
      modifies this`output
      ensures output == old(output) + payload
    {
      output := output + payload;
    }

    /** The header loop; `ok` is false when it ends without the blank line. */
    method ReadHead() returns (ok: bool, headers: Fields)
      modifies this`input
      ensures var h := ReadFields(old(input), map[]);
              && ok == h.Got?
              && (ok ==> headers == h.fields)
              && input == if h.Ended? then [] else h.rest
    {
      hide Lower, Strip, IndexOf, LineLength, ReadFields;
      headers := map[];
      var line := ReadLine();
      assert line + input == old(input);
      while line != CRLF
        invariant LineLength(line + input) == |line|
        invariant ReadFields(line + input, headers) == ReadFields(old(input), map[])
        decreases |line + input|
      {
        ReadFieldsLine(line, input, headers);
        if line == [] {
          assert input == [];
          return false, headers;
        }
        var colon := IndexOf(line, COLON);
        if colon.None? {
          return false, headers;
        }
        headers := headers[Lower(line[..colon.value]) := Lower(Strip(line[colon.value + 1..]))];
        ghost var rest := input;
        line := ReadLine();
        assert line + input == rest;
      }
      ReadFieldsLine(line, input, headers);
      return true, headers;
    }

    /** `payload`, built by the loop over the two halves for the chunked path. */
    method Compose(path: seq<byte>, body: seq<byte>, close: bool) returns (payload: seq<byte>)
      ensures payload == Response(path, body, close)
    {
      hide Chunk, HeadLine, Ascii, StatusLine, Numeral, Middle, Clip, Connection;
      var lines := HeadLine(Ascii("Connection"), if close then Close else KeepAlive);
      var head := StatusLine + lines;
      if path == ChunkedPath {
        var rest := HeadLine(Ascii("Transfer-Encoding"), Chunked);
        head := head + rest + CRLF;
        assert head == StatusLine + (lines + rest + CRLF);
        var mid := Clip(Middle(body), |body|);
        var parts := [body[..mid], body[mid..]];
        payload := head;
        for i := 0 to 2
          invariant payload == head + (if i == 0 then [] else if i == 1 then Chunk(parts[0])
                                       else Chunk(parts[0]) + Chunk(parts[1]))
        {
          Associate(head, if i == 0 then [] else Chunk(parts[0]), Chunk(parts[i]));
          assert i == 0 ==> [] + Chunk(parts[0]) == Chunk(parts[0]);
          payload := payload + Chunk(parts[i]);
        }
        Associate(head, Chunk(parts[0]) + Chunk(parts[1]), Chunk([]));
        Associate(Chunk(parts[0]), Chunk(parts[1]), Chunk([]));
        payload := payload + Chunk([]);
        Associate(StatusLine, lines + rest + CRLF, ChunkedPayload(body));
      } else {
        var rest := HeadLine(Ascii("Content-Length"), Numeral(|body|, 10));
        payload := head + rest + CRLF + body;
        assert payload == StatusLine + (lines + rest + CRLF + body);
      }
    }

    /** One turn of the loop; `more` is false when the handler returns. */
    method Serve(race: nat -> bool) returns (more: bool)
      modifies this
      ensures var r := ServeOne(old(input), race);
              && input == r.rest
              && output == old(output) + (if r.Reply? then r.payload else [])
              && more == (r.Reply? && !r.close)
    {
      assert output + [] == output;
      var first := ReadLine();
      if first == [] {
        return false;
      }
      var ok, headers := ReadHead();
      if !ok {
        return false;
      }
      var length := PyInt(Get(headers, ContentLength, Ascii("0")));
      if length.None? || length.value > 65536 {
        return false;
      }
      var body := Read(length.value);
      if body.None? {
        return false;
      }
      var path := PathOf(first);
      if path.None? || path.value == SilentPath {
        return false;
      }
      if path.value == RacePath && !race(|input|) {
        return false;
      }
      var close := Connection in headers && headers[Connection] == Close;
      var payload := Compose(path.value, body.value, close);
      Write(payload);
      return !close;
    }

    method Handle(race: nat -> bool)
      modifies this
      ensures output == old(output) + ServeAll(old(input), race)
      ensures input == Unread(old(input), race)
    {
      while true
        invariant output + ServeAll(input, race) == old(output) + ServeAll(old(input), race)
        invariant Unread(input, race) == Unread(old(input), race)
        decreases |input|
      {
        hide ServeOne;
        ghost var s, written := input, output;
        var more := Serve(race);
        ghost var r := ServeOne(s, race);
        if r.Reply? {
          Associate(written, r.payload, if r.close then [] else ServeAll(r.rest, race));
        }
        assert output + [] == output;
        if !more {
          return;
        }
      }
    }
  }
}
