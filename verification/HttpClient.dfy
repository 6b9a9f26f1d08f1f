/** The fixture's other side: requests written by RFC 9112, and a client that reads responses by it
    (sections 6.3 and 7.1). Well-formed requests are answered in order with their own bodies. */
module HttpClient {
  import opened Bytes
  import opened HttpFixture

  // ---------------------------------------------------------------- chunked transfer coding

  /** Section 7.1: chunks of a hexadecimal size, the data and CRLF, up to a chunk of size zero,
      after which an empty trailer section ends the body. Extensions and trailers are not read. */
  function DecodeChunks(s: seq<byte>): (r: Option<(seq<byte>, seq<byte>)>)
    ensures r.Some? ==> |r.value.1| < |s|
    decreases |s|
  {
    var n := LineLength(s);
    if n < 2 || s[n - 2..n] != CRLF then None
    else
      var size := Value(s[..n - 2], 16);
      var rest := s[n..];
      if size.None? || size.value + 2 > |rest| || rest[size.value..size.value + 2] != CRLF then None
      else if size.value == 0 then Some(([], rest[2..]))
      else
        var tail := DecodeChunks(rest[size.value + 2..]);
        if tail.None? then None else Some((rest[..size.value] + tail.value.0, tail.value.1))
  }

  /** What the decoder leaves unread of the fixture's payload for `body`. */
  function Leftover(body: seq<byte>): seq<byte> {
    if |body| >= 2 then [] else if |body| == 1 then Chunk([]) else Chunk([]) + Chunk([])
  }

  lemma {:induction false} SizeLine(size: nat, rest: seq<byte>)
    ensures var line := Numeral(size, 16) + CRLF;
            && LineLength(line + rest) == |line|
            && (line + rest)[|line| - 2..|line|] == CRLF
            && (line + rest)[..|line| - 2] == Numeral(size, 16)
            && (line + rest)[|line|..] == rest
  {
    var text := Numeral(size, 16) + [CR];
    LineLengthOf(text, rest);
    assert Numeral(size, 16) + CRLF == text + [LF];
  }

  lemma {:induction false} DecodeChunk(part: seq<byte>, s: seq<byte>)
    ensures DecodeChunks(Chunk(part) + s)
         == if part == [] then Some(([], s))
            else
              var tail := DecodeChunks(s);
              if tail.None? then None else Some((part + tail.value.0, tail.value.1))
  {
    hide Numeral, LineLength;
    var size := Numeral(|part|, 16);
    var rest := part + CRLF + s;
    assert Chunk(part) + s == size + CRLF + rest;
    SizeLine(|part|, rest);
    NumeralValue(|part|, 16);
    assert rest[..|part|] == part && rest[|part|..|part| + 2] == CRLF && rest[|part| + 2..] == s;
  }

  /** MAIN RESULT for the `/chunked` path: its payload decodes to the body, for every body, and the
      decoder reads the payload to its end exactly when the body has at least two bytes. */
  lemma {:induction false} ChunkedRoundTrip(body: seq<byte>, after: seq<byte>)
    ensures DecodeChunks(ChunkedPayload(body) + after) == Some((body, Leftover(body) + after))
    ensures Leftover(body) == [] <==> |body| >= 2
  {
    hide DecodeChunks, Chunk;
    var mid := Clip(Middle(body), |body|);
    var left, right := body[..mid], body[mid..];
    var last := Chunk([]);
    Associate(Chunk(left), Chunk(right) + last, after);
    Associate(Chunk(right), last, after);
    DecodeChunk(left, Chunk(right) + (last + after));
    DecodeChunk(right, last + after);
    DecodeChunk([], after);
    ChunkIsNotEmpty([]);
    if |body| >= 2 {
      assert left + (right + []) == body && [] + after == after;
    } else if |body| == 1 {
      assert left == body && right == [] && left + [] == body;
    } else {
      assert left == [] && right == [];
      Associate(last, last, after);
    }
  }

  lemma {:induction false} ChunkIsNotEmpty(part: seq<byte>)
    ensures |Chunk(part)| > 0
  {
  }

  // ---------------------------------------------------------------- requests

  datatype Field = Field(name: seq<byte>, value: seq<byte>)

  /** A request: its request line without CRLF, its field lines, its body. */
  datatype Request = Request(line: seq<byte>, fields: seq<Field>, body: seq<byte>)

  predicate ValidField(f: Field) {
    LF !in f.name && COLON !in f.name && LF !in f.value
  }

  function EncodeField(f: Field): seq<byte> {
    f.name + [COLON] + f.value + CRLF
  }

  /** The field lines and the blank line. */
  function EncodeFields(fields: seq<Field>): seq<byte> {
    if fields == [] then CRLF else EncodeField(fields[0]) + EncodeFields(fields[1..])
  }

  function Encode(r: Request): seq<byte> {
    r.line + CRLF + (EncodeFields(r.fields) + r.body)
  }

  /** The field lines as a dictionary: names without case, the last value of a name. */
  function Collect(fields: seq<Field>, got: Fields): Fields {
    if fields == [] then got
    else Collect(fields[1..], got[Lower(fields[0].name) := Lower(Strip(fields[0].value + CRLF))])
  }

  function FieldsOf(r: Request): Fields {
    Collect(r.fields, map[])
  }

  function RequestPath(r: Request): Option<seq<byte>> {
    PathOf(r.line + CRLF)
  }

  /** The dictionary has this value under this name. */
  predicate Says(fields: Fields, name: string, value: string)
  {
    Ascii(name) in fields && fields[Ascii(name)] == Ascii(value)
  }

  predicate Closes(r: Request) {
    Says(FieldsOf(r), "connection", "close")
  }

  /** Section 6.3 of RFC 9112 for a request: its Content-Length is the length of its body, and
      without one the body is empty. The fixture's limit and its two special paths are set aside. */
  predicate WellFormed(r: Request) {
    && LF !in r.line
    && (forall k | 0 <= k < |r.fields| :: ValidField(r.fields[k]))
    && PyInt(Get(FieldsOf(r), Ascii("content-length"), Ascii("0"))) == Some(|r.body|)
    && |r.body| <= 65536
    && RequestPath(r).Some? && RequestPath(r).value != Ascii("/silent") && RequestPath(r).value != Ascii("/race")
  }

  /** The response that a well-formed request gets. */
  function AnswerTo(r: Request): seq<byte>
    requires WellFormed(r)
  {
    Response(RequestPath(r).value, r.body, Closes(r))
  }

  lemma {:induction false} FieldLine(f: Field, rest: seq<byte>, got: Fields)
    requires ValidField(f)
    ensures ReadFields(EncodeField(f) + rest, got)
         == ReadFields(rest, got[Lower(f.name) := Lower(Strip(f.value + CRLF))])
  {
    hide ReadFields, Lower, Strip, LineLength, IndexOf;
    var line := EncodeField(f);
    var text := f.name + [COLON] + f.value + [CR];
    LineLengthOf(text, rest);
    assert text + [LF] == line;
    ReadFieldsLine(line, rest, got);
    IndexOfIs(f.name, COLON, f.value + CRLF);
    assert f.name + [COLON] + (f.value + CRLF) == line;
    assert line[..|f.name|] == f.name && line[|f.name| + 1..] == f.value + CRLF;
    assert |line| > 2;
  }

  function EncodeLines(fields: seq<Field>): seq<byte> {
    if fields == [] then [] else EncodeField(fields[0]) + EncodeLines(fields[1..])
  }

  lemma {:induction false} LinesThenBlank(fields: seq<Field>)
    ensures EncodeFields(fields) == EncodeLines(fields) + CRLF
  {
    hide EncodeField;
    if fields != [] {
      LinesThenBlank(fields[1..]);
      Associate(EncodeField(fields[0]), EncodeLines(fields[1..]), CRLF);
    }
  }

  lemma {:induction false} ReadFieldLines(fields: seq<Field>, rest: seq<byte>, got: Fields)
    requires forall k | 0 <= k < |fields| :: ValidField(fields[k])
    ensures ReadFields(EncodeLines(fields) + rest, got) == ReadFields(rest, Collect(fields, got))
    decreases fields
  {
    hide ReadFields, Lower, Strip, LineLength, IndexOf, EncodeField;
    if fields == [] {
      assert EncodeLines(fields) + rest == rest;
    } else {
      var f := fields[0];
      Associate(EncodeField(f), EncodeLines(fields[1..]), rest);
      FieldLine(f, EncodeLines(fields[1..]) + rest, got);
      ReadFieldLines(fields[1..], rest, got[Lower(f.name) := Lower(Strip(f.value + CRLF))]);
    }
  }

  lemma {:induction false} ReadEncodedFields(fields: seq<Field>, rest: seq<byte>, got: Fields)
    requires forall k | 0 <= k < |fields| :: ValidField(fields[k])
    ensures ReadFields(EncodeFields(fields) + rest, got) == Got(Collect(fields, got), rest)
  {
    hide ReadFields, LineLength, EncodeFields, EncodeLines, Collect;
    LinesThenBlank(fields);
    Associate(EncodeLines(fields), CRLF, rest);
    ReadFieldLines(fields, CRLF + rest, got);
    LineLengthOf([CR], rest);
    assert [CR] + [LF] == CRLF;
    ReadFieldsLine(CRLF, rest, Collect(fields, got));
  }

  /** A head that ends before its blank line gets no response, wherever in it the stream ends; and
      neither does one with a line that has no colon, of which nothing more is read. */
  lemma {:induction false} RefusesBadHead(line: seq<byte>, fields: seq<Field>, bad: seq<byte>, rest: seq<byte>, race: nat -> bool)
    requires LF !in line && forall k | 0 <= k < |fields| :: ValidField(fields[k])
    requires LF !in bad && bad != [CR]
    ensures ServeOne(line, race) == Quit([])
    ensures ServeOne(line + CRLF + (EncodeLines(fields) + bad), race) == Quit([])
    ensures COLON !in bad ==> ServeOne(line + CRLF + (EncodeLines(fields) + (bad + [LF] + rest)), race) == Quit(rest)
  {
    hide ReadFields, EncodeLines, Collect;
    var got := Collect(fields, map[]);
    OnlyLine(line, race);
    FirstLine(line, EncodeLines(fields) + bad);
    ReadFieldLines(fields, bad, map[]);
    CutLine(bad, got);
    if COLON !in bad {
      FirstLine(line, EncodeLines(fields) + (bad + [LF] + rest));
      ReadFieldLines(fields, bad + [LF] + rest, map[]);
      BadLine(bad, rest, got);
    }
  }

  lemma {:induction false} OnlyLine(line: seq<byte>, race: nat -> bool)
    requires LF !in line
    ensures ServeOne(line, race) == Quit([])
  {
    hide LineLength, Lower, Strip;
    assert line[..|line|] == line && line[|line|..] == [];
    LineOfNothing();
    assert LineLength(line) == |line|;
  }

  lemma {:induction false} FirstLine(line: seq<byte>, after: seq<byte>)
    requires LF !in line
    ensures var s := line + CRLF + after;
            LineLength(s) == |line| + 2 && s[..|line| + 2] == line + CRLF && s[|line| + 2..] == after
  {
    assert line + [CR] + [LF] == line + CRLF;
    LineLengthOf(line + [CR], after);
  }

  /** The stream ends in the middle of a line, or before it. */
  lemma {:induction false} CutLine(bad: seq<byte>, got: Fields)
    requires LF !in bad
    ensures var h := ReadFields(bad, got);
            h.Ended? || (h.Malformed? && h.rest == [])
  {
    hide LineLength, Lower, Strip;
    var n := LineLength(bad);
    if bad != [] {
      assert n == |bad|;
      assert bad[..n] == bad && bad[n..] == [];
      assert bad != CRLF;
      LineOfNothing();
    } else {
      LineOfNothing();
    }
  }

  lemma {:induction false} LineOfNothing()
    ensures LineLength([]) == 0
  {
  }

  lemma {:induction false} BadLine(bad: seq<byte>, rest: seq<byte>, got: Fields)
    requires LF !in bad && COLON !in bad && bad != [CR]
    ensures ReadFields(bad + [LF] + rest, got) == Malformed(rest)
  {
    hide ReadFields, LineLength, IndexOf;
    LineLengthOf(bad, rest);
    ReadFieldsLine(bad + [LF], rest, got);
    assert COLON !in bad + [LF];
    assert (bad + [LF])[..|bad|] == bad;
    assert (bad + [LF])[|bad|] == LF;
  }

  /** Any head of field lines, and any bytes after it: how much of them is taken as the body, and which
      requests get no response at all. The stream may end before the body is complete. */
  lemma {:induction false} AnswersExactly(line: seq<byte>, fields: seq<Field>, s: seq<byte>, race: nat -> bool)
    requires LF !in line && forall k | 0 <= k < |fields| :: ValidField(fields[k])
    ensures var got := Collect(fields, map[]);
            var length := PyInt(Get(got, Ascii("content-length"), Ascii("0")));
            ServeOne(line + CRLF + (EncodeFields(fields) + s), race)
              == if length.None? || length.value > 65536 || length.value < -1 then Quit(s)
                 else
                   var n := if length.value == -1 || length.value >= |s| then |s| else length.value;
                   var path := PathOf(line + CRLF);
                   if path.None? || path.value == Ascii("/silent") || (path.value == Ascii("/race") && !race(|s| - n))
                   then Quit(s[n..])
                   else Reply(Response(path.value, s[..n], Says(got, "connection", "close")), s[n..],
                              Says(got, "connection", "close"))
  {
    hide ReadFields, LineLength, EncodeFields, Collect, PathOf, PyInt, Response;
    FirstLine(line, EncodeFields(fields) + s);
    ReadEncodedFields(fields, s, map[]);
  }

  /** The path is what stands between the first two spaces of the request line, or after the only one. */
  lemma {:induction false} PathIs(before: seq<byte>, path: seq<byte>, rest: seq<byte>)
    requires 32 !in before && 32 !in path
    ensures PathOf(before + [32] + path + [32] + rest) == PathOf(before + [32] + path) == Some(path)
    ensures PathOf(before) == None
  {
    var s := before + [32] + path + [32] + rest;
    assert s == before + [32] + (path + [32] + rest);
    IndexOfIs(before, 32, path + [32] + rest);
    assert s[|before| + 1..] == path + [32] + rest;
    IndexOfIs(path, 32, rest);
    assert (path + [32] + rest)[..|path|] == path;
    IndexOfIs(before, 32, path);
    assert (before + [32] + path)[|before| + 1..] == path;
  }

  /** One request is consumed to its last byte and answered with its own body. */
  lemma {:induction false} ServesOne(r: Request, rest: seq<byte>, race: nat -> bool)
    requires WellFormed(r)
    ensures ServeOne(Encode(r) + rest, race)
         == Reply(AnswerTo(r), rest, Closes(r))
  {
    hide ReadFields, LineLength, EncodeFields, Collect, PathOf, PyInt, Response;
    var first := r.line + CRLF;
    var after := EncodeFields(r.fields) + (r.body + rest);
    assert Encode(r) + rest == first + after by {
      Associate(EncodeFields(r.fields), r.body, rest);
      Associate(first, EncodeFields(r.fields) + r.body, rest);
    }
    assert r.line + [CR] + [LF] == first;
    LineLengthOf(r.line + [CR], after);
    assert (first + after)[..|first|] == first && (first + after)[|first|..] == after;
    ReadEncodedFields(r.fields, r.body + rest, map[]);
    ServesBody(r, rest, race);
  }

  /** A request that announces more than the limit, a length below -1 (-1 reads to the end) or no number
      gets no response, and its body is left unread. */
  lemma {:induction false} RefusesBadLength(r: Request, rest: seq<byte>, race: nat -> bool)
    requires LF !in r.line && forall k | 0 <= k < |r.fields| :: ValidField(r.fields[k])
    requires var length := PyInt(Get(FieldsOf(r), Ascii("content-length"), Ascii("0")));
             length.None? || length.value > 65536 || length.value < -1
    ensures ServeOne(Encode(r) + rest, race) == Quit(r.body + rest)
  {
    hide ReadFields, LineLength, EncodeFields, Collect, PyInt;
    var first := r.line + CRLF;
    var after := EncodeFields(r.fields) + (r.body + rest);
    assert Encode(r) + rest == first + after by {
      Associate(EncodeFields(r.fields), r.body, rest);
      Associate(first, EncodeFields(r.fields) + r.body, rest);
    }
    assert r.line + [CR] + [LF] == first;
    LineLengthOf(r.line + [CR], after);
    assert (first + after)[..|first|] == first && (first + after)[|first|..] == after;
    ReadEncodedFields(r.fields, r.body + rest, map[]);
  }

  lemma {:induction false} ServesBody(r: Request, rest: seq<byte>, race: nat -> bool)
    requires WellFormed(r)
    ensures ServeBody(r.line + CRLF, FieldsOf(r), r.body + rest, race)
         == Reply(AnswerTo(r), rest, Closes(r))
  {
    hide PathOf, PyInt, Response, FieldsOf;
    assert (r.body + rest)[..|r.body|] == r.body && (r.body + rest)[|r.body|..] == rest;
  }

  function EncodeAll(requests: seq<Request>): seq<byte> {
    if requests == [] then [] else Encode(requests[0]) + EncodeAll(requests[1..])
  }

  /** The requests up to and including the first that closes the connection. */
  function Answered(requests: seq<Request>): (n: nat)
    ensures n <= |requests|
  {
    if requests == [] then 0
    else if Closes(requests[0]) then 1
    else 1 + Answered(requests[1..])
  }

  predicate AnyCloses(requests: seq<Request>) {
    requests != [] && (Closes(requests[0]) || AnyCloses(requests[1..]))
  }

  function Responses(requests: seq<Request>): seq<byte>
    requires forall k | 0 <= k < |requests| :: WellFormed(requests[k])
  {
    if requests == [] then [] else AnswerTo(requests[0]) + Responses(requests[1..])
  }

  /** MAIN RESULT for the server side. Any sequence of well-formed requests, pipelined or not, is
      answered once each and in order, up to the first that closes; whatever follows is left unread
      after a close, and is served as if it came alone otherwise. */
  lemma {:induction false} ServesInOrder(requests: seq<Request>, rest: seq<byte>, race: nat -> bool)
    requires forall k | 0 <= k < |requests| :: WellFormed(requests[k])
    ensures ServeAll(EncodeAll(requests) + rest, race)
         == Responses(requests[..Answered(requests)]) + (if AnyCloses(requests) then [] else ServeAll(rest, race))
    ensures Unread(EncodeAll(requests) + rest, race)
         == if AnyCloses(requests) then EncodeAll(requests[Answered(requests)..]) + rest else Unread(rest, race)
    decreases requests
  {
    hide ServeOne, WellFormed, Encode, Closes, AnswerTo;
    if requests == [] {
      assert EncodeAll(requests) + rest == rest;
      assert Responses(requests[..0]) + ServeAll(rest, race) == ServeAll(rest, race);
    } else {
      var r, more := requests[0], requests[1..];
      var after := EncodeAll(more) + rest;
      Associate(Encode(r), EncodeAll(more), rest);
      ServesOne(r, after, race);
      var payload := AnswerTo(r);
      var n := Answered(requests);
      assert requests[..n] == [r] + requests[1..n] && requests[1..n] == more[..n - 1];
      ResponsesHead(r, more[..n - 1]);
      if Closes(r) {
        assert more[..0] == [] && payload + [] == payload && payload + [] + [] == payload;
        assert requests[1..] == more;
      } else {
        ServesInOrder(more, rest, race);
        Associate(payload, Responses(more[..n - 1]), if AnyCloses(more) then [] else ServeAll(rest, race));
        assert more[n - 1..] == requests[n..];
      }
    }
  }

  lemma {:induction false} ResponsesHead(r: Request, more: seq<Request>)
    requires WellFormed(r) && forall k | 0 <= k < |more| :: WellFormed(more[k])
    ensures Responses([r] + more) == AnswerTo(r) + Responses(more)
  {
    hide WellFormed, AnswerTo;
    assert ([r] + more)[1..] == more;
  }

  // ---------------------------------------------------------------- the client

  datatype Answer = Answer(status: nat, body: seq<byte>, close: bool)

  predicate IsDigit(b: byte) {
    48 <= b <= 57
  }

  /** Section 4: the version, a space, a code of three digits, a space, and a reason up to CRLF. */
  function ReadStatus(line: seq<byte>): Option<nat> {
    if && |line| >= 15 && line[..5] == Ascii("HTTP/") && IsDigit(line[5]) && line[6] == 46 && IsDigit(line[7])
       && line[8] == 32 && IsDigit(line[9]) && IsDigit(line[10]) && IsDigit(line[11]) && line[12] == 32
       && line[|line| - 2..] == [13, 10]
    then Some(100 * (line[9] as int - 48) + 10 * (line[10] as int - 48) + (line[11] as int - 48))
    else None
  }

  /** Section 6.3 for a response: a chunked body ends where its coding says, any other one after
      Content-Length bytes. */
  function ReadResponse(s: seq<byte>): (r: Option<(Answer, seq<byte>)>)
    ensures r.Some? ==> |r.value.1| < |s|
  {
    var n := LineLength(s);
    var status := ReadStatus(s[..n]);
    if status.None? then None
    else
      var head := ReadFields(s[n..], map[]);
      if !head.Got? then None
      else
        var body := ReadBody(head.fields, head.rest);
        if body.None? then None
        else Some((Answer(status.value, body.value.0, Says(head.fields, "connection", "close")), body.value.1))
  }

  function ReadBody(fields: Fields, s: seq<byte>): (r: Option<(seq<byte>, seq<byte>)>)
    ensures r.Some? ==> |r.value.1| <= |s|
  {
    if Says(fields, "transfer-encoding", "chunked") then DecodeChunks(s)
    else
      var length := Value(Get(fields, Ascii("content-length"), []), 10);
      if length.None? || length.value > |s| then None
      else Some((s[..length.value], s[length.value..]))
  }

  /** All the responses on a stream, or nothing when it is not a row of whole responses. */
  function ReadAll(s: seq<byte>): Option<seq<Answer>>
    decreases |s|
  {
    if s == [] then Some([])
    else
      var r := ReadResponse(s);
      if r.None? then None
      else
        var more := ReadAll(r.value.1);
        if more.None? then None else Some([r.value.0] + more.value)
  }

  lemma {:induction false} StripValue(v: seq<byte>)
    requires v != [] && BlankFree(v)
    ensures Strip([SPACE] + v + CRLF) == v
  {
    assert ([SPACE] + v + CRLF)[1..] == v + CRLF;
    assert StripLeft([SPACE] + v + CRLF) == v + CRLF;
    StripRightOf(v, CRLF);
  }

  /** A value that `Lower` leaves alone. */
  predicate LowerText(v: seq<byte>) {
    v != [] && forall k | 0 <= k < |v| :: !IsBlank(v[k]) && !(65 <= v[k] <= 90)
  }

  lemma {:induction false} FieldValue(v: seq<byte>)
    requires LowerText(v)
    ensures Lower(Strip([SPACE] + v + CRLF)) == v
    ensures LF !in v
  {
    StripValue(v);
    assert forall k | 0 <= k < |v| :: !IsBlank(v[k]);
  }

  lemma {:induction false} TwoFields(f: Field, g: Field)
    ensures EncodeFields([f, g]) == EncodeField(f) + EncodeField(g) + CRLF
    ensures Collect([f, g], map[])
         == map[Lower(f.name) := Lower(Strip(f.value + CRLF))][Lower(g.name) := Lower(Strip(g.value + CRLF))]
  {
    hide EncodeField, Lower, Strip;
    assert [f, g][1..] == [g] && [g][1..] == [];
    assert EncodeFields([g]) == EncodeField(g) + EncodeFields([]);
    Associate(EncodeField(f), EncodeField(g), CRLF);
    assert Collect([f, g], map[]) == Collect([g], map[Lower(f.name) := Lower(Strip(f.value + CRLF))]);
  }

  /** The field lines of a response: the connection and one that tells the body's length. */
  lemma {:induction false} ReadTwoFields(name: seq<byte>, c: seq<byte>, v: seq<byte>, rest: seq<byte>)
    requires LF !in name && COLON !in name
    requires LowerText(c) && LowerText(v)
    ensures ReadFields(HeadLine(Ascii("Connection"), c) + HeadLine(name, v) + CRLF + rest, map[])
         == Got(map[Connection := c][Lower(name) := v], rest)
  {
    hide ReadFields, Strip, LowerText;
    var f, g := Field(Ascii("Connection"), [SPACE] + c), Field(name, [SPACE] + v);
    FieldValue(c);
    FieldValue(v);
    assert Lower(Ascii("Connection")) == Connection;
    TwoFields(f, g);
    ReadEncodedFields([f, g], rest, map[]);
  }

  lemma {:induction false} NumeralIsLowerText(n: nat)
    ensures LowerText(Numeral(n, 10))
  {
    var s := Numeral(n, 10);
    assert forall k | 0 <= k < |s| :: DigitValue(s[k]).Some? && DigitValue(s[k]).value < 10;
  }

  function AfterResponse(path: seq<byte>, body: seq<byte>): seq<byte> {
    if path == ChunkedPath then Leftover(body) else []
  }

  function ResponseFields(path: seq<byte>, length: nat, close: bool): Fields {
    var connection := map[Connection := if close then Close else KeepAlive];
    if path == ChunkedPath then connection[TransferEncoding := Chunked]
    else connection[ContentLength := Numeral(length, 10)]
  }

  lemma {:induction false} NameLiterals()
    ensures Lower(Ascii("Transfer-Encoding")) == TransferEncoding
    ensures Lower(Ascii("Content-Length")) == ContentLength
    ensures Lower(Ascii("Connection")) == Connection
  {
    hide Lower;
    NameLiteral("Transfer-Encoding", "transfer-encoding");
    NameLiteral("Content-Length", "content-length");
    NameLiteral("Connection", "connection");
  }

  lemma {:induction false} NameLiteral(name: string, lower: string)
    requires |name| == |lower|
    requires forall k | 0 <= k < |name| ::
               if 'A' <= name[k] <= 'Z' then lower[k] == name[k] - 'A' + 'a' else name[k] < 128 as char && lower[k] == name[k]
    ensures Lower(Ascii(name)) == Ascii(lower)
  {
  }

  lemma {:induction false} ValueLiterals()
    ensures LowerText(Close) && LowerText(KeepAlive) && LowerText(Chunked)
  {
    hide LowerText;
    LowerLiteral("close");
    LowerLiteral("keep-alive");
    LowerLiteral("chunked");
  }

  lemma {:induction false} LowerLiteral(s: string)
    requires s != "" && forall k | 0 <= k < |s| :: s[k] == '-' || 'a' <= s[k] <= 'z'
    ensures LowerText(Ascii(s))
  {
    assert forall k | 0 <= k < |s| :: Ascii(s)[k] == s[k] as int;
  }

  lemma {:induction false} SeparatorFreeLiterals()
    ensures LF !in Ascii("Transfer-Encoding") && COLON !in Ascii("Transfer-Encoding")
    ensures LF !in Ascii("Content-Length") && COLON !in Ascii("Content-Length")
    ensures LF !in Ascii("Connection") && COLON !in Ascii("Connection")
  {
  }

  lemma {:induction false} ReadsFields(path: seq<byte>, length: nat, close: bool, rest: seq<byte>)
    ensures ReadFields(ResponseLines(path, length, close) + rest, map[])
         == Got(ResponseFields(path, length, close), rest)
  {
    hide ReadFields, Numeral, LowerText, HeadLine, Lower, Ascii;
    var c := if close then Close else KeepAlive;
    NameLiterals();
    ValueLiterals();
    SeparatorFreeLiterals();
    NumeralIsLowerText(length);
    if path == ChunkedPath {
      ReadTwoFields(Ascii("Transfer-Encoding"), c, Chunked, rest);
    } else {
      ReadTwoFields(Ascii("Content-Length"), c, Numeral(length, 10), rest);
    }
  }

  /** The client takes one response off the stream: the body and the connection option it was given,
      and the rest of the stream untouched unless a short chunked body left a second last chunk. */
  lemma {:induction false} ReadsResponse(path: seq<byte>, body: seq<byte>, close: bool, after: seq<byte>)
    ensures ReadResponse(Response(path, body, close) + after)
         == Some((Answer(200, body, close), AfterResponse(path, body) + after))
  {
    hide ReadFields, Numeral, Value, LineLength, ResponseLines, ChunkedPayload, DecodeChunks, Leftover;
    var payload := if path == ChunkedPath then ChunkedPayload(body) else body;
    var lines := ResponseLines(path, |body|, close);
    var fields := lines + (payload + after);
    ReadsFields(path, |body|, close, payload + after);
    Associate(lines, payload, after);
    Associate(StatusLine, lines + payload, after);
    assert StatusLine == Ascii("HTTP/1.1 200 OK") + [CR] + [LF];
    LineLengthOf(Ascii("HTTP/1.1 200 OK") + [CR], fields);
    StatusIs200();
    assert (StatusLine + fields)[..|StatusLine|] == StatusLine && (StatusLine + fields)[|StatusLine|..] == fields;
    ReadsBody(path, body, close, after);
    ConnectionOf(path, |body|, close);
  }

  lemma {:induction false} StatusIs200()
    ensures ReadStatus(StatusLine) == Some(200)
  {
    assert StatusLine[..5] == Ascii("HTTP/");
  }

  lemma {:induction false} ConnectionOf(path: seq<byte>, length: nat, close: bool)
    ensures var fields := ResponseFields(path, length, close);
            Says(fields, "connection", "close") <==> close
  {
    assert |Connection| == 10 && |TransferEncoding| == 17 && |ContentLength| == 14;
    assert |Close| == 5 && |KeepAlive| == 10;
  }

  lemma {:induction false} ReadsBody(path: seq<byte>, body: seq<byte>, close: bool, after: seq<byte>)
    ensures ReadBody(ResponseFields(path, |body|, close),
                     (if path == ChunkedPath then ChunkedPayload(body) else body) + after)
         == Some((body, AfterResponse(path, body) + after))
  {
    hide Numeral, Value, ChunkedPayload, DecodeChunks, Leftover;
    assert |Connection| == 10 && |TransferEncoding| == 17 && |ContentLength| == 14;
    if path == ChunkedPath {
      ChunkedRoundTrip(body, after);
    } else {
      NumeralValue(|body|, 10);
      assert (body + after)[..|body|] == body && (body + after)[|body|..] == [] + after;
    }
  }

  // ---------------------------------------------------------------- the response as text

  lemma {:induction false} AsciiAppend(a: string, b: string, whole: string)
    requires a + b == whole
    ensures Ascii(whole) == Ascii(a) + Ascii(b)
  {
  }

  /** Everything the fixture writes for one request, byte for byte: for `/chunked` the body comes in two
      halves, the first of half its length, but of one byte where that would be none. */
  lemma {:induction false} ResponseText(path: seq<byte>, body: seq<byte>, close: bool)
    ensures var head := Ascii("HTTP/1.1 200 OK") + [13, 10]
                        + Ascii("Connection: ") + Ascii(if close then "close" else "keep-alive") + [13, 10];
            var n := |body|;
            var half := if n >= 2 then n / 2 else n;
            Response(path, body, close)
              == if path == Ascii("/chunked") then
                   head + Ascii("Transfer-Encoding: chunked") + [13, 10, 13, 10]
                   + Numeral(half, 16) + [13, 10] + body[..half] + [13, 10]
                   + Numeral(n - half, 16) + [13, 10] + body[half..] + [13, 10]
                   + [48, 13, 10, 13, 10]
                 else
                   head + Ascii("Content-Length: ") + Numeral(n, 10) + [13, 10, 13, 10] + body
  {
    hide Numeral, Ascii, Chunked, Middle, Clip;
    var option := Ascii(if close then "close" else "keep-alive");
    NamesText();
    if path == Ascii("/chunked") {
      var half := Clip(Middle(body), |body|);
      HalfIs(body);
      LastChunk();
      ChunkedText(Ascii("HTTP/1.1 200 OK"), Ascii("Connection"), option, Ascii("Transfer-Encoding"), Ascii("chunked"),
                  Numeral(half, 16), body[..half], Numeral(|body| - half, 16), body[half..], Chunk([]));
    } else {
      PlainText(Ascii("HTTP/1.1 200 OK"), Ascii("Connection"), option, Ascii("Content-Length"), Numeral(|body|, 10), body);
    }
  }

  lemma {:induction false} HalfIs(body: seq<byte>)
    ensures Clip(Middle(body), |body|) == if |body| >= 2 then |body| / 2 else |body|
  {
  }

  lemma {:induction false} ChunkedText(
    status: seq<byte>, name: seq<byte>, option: seq<byte>, coding: seq<byte>, value: seq<byte>,
    n1: seq<byte>, p1: seq<byte>, n2: seq<byte>, p2: seq<byte>, last: seq<byte>)
    ensures status + CRLF + (HeadLine(name, option) + HeadLine(coding, value) + CRLF
                             + (n1 + CRLF + (p1 + CRLF) + (n2 + CRLF + (p2 + CRLF) + last)))
         == status + [13, 10] + (name + [58, 32]) + option + [13, 10] + (coding + [58, 32] + value) + [13, 10, 13, 10]
            + n1 + [13, 10] + p1 + [13, 10] + n2 + [13, 10] + p2 + [13, 10] + last
  {
  }

  lemma {:induction false} PlainText(
    status: seq<byte>, name: seq<byte>, option: seq<byte>, field: seq<byte>, length: seq<byte>, body: seq<byte>)
    ensures status + CRLF + (HeadLine(name, option) + HeadLine(field, length) + CRLF + body)
         == status + [13, 10] + (name + [58, 32]) + option + [13, 10] + (field + [58, 32]) + length + [13, 10, 13, 10] + body
  {
  }

  /** The literals of the response, cut where the code cuts them. */
  lemma {:induction false} NamesText()
    ensures Ascii("Connection: ") == Ascii("Connection") + [58, 32]
    ensures Ascii("Content-Length: ") == Ascii("Content-Length") + [58, 32]
    ensures Ascii("Transfer-Encoding: chunked") == Ascii("Transfer-Encoding") + [58, 32] + Ascii("chunked")
    ensures Close == Ascii("close") && KeepAlive == Ascii("keep-alive") && ChunkedPath == Ascii("/chunked")
    ensures Chunked == Ascii("chunked")
  {
    hide Ascii;
    AsciiAppend("Connection", ": ", "Connection: ");
    AsciiAppend("Content-Length", ": ", "Content-Length: ");
    AsciiAppend("Transfer-Encoding", ": chunked", "Transfer-Encoding: chunked");
    AsciiAppend(": ", "chunked", ": chunked");
    ColonSpace();
    Associate(Ascii("Transfer-Encoding"), [58, 32], Ascii("chunked"));
  }

  lemma {:induction false} ColonSpace()
    ensures Ascii(": ") == [58, 32]
  {
  }

  predicate Complete(r: Request) {
    RequestPath(r) == Some(Ascii("/chunked")) ==> |r.body| >= 2
  }

  function AnswersOf(requests: seq<Request>): (a: seq<Answer>)
    ensures |a| == |requests|
  {
    if requests == [] then [] else [Answer(200, requests[0].body, Closes(requests[0]))] + AnswersOf(requests[1..])
  }

  /** A last chunk that no response needed is not the start of another response. */
  lemma {:induction false} LeftoverIsNoResponse(path: seq<byte>, body: seq<byte>, after: seq<byte>)
    requires path == ChunkedPath && |body| < 2
    ensures ReadAll(AfterResponse(path, body) + after) == None
  {
    hide ReadAll, Numeral;
    LastChunk();
    var s := AfterResponse(path, body) + after;
    assert s[..3] == [48, CR, LF];
    NotAResponse(s);
  }

  lemma {:induction false} LastChunk()
    ensures Chunk([]) == [48, CR, LF, CR, LF]
  {
    assert Numeral(0, 16) == [48];
  }

  lemma {:induction false} NotAResponse(s: seq<byte>)
    requires |s| >= 3 && s[..3] == [48, CR, LF]
    ensures ReadAll(s) == None
  {
    hide ReadFields, LineLength;
    assert s == [48, CR] + [LF] + s[3..];
    LineLengthOf([48, CR], s[3..]);
    assert s[..3] == [48, CR] + [LF];
  }

  lemma {:induction false} ReadsOne(r: Request, after: seq<byte>)
    requires WellFormed(r)
    ensures var more := ReadAll(after);
            ReadAll(AnswerTo(r) + after)
              == if Complete(r) && more.Some? then Some([Answer(200, r.body, Closes(r))] + more.value) else None
  {
    hide ReadResponse, Response, Leftover, Closes, RequestPath;
    var path := RequestPath(r).value;
    ReadsResponse(path, r.body, Closes(r), after);
    if !Complete(r) {
      LeftoverIsNoResponse(path, r.body, after);
    } else {
      LeftoverOf(path, r.body);
      assert AfterResponse(path, r.body) + after == after;
    }
    ReadAllStep(AnswerTo(r) + after);
  }

  lemma {:induction false} LeftoverOf(path: seq<byte>, body: seq<byte>)
    requires path == ChunkedPath ==> |body| >= 2
    ensures AfterResponse(path, body) == []
  {
  }

  lemma {:induction false} ReadAllStep(s: seq<byte>)
    requires ReadResponse(s).Some?
    ensures ReadAll(s)
         == var r := ReadResponse(s).value;
            var more := ReadAll(r.1);
            if more.None? then None else Some([r.0] + more.value)
  {
  }

  lemma {:induction false} ReadsResponses(requests: seq<Request>)
    requires forall k | 0 <= k < |requests| :: WellFormed(requests[k])
    ensures ReadAll(Responses(requests))
         == if forall k | 0 <= k < |requests| :: Complete(requests[k]) then Some(AnswersOf(requests)) else None
  {
    hide ReadAll, WellFormed, AnswerTo, Complete;
    if requests == [] {
      ReadAllEmpty();
    } else {
      ReadsOne(requests[0], Responses(requests[1..]));
      ReadsResponses(requests[1..]);
      assert forall k | 1 <= k < |requests| :: requests[k] == requests[1..][k - 1];
    }
  }

  lemma {:induction false} ReadAllEmpty()
    ensures ReadAll([]) == Some([])
  {
  }

  /** MAIN RESULT for both sides. A client that writes any sequence of well-formed requests and reads
      what comes back gets, in order, one response of status 200 for each request up to the first that
      closes, with that request's own body; and it gets them exactly when every `/chunked` request among these has
      at least two bytes of body. */
  lemma {:induction false} Conversation(requests: seq<Request>, race: nat -> bool)
    requires forall k | 0 <= k < |requests| :: WellFormed(requests[k])
    ensures var answered := requests[..Answered(requests)];
            ReadAll(ServeAll(EncodeAll(requests), race))
              == if forall k | 0 <= k < |answered| :: Complete(answered[k]) then Some(AnswersOf(answered)) else None
  {
    hide WellFormed, ReadAll, ServeAll, AnswerTo, Complete, EncodeAll, Answered, AnyCloses;
    ServesInOrder(requests, [], race);
    assert EncodeAll(requests) + [] == EncodeAll(requests);
    ServesNothing(race);
    var answered := requests[..Answered(requests)];
    assert Responses(answered) + [] == Responses(answered);
    ReadsResponses(answered);
  }

  lemma {:induction false} ServesNothing(race: nat -> bool)
    ensures ServeAll([], race) == []
  {
  }

  // ---------------------------------------------------------------- an ordinary client's requests

  /** `POST <path> HTTP/1.1` with a Content-Length and, to close, a Connection field. */
  function Post(path: seq<byte>, body: seq<byte>, close: bool): Request {
    Request(Ascii("POST") + [SPACE] + path + [SPACE] + Ascii("HTTP/1.1"),
            [Field(Ascii("Content-Length"), [SPACE] + Numeral(|body|, 10))]
              + (if close then [Field(Ascii("Connection"), Ascii(" close"))] else []),
            body)
  }

  /** Such requests are well-formed, and say what they are meant to say. */
  lemma {:induction false} PostIsWellFormed(path: seq<byte>, body: seq<byte>, close: bool)
    requires SPACE !in path && LF !in path && path != Ascii("/silent") && path != Ascii("/race")
    requires |body| <= 65536
    ensures WellFormed(Post(path, body, close))
    ensures RequestPath(Post(path, body, close)) == Some(path)
    ensures Closes(Post(path, body, close)) == close
  {
    hide Numeral, Lower, Strip, LowerText, PathOf, PyInt;
    PostPath(path);
    PostFields(body, close);
    PyIntOfNumeral(|body|);
    var r := Post(path, body, close);
    assert LF !in r.line by { PostLine(path); }
    assert forall k | 0 <= k < |r.fields| :: ValidField(r.fields[k]) by { PostFieldsAreValid(body, close); }
  }

  lemma {:induction false} PostPath(path: seq<byte>)
    requires SPACE !in path
    ensures PathOf(Ascii("POST") + [SPACE] + path + [SPACE] + Ascii("HTTP/1.1") + CRLF) == Some(path)
  {
    var after := path + [SPACE] + (Ascii("HTTP/1.1") + CRLF);
    var first := Ascii("POST") + [SPACE] + path + [SPACE] + Ascii("HTTP/1.1") + CRLF;
    assert first == Ascii("POST") + [SPACE] + after;
    IndexOfIs(Ascii("POST"), SPACE, after);
    assert first[5..] == after;
    IndexOfIs(path, SPACE, Ascii("HTTP/1.1") + CRLF);
    assert after[..|path|] == path;
  }

  lemma {:induction false} PostLine(path: seq<byte>)
    requires LF !in path
    ensures LF !in Ascii("POST") + [SPACE] + path + [SPACE] + Ascii("HTTP/1.1")
  {
    assert LF !in Ascii("POST") && LF !in Ascii("HTTP/1.1");
  }

  lemma {:induction false} PostFields(body: seq<byte>, close: bool)
    ensures var fields := FieldsOf(Post([], body, close));
            && Get(fields, Ascii("content-length"), Ascii("0")) == Numeral(|body|, 10)
            && (Says(fields, "connection", "close") <==> close)
  {
    hide Numeral, Lower, Strip, LowerText;
    NameLiterals();
    ValueLiterals();
    NumeralIsLowerText(|body|);
    FieldValue(Numeral(|body|, 10));
    FieldValue(Close);
    var f := Field(Ascii("Content-Length"), [SPACE] + Numeral(|body|, 10));
    var g := Field(Ascii("Connection"), [SPACE] + Close);
    assert g.value == Ascii(" close");
    assert |Connection| == 10 && |ContentLength| == 14;
    if close {
      TwoFields(f, g);
      assert [f] + [g] == [f, g];
    } else {
      assert [f] + [] == [f] && [f][1..] == [];
      assert Collect([f], map[]) == Collect([], map[Lower(f.name) := Lower(Strip(f.value + CRLF))]);
    }
  }

  lemma {:induction false} PostFieldsAreValid(body: seq<byte>, close: bool)
    ensures forall k | 0 <= k < |Post([], body, close).fields| :: ValidField(Post([], body, close).fields[k])
  {
    hide Numeral;
    SeparatorFreeLiterals();
    NumeralIsLowerText(|body|);
    ValueLiterals();
  }
}
