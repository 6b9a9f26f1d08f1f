/** The script-driven peer of tools/check-trace-capture.py (`serve` in `run_case`): which client
    inputs it finishes on cleanly. What a packet's JSON says is given by `kind`. */
module TraceAcceptor {
  import opened Bytes

  /** What `json.loads` and the assertions make of a packet: the register request of the case, the
      fixed await or cancel request, another JSON document, or no JSON at all. */
  datatype Kind = Register | Await | Cancel | Other | NotJson

  type Reply = seq<byte>

  /** The scripted replies, `None` for the one that closes instead, and whether a cancel follows. */
  datatype Script = Script(replies: seq<Option<Reply>>, cancellation: bool)

  const MAXLINE: nat := 65537

  /** How much `stream.readline(65537)` takes. */
  function Taken(s: seq<byte>): (n: nat)
    ensures n <= |s|
    ensures s != [] ==> n > 0
  {
    Min(LineLength(s), MAXLINE)
  }

  /** A packet ends at its first line feed, after 65537 bytes, or with the stream. */
  lemma {:induction false} TakenIs(s: seq<byte>)
    ensures var n := Taken(s);
            && n <= 65537 && 10 !in s[..if n > 0 then n - 1 else 0]
            && (n < |s| ==> n == 65537 || (n > 0 && s[n - 1] == 10))
  {
    var n, m := Taken(s), LineLength(s);
    assert n > 0 ==> s[..m - 1][..n - 1] == s[..n - 1];
  }

  // ---------------------------------------------------------------- the session

  /** What a session that ran without a failed assertion leaves: the requests it recorded, the
      replies it sent, the bytes it did not read. */
  datatype Session = Session(requests: seq<seq<byte>>, sent: seq<Reply>, rest: seq<byte>)

  function Expected(index: nat): Kind {
    if index == 0 then Register else Await
  }

  /** The reply loop from `index` on, after `done`. */
  function Replies(script: Script, index: nat, done: Session, kind: seq<byte> -> Kind): Option<Session>
    decreases |script.replies| - index
  {
    if index >= |script.replies| then Some(done)
    else
      var n := Taken(done.rest);
      var packet := done.rest[..n];
      if packet == [] || kind(packet) != Expected(index) then None
      else
        var next := Session(done.requests + [packet], done.sent, done.rest[n..]);
        match script.replies[index]
        case None => Some(next)
        case Some(reply) => Replies(script, index + 1, next.(sent := done.sent + [reply + [LF]]), kind)
  }

  /** The whole session: the replies, the cancel request, and then no byte at all. */
  function Run(script: Script, s: seq<byte>, kind: seq<byte> -> Kind): Option<Session> {
    Finish(script, Replies(script, 0, Session([], [], s), kind), kind)
  }

  function Finish(script: Script, done: Option<Session>, kind: seq<byte> -> Kind): Option<Session> {
    if done.None? then None
    else
      var cancelled := if script.cancellation then CancelStep(done.value, kind) else done;
      if cancelled.None? || cancelled.value.rest != [] then None else cancelled
  }

  function CancelStep(done: Session, kind: seq<byte> -> Kind): Option<Session> {
    var n := Taken(done.rest);
    if kind(done.rest[..n]) != Cancel then None
    else Some(Session(done.requests + [done.rest[..n]], done.sent, done.rest[n..]))
  }

  /** The case passes: no failure, and as many requests as the script has turns. */
  predicate Passes(script: Script, s: seq<byte>, kind: seq<byte> -> Kind) {
    var session := Run(script, s, kind);
    session.Some? && |session.value.requests| == |script.replies| + (if script.cancellation then 1 else 0)
  }

  /** `serve`, with its stream and its lists; a failure is recorded instead of raised. */
  method Serve(script: Script, input: seq<byte>, kind: seq<byte> -> Kind)
    returns (failed: bool, requests: seq<seq<byte>>, sent: seq<Reply>)
    ensures failed == Run(script, input, kind).None?
    ensures !failed ==> Run(script, input, kind) == Some(Session(requests, sent, []))
    ensures Passes(script, input, kind)
       <==> !failed && |requests| == |script.replies| + (if script.cancellation then 1 else 0)
  {
    hide Taken, Expected;
    var stream := input;
    requests, sent := [], [];
    var index := 0;
    while index < |script.replies|
      invariant Replies(script, 0, Session([], [], input), kind)
             == Replies(script, index, Session(requests, sent, stream), kind)
      decreases |script.replies| - index
    {
      var n := Taken(stream);
      var packet := stream[..n];
      stream := stream[n..];
      if packet == [] || kind(packet) != Expected(index) {
        return true, requests, sent;
      }
      requests := requests + [packet];
      if script.replies[index].None? {
        index := |script.replies|;
        break;
      }
      sent := sent + [script.replies[index].value + [LF]];
      index := index + 1;
    }
    assert Replies(script, 0, Session([], [], input), kind) == Some(Session(requests, sent, stream));
    if script.cancellation {
      var n := Taken(stream);
      var packet := stream[..n];
      stream := stream[n..];
      if kind(packet) != Cancel {
        return true, requests, sent;
      }
      requests := requests + [packet];
    }
    failed := stream != [];
  }

  // ---------------------------------------------------------------- what it accepts

  /** The client's input as `readline` cuts it: lines, or pieces of `MAXLINE` bytes. */
  function Packets(s: seq<byte>): seq<seq<byte>> {
    if s == [] then [] else [s[..Taken(s)]] + Packets(s[Taken(s)..])
  }

  /** The kinds of the packets of a stream, in order. */
  function Kinds(s: seq<byte>, kind: seq<byte> -> Kind): seq<Kind> {
    if s == [] then [] else [kind(s[..Taken(s)])] + Kinds(s[Taken(s)..], kind)
  }

  /** The turns from `index` on: a request for each reply, then the cancel if there is one. */
  function Turns(script: Script, index: nat): seq<Kind>
    decreases |script.replies| - index
  {
    if index >= |script.replies| then if script.cancellation then [Cancel] else []
    else [if index == 0 then Register else Await] + Turns(script, index + 1)
  }

  /** Only the last reply may be the one that closes instead. */
  predicate ClosesOnlyLast(script: Script, from: nat) {
    forall i | from <= i < |script.replies| - 1 :: script.replies[i].Some?
  }

  lemma {:induction false} FinishAccepts(script: Script, done: Session, kind: seq<byte> -> Kind)
    requires kind([]) == NotJson
    ensures Finish(script, Some(done), kind).Some?
       <==> Kinds(done.rest, kind) == if script.cancellation then [Cancel] else []
    ensures Finish(script, Some(done), kind).Some? ==>
              |Finish(script, Some(done), kind).value.requests| == |done.requests| + (if script.cancellation then 1 else 0)
  {
    var s := done.rest;
    if s != [] {
      var after := s[Taken(s)..];
      assert Kinds(s, kind) == [kind(s[..Taken(s)])] + Kinds(after, kind);
      assert Kinds(after, kind) == [] <==> after == [];
      assert ([kind(s[..Taken(s)])] + Kinds(after, kind))[0] == kind(s[..Taken(s)]);
    }
  }

  lemma {:induction false} KindsHead(s: seq<byte>, kind: seq<byte> -> Kind, k: Kind, turns: seq<Kind>)
    ensures Kinds(s, kind) == [k] + turns
       <==> s != [] && kind(s[..Taken(s)]) == k && Kinds(s[Taken(s)..], kind) == turns
  {
    if s != [] {
      var kinds := Kinds(s, kind);
      assert kinds[1..] == Kinds(s[Taken(s)..], kind) && ([k] + turns)[1..] == turns;
      assert kinds[0] == kind(s[..Taken(s)]) && ([k] + turns)[0] == k;
    }
  }

  /** The session that stands at `index` ends cleanly with a request for each turn that is left. */
  predicate EndsWell(script: Script, index: nat, done: Session, kind: seq<byte> -> Kind)
    requires index <= |script.replies|
  {
    var r := Finish(script, Replies(script, index, done, kind), kind);
    r.Some? && |r.value.requests|
      == |done.requests| + (|script.replies| - index) + (if script.cancellation then 1 else 0)
  }

  lemma {:induction false} RepliesAccept(script: Script, index: nat, done: Session, kind: seq<byte> -> Kind)
    requires kind([]) == NotJson && index <= |script.replies|
    ensures EndsWell(script, index, done, kind)
       <==> ClosesOnlyLast(script, index) && Kinds(done.rest, kind) == Turns(script, index)
    decreases |script.replies| - index
  {
    hide Kinds, Taken, Finish;
    if index == |script.replies| {
      FinishAccepts(script, done, kind);
    } else {
      var n := Taken(done.rest);
      KindsHead(done.rest, kind, Expected(index), Turns(script, index + 1));
      if done.rest != [] && kind(done.rest[..n]) == Expected(index) {
        var next := Session(done.requests + [done.rest[..n]], done.sent, done.rest[n..]);
        NotEmptyTaken(done.rest);
        match script.replies[index]
        case None =>
          FinishAccepts(script, next, kind);
          if index + 1 == |script.replies| {
            assert Turns(script, index + 1) == if script.cancellation then [Cancel] else [];
          }
        case Some(reply) =>
          RepliesAccept(script, index + 1, next.(sent := done.sent + [reply + [LF]]), kind);
          assert ClosesOnlyLast(script, index) == ClosesOnlyLast(script, index + 1);
      } else {
        FailsHere(script, index, done, kind);
      }
    }
  }

  lemma {:induction false} NotEmptyTaken(s: seq<byte>)
    requires s != []
    ensures Taken(s) > 0 && s[..Taken(s)] != []
  {
  }

  lemma {:induction false} FailsHere(script: Script, index: nat, done: Session, kind: seq<byte> -> Kind)
    requires index < |script.replies|
    requires done.rest == [] || kind(done.rest[..Taken(done.rest)]) != Expected(index)
    ensures !EndsWell(script, index, done, kind)
  {
    assert done.rest == [] ==> done.rest[..Taken(done.rest)] == [];
  }

  /** MAIN RESULT. For every script, the case passes exactly when the client's whole input is, packet
      by packet, the register request, one fixed await for each further reply and one cancel if
      scripted, with nothing after; and a script that closes before its last reply never passes. */
  lemma {:induction false} PassesExactly(script: Script, s: seq<byte>, kind: seq<byte> -> Kind)
    requires kind([]) == NotJson
    ensures Passes(script, s, kind)
       <==> ClosesOnlyLast(script, 0) && Kinds(s, kind) == Turns(script, 0)
  {
    hide Replies, Kinds, Turns;
    RepliesAccept(script, 0, Session([], [], s), kind);
  }

  /** The replies that a session has sent by the time it stands at `index`: those of the script, each
      with a line feed, but for one that closes. */
  predicate SentUpTo(script: Script, index: nat, sent: seq<Reply>) {
    && |sent| <= index <= |script.replies|
    && (forall i | 0 <= i < |sent| :: script.replies[i].Some? && sent[i] == script.replies[i].value + [10])
    && (|sent| < index ==> index == |sent| + 1 && script.replies[|sent|] == None)
  }

  lemma {:induction false} RepliesSend(script: Script, index: nat, done: Session, kind: seq<byte> -> Kind, s: seq<byte>)
    requires SentUpTo(script, index, done.sent) && |done.sent| == index
    requires Joined(done.requests) + done.rest == s
    ensures var r := Replies(script, index, done, kind);
            r.Some? ==>
              && Joined(r.value.requests) + r.value.rest == s
              && exists stop :: SentUpTo(script, stop, r.value.sent)
                   && (stop == |script.replies| || (stop > 0 && script.replies[stop - 1] == None))
    decreases |script.replies| - index
  {
    if index == |script.replies| {
      assert SentUpTo(script, index, done.sent);
    } else {
      var n := Taken(done.rest);
      var next := Session(done.requests + [done.rest[..n]], done.sent, done.rest[n..]);
      JoinedMore(done.requests, done.rest, n);
      match script.replies[index]
      case None => assert SentUpTo(script, index + 1, next.sent);
      case Some(reply) => RepliesSend(script, index + 1, next.(sent := done.sent + [reply + [LF]]), kind, s);
    }
  }

  lemma {:induction false} JoinedMore(requests: seq<seq<byte>>, rest: seq<byte>, n: nat)
    requires n <= |rest|
    ensures Joined(requests + [rest[..n]]) + rest[n..] == Joined(requests) + rest
  {
    if requests == [] {
      assert Joined([] + [rest[..n]]) == rest[..n] + Joined([]);
      assert rest[..n] + rest[n..] == rest;
      assert [rest[..n]][1..] == [];
    } else {
      JoinedMore(requests[1..], rest, n);
      assert (requests + [rest[..n]])[1..] == requests[1..] + [rest[..n]];
      Associate(requests[0], Joined(requests[1..] + [rest[..n]]), rest[n..]);
      Associate(requests[0], Joined(requests[1..]), rest);
    }
  }

  /** What a session that passes has exchanged: all the scripted replies went out in order, but for a
      last one that closes instead, and the recorded requests are the whole input. */
  lemma {:induction false} PassingExchange(script: Script, s: seq<byte>, kind: seq<byte> -> Kind)
    requires kind([]) == NotJson && Passes(script, s, kind)
    ensures var session := Run(script, s, kind).value;
            && SentUpTo(script, |script.replies|, session.sent)
            && Joined(session.requests) == s
  {
    hide Replies, Kinds, Turns, Taken;
    var start := Session([], [], s);
    assert Joined([]) + s == s;
    RepliesSend(script, 0, start, kind, s);
    PassesExactly(script, s, kind);
    var replied := Replies(script, 0, start, kind).value;
    var session := Run(script, s, kind).value;
    if script.cancellation {
      JoinedMore(replied.requests, replied.rest, Taken(replied.rest));
    }
    assert Joined(session.requests) + [] == Joined(session.requests);
  }

  /** The packets are the input: no byte of it is skipped or read twice. */
  lemma {:induction false} PacketsAreTheInput(s: seq<byte>, kind: seq<byte> -> Kind)
    ensures Joined(Packets(s)) == s
    ensures |Kinds(s, kind)| == |Packets(s)|
    ensures forall i | 0 <= i < |Packets(s)| :: Kinds(s, kind)[i] == kind(Packets(s)[i])
  {
    hide LineLength;
    if s != [] {
      var n := Taken(s);
      PacketsAreTheInput(s[n..], kind);
      assert s[..n] + s[n..] == s;
      assert Packets(s)[1..] == Packets(s[n..]);
    }
  }

  function Joined(packets: seq<seq<byte>>): seq<byte> {
    if packets == [] then [] else packets[0] + Joined(packets[1..])
  }
}
