/** The two send loops of the shims: `dsh_send_all` (Ffi/socket_shim.c) and `dsh_tls_write_all`
    (Ffi/tls_shim.c), over any script of what the operating system and OpenSSL answer. */
module Transfer {
  import opened Bytes

  /** The 64-bit all-ones value that both return on failure. */
  const FAILED: nat := 0xFFFF_FFFF_FFFF_FFFF

  const TWO31: nat := 0x8000_0000
  const TWO32: nat := 0x1_0000_0000

  /** What one call answers: `k` bytes taken (never more than asked), an interrupt, an error. */
  datatype Outcome = Took(k: nat) | Interrupted | Refused

  /** `Pending` is a loop that still has a call to make when the script ends. */
  datatype Reply = Returned(value: nat) | Pending

  /** What a loop leaves: its reply and how many bytes of the buffer it put on the stream. */
  datatype Progress = Progress(reply: Reply, sent: nat)

  // ---------------------------------------------------------------- dsh_send_all

  /** The loop from `off` on: partial writes advance, interrupts are retried, errors end it. */
  function SendFrom(off: nat, len: nat, script: seq<Outcome>): (p: Progress)
    requires off <= len
    ensures off <= p.sent <= len
    ensures p.reply.Returned? ==> p.reply.value == len == p.sent || (p.reply.value == FAILED && p.sent < len)
    ensures p.reply.Pending? ==> p.sent < len
    decreases |script|
  {
    if off == len then Progress(Returned(len), off)
    else if script == [] then Progress(Pending, off)
    else match script[0]
      case Took(k) => SendFrom(off + Min(k, len - off), len, script[1..])
      case Interrupted => SendFrom(off, len, script[1..])
      case Refused => Progress(Returned(FAILED), off)
  }

  function SendAll(size: nat, len: nat, script: seq<Outcome>): Progress {
    if len > size then Progress(Returned(FAILED), 0) else SendFrom(0, len, script)
  }

  // ---------------------------------------------------------------- dsh_tls_write_all

  /** The length argument of `SSL_write`, an `int`: the 64-bit remainder cut to 32 bits. */
  function ToInt32(n: nat): (i: int)
    ensures i <= n
    ensures -0x8000_0000 <= i < 0x8000_0000 && (n - i) % 0x1_0000_0000 == 0
  {
    var low := n % TWO32;
    if low < TWO31 then low else low - TWO32
  }

  /** What `SSL_write` returns for `num` bytes: it takes none when `num` is not positive. */
  function SslWrite(num: int, o: Outcome): (n: int)
    ensures n > 0 ==> n <= num
  {
    if num <= 0 || !o.Took? then -1 else Min(o.k, num)
  }

  /** No retry here: any result that is not positive ends the loop. */
  function WriteFrom(off: nat, len: nat, script: seq<Outcome>): (p: Progress)
    requires off <= len
    ensures off <= p.sent <= len
    ensures p.reply.Returned? ==> p.reply.value == len == p.sent || (p.reply.value == FAILED && p.sent < len)
    ensures p.reply.Pending? ==> p.sent < len
    decreases |script|
  {
    if off == len then Progress(Returned(len), off)
    else if script == [] then Progress(Pending, off)
    else
      var n := SslWrite(ToInt32(len - off), script[0]);
      if n <= 0 then Progress(Returned(FAILED), off) else WriteFrom(off + n, len, script[1..])
  }

  function WriteAll(size: nat, len: nat, script: seq<Outcome>): Progress {
    if len > size then Progress(Returned(FAILED), 0) else WriteFrom(0, len, script)
  }

  // ---------------------------------------------------------------- the loops

  /** The stream behind a descriptor or an SSL object, and the answers still to come. */
  class Connection {
    var stream: seq<byte>
    var script: seq<Outcome>

    constructor (answers: seq<Outcome>)
      ensures stream == [] && script == answers
    {
      stream, script := [], answers;
    }

    /** `send(fd, p + off, len - off)`. */
    method Send(data: seq<byte>) returns (n: int, interrupted: bool)
      requires script != []
      modifies this
      ensures script == old(script)[1..]
      ensures interrupted == old(script)[0].Interrupted?
      ensures n == if old(script)[0].Took? then Min(old(script)[0].k, |data|) else -1
      ensures stream == old(stream) + (if n > 0 then data[..n] else [])
    {
      var o := script[0];
      script := script[1..];
      interrupted := o.Interrupted?;
      n := if o.Took? then Min(o.k, |data|) else -1;
      stream := stream + (if n > 0 then data[..n] else []);
    }

    /** `SSL_write(s, buf + off, (int)(len - off))`. */
    method Write(data: seq<byte>, num: int) returns (n: int)
      requires script != [] && num <= |data|
      modifies this
      ensures script == old(script)[1..]
      ensures n == SslWrite(num, old(script)[0])
      ensures stream == old(stream) + (if n > 0 then data[..n] else [])
    {
      n := SslWrite(num, script[0]);
      script := script[1..];
      stream := stream + (if n > 0 then data[..n] else []);
    }

    /** `dsh_send_all`: whatever happens, what reaches the stream is a prefix of the buffer, in order
        and without repetition. */
    method DshSendAll(buf: seq<byte>, len: nat) returns (reply: Reply)
      requires len < FAILED
      modifies this
      ensures var p := SendAll(|buf|, len, old(script));
              && reply == p.reply
              && p.sent <= |buf| && stream == old(stream) + buf[..p.sent]
    {
      if len > |buf| {
        assert stream + buf[..0] == stream;
        return Returned(FAILED);
      }
      var off := 0;
      while off < len
        invariant 0 <= off <= len && stream == old(stream) + buf[..off]
        invariant SendFrom(off, len, script) == SendFrom(0, len, old(script))
        decreases |script|
      {
        if script == [] {
          return Pending;
        }
        ghost var before := stream;
        var n, interrupted := Send(buf[off..len]);
        if n < 0 {
          assert stream == before;
          if interrupted {
            continue;
          }
          return Returned(FAILED);
        }
        Extend(old(stream), buf, off, len, n);
        off := off + n;
      }
      return Returned(off);
    }

    /** `dsh_tls_write_all`. */
    method DshTlsWriteAll(buf: seq<byte>, len: nat) returns (reply: Reply)
      requires len < FAILED
      modifies this
      ensures var p := WriteAll(|buf|, len, old(script));
              && reply == p.reply
              && p.sent <= |buf| && stream == old(stream) + buf[..p.sent]
    {
      if len > |buf| {
        assert stream + buf[..0] == stream;
        return Returned(FAILED);
      }
      hide ToInt32, SslWrite;
      var off := 0;
      while off < len
        invariant 0 <= off <= len && stream == old(stream) + buf[..off]
        invariant WriteFrom(off, len, script) == WriteFrom(0, len, old(script))
        decreases |script|
      {
        if script == [] {
          return Pending;
        }
        ghost var before := stream;
        var n := Write(buf[off..len], ToInt32(len - off));
        if n <= 0 {
          assert stream == before;
          return Returned(FAILED);
        }
        Extend(old(stream), buf, off, len, n);
        off := off + n;
      }
      return Returned(off);
    }
  }

  lemma {:induction false} Extend(start: seq<byte>, buf: seq<byte>, off: nat, len: nat, n: nat)
    requires off + n <= len <= |buf|
    ensures start + buf[..off] + buf[off..len][..n] == start + buf[..off + n]
    ensures start + buf[..off] + [] == start + buf[..off]
  {
  }

  // ---------------------------------------------------------------- what the reply tells

  /** The caller's view of either loop: the reply is the length exactly when the whole prefix is on
      the stream, provided the length can be told from the failure value. */
  lemma {:induction false} ReplyTellsAll(size: nat, len: nat, script: seq<Outcome>)
    requires len < FAILED
    ensures SendAll(size, len, script).reply == Returned(len) <==> len <= size && SendAll(size, len, script).sent == len
    ensures WriteAll(size, len, script).reply == Returned(len) <==> len <= size && WriteAll(size, len, script).sent == len
    ensures forall p | p == SendAll(size, len, script) || p == WriteAll(size, len, script) ::
              && (len > size ==> p == Progress(Returned(0xFFFF_FFFF_FFFF_FFFF), 0))
              && (p.reply.Returned? ==> p.reply.value == len || p.reply.value == 0xFFFF_FFFF_FFFF_FFFF)
  {
  }

  /** Interrupts are invisible in `dsh_send_all`: a script means what it means without them. */
  function Uninterrupted(script: seq<Outcome>): (u: seq<Outcome>)
    ensures Interrupted !in u
  {
    if script == [] then []
    else (if script[0].Interrupted? then [] else [script[0]]) + Uninterrupted(script[1..])
  }

  lemma {:induction false} InterruptsAreInvisible(off: nat, len: nat, script: seq<Outcome>)
    requires off <= len
    ensures SendFrom(off, len, script) == SendFrom(off, len, Uninterrupted(script))
    decreases script
  {
    if off < len && script != [] {
      var rest := Uninterrupted(script[1..]);
      match script[0]
      case Took(k) =>
        assert Uninterrupted(script)[1..] == rest;
        InterruptsAreInvisible(off + Min(k, len - off), len, script[1..]);
      case Interrupted =>
        assert Uninterrupted(script) == rest;
        InterruptsAreInvisible(off, len, script[1..]);
      case Refused =>
    }
  }

  /** An error ends the loop where it stands, whatever would be answered after it. */
  lemma {:induction false} RefusalEnds(off: nat, len: nat, script: seq<Outcome>, rest: seq<Outcome>)
    requires off <= len
    ensures var p := SendFrom(off, len, script);
            SendFrom(off, len, script + [Refused] + rest)
              == if p.reply.Pending? then Progress(Returned(0xFFFF_FFFF_FFFF_FFFF), p.sent) else p
    decreases script
  {
    var all := script + [Refused] + rest;
    if off < len && script != [] {
      assert all[1..] == script[1..] + [Refused] + rest;
      match script[0]
      case Took(k) => RefusalEnds(off + Min(k, len - off), len, script[1..], rest);
      case Interrupted => RefusalEnds(off, len, script[1..], rest);
      case Refused =>
    }
  }

  /** For a TLS write every answer that takes nothing is an error. */
  function Strict(script: seq<Outcome>): seq<Outcome> {
    if script == [] then []
    else [if script[0].Took? && script[0].k > 0 then script[0] else Refused] + Strict(script[1..])
  }

  lemma {:induction false} TakesOrFails(n: nat, o: Outcome)
    requires 0 < n < 0x8000_0000
    ensures if o.Took? && o.k > 0 then SslWrite(ToInt32(n), o) == Min(o.k, n) else SslWrite(ToInt32(n), o) <= 0
  {
  }

  /** Below 2^31 bytes, the TLS loop is the send loop without its retries. */
  lemma {:induction false} WriteIsStrictSend(off: nat, len: nat, script: seq<Outcome>)
    requires off <= len && len - off < 0x8000_0000
    ensures WriteFrom(off, len, script) == SendFrom(off, len, Strict(script))
    decreases script
  {
    hide ToInt32, SslWrite;
    if off < len && script != [] {
      assert Strict(script)[1..] == Strict(script[1..]);
      TakesOrFails(len - off, script[0]);
      if script[0].Took? && script[0].k > 0 {
        WriteIsStrictSend(off + Min(script[0].k, len - off), len, script[1..]);
      }
    }
  }

  /** Each byte the outcomes offer is used once: without an error, `n` bytes offered in all put the
      smaller of `n` and the buffer on the stream. */
  function Offered(script: seq<Outcome>): nat {
    if script == [] then 0 else (if script[0].Took? then script[0].k else 0) + Offered(script[1..])
  }

  lemma {:induction false} SendsWhatIsOffered(off: nat, len: nat, script: seq<Outcome>)
    requires off <= len && Refused !in script
    ensures SendFrom(off, len, script).sent == Min(off + Offered(script), len)
    decreases script
  {
    if off < len && script != [] {
      assert forall o | o in script[1..] :: o in script;
      if script[0].Took? {
        SendsWhatIsOffered(off + Min(script[0].k, len - off), len, script[1..]);
      } else {
        SendsWhatIsOffered(off, len, script[1..]);
      }
    }
  }

  // ---------------------------------------------------------------- the 32-bit length of SSL_write

  /** What remains never drops from above the `int` range into it: the cut length either is refused
      or stays short of the next multiple of 2^32. */
  lemma {:induction false} TooLongNeverEnds(off: nat, len: nat, script: seq<Outcome>)
    requires off <= len && len - off >= TWO31
    ensures WriteFrom(off, len, script).reply != Returned(len) || len == FAILED
    decreases |script|
  {
    if script != [] {
      var n := SslWrite(ToInt32(len - off), script[0]);
      if n > 0 {
        TooLongNeverEnds(off + n, len, script[1..]);
      }
    }
  }

  /** MAIN RESULT for TLS. A write of `len` bytes can succeed exactly when `len` fits an `int`: then
      one answer suffices, and otherwise no script of answers, however long, lets it return `len`. */
  lemma {:induction false} TlsWriteCanSucceed(size: nat, len: nat)
    requires len <= size && len < 0xFFFF_FFFF_FFFF_FFFF
    ensures (exists script :: WriteAll(size, len, script).reply == Returned(len)) <==> len < 0x8000_0000
  {
    if len < TWO31 {
      var script := [Took(len)];
      assert len > 0 ==> SslWrite(ToInt32(len), script[0]) == len;
      assert WriteFrom(0, len, script).reply == Returned(len);
      assert WriteAll(size, len, script).reply == Returned(len);
    } else {
      forall script ensures WriteAll(size, len, script).reply != Returned(len) {
        TooLongNeverEnds(0, len, script);
      }
    }
  }
}
