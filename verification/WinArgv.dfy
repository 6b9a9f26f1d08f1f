/** `dsh_win_argv` (Ffi/socket_shim.c), its packed result, and its consumer `getArgsIO`
    (Shell/Cli.lean): one bounded in-place pass over the command line. */
module WinArgv {
  import opened Bytes
  import CommandLine

  type Token = seq<wide>

  // ---------------------------------------------------------------- the functional tokenizer

  /** What a character of the command line means once quotes are taken out. */
  datatype Item = Separator | Character(c: wide)

  predicate IsGap(c: wide) {
    c == SPACE || c == TAB
  }

  /** Quotes group and vanish; a blank separates only outside them. */
  function Items(line: seq<wide>, inQuotes: bool): seq<Item> {
    if line == [] then []
    else if line[0] == QUOTE then Items(line[1..], !inQuotes)
    else
      [if !inQuotes && IsGap(line[0]) then Separator else Character(line[0])] + Items(line[1..], inQuotes)
  }

  /** The nonempty runs of characters, the first one continuing `open`. */
  function Runs(items: seq<Item>, open: Token): seq<Token> {
    if items == [] then Closed(open)
    else match items[0]
      case Separator => Closed(open) + Runs(items[1..], [])
      case Character(c) => Runs(items[1..], open + [c])
  }

  function Closed(open: Token): seq<Token> {
    if open == [] then [] else [open]
  }

  function Tokens(line: seq<wide>): seq<Token> {
    Runs(Items(line, false), [])
  }

  /** The tokens, each followed by a NUL. */
  function Flat(tokens: seq<Token>): seq<wide> {
    if tokens == [] then [] else tokens[0] + [NUL] + Flat(tokens[1..])
  }

  lemma {:induction false} FlatAppend(a: seq<Token>, b: seq<Token>)
    ensures Flat(a + b) == Flat(a) + Flat(b)
  {
    if a == [] {
      assert a + b == b && Flat(a) + Flat(b) == Flat(b);
    } else {
      FlatAppend(a[1..], b);
      assert (a + b)[1..] == a[1..] + b;
      Associate(a[0] + [NUL], Flat(a[1..]), Flat(b));
    }
  }

  // ---------------------------------------------------------------- the packed result

  function Power2(k: nat): (p: nat)
    ensures p > 0
  {
    if k == 0 then 1 else 2 * Power2(k - 1)
  }

  /** Bitwise or. */
  function Or(a: nat, b: nat): nat
    decreases a + b
  {
    if a == 0 && b == 0 then 0
    else (if a % 2 == 1 || b % 2 == 1 then 1 else 0) + 2 * Or(a / 2, b / 2)
  }

  const TWO32: nat := 0x1_0000_0000
  const TWO64: nat := 0x1_0000_0000_0000_0000

  /** `(argc << 32) | n` in 64 bits. */
  function Pack(argc: nat, n: nat): nat {
    Or(argc * TWO32 % TWO64, n)
  }

  lemma {:induction false} OrWithZero(b: nat)
    ensures Or(0, b) == b
  {
    if b > 0 {
      OrWithZero(b / 2);
    }
  }

  function Shifted(high: nat, k: nat): nat {
    if k == 0 then high else 2 * Shifted(high, k - 1)
  }

  lemma {:induction false} OrOfDisjoint(high: nat, k: nat, low: nat)
    requires low < Power2(k)
    ensures Or(Shifted(high, k), low) == Shifted(high, k) + low
    decreases k
  {
    if k == 0 {
      OrWithZero(high);
      OrCommutes(high, 0);
    } else {
      var h := Shifted(high, k - 1);
      OrOfDisjoint(high, k - 1, low / 2);
      if 2 * h + low > 0 {
        assert (2 * h) % 2 == 0 && (2 * h) / 2 == h;
      }
    }
  }

  lemma {:induction false} ShiftedTwice(high: nat, j: nat, k: nat)
    ensures Shifted(Shifted(high, j), k) == Shifted(high, j + k)
  {
    if k > 0 {
      ShiftedTwice(high, j, k - 1);
    }
  }

  lemma {:induction false} ShiftedBy8(high: nat)
    ensures Shifted(high, 8) == 0x100 * high
  {
    assert Shifted(high, 2) == 2 * Shifted(high, 1) == 4 * high;
    assert Shifted(high, 4) == 2 * Shifted(high, 3) == 16 * high;
    assert Shifted(high, 6) == 2 * Shifted(high, 5) == 64 * high;
    assert Shifted(high, 8) == 2 * Shifted(high, 7);
  }

  lemma {:induction false} ShiftedBy32(high: nat)
    ensures Shifted(high, 32) == high * TWO32
  {
    ShiftedBy8(high);
    ShiftedBy8(0x100 * high);
    ShiftedTwice(high, 8, 8);
    ShiftedBy8(0x1_0000 * high);
    ShiftedTwice(high, 16, 8);
    ShiftedBy8(0x100_0000 * high);
    ShiftedTwice(high, 24, 8);
  }

  lemma {:induction false} OrCommutes(a: nat, b: nat)
    ensures Or(a, b) == Or(b, a)
    decreases a + b
  {
    if a > 0 || b > 0 {
      OrCommutes(a / 2, b / 2);
    }
  }

  lemma {:induction false} Power2Is32()
    ensures Power2(32) == TWO32
  {
    assert Power2(8) == 256;
    assert Power2(16) == 256 * 256 by { assert Power2(12) == 4096; }
    assert Power2(24) == 256 * 256 * 256 by { assert Power2(20) == 1048576; }
    assert Power2(28) == 268435456;
  }

  lemma {:induction false} Power2Sum(a: nat, b: nat)
    ensures Power2(a + b) == Power2(a) * Power2(b)
  {
    if a > 0 {
      Power2Sum(a - 1, b);
    }
  }

  /** The two halves that `getArgsIO` takes apart are the two that were packed exactly when each
      fits its half. */
  lemma {:induction false} PackUnpacks(argc: nat, n: nat)
    requires n < TWO64
    ensures Pack(argc, n) / 0x1_0000_0000 == argc && Pack(argc, n) % 0x1_0000_0000 == n
       <==> argc < 0x1_0000_0000 && n < 0x1_0000_0000
  {
    hide Or, Power2, Shifted;
    if argc < TWO32 && n < TWO32 {
      assert argc * TWO32 % TWO64 == argc * TWO32;
      Power2Is32();
      ShiftedBy32(argc);
      OrOfDisjoint(argc, 32, n);
    } else {
      Power2Is32();
      Power2Sum(32, 32);
      OrBound(argc * TWO32 % TWO64, n, 64);
    }
  }

  lemma {:induction false} OrBound(a: nat, b: nat, k: nat)
    requires a < Power2(k) && b < Power2(k)
    ensures Or(a, b) < Power2(k)
    decreases k
  {
    if k > 0 {
      OrBound(a / 2, b / 2, k - 1);
    }
  }

  // ---------------------------------------------------------------- dsh_win_argv

  /** How many bytes fit: the last one of `cap` is never used by the loop. */
  function Room(cap: nat): nat {
    if cap == 0 then 0 else cap - 1
  }

  lemma {:induction false} RoomIs(cap: nat)
    ensures Room(cap) == if cap == 0 then 0 else cap - 1
  {
  }

  /** `if (n + 1 < cap) out[n++] = c;` */
  method Put(out: array<byte>, cap: nat, n: nat, c: byte, ghost stream: seq<wide>) returns (n': nat)
    requires cap <= out.Length && n == Min(|stream|, Room(cap))
    requires out[..n] == stream[..n]
    modifies out
    ensures n' == Min(|stream + [c]|, Room(cap))
    ensures out[..n'] == (stream + [c])[..n']
    ensures forall k | n' <= k < out.Length :: out[k] == old(out[k])
  {
    n' := n;
    if n + 1 < cap {
      out[n] := c;
      n' := n + 1;
    }
  }

  /** The tokens still to come when the scan stands at `p` with `open` begun. */
  function Pending(line: seq<wide>, p: nat, inQuotes: bool, open: Token): seq<Token>
    requires p <= |line|
  {
    Runs(Items(line[p..], inQuotes), open)
  }

  lemma {:induction false} Advance(line: seq<wide>, p: nat, inQuotes: bool, open: Token)
    requires p < |line|
    ensures Pending(line, p, inQuotes, open)
         == if line[p] == QUOTE then Pending(line, p + 1, !inQuotes, open)
            else if !inQuotes && IsGap(line[p]) then Closed(open) + Pending(line, p + 1, inQuotes, [])
            else Pending(line, p + 1, inQuotes, open + [line[p]])
  {
    assert line[p..][0] == line[p] && line[p..][1..] == line[p + 1..];
    if line[p] != QUOTE {
      var item := if !inQuotes && IsGap(line[p]) then Separator else Character(line[p]);
      var items := Items(line[p + 1..], inQuotes);
      assert Items(line[p..], inQuotes) == [item] + items;
      assert ([item] + items)[1..] == items;
    }
  }

  /** The same with the tokens that are done in front: a separator ends the one that is open. */
  lemma {:induction false} AdvanceDone(line: seq<wide>, p: nat, inQuotes: bool, done: seq<Token>, open: Token)
    requires p < |line|
    ensures done + Pending(line, p, inQuotes, open)
         == if line[p] == QUOTE then done + Pending(line, p + 1, !inQuotes, open)
            else if !inQuotes && IsGap(line[p]) then
              (if open == [] then done else done + [open]) + Pending(line, p + 1, inQuotes, [])
            else done + Pending(line, p + 1, inQuotes, open + [line[p]])
  {
    hide Pending, IsGap;
    Advance(line, p, inQuotes, open);
    var rest := Pending(line, p + 1, inQuotes, []);
    Associate(done, [open], rest);
    assert [] + rest == rest;
  }

  lemma {:induction false} DoneAtEnd(line: seq<wide>, inQuotes: bool, done: seq<Token>, open: Token)
    ensures done + Pending(line, |line|, inQuotes, open) == if open == [] then done else done + [open]
  {
    PendingAtEnd(line, inQuotes, open);
  }

  lemma {:induction false} PendingAtStart(line: seq<wide>)
    ensures [] + Pending(line, 0, false, []) == Tokens(line)
    ensures Flat([]) + [] == []
  {
    assert line[0..] == line;
  }

  lemma {:induction false} PendingAtEnd(line: seq<wide>, inQuotes: bool, open: Token)
    ensures Pending(line, |line|, inQuotes, open) == Closed(open)
  {
  }

  /** One pass with a truncating buffer refines the tokenizer: the buffer is the first bytes of the
      NUL-terminated tokens, and every token is counted, kept or not. The last byte of the capacity
      is used for nothing but a terminator after an untruncated text. */
  method Split(line: seq<byte>, out: array<byte>, cap: nat) returns (packed: nat)
    requires NUL !in line && cap <= out.Length < TWO64
    modifies out
    ensures var stream := Flat(Tokens(line));
            var room := if cap == 0 then 0 else cap - 1;
            var n := if |stream| < room then |stream| else room;
            && packed == Pack(|Tokens(line)|, n)
            && out[..n] == stream[..n]
            && (n + 1 < cap ==> out[n] == 0)
            && forall k | (if n + 1 < cap then n + 1 else n) <= k < out.Length :: out[k] == old(out[k])
  {
    hide Items, Runs, IsGap, Or, Flat, Pending, Tokens, Pack, Room, Closed;
    RoomIs(cap);
    var n, argc, inq, started := 0, 0, false, false;
    var p := 0;
    ghost var done: seq<Token> := [];
    ghost var open: Token := [];
    ghost var stream: seq<wide> := [];
    PendingAtStart(line);
    while true
      invariant p <= |line|
      invariant started <==> open != []
      invariant done + Pending(line, p, inq, open) == Tokens(line)
      invariant argc == |done|
      invariant stream == Flat(done) + open
      invariant n == Min(|stream|, Room(cap)) && out[..n] == stream[..n]
      invariant forall k | n <= k < out.Length :: out[k] == old(out[k])
      decreases |line| - p
    {
      var c := if p == |line| then NUL else line[p];
      if p < |line| {
        AdvanceDone(line, p, inq, done, open);
      } else {
        DoneAtEnd(line, inq, done, open);
      }
      if c == QUOTE {
        inq := !inq;
        p := p + 1;
        continue;
      }
      var sep := c == NUL || (!inq && IsGap(c));
      if !sep {
        if !started {
          started := true;
        }
        n := Put(out, cap, n, c, stream);
        Associate(Flat(done), open, [c]);
        stream, open := stream + [c], open + [c];
      } else if started {
        n := Put(out, cap, n, NUL, stream);
        FlatClosed(done, open);
        stream, done, open := stream + [NUL], done + [open], [];
        assert Flat(done) + open == Flat(done);
        argc := argc + 1;
        started := false;
        if c == NUL {
          break;
        }
      } else if c == NUL {
        break;
      }
      p := p + 1;
    }
    assert done == Tokens(line) && stream == Flat(done);
    if n + 1 < cap {
      out[n] := NUL;
    }
    packed := Pack(argc, n);
  }

  lemma {:induction false} FlatClosed(done: seq<Token>, open: Token)
    ensures Flat(done + [open]) == Flat(done) + open + [NUL]
  {
    FlatAppend(done, [open]);
    assert Flat([open]) == open + [NUL] + Flat([open][1..]);
    assert Flat([open]) == open + [NUL];
  }

  // ---------------------------------------------------------------- getArgsIO

  /** The strings that `getArgsIO` collects: at most `argc`, each closed by a NUL. */
  function Collected(bytes: seq<wide>, argc: nat, open: Token): seq<Token> {
    if argc == 0 || bytes == [] then []
    else if bytes[0] == NUL then [open] + Collected(bytes[1..], argc - 1, [])
    else Collected(bytes[1..], argc, open + [bytes[0]])
  }

  /** Never more than `argc`, and of text with a NUL after every string exactly the first `argc`. */
  lemma {:induction false} CollectsAtMost(tokens: seq<Token>, argc: nat)
    requires forall i | 0 <= i < |tokens| :: 0 !in tokens[i]
    ensures Collected(Flat(tokens), argc, []) == if argc < |tokens| then tokens[..argc] else tokens
    decreases tokens
  {
    if tokens != [] && argc > 0 {
      CollectedToken(tokens[0], Flat(tokens[1..]), argc, []);
      assert [] + tokens[0] == tokens[0];
      CollectsAtMost(tokens[1..], argc - 1);
      assert [tokens[0]] + tokens[1..] == tokens;
    }
  }

  /** How many leading tokens fit whole, terminator included, in `k` bytes. */
  function Whole(tokens: seq<Token>, k: nat): (w: nat)
    ensures w <= |tokens|
    ensures w == |tokens| <==> |Flat(tokens)| <= k
  {
    if tokens == [] then 0
    else if |tokens[0]| + 1 > k then 0
    else 1 + Whole(tokens[1..], k - |tokens[0]| - 1)
  }

  function Drop1(list: seq<Token>): seq<Token> {
    if list == [] then [] else list[1..]
  }

  /** The arguments that the command line `line` delivers to the program. */
  function Received(line: seq<wide>): seq<Token> {
    Drop1(Tokens(line)[..Whole(Tokens(line), Room(8191))])
  }

  /** The program gets every token but the first, up to the last that fits whole in 8190 bytes with
      those before it; each takes its length and one byte more. */
  lemma {:induction false} ReceivedExactly(line: seq<wide>) returns (w: nat)
    ensures w <= |Tokens(line)|
    ensures Received(line) == if w == 0 then [] else Tokens(line)[1..w]
    ensures Occupied(Tokens(line)[..w]) <= 8190
    ensures w < |Tokens(line)| ==> Occupied(Tokens(line)[..w + 1]) > 8190
  {
    w := Whole(Tokens(line), Room(8191));
    WholeIsLargest(Tokens(line), Room(8191));
    assert w > 0 ==> Tokens(line)[..w][1..] == Tokens(line)[1..w];
  }

  function Occupied(tokens: seq<Token>): nat {
    if tokens == [] then 0 else |tokens[0]| + 1 + Occupied(tokens[1..])
  }

  lemma {:induction false} WholeIsLargest(tokens: seq<Token>, k: nat)
    ensures var w := Whole(tokens, k);
            Occupied(tokens[..w]) <= k && (w < |tokens| ==> Occupied(tokens[..w + 1]) > k)
    decreases tokens
  {
    if tokens != [] {
      var w := Whole(tokens, k);
      if |tokens[0]| + 1 > k {
        assert tokens[..1][1..] == [];
      } else {
        WholeIsLargest(tokens[1..], k - |tokens[0]| - 1);
        assert tokens[..w][1..] == tokens[1..][..w - 1];
        if w < |tokens| {
          assert tokens[..w + 1][1..] == tokens[1..][..w];
        }
      }
    }
  }

  lemma {:induction false} CollectedToken(token: Token, rest: seq<wide>, argc: nat, open: Token)
    requires NUL !in token && argc > 0
    ensures Collected(token + [NUL] + rest, argc, open) == [open + token] + Collected(rest, argc - 1, [])
    decreases token
  {
    var bytes := token + [NUL] + rest;
    if token == [] {
      assert bytes[1..] == rest;
      assert open + token == open;
    } else {
      assert bytes[1..] == token[1..] + [NUL] + rest;
      CollectedToken(token[1..], rest, argc, open + [token[0]]);
      assert open + [token[0]] + token[1..] == open + token;
    }
  }

  lemma {:induction false} CollectedOpen(bytes: seq<wide>, argc: nat, open: Token)
    requires NUL !in bytes
    ensures Collected(bytes, argc, open) == []
    decreases bytes
  {
    if argc > 0 && bytes != [] {
      CollectedOpen(bytes[1..], argc, open + [bytes[0]]);
    }
  }

  /** What is collected from a truncated buffer is a prefix of the tokens: every token that was
      written whole, and no part of the one that was cut. */
  lemma {:induction false} CollectedPrefix(tokens: seq<Token>, k: nat)
    requires forall t | t in tokens :: NUL !in t
    requires k <= |Flat(tokens)|
    ensures Collected(Flat(tokens)[..k], |tokens|, []) == tokens[..Whole(tokens, k)]
  {
    if tokens != [] {
      var first, rest := tokens[0], Flat(tokens[1..]);
      if |first| + 1 > k {
        assert Flat(tokens)[..k] == first[..k];
        assert first in tokens;
        assert forall b | b in first[..k] :: b in first;
        CollectedOpen(first[..k], |tokens|, []);
      } else {
        var j := k - |first| - 1;
        assert Flat(tokens)[..k] == first + [NUL] + rest[..j];
        CollectedToken(first, rest[..j], |tokens|, []);
        assert [] + first == first;
        CollectedPrefix(tokens[1..], j);
        assert tokens[..Whole(tokens, k)] == [first] + tokens[1..][..Whole(tokens[1..], j)];
      }
    }
  }

  lemma {:induction false} RunsAreClean(line: seq<wide>, inQuotes: bool, open: Token)
    requires NUL !in line && NUL !in open && QUOTE !in open
    ensures |Runs(Items(line, inQuotes), open)| <= |line| + (if open == [] then 0 else 1)
    ensures forall t | t in Runs(Items(line, inQuotes), open) :: t != [] && NUL !in t && QUOTE !in t
    decreases line
  {
    if line != [] {
      assert line == [line[0]] + line[1..];
      assert line[1..][0..] == line[1..];
      Advance(line, 0, inQuotes, open);
      assert line[0..] == line;
      if line[0] == QUOTE {
        RunsAreClean(line[1..], !inQuotes, open);
      } else if !inQuotes && IsGap(line[0]) {
        RunsAreClean(line[1..], inQuotes, []);
      } else {
        RunsAreClean(line[1..], inQuotes, open + [line[0]]);
      }
    }
  }

  /** The loop that takes the strings out of the buffer. */
  method Collect(bytes: seq<byte>, argc: nat) returns (out: seq<Token>)
    ensures out == Collected(bytes, argc, [])
  {
    out := [];
    var cur: Token := [];
    var seen, i := 0, 0;
    while seen < argc && i < |bytes|
      invariant 0 <= i <= |bytes| && seen <= argc
      invariant out + Collected(bytes[i..], argc - seen, cur) == Collected(bytes, argc, [])
    {
      var c := bytes[i];
      assert bytes[i..][0] == c && bytes[i..][1..] == bytes[i + 1..];
      if c == NUL {
        Associate(out, [cur], Collected(bytes[i + 1..], argc - seen - 1, []));
        out := out + [cur];
        cur := [];
        seen := seen + 1;
      } else {
        cur := cur + [c];
      }
      i := i + 1;
    }
  }

  /** The whole path on Windows: the shim's pass into an 8192-byte buffer and the loop that takes
      the strings out again deliver `Received(line)`, for every command line. */
  method GetArgs(line: seq<byte>) returns (arguments: seq<Token>)
    requires NUL !in line && |line| < TWO32
    ensures arguments == Received(line)
  {
    var buf := new byte[8192](_ => 0);
    var r := Split(line, buf, 8191);
    ghost var tokens := Tokens(line);
    ghost var k := Min(|Flat(tokens)|, Room(8191));
    RunsAreClean(line, false, []);
    PackUnpacks(|tokens|, k);
    var argc := r / TWO32;
    var total := r % TWO32;
    var out := Collect(buf[..total], argc);
    CollectedPrefix(tokens, k);
    if |Flat(tokens)| <= Room(8191) {
      assert Whole(tokens, k) == |tokens| == Whole(tokens, Room(8191));
    }
    arguments := if |out| == 0 then [] else out[1..];
  }

  // ---------------------------------------------------------------- what a command line means

  predicate IsGapText(gap: seq<wide>) {
    forall k | 0 <= k < |gap| :: gap[k] == 32 || gap[k] == 9
  }

  /** A stretch of a word: in double quotes, where anything else may stand, or without any, where
      neither quote nor space nor tab may. */
  datatype Piece = Bare(text: Token) | InQuotes(text: Token) {
    predicate Valid() {
      match this
      case Bare(text) => forall k | 0 <= k < |text| :: text[k] != 32 && text[k] != 9 && text[k] != 34
      case InQuotes(text) => 34 !in text
    }

    function Written(): seq<wide> {
      match this
      case Bare(text) => text
      case InQuotes(text) => [34] + text + [34]
    }
  }

  /** A word with the space after it. */
  datatype Word = Word(pieces: seq<Piece>, gap: seq<wide>)

  predicate ValidWord(w: Word) {
    IsGapText(w.gap) && forall i | 0 <= i < |w.pieces| :: w.pieces[i].Valid()
  }

  function WrittenPieces(pieces: seq<Piece>): seq<wide> {
    if pieces == [] then [] else pieces[0].Written() + WrittenPieces(pieces[1..])
  }

  function Text(pieces: seq<Piece>): Token {
    if pieces == [] then [] else pieces[0].text + Text(pieces[1..])
  }

  function Written(words: seq<Word>): seq<wide> {
    if words == [] then [] else WrittenPieces(words[0].pieces) + words[0].gap + Written(words[1..])
  }

  /** The texts of the words; one that is only empty quotes is none. */
  function Texts(words: seq<Word>): seq<Token> {
    if words == [] then []
    else (if Text(words[0].pieces) == [] then [] else [Text(words[0].pieces)]) + Texts(words[1..])
  }

  lemma {:induction false} RunsOfBare(text: Token, rest: seq<wide>, open: Token)
    requires Bare(text).Valid()
    ensures Runs(Items(text + rest, false), open) == Runs(Items(rest, false), open + text)
    decreases text
  {
    var line := text + rest;
    if text == [] {
      assert line == rest && open + text == open;
    } else {
      Advance(line, 0, false, open);
      assert line[0..] == line && line[1..] == text[1..] + rest;
      RunsOfBare(text[1..], rest, open + [text[0]]);
      assert open + [text[0]] + text[1..] == open + text;
    }
  }

  lemma {:induction false} RunsOfPieces(pieces: seq<Piece>, rest: seq<wide>, open: Token)
    requires forall i | 0 <= i < |pieces| :: pieces[i].Valid()
    ensures Runs(Items(WrittenPieces(pieces) + rest, false), open) == Runs(Items(rest, false), open + Text(pieces))
    decreases pieces
  {
    if pieces == [] {
      assert WrittenPieces(pieces) + rest == rest && open + Text(pieces) == open;
    } else {
      var first, after := pieces[0], WrittenPieces(pieces[1..]) + rest;
      Associate(first.Written(), WrittenPieces(pieces[1..]), rest);
      Associate(open, first.text, Text(pieces[1..]));
      assert first.Valid();
      if first.Bare? {
        RunsOfBare(first.text, after, open);
      } else {
        RunsOfQuotes(first.text, after, open);
      }
      RunsOfPieces(pieces[1..], rest, open + first.text);
    }
  }

  lemma {:induction false} RunsOfQuotes(text: Token, rest: seq<wide>, open: Token)
    requires QUOTE !in text
    ensures Runs(Items([34] + text + [34] + rest, false), open) == Runs(Items(rest, false), open + text)
  {
    var line := [34] + text + [34] + rest;
    Advance(line, 0, false, open);
    assert line[0..] == line && line[1..] == text + [34] + rest;
    RunsInQuotes(text, rest, open);
  }

  lemma {:induction false} RunsOfGap(gap: seq<wide>, rest: seq<wide>, open: Token)
    requires IsGapText(gap)
    ensures Runs(Items(gap + rest, false), open)
         == if gap == [] then Runs(Items(rest, false), open) else Closed(open) + Runs(Items(rest, false), [])
    decreases gap
  {
    if gap == [] {
      assert gap + rest == rest;
    } else {
      var line := gap + rest;
      Advance(line, 0, false, open);
      assert line[0..] == line && line[1..] == gap[1..] + rest;
      RunsOfGap(gap[1..], rest, []);
      assert Closed([]) + Runs(Items(rest, false), []) == Runs(Items(rest, false), []);
    }
  }

  /** Closed by a gap or by the end of the line. */
  lemma {:induction false} RunsOfWords(words: seq<Word>)
    requires forall i | 0 <= i < |words| :: ValidWord(words[i]) && (i < |words| - 1 ==> words[i].gap != [])
    ensures Runs(Items(Written(words), false), []) == Texts(words)
    decreases words
  {
    if words != [] {
      hide Items, IsGapText;
      var w, rest := words[0], Written(words[1..]);
      var text := Text(w.pieces);
      assert ValidWord(w);
      assert Written(words) == WrittenPieces(w.pieces) + (w.gap + rest);
      RunsOfPieces(w.pieces, w.gap + rest, []);
      assert [] + text == text;
      RunsOfGap(w.gap, rest, text);
      RunsOfWords(words[1..]);
      if w.gap == [] {
        assert words[1..] == [] && Closed(text) + [] == Closed(text);
        EndOfItems(text);
      }
    } else {
      EndOfItems([]);
    }
  }

  lemma {:induction false} EndOfItems(open: Token)
    ensures Runs(Items([], false), open) == Closed(open)
  {
  }

  /** MAIN RESULT. Any command line of words in any mixture of bare and quoted stretches, with any
      nonempty runs of spaces and tabs between them and any before and after, has exactly the texts of
      these words as its tokens; empty ones are dropped. */
  lemma {:induction false} TokensOfWords(lead: seq<wide>, words: seq<Word>)
    requires IsGapText(lead)
    requires forall i | 0 <= i < |words| :: ValidWord(words[i]) && (i < |words| - 1 ==> words[i].gap != [])
    ensures Tokens(lead + Written(words)) == Texts(words)
  {
    hide Items, Runs, IsGapText, ValidWord;
    RunsOfGap(lead, Written(words), []);
    RunsOfWords(words);
    assert Closed([]) + Texts(words) == Texts(words);
  }

  /** A quote that is never closed reaches to the end of the line. */
  lemma {:induction false} UnclosedQuote(pieces: seq<Piece>, text: Token)
    requires (forall i | 0 <= i < |pieces| :: pieces[i].Valid()) && 34 !in text
    ensures Tokens(WrittenPieces(pieces) + ([34] + text)) == Closed(Text(pieces) + text)
  {
    RunsOfPieces(pieces, [34] + text, []);
    assert [] + Text(pieces) == Text(pieces);
    Advance([34] + text, 0, false, Text(pieces));
    assert ([34] + text)[0..] == [34] + text && ([34] + text)[1..] == text;
    RunsToEnd(text, Text(pieces));
  }

  lemma {:induction false} RunsToEnd(text: Token, open: Token)
    requires 34 !in text
    ensures Runs(Items(text, true), open) == Closed(open + text)
    decreases text
  {
    if text == [] {
      assert open + text == open;
    } else {
      Advance(text, 0, true, open);
      assert text[0..] == text;
      RunsToEnd(text[1..], open + [text[0]]);
      assert open + [text[0]] + text[1..] == open + text;
    }
  }

  /** And no token of a line without quotes holds a space or a tab. */
  lemma {:induction false} GapsSeparate(line: seq<wide>, open: Token)
    requires 34 !in line && 32 !in open && 9 !in open
    ensures forall t | t in Runs(Items(line, false), open) :: 32 !in t && 9 !in t
    decreases line
  {
    if line != [] {
      Advance(line, 0, false, open);
      assert line[0..] == line;
      GapsSeparate(line[1..], []);
      if line[0] != 32 && line[0] != 9 {
        GapsSeparate(line[1..], open + [line[0]]);
      }
    }
  }

  lemma {:induction false} UnquotedTokens(line: seq<wide>)
    requires 34 !in line
    ensures forall t | t in Tokens(line) :: t != [] && 32 !in t && 9 !in t
  {
    GapsSeparate(line, []);
    NotEmpty(Items(line, false), []);
  }

  lemma {:induction false} NotEmpty(items: seq<Item>, open: Token)
    ensures forall t | t in Runs(items, open) :: t != []
  {
    if items != [] {
      match items[0]
      case Separator => NotEmpty(items[1..], []);
      case Character(c) => NotEmpty(items[1..], open + [c]);
    }
  }

  // ---------------------------------------------------------------- against the launcher's quoting

  /** An argument that this tokenizer reads back as the launcher quotes it. */
  predicate Plain(argument: Token) {
    argument != [] && QUOTE !in argument && argument[|argument| - 1] != BACKSLASH
  }

  /** An argument without quotes reaches the tokenizer with its final backslashes doubled. */
  function Doubled(argument: Token): Token {
    argument + CommandLine.Slashes(CommandLine.TrailingSlashes(argument))
  }

  function Kept(arguments: seq<Token>): seq<Token> {
    if arguments == [] then [] else Closed(Doubled(arguments[0])) + Kept(arguments[1..])
  }

  lemma {:induction false} RunsInQuotes(text: Token, rest: seq<wide>, open: Token)
    requires QUOTE !in text
    ensures Runs(Items(text + [QUOTE] + rest, true), open) == Runs(Items(rest, false), open + text)
    decreases text
  {
    var line := text + [QUOTE] + rest;
    Advance(line, 0, true, open);
    assert line[0..] == line;
    if text == [] {
      assert line[1..] == rest;
      assert open + text == open;
    } else {
      assert line[1..] == text[1..] + [QUOTE] + rest;
      RunsInQuotes(text[1..], rest, open + [text[0]]);
      assert open + [text[0]] + text[1..] == open + text;
    }
  }

  lemma {:induction false} RunsOfQuoted(argument: Token, rest: seq<wide>)
    requires QUOTE !in argument
    ensures Runs(Items(CommandLine.Quoted(argument) + rest, false), []) == Runs(Items(rest, false), Doubled(argument))
  {
    CommandLine.QuotedPlain(argument, 0);
    assert CommandLine.Slashes(0) + argument == argument;
    var line := CommandLine.Quoted(argument) + rest;
    assert line[1..] == Doubled(argument) + [QUOTE] + rest;
    Advance(line, 0, false, []);
    assert line[0..] == line;
    RunsInQuotes(Doubled(argument), rest, []);
    assert [] + Doubled(argument) == Doubled(argument);
  }

  lemma {:induction false} RunsOfJoinedRest(arguments: seq<Token>, open: Token)
    requires forall a | a in arguments :: QUOTE !in a
    ensures Runs(Items(CommandLine.JoinedRest(arguments), false), open) == Closed(open) + Kept(arguments)
    decreases arguments
  {
    if arguments != [] {
      var line := CommandLine.JoinedRest(arguments);
      var rest := CommandLine.JoinedRest(arguments[1..]);
      Advance(line, 0, false, open);
      assert line[0..] == line && line[1..] == CommandLine.Quoted(arguments[0]) + rest;
      assert Runs(Items(line, false), open)
          == Closed(open) + Runs(Items(CommandLine.Quoted(arguments[0]) + rest, false), []);
      RunsOfQuoted(arguments[0], rest);
      RunsOfJoinedRest(arguments[1..], Doubled(arguments[0]));
    }
  }

  lemma {:induction false} KeptIsExact(arguments: seq<Token>)
    requires forall a | a in arguments :: QUOTE !in a
    ensures |Kept(arguments)| <= |arguments|
    ensures |Kept(arguments)| == |arguments| ==> [] !in arguments
    ensures Kept(arguments) == arguments <==> forall a | a in arguments :: Plain(a)
  {
    if arguments != [] {
      var first, rest := arguments[0], arguments[1..];
      KeptIsExact(rest);
      assert arguments == [first] + rest;
      DoubledIsExact(first);
      if first != [] {
        assert Kept(arguments) == [Doubled(first)] + Kept(rest);
        assert Kept(arguments) == arguments <==> Doubled(first) == first && Kept(rest) == rest by {
          assert Kept(arguments)[0] == Doubled(first) && Kept(arguments)[1..] == Kept(rest);
        }
      } else {
        assert first in arguments && !Plain(first);
        assert |Kept(arguments)| == |Kept(rest)|;
      }
    }
  }

  lemma {:induction false} DoubledIsExact(argument: Token)
    ensures Doubled(argument) == argument <==> argument == [] || argument[|argument| - 1] != BACKSLASH
    ensures Doubled(argument) == [] <==> argument == []
  {
    assert |Doubled(argument)| == |argument| + CommandLine.TrailingSlashes(argument);
  }

  lemma {:induction false} TokensOfJoined(program: Token, arguments: seq<Token>)
    requires Plain(program)
    requires forall a | a in arguments :: QUOTE !in a
    ensures Tokens(CommandLine.Joined([program] + arguments)) == [program] + Kept(arguments)
  {
    var all := [program] + arguments;
    assert all[0] == program && all[1..] == arguments;
    DoubledIsExact(program);
    RunsOfQuoted(program, CommandLine.JoinedRest(arguments));
    RunsOfJoinedRest(arguments, program);
  }

  /** Of all argument lists, exactly those of nonempty arguments without a double quote and without
      a final backslash are read back as they were given to the launcher. */
  lemma {:induction false} TokenizerInvertsQuote(program: Token, arguments: seq<Token>)
    requires Plain(program) && NUL !in program
    requires forall a | a in arguments :: NUL !in a
    ensures Tokens(CommandLine.Joined([program] + arguments)) == [program] + arguments
       <==> forall a | a in arguments :: Plain(a)
  {
    var all := [program] + arguments;
    assert all[1..] == arguments;
    if forall a | a in arguments :: QUOTE !in a {
      TokensOfJoined(program, arguments);
      KeptIsExact(arguments);
      assert Tokens(CommandLine.Joined(all))[1..] == Kept(arguments);
    } else {
      var a :| a in arguments && QUOTE in a;
      assert a in all;
      CommandLine.JoinedIsNulFree(all);
      RunsAreClean(CommandLine.Joined(all), false, []);
    }
  }

  /** MAIN RESULT. What the launcher sends is what the program gets, through the quoting, the
      tokenizer and the 8191-byte buffer, exactly when every argument is plain and all of them fit. */
  lemma {:induction false} LaunchedArgumentsArrive(program: Token, arguments: seq<Token>)
    requires Plain(program) && NUL !in program
    requires forall a | a in arguments :: NUL !in a
    ensures Received(CommandLine.Joined([program] + arguments)) == arguments
       <==> arguments == [] || ((forall a | a in arguments :: Plain(a)) && |Flat([program] + arguments)| <= 8190)
  {
    hide CommandLine.Joined, Tokens, Flat;
    var all := [program] + arguments;
    var line := CommandLine.Joined(all);
    var tokens := Tokens(line);
    var w := Whole(tokens, Room(8191));
    if forall a | a in arguments :: QUOTE !in a {
      TokensOfJoined(program, arguments);
      KeptIsExact(arguments);
      if Received(line) == arguments && arguments != [] {
        assert w == |tokens|;
        assert tokens[..w] == tokens && tokens[1..] == Kept(arguments);
      }
      if arguments == [] || (Kept(arguments) == arguments && |Flat(all)| <= 8190) {
        assert tokens == all;
        if arguments != [] { assert tokens[..w] == tokens; }
      }
    } else {
      var a :| a in arguments && QUOTE in a;
      CommandLine.JoinedIsNulFree(all);
      QuotedAreLost(line, a);
    }
  }

  /** No program ever receives an argument with a double quote in it. */
  lemma {:induction false} QuotedAreLost(line: seq<wide>, a: Token)
    requires QUOTE in a && CommandLine.NulFree(line)
    ensures a !in Received(line)
  {
    RunsAreClean(line, false, []);
    assert forall t | t in Received(line) :: t in Tokens(line);
  }
}
