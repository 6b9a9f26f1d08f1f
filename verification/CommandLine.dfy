/** The launcher's argument quoting (windows-test-job.cpp, `quote` and the join in `wmain`),
    against an independent reading of Microsoft's "Parsing C command-line arguments" rules. */
module CommandLine {
  import opened Bytes

  type Text = seq<wide>

  predicate NulFree(s: Text) {
    forall k | 0 <= k < |s| :: s[k] != NUL
  }

  predicate Separates(c: wide) {
    c == SPACE || c == TAB
  }

  function Slashes(n: nat): (s: Text)
    ensures |s| == n
    ensures forall k | 0 <= k < n :: s[k] == BACKSLASH
  {
    seq(n, _ => BACKSLASH)
  }

  // ---------------------------------------------------------------- the printer

  /** What `quote` still has to append for `argument` when `slashes` backslashes are pending. */
  function QuotedRest(argument: Text, slashes: nat): Text {
    if argument == [] then Slashes(2 * slashes) + [QUOTE]
    else if argument[0] == BACKSLASH then QuotedRest(argument[1..], slashes + 1)
    else
      Slashes(if argument[0] == QUOTE then 2 * slashes + 1 else slashes)
      + [argument[0]]
      + QuotedRest(argument[1..], 0)
  }

  function Quoted(argument: Text): Text {
    [QUOTE] + QuotedRest(argument, 0)
  }

  function JoinedRest(arguments: seq<Text>): Text {
    if arguments == [] then [] else [SPACE] + Quoted(arguments[0]) + JoinedRest(arguments[1..])
  }

  /** The command line handed to `CreateProcessW`. */
  function Joined(arguments: seq<Text>): Text {
    if arguments == [] then [] else Quoted(arguments[0]) + JoinedRest(arguments[1..])
  }

  method Append(output: Text, n: nat, c: wide) returns (grown: Text)
    ensures |grown| == |output| + n && grown[..|output|] == output
    ensures forall k | |output| <= k < |grown| :: grown[k] == c
  {
    grown := output + seq(n, _ => c);
  }

  method Quote(argument: Text) returns (output: Text)
    ensures output == Quoted(argument)
  {
    output := [QUOTE];
    var slashes := 0;
    for i := 0 to |argument|
      invariant output + QuotedRest(argument[i..], slashes) == Quoted(argument)
    {
      var c := argument[i];
      assert argument[i..][0] == c && argument[i..][1..] == argument[i + 1..];
      if c == BACKSLASH {
        slashes := slashes + 1;
        continue;
      }
      ghost var before := output;
      var run := if c == QUOTE then slashes * 2 + 1 else slashes;
      output := Append(output, run, BACKSLASH);
      assert output == before + Slashes(run);
      Associate(before, Slashes(run) + [c], QuotedRest(argument[i + 1..], 0));
      assert output + [c] == before + (Slashes(run) + [c]);
      output := output + [c];
      slashes := 0;
    }
    ghost var before := output;
    output := Append(output, slashes * 2, BACKSLASH);
    assert output == before + Slashes(2 * slashes);
    output := output + [QUOTE];
  }

  method Join(argv: seq<Text>) returns (command: Text)
    requires |argv| >= 1
    ensures command == Joined(argv[1..])
  {
    hide Quoted, Joined, JoinedRest;
    command := [];
    JoinedNone();
    assert argv[1..1] == [];
    for i := 1 to |argv|
      invariant command == Joined(argv[1..i])
    {
      if i != 1 {
        command := command + [SPACE];
      }
      var quoted := Quote(argv[i]);
      JoinedSnoc(argv[1..i], argv[i]);
      Associate(Joined(argv[1..i]), [SPACE], quoted);
      assert argv[1..i] + [argv[i]] == argv[1..i + 1];
      assert i == 1 ==> command == [] && command + quoted == quoted;
      command := command + quoted;
    }
    assert argv[1..|argv|] == argv[1..];
  }

  lemma JoinedNone()
    ensures Joined([]) == []
  {
  }

  /** One more argument is one space and its quoted text. */
  lemma {:induction false} JoinedSnoc(front: seq<Text>, last: Text)
    ensures Joined(front + [last]) == if front == [] then Quoted(last) else Joined(front) + ([32] + Quoted(last))
  {
    if front == [] {
      assert front + [last] == [last];
      JoinedHead([], last);
    } else {
      var tail := front[1..];
      assert front + [last] == [front[0]] + (tail + [last]) && front == [front[0]] + tail;
      JoinedHead(tail + [last], front[0]);
      JoinedHead(tail, front[0]);
      JoinedRestSnoc(tail, last);
      Associate(Quoted(front[0]), JoinedRest(tail), [SPACE] + Quoted(last));
    }
  }

  lemma JoinedHead(tail: seq<Text>, first: Text)
    ensures Joined([first] + tail) == Quoted(first) + JoinedRest(tail)
  {
    assert ([first] + tail)[1..] == tail;
  }

  lemma JoinedRestHead(tail: seq<Text>, first: Text)
    ensures JoinedRest([first] + tail) == [SPACE] + Quoted(first) + JoinedRest(tail)
  {
    assert ([first] + tail)[1..] == tail;
  }

  lemma {:induction false} JoinedRestSnoc(front: seq<Text>, last: Text)
    ensures JoinedRest(front + [last]) == JoinedRest(front) + ([SPACE] + Quoted(last))
  {
    if front == [] {
      assert front + [last] == [last] + [];
      JoinedRestHead([], last);
    } else {
      var tail := front[1..];
      assert front + [last] == [front[0]] + (tail + [last]) && front == [front[0]] + tail;
      JoinedRestHead(tail + [last], front[0]);
      JoinedRestHead(tail, front[0]);
      JoinedRestSnoc(tail, last);
      Associate([SPACE] + Quoted(front[0]), JoinedRest(tail), [SPACE] + Quoted(last));
    }
  }

  // ---------------------------------------------------------------- the C runtime's parser

  /** How many backslashes `line` starts with. */
  function LeadingSlashes(line: Text): (n: nat)
    ensures n <= |line|
    ensures forall k | 0 <= k < n :: line[k] == BACKSLASH
    ensures n < |line| ==> line[n] != BACKSLASH
  {
    if line == [] || line[0] != BACKSLASH then 0 else 1 + LeadingSlashes(line[1..])
  }

  predicate AtEnd(line: Text) {
    line == [] || line[0] == NUL
  }

  /** Read the rest of one argument: backslashes are literal unless a double quote follows; then
      each pair stands for one, and an odd one makes the quote literal. An unescaped quote opens or
      closes a quoted part, in which a doubled quote stands for one and blanks do not separate. */
  function ScanArgument(line: Text, inQuotes: bool, got: Text): (r: (Text, Text))
    ensures |r.1| <= |line|
    ensures line != [] && !AtEnd(line) && !Separates(line[0]) ==> |r.1| < |line|
    ensures r.1 != [] ==> r.1[0] == NUL || Separates(r.1[0])
    decreases |line|
  {
    var n := LeadingSlashes(line);
    var p := line[n..];
    if p != [] && p[0] == QUOTE then
      if n % 2 == 1 then ScanArgument(p[1..], inQuotes, got + Slashes(n / 2) + [QUOTE])
      else if inQuotes && |p| > 1 && p[1] == QUOTE then
        ScanArgument(p[2..], inQuotes, got + Slashes(n / 2) + [QUOTE])
      else ScanArgument(p[1..], !inQuotes, got + Slashes(n / 2))
    else if AtEnd(p) || (!inQuotes && Separates(p[0])) then (got + Slashes(n), p)
    else ScanArgument(p[1..], inQuotes, got + Slashes(n) + [p[0]])
  }

  function ParseArguments(line: Text): seq<Text>
    decreases |line|
  {
    if AtEnd(line) then []
    else if Separates(line[0]) then ParseArguments(line[1..])
    else
      var (argument, rest) := ScanArgument(line, false, []);
      [argument] + ParseArguments(rest)
  }

  /** The program name has its own rule: quotes only switch the mode, backslashes are ordinary. */
  function ScanProgram(line: Text, inQuotes: bool, got: Text): (Text, Text)
    decreases |line|
  {
    if AtEnd(line) || (!inQuotes && Separates(line[0])) then (got, line)
    else if line[0] == QUOTE then ScanProgram(line[1..], !inQuotes, got)
    else ScanProgram(line[1..], inQuotes, got + [line[0]])
  }

  /** argv as `main` receives it. */
  function ParseCommandLine(line: Text): seq<Text> {
    var (program, rest) := ScanProgram(line, false, []);
    [program] + ParseArguments(rest)
  }

  // ---------------------------------------------------------------- the round trip

  predicate Delimited(rest: Text) {
    rest == [] || Separates(rest[0])
  }

  lemma {:induction false} LeadingSlashesOf(n: nat, rest: Text)
    requires rest == [] || rest[0] != BACKSLASH
    ensures LeadingSlashes(Slashes(n) + rest) == n && (Slashes(n) + rest)[n..] == rest
  {
    if n == 0 {
      assert Slashes(0) + rest == rest;
    } else {
      LeadingSlashesOf(n - 1, rest);
      assert (Slashes(n) + rest)[1..] == Slashes(n - 1) + rest;
    }
  }

  /** One step of the scanner, with the run of backslashes already counted. */
  lemma {:induction false} ScanStep(n: nat, p: Text, inQuotes: bool, got: Text)
    requires p == [] || p[0] != BACKSLASH
    ensures ScanArgument(Slashes(n) + p, inQuotes, got)
         == if p != [] && p[0] == QUOTE then
              if n % 2 == 1 then ScanArgument(p[1..], inQuotes, got + Slashes(n / 2) + [QUOTE])
              else if inQuotes && |p| > 1 && p[1] == QUOTE then
                ScanArgument(p[2..], inQuotes, got + Slashes(n / 2) + [QUOTE])
              else ScanArgument(p[1..], !inQuotes, got + Slashes(n / 2))
            else if AtEnd(p) || (!inQuotes && Separates(p[0])) then (got + Slashes(n), p)
            else ScanArgument(p[1..], inQuotes, got + Slashes(n) + [p[0]])
  {
    LeadingSlashesOf(n, p);
  }

  /** An odd run before a quote: the quote is literal. */
  lemma {:induction false} ScanEscapedQuote(k: nat, tail: Text, inQuotes: bool, got: Text)
    ensures ScanArgument(Slashes(2 * k + 1) + ([QUOTE] + tail), inQuotes, got)
         == ScanArgument(tail, inQuotes, got + Slashes(k) + [QUOTE])
  {
    var n := 2 * k + 1;
    assert n % 2 == 1 && n / 2 == k;
    ScanStep(n, [QUOTE] + tail, inQuotes, got);
    assert ([QUOTE] + tail)[1..] == tail;
  }

  /** An even run before a quote: the quote switches the mode, unless it is doubled inside quotes. */
  lemma {:induction false} ScanBareQuote(k: nat, tail: Text, inQuotes: bool, got: Text)
    requires inQuotes ==> tail == [] || tail[0] != QUOTE
    ensures ScanArgument(Slashes(2 * k) + ([QUOTE] + tail), inQuotes, got)
         == ScanArgument(tail, !inQuotes, got + Slashes(k))
  {
    var n := 2 * k;
    assert n % 2 == 0 && n / 2 == k;
    ScanStep(n, [QUOTE] + tail, inQuotes, got);
    assert ([QUOTE] + tail)[1..] == tail;
  }

  lemma {:induction false} ScanPlain(n: nat, c: wide, tail: Text, got: Text)
    requires c != QUOTE && c != BACKSLASH && c != NUL
    ensures ScanArgument(Slashes(n) + ([c] + tail), true, got)
         == ScanArgument(tail, true, got + Slashes(n) + [c])
  {
    ScanStep(n, [c] + tail, true, got);
    assert ([c] + tail)[1..] == tail;
  }

  lemma {:induction false} ScanEnd(rest: Text, got: Text)
    requires Delimited(rest)
    ensures ScanArgument(rest, false, got) == (got, rest)
  {
    ScanStep(0, rest, false, got);
    assert Slashes(0) + rest == rest && got + Slashes(0) == got;
  }

  lemma {:induction false} ScanClosing(slashes: nat, rest: Text, got: Text)
    requires Delimited(rest)
    ensures ScanArgument(QuotedRest([], slashes) + rest, true, got) == (got + Slashes(slashes), rest)
  {
    assert QuotedRest([], slashes) + rest == Slashes(2 * slashes) + ([QUOTE] + rest);
    ScanBareQuote(slashes, rest, true, got);
    ScanEnd(rest, got + Slashes(slashes));
  }

  lemma {:induction false} ScanCharacter(c: wide, tail: Text, slashes: nat, rest: Text, got: Text)
    requires c != BACKSLASH && c != NUL
    ensures ScanArgument(QuotedRest([c] + tail, slashes) + rest, true, got)
         == ScanArgument(QuotedRest(tail, 0) + rest, true, got + Slashes(slashes) + [c])
  {
    var after := QuotedRest(tail, 0) + rest;
    assert ([c] + tail)[1..] == tail;
    var n := if c == QUOTE then 2 * slashes + 1 else slashes;
    assert QuotedRest([c] + tail, slashes) + rest == Slashes(n) + ([c] + after);
    if c == QUOTE {
      ScanEscapedQuote(slashes, after, true, got);
    } else {
      ScanPlain(slashes, c, after, got);
    }
  }

  /** Inside quotes, the scanner undoes the printer from any point of the argument on. */
  lemma {:induction false} ScanUndoesQuote(argument: Text, slashes: nat, rest: Text, got: Text)
    requires NulFree(argument) && Delimited(rest)
    ensures ScanArgument(QuotedRest(argument, slashes) + rest, true, got)
         == (got + (Slashes(slashes) + argument), rest)
    decreases argument
  {
    hide ScanArgument, Delimited;
    if argument == [] {
      ScanClosing(slashes, rest, got);
      assert Slashes(slashes) + argument == Slashes(slashes);
    } else {
      var c, tail := argument[0], argument[1..];
      assert argument == [c] + tail;
      if c == BACKSLASH {
        ScanUndoesQuote(tail, slashes + 1, rest, got);
        assert Slashes(slashes + 1) + tail == Slashes(slashes) + argument;
      } else {
        ScanCharacter(c, tail, slashes, rest, got);
        ScanUndoesQuote(tail, 0, rest, got + Slashes(slashes) + [c]);
        assert got + Slashes(slashes) + [c] + (Slashes(0) + tail) == got + (Slashes(slashes) + argument);
      }
    }
  }

  lemma {:induction false} ParseUndoesJoin(arguments: seq<Text>)
    requires forall a | a in arguments :: NulFree(a)
    ensures ParseArguments(JoinedRest(arguments)) == arguments
  {
    if arguments != [] {
      var rest := JoinedRest(arguments[1..]);
      ParseQuoted(arguments[0], rest);
      assert JoinedRest(arguments) == [SPACE] + (Quoted(arguments[0]) + rest);
      assert JoinedRest(arguments)[1..] == Quoted(arguments[0]) + rest;
      ParseUndoesJoin(arguments[1..]);
    }
  }

  lemma {:induction false} ParseQuoted(argument: Text, rest: Text)
    requires NulFree(argument) && Delimited(rest)
    ensures ParseArguments(Quoted(argument) + rest) == [argument] + ParseArguments(rest)
  {
    ScanQuoted(argument, rest);
    assert (Quoted(argument) + rest)[0] == QUOTE;
  }

  lemma {:induction false} ScanQuoted(argument: Text, rest: Text)
    requires NulFree(argument) && Delimited(rest)
    ensures ScanArgument(Quoted(argument) + rest, false, []) == (argument, rest)
  {
    var inside := QuotedRest(argument, 0) + rest;
    Associate([QUOTE], QuotedRest(argument, 0), rest);
    ScanOpening(inside);
    ScanUndoesQuote(argument, 0, rest, []);
    assert [] + (Slashes(0) + argument) == argument;
  }

  lemma {:induction false} ScanOpening(inside: Text)
    ensures ScanArgument([QUOTE] + inside, false, []) == ScanArgument(inside, true, [])
  {
    var p := [QUOTE] + inside;
    assert Slashes(0) + p == p;
    assert p[1..] == inside;
    assert [] + Slashes(0) == [];
    ScanStep(0, p, false, []);
  }

  /** The printed text itself: every argument stands in double quotes, a run of backslashes before a
      double quote is doubled and gets one more, one at the end is doubled, and nothing else changes. */
  lemma {:induction false} QuotedText(front: Text, n: nat, rest: Text, c: wide)
    requires 34 !in front && 92 !in front && c != 34 && c != 92
    ensures Quoted(front) == [34] + front + [34]
    ensures QuotedRest(Slashes(n) + [34] + rest, 0) == Slashes(2 * n + 1) + [34] + QuotedRest(rest, 0)
    ensures QuotedRest(Slashes(n) + [c] + rest, 0) == Slashes(n) + [c] + QuotedRest(rest, 0)
    ensures QuotedRest(Slashes(n), 0) == Slashes(2 * n) + [34]
  {
    QuotedFront(front, []);
    assert front + [] == front && Slashes(0) == [];
    QuotedRun(n, [34] + rest, 0);
    QuotedRun(n, [c] + rest, 0);
    QuotedRun(n, [], 0);
    Associate(Slashes(n), [34], rest);
    Associate(Slashes(n), [c], rest);
    assert ([34] + rest)[1..] == rest && ([c] + rest)[1..] == rest;
    assert Slashes(n) + [] == Slashes(n);
    assert QuotedRest([], 0) == [34];
    Associate([34], front, [34]);
  }

  lemma {:induction false} QuotedRun(n: nat, rest: Text, slashes: nat)
    ensures QuotedRest(Slashes(n) + rest, slashes) == QuotedRest(rest, slashes + n)
    decreases n
  {
    if n == 0 {
      assert Slashes(0) + rest == rest;
    } else {
      var all := Slashes(n) + rest;
      assert all[0] == BACKSLASH && all[1..] == Slashes(n - 1) + rest;
      QuotedRun(n - 1, rest, slashes + 1);
    }
  }

  lemma {:induction false} QuotedFront(front: Text, rest: Text)
    requires 34 !in front && 92 !in front
    ensures QuotedRest(front + rest, 0) == front + QuotedRest(rest, 0)
    decreases front
  {
    if front == [] {
      assert front + rest == rest;
    } else {
      assert (front + rest)[1..] == front[1..] + rest;
      QuotedFront(front[1..], rest);
      assert Slashes(0) == [];
      assert [front[0]] + (front[1..] + QuotedRest(rest, 0)) == front + QuotedRest(rest, 0);
    }
  }

  /** How many backslashes `s` ends with. */
  function TrailingSlashes(s: Text): (n: nat)
    ensures n <= |s|
  {
    if s == [] || s[|s| - 1] != BACKSLASH then 0 else 1 + TrailingSlashes(s[..|s| - 1])
  }

  /** Without a double quote in it, `quote` changes an argument only by doubling the final run. */
  lemma {:induction false} QuotedPlain(argument: Text, slashes: nat)
    requires QUOTE !in argument
    ensures var whole := Slashes(slashes) + argument;
            QuotedRest(argument, slashes) == whole + Slashes(TrailingSlashes(whole)) + [QUOTE]
    decreases argument, 1
  {
    hide TrailingSlashes;
    if argument == [] {
      TrailingOfSlashes([], slashes);
      assert Slashes(slashes) + argument == [] + Slashes(slashes);
      assert Slashes(2 * slashes) == Slashes(slashes) + Slashes(slashes);
    } else if argument[0] == BACKSLASH {
      QuotedPlain(argument[1..], slashes + 1);
      assert Slashes(slashes + 1) + argument[1..] == Slashes(slashes) + argument;
    } else {
      QuotedPlainCharacter(argument, slashes);
    }
  }

  lemma {:induction false} QuotedPlainCharacter(argument: Text, slashes: nat)
    requires QUOTE !in argument && argument != [] && argument[0] != BACKSLASH
    ensures var whole := Slashes(slashes) + argument;
            QuotedRest(argument, slashes) == whole + Slashes(TrailingSlashes(whole)) + [QUOTE]
    decreases argument, 0
  {
    hide TrailingSlashes;
    var c, tail := [argument[0]], argument[1..];
    QuotedPlain(tail, 0);
    assert Slashes(0) + tail == tail;
    var front := Slashes(slashes) + c;
    assert front + tail == Slashes(slashes) + argument;
    TrailingOfSuffix(front, tail);
    var end := Slashes(TrailingSlashes(tail)) + [QUOTE];
    assert QuotedRest(tail, 0) == tail + end;
    Associate(front, tail, end);
  }

  lemma {:induction false} TrailingOfSlashes(front: Text, n: nat)
    requires front == [] || front[|front| - 1] != BACKSLASH
    ensures TrailingSlashes(front + Slashes(n)) == n
  {
    if n > 0 {
      TrailingOfSlashes(front, n - 1);
      assert (front + Slashes(n))[..|front| + n - 1] == front + Slashes(n - 1);
    } else {
      assert front + Slashes(0) == front;
    }
  }

  lemma {:induction false} TrailingOfSuffix(front: Text, s: Text)
    requires front != [] && front[|front| - 1] != BACKSLASH
    ensures TrailingSlashes(front + s) == TrailingSlashes(s)
  {
    if s == [] {
      assert front + s == front;
    } else {
      TrailingOfSuffix(front, s[..|s| - 1]);
      assert (front + s)[..|front + s| - 1] == front + s[..|s| - 1];
    }
  }

  lemma {:induction false} ScanProgramQuoted(name: Text, rest: Text, got: Text)
    requires NulFree(name) && QUOTE !in name && Delimited(rest)
    ensures ScanProgram(name + [QUOTE] + rest, true, got) == (got + name, rest)
    decreases name
  {
    var line := name + [QUOTE] + rest;
    if name == [] {
      assert line[1..] == rest;
      assert got + name == got;
    } else {
      assert line[1..] == name[1..] + [QUOTE] + rest;
      ScanProgramQuoted(name[1..], rest, got + [name[0]]);
      assert got + [name[0]] + name[1..] == got + name;
    }
  }

  /** MAIN RESULT. For a program name that can be a Windows file name (no double quote), every
      argument after it comes back exactly, whatever quotes, blanks and backslashes it holds; and
      the name itself comes back exactly when it does not end in a backslash. */
  lemma {:induction false} CommandLineRoundTrip(program: Text, arguments: seq<Text>)
    requires NulFree(program) && QUOTE !in program
    requires forall a | a in arguments :: NulFree(a)
    ensures |ParseCommandLine(Joined([program] + arguments))| == 1 + |arguments|
    ensures ParseCommandLine(Joined([program] + arguments))[1..] == arguments
    ensures ParseCommandLine(Joined([program] + arguments))[0]
         == program + Slashes(TrailingSlashes(program))
    ensures ParseCommandLine(Joined([program] + arguments)) == [program] + arguments
       <==> program == [] || program[|program| - 1] != BACKSLASH
  {
    var all := [program] + arguments;
    assert all[0] == program && all[1..] == arguments;
    var rest := JoinedRest(arguments);
    QuotedPlain(program, 0);
    assert Slashes(0) + program == program;
    var name := program + Slashes(TrailingSlashes(program));
    assert Joined(all) == [QUOTE] + (name + [QUOTE] + rest);
    assert Joined(all)[1..] == name + [QUOTE] + rest;
    ScanProgramQuoted(name, rest, []);
    assert [] + name == name;
    ParseUndoesJoin(arguments);
    var parsed := ParseCommandLine(Joined(all));
    assert parsed == [name] + arguments;
    assert name == program <==> TrailingSlashes(program) == 0 by {
      assert |name| == |program| + TrailingSlashes(program);
      if TrailingSlashes(program) == 0 { assert name == program; }
    }
    assert parsed[0] == name && parsed[1..] == arguments;
    if name == program { assert parsed == all; } else { assert parsed[0] != all[0]; }
  }

  /** No two argument lists share a command line, even when a program name holds quotes. */
  lemma {:induction false} JoinIsInjective(a: seq<Text>, b: seq<Text>)
    requires forall x | x in a :: NulFree(x)
    requires forall x | x in b :: NulFree(x)
    requires Joined(a) == Joined(b)
    ensures a == b
  {
    JoinedRestOf(a);
    JoinedRestOf(b);
    ParseUndoesJoin(a);
    ParseUndoesJoin(b);
  }

  lemma {:induction false} JoinedRestOf(a: seq<Text>)
    ensures JoinedRest(a) == if a == [] then [] else [SPACE] + Joined(a)
    ensures Joined(a) == [] <==> a == []
  {
    if a != [] {
      Associate([SPACE], Quoted(a[0]), JoinedRest(a[1..]));
    }
  }

  /** Exactly when the whole argument list comes back, program name included: the C runtime's rule
      for the name knows no escapes, so a quote in it is lost and a final backslash stays doubled. */
  lemma {:induction false} WholeListComesBack(program: Text, arguments: seq<Text>)
    requires NulFree(program)
    requires forall a | a in arguments :: NulFree(a)
    ensures ParseCommandLine(Joined([program] + arguments)) == [program] + arguments
       <==> QUOTE !in program && (program == [] || program[|program| - 1] != BACKSLASH)
  {
    if QUOTE !in program {
      CommandLineRoundTrip(program, arguments);
    } else {
      var line := Joined([program] + arguments);
      ProgramHasNoQuote(line, false, []);
      assert ParseCommandLine(line)[0] == ScanProgram(line, false, []).0;
      assert ([program] + arguments)[0] == program;
    }
  }

  lemma {:induction false} ProgramHasNoQuote(line: Text, inQuotes: bool, got: Text)
    requires QUOTE !in got
    ensures QUOTE !in ScanProgram(line, inQuotes, got).0
    decreases |line|
  {
    if !(AtEnd(line) || (!inQuotes && Separates(line[0]))) {
      ProgramHasNoQuote(line[1..], if line[0] == QUOTE then !inQuotes else inQuotes,
                        if line[0] == QUOTE then got else got + [line[0]]);
    }
  }

  lemma {:induction false} JoinedIsNulFree(arguments: seq<Text>)
    requires forall a | a in arguments :: NulFree(a)
    ensures NulFree(Joined(arguments)) && NulFree(JoinedRest(arguments))
  {
    if arguments != [] {
      QuotedIsNulFree(arguments[0], 0);
      JoinedIsNulFree(arguments[1..]);
    }
  }

  lemma {:induction false} QuotedIsNulFree(argument: Text, slashes: nat)
    requires NulFree(argument)
    ensures NulFree(QuotedRest(argument, slashes))
    decreases argument
  {
    if argument != [] {
      QuotedIsNulFree(argument[1..], slashes + 1);
      QuotedIsNulFree(argument[1..], 0);
    }
  }
}
