/** The receipt-memoised runner of freeze-rc11.py (`run`), over any history of crashes. A run can stop
    before the command, after it, or in the middle of writing the receipt; the next one starts from
    what is on disk. */
module FreezeRunner {
  import opened Bytes

  type Name = seq<byte>

  /** A recorded execution; the standard error text plays no part in `run`. */
  datatype Receipt = Receipt(argv: seq<seq<byte>>, cwd: seq<byte>, exitCode: int, stdout: seq<byte>)

  /** A receipt file: whole, or cut short by a crash and then not the JSON of any receipt. */
  datatype File = Whole(receipt: Receipt) | Torn

  type Disk = map<Name, File>

  datatype Command = Command(name: Name, argv: seq<seq<byte>>, cwd: seq<byte>)

  /** How the command itself ends: with an exit code and output, or with the timeout or a failure to
      start, which raise before anything is recorded. */
  datatype Execution = Exits(exitCode: int, stdout: seq<byte>) | Raises

  /** Where the script is stopped during this call, if at all. */
  datatype Crash = NoCrash | BeforeCommand | AfterCommand | InReceipt

  datatype Error = NotJson | Mismatch | CommandFailed | CommandRaised | Stopped

  /** One execution: the command and how it ended. */
  datatype Ran = Ran(c: Command, e: Execution)

  /** Disk, executions so far, and those of them that left no receipt. */
  datatype State = State(disk: Disk, executed: seq<Ran>, lost: seq<Ran>)

  // ---------------------------------------------------------------- one call

  /** What a call returns from a receipt that is already there. */
  function Replay(f: File, c: Command): Result<seq<byte>, Error> {
    match f
    case Torn => Failure(NotJson)
    case Whole(saved) =>
      if saved.argv == c.argv && saved.cwd == c.cwd && saved.exitCode == 0 then Success(Strip(saved.stdout))
      else Failure(Mismatch)
  }

  function Called(s: State, c: Command, e: Execution, crash: Crash): (State, Result<seq<byte>, Error>) {
    if c.name in s.disk then (s, if crash == BeforeCommand then Failure(Stopped) else Replay(s.disk[c.name], c))
    else if crash == BeforeCommand then (s, Failure(Stopped))
    else
      var ran := s.(executed := s.executed + [Ran(c, e)]);
      match e
      case Raises => (ran.(lost := s.lost + [Ran(c, e)]), Failure(CommandRaised))
      case Exits(code, stdout) =>
        var receipt := Receipt(c.argv, c.cwd, code, stdout);
        match crash
        case AfterCommand => (ran.(lost := s.lost + [Ran(c, e)]), Failure(Stopped))
        case InReceipt => (ran.(disk := s.disk[c.name := Torn]), Failure(Stopped))
        case _ =>
          (ran.(disk := s.disk[c.name := Whole(receipt)]),
           if code != 0 then Failure(CommandFailed) else Success(Strip(stdout)))
  }

  /** The directory of receipts and the processes it has seen. */
  class Runner {
    var s: State

    constructor ()
      ensures s == State(map[], [], [])
    {
      s := State(map[], [], []);
    }

    method Execute(c: Command, e: Execution)
      modifies this
      ensures s == old(s).(executed := old(s).executed + [Ran(c, e)])
    {
      s := s.(executed := s.executed + [Ran(c, e)]);
    }

    /** `open('x')` and the write; a crash in it leaves a torn file. */
    method Record(c: Command, receipt: Receipt, torn: bool)
      requires c.name !in s.disk
      modifies this
      ensures s == old(s).(disk := old(s).disk[c.name := if torn then Torn else Whole(receipt)])
    {
      s := s.(disk := s.disk[c.name := if torn then Torn else Whole(receipt)]);
    }

    /** `run(name, argv, cwd)`. */
    method Run(c: Command, e: Execution, crash: Crash) returns (r: Result<seq<byte>, Error>)
      modifies this
      ensures (s, r) == Called(old(s), c, e, crash)
    {
      if crash == BeforeCommand {
        return Failure(Stopped);
      }
      if c.name in s.disk {
        var prior := s.disk[c.name];
        if prior.Torn? {
          return Failure(NotJson);
        }
        var saved := prior.receipt;
        if !(saved.argv == c.argv && saved.cwd == c.cwd && saved.exitCode == 0) {
          return Failure(Mismatch);
        }
        return Success(Strip(saved.stdout));
      }
      Execute(c, e);
      if e.Raises? {
        s := s.(lost := s.lost + [Ran(c, e)]);
        return Failure(CommandRaised);
      }
      if crash == AfterCommand {
        s := s.(lost := s.lost + [Ran(c, e)]);
        return Failure(Stopped);
      }
      Record(c, Receipt(c.argv, c.cwd, e.exitCode, e.stdout), crash == InReceipt);
      if crash == InReceipt {
        return Failure(Stopped);
      }
      if e.exitCode != 0 {
        return Failure(CommandFailed);
      }
      return Success(Strip(e.stdout));
    }
  }

  // ---------------------------------------------------------------- histories

  /** One call in a history: what is asked and what happens. */
  datatype Call = Call(c: Command, e: Execution, crash: Crash)

  function After(s: State, calls: seq<Call>): State
    decreases calls
  {
    if calls == [] then s else After(Called(s, calls[0].c, calls[0].e, calls[0].crash).0, calls[1..])
  }

  function CountOf(list: seq<Ran>, name: Name): nat {
    if list == [] then 0 else CountOf(list[..|list| - 1], name) + (if list[|list| - 1].c.name == name then 1 else 0)
  }

  /** The later state has all receipts of the earlier one, unchanged. */
  predicate Keeps(before: Disk, after: Disk) {
    forall n | n in before :: n in after && after[n] == before[n]
  }

  lemma {:induction false} CountMore(list: seq<Ran>, r: Ran, name: Name)
    ensures CountOf(list + [r], name) == CountOf(list, name) + (if r.c.name == name then 1 else 0)
  {
    assert (list + [r])[..|list|] == list;
  }

  /** One call: it writes only an absent receipt, executes only without one, and accounts for it. */
  lemma {:induction false} CallKeeps(s: State, c: Command, e: Execution, crash: Crash, name: Name)
    ensures var t := Called(s, c, e, crash).0;
            && Keeps(s.disk, t.disk)
            && (name in s.disk ==> CountOf(t.executed, name) == CountOf(s.executed, name))
            && CountOf(t.executed, name) + CountOf(s.lost, name) + (if name in s.disk then 1 else 0)
            == CountOf(s.executed, name) + CountOf(t.lost, name) + (if name in t.disk then 1 else 0)
  {
    hide CountOf, Replay, Keeps;
    CallKeepsReceipts(s, c, e, crash);
    CountMore(s.executed, Ran(c, e), name);
    CountMore(s.lost, Ran(c, e), name);
  }

  lemma {:induction false} CallKeepsReceipts(s: State, c: Command, e: Execution, crash: Crash)
    ensures Keeps(s.disk, Called(s, c, e, crash).0.disk)
  {
    hide Replay;
  }

  /** MAIN RESULT. Over any history of calls, crashes and failures: no receipt is changed or removed,
      and a command whose receipt exists is never executed again. */
  lemma {:induction false} ReceiptsAreFinal(s: State, calls: seq<Call>, name: Name)
    ensures Keeps(s.disk, After(s, calls).disk)
    ensures name in s.disk ==> CountOf(After(s, calls).executed, name) == CountOf(s.executed, name)
    decreases calls
  {
    hide Called;
    if calls != [] {
      CallKeeps(s, calls[0].c, calls[0].e, calls[0].crash, name);
      ReceiptsAreFinal(Called(s, calls[0].c, calls[0].e, calls[0].crash).0, calls[1..], name);
    }
  }

  const Fresh: State := State(map[], [], [])

  /** Conservation: a name has been executed once for its receipt, if it has one, and once for each
      execution that a crash or an exception kept from being recorded; there is no other execution. */
  lemma {:induction false} ExecutionsAreAccounted(s: State, calls: seq<Call>, name: Name)
    requires CountOf(s.executed, name) == CountOf(s.lost, name) + (if name in s.disk then 1 else 0)
    ensures var t := After(s, calls);
            CountOf(t.executed, name) == CountOf(t.lost, name) + (if name in t.disk then 1 else 0)
    decreases calls
  {
    hide Called;
    if calls != [] {
      CallKeeps(s, calls[0].c, calls[0].e, calls[0].crash, name);
      ExecutionsAreAccounted(Called(s, calls[0].c, calls[0].e, calls[0].crash).0, calls[1..], name);
    }
  }

  /** Without an exception or a crash between command and receipt, a name is executed at most once. */
  lemma {:induction false} AtMostOnce(calls: seq<Call>, name: Name)
    requires After(Fresh, calls).lost == []
    ensures CountOf(After(Fresh, calls).executed, name) <= 1
  {
    ExecutionsAreAccounted(Fresh, calls, name);
  }

  /** What a success means: the receipt is on disk, it is of this very command, and its output is what
      was returned; and once that is so, every later call that is not stopped returns the same. */
  lemma {:induction false} SuccessIsRecorded(s: State, c: Command, e: Execution, crash: Crash, v: seq<byte>)
    requires Called(s, c, e, crash).1 == Success(v)
    ensures var t := Called(s, c, e, crash).0;
            c.name in t.disk && Replay(t.disk[c.name], c) == Success(v)
  {
  }

  /** A name whose receipt exists has one answer for ever, by the receipt alone: its output for the
      recorded command with exit code 0, and a refusal for changed arguments, a changed directory, a
      recorded failure or a torn file. */
  lemma {:induction false} AnswerIsFixed(s: State, calls: seq<Call>, c: Command, e: Execution, crash: Crash)
    requires c.name in s.disk && crash != BeforeCommand
    ensures Called(After(s, calls), c, e, crash) == (After(s, calls), Replay(s.disk[c.name], c))
    ensures Replay(s.disk[c.name], c).Success?
       <==> exists stdout :: s.disk[c.name] == Whole(Receipt(c.argv, c.cwd, 0, stdout))
    ensures forall stdout :: s.disk[c.name] == Whole(Receipt(c.argv, c.cwd, 0, stdout)) ==>
              Replay(s.disk[c.name], c) == Success(Strip(stdout))
  {
    hide After;
    ReceiptsAreFinal(s, calls, c.name);
    var f := s.disk[c.name];
    if Replay(f, c).Success? {
      assert f == Whole(Receipt(c.argv, c.cwd, 0, f.receipt.stdout));
    }
  }

  // ---------------------------------------------------------------- what a receipt says

  /** Every whole receipt is of an execution: of that command, with its exit code and its output. */
  predicate Truthful(s: State) {
    forall n | n in s.disk && s.disk[n].Whole? ::
      var r := s.disk[n].receipt;
      Ran(Command(n, r.argv, r.cwd), Exits(r.exitCode, r.stdout)) in s.executed
  }

  lemma {:induction false} CallIsTruthful(s: State, c: Command, e: Execution, crash: Crash)
    requires Truthful(s)
    ensures Truthful(Called(s, c, e, crash).0)
  {
    hide Replay;
    assert Ran(c, e) in s.executed + [Ran(c, e)];
  }

  /** MAIN RESULT, truth. Over any history from an empty directory, whatever was stopped where, every
      whole receipt records an execution as it happened; and a call that succeeds, then or later,
      returns the output of an execution of that very command which ended with exit code 0. */
  lemma {:induction false} SuccessIsReal(calls: seq<Call>, c: Command, e: Execution, crash: Crash)
    ensures Truthful(After(Fresh, calls))
    ensures var (t, r) := Called(After(Fresh, calls), c, e, crash);
            r.Success? ==> exists out :: Ran(c, Exits(0, out)) in t.executed && r.value == Strip(out)
  {
    hide After, Strip;
    AlwaysTruthful(Fresh, calls);
    var s := After(Fresh, calls);
    CallIsTruthful(s, c, e, crash);
    var (t, r) := Called(s, c, e, crash);
    if r.Success? {
      SuccessIsRecorded(s, c, e, crash, r.value);
      var receipt := t.disk[c.name].receipt;
      assert Ran(c, Exits(0, receipt.stdout)) in t.executed;
    }
  }

  lemma {:induction false} AlwaysTruthful(s: State, calls: seq<Call>)
    requires Truthful(s)
    ensures Truthful(After(s, calls))
    decreases calls
  {
    hide Truthful, Called;
    if calls != [] {
      CallIsTruthful(s, calls[0].c, calls[0].e, calls[0].crash);
      AlwaysTruthful(Called(s, calls[0].c, calls[0].e, calls[0].crash).0, calls[1..]);
    }
  }

  /** A call for a new name that nothing stops succeeds exactly when its command exits with 0, and keeps
      what it says either way: the next call for it has the same answer, or refuses. */
  lemma {:induction false} NewNameSucceedsExactly(s: State, c: Command, e: Execution, again: Execution)
    requires c.name !in s.disk
    ensures var (t, r) := Called(s, c, e, NoCrash);
            && (r.Success? <==> e.Exits? && e.exitCode == 0)
            && (r.Success? ==> r.value == Strip(e.stdout))
            && t.executed == s.executed + [Ran(c, e)]
            && (e.Exits? ==> t.disk == s.disk[c.name := Whole(Receipt(c.argv, c.cwd, e.exitCode, e.stdout))])
            && (e.Raises? ==> t.disk == s.disk)
            && (e.Exits? ==> Called(t, c, again, NoCrash) == (t, if r.Success? then r else Failure(Mismatch)))
  {
  }

  // ---------------------------------------------------------------- a script and its resumption

  /** One pass over a script of commands: it ends at the first call that does not succeed. */
  function Session(s: State, script: seq<Command>, world: seq<(Execution, Crash)>)
    : (State, Option<seq<seq<byte>>>)
    requires |world| == |script|
    decreases script
  {
    if script == [] then (s, Some([]))
    else
      var (t, r) := Called(s, script[0], world[0].0, world[0].1);
      if r.Failure? then (t, None)
      else
        var (u, more) := Session(t, script[1..], world[1..]);
        (u, if more.None? then None else Some([r.value] + more.value))
  }

  /** The results that the receipts on `disk` fix for a script. */
  predicate Fixes(disk: Disk, script: seq<Command>, results: seq<seq<byte>>) {
    |results| == |script|
    && forall i | 0 <= i < |script| ::
         script[i].name in disk && Replay(disk[script[i].name], script[i]) == Success(results[i])
  }

  lemma {:induction false} FixesLater(before: Disk, after: Disk, script: seq<Command>, results: seq<seq<byte>>)
    requires Fixes(before, script, results) && Keeps(before, after)
    ensures Fixes(after, script, results)
  {
  }

  lemma {:induction false} FixesMore(disk: Disk, c: Command, v: seq<byte>, script: seq<Command>, results: seq<seq<byte>>)
    requires c.name in disk && Replay(disk[c.name], c) == Success(v) && Fixes(disk, script, results)
    ensures Fixes(disk, [c] + script, [v] + results)
  {
    hide Replay;
    var all, values := [c] + script, [v] + results;
    forall i | 0 <= i < |all| ensures all[i].name in disk && Replay(disk[all[i].name], all[i]) == Success(values[i]) {
      if i > 0 { assert all[i] == script[i - 1] && values[i] == results[i - 1]; }
    }
  }

  lemma {:induction false} SessionIsHistory(s: State, script: seq<Command>, world: seq<(Execution, Crash)>)
    requires |world| == |script|
    ensures Keeps(s.disk, Session(s, script, world).0.disk)
    ensures Session(s, script, world).1.Some? ==>
              Fixes(Session(s, script, world).0.disk, script, Session(s, script, world).1.value)
    decreases script
  {
    hide Replay;
    if script != [] {
      var c, e, crash := script[0], world[0].0, world[0].1;
      var (t, r) := Called(s, c, e, crash);
      CallKeeps(s, c, e, crash, c.name);
      if r.Success? {
        SuccessIsRecorded(s, c, e, crash, r.value);
        SessionIsHistory(t, script[1..], world[1..]);
        var (u, more) := Session(t, script[1..], world[1..]);
        if more.Some? {
          assert [c] + script[1..] == script;
          FixesMore(u.disk, c, r.value, script[1..], more.value);
        }
      }
    }
  }

  /** MAIN RESULT, resumption. Two passes over the same script that both come to the end, with any
      calls, crashes and failed passes before and between them, return the same results, whatever the
      commands would have answered the second time. */
  lemma {:induction false} ResumedPassesAgree(
    s: State, script: seq<Command>, first: seq<(Execution, Crash)>, between: seq<Call>, second: seq<(Execution, Crash)>)
    requires |first| == |second| == |script|
    requires Session(s, script, first).1.Some?
    requires Session(After(Session(s, script, first).0, between), script, second).1.Some?
    ensures Session(After(Session(s, script, first).0, between), script, second).1 == Session(s, script, first).1
  {
    hide Session, Replay, After;
    var (t, r) := Session(s, script, first);
    var u := After(t, between);
    var (v, q) := Session(u, script, second);
    SessionIsHistory(s, script, first);
    ReceiptsAreFinal(t, between, []);
    SessionIsHistory(u, script, second);
    FixesLater(t.disk, u.disk, script, r.value);
    FixesLater(u.disk, v.disk, script, r.value);
    FixesOnce(v.disk, script, r.value, q.value);
  }

  lemma {:induction false} FixesOnce(disk: Disk, script: seq<Command>, a: seq<seq<byte>>, b: seq<seq<byte>>)
    requires Fixes(disk, script, a) && Fixes(disk, script, b)
    ensures a == b
  {
    hide Replay;
    assert forall i | 0 <= i < |script| :: Success(a[i]) == Replay(disk[script[i].name], script[i]) == Success(b[i]);
  }
}
