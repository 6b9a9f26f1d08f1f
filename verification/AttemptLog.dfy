/** The never-retry runner of common.py (`run` and `write`): three exclusively created files per name,
    the first of them before the command is executed. Any number of processes may run at once, and any
    of them may stop anywhere. */
module AttemptLog {
  import opened Bytes

  type Name = seq<byte>

  datatype Kind = Stdout | Stderr | Record

  datatype Outcome = Exits(code: int) | Raises

  /** The log directory and every command executed under it, by name and with its outcome. */
  datatype Log = Log(files: set<(Name, Kind)>, executed: seq<(Name, Outcome)>)

  datatype Error = PreviousAttempt | FileExists | CommandRaised | CommandFailed | Stopped

  /** Where a call of `run` stands. */
  datatype Stage =
    | Start | Checked | HasStdout | HasStderr | Ran(code: int)
    | Done(result: Result<int, Error>)

  /** One step: the existence check, the two exclusive creations, the command, the record. */
  function Advance(l: Log, name: Name, at: Stage, o: Outcome, ok: set<int>): (Log, Stage) {
    match at
    case Start =>
      (l, if (name, Stdout) in l.files || (name, Stderr) in l.files || (name, Record) in l.files
          then Done(Failure(PreviousAttempt)) else Checked)
    case Checked =>
      if (name, Stdout) in l.files then (l, Done(Failure(FileExists)))
      else (l.(files := l.files + {(name, Stdout)}), HasStdout)
    case HasStdout =>
      if (name, Stderr) in l.files then (l, Done(Failure(FileExists)))
      else (l.(files := l.files + {(name, Stderr)}), HasStderr)
    case HasStderr =>
      (l.(executed := l.executed + [(name, o)]),
       if o.Raises? then Done(Failure(CommandRaised)) else Ran(o.code))
    case Ran(code) =>
      if (name, Record) in l.files then (l, Done(Failure(FileExists)))
      else (l.(files := l.files + {(name, Record)}),
            Done(if code in ok then Success(code) else Failure(CommandFailed)))
    case Done(_) => (l, at)
  }

  /** A call that is alone and stops after `steps` steps. */
  function Alone(l: Log, name: Name, at: Stage, o: Outcome, ok: set<int>, steps: nat): (Log, Stage)
    decreases steps
  {
    if steps == 0 then (l, at)
    else
      var (m, next) := Advance(l, name, at, o, ok);
      Alone(m, name, next, o, ok, steps - 1)
  }

  /** A lone call for a name without files: it leaves all three files, unless its command raised, and
      succeeds exactly when the command ends with a code it accepts. */
  lemma {:induction false} LoneCall(l: Log, name: Name, o: Outcome, ok: set<int>)
    requires forall kind :: (name, kind) !in l.files
    ensures Alone(l, name, Start, o, ok, 5)
         == (Log(l.files + {(name, Stdout), (name, Stderr)} + (if o.Exits? then {(name, Record)} else {}),
                 l.executed + [(name, o)]),
             Done(if o.Raises? then Failure(CommandRaised)
                  else if o.code in ok then Success(o.code) else Failure(CommandFailed)))
  {
    hide Advance;
    AloneStep(l, name, Start, o, ok, 5);
    LoneSteps(l, name, o, ok);
    var l1 := l.(files := l.files + {(name, Stdout)});
    var l2 := l1.(files := l1.files + {(name, Stderr)});
    var l3 := l2.(executed := l2.executed + [(name, o)]);
    AloneStep(l, name, Checked, o, ok, 4);
    AloneStep(l1, name, HasStdout, o, ok, 3);
    AloneStep(l2, name, HasStderr, o, ok, 2);
    assert l2.files == l.files + {(name, Stdout), (name, Stderr)};
    if o.Raises? {
      DoneStaysDone(l3, name, Done(Failure(CommandRaised)), o, ok, 1);
      assert l2.files + {} == l2.files;
    } else {
      AloneStep(l3, name, Ran(o.code), o, ok, 1);
    }
  }

  lemma {:induction false} LoneSteps(l: Log, name: Name, o: Outcome, ok: set<int>)
    requires forall kind :: (name, kind) !in l.files
    ensures var l1 := l.(files := l.files + {(name, Stdout)});
            var l2 := l1.(files := l1.files + {(name, Stderr)});
            var l3 := l2.(executed := l2.executed + [(name, o)]);
            && Advance(l, name, Start, o, ok) == (l, Checked)
            && Advance(l, name, Checked, o, ok) == (l1, HasStdout)
            && Advance(l1, name, HasStdout, o, ok) == (l2, HasStderr)
            && Advance(l2, name, HasStderr, o, ok) == (l3, if o.Raises? then Done(Failure(CommandRaised)) else Ran(o.code))
            && (o.Exits? ==>
                  Advance(l3, name, Ran(o.code), o, ok)
                    == (l3.(files := l3.files + {(name, Record)}),
                        Done(if o.code in ok then Success(o.code) else Failure(CommandFailed))))
  {
  }

  class Directory {
    var l: Log

    constructor (files: set<(Name, Kind)>)
      ensures l == Log(files, [])
    {
      l := Log(files, []);
    }

    /** `open('xb')`. */
    method Create(name: Name, kind: Kind) returns (created: bool)
      modifies this
      ensures created == ((name, kind) !in old(l).files)
      ensures l == if created then old(l).(files := old(l).files + {(name, kind)}) else old(l)
    {
      created := (name, kind) !in l.files;
      if created {
        l := l.(files := l.files + {(name, kind)});
      }
    }

    /** `run(name, argv)` alone, so that no creation can fail, stopped by a crash after `steps` of its five steps, or not at all. */
    method Run(name: Name, o: Outcome, ok: set<int>, steps: nat) returns (r: Result<int, Error>)
      modifies this
      ensures l == Alone(old(l), name, Start, o, ok, Min(steps, 5)).0
      ensures var at := Alone(old(l), name, Start, o, ok, Min(steps, 5)).1;
              r == if at.Done? then at.result else Failure(Stopped)
    {
      if steps == 0 { return Failure(Stopped); }
      ghost var k := Min(steps, 5);
      AloneStep(l, name, Start, o, ok, k);
      if (name, Stdout) in l.files || (name, Stderr) in l.files || (name, Record) in l.files {
        DoneStaysDone(l, name, Done(Failure(PreviousAttempt)), o, ok, k - 1);
        return Failure(PreviousAttempt);
      }
      if steps == 1 { return Failure(Stopped); }
      AloneStep(l, name, Checked, o, ok, k - 1);
      var created := Create(name, Stdout);
      if steps == 2 { return Failure(Stopped); }
      AloneStep(l, name, HasStdout, o, ok, k - 2);
      created := Create(name, Stderr);
      if steps == 3 { return Failure(Stopped); }
      AloneStep(l, name, HasStderr, o, ok, k - 3);
      l := l.(executed := l.executed + [(name, o)]);
      if o.Raises? {
        DoneStaysDone(l, name, Done(Failure(CommandRaised)), o, ok, k - 4);
        return Failure(CommandRaised);
      }
      if steps == 4 { return Failure(Stopped); }
      AloneStep(l, name, Ran(o.code), o, ok, k - 4);
      created := Create(name, Record);
      if o.code !in ok {
        return Failure(CommandFailed);
      }
      return Success(o.code);
    }
  }

  lemma {:induction false} DoneStaysDone(l: Log, name: Name, at: Stage, o: Outcome, ok: set<int>, steps: nat)
    requires at.Done?
    ensures Alone(l, name, at, o, ok, steps) == (l, at)
  {
    if steps > 0 {
      DoneStaysDone(l, name, at, o, ok, steps - 1);
    }
  }

  lemma {:induction false} AloneStep(l: Log, name: Name, at: Stage, o: Outcome, ok: set<int>, steps: nat)
    requires steps > 0
    ensures Alone(l, name, at, o, ok, steps)
         == var (m, next) := Advance(l, name, at, o, ok); Alone(m, name, next, o, ok, steps - 1)
    ensures forall m: Log, next: Stage :: Alone(m, name, next, o, ok, 0) == (m, next)
  {
  }

  // ---------------------------------------------------------------- many processes at once

  /** A process in `run`, or one that crashed or ended. */
  datatype Process = Process(name: Name, ok: set<int>, at: Stage)

  datatype System = System(l: Log, processes: seq<Process>)

  /** A new call begins, one process takes a step, or one stops for good. */
  datatype Event = Begins(name: Name, ok: set<int>) | Steps(p: nat, o: Outcome) | Stops(p: nat)

  function Happens(s: System, e: Event): System {
    match e
    case Begins(name, ok) => s.(processes := s.processes + [Process(name, ok, Start)])
    case Steps(p, o) =>
      if p >= |s.processes| then s
      else
        var k := s.processes[p];
        var (l, next) := Advance(s.l, k.name, k.at, o, k.ok);
        System(l, s.processes[p := k.(at := next)])
    case Stops(p) =>
      if p >= |s.processes| || s.processes[p].at.Done? then s
      else s.(processes := s.processes[p := s.processes[p].(at := Done(Failure(Stopped)))])
  }

  function Run(s: System, events: seq<Event>): System
    decreases events
  {
    if events == [] then s else Run(Happens(s, events[0]), events[1..])
  }

  function Executions(list: seq<(Name, Outcome)>, name: Name): nat {
    if list == [] then 0 else Executions(list[..|list| - 1], name) + (if list[|list| - 1].0 == name then 1 else 0)
  }

  /** A process that created the output file and has not executed its command yet. */
  predicate Holds(k: Process, name: Name) {
    k.name == name && (k.at.HasStdout? || k.at.HasStderr?)
  }

  function Holders(processes: seq<Process>, name: Name): nat {
    if processes == [] then 0
    else Holders(processes[..|processes| - 1], name) + (if Holds(processes[|processes| - 1], name) then 1 else 0)
  }

  lemma {:induction false} HoldersMore(processes: seq<Process>, k: Process, name: Name)
    ensures Holders(processes + [k], name) == Holders(processes, name) + (if Holds(k, name) then 1 else 0)
  {
    assert (processes + [k])[..|processes|] == processes;
  }

  lemma {:induction false} HoldersUpdate(processes: seq<Process>, p: nat, k: Process, name: Name)
    requires p < |processes|
    ensures Holders(processes[p := k], name) + (if Holds(processes[p], name) then 1 else 0)
         == Holders(processes, name) + (if Holds(k, name) then 1 else 0)
    decreases |processes|
  {
    var n := |processes| - 1;
    if p < n {
      HoldersUpdate(processes[..n], p, k, name);
      assert processes[p := k][..n] == processes[..n][p := k];
    } else {
      assert processes[p := k][..n] == processes[..n];
    }
  }

  lemma {:induction false} ExecutionsMore(list: seq<(Name, Outcome)>, x: (Name, Outcome), name: Name)
    ensures Executions(list + [x], name) == Executions(list, name) + (if x.0 == name then 1 else 0)
  {
    assert (list + [x])[..|list|] == list;
  }

  /** The output file is a token: whoever created it may execute, and it is created once. */
  predicate TokenOk(s: System, name: Name) {
    Executions(s.l.executed, name) + Holders(s.processes, name) <= if (name, Stdout) in s.l.files then 1 else 0
  }

  /** What a process has behind it. */
  predicate StageOk(s: System, k: Process) {
    && (k.at.Ran? ==> (k.name, Exits(k.at.code)) in s.l.executed)
    && (k.at.Done? && k.at.result.Success? ==>
          && (k.name, Exits(k.at.result.value)) in s.l.executed
          && k.at.result.value in k.ok && (k.name, Record) in s.l.files)
  }

  ghost predicate Inv(s: System) {
    (forall name :: TokenOk(s, name)) && (forall p | 0 <= p < |s.processes| :: StageOk(s, s.processes[p]))
  }

  lemma {:induction false} TokenKept(s: System, e: Event, name: Name)
    requires TokenOk(s, name)
    ensures TokenOk(Happens(s, e), name)
    ensures s.l.executed <= Happens(s, e).l.executed
    ensures s.l.files <= Happens(s, e).l.files
  {
    hide Holders, Executions;
    match e
    case Begins(n, ok) => HoldersMore(s.processes, Process(n, ok, Start), name);
    case Steps(p, o) =>
      if p < |s.processes| {
        var k := s.processes[p];
        HoldersUpdate(s.processes, p, k.(at := Advance(s.l, k.name, k.at, o, k.ok).1), name);
        ExecutionsMore(s.l.executed, (k.name, o), name);
      }
    case Stops(p) =>
      if p < |s.processes| {
        HoldersUpdate(s.processes, p, s.processes[p].(at := Done(Failure(Stopped))), name);
      }
  }

  lemma {:induction false} InvKept(s: System, e: Event)
    requires Inv(s)
    ensures Inv(Happens(s, e))
  {
    hide TokenOk, StageOk, Happens;
    var t := Happens(s, e);
    forall name ensures TokenOk(t, name) {
      TokenKept(s, e, name);
    }
    forall p | 0 <= p < |t.processes| ensures StageOk(t, t.processes[p]) {
      StageKept(s, e, p);
    }
  }

  lemma {:induction false} StageKept(s: System, e: Event, p: nat)
    requires Inv(s) && p < |Happens(s, e).processes|
    ensures StageOk(Happens(s, e), Happens(s, e).processes[p])
  {
    hide Holders, Executions, TokenOk;
    var name := Happens(s, e).processes[p].name;
    assert TokenOk(s, name);
    TokenKept(s, e, name);
    if p < |s.processes| {
      assert StageOk(s, s.processes[p]);
      if e.Steps? {
        assert (name, e.o) in s.l.executed + [(name, e.o)];
      }
    }
  }

  lemma {:induction false} InvAlways(s: System, events: seq<Event>)
    requires Inv(s)
    ensures Inv(Run(s, events))
    decreases events
  {
    hide Inv, Happens;
    if events != [] {
      InvKept(s, events[0]);
      InvAlways(Happens(s, events[0]), events[1..]);
    }
  }

  /** MAIN RESULT. Whatever files there were, for any number of processes in any interleaving with any
      crashes: each name is executed at most once ever; and a call that returned success stands for that
      one execution, which ended with the returned code, one of those it accepts, and is on record. */
  lemma {:induction false} AtMostOnceEver(files: set<(Name, Kind)>, events: seq<Event>, name: Name)
    ensures var s := Run(System(Log(files, []), []), events);
            && Executions(s.l.executed, name) <= 1
            && forall p | 0 <= p < |s.processes| && s.processes[p].at.Done? && s.processes[p].at.result.Success? ::
                 var k := s.processes[p];
                 && Executions(s.l.executed, k.name) == 1 && (k.name, Exits(k.at.result.value)) in s.l.executed
                 && k.at.result.value in k.ok && (k.name, Record) in s.l.files
  {
    var start := System(Log(files, []), []);
    InvAlways(start, events);
    var s := Run(start, events);
    assert TokenOk(s, name);
    forall p | 0 <= p < |s.processes| && s.processes[p].at.Done? && s.processes[p].at.result.Success?
      ensures Executions(s.l.executed, s.processes[p].name) == 1
    {
      assert StageOk(s, s.processes[p]) && TokenOk(s, s.processes[p].name);
      SomeExecution(s.l.executed, (s.processes[p].name, Exits(s.processes[p].at.result.value)));
    }
    assert forall p | 0 <= p < |s.processes| :: StageOk(s, s.processes[p]);
  }

  lemma {:induction false} SomeExecution(list: seq<(Name, Outcome)>, x: (Name, Outcome))
    requires x in list
    ensures Executions(list, x.0) >= 1
  {
    var n := |list| - 1;
    if list[n].0 != x.0 {
      assert list == list[..n] + [list[n]];
      SomeExecution(list[..n], x);
    }
  }

  /** Nothing of `name` has been executed or created, and its processes got no further than the check. */
  predicate Refused(s: System, files: set<(Name, Kind)>, name: Name) {
    && Executions(s.l.executed, name) == 0
    && (forall kind :: (name, kind) in s.l.files <==> (name, kind) in files)
    && forall p | 0 <= p < |s.processes| && s.processes[p].name == name ::
         s.processes[p].at in {Start, Done(Failure(PreviousAttempt)), Done(Failure(Stopped))}
  }

  lemma {:induction false} RefusedKept(s: System, e: Event, files: set<(Name, Kind)>, name: Name, kind: Kind)
    requires (name, kind) in files && Refused(s, files, name)
    ensures Refused(Happens(s, e), files, name)
  {
    hide Executions;
    if e.Steps? && e.p < |s.processes| {
      ExecutionsMore(s.l.executed, (s.processes[e.p].name, e.o), name);
    }
  }

  lemma {:induction false} RefusedAlways(s: System, events: seq<Event>, files: set<(Name, Kind)>, name: Name, kind: Kind)
    requires (name, kind) in files && Refused(s, files, name)
    ensures Refused(Run(s, events), files, name)
    decreases events
  {
    hide Refused, Happens;
    if events != [] {
      RefusedKept(s, events[0], files, name, kind);
      RefusedAlways(Happens(s, events[0]), events[1..], files, name, kind);
    }
  }

  /** A name of which the directory holds any file from an earlier attempt, whatever became of that
      attempt, is never executed again, in any interleaving; its files stay as they are, and every
      call for it that ends was refused or stopped. */
  lemma {:induction false} EarlierAttemptRefused(files: set<(Name, Kind)>, events: seq<Event>, name: Name, kind: Kind)
    requires (name, kind) in files
    ensures Refused(Run(System(Log(files, []), []), events), files, name)
  {
    RefusedAlways(System(Log(files, []), []), events, files, name, kind);
  }

  /** Exactly the names without any file can be executed at all, and then once. */
  lemma {:induction false} RunsExactlyOnFreshNames(files: set<(Name, Kind)>, name: Name)
    ensures (exists events :: Executions(Run(System(Log(files, []), []), events).l.executed, name) == 1)
       <==> forall kind :: (name, kind) !in files
  {
    var start := System(Log(files, []), []);
    if kind :| (name, kind) in files {
      forall events ensures Executions(Run(start, events).l.executed, name) == 0 {
        EarlierAttemptRefused(files, events, name, kind);
      }
    } else {
      FreshNameRuns(start, name);
    }
  }

  lemma {:induction false} FreshNameRuns(s: System, name: Name)
    requires s.processes == [] && s.l.executed == [] && forall kind :: (name, kind) !in s.l.files
    ensures exists events :: Executions(Run(s, events).l.executed, name) == 1
  {
    var step := Steps(0, Raises);
    var s1 := Happens(s, Begins(name, {}));
    var s2 := Happens(s1, step);
    var s3 := Happens(s2, step);
    var s4 := Happens(s3, step);
    RunFirst(s4, step, []);
    RunFirst(s3, step, [step]);
    RunFirst(s2, step, [step, step]);
    RunFirst(s1, step, [step, step, step]);
    RunFirst(s, Begins(name, {}), [step, step, step, step]);
    ExecutionsMore([], (name, Raises), name);
    assert Happens(s4, step).l.executed == [] + [(name, Raises)];
    assert Executions(Run(s, [Begins(name, {}), step, step, step, step]).l.executed, name) == 1;
  }

  lemma {:induction false} RunFirst(s: System, e: Event, rest: seq<Event>)
    ensures Run(s, [e] + rest) == Run(Happens(s, e), rest)
    ensures Run(s, []) == s
  {
    assert ([e] + rest)[1..] == rest;
  }
}
