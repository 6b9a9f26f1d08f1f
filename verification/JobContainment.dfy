/** The job and child lifecycle of the launcher (windows-test-job.cpp, `wmain`): every Win32 call
    answers from a script, and kill-on-close is what Windows promises for the limit it sets. */
module JobContainment {
  import opened Bytes
  import opened Ledgers

  /** What the Win32 calls of one run answer, in the order of the code. `poll` gives the active count
      of each accounting query, or nothing when the query fails; `descendants` is how many processes
      the child leaves in the job; `opens` says of each listed member whether it could be opened.
      `waitFails` is a wait that reports an error instead of waiting; `ends` is whether the child,
      once it runs, ever ends by itself. */
  datatype Answers = Answers(
    jobOk: bool, limitsOk: bool, createOk: bool, assignOk: bool, resumeOk: bool, terminateOk: bool,
    waitFails: bool, ends: bool, descendants: nat, exitCode: Option<nat>,
    poll: nat -> Option<nat>, listOk: bool, listed: nat, opens: nat -> bool)

  datatype Child = Absent | Suspended(inJob: bool) | Running(inJob: bool) | Dead

  const POLLS: nat := 40
  const LISTMAX: nat := 128
  const DEFAULT: nat := 2

  // ---------------------------------------------------------------- the exit code

  /** The last accounting query: the first that fails or finds no member, or the fortieth. */
  function LastPoll(a: Answers, i: nat): Option<nat>
    requires i < POLLS
    decreases POLLS - i
  {
    if a.poll(i).None? || a.poll(i) == Some(0) || i + 1 == POLLS then a.poll(i) else LastPoll(a, i + 1)
  }

  /** `static_cast<int>` of a DWORD. */
  function ToInt(code: nat): int {
    var low := code % 0x1_0000_0000;
    if low < 0x8000_0000 then low else low - 0x1_0000_0000
  }

  predicate Created(argc: int, a: Answers) {
    argc >= 2 && a.jobOk && a.limitsOk && a.createOk
  }

  predicate Started(argc: int, a: Answers) {
    Created(argc, a) && a.assignOk && a.resumeOk
  }

  /** Whether the infinite wait comes back: at once with an error, or when the child is dead. A child
      that was never resumed dies only by being terminated. */
  predicate WaitReturns(argc: int, a: Answers) {
    a.waitFails || if Started(argc, a) then a.ends else a.terminateOk
  }

  /** How a run of the launcher ends, if it does. */
  datatype Ending = Returned(code: int) | Stuck

  function Verdict(argc: int, a: Answers): Ending {
    if Created(argc, a) && !WaitReturns(argc, a) then Stuck
    else if !Started(argc, a) || LastPoll(a, 0) != Some(0) then Returned(2)
    else Returned(ToInt(if a.exitCode.None? then DEFAULT else a.exitCode.value))
  }

  /** MAIN RESULT, verdict. The launcher returns 0 exactly when everything up to the resumed child
      worked, the wait came back, the child's exit code was read and is 0, and one of the forty queries
      found the job empty after earlier ones that all found members. */
  lemma {:induction false} ZeroExactly(argc: int, a: Answers)
    requires a.exitCode.Some? ==> a.exitCode.value < 0x1_0000_0000
    ensures Verdict(argc, a) == Returned(0)
       <==> && Started(argc, a) && (a.waitFails || a.ends) && a.exitCode == Some(0)
            && exists k | 0 <= k < 40 :: EmptyAt(a, k)
  {
    LastPollExactly(a, 0);
  }

  /** MAIN RESULT, exit code. When the child ran, the wait came back and a query found the job empty, the
      launcher returns the child's code as a 32-bit signed number, or 2 when the code could not be read;
      whatever else happens, a launcher that returns returns 2. */
  lemma {:induction false} CodePassesThrough(argc: int, a: Answers)
    requires a.exitCode.Some? ==> a.exitCode.value < 0x1_0000_0000
    ensures var clean := argc >= 2 && a.jobOk && a.limitsOk && a.createOk && a.assignOk && a.resumeOk
                         && (a.waitFails || a.ends) && exists k | 0 <= k < 40 :: EmptyAt(a, k);
            var v := Verdict(argc, a);
            if clean then
              && v.Returned? && -0x8000_0000 <= v.code < 0x8000_0000
              && match a.exitCode
                 case None => v.code == 2
                 case Some(c) => (v.code - c) % 0x1_0000_0000 == 0 && (c < 0x8000_0000 ==> v.code == c)
            else v.Stuck? || v == Returned(2)
  {
    LastPollExactly(a, 0);
  }

  predicate EmptyAt(a: Answers, k: nat) {
    a.poll(k) == Some(0) && forall j | 0 <= j < k :: a.poll(j).Some? && a.poll(j) != Some(0)
  }

  lemma {:induction false} LastPollExactly(a: Answers, i: nat)
    requires i < POLLS
    requires forall j | 0 <= j < i :: a.poll(j).Some? && a.poll(j) != Some(0)
    ensures LastPoll(a, i) == Some(0) <==> exists k | 0 <= k < 40 :: EmptyAt(a, k)
    decreases POLLS - i
  {
    if a.poll(i) == Some(0) {
      assert EmptyAt(a, i);
    } else if a.poll(i).None? || i + 1 == POLLS {
      forall k | 0 <= k < 40 ensures !EmptyAt(a, k) {
        assert k > i ==> a.poll(i).None?;
      }
    } else {
      LastPollExactly(a, i + 1);
    }
  }

  /** How many of the first `n` listed members could be opened. */
  function Opened(a: Answers, n: nat): nat {
    if n == 0 then 0 else Opened(a, n - 1) + (if a.opens(n - 1) then 1 else 0)
  }

  // ---------------------------------------------------------------- the code

  class Launcher {
    const a: Answers
    const handles: Ledger
    /** Whether the job kills its members when its last handle goes. */
    var kills: bool
    var child: Child
    /** Other processes in the job. */
    var others: nat
    /** Whether a process has ever run outside the job. */
    var escaped: bool

    constructor (answers: Answers)
      ensures a == answers && fresh(handles) && handles.Balanced() && handles.live == {}
      ensures !kills && child == Absent && others == 0 && !escaped
    {
      a := answers;
      handles := new Ledger();
      kills, child, others, escaped := false, Absent, 0, false;
    }

    /** `CloseHandle(job)`. */
    method CloseJob(job: Object)
      requires handles.Balanced() && job in handles.live
      modifies handles, this`child, this`others
      ensures handles.Balanced() && handles.made == old(handles.made) && handles.live == old(handles.live) - {job}
      ensures others == if kills then 0 else old(others)
      ensures child == if kills && (old(child).Suspended? || old(child).Running?) && old(child).inJob then Dead else old(child)
    {
      handles.Free(job);
      if kills {
        others := 0;
        if (child.Suspended? || child.Running?) && child.inJob {
          child := Dead;
        }
      }
    }

    /** `CreateProcessW` with `CREATE_SUSPENDED`: the child exists and does not run. */
    method Create() returns (ok: bool, process: Object, thread: Object)
      requires handles.Balanced() && child.Absent?
      modifies handles, this`child
      ensures handles.Balanced() && handles.made >= old(handles.made) && ok == a.createOk
      ensures if ok then child == Suspended(false) && process == old(handles.made) && thread == process + 1
                         && process !in old(handles.live) && thread !in old(handles.live)
                         && handles.live == old(handles.live) + {process, thread}
              else child == Absent && handles.live == old(handles.live)
    {
      ok, process, thread := a.createOk, 0, 0;
      if ok {
        var p := handles.New(true);
        var t := handles.New(true);
        process, thread := p.value, t.value;
        child := Suspended(false);
      }
    }

    method Assign() returns (ok: bool)
      requires child == Suspended(false)
      modifies this`child
      ensures ok == a.assignOk && child == Suspended(ok)
    {
      ok := a.assignOk;
      child := Suspended(ok);
    }

    /** `ResumeThread`: from here on the child runs, wherever it is. */
    method Resume() returns (ok: bool)
      requires child.Suspended?
      modifies this`child, this`others, this`escaped
      ensures ok == a.resumeOk
      ensures child == if ok then Running(old(child).inJob) else old(child)
      ensures escaped == (old(escaped) || (ok && !old(child).inJob))
      ensures others == if ok then a.descendants else old(others)
    {
      ok := a.resumeOk;
      if ok {
        escaped := escaped || !child.inJob;
        child := Running(child.inJob);
        others := a.descendants;
      }
    }

    /** The queries, at most forty of them, until one fails or finds the job empty. */
    method Poll() returns (observed: bool, active: nat)
      ensures LastPoll(a, 0) == if observed then Some(active) else None
    {
      observed, active := false, 0;
      for i := 0 to POLLS
        invariant i > 0 ==> observed && active != 0 && a.poll(i - 1) == Some(active)
        invariant i < POLLS ==> LastPoll(a, i) == LastPoll(a, 0)
        invariant i == POLLS ==> LastPoll(a, 0) == Some(active)
      {
        observed := a.poll(i).Some?;
        if observed {
          active := a.poll(i).value;
        }
        if !observed || active == 0 {
          break;
        }
      }
    }

    /** The listing of members that are left: every handle it opens is closed in the same turn. */
    method ListMembers()
      requires handles.Balanced()
      modifies handles
      ensures handles.Balanced() && handles.live == old(handles.live)
      ensures handles.made == old(handles.made) + (if a.listOk then Opened(a, if a.listed < 128 then a.listed else 128) else 0)
    {
      if !a.listOk {
        return;
      }
      var i := 0;
      while i < a.listed && i < LISTMAX
        invariant handles.Balanced() && handles.live == old(handles.live)
        invariant i <= a.listed && i <= LISTMAX && handles.made == old(handles.made) + Opened(a, i)
      {
        var process := handles.New(a.opens(i));
        if process.Some? {
          handles.Free(process.value);
        }
        i := i + 1;
      }
    }

    /** The queries and, if members are left, their listing. */
    method SeenEmpty() returns (empty: bool)
      requires handles.Balanced()
      modifies handles
      ensures handles.Balanced() && handles.made >= old(handles.made) && handles.live == old(handles.live)
      ensures empty == (LastPoll(a, 0) == Some(0))
    {
      hide Ledger.Balanced, LastPoll;
      var observed, active := Poll();
      if observed && active != 0 {
        ListMembers();
      }
      empty := observed && active == 0;
    }

    /** `WaitForSingleObject(child, INFINITE)`: `back` is false when it never comes back. */
    method Wait() returns (back: bool)
      modifies this`child
      ensures back == (a.waitFails || old(child).Dead? || (old(child).Running? && a.ends))
      ensures child == if old(child).Running? && !a.waitFails && a.ends then Dead else old(child)
    {
      if a.waitFails {
        return true;
      }
      if child.Running? && a.ends {
        child := Dead;
      }
      back := child.Dead?;
    }

    /** After a failed assignment or resume: the child is terminated and waited for, and all handles
        are closed. A child that could not be terminated stays suspended, and the wait for it lasts. */
    method Abandon(job: Object, process: Object, thread: Object) returns (back: bool)
      requires handles.Balanced() && child.Suspended? && kills && others == 0
      requires job in handles.live && process in handles.live && thread in handles.live
      requires job != process && process != thread && job != thread
      modifies handles, this`child, this`others
      ensures back == (a.terminateOk || a.waitFails)
      ensures handles.Balanced() && handles.made == old(handles.made) && others == 0
      ensures handles.live == if back then old(handles.live) - {job, process, thread} else old(handles.live)
      ensures child == if a.terminateOk || (back && old(child).inJob) then Dead else old(child)
    {
      if a.terminateOk {
        child := Dead;
      }
      back := Wait();
      if !back {
        return;
      }
      handles.Free(thread);
      handles.Free(process);
      CloseJob(job);
    }

    /** After the resume: wait, read the exit code, watch the job empty, and close what is left. */
    method Watch(job: Object, process: Object, thread: Object) returns (r: Ending)
      requires handles.Balanced() && child == Running(true) && kills
      requires job in handles.live && process in handles.live && thread in handles.live
      requires job != process && process != thread && job != thread
      modifies handles, this`child, this`others
      ensures handles.Balanced() && handles.made >= old(handles.made)
      ensures r.Stuck? <==> !a.waitFails && !a.ends
      ensures r.Stuck? ==> handles.live == old(handles.live) - {thread} && child == old(child) && others == old(others)
      ensures r.Returned? ==> handles.live == old(handles.live) - {job, process, thread} && child == Dead && others == 0
      ensures r.Returned? ==>
                r.code == if LastPoll(a, 0) == Some(0) then ToInt(if a.exitCode.None? then DEFAULT else a.exitCode.value) else 2
    {
      hide Ledger.Balanced, LastPoll;
      handles.Free(thread);
      var back := Wait();
      if !back {
        return Stuck;
      }
      var read := DEFAULT;
      if a.exitCode.Some? {
        read := a.exitCode.value;
      }
      handles.Free(process);
      var empty := SeenEmpty();
      if !empty {
        read := 2;
      }
      CloseJob(job);
      return Returned(ToInt(read));
    }

    /** MAIN RESULT, containment. For every pattern of failing calls: nothing ever runs outside the
        job. The launcher is stuck exactly when the child was created, the wait does not fail, and the
        child does not die: not by itself once it runs, and not by the termination when it could not be
        assigned or resumed. A launcher that returns has closed every handle exactly once and leaves no
        process, except a never-run child where assignment, termination and wait all failed. One that
        is stuck still holds the job (handle 0, with the limit that kills the members on close), the
        child (1) and, if the child was not resumed, its thread (2). */
    method Wmain(argc: int) returns (r: Ending)
      requires handles.Balanced() && handles.live == {} && handles.made == 0
      requires !kills && child == Absent && others == 0 && !escaped
      modifies this, handles
      ensures handles.Balanced() && !escaped
      ensures r == Verdict(argc, a)
      ensures r.Stuck?
         <==> && argc >= 2 && a.jobOk && a.limitsOk && a.createOk && !a.waitFails
              && if a.assignOk && a.resumeOk then !a.ends else !a.terminateOk
      ensures r.Returned? ==>
                && handles.live == {} && others == 0
                && child == if !Created(argc, a) then Absent
                            else if !a.assignOk && !a.terminateOk && a.waitFails then Suspended(false)
                            else Dead
      ensures r.Stuck? ==>
                && kills
                && if Started(argc, a) then child == Running(true) && others == a.descendants && handles.live == {0, 1}
                   else child == Suspended(a.assignOk) && others == 0 && handles.live == {0, 1, 2}
    {
      hide Ledger.Balanced, LastPoll, ToInt;
      if argc < 2 {
        return Returned(2);
      }
      var job := handles.New(a.jobOk);
      if job.None? {
        return Returned(2);
      }
      if !a.limitsOk {
        CloseJob(job.value);
        return Returned(2);
      }
      kills := true;
      var ok, process, thread := Create();
      if !ok {
        CloseJob(job.value);
        return Returned(2);
      }
      var joined := Assign();
      if !joined {
        var back := Abandon(job.value, process, thread);
        return if back then Returned(2) else Stuck;
      }
      var resumed := Resume();
      if !resumed {
        var back := Abandon(job.value, process, thread);
        return if back then Returned(2) else Stuck;
      }
      r := Watch(job.value, process, thread);
    }
  }
}
