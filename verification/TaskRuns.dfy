/** Scheduler and heap as one system: with room for one task's memory, and an exited task's memory never given back,
    this is what task creation comes to over whole runs. */
module TaskRuns {
  import S = SchedSpec

  datatype Command = NewTask | Reschedule | ClockTick | YieldCpu | Lookup(pid: int) | KillTask(pid: int) | ExitTask

  /** There is no task and none has exited. */
  ghost predicate CanCreate(v: S.Sched) {
    v.ring == [] && v.cur.Idle?
  }

  /** What the scheduler sees of a command. A failed creation uses up a process id. */
  ghost function Meaning(v: S.Sched, c: Command): S.Event {
    match c
    case NewTask => if CanCreate(v) then S.Create else S.CreateFails
    case Reschedule => S.Schedule
    case ClockTick => S.Tick
    case YieldCpu => S.Yield
    case Lookup(pid) => S.Find(pid)
    case KillTask(pid) => S.Kill(pid)
    case ExitTask => S.Exit
  }

  ghost function SysStep(v: S.Sched, c: Command): S.Sched {
    S.Step(v, Meaning(v, c))
  }

  lemma Means(v: S.Sched, c: Command)
    ensures c.NewTask? ==> SysStep(v, c) == S.Step(v, if CanCreate(v) then S.Create else S.CreateFails)
    ensures c.Reschedule? ==> SysStep(v, c) == S.DoSchedule(v)
    ensures c.ClockTick? ==> SysStep(v, c) == S.DoTick(v)
    ensures c.YieldCpu? ==> SysStep(v, c) == S.Step(v, S.Yield)
    ensures c.Lookup? ==> SysStep(v, c) == v
    ensures c.KillTask? ==> SysStep(v, c) == S.DoKill(v, c.pid)
    ensures c.ExitTask? ==> SysStep(v, c) == S.DoExit(v)
  {
  }

  ghost function SysRun(v: S.Sched, cs: seq<Command>): S.Sched
    decreases |cs|
  {
    if cs == [] then v else SysStep(SysRun(v, cs[..|cs| - 1]), cs[|cs| - 1])
  }

  /** The tasks whose memory is in use: those of the ring, and the one that has exited. */
  ghost function InUse(v: S.Sched): nat {
    |v.ring| + if v.cur.Exited? then 1 else 0
  }

  lemma StepOne(v: S.Sched, c: Command)
    requires S.Valid(v) && InUse(v) <= 1
    ensures S.Valid(SysStep(v, c)) && InUse(SysStep(v, c)) <= 1 && !S.Faults(v, Meaning(v, c))
    ensures v.cur.Exited? ==> SysStep(v, c).cur == v.cur && SysStep(v, c).ring == []
    ensures !v.cur.Exited? ==> (SysStep(v, c).cur.Exited? <==> c == ExitTask && v.cur.Running?)
  {
    S.StepValid(v, Meaning(v, c));
    match c {
      case KillTask(pid) => if S.KillCode(v, pid) == 0 { S.WithoutAt(v.ring, pid); }
      case ExitTask => if v.cur.Running? { S.WithoutAt(v.ring, v.cur.pid); }
      case NewTask =>
      case Reschedule =>
      case ClockTick =>
      case YieldCpu =>
      case Lookup(_) =>
    }
  }

  /** No run ever has the memory of two tasks in use, so none comes to a faulting exit. */
  lemma {:induction false} RunOne(v: S.Sched, cs: seq<Command>)
    requires S.Valid(v) && InUse(v) <= 1
    ensures S.Valid(SysRun(v, cs)) && InUse(SysRun(v, cs)) <= 1
    decreases |cs|
  {
    if cs != [] {
      RunOne(v, cs[..|cs| - 1]);
      StepOne(SysRun(v, cs[..|cs| - 1]), cs[|cs| - 1]);
    }
  }

  /** Once a task has exited, every creation of every later run fails. */
  lemma {:induction false} NoTaskAfterExit(v: S.Sched, cs: seq<Command>)
    requires S.Valid(v) && InUse(v) <= 1 && v.cur.Exited?
    ensures SysRun(v, cs).cur == v.cur && SysRun(v, cs).ring == [] && !CanCreate(SysRun(v, cs))
    decreases |cs|
  {
    if cs != [] {
      var n := |cs| - 1;
      NoTaskAfterExit(v, cs[..n]);
      RunOne(v, cs[..n]);
      StepOne(SysRun(v, cs[..n]), cs[n]);
    }
  }

  /** Command k is the exit of a running task. */
  ghost predicate ExitsAt(v: S.Sched, cs: seq<Command>, k: nat) {
    k < |cs| && cs[k] == ExitTask && SysRun(v, cs[..k]).cur.Running?
  }

  lemma SysRunSnoc(v: S.Sched, cs: seq<Command>, n: nat)
    requires n < |cs|
    ensures SysRun(v, cs[..n + 1]) == SysStep(SysRun(v, cs[..n]), cs[n])
  {
    assert cs[..n + 1][..n] == cs[..n];
  }

  lemma ExitedNow(v: S.Sched, cs: seq<Command>, n: nat)
    requires S.Valid(v) && InUse(v) <= 1 && n < |cs|
    ensures SysRun(v, cs[..n + 1]).cur.Exited? <==> SysRun(v, cs[..n]).cur.Exited? || ExitsAt(v, cs, n)
  {
    RunOne(v, cs[..n]);
    SysRunSnoc(v, cs, n);
    StepOne(SysRun(v, cs[..n]), cs[n]);
  }

  /** After n commands the current task is an exited one if and only if some running task has exited. */
  lemma {:induction false} ExitedExactly(v: S.Sched, cs: seq<Command>, n: nat)
    requires S.Valid(v) && InUse(v) <= 1 && !v.cur.Exited? && n <= |cs|
    ensures SysRun(v, cs[..n]).cur.Exited? <==> exists k: nat :: k < n && ExitsAt(v, cs, k)
    decreases n
  {
    if n == 0 {
      assert cs[..0] == [];
    } else {
      ExitedExactly(v, cs, n - 1);
      ExitedNow(v, cs, n - 1);
    }
  }

  /** From the start of the system, for every run: the next creation succeeds if and only if the ring is empty and no
      task of the run has ever exited. */
  lemma CreationExactly(cs: seq<Command>)
    ensures CanCreate(SysRun(S.Start, cs)) <==>
      SysRun(S.Start, cs).ring == [] && !exists k: nat :: ExitsAt(S.Start, cs, k)
  {
    RunOne(S.Start, cs);
    ExitedExactly(S.Start, cs, |cs|);
    assert cs[..|cs|] == cs;
  }

  /** The shortest run after which the ring is empty and still no task can be created. */
  lemma ExitedMemoryExample()
    ensures var v := SysRun(S.Start, [NewTask, Reschedule, ExitTask]); v.ring == [] && v.cur == S.Exited(1) && !CanCreate(v)
  {
    var cs := [NewTask, Reschedule, ExitTask];
    assert cs[..0] == [] && cs[..3] == cs;
    SysRunSnoc(S.Start, cs, 0);
    SysRunSnoc(S.Start, cs, 1);
    SysRunSnoc(S.Start, cs, 2);
  }
}
