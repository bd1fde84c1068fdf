/** The round-robin scheduler as a state machine over the ring of process ids, and what holds over its runs. */
module SchedSpec {

  /** No task yet, a task of the ring, or a task that has exited and left the ring. */
  datatype Current = Idle | Running(pid: int) | Exited(pid: int)

  /** The ring read from its head, the current task, the next process id, the two flags and the tick counter. */
  datatype Sched = Sched(ring: seq<int>, cur: Current, nextPid: int, need: bool, exist: bool, ticks: nat)

  datatype Event = Create | CreateFails | Schedule | Tick | Yield | Find(pid: int) | Kill(pid: int) | Exit

  ghost predicate NoDup(ring: seq<int>) {
    forall i, j :: 0 <= i < j < |ring| ==> ring[i] != ring[j]
  }

  /** What every operation keeps: distinct ids in range, the current task is in the ring unless it exited,
      and a non-empty ring has the "tasks exist" flag set. */
  ghost predicate Valid(s: Sched) {
    && NoDup(s.ring) && s.nextPid >= 1
    && (forall p :: p in s.ring ==> 1 <= p < s.nextPid)
    && (s.cur.Running? ==> s.cur.pid in s.ring)
    && (s.cur.Exited? ==> s.cur.pid !in s.ring && s.cur.pid < s.nextPid)
    && (s.ring != [] ==> s.exist)
    && s.ticks < 25
  }

  ghost const Start := Sched([], Idle, 1, false, false, 0)

  ghost function IndexOf<T>(ring: seq<T>, p: T): (i: nat)
    requires p in ring
    ensures i < |ring| && ring[i] == p
  {
    var i: nat :| i < |ring| && ring[i] == p;
    i
  }

  ghost function Without(ring: seq<int>, p: int): seq<int>
    requires p in ring
  {
    var i := IndexOf(ring, p); ring[..i] + ring[i + 1..]
  }

  ghost function Succ(n: nat, i: nat): nat
    requires i < n
  {
    if i + 1 == n then 0 else i + 1
  }

  ghost function NextOf(ring: seq<int>, p: int): int
    requires p in ring
  {
    ring[Succ(|ring|, IndexOf(ring, p))]
  }

  // ---- the operations ----

  ghost function DoSchedule(s: Sched): Sched {
    if s.ring == [] then s else
    match s.cur
    case Idle => s.(cur := Running(s.ring[0]))
    case Running(p) => if p in s.ring then s.(cur := Running(NextOf(s.ring, p))) else s
    case Exited(_) => s
  }

  ghost function DoTick(s: Sched): Sched {
    if !s.exist then s
    else if s.ticks + 1 >= 25 then s.(ticks := 0, need := true)
    else s.(ticks := s.ticks + 1)
  }

  ghost function KillCode(s: Sched, pid: int): int {
    if pid <= 0 || pid !in s.ring then -1
    else if s.cur == Running(pid) then -2
    else 0
  }

  ghost function DoKill(s: Sched, pid: int): Sched {
    if KillCode(s, pid) == 0 then s.(ring := Without(s.ring, pid)) else s
  }

  /** Exiting takes the current task out of the ring. The scheduler is called, but finds no successor. An exit
      that faults halts the kernel; here it leaves the state as it is. */
  ghost function DoExit(s: Sched): Sched {
    if s.cur.Running? && s.cur.pid in s.ring then
      s.(ring := Without(s.ring, s.cur.pid), cur := Exited(s.cur.pid), exist := s.exist && |s.ring| != 1)
    else s
  }

  /** A task that has left the ring exits again while there are others: its null links are followed. */
  ghost predicate Faults(s: Sched, e: Event) {
    e.Exit? && s.cur.Exited? && s.ring != []
  }

  ghost function Step(s: Sched, e: Event): Sched {
    match e
    case Create => s.(ring := [s.nextPid] + s.ring, nextPid := s.nextPid + 1, exist := true)
    case CreateFails => s.(nextPid := s.nextPid + 1)
    case Schedule => DoSchedule(s)
    case Tick => DoTick(s)
    case Yield => if s.need then DoSchedule(s.(need := false)) else s
    case Find(_) => s
    case Kill(pid) => DoKill(s, pid)
    case Exit => DoExit(s)
  }

  ghost function Run(s: Sched, es: seq<Event>): Sched
    decreases |es|
  {
    if es == [] then s else Run(Step(s, es[0]), es[1..])
  }

  // ---- positions in the ring ----

  lemma IndexUnique(ring: seq<int>, i: nat)
    requires NoDup(ring) && i < |ring|
    ensures IndexOf(ring, ring[i]) == i
  {
  }

  lemma WithoutAt(ring: seq<int>, q: int)
    requires NoDup(ring) && q in ring
    ensures var r, j := Without(ring, q), IndexOf(ring, q);
      && |r| == |ring| - 1 && NoDup(r) && q !in r
      && (forall i :: 0 <= i < j ==> r[i] == ring[i]) && (forall i :: j <= i < |r| ==> r[i] == ring[i + 1])
      && (forall p :: p in r <==> p in ring && p != q)
  {
  }

  lemma WithoutIndex(ring: seq<int>, q: int, p: int)
    requires NoDup(ring) && q in ring && p in ring && p != q
    ensures p in Without(ring, q)
    ensures IndexOf(Without(ring, q), p) ==
      IndexOf(ring, p) - if IndexOf(ring, q) < IndexOf(ring, p) then 1 else 0
  {
  }

  lemma PrependIndex(ring: seq<int>, x: int, p: int)
    requires NoDup(ring) && x !in ring && p in ring
    ensures p in [x] + ring && IndexOf([x] + ring, p) == IndexOf(ring, p) + 1
  {
  }

  lemma PrependNoDup(ring: seq<int>, x: int)
    requires NoDup(ring) && x !in ring
    ensures NoDup([x] + ring)
  {
  }

  // ---- invariants over runs ----

  lemma StepValid(s: Sched, e: Event)
    requires Valid(s)
    ensures Valid(Step(s, e))
  {
    match e {
      case Kill(pid) => if KillCode(s, pid) == 0 { WithoutAt(s.ring, pid); }
      case Exit => if s.cur.Running? { WithoutAt(s.ring, s.cur.pid); }
      case Create => PrependNoDup(s.ring, s.nextPid);
      case Schedule =>
      case Yield =>
      case Tick =>
      case CreateFails =>
      case Find(_) =>
    }
  }

  lemma KillValid(s: Sched, pid: int)
    requires Valid(s)
    ensures Valid(DoKill(s, pid))
    ensures KillCode(s, pid) == 0 ==> DoKill(s, pid) == s.(ring := Without(s.ring, pid))
  {
    StepValid(s, Kill(pid));
  }

  lemma ExitValid(s: Sched)
    requires Valid(s) && s.cur.Running?
    ensures Valid(DoExit(s))
    ensures DoExit(s) == s.(ring := Without(s.ring, s.cur.pid), cur := Exited(s.cur.pid), exist := |s.ring| != 1)
  {
    StepValid(s, Exit);
  }

  lemma {:induction false} RunValid(s: Sched, es: seq<Event>)
    requires Valid(s)
    ensures Valid(Run(s, es))
    decreases |es|
  {
    if es != [] {
      StepValid(s, es[0]);
      RunValid(Step(s, es[0]), es[1..]);
    }
  }

  /** Creating a task and killing it again leaves the ring and the current task as they were. */
  lemma CreateThenKill(s: Sched)
    requires Valid(s)
    ensures var t := Step(Step(s, Create), Kill(s.nextPid));
      t == s.(nextPid := s.nextPid + 1, exist := true) && KillCode(Step(s, Create), s.nextPid) == 0
  {
    var ring := [s.nextPid] + s.ring;
    assert ring[0] == s.nextPid;
    PrependNoDup(s.ring, s.nextPid);
    IndexUnique(ring, 0);
    assert Without(ring, s.nextPid) == s.ring;
  }

  // ---- fairness ----

  /** Calls of the scheduler until task t is the current one, if nothing else happens. */
  ghost function Distance(s: Sched, t: int): nat
    requires Valid(s) && t in s.ring && !s.cur.Exited?
  {
    var i := IndexOf(s.ring, t);
    if s.cur.Idle? then i + 1
    else
      var c := IndexOf(s.ring, s.cur.pid);
      if i >= c then i - c else |s.ring| + i - c
  }

  /** The event calls the scheduler. */
  ghost predicate Calls(s: Sched, e: Event) {
    e.Schedule? || (e.Yield? && s.need)
  }

  ghost function CallCount(s: Sched, es: seq<Event>): nat
    decreases |es|
  {
    if es == [] then 0 else (if Calls(s, es[0]) then 1 else 0) + CallCount(Step(s, es[0]), es[1..])
  }

  ghost function CreateCount(es: seq<Event>): nat {
    if es == [] then 0 else (if es[0].Create? then 1 else 0) + CreateCount(es[1..])
  }

  /** The task is neither killed nor does any task exit. */
  ghost predicate Spares(es: seq<Event>, t: int) {
    forall k :: 0 <= k < |es| ==> !es[k].Exit? && es[k] != Kill(t)
  }

  lemma ScheduleDistance(s: Sched, t: int)
    requires Valid(s) && t in s.ring && !s.cur.Exited? && s.cur != Running(t)
    ensures Valid(DoSchedule(s)) && DoSchedule(s).cur.Running? && Distance(DoSchedule(s), t) == Distance(s, t) - 1
  {
    var n := |s.ring|;
    if s.cur.Idle? {
      IndexUnique(s.ring, 0);
    } else {
      var c := IndexOf(s.ring, s.cur.pid);
      IndexUnique(s.ring, Succ(n, c));
    }
  }

  lemma CreateDistance(s: Sched, t: int)
    requires Valid(s) && t in s.ring && !s.cur.Exited?
    ensures Valid(Step(s, Create)) && t in Step(s, Create).ring && Distance(Step(s, Create), t) <= Distance(s, t) + 1
  {
    StepValid(s, Create);
    PrependIndex(s.ring, s.nextPid, t);
    if s.cur.Running? { PrependIndex(s.ring, s.nextPid, s.cur.pid); }
  }

  lemma KillDistance(s: Sched, t: int, q: int)
    requires Valid(s) && t in s.ring && !s.cur.Exited? && q != t
    ensures Valid(DoKill(s, q)) && t in DoKill(s, q).ring && Distance(DoKill(s, q), t) <= Distance(s, t)
  {
    KillValid(s, q);
    if KillCode(s, q) == 0 {
      var r := Without(s.ring, q);
      assert |r| == |s.ring| - 1;
      WithoutIndex(s.ring, q, t);
      if s.cur.Running? { WithoutIndex(s.ring, q, s.cur.pid); }
    }
  }

  /** One event: a scheduler call brings the task one step nearer, a creation puts at most one task in
      front of it, and nothing else, a kill least of all, lengthens the wait. */
  lemma DistanceStep(s: Sched, e: Event, t: int)
    requires Valid(s) && t in s.ring && !s.cur.Exited? && s.cur != Running(t) && !e.Exit? && e != Kill(t)
    ensures var s' := Step(s, e);
      && Valid(s') && t in s'.ring && !s'.cur.Exited?
      && Distance(s', t) + (if Calls(s, e) then 1 else 0) <= Distance(s, t) + (if e.Create? then 1 else 0)
  {
    StepValid(s, e);
    match e {
      case Schedule => ScheduleDistance(s, t);
      case Yield => ScheduleDistance(s.(need := false), t);
      case Create => CreateDistance(s, t);
      case Kill(q) => KillDistance(s, t, q);
      case CreateFails =>
      case Tick =>
      case Find(_) =>
    }
  }

  /** A task that is spared runs within d + c scheduler calls, where d is its distance and c the number of
      tasks created meanwhile: k events into the run it is the current task. */
  lemma {:induction false} Fairness(s: Sched, es: seq<Event>, t: int) returns (k: nat)
    requires Valid(s) && t in s.ring && !s.cur.Exited? && Spares(es, t)
    requires CallCount(s, es) >= Distance(s, t) + CreateCount(es)
    ensures k <= |es| && Run(s, es[..k]).cur == Running(t)
    decreases |es|
  {
    if s.cur == Running(t) {
      k := 0;
    } else {
      assert es != [] by { if es == [] { NotCurrent(s, t); } }
      DistanceStep(s, es[0], t);
      k := Fairness(Step(s, es[0]), es[1..], t);
      k := k + 1;
      assert es[..k][1..] == es[1..][..k - 1];
    }
  }

  lemma NotCurrent(s: Sched, t: int)
    requires Valid(s) && t in s.ring && !s.cur.Exited? && s.cur != Running(t)
    ensures Distance(s, t) > 0
  {
  }

  // ---- round robin ----

  ghost function Schedules(n: nat): seq<Event> {
    seq(n, _ => Schedule)
  }

  /** x modulo n, by subtraction. */
  ghost function Wrap(n: nat, x: nat): (r: nat)
    requires n > 0
    ensures r < n
  {
    if x < n then x else Wrap(n, x - n)
  }

  /** k scheduler calls with nothing in between move the current task k places round the ring. */
  lemma {:induction false} RoundRobin(s: Sched, k: nat)
    requires Valid(s) && s.cur.Running?
    ensures var i := IndexOf(s.ring, s.cur.pid);
      Run(s, Schedules(k)) == s.(cur := Running(s.ring[Wrap(|s.ring|, i + k)]))
    decreases k
  {
    var n, i := |s.ring|, IndexOf(s.ring, s.cur.pid);
    if k == 0 {
      assert Schedules(0) == [];
    } else {
      var s' := DoSchedule(s);
      ScheduleAdvances(s);
      assert Schedules(k)[1..] == Schedules(k - 1) && Schedules(k)[0] == Schedule;
      RoundRobin(s', k - 1);
      WrapSucc(n, i, k);
    }
  }

  lemma ScheduleAdvances(s: Sched)
    requires Valid(s) && s.cur.Running?
    ensures var i := Succ(|s.ring|, IndexOf(s.ring, s.cur.pid)); var s' := DoSchedule(s);
      Valid(s') && s' == s.(cur := Running(s.ring[i])) && IndexOf(s.ring, s'.cur.pid) == i
  {
  }

  lemma WrapSucc(n: nat, i: nat, k: nat)
    requires i < n && k > 0
    ensures Wrap(n, Succ(n, i) + (k - 1)) == Wrap(n, i + k)
  {
  }

  /** So n calls make each of the n tasks current exactly once. */
  lemma EveryTaskOnce(s: Sched, t: int)
    requires Valid(s) && s.cur.Running? && t in s.ring
    ensures exists k: nat :: 1 <= k <= |s.ring| && Run(s, Schedules(k)).cur == Running(t)
    ensures forall k: nat, m: nat :: 1 <= k < m <= |s.ring| && Run(s, Schedules(k)).cur == Running(t) ==>
      Run(s, Schedules(m)).cur != Running(t)
  {
    var n, i, j := |s.ring|, IndexOf(s.ring, s.cur.pid), IndexOf(s.ring, t);
    var k := if j > i then j - i else n + j - i;
    WhereAfter(s, k, j);
    forall k: nat, m: nat | 1 <= k < m <= n && Run(s, Schedules(k)).cur == Running(t)
      ensures Run(s, Schedules(m)).cur != Running(t)
    {
      WhereAfter(s, k, j);
      WhereAfter(s, m, j);
    }
  }

  /** Within one lap, the task at position j is current after exactly the calls that lead there. */
  lemma WhereAfter(s: Sched, k: nat, j: nat)
    requires Valid(s) && s.cur.Running? && k <= |s.ring| && j < |s.ring|
    ensures var i := IndexOf(s.ring, s.cur.pid);
      Run(s, Schedules(k)).cur == Running(s.ring[j]) <==> i + k == j || i + k == j + |s.ring|
  {
    RoundRobin(s, k);
    var i, n := IndexOf(s.ring, s.cur.pid), |s.ring|;
    OneLap(n, i + k);
    SameTask(s.ring, Wrap(n, i + k), j);
  }

  lemma SameTask(ring: seq<int>, a: nat, b: nat)
    requires NoDup(ring) && a < |ring| && b < |ring|
    ensures ring[a] == ring[b] <==> a == b
  {
  }

  lemma OneLap(n: nat, x: nat)
    requires x < n + n
    ensures Wrap(n, x) == if x < n then x else x - n
  {
  }

  // ---- preemption ----

  ghost function Ticks(n: nat): seq<Event> {
    seq(n, _ => Tick)
  }

  /** m ticks with nothing in between. */
  lemma {:induction false} TicksAdd(s: Sched, m: nat)
    requires Valid(s) && s.exist
    ensures Run(s, Ticks(m)) == s.(ticks := (s.ticks + m) % 25, need := s.need || s.ticks + m >= 25)
    decreases m
  {
    if m == 0 {
      assert Ticks(0) == [];
    } else {
      assert Ticks(m)[1..] == Ticks(m - 1) && Ticks(m)[0] == Tick;
      StepValid(s, Tick);
      TicksAdd(DoTick(s), m - 1);
    }
  }

  /** The request to reschedule is raised on every 25th tick and on no other: after m ticks, one more raises it,
      even if it has just been cleared, exactly when it makes a multiple of 25. */
  lemma EveryTwentyFifthTick(s: Sched, m: nat)
    requires Valid(s) && s.exist
    ensures DoTick(Run(s, Ticks(m)).(need := false)).need <==> (s.ticks + m + 1) % 25 == 0
    ensures Run(s, Ticks(m)).need <==> s.need || s.ticks + m >= 25
  {
    TicksAdd(s, m);
  }

  /** While no task exists, as far as the flag knows, ticks change neither counter nor request nor anything else. */
  lemma {:induction false} TicksWithoutTasks(s: Sched, m: nat)
    requires !s.exist
    ensures Run(s, Ticks(m)) == s
    decreases m
  {
    if m == 0 {
      assert Ticks(0) == [];
    } else {
      assert Ticks(m)[1..] == Ticks(m - 1) && Ticks(m)[0] == Tick;
      TicksWithoutTasks(s, m - 1);
    }
  }

  /** A yield uses the request up: a second one right after it does nothing. */
  lemma YieldTwice(s: Sched)
    ensures Run(s, [Yield, Yield]) == Run(s, [Yield]) && !Run(s, [Yield]).need
  {
    var t := Step(s, Yield);
    assert [Yield, Yield][1..] == [Yield] && [Yield][1..] == [];
    assert !t.need;
  }

  /** How many yields of a run call the scheduler. */
  ghost function YieldCalls(s: Sched, es: seq<Event>): nat
    decreases |es|
  {
    if es == [] then 0 else (if es[0].Yield? && s.need then 1 else 0) + YieldCalls(Step(s, es[0]), es[1..])
  }

  ghost function TickCount(es: seq<Event>): nat {
    if es == [] then 0 else (if es[0].Tick? then 1 else 0) + TickCount(es[1..])
  }

  ghost function Owed(s: Sched): nat {
    if s.need then 25 else 0
  }

  lemma OwedStep(s: Sched, e: Event)
    requires Valid(s)
    ensures var t := Step(s, e);
      (if e.Yield? && s.need then 25 else 0) + Owed(t) + t.ticks <= Owed(s) + s.ticks + if e.Tick? then 1 else 0
  {
  }

  /** So over every run 25 ticks are spent on each scheduler call that a yield makes, but for a request that was
      there at the start. */
  lemma {:induction false} YieldsBounded(s: Sched, es: seq<Event>)
    requires Valid(s)
    ensures 25 * YieldCalls(s, es) + Owed(Run(s, es)) <= s.ticks + TickCount(es) + Owed(s)
    decreases |es|
  {
    if es != [] {
      StepValid(s, es[0]);
      OwedStep(s, es[0]);
      YieldsBounded(Step(s, es[0]), es[1..]);
    }
  }

  // ---- exit ----

  /** After the current task has exited no event ever makes another task run: the exited task's successor
      is gone when the scheduler looks for it. */
  lemma {:induction false} ExitNeverHandsOver(s: Sched, es: seq<Event>)
    requires Valid(s) && s.cur.Exited?
    ensures Run(s, es).cur == s.cur
    decreases |es|
  {
    if es != [] {
      StepValid(s, es[0]);
      ExitNeverHandsOver(Step(s, es[0]), es[1..]);
    }
  }

  /** How many events of a run take place before one faults. */
  ghost function FirstFault(s: Sched, es: seq<Event>): (k: nat)
    ensures k <= |es|
    decreases |es|
  {
    if es == [] || Faults(s, es[0]) then 0 else 1 + FirstFault(Step(s, es[0]), es[1..])
  }

  lemma {:induction false} RunConcat(s: Sched, a: seq<Event>, b: seq<Event>)
    ensures Run(s, a + b) == Run(Run(s, a), b)
    decreases |a|
  {
    if a == [] {
      assert a + b == b;
    } else {
      assert (a + b)[1..] == a[1..] + b;
      RunConcat(Step(s, a[0]), a[1..], b);
    }
  }

  lemma RunSnoc(s: Sched, es: seq<Event>, k: nat)
    requires k < |es|
    ensures Run(s, es[..k + 1]) == Step(Run(s, es[..k]), es[k])
  {
    assert es[..k + 1] == es[..k] + [es[k]];
    RunConcat(s, es[..k], [es[k]]);
    assert Run(Run(s, es[..k]), [es[k]]) == Step(Run(s, es[..k]), es[k]);
  }

  lemma FaultLater(s: Sched, es: seq<Event>, k: nat)
    requires k < |es| && !Faults(s, es[k])
    ensures FirstFault(s, es[k..]) == 1 + FirstFault(Step(s, es[k]), es[k + 1..])
  {
    assert es[k..][1..] == es[k + 1..];
  }

  lemma {:induction false} FaultAtFirst(s: Sched, es: seq<Event>)
    ensures var k := FirstFault(s, es); k < |es| ==> Faults(Run(s, es[..k]), es[k])
    decreases |es|
  {
    if es != [] && !Faults(s, es[0]) {
      var k := FirstFault(Step(s, es[0]), es[1..]);
      FaultAtFirst(Step(s, es[0]), es[1..]);
      assert es[..k + 1][1..] == es[1..][..k];
    }
  }

  lemma {:induction false} NoneBeforeFirst(s: Sched, es: seq<Event>, j: nat)
    requires j < |es| && Faults(Run(s, es[..j]), es[j])
    ensures FirstFault(s, es) <= j
    decreases |es|
  {
    if j > 0 {
      assert es[..j][1..] == es[1..][..j - 1];
      NoneBeforeFirst(Step(s, es[0]), es[1..], j - 1);
    }
  }

  /** A run that ends with the current task exited has a moment where a running task exits. */
  lemma {:induction false} ExitedSince(s: Sched, es: seq<Event>) returns (i: nat)
    requires Valid(s) && !s.cur.Exited? && Run(s, es).cur.Exited?
    ensures i < |es| && es[i] == Exit && Run(s, es[..i]).cur.Running?
    decreases |es|
  {
    StepValid(s, es[0]);
    if Step(s, es[0]).cur.Exited? {
      i := 0;
      assert es[..0] == [];
    } else {
      i := ExitedSince(Step(s, es[0]), es[1..]);
      i := i + 1;
      assert es[..i][1..] == es[1..][..i - 1];
    }
  }

  /** A running task exits, and later there is an exit while other tasks are in the ring. */
  ghost predicate ExitsTwice(s: Sched, es: seq<Event>, i: nat, j: nat) {
    i < j < |es| && es[i] == es[j] == Exit && Run(s, es[..i]).cur.Running? && Run(s, es[..j]).ring != []
  }

  /** A run comes to a fault if and only if some task exits and, with any task left or created since, there is an
      exit again. */
  lemma SecondExitFaultsExactly(s: Sched, es: seq<Event>)
    requires Valid(s) && !s.cur.Exited?
    ensures FirstFault(s, es) < |es| <==> exists i: nat, j: nat :: ExitsTwice(s, es, i, j)
  {
    var k := FirstFault(s, es);
    if k < |es| {
      FaultAtFirst(s, es);
      var i := ExitedSince(s, es[..k]);
      assert es[..k][..i] == es[..i];
      assert ExitsTwice(s, es, i, k);
    }
    if i: nat, j: nat :| ExitsTwice(s, es, i, j) {
      StaysExited(s, es, i, j);
      NoneBeforeFirst(s, es, j);
    }
  }

  lemma StaysExited(s: Sched, es: seq<Event>, i: nat, j: nat)
    requires Valid(s) && i < j <= |es| && es[i] == Exit && Run(s, es[..i]).cur.Running?
    ensures Run(s, es[..j]).cur.Exited?
  {
    RunValid(s, es[..i]);
    RunSnoc(s, es, i);
    var t := Run(s, es[..i + 1]);
    ExitValid(Run(s, es[..i]));
    assert es[..j] == es[..i + 1] + es[i + 1..j];
    RunConcat(s, es[..i + 1], es[i + 1..j]);
    ExitNeverHandsOver(t, es[i + 1..j]);
  }

  /** A task in the ring other than the current one can still become current if and only if the current task
      has not exited. */
  lemma SchedulableExactly(s: Sched, t: int)
    requires Valid(s) && t in s.ring
    ensures (exists es :: Run(s, es).cur == Running(t)) <==> !s.cur.Exited?
  {
    if s.cur.Exited? {
      forall es ensures Run(s, es).cur != Running(t) { ExitNeverHandsOver(s, es); }
    } else {
      var d := Distance(s, t);
      AllCalls(s, d);
      NoCreates(d);
      var k := Fairness(s, Schedules(d), t);
    }
  }

  lemma {:induction false} AllCalls(s: Sched, d: nat)
    ensures CallCount(s, Schedules(d)) == d
    decreases d
  {
    if d > 0 {
      assert Schedules(d)[1..] == Schedules(d - 1) && Schedules(d)[0] == Schedule;
      AllCalls(DoSchedule(s), d - 1);
    }
  }

  lemma {:induction false} NoCreates(d: nat)
    ensures CreateCount(Schedules(d)) == 0
  {
    if d > 0 {
      assert Schedules(d)[1..] == Schedules(d - 1) && Schedules(d)[0] == Schedule;
      NoCreates(d - 1);
    }
  }

  // ---- the "tasks exist" flag ----

  ghost predicate FlagExact(s: Sched) {
    s.exist <==> s.ring != []
  }

  /** A successful kill of the only task. */
  ghost predicate EmptyingKill(s: Sched, e: Event) {
    e.Kill? && KillCode(s, e.pid) == 0 && |s.ring| == 1
  }

  /** One event spoils an exact flag if and only if it kills the only task; a spoilt flag is repaired by a
      creation and by nothing else. */
  lemma FlagStep(s: Sched, e: Event)
    requires Valid(s)
    ensures FlagExact(s) ==> (FlagExact(Step(s, e)) <==> !EmptyingKill(s, e))
    ensures !FlagExact(s) ==> (FlagExact(Step(s, e)) <==> e.Create?)
  {
    match e {
      case Kill(pid) => if KillCode(s, pid) == 0 { WithoutAt(s.ring, pid); }
      case Exit => if s.cur.Running? { WithoutAt(s.ring, s.cur.pid); }
      case Create =>
      case Schedule =>
      case Yield =>
      case Tick =>
      case CreateFails =>
      case Find(_) =>
    }
  }

  /** Event k of the run kills the only task, and no task is created afterwards. */
  ghost predicate LostAt(s: Sched, es: seq<Event>, k: nat) {
    k < |es| && EmptyingKill(Run(s, es[..k]), es[k]) && Create !in es[k + 1..]
  }

  /** Over whole runs the flag is wrong in the end if and only if the last task was killed, rather than exited,
      and no task has been created since. */
  lemma {:induction false} FlagLostExactly(s: Sched, es: seq<Event>)
    requires Valid(s)
    ensures FlagExact(Run(s, es)) <==> !((!FlagExact(s) && Create !in es) || exists k: nat :: LostAt(s, es, k))
    decreases |es|
  {
    if es != [] {
      var s', rest := Step(s, es[0]), es[1..];
      StepValid(s, es[0]);
      FlagStep(s, es[0]);
      FlagLostExactly(s', rest);
      assert es == [es[0]] + rest && es[..0] == [];
      assert LostAt(s, es, 0) <==> EmptyingKill(s, es[0]) && Create !in rest;
      forall k: nat | k < |rest| ensures LostAt(s', rest, k) <==> LostAt(s, es, k + 1) {
        LostLater(s, es, k);
      }
      if k: nat :| LostAt(s, es, k) && k > 0 {
        assert LostAt(s', rest, k - 1);
      }
    }
  }

  lemma LostLater(s: Sched, es: seq<Event>, k: nat)
    requires es != [] && k < |es| - 1
    ensures LostAt(Step(s, es[0]), es[1..], k) <==> LostAt(s, es, k + 1)
  {
    assert es[..k + 1][1..] == es[1..][..k];
    assert es[k + 2..] == es[1..][k + 1..];
  }

  /** From the start of the scheduler: tasks exist exactly while the flag says so, unless the last one was killed. */
  lemma FlagFromStart(es: seq<Event>)
    ensures var s := Run(Start, es); (s.exist <==> s.ring != []) <==> !exists k: nat :: LostAt(Start, es, k)
  {
    FlagLostExactly(Start, es);
  }

  /** The shortest such run. */
  lemma FlagOutlivesTasks()
    ensures var s := Run(Start, [Create, Kill(1)]); s.ring == [] && s.exist
  {
  }
}
