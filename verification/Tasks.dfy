/** Creating, killing and leaving tasks: the run queue and the heap together. The heap serves tasks only, and each task
    owns two blocks of it, its structure and its stack, also after it has exited. */
module Tasks {
  import opened HeapSpec
  import opened HeapRuns
  import opened Heap
  import opened RunQueue
  import S = SchedSpec
  import opened TaskRuns

  const TASK_SIZE: nat := 280
  const STACK_SIZE: nat := 8192

  ghost predicate StackBlock(ns: seq<Node>, ptr: nat) {
    exists i: nat :: LiveAt(ns, i, ptr) && ns[i].size >= STACK_SIZE
  }

  /** The live blocks are exactly the two blocks of each task. */
  ghost predicate Owned(ns: seq<Node>, ring: seq<Task>) {
    && OwnStacks(ns, ring)
    && (forall k :: 0 <= k < |ring| ==> ring[k].addr != ring[k].stack && Holds(ns, ring[k].addr))
    && (forall n :: n in Live(ns) ==> exists t :: t in ring && (n.addr + 24 == t.addr || n.addr + 24 == t.stack))
  }

  /** Two stacks never fit into the arena together. */
  lemma OneStack(ns: seq<Node>, base: nat, p: nat, q: nat)
    requires Inv(ns, base) && StackBlock(ns, p) && StackBlock(ns, q)
    ensures p == q
  {
    var i: nat :| LiveAt(ns, i, p) && ns[i].size >= STACK_SIZE;
    var j: nat :| LiveAt(ns, j, q) && ns[j].size >= STACK_SIZE;
    NoRoom(ns, base, i, j);
  }

  lemma NoRoom(ns: seq<Node>, base: nat, i: nat, j: nat)
    requires Inv(ns, base) && i < |ns| && j < |ns| && ns[i].size >= STACK_SIZE && ns[j].size >= STACK_SIZE
    ensures i == j
  {
    if i < j { TilesOrder(ns, base, i, j); }
    if j < i { TilesOrder(ns, base, j, i); }
  }

  /** Every task has a stack block of its own. */
  ghost predicate OwnStacks(ns: seq<Node>, ring: seq<Task>) {
    && (forall k :: 0 <= k < |ring| ==> StackBlock(ns, ring[k].stack))
    && (forall k, l :: 0 <= k < l < |ring| ==> ring[k].stack != ring[l].stack)
  }

  /** So no reachable state has two tasks: the 16 KiB heap "for multiple tasks" holds exactly one. */
  lemma AtMostOneTask(ns: seq<Node>, base: nat, ring: seq<Task>)
    requires Inv(ns, base) && OwnStacks(ns, ring)
    ensures |ring| <= 1
  {
    if |ring| > 1 { OneStack(ns, base, ring[0].stack, ring[1].stack); }
  }

  /** While one stack is allocated no second one can be. */
  lemma SecondStackFails(ns: seq<Node>, base: nat, p: nat)
    requires Inv(ns, base) && StackBlock(ns, p)
    ensures Malloc(ns, STACK_SIZE) == (ns, 0)
  {
    var i: nat :| LiveAt(ns, i, p) && ns[i].size >= STACK_SIZE;
    var f := FirstFit(ns, Rounded(STACK_SIZE), 0);
    if f < |ns| { NoRoom(ns, base, i, f); }
  }

  lemma StackSurvives(ns: seq<Node>, base: nat, p: nat, request: nat)
    requires Inv(ns, base) && StackBlock(ns, p) && request > 0
    ensures Inv(Malloc(ns, request).0, base) && StackBlock(Malloc(ns, request).0, p)
  {
    var i: nat :| LiveAt(ns, i, p) && ns[i].size >= STACK_SIZE;
    var r := Rounded(request);
    var f := FirstFit(ns, r, 0);
    if f < |ns| {
      PlaceInv(ns, base, f, r);
      PlaceLive(ns, base, f, r);
      var ms := Place(ns, f, r);
      assert ns[i] in Live(ns);
      assert ns[i] in Live(ms);
      var k: nat :| k < |ms| && ms[k] == ns[i];
      assert LiveAt(ms, k, p);
    }
  }

  /** The heap with one task in it. */
  ghost function WithTask(base: nat): seq<Node> {
    [Node(base, 280, false), Node(base + 304, 8192, false), Node(base + 8520, 7840, true)]
  }

  lemma FirstTaskFits(base: nat)
    requires base > 0
    ensures var (ns, p) := Malloc(Initial(base), TASK_SIZE); var (ms, q) := Malloc(ns, STACK_SIZE);
      ms == WithTask(base) && p == base + 24 && q == base + 328
  {
    var i0 := Initial(base);
    assert FirstFit(i0, 280, 0) == 0;
    var ns := [Node(base, 280, false), Node(base + 304, 16056, true)];
    assert Place(i0, 0, 280) == ns;
    assert FirstFit(ns, 8192, 0) == 1 by { assert FirstFit(ns, 8192, 0) == FirstFit(ns, 8192, 1); }
    assert Place(ns, 1, 8192) == WithTask(base);
  }

  lemma MallocInv(ns: seq<Node>, base: nat, request: nat)
    requires Inv(ns, base) && request > 0
    ensures Inv(Malloc(ns, request).0, base)
  {
    var i := FirstFit(ns, Rounded(request), 0);
    if i < |ns| { PlaceInv(ns, base, i, Rounded(request)); }
  }

  /** Structure and stack allocated, then stack and structure freed: the block list is back as it was,
      whatever else the heap holds. */
  lemma CreateKillHeap(ns: seq<Node>, base: nat, a: nat, b: nat, i: nat, j: nat)
    requires Inv(ns, base) && a > 0 && b > 0
    requires Malloc(ns, a).1 != 0 && Malloc(Malloc(ns, a).0, b).1 != 0
    requires LiveAt(Malloc(Malloc(ns, a).0, b).0, j, Malloc(Malloc(ns, a).0, b).1)
    requires LiveAt(Release(Malloc(Malloc(ns, a).0, b).0, j), i, Malloc(ns, a).1)
    ensures Release(Release(Malloc(Malloc(ns, a).0, b).0, j), i) == ns
  {
    var ms := Malloc(ns, a).0;
    MallocInv(ns, base, a);
    MallocThenFree(ms, base, b, j);
    assert Release(Malloc(ms, b).0, j) == ms;
    MallocThenFree(ns, base, a, i);
  }

  /** The second allocation of a task: if it fails, the first is given back and the heap is as before. */
  method AllocateStack(heap: KernelHeap, addr: nat, ghost ns: seq<Node>) returns (stack: nat)
    requires heap.Valid() && heap.head != 0 && Inv(ns, heap.base)
    requires (heap.nodes, addr) == Malloc(ns, TASK_SIZE) && addr != 0
    modifies heap
    ensures heap.Valid() && heap.head == old(heap.head)
    ensures var (ms, q) := Malloc(Malloc(ns, TASK_SIZE).0, STACK_SIZE);
      stack == q && heap.nodes == if q == 0 then ns else ms
  {
    stack := heap.Malloc(STACK_SIZE);
    if stack == 0 {
      var i := TakenAt(ns, heap.base, TASK_SIZE);
      MallocThenFree(ns, heap.base, TASK_SIZE, i);
      heap.Free(addr);
    }
  }

  lemma TakenAt(ns: seq<Node>, base: nat, request: nat) returns (i: nat)
    requires Inv(ns, base) && request > 0 && Malloc(ns, request).1 != 0
    ensures var (ms, ptr) := Malloc(ns, request); LiveAt(ms, i, ptr) && ptr <= base + 16384
  {
    i := FirstFit(ns, Rounded(request), 0);
    PlaceAt(ns, i, Rounded(request));
    TilesSplit(ns, i, base);
  }

  /** With no task the heap is empty and both allocations succeed; with one, the structure fits and the stack
      does not. */
  lemma CreateCases(ns: seq<Node>, base: nat, ring: seq<Task>)
    requires Inv(ns, base) && base > 0 && base % 4096 == 0 && Owned(ns, ring) && (ring != [] ==> ns == WithTask(base))
    ensures var (ms, p) := Malloc(ns, TASK_SIZE); var (ls, q) := Malloc(ms, STACK_SIZE);
      && p != 0
      && (ring == [] ==> p == base + 24 && q == base + 328 && ls == WithTask(base))
      && (ring != [] ==> q == 0)
  {
    if ring == [] {
      InitialInv(base);
      assert Live(ns) == {};
      Canonical(ns, Initial(base), base);
      FirstTaskFits(base);
    } else {
      var p := ring[0].stack;
      assert Fits(ns[2], Rounded(TASK_SIZE));
      StackSurvives(ns, base, p, TASK_SIZE);
      SecondStackFails(Malloc(ns, TASK_SIZE).0, base, p);
    }
  }

  lemma OwnedByOne(base: nat, task: Task)
    requires task.addr == base + 24 && task.stack == base + 328
    ensures Owned(WithTask(base), [task])
  {
    var ns := WithTask(base);
    assert LiveAt(ns, 0, task.addr) && LiveAt(ns, 1, task.stack);
  }

  lemma InArena(ns: seq<Node>, base: nat, i: nat, ptr: nat)
    requires Inv(ns, base) && LiveAt(ns, i, ptr)
    ensures base + 24 <= ptr <= base + 16384
  {
    TilesSplit(ns, i, base);
  }

  /** Freeing the last two live blocks, one after the other, leaves the heap as it started. */
  lemma FreeLastTwo(ns: seq<Node>, base: nat, i: nat, k: nat) returns (j: nat)
    requires Inv(ns, base) && base % 4096 == 0 && i < |ns| && k < |ns| && ns[i] != ns[k]
    requires !ns[i].free && !ns[k].free && Live(ns) == {ns[i], ns[k]}
    ensures Inv(Release(ns, i), base) && LiveAt(Release(ns, i), j, ns[k].addr + 24)
    ensures Release(Release(ns, i), j) == Initial(base)
  {
    ReleaseEffect(ns, base, i);
    var ms := Release(ns, i);
    assert ns[k] in Live(ms);
    j :| j < |ms| && ms[j] == ns[k];
    ReleaseEffect(ms, base, j);
    assert Live(Release(ms, j)) == {};
    InitialInv(base);
    Canonical(Release(ms, j), Initial(base), base);
  }

  /** Freeing the stack and then the structure of the only task empties the heap. */
  lemma KillEmpties(ns: seq<Node>, base: nat, task: Task) returns (i: nat, j: nat)
    requires Inv(ns, base) && base % 4096 == 0 && Owned(ns, [task])
    ensures LiveAt(ns, i, task.stack) && base + 24 <= task.stack <= base + 16384
    ensures Inv(Release(ns, i), base) && LiveAt(Release(ns, i), j, task.addr) && task.addr <= base + 16384
    ensures Release(Release(ns, i), j) == Initial(base)
  {
    var one := [task];
    assert one[0] == task;
    i :| LiveAt(ns, i, task.stack) && ns[i].size >= STACK_SIZE;
    var k: nat :| LiveAt(ns, k, task.addr);
    InArena(ns, base, i, task.stack);
    InArena(ns, base, k, task.addr);
    forall n ensures n in Live(ns) <==> n == ns[i] || n == ns[k] {
      if n in Live(ns) { SameBlock(ns, base, n, task, i, k); }
    }
    j := FreeLastTwo(ns, base, i, k);
  }

  lemma SameBlock(ns: seq<Node>, base: nat, n: Node, task: Task, i: nat, k: nat)
    requires Inv(ns, base) && Owned(ns, [task]) && n in Live(ns)
    requires LiveAt(ns, i, task.stack) && LiveAt(ns, k, task.addr)
    ensures n == ns[i] || n == ns[k]
  {
    DistinctAddrs(ns, base);
    var t :| t in [task] && (n.addr + 24 == t.addr || n.addr + 24 == t.stack);
    assert t == task;
    var l: nat :| l < |ns| && ns[l] == n;
  }

  /** The only owner keeps its memory when it leaves the ring. */
  lemma OneLeft(was: seq<Task>, now: seq<Task>, owners: seq<Task>, current: Task?)
    requires |owners| <= 1 && owners == was + if current != null && current !in was then [current] else []
    requires forall t :: t in now ==> t in was
    requires if current == null then now == was else current !in now
    ensures owners == now + if current != null && current !in now then [current] else []
    ensures current != null ==> now == []
  {
    HasFirst(now);
  }

  /** A task that is killed was the only one. */
  lemma KilledAlone(was: seq<Task>, now: seq<Task>, owners: seq<Task>, target: Task, current: Task?)
    requires |owners| <= 1 && owners == was + if current != null && current !in was then [current] else []
    requires target in was && target != current && forall t :: t in now <==> t in was && t != target
    ensures owners == [target] && now == [] && current == null
  {
    assert owners == was == [target];
    HasFirst(now);
  }

  lemma HasFirst(ts: seq<Task>)
    ensures ts != [] ==> exists t :: t in ts
  {
    if ts != [] { assert ts[0] in ts; }
  }

  class TaskManager {
    const sched: Scheduler
    const heap: KernelHeap

    /** The task that has exited. It stays the current one for good, so there is never more than one. */
    ghost function Gone(): seq<Task>
      reads this, sched
    {
      if sched.current != null && sched.current !in sched.ring then [sched.current] else []
    }

    /** All tasks that own memory. */
    ghost function Owners(): seq<Task>
      reads this, sched
    {
      sched.ring + Gone()
    }

    ghost predicate Valid()
      reads this, sched, sched.ring, sched.current, heap, heap.pmm, heap.pmm.bitmap
    {
      sched.Valid() && Serves(Owners())
    }

    /** The heap holds the blocks of these tasks and nothing else. */
    ghost predicate Serves(owners: seq<Task>)
      reads this, heap, heap.pmm, heap.pmm.bitmap
    {
      && heap.Valid() && heap.head != 0
      && Owned(heap.nodes, owners) && (owners != [] ==> heap.nodes == WithTask(heap.base))
    }

    constructor (sched: Scheduler, heap: KernelHeap)
      requires sched.Valid() && sched.View() == S.Start && sched.ring == []
      requires heap.Valid() && heap.head != 0 && heap.nodes == Initial(heap.base)
      ensures Valid() && this.sched == sched && this.heap == heap
    {
      this.sched, this.heap := sched, heap;
      new;
      InitialInv(heap.base);
    }

    /** There is at most one owner; so the view has at most one task in use, and no exit goes through a null link. */
    lemma OneOwner()
      requires Valid()
      ensures |Owners()| <= 1 && InUse(sched.state) == |Owners()| && !sched.FollowsNull()
      ensures Owners() == [] <==> CanCreate(sched.state)
    {
      AtMostOneTask(heap.nodes, heap.base, Owners());
      sched.FollowsNullExactly();
    }

    /** Creating a task succeeds if and only if there is no task and none has exited. A failed creation leaves ring and
        heap exactly as they were, but uses up a process id. */
    method Create() returns (task: Task?)
      requires Valid() && sched.nextPid < 0x7FFF_FFFF
      modifies heap, sched, sched.ring
      ensures Valid() && sched.current == old(sched.current)
      ensures task != null <==> old(CanCreate(sched.state))
      ensures sched.state == S.Step(old(sched.state), if task != null then S.Create else S.CreateFails)
      ensures task == null ==> sched.ring == old(sched.ring) && heap.nodes == old(heap.nodes)
      ensures task != null ==> fresh(task) && sched.ring == [task] && heap.nodes == WithTask(heap.base)
    {
      OneOwner();
      var pid, addr, stack := Reserve(Owners());
      if stack == 0 { return null; }
      task := Launch(pid, addr, stack);
    }

    /** The two allocations and, between them, the process id. */
    method Reserve(ghost owners: seq<Task>) returns (pid: int, addr: nat, stack: nat)
      requires sched.Valid() && Serves(owners)
      modifies heap, sched`nextPid, sched`state
      ensures sched.Valid() && sched.state == S.Step(old(sched.state), S.CreateFails) && pid == old(sched.nextPid)
      ensures heap.Valid() && heap.head != 0
      ensures owners == [] ==> addr == heap.base + 24 && stack == heap.base + 328 && heap.nodes == WithTask(heap.base)
      ensures owners != [] ==> stack == 0 && heap.nodes == old(heap.nodes)
    {
      ghost var ns := heap.nodes;
      CreateCases(ns, heap.base, owners);
      pid, stack := 0, 0;
      addr := heap.Malloc(TASK_SIZE);
      if addr == 0 {
        assert false;
      }
      pid := sched.TakePid();
      stack := AllocateStack(heap, addr, ns);
    }

    /** Puts the new task, the only one, into the run queue. */
    method Launch(pid: int, addr: nat, stack: nat) returns (task: Task)
      requires sched.Valid() && heap.Valid() && heap.head != 0 && heap.nodes == WithTask(heap.base)
      requires addr == heap.base + 24 && stack == heap.base + 328
      requires sched.ring == [] && sched.current == null && 1 <= pid < sched.nextPid
      modifies sched
      ensures Valid() && fresh(task) && sched.ring == [task] && sched.current == null
      ensures sched.state == old(sched.state).(ring := [pid], exist := true)
    {
      task := new Task(pid, addr, stack);
      OwnedByOne(heap.base, task);
      sched.Add(task);
      assert sched.ring == [task] && Owners() == [task];
    }

    /** Killing a task: -1 if there is none with that id, -2 if it is the current one; otherwise ring and
        heap are as they were before it was created. */
    method Kill(pid: int) returns (code: int)
      requires Valid()
      modifies heap, sched, sched.ring
      ensures Valid() && code == S.KillCode(old(sched.state), pid)
      ensures code == -1 <==> pid <= 0 || pid !in old(Pids(sched.ring))
      ensures code == -2 <==> (&& pid > 0 && pid in old(Pids(sched.ring)) && old(sched.current) != null
                               && old(sched.current) in old(sched.ring) && old(sched.current).pid == pid)
      ensures code == -1 || code == -2 || code == 0
      ensures sched.state == S.DoKill(old(sched.state), pid)
      ensures code != 0 ==> sched.ring == old(sched.ring) && heap.nodes == old(heap.nodes)
      ensures code == 0 ==> sched.ring == [] && heap.nodes == Initial(heap.base)
    {
      var target: Task?;
      code, target := Unqueue(pid);
      if code == 0 {
        Reap(target);
      }
    }

    /** The scheduler's part of it. */
    method Unqueue(pid: int) returns (code: int, target: Task?)
      requires Valid()
      modifies sched, sched.ring
      ensures sched.state == S.DoKill(old(sched.state), pid) && code == S.KillCode(old(sched.state), pid)
      ensures code == -1 <==> pid <= 0 || pid !in old(Pids(sched.ring))
      ensures code == -2 <==> (&& pid > 0 && pid in old(Pids(sched.ring)) && sched.current != null
                               && sched.current in old(sched.ring) && sched.current.pid == pid)
      ensures code == -1 || code == -2 || code == 0
      ensures code != 0 ==> Valid() && sched.ring == old(sched.ring)
      ensures code == 0 ==>
        target != null && sched.Valid() && Serves([target]) && sched.ring == [] && sched.current == null
    {
      OneOwner();
      ghost var ring, owners := sched.ring, Owners();
      code, target := sched.Kill(pid);
      if code == 0 {
        KilledAlone(ring, sched.ring, owners, target, sched.current);
      }
    }

    /** The memory of the last task, which has just left the ring. */
    method Reap(target: Task)
      requires sched.Valid() && sched.ring == [] && sched.current == null && Serves([target])
      modifies heap
      ensures Valid() && heap.nodes == Initial(heap.base)
    {
      FreeTask(target);
      InitialInv(heap.base);
      assert Owners() == [];
    }

    method FreeTask(target: Task)
      requires heap.Valid() && heap.head != 0 && Owned(heap.nodes, [target])
      modifies heap
      ensures heap.Valid() && heap.head == old(heap.head) && heap.nodes == Initial(heap.base)
    {
      ghost var i, j := KillEmpties(heap.nodes, heap.base, target);
      if target.stack != 0 {
        heap.Free(target.stack);
      }
      heap.Free(target.addr);
    }

    method Schedule()
      requires Valid()
      modifies sched
      ensures Valid() && sched.state == S.DoSchedule(old(sched.state)) && sched.ring == old(sched.ring)
    {
      OneOwner();
      sched.Schedule();
    }

    method Yield()
      requires Valid()
      modifies sched
      ensures Valid() && sched.state == S.Step(old(sched.state), S.Yield) && sched.ring == old(sched.ring)
    {
      OneOwner();
      sched.Yield();
    }

    /** The current task leaves the ring for good. Its memory stays allocated. */
    method Exit()
      requires Valid()
      modifies sched, sched.ring
      ensures Valid() && sched.state == S.DoExit(old(sched.state)) && heap.nodes == old(heap.nodes)
      ensures sched.current == old(sched.current) && (sched.ring == [] || sched.ring == old(sched.ring))
      ensures old(sched.current) != null ==> sched.ring == []
    {
      OneOwner();
      ghost var owners, ring := Owners(), sched.ring;
      sched.Exit();
      OneLeft(ring, sched.ring, owners, sched.current);
      assert Owners() == owners;
    }

    method Tick()
      requires Valid()
      modifies sched
      ensures Valid() && sched.state == S.DoTick(old(sched.state)) && sched.ring == old(sched.ring)
    {
      sched.Tick();
    }

    /** A command that creates or ends no task. */
    method PerformOnRing(c: Command)
      requires Valid() && !c.NewTask? && !c.KillTask? && !c.ExitTask?
      modifies sched
      ensures Valid() && sched.state == SysStep(old(sched.state), c) && sched.ring == old(sched.ring)
    {
      Means(sched.state, c);
      match c {
        case Reschedule => Schedule();
        case ClockTick => Tick();
        case YieldCpu => Yield();
        case Lookup(pid) => var found := sched.Find(pid);
      }
    }

    /** Any command, in any valid state. */
    method Perform(c: Command)
      requires Valid() && sched.nextPid < 0x7FFF_FFFF
      modifies heap, sched, sched.ring
      ensures Valid() && sched.state == SysStep(old(sched.state), c)
      ensures forall k :: 0 <= k < |sched.ring| ==> sched.ring[k] in old(sched.ring) || fresh(sched.ring[k])
    {
      Means(sched.state, c);
      if c.NewTask? {
        var task := Create();
      } else if c.KillTask? {
        var code := Kill(c.pid);
      } else if c.ExitTask? {
        Exit();
      } else {
        PerformOnRing(c);
      }
    }

    /** Whatever commands are given one after the other, ring, current task and heap go the way of the system's run,
        about which `TaskRuns.CreationExactly` and `TaskRuns.NoTaskAfterExit` speak. */
    method Drive(cs: seq<Command>)
      requires Valid() && sched.nextPid + |cs| <= 0x7FFF_FFFF
      modifies heap, sched, sched.ring
      ensures Valid() && sched.state == SysRun(old(sched.state), cs)
    {
      ghost var v := sched.state;
      for i := 0 to |cs|
        invariant Valid() && sched.state == SysRun(v, cs[..i]) && sched.nextPid <= v.nextPid + i
        invariant forall k :: 0 <= k < |sched.ring| ==> sched.ring[k] in old(sched.ring) || fresh(sched.ring[k])
      {
        ghost var was := sched.ring;
        assert cs[..i + 1][..i] == cs[..i];
        PidStep(sched.state, cs[i]);
        Perform(cs[i]);
        forall k | 0 <= k < |sched.ring| ensures sched.ring[k] in old(sched.ring) || fresh(sched.ring[k]) {
          if sched.ring[k] in was { assert was[S.IndexOf(was, sched.ring[k])] == sched.ring[k]; }
        }
      }
      assert cs[..|cs|] == cs;
    }
  }

  lemma PidStep(v: S.Sched, c: Command)
    ensures SysStep(v, c).nextPid <= v.nextPid + 1
  {
  }
}
