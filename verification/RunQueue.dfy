/** The run queue as the kernel keeps it: task objects in a circular doubly linked list, relinked in place. */
module RunQueue {
  import S = SchedSpec

  class Task {
    const pid: int
    /** Heap addresses of the task structure and of its stack. */
    const addr: nat
    const stack: nat
    var next: Task?
    var prev: Task?

    constructor (pid: int, addr: nat, stack: nat)
      ensures this.pid == pid && this.addr == addr && this.stack == stack && next == null && prev == null
    {
      this.pid, this.addr, this.stack := pid, addr, stack;
      next, prev := null, null;
    }
  }

  ghost function Pids(ring: seq<Task>): (ps: seq<int>)
    ensures |ps| == |ring| && forall i :: 0 <= i < |ring| ==> ps[i] == ring[i].pid
  {
    seq(|ring|, i requires 0 <= i < |ring| => ring[i].pid)
  }

  ghost function Pred(n: nat, i: nat): nat
    requires i < n
  {
    if i == 0 then n - 1 else i - 1
  }

  /** The neighbours of i once j has been taken out. */
  ghost function SuccPast(n: nat, j: nat, i: nat): nat
    requires i < n && j < n
  {
    if S.Succ(n, i) == j then S.Succ(n, j) else S.Succ(n, i)
  }

  ghost function PredPast(n: nat, j: nat, i: nat): nat
    requires i < n && j < n
  {
    if Pred(n, i) == j then Pred(n, j) else Pred(n, i)
  }

  /** next and prev lead round the ring in both directions. */
  ghost predicate Circular(ring: seq<Task>)
    reads ring
  {
    && (forall i :: 0 <= i < |ring| ==> ring[i].next == ring[S.Succ(|ring|, i)])
    && (forall i :: 0 <= i < |ring| ==> ring[i].prev == ring[Pred(|ring|, i)])
  }

  class Scheduler {
    var current: Task?
    var runqueue: Task?
    var nextPid: int
    var needSchedule: bool
    var tasksExist: bool
    var counter: nat
    ghost var ring: seq<Task>
    ghost var state: S.Sched

    ghost function Cur(): S.Current
      reads this
    {
      if current == null then S.Idle
      else if current in ring then S.Running(current.pid)
      else S.Exited(current.pid)
    }

    ghost function View(): S.Sched
      reads this
    {
      S.Sched(Pids(ring), Cur(), nextPid, needSchedule, tasksExist, counter)
    }

    ghost predicate Valid()
      reads this, ring, current
    {
      && runqueue == (if ring == [] then null else ring[0])
      && Circular(ring)
      && View() == state && S.Valid(state)
      && (current != null && current !in ring ==> current.next == null && current.prev == null)
    }

    /** What an exit would do next to the exited task's links: it passes the tests of an empty queue and of a
        task that is its own successor, and then goes through the previous link, which is null. */
    ghost predicate FollowsNull()
      reads this, current
    {
      current != null && runqueue != null && current.next != current && current.prev == null
    }

    /** In every valid state an exit goes through a null link exactly when the specification says that it faults. */
    lemma FollowsNullExactly()
      requires Valid()
      ensures FollowsNull() <==> S.Faults(View(), S.Exit)
    {
      if current != null && current in ring {
        var i := S.IndexOf(ring, current);
        assert ring[i].prev == ring[Pred(|ring|, i)];
      }
    }

    constructor ()
      ensures Valid() && View() == S.Start && ring == []
    {
      current, runqueue, nextPid := null, null, 1;
      needSchedule, tasksExist, counter, ring := false, false, 0, [];
      state := S.Start;
    }

    /** The next process id, used up whether or not the task comes into being. */
    method TakePid() returns (pid: int)
      requires Valid()
      modifies this`nextPid, this`state
      ensures Valid() && pid == old(nextPid) && View() == S.Step(old(View()), S.CreateFails)
      ensures nextPid == old(nextPid) + 1
    {
      S.StepValid(state, S.CreateFails);
      pid := nextPid;
      nextPid := nextPid + 1;
      state := S.Step(state, S.CreateFails);
    }

    /** Inserts a task in front of the head and makes it the head. */
    method Add(task: Task)
      requires Valid() && task !in ring && task != current
      requires task.pid !in Pids(ring) && 1 <= task.pid < nextPid && (current != null ==> current.pid != task.pid)
      modifies this`state, this`runqueue, this`tasksExist, this`ring, task, ring
      ensures Valid() && ring == [task] + old(ring) && tasksExist
      ensures View() == old(View()).(ring := [task.pid] + old(View()).ring, exist := true)
    {
      S.PrependNoDup(Pids(ring), task.pid);
      state := state.(ring := [task.pid] + state.ring, exist := true);
      tasksExist := true;
      LinkFirst(task);
      assert Pids(ring) == state.ring;
    }

    method LinkFirst(task: Task)
      requires runqueue == (if ring == [] then null else ring[0]) && Circular(ring)
      requires S.NoDup(Pids(ring)) && task !in ring
      modifies this`runqueue, this`ring, task, ring
      ensures runqueue == task && Circular(ring) && ring == [task] + old(ring)
    {
      DistinctTasks(ring);
      if runqueue == null {
        runqueue := task;
        task.next := task;
        task.prev := task;
        ring := [task];
        assert ring == [task] + old(ring);
      } else {
        ghost var n := |ring|;
        assert runqueue.prev == ring[n - 1];
        task.next := runqueue;
        task.prev := runqueue.prev;
        runqueue.prev.next := task;
        runqueue.prev := task;
        runqueue := task;
        forall i | 0 <= i < n - 1 ensures ring[i].next == ring[i + 1] { assert old(ring[i].next) == ring[S.Succ(n, i)]; }
        forall i | 0 < i < n ensures ring[i].prev == ring[i - 1] { assert old(ring[i].prev) == ring[Pred(n, i)]; }
        FirstCircular(task, ring);
        ring := [task] + ring;
      }
    }

    method Schedule()
      requires Valid()
      modifies this`state, this`current
      ensures Valid() && View() == S.DoSchedule(old(View()))
      ensures current == old(current) || current in ring
      ensures old(current) != null && old(current) !in ring ==> current == old(current)
    {
      if runqueue == null { return; }
      var next: Task? := null;
      if current == null {
        next := runqueue;
      } else {
        next := current.next;
      }
      Successor();
      if next != null && next != current {
        current := next;
      }
      state := S.DoSchedule(state);
    }

    /** The current task's next pointer is its successor in the ring. */
    lemma Successor()
      requires Valid() && ring != []
      ensures current != null && current in ring ==>
        current.next in ring && current.next.pid == S.NextOf(Pids(ring), current.pid)
      ensures S.Valid(S.DoSchedule(state))
    {
    }

    method Tick()
      requires Valid()
      modifies this`state, this`counter, this`needSchedule
      ensures Valid() && View() == S.DoTick(old(View()))
      ensures !tasksExist ==> counter == old(counter) && needSchedule == old(needSchedule)
      ensures tasksExist && old(counter) < 24 ==> counter == old(counter) + 1 && needSchedule == old(needSchedule)
      ensures tasksExist && old(counter) == 24 ==> counter == 0 && needSchedule
    {
      if !tasksExist { return; }
      counter := counter + 1;
      if counter >= 25 {
        counter := 0;
        needSchedule := true;
      }
      state := S.DoTick(state);
    }

    method Yield()
      requires Valid()
      modifies this`state, this`current, this`needSchedule
      ensures Valid() && View() == S.Step(old(View()), S.Yield)
      ensures !needSchedule && (!old(needSchedule) ==> current == old(current))
      ensures current == old(current) || current in ring
      ensures old(current) != null && old(current) !in ring ==> current == old(current)
    {
      if needSchedule {
        needSchedule := false;
        state := state.(need := false);
        Schedule();
      }
    }

    /** Both searches by process id are this loop: once round the ring from the head. */
    method Find(pid: int) returns (found: Task?)
      requires Valid()
      ensures found != null <==> pid > 0 && pid in Pids(ring)
      ensures found != null ==> found in ring && found.pid == pid
    {
      found := null;
      if pid <= 0 || runqueue == null { return; }
      var cursor := runqueue;
      ghost var i := 0;
      while true
        invariant 0 <= i < |ring| && cursor == ring[i]
        invariant forall k :: 0 <= k < i ==> ring[k].pid != pid
        decreases |ring| - i
      {
        if cursor.pid == pid {
          found := cursor;
          assert Pids(ring)[i] == pid;
          return;
        }
        assert cursor.next == ring[S.Succ(|ring|, i)];
        cursor := cursor.next;
        if cursor == runqueue {
          DistinctTasks(ring);
          assert i + 1 == |ring|;
          break;
        }
        i := i + 1;
      }
      assert forall k :: 0 <= k < |ring| ==> Pids(ring)[k] != pid;
    }

    /** Kills a task by process id: -1 if there is none, -2 if it is the current one, else it is taken
        out of the ring. Freeing its memory is up to the caller. */
    method Kill(pid: int) returns (code: int, target: Task?)
      requires Valid()
      modifies this`state, this`runqueue, this`ring, ring
      ensures Valid() && View() == S.DoKill(old(View()), pid) && code == S.KillCode(old(View()), pid)
      ensures code == -1 <==> pid <= 0 || pid !in old(Pids(ring))
      ensures code == -2 <==> pid > 0 && pid in old(Pids(ring)) && current != null && current in old(ring) && current.pid == pid
      ensures code == -1 || code == -2 || code == 0
      ensures code != 0 ==> ring == old(ring) && target == null
      ensures code == 0 ==> target != null && target in old(ring) && target.pid == pid && target != current
      ensures code == 0 ==> forall t :: t in ring <==> t in old(ring) && t != target
    {
      target := Find(pid);
      if target == null { return -1, null; }
      if target == current { return -2, null; }
      TakeOut(target);
      code := 0;
    }

    method TakeOut(target: Task)
      requires Valid() && target in ring && target != current
      modifies this`state, this`runqueue, this`ring, ring
      ensures Valid() && S.KillCode(old(View()), target.pid) == 0
      ensures View() == S.DoKill(old(View()), target.pid)
      ensures forall t :: t in ring <==> t in old(ring) && t != target
    {
      CurrentPid(target);
      ghost var was, after := state, S.DoKill(state, target.pid);
      S.KillValid(was, target.pid);
      state := after;
      Unlink(target);
      assert Cur() == was.cur && state == after;
    }

    method Unlink(task: Task)
      requires runqueue == (if ring == [] then null else ring[0]) && Circular(ring)
      requires S.NoDup(Pids(ring)) && task in ring
      modifies this`runqueue, this`ring, ring
      ensures runqueue == (if ring == [] then null else ring[0]) && Circular(ring)
      ensures task.pid in old(Pids(ring)) && Pids(ring) == S.Without(old(Pids(ring)), task.pid)
      ensures task.next == null && task.prev == null
      ensures forall t :: t in ring <==> t in old(ring) && t != task
    {
      ghost var j := S.IndexOf(ring, task);
      assert Pids(ring)[j] == task.pid;
      CutPids(ring, j);
      Detach(task, j);
    }

    /** Only the current task has the current task's id. */
    lemma CurrentPid(task: Task)
      requires Valid() && task in ring && task != current
      ensures Cur() != S.Running(task.pid)
    {
    }

    /** Takes the task out of the queue; the last one out clears the flag. */
    method Remove(task: Task)
      requires runqueue == (if ring == [] then null else ring[0]) && Circular(ring)
      requires S.NoDup(Pids(ring)) && (task in ring || ring == [])
      modifies this`runqueue, this`ring, this`tasksExist, ring
      ensures runqueue == (if ring == [] then null else ring[0]) && Circular(ring)
      ensures old(ring) == [] ==> ring == [] && tasksExist == old(tasksExist)
      ensures forall t :: t in ring ==> t in old(ring)
      ensures task in old(ring) ==>
        && task.pid in old(Pids(ring)) && Pids(ring) == S.Without(old(Pids(ring)), task.pid)
        && task !in ring && task.next == null && task.prev == null && tasksExist == (old(tasksExist) && |old(ring)| != 1)
    {
      if runqueue == null { return; }
      ghost var j := S.IndexOf(ring, task);
      DistinctTasks(ring);
      assert task.next == ring[S.Succ(|ring|, j)];
      if task.next == task {
        tasksExist := false;
      }
      Unlink(task);
    }

    /** The current task leaves. The scheduler is called, but the links it would follow are already gone. */
    method Exit()
      requires Valid() && !FollowsNull()
      modifies this`state, this`runqueue, this`ring, this`tasksExist, this`current, ring
      ensures Valid() && View() == S.DoExit(old(View())) && current == old(current)
      ensures forall t :: t in ring ==> t in old(ring)
      ensures if current == null then ring == old(ring) else current !in ring
    {
      FollowsNullExactly();
      if current == null { return; }
      if runqueue != null {
        Leave();
      }
      Schedule();
    }

    /** Any event but an exit through a null link. */
    method Perform(e: S.Event)
      requires Valid() && !(e.Exit? && FollowsNull())
      modifies this, ring
      ensures Valid() && View() == S.Step(old(View()), e)
      ensures forall t :: t in ring ==> t in old(ring) || fresh(t)
    {
      match e {
        case Create =>
          var pid := TakePid();
          var task := new Task(pid, 0, 0);
          Add(task);
        case CreateFails => var pid := TakePid();
        case Schedule => Schedule();
        case Tick => Tick();
        case Yield => Yield();
        case Find(pid) => var found := Find(pid);
        case Kill(pid) => var code, target := Kill(pid);
        case Exit => Exit();
      }
    }

    /** Events one after the other, up to an exit that goes through a null link: that is where the specification has
        its first fault, and up to there the queue does what the specification says. */
    method Drive(es: seq<S.Event>) returns (done: nat)
      requires Valid()
      modifies this, ring
      ensures Valid() && done == S.FirstFault(old(View()), es) && View() == S.Run(old(View()), es[..done])
      ensures done < |es| ==> es[done].Exit? && FollowsNull()
    {
      ghost var s := View();
      done := 0;
      while done < |es| && !(es[done].Exit? && current != null && runqueue != null && current.next != current && current.prev == null)
        invariant Valid() && done <= |es| && View() == S.Run(s, es[..done])
        invariant S.FirstFault(s, es) == done + S.FirstFault(View(), es[done..])
        invariant forall k :: 0 <= k < |ring| ==> ring[k] in old(ring) || fresh(ring[k])
      {
        FollowsNullExactly();
        S.RunSnoc(s, es, done);
        S.FaultLater(View(), es, done);
        ghost var was := ring;
        Perform(es[done]);
        forall k | 0 <= k < |ring| ensures ring[k] in old(ring) || fresh(ring[k]) {
          assert ring[k] in ring;
          if ring[k] in was { assert was[S.IndexOf(was, ring[k])] == ring[k]; }
        }
        done := done + 1;
      }
      FollowsNullExactly();
    }

    /** The exiting task, while it is still in the ring. */
    method Leave()
      requires Valid() && current != null && current in ring
      modifies this`state, this`runqueue, this`ring, this`tasksExist, ring
      ensures Valid() && View() == S.DoExit(old(View())) && current !in ring
      ensures forall t :: t in ring ==> t in old(ring)
    {
      ghost var after := S.DoExit(state);
      S.ExitValid(state);
      state := after;
      Remove(current);
      assert Cur() == after.cur && Pids(ring) == after.ring && state == after;
    }

    /** Takes a task out of the ring and clears its links. */
    method Detach(task: Task, ghost j: nat)
      requires runqueue == (if ring == [] then null else ring[0]) && Circular(ring)
      requires S.NoDup(Pids(ring)) && j < |ring| && ring[j] == task
      modifies this`runqueue, this`ring, ring
      ensures runqueue == (if ring == [] then null else ring[0]) && Circular(ring)
      ensures ring == old(ring[..j] + ring[j + 1..]) && task.next == null && task.prev == null
    {
      DistinctTasks(ring);
      ghost var n := |ring|;
      assert task.next == ring[S.Succ(n, j)] && task.prev == ring[Pred(n, j)];
      if task.next == task {
        runqueue := null;
        task.next := null;
        task.prev := null;
        assert n == 1;
        ring := [];
      } else {
        Bridge(task, j);
        if runqueue == task {
          runqueue := task.next;
        }
        task.next := null;
        task.prev := null;
        CutCircular(ring, j);
        ring := ring[..j] + ring[j + 1..];
      }
    }

    /** Links the two neighbours of a task to each other. */
    method Bridge(task: Task, ghost j: nat)
      requires Circular(ring) && S.NoDup(Pids(ring)) && j < |ring| && ring[j] == task && |ring| > 1
      modifies ring
      ensures forall i: nat :: i < |ring| && i != j ==> ring[i].next == ring[SuccPast(|ring|, j, i)]
      ensures forall i: nat :: i < |ring| && i != j ==> ring[i].prev == ring[PredPast(|ring|, j, i)]
      ensures task.next == old(task.next) && task.prev == old(task.prev)
    {
      DistinctTasks(ring);
      ghost var n := |ring|;
      assert task.next == ring[S.Succ(n, j)] && task.prev == ring[Pred(n, j)];
      task.prev.next := task.next;
      task.next.prev := task.prev;
      forall i: nat | i < n && i != j
        ensures ring[i].next == ring[SuccPast(n, j, i)] && ring[i].prev == ring[PredPast(n, j, i)]
      {
        assert old(ring[i].next) == ring[S.Succ(n, i)] && old(ring[i].prev) == ring[Pred(n, i)];
        assert S.Succ(n, i) == j <==> i == Pred(n, j);
        assert Pred(n, i) == j <==> i == S.Succ(n, j);
      }
    }
  }

  lemma CutPids(ring: seq<Task>, j: nat)
    requires S.NoDup(Pids(ring)) && j < |ring|
    ensures var r := ring[..j] + ring[j + 1..];
      && Pids(r) == S.Without(Pids(ring), ring[j].pid)
      && forall t :: t in r <==> t in ring && t != ring[j]
  {
  }

  /** The ring with a new task hung in before its head. */
  lemma FirstCircular(task: Task, ring: seq<Task>)
    requires ring != [] && task.next == ring[0] && task.prev == ring[|ring| - 1]
    requires ring[|ring| - 1].next == task && ring[0].prev == task
    requires forall i :: 0 <= i < |ring| - 1 ==> ring[i].next == ring[i + 1]
    requires forall i :: 0 < i < |ring| ==> ring[i].prev == ring[i - 1]
    ensures Circular([task] + ring)
  {
  }

  /** The ring with task j bridged over. */
  lemma CutCircular(ring: seq<Task>, j: nat)
    requires j < |ring| && |ring| > 1
    requires forall i: nat :: i < |ring| && i != j ==> ring[i].next == ring[SuccPast(|ring|, j, i)]
    requires forall i: nat :: i < |ring| && i != j ==> ring[i].prev == ring[PredPast(|ring|, j, i)]
    ensures Circular(ring[..j] + ring[j + 1..])
  {
    var n, r := |ring|, ring[..j] + ring[j + 1..];
    assert forall i :: 0 <= i < n - 1 ==> r[i] == ring[if i < j then i else i + 1];
    forall i | 0 <= i < |r| ensures r[i].next == r[S.Succ(|r|, i)] && r[i].prev == r[Pred(|r|, i)] {
      var k := if i < j then i else i + 1;
      assert r[i] == ring[k];
    }
  }

  lemma DistinctTasks(ring: seq<Task>)
    requires S.NoDup(Pids(ring))
    ensures forall i, j :: 0 <= i < |ring| && 0 <= j < |ring| && i != j ==> ring[i] != ring[j]
  {
  }
}
