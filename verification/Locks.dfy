/** The kernel's spinlocks as atomic steps of any number of threads, and its lock nestings as scripts. */
module Locks {

  /** One lock per guarded component. */
  datatype Lock = ShellLock | RunQueueLock | CurrentTaskLock | HeapLock | VmmLock | PagingLock | PmmLock | ConsoleLock
    | PicLock

  datatype Op = Acquire(lock: Lock) | Release(lock: Lock)

  /** The one order that every nesting in the kernel respects. */
  function Rank(l: Lock): nat {
    match l
    case ShellLock => 0
    case RunQueueLock => 1
    case CurrentTaskLock => 2
    case HeapLock => 3
    case VmmLock => 4
    case PagingLock => 5
    case PmmLock => 6
    case ConsoleLock => 7
    case PicLock => 8
  }

  // ---- the lock operations of the kernel's routines ----

  function Repeat(n: nat, ops: seq<Op>): seq<Op> {
    if n == 0 then [] else ops + Repeat(n - 1, ops)
  }

  function Around(l: Lock, body: seq<Op>): seq<Op> {
    [Acquire(l)] + body + [Release(l)]
  }

  /** What a routine does, as far as locks go. The numbers say how often the inner part happens. */
  datatype Routine =
    | Print(cells: nat)                    // putc, puts, printf, set_cursor, print_newline, print_clear
    | PageOp                               // pmm_mark_free, pmm_mark_used, pmm_alloc_page, pmm_alloc_pages
    | MapPage(missing: nat)                // paging_map with that many levels to create
    | VmmAlloc(pages: nat, missing: nat)   // vmm_alloc; no pages when it fails
    | Malloc(grow: bool, pages: nat, missing: nat)
    | HeapFree
    | QueueOp                              // add, remove, find, kill
    | Schedule
    | TaskQuery                            // get_current_task, get_current_pid
    | TaskExit(cells: nat)
    | ShellInit(cells: nat)
    | ShellKey(cells: nat)                 // the locked part of shell_input
    | PicOp                                // every routine of the interrupt controller

  function Script(r: Routine): seq<Op> {
    match r
    case Print(cells) => Repeat(cells, Around(ConsoleLock, []))
    case PageOp => Around(PmmLock, [])
    case MapPage(missing) => Around(PagingLock, Repeat(missing, Around(PmmLock, [])))
    case VmmAlloc(pages, missing) =>
      Around(VmmLock, Around(PmmLock, []) + Repeat(pages, Around(PagingLock, Repeat(missing, Around(PmmLock, [])))))
    case Malloc(grow, pages, missing) => Around(HeapLock, if grow then
      Around(VmmLock, Around(PmmLock, []) + Repeat(pages, Around(PagingLock, Repeat(missing, Around(PmmLock, [])))))
      else [])
    case HeapFree => Around(HeapLock, [])
    case QueueOp => Around(RunQueueLock, [])
    case Schedule => Around(RunQueueLock, Around(CurrentTaskLock, []))
    case TaskQuery => Around(CurrentTaskLock, [])
    case TaskExit(cells) =>
      Around(CurrentTaskLock, Repeat(cells, Around(ConsoleLock, []))) +
      Around(RunQueueLock, []) + Around(RunQueueLock, Around(CurrentTaskLock, []))
    case ShellInit(cells) => Around(ShellLock, Repeat(cells, Around(ConsoleLock, [])))
    case ShellKey(cells) => Around(ShellLock, Repeat(cells, Around(ConsoleLock, [])))
    case PicOp => Around(PicLock, [])
  }

  /** A thread runs any number of routines one after the other. */
  function Program(rs: seq<Routine>): seq<Op> {
    if rs == [] then [] else Script(rs[0]) + Program(rs[1..])
  }

  // ---- discipline ----

  /** Locks are taken in rising rank, released by their holder innermost first, and none is left at the end. */
  ghost predicate Disciplined(held: seq<Lock>, ops: seq<Op>)
    decreases |ops|
  {
    if ops == [] then held == []
    else match ops[0]
      case Acquire(l) => Above(held, l) && Disciplined(held + [l], ops[1..])
      case Release(l) => held != [] && held[|held| - 1] == l && Disciplined(held[..|held| - 1], ops[1..])
  }

  ghost predicate Above(held: seq<Lock>, l: Lock) {
    forall i :: 0 <= i < |held| ==> Rank(held[i]) < Rank(l)
  }

  /** A body that may run while `held` is held: it takes only locks above it and gives all of them back. */
  ghost predicate Fits(held: seq<Lock>, body: seq<Op>) {
    forall rest :: Disciplined(held, rest) ==> Disciplined(held, body + rest)
  }

  lemma FitsEmpty(held: seq<Lock>)
    ensures Fits(held, [])
  {
    forall rest | Disciplined(held, rest) ensures Disciplined(held, [] + rest) { assert [] + rest == rest; }
  }

  lemma FitsConcat(held: seq<Lock>, a: seq<Op>, b: seq<Op>)
    requires Fits(held, a) && Fits(held, b)
    ensures Fits(held, a + b)
  {
    forall rest | Disciplined(held, rest) ensures Disciplined(held, a + b + rest) {
      assert Disciplined(held, a + (b + rest));
      assert a + b + rest == a + (b + rest);
    }
  }

  lemma {:induction false} FitsRepeat(held: seq<Lock>, n: nat, body: seq<Op>)
    requires Fits(held, body)
    ensures Fits(held, Repeat(n, body))
  {
    if n == 0 {
      FitsEmpty(held);
    } else {
      FitsRepeat(held, n - 1, body);
      FitsConcat(held, body, Repeat(n - 1, body));
    }
  }

  lemma FitsAround(held: seq<Lock>, l: Lock, body: seq<Op>)
    requires Above(held, l) && Fits(held + [l], body)
    ensures Fits(held, Around(l, body))
  {
    forall rest | Disciplined(held, rest) ensures Disciplined(held, Around(l, body) + rest) {
      var inner := [Release(l)] + rest;
      assert inner[1..] == rest && (held + [l])[..|held|] == held;
      assert Disciplined(held + [l], inner);
      assert Disciplined(held + [l], body + inner);
      var all := Around(l, body) + rest;
      assert all[0] == Acquire(l) && all[1..] == body + inner;
    }
  }

  lemma PrintFits(held: seq<Lock>, cells: nat)
    requires Above(held, ConsoleLock)
    ensures Fits(held, Repeat(cells, Around(ConsoleLock, [])))
  {
    FitsEmpty(held + [ConsoleLock]);
    FitsAround(held, ConsoleLock, []);
    FitsRepeat(held, cells, Around(ConsoleLock, []));
  }

  lemma PageOpFits(held: seq<Lock>)
    requires Above(held, PmmLock)
    ensures Fits(held, Around(PmmLock, []))
  {
  }

  lemma MapFits(held: seq<Lock>, missing: nat)
    requires Above(held, PagingLock)
    ensures Fits(held, Around(PagingLock, Repeat(missing, Around(PmmLock, []))))
  {
    PageOpFits(held + [PagingLock]);
    FitsRepeat(held + [PagingLock], missing, Around(PmmLock, []));
    FitsAround(held, PagingLock, Repeat(missing, Around(PmmLock, [])));
  }

  lemma VmmFits(held: seq<Lock>, pages: nat, missing: nat)
    requires Above(held, VmmLock)
    ensures Fits(held, Script(VmmAlloc(pages, missing)))
  {
    var inner := held + [VmmLock];
    var map_ := Around(PagingLock, Repeat(missing, Around(PmmLock, [])));
    PageOpFits(inner);
    MapFits(inner, missing);
    FitsRepeat(inner, pages, map_);
    FitsConcat(inner, Around(PmmLock, []), Repeat(pages, map_));
    FitsAround(held, VmmLock, Around(PmmLock, []) + Repeat(pages, map_));
  }

  lemma ScheduleFits()
    ensures Fits([], Around(RunQueueLock, Around(CurrentTaskLock, []))) && Fits([], Around(RunQueueLock, []))
  {
    FitsEmpty([RunQueueLock, CurrentTaskLock]);
    FitsEmpty([RunQueueLock]);
    assert [RunQueueLock] + [CurrentTaskLock] == [RunQueueLock, CurrentTaskLock] && [] + [RunQueueLock] == [RunQueueLock];
    FitsAround([RunQueueLock], CurrentTaskLock, []);
    FitsAround([], RunQueueLock, Around(CurrentTaskLock, []));
    FitsAround([], RunQueueLock, []);
  }

  /** Every routine of the kernel keeps the discipline. */
  lemma RoutineFits(r: Routine)
    ensures Fits([], Script(r))
  {
    match r {
      case Print(cells) => PrintFits([], cells);
      case PageOp => PageOpFits([]);
      case MapPage(missing) => MapFits([], missing);
      case VmmAlloc(pages, missing) => VmmFits([], pages, missing);
      case Malloc(grow, pages, missing) =>
        var body := if grow then Script(VmmAlloc(pages, missing)) else [];
        if grow { VmmFits([] + [HeapLock], pages, missing); } else { FitsEmpty([] + [HeapLock]); }
        FitsAround([], HeapLock, body);
      case HeapFree => FitsEmpty([] + [HeapLock]); FitsAround([], HeapLock, []);
      case QueueOp => ScheduleFits();
      case Schedule => ScheduleFits();
      case TaskQuery => FitsEmpty([] + [CurrentTaskLock]); FitsAround([], CurrentTaskLock, []);
      case TaskExit(cells) =>
        var a, b := Around(CurrentTaskLock, Repeat(cells, Around(ConsoleLock, []))), Around(RunQueueLock, []);
        PrintFits([] + [CurrentTaskLock], cells);
        FitsAround([], CurrentTaskLock, Repeat(cells, Around(ConsoleLock, [])));
        ScheduleFits();
        FitsConcat([], a, b);
        FitsConcat([], a + b, Around(RunQueueLock, Around(CurrentTaskLock, [])));
      case ShellInit(cells) =>
        PrintFits([] + [ShellLock], cells);
        FitsAround([], ShellLock, Repeat(cells, Around(ConsoleLock, [])));
      case ShellKey(cells) =>
        PrintFits([] + [ShellLock], cells);
        FitsAround([], ShellLock, Repeat(cells, Around(ConsoleLock, [])));
      case PicOp => FitsEmpty([] + [PicLock]); FitsAround([], PicLock, []);
    }
  }

  lemma {:induction false} ProgramDisciplined(rs: seq<Routine>)
    ensures Disciplined([], Program(rs))
  {
    if rs != [] {
      ProgramDisciplined(rs[1..]);
      RoutineFits(rs[0]);
    }
  }

  // ---- threads and atomic steps ----

  datatype Thread = Thread(held: seq<Lock>, rest: seq<Op>)

  /** The lock words and the threads. */
  datatype World = World(word: map<Lock, nat>, threads: seq<Thread>)

  /** One atomic step of thread t: a compare-and-exchange that takes a free lock or fails and spins, or the
      store that releases one. */
  function Step(w: World, t: nat): World
    requires t < |w.threads|
  {
    var th := w.threads[t];
    if th.rest == [] then w
    else match th.rest[0]
      case Acquire(l) =>
        if l in w.word && w.word[l] == 0 then
          World(w.word[l := 1], w.threads[t := Thread(th.held + [l], th.rest[1..])])
        else w
      case Release(l) =>
        World(w.word[l := 0],
              w.threads[t := Thread(if th.held == [] then [] else th.held[..|th.held| - 1], th.rest[1..])])
  }

  ghost predicate Holds(w: World, t: nat, l: Lock) {
    t < |w.threads| && l in w.threads[t].held
  }

  /** A lock word is 1 exactly while some thread holds the lock, no two threads hold the same lock, and
      every thread keeps the discipline. */
  ghost predicate Safe(w: World) {
    && (forall l: Lock :: l in w.word)
    && (forall l: Lock :: w.word[l] == 0 || w.word[l] == 1)
    && (forall l: Lock :: w.word[l] == 1 <==> exists t: nat :: Holds(w, t, l))
    && (forall l: Lock, t: nat, u: nat :: Holds(w, t, l) && Holds(w, u, l) ==> t == u)
    && (forall t :: 0 <= t < |w.threads| ==> Disciplined(w.threads[t].held, w.threads[t].rest))
    && (forall t :: 0 <= t < |w.threads| ==> Rising(w.threads[t].held))
  }

  ghost predicate Rising(held: seq<Lock>) {
    forall i, j :: 0 <= i < j < |held| ==> Rank(held[i]) < Rank(held[j])
  }

  /** All locks free, every thread about to run some routines. */
  ghost predicate Initial(w: World) {
    && (forall l: Lock :: l in w.word && w.word[l] == 0)
    && (forall t :: 0 <= t < |w.threads| ==> w.threads[t].held == [] && exists rs :: w.threads[t].rest == Program(rs))
  }

  lemma InitialSafe(w: World)
    requires Initial(w)
    ensures Safe(w)
  {
    forall t | 0 <= t < |w.threads| ensures Disciplined(w.threads[t].held, w.threads[t].rest) {
      var rs :| w.threads[t].rest == Program(rs);
      ProgramDisciplined(rs);
    }
  }

  lemma AcquireSafe(w: World, t: nat, l: Lock)
    requires Safe(w) && t < |w.threads| && w.threads[t].rest != [] && w.threads[t].rest[0] == Acquire(l) && w.word[l] == 0
    ensures Safe(Step(w, t))
  {
    var w', th := Step(w, t), w.threads[t];
    forall k: Lock, u: nat ensures Holds(w', u, k) <==> Holds(w, u, k) || (u == t && k == l) {
      assert k in th.held + [l] <==> k in th.held || k == l;
    }
    assert forall u: nat :: !Holds(w, u, l);
    forall k: Lock ensures w'.word[k] == 1 <==> exists u: nat :: Holds(w', u, k) {
      if k == l { assert Holds(w', t, l); }
      if u: nat :| Holds(w, u, k) { assert Holds(w', u, k); }
    }
    assert Rising(th.held + [l]);
  }

  lemma LastOut(held: seq<Lock>, l: Lock)
    requires held != [] && Rising(held) && held[|held| - 1] == l
    ensures var less := held[..|held| - 1]; l !in less && Rising(less) && forall k :: k in held <==> k in less || k == l
  {
  }

  /** The release takes lock l from thread t and changes no other holding. */
  lemma ReleaseHolds(w: World, t: nat, l: Lock, u: nat, k: Lock)
    requires Safe(w) && t < |w.threads| && w.threads[t].rest != [] && w.threads[t].rest[0] == Release(l)
    ensures Holds(Step(w, t), u, k) <==> Holds(w, u, k) && k != l
    ensures Holds(w, t, l)
  {
    var th := w.threads[t];
    assert Disciplined(th.held, th.rest) && Rising(th.held);
    LastOut(th.held, l);
    assert Holds(w, t, l);
    if u < |w.threads| && u != t {
      assert Step(w, t).threads[u] == w.threads[u];
      assert !Holds(w, u, l);
    }
  }

  lemma ReleaseSafe(w: World, t: nat, l: Lock)
    requires Safe(w) && t < |w.threads| && w.threads[t].rest != [] && w.threads[t].rest[0] == Release(l)
    ensures Safe(Step(w, t))
  {
    var w', th := Step(w, t), w.threads[t];
    assert Disciplined(th.held, th.rest) && Rising(th.held);
    LastOut(th.held, l);
    forall k: Lock, u: nat ensures Holds(w', u, k) <==> Holds(w, u, k) && k != l { ReleaseHolds(w, t, l, u, k); }
    forall k: Lock ensures w'.word[k] == 1 <==> exists u: nat :: Holds(w', u, k) {
      if k != l {
        if u: nat :| Holds(w, u, k) { assert Holds(w', u, k); }
      }
    }
  }

  lemma StepSafe(w: World, t: nat)
    requires Safe(w) && t < |w.threads|
    ensures Safe(Step(w, t)) && |Step(w, t).threads| == |w.threads|
  {
    var th := w.threads[t];
    if th.rest != [] {
      match th.rest[0] {
        case Acquire(l) => if w.word[l] == 0 { AcquireSafe(w, t, l); }
        case Release(l) => ReleaseSafe(w, t, l);
      }
    }
  }

  /** Any interleaving: a list of the threads that step, in order. */
  ghost predicate Schedulable(w: World, order: seq<nat>) {
    forall k :: 0 <= k < |order| ==> order[k] < |w.threads|
  }

  ghost function Run(w: World, order: seq<nat>): World
    requires Schedulable(w, order)
    decreases |order|
  {
    if order == [] then w else Run(Step(w, order[0]), order[1..])
  }

  lemma {:induction false} RunSafe(w: World, order: seq<nat>)
    requires Safe(w) && Schedulable(w, order)
    ensures Safe(Run(w, order)) && |Run(w, order).threads| == |w.threads|
    decreases |order|
  {
    if order != [] {
      StepSafe(w, order[0]);
      RunSafe(Step(w, order[0]), order[1..]);
    }
  }

  /** Mutual exclusion: for any number of threads running any routines in any interleaving, at most one
      thread holds a given lock, and the lock word is 1 exactly while one does. */
  lemma MutualExclusion(w: World, order: seq<nat>, l: Lock)
    requires Initial(w) && Schedulable(w, order)
    ensures var v := Run(w, order);
      && (forall t: nat, u: nat :: Holds(v, t, l) && Holds(v, u, l) ==> t == u)
      && l in v.word && (v.word[l] == 1 <==> exists t: nat :: Holds(v, t, l))
  {
    InitialSafe(w);
    RunSafe(w, order);
  }

  // ---- no deadlock ----

  ghost predicate Wants(w: World, t: nat, l: Lock) {
    t < |w.threads| && w.threads[t].rest != [] && w.threads[t].rest[0] == Acquire(l)
  }

  /** Thread t spins on a lock that thread u holds. */
  ghost predicate WaitsFor(w: World, t: nat, u: nat) {
    exists l :: Wants(w, t, l) && Holds(w, u, l)
  }

  ghost predicate WaitChain(w: World, chain: seq<nat>) {
    forall k :: 0 <= k < |chain| - 1 ==> WaitsFor(w, chain[k], chain[k + 1])
  }

  /** What a thread waits for ranks above everything it holds. */
  lemma WantsAbove(w: World, t: nat, l: Lock, m: Lock)
    requires Safe(w) && Wants(w, t, l) && Holds(w, t, m)
    ensures Rank(m) < Rank(l)
  {
  }

  lemma {:induction false} ChainRises(w: World, chain: seq<nat>, l: Lock, m: Lock)
    requires Safe(w) && WaitChain(w, chain) && |chain| >= 2
    requires Wants(w, chain[0], l) && Wants(w, chain[|chain| - 1], m)
    ensures Rank(l) < Rank(m)
    decreases |chain|
  {
    assert WaitsFor(w, chain[0], chain[1]);
    var h :| Wants(w, chain[0], h) && Holds(w, chain[1], h);
    if |chain| == 2 {
      WantsAbove(w, chain[1], m, h);
    } else {
      assert WaitsFor(w, chain[1], chain[2]);
      var k :| Wants(w, chain[1], k) && Holds(w, chain[2], k);
      WantsAbove(w, chain[1], k, h);
      var tail := chain[1..];
      forall i | 0 <= i < |tail| - 1 ensures WaitsFor(w, tail[i], tail[i + 1]) {
        assert WaitsFor(w, chain[i + 1], chain[i + 1 + 1]);
      }
      ChainRises(w, tail, k, m);
    }
  }

  /** No reachable state has a cyclic wait. */
  lemma NoCyclicWait(w: World, order: seq<nat>, chain: seq<nat>)
    requires Initial(w) && Schedulable(w, order) && |chain| >= 2 && chain[0] == chain[|chain| - 1]
    ensures !WaitChain(Run(w, order), chain)
  {
    InitialSafe(w);
    RunSafe(w, order);
    var v := Run(w, order);
    if WaitChain(v, chain) {
      assert WaitsFor(v, chain[0], chain[1]);
      var l :| Wants(v, chain[0], l) && Holds(v, chain[1], l);
      ChainRises(v, chain, l, l);
    }
  }

  /** The thread's next step succeeds. */
  ghost predicate CanStep(w: World, t: nat) {
    t < |w.threads| && w.threads[t].rest != [] &&
      (w.threads[t].rest[0].Release? ||
       (w.threads[t].rest[0].lock in w.word && w.word[w.threads[t].rest[0].lock] == 0))
  }

  /** From a waiting thread, follow the holder of what it waits for: ranks rise, so the walk ends at a thread
      that can step. */
  lemma {:induction false} SomeoneCanStep(w: World, t: nat) returns (u: nat)
    requires Safe(w) && t < |w.threads| && w.threads[t].rest != []
    ensures CanStep(w, u)
    decreases if w.threads[t].rest[0].Acquire? then 9 - Rank(w.threads[t].rest[0].lock) else 0
  {
    if CanStep(w, t) {
      u := t;
    } else {
      var l := w.threads[t].rest[0].lock;
      assert w.word[l] == 1;
      var h: nat :| Holds(w, h, l);
      assert Disciplined(w.threads[h].held, w.threads[h].rest);
      assert w.threads[h].rest != [];
      if w.threads[h].rest[0].Release? {
        u := h;
      } else {
        WantsAbove(w, h, w.threads[h].rest[0].lock, l);
        u := SomeoneCanStep(w, h);
      }
    }
  }

  ghost function Work(ts: seq<Thread>): nat {
    if ts == [] then 0 else |ts[0].rest| + Work(ts[1..])
  }

  lemma {:induction false} WorkUpdate(ts: seq<Thread>, t: nat, th: Thread)
    requires t < |ts|
    ensures Work(ts[t := th]) == Work(ts) - |ts[t].rest| + |th.rest|
    decreases |ts|
  {
    if t > 0 {
      assert ts[t := th][1..] == ts[1..][t - 1 := th];
      WorkUpdate(ts[1..], t - 1, th);
    }
  }

  ghost predicate Finished(w: World) {
    forall t :: 0 <= t < |w.threads| ==> w.threads[t].rest == []
  }

  /** No deadlock, in the strongest form: from every safe state the threads can all be run to the end. */
  lemma {:induction false} CanFinish(w: World) returns (order: seq<nat>)
    requires Safe(w)
    ensures Schedulable(w, order) && Finished(Run(w, order))
    decreases Work(w.threads)
  {
    order := [];
    if !Finished(w) {
      var t :| 0 <= t < |w.threads| && w.threads[t].rest != [];
      var u := SomeoneCanStep(w, t);
      var v := Step(w, u);
      StepSafe(w, u);
      WorkUpdate(w.threads, u, v.threads[u]);
      assert v.threads == w.threads[u := v.threads[u]];
      var tail := CanFinish(v);
      order := [u] + tail;
      assert order[1..] == tail;
    }
  }

  lemma NoDeadlock(w: World, order: seq<nat>) returns (more: seq<nat>)
    requires Initial(w) && Schedulable(w, order)
    ensures Schedulable(Run(w, order), more) && Finished(Run(Run(w, order), more))
  {
    InitialSafe(w);
    RunSafe(w, order);
    more := CanFinish(Run(w, order));
  }
}
