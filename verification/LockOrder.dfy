/** Which lock is ever taken while which other is held: the kernel's lock order, read off its routines. */
module LockOrder {
  import opened Locks

  /** The locks held after some operations, the outermost first. */
  ghost function After(held: seq<Lock>, ops: seq<Op>): seq<Lock>
    decreases |ops|
  {
    if ops == [] then held
    else match ops[0]
      case Acquire(l) => After(held + [l], ops[1..])
      case Release(_) => After(if held == [] then [] else held[..|held| - 1], ops[1..])
  }

  ghost function Pairs(held: seq<Lock>, l: Lock): set<(Lock, Lock)> {
    set h | h in held :: (h, l)
  }

  /** All pairs of a lock held and a lock taken meanwhile. */
  ghost function Nestings(held: seq<Lock>, ops: seq<Op>): set<(Lock, Lock)>
    decreases |ops|
  {
    if ops == [] then {}
    else match ops[0]
      case Acquire(l) => Pairs(held, l) + Nestings(held + [l], ops[1..])
      case Release(_) => Nestings(if held == [] then [] else held[..|held| - 1], ops[1..])
  }

  ghost function Taken(ops: seq<Op>): set<Lock> {
    if ops == [] then {} else (if ops[0].Acquire? then {ops[0].lock} else {}) + Taken(ops[1..])
  }

  lemma {:induction false} Concat(held: seq<Lock>, a: seq<Op>, b: seq<Op>)
    ensures After(held, a + b) == After(After(held, a), b)
    ensures Nestings(held, a + b) == Nestings(held, a) + Nestings(After(held, a), b)
    ensures Taken(a + b) == Taken(a) + Taken(b)
    decreases |a|
  {
    if a == [] {
      assert a + b == b;
    } else {
      assert (a + b)[0] == a[0] && (a + b)[1..] == a[1..] + b;
      match a[0] {
        case Acquire(l) => Concat(held + [l], a[1..], b);
        case Release(_) => Concat(if held == [] then [] else held[..|held| - 1], a[1..], b);
      }
    }
  }

  /** The body gives back what it takes. */
  ghost predicate Balanced(held: seq<Lock>, ops: seq<Op>) {
    After(held, ops) == held
  }

  lemma AroundNests(held: seq<Lock>, l: Lock, body: seq<Op>)
    requires Balanced(held + [l], body)
    ensures Balanced(held, Around(l, body)) && Taken(Around(l, body)) == {l} + Taken(body)
    ensures Nestings(held, Around(l, body)) == Pairs(held, l) + Nestings(held + [l], body)
  {
    var first, last := [Acquire(l)], [Release(l)];
    assert first[1..] == [] && last[1..] == [] && (held + [l])[..|held|] == held;
    Concat(held, first, body);
    Concat(held, first + body, last);
  }

  lemma {:induction false} RepeatNests(held: seq<Lock>, n: nat, body: seq<Op>)
    requires Balanced(held, body)
    ensures Balanced(held, Repeat(n, body))
    ensures Nestings(held, Repeat(n, body)) == if n == 0 then {} else Nestings(held, body)
    ensures Taken(Repeat(n, body)) == if n == 0 then {} else Taken(body)
  {
    if n > 0 {
      RepeatNests(held, n - 1, body);
      Concat(held, body, Repeat(n - 1, body));
    }
  }

  /** One lock around nothing, and the same any number of times. */
  lemma AloneNests(held: seq<Lock>, l: Lock, n: nat)
    ensures Balanced(held, Around(l, [])) && Nestings(held, Around(l, [])) == Pairs(held, l) && Taken(Around(l, [])) == {l}
    ensures Balanced(held, Repeat(n, Around(l, [])))
    ensures Nestings(held, Repeat(n, Around(l, []))) == if n == 0 then {} else Pairs(held, l)
    ensures Taken(Repeat(n, Around(l, []))) == if n == 0 then {} else {l}
  {
    AroundNests(held, l, []);
    RepeatNests(held, n, Around(l, []));
  }

  lemma MapNests(held: seq<Lock>, missing: nat)
    ensures var body := Around(PagingLock, Repeat(missing, Around(PmmLock, [])));
      && Balanced(held, body) && Taken(body) == {PagingLock} + (if missing == 0 then {} else {PmmLock})
      && Nestings(held, body) == Pairs(held, PagingLock) + if missing == 0 then {} else Pairs(held + [PagingLock], PmmLock)
  {
    AloneNests(held + [PagingLock], PmmLock, missing);
    AroundNests(held, PagingLock, Repeat(missing, Around(PmmLock, [])));
  }

  lemma VmmNests(held: seq<Lock>, pages: nat, missing: nat)
    ensures var body, inner := Script(VmmAlloc(pages, missing)), held + [VmmLock];
      && Balanced(held, body)
      && Taken(body) == {VmmLock, PmmLock} + (if pages == 0 then {} else {PagingLock})
      && Nestings(held, body) == Pairs(held, VmmLock) + Pairs(inner, PmmLock) + (if pages == 0 then {}
           else Pairs(inner, PagingLock) + if missing == 0 then {} else Pairs(inner + [PagingLock], PmmLock))
  {
    VmmBodyNests(held + [VmmLock], pages, missing);
    AroundNests(held, VmmLock, VmmBody(pages, missing));
  }

  function VmmBody(pages: nat, missing: nat): seq<Op> {
    Around(PmmLock, []) + Repeat(pages, Around(PagingLock, Repeat(missing, Around(PmmLock, []))))
  }

  lemma VmmBodyNests(held: seq<Lock>, pages: nat, missing: nat)
    ensures var body := VmmBody(pages, missing);
      && Balanced(held, body) && Taken(body) == {PmmLock} + (if pages == 0 then {} else {PagingLock})
      && Nestings(held, body) == Pairs(held, PmmLock) + (if pages == 0 then {}
           else Pairs(held, PagingLock) + if missing == 0 then {} else Pairs(held + [PagingLock], PmmLock))
  {
    var one := Around(PagingLock, Repeat(missing, Around(PmmLock, [])));
    AloneNests(held, PmmLock, 0);
    MapNests(held, missing);
    RepeatNests(held, pages, one);
    Concat(held, Around(PmmLock, []), Repeat(pages, one));
  }

  /** The locks a routine takes, whatever its numbers. */
  predicate Uses(r: Routine, l: Lock) {
    match r
    case Print(cells) => cells > 0 && l == ConsoleLock
    case PageOp => l == PmmLock
    case MapPage(missing) => l == PagingLock || (missing > 0 && l == PmmLock)
    case VmmAlloc(pages, _) => l == VmmLock || l == PmmLock || (pages > 0 && l == PagingLock)
    case Malloc(grow, pages, _) => l == HeapLock || (grow && (l == VmmLock || l == PmmLock || (pages > 0 && l == PagingLock)))
    case HeapFree => l == HeapLock
    case QueueOp => l == RunQueueLock
    case Schedule => l == RunQueueLock || l == CurrentTaskLock
    case TaskQuery => l == CurrentTaskLock
    case TaskExit(cells) => l == RunQueueLock || l == CurrentTaskLock || (cells > 0 && l == ConsoleLock)
    case ShellInit(cells) => l == ShellLock || (cells > 0 && l == ConsoleLock)
    case ShellKey(cells) => l == ShellLock || (cells > 0 && l == ConsoleLock)
    case PicOp => l == PicLock
  }

  /** The whole lock order, as a table. */
  predicate Ordered(h: Lock, l: Lock) {
    || (h == ShellLock && l == ConsoleLock) || (h == RunQueueLock && l == CurrentTaskLock)
    || (h == CurrentTaskLock && l == ConsoleLock)
    || (h == HeapLock && (l == VmmLock || l == PagingLock || l == PmmLock))
    || (h == VmmLock && (l == PagingLock || l == PmmLock)) || (h == PagingLock && l == PmmLock)
  }

  lemma ExitNests(cells: nat)
    ensures Taken(Script(TaskExit(cells))) == {RunQueueLock, CurrentTaskLock} + (if cells == 0 then {} else {ConsoleLock})
    ensures Nestings([], Script(TaskExit(cells))) ==
      {(RunQueueLock, CurrentTaskLock)} + (if cells == 0 then {} else {(CurrentTaskLock, ConsoleLock)})
  {
    ExitScript(cells);
    TwoNest(Leave(cells), Script(Schedule));
    LeaveNests(cells);
    ScheduleNests();
  }

  lemma ExitScript(cells: nat)
    ensures Script(TaskExit(cells)) == Leave(cells) + Script(Schedule)
  {
  }

  /** One routine after another. */
  lemma TwoNest(a: seq<Op>, b: seq<Op>)
    ensures Balanced([], a) ==> Nestings([], a + b) == Nestings([], a) + Nestings([], b) && Taken(a + b) == Taken(a) + Taken(b)
  {
    Concat([], a, b);
  }

  /** An exit up to its call of the scheduler. */
  function Leave(cells: nat): seq<Op> {
    Around(CurrentTaskLock, Repeat(cells, Around(ConsoleLock, []))) + Around(RunQueueLock, [])
  }

  lemma LeaveNests(cells: nat)
    ensures Balanced([], Leave(cells))
    ensures Taken(Leave(cells)) == {RunQueueLock, CurrentTaskLock} + (if cells == 0 then {} else {ConsoleLock})
    ensures Nestings([], Leave(cells)) == if cells == 0 then {} else {(CurrentTaskLock, ConsoleLock)}
  {
    PrintingNests(CurrentTaskLock, cells);
    AloneNests([], RunQueueLock, 0);
    NoPairs(RunQueueLock);
    Concat([], Around(CurrentTaskLock, Repeat(cells, Around(ConsoleLock, []))), Around(RunQueueLock, []));
  }

  lemma NoPairs(l: Lock)
    ensures Pairs([], l) == {} && forall h :: Pairs([] + [h], l) == {(h, l)}
  {
  }

  /** What a growing allocation nests. */
  function HeapTable(pages: nat, missing: nat): set<(Lock, Lock)> {
    {(HeapLock, VmmLock), (HeapLock, PmmLock), (VmmLock, PmmLock)} + (if pages == 0 then {}
      else {(HeapLock, PagingLock), (VmmLock, PagingLock)} + if missing == 0 then {} else {(PagingLock, PmmLock)})
  }

  lemma HeapNests(pages: nat, missing: nat)
    ensures Taken(Script(Malloc(true, pages, missing))) == {HeapLock, VmmLock, PmmLock} + (if pages == 0 then {} else {PagingLock})
    ensures Nestings([], Script(Malloc(true, pages, missing))) == HeapTable(pages, missing)
  {
    var heap: seq<Lock> := [] + [HeapLock];
    VmmNests(heap, pages, missing);
    var inner := Nestings(heap, Script(VmmAlloc(pages, missing)));
    AroundNests([], HeapLock, Script(VmmAlloc(pages, missing)));
    assert Nestings([], Script(Malloc(true, pages, missing))) == Pairs([], HeapLock) + inner;
    HeapPairs();
    InnerTable(pages, missing, inner);
  }

  lemma InnerTable(pages: nat, missing: nat, inner: set<(Lock, Lock)>)
    requires inner == {(HeapLock, VmmLock)} + {(HeapLock, PmmLock), (VmmLock, PmmLock)} + (if pages == 0 then {}
      else {(HeapLock, PagingLock), (VmmLock, PagingLock)} + (if missing == 0 then {}
        else {(HeapLock, PmmLock), (VmmLock, PmmLock), (PagingLock, PmmLock)}))
    ensures inner == HeapTable(pages, missing)
  {
  }

  lemma HeapPairs()
    ensures var heap: seq<Lock> := [] + [HeapLock];
      && Pairs([], HeapLock) == {} && Pairs(heap, VmmLock) == {(HeapLock, VmmLock)}
      && Pairs(heap + [VmmLock], PmmLock) == {(HeapLock, PmmLock), (VmmLock, PmmLock)}
      && Pairs(heap + [VmmLock], PagingLock) == {(HeapLock, PagingLock), (VmmLock, PagingLock)}
      && Pairs(heap + [VmmLock] + [PagingLock], PmmLock) == {(HeapLock, PmmLock), (VmmLock, PmmLock), (PagingLock, PmmLock)}
  {
  }

  /** A lock around printing. */
  lemma PrintingNests(l: Lock, cells: nat)
    ensures var body := Around(l, Repeat(cells, Around(ConsoleLock, [])));
      && Taken(body) == {l} + (if cells == 0 then {} else {ConsoleLock})
      && Balanced([], body) && Nestings([], body) == if cells == 0 then {} else {(l, ConsoleLock)}
  {
    var none: seq<Lock> := [];
    AloneNests(none + [l], ConsoleLock, cells);
    AroundNests(none, l, Repeat(cells, Around(ConsoleLock, [])));
  }

  lemma ScheduleNests()
    ensures Taken(Script(Schedule)) == {RunQueueLock, CurrentTaskLock}
    ensures Nestings([], Script(Schedule)) == {(RunQueueLock, CurrentTaskLock)}
  {
    var none: seq<Lock> := [];
    AloneNests(none + [RunQueueLock], CurrentTaskLock, 0);
    AroundNests(none, RunQueueLock, Around(CurrentTaskLock, []));
  }

  predicate MemoryRoutine(r: Routine) {
    r.PageOp? || r.MapPage? || r.VmmAlloc? || r.Malloc? || r.HeapFree?
  }

  lemma MemoryLocks(r: Routine)
    requires MemoryRoutine(r)
    ensures forall l :: l in Taken(Script(r)) <==> Uses(r, l)
    ensures forall h, l :: (h, l) in Nestings([], Script(r)) ==> Ordered(h, l)
  {
    var none: seq<Lock> := [];
    match r {
      case PageOp => AloneNests(none, PmmLock, 0);
      case MapPage(missing) => MapNests(none, missing);
      case VmmAlloc(pages, missing) => VmmNests(none, pages, missing);
      case Malloc(_, _, _) => MallocLocks(r);
      case HeapFree => AloneNests(none, HeapLock, 0);
    }
  }

  lemma MallocLocks(r: Routine)
    requires r.Malloc?
    ensures forall l :: l in Taken(Script(r)) <==> Uses(r, l)
    ensures forall h, l :: (h, l) in Nestings([], Script(r)) ==> Ordered(h, l)
  {
    if r.grow { HeapNests(r.pages, r.missing); } else { AloneNests([], HeapLock, 0); }
  }

  /** One routine: exactly these locks, and no nesting outside the table. */
  lemma RoutineLocks(r: Routine)
    ensures forall l :: l in Taken(Script(r)) <==> Uses(r, l)
    ensures forall h, l :: (h, l) in Nestings([], Script(r)) ==> Ordered(h, l)
  {
    var none: seq<Lock> := [];
    if MemoryRoutine(r) {
      MemoryLocks(r);
    } else {
      match r {
        case Print(cells) => AloneNests(none, ConsoleLock, cells);
        case QueueOp => AloneNests(none, RunQueueLock, 0);
        case Schedule => ScheduleNests();
        case TaskQuery => AloneNests(none, CurrentTaskLock, 0);
        case TaskExit(cells) => ExitNests(cells);
        case ShellInit(cells) => PrintingNests(ShellLock, cells);
        case ShellKey(cells) => PrintingNests(ShellLock, cells);
        case PicOp => AloneNests(none, PicLock, 0);
      }
    }
  }

  /** Some routine takes l while it holds h. */
  ghost predicate Nests(r: Routine, h: Lock, l: Lock) {
    (h, l) in Nestings([], Script(r))
  }

  /** The lock order of the kernel is exactly the table. */
  lemma LockOrderExactly(h: Lock, l: Lock)
    ensures (exists r :: Nests(r, h, l)) <==> Ordered(h, l)
  {
    if r :| Nests(r, h, l) { RoutineLocks(r); }
    if Ordered(h, l) {
      if h == ShellLock {
        PrintingNests(ShellLock, 1);
        assert Nests(ShellKey(1), h, l);
      } else if h == RunQueueLock {
        ScheduleNests();
        assert Nests(Schedule, h, l);
      } else if h == CurrentTaskLock {
        ExitNests(1);
        assert Nests(TaskExit(1), h, l);
      } else {
        HeapNests(1, 1);
        assert Nests(Malloc(true, 1, 1), h, l);
      }
    }
  }
}
