/** What every run of malloc and free keeps, and the canonical form that follows from it: the block list is
    determined by the live blocks alone. */
module HeapRuns {
  import opened HeapSpec

  // ---- allocation ----

  /** The list after a split, position by position. */
  lemma PlaceAt(ns: seq<Node>, i: nat, size: nat)
    requires i < |ns| && Fits(ns[i], size)
    ensures var ms := Place(ns, i, size);
      && (ns[i].size > size + 56 ==>
            && |ms| == |ns| + 1
            && ms[i] == Node(ns[i].addr, size, false)
            && ms[i + 1] == Node(ns[i].addr + 24 + size, ns[i].size - size - 24, true)
            && ms[..i] == ns[..i] && ms[i + 1..] == [ms[i + 1]] + ns[i + 1..]
            && (forall k :: i + 1 < k < |ms| ==> ms[k] == ns[k - 1]))
      && (ns[i].size <= size + 56 ==>
            ms[..i] == ns[..i] && ms[i] == ns[i].(free := false) && ms[i + 1..] == ns[i + 1..])
      && (forall k :: 0 <= k < i ==> ms[k] == ns[k])
  {
    var ms := Place(ns, i, size);
    if ns[i].size > size + 56 {
      var head, tail := ns[..i], ns[i + 1..];
      var mid := [Node(ns[i].addr, size, false), Node(ns[i].addr + 24 + size, ns[i].size - size - 24, true)];
      assert ms == head + mid + tail;
      assert forall k :: 0 <= k < i ==> ms[k] == head[k];
      assert ms[i] == mid[0] && ms[i + 1] == mid[1];
      assert forall k :: i + 1 < k < |ms| ==> ms[k] == tail[k - i - 2];
      assert ms[..i] == head && ms[i + 1..] == [mid[1]] + tail;
    }
  }

  lemma PlaceTiles(ns: seq<Node>, base: nat, i: nat, size: nat)
    requires Tiles(ns, base) && i < |ns| && Fits(ns[i], size)
    ensures Tiles(Place(ns, i, size), base) && Extent(Place(ns, i, size)) == Extent(ns)
  {
    var ms := Place(ns, i, size);
    PlaceAt(ns, i, size);
    TilesSplit(ns, i, base);
    TilesSplit(ms, i, base);
    if ns[i].size > size + 56 {
      TilesConcat([ms[i + 1]], ns[i + 1..], After(ms[i]));
    }
  }

  lemma PlaceAligned(ns: seq<Node>, i: nat, size: nat)
    requires Aligned(ns) && i < |ns| && Fits(ns[i], size) && size % 8 == 0
    ensures Aligned(Place(ns, i, size))
  {
    PlaceAt(ns, i, size);
    var ms := Place(ns, i, size);
    forall k | 0 <= k < |ms| ensures ms[k].addr % 8 == 0 && ms[k].size % 8 == 0 {
      if ns[i].size > size + 56 && k > i + 1 { assert ms[k] == ns[k - 1]; }
    }
  }

  lemma PlaceApart(ns: seq<Node>, i: nat, size: nat)
    requires NoAdjacentFree(ns) && i < |ns| && Fits(ns[i], size)
    ensures NoAdjacentFree(Place(ns, i, size))
  {
  }

  lemma PlaceInv(ns: seq<Node>, base: nat, i: nat, size: nat)
    requires Inv(ns, base) && i < |ns| && Fits(ns[i], size) && size % 8 == 0
    ensures Inv(Place(ns, i, size), base)
  {
    PlaceTiles(ns, base, i, size);
    PlaceAligned(ns, i, size);
    PlaceApart(ns, i, size);
  }

  /** The block that an allocation makes live. */
  ghost function Placed(ns: seq<Node>, i: nat, size: nat): Node
    requires i < |ns|
  {
    Node(ns[i].addr, if ns[i].size > size + 56 then size else ns[i].size, false)
  }

  lemma PlaceLive(ns: seq<Node>, base: nat, i: nat, size: nat)
    requires Inv(ns, base) && i < |ns| && Fits(ns[i], size)
    ensures Live(Place(ns, i, size)) == Live(ns) + {Placed(ns, i, size)}
    ensures forall n :: n in Live(ns) ==> n.addr != ns[i].addr
  {
    var ms, p := Place(ns, i, size), Placed(ns, i, size);
    forall n | n in Live(ns) ensures n.addr != ns[i].addr {
      var k :| 0 <= k < |ns| && ns[k] == n;
      if k < i { TilesOrder(ns, base, k, i); } else { TilesOrder(ns, base, i, k); }
    }
    PlaceAt(ns, i, size);
    assert ms[i] == p;
    forall n | n in Live(ms) ensures n in Live(ns) + {p} {
      var k :| 0 <= k < |ms| && ms[k] == n;
      if k < i { assert n == ns[k]; }
      if k > i + 1 { assert n == if |ms| == |ns| then ns[k] else ns[k - 1]; }
    }
    forall n | n in Live(ns) ensures n in Live(ms) {
      var k :| 0 <= k < |ns| && ns[k] == n;
      assert n == if k < i || |ms| == |ns| then ms[k] else ms[k + 1];
    }
  }

  // ---- release ----

  lemma {:induction false} CoalesceEffect(ns: seq<Node>, start: nat)
    requires Tiles(ns, start) && Aligned(ns)
    ensures var ms := Coalesce(ns);
      && Tiles(ms, start) && Extent(ms) == Extent(ns) && Aligned(ms) && NoAdjacentFree(ms)
      && Live(ms) == Live(ns)
      && (ns != [] ==> ms != [] && ms[0].free == ns[0].free)
    decreases |ns|
  {
    if |ns| > 1 {
      if ns[0].free && ns[1].free {
        var m := [Merge(ns[0], ns[1])] + ns[2..];
        assert m[1..] == ns[2..] && ns[1..][1..] == ns[2..];
        forall n ensures n in Live(m) <==> n in Live(ns) {
          assert n in ns <==> n == ns[0] || n == ns[1] || n in ns[2..];
          assert n in m <==> n == m[0] || n in ns[2..];
        }
        CoalesceEffect(m, start);
      } else {
        CoalesceEffect(ns[1..], After(ns[0]));
        var rest := Coalesce(ns[1..]);
        var ms := [ns[0]] + rest;
        assert ms[1..] == rest;
        forall n ensures n in Live(ms) <==> n in Live(ns) {
          assert n in ns <==> n == ns[0] || n in ns[1..];
          assert n in ms <==> n == ns[0] || n in rest;
          assert n in Live(rest) <==> n in Live(ns[1..]);
        }
      }
    }
  }

  lemma ReleaseEffect(ns: seq<Node>, base: nat, i: nat)
    requires Inv(ns, base) && i < |ns| && !ns[i].free
    ensures Inv(Release(ns, i), base) && Live(Release(ns, i)) == Live(ns) - {ns[i]}
  {
    var ms := ns[i := ns[i].(free := true)];
    TilesSplit(ns, i, base);
    TilesSplit(ms, i, base);
    assert ms[..i] == ns[..i] && ms[i + 1..] == ns[i + 1..];
    forall n | n in Live(ms) ensures n in Live(ns) - {ns[i]} {
      var k :| 0 <= k < |ms| && ms[k] == n;
      assert k != i && n == ns[k];
      if k < i { TilesOrder(ns, base, k, i); } else { TilesOrder(ns, base, i, k); }
    }
    forall n | n in Live(ns) - {ns[i]} ensures n in Live(ms) {
      var k :| 0 <= k < |ns| && ns[k] == n;
      assert ms[k] == n;
    }
    CoalesceEffect(ms, base);
  }

  // ---- the canonical form ----

  lemma TailLive(ns: seq<Node>, start: nat)
    requires Tiles(ns, start) && ns != []
    ensures Live(ns[1..]) == Live(ns) - {ns[0]}
    ensures forall n :: n in Live(ns[1..]) ==> After(ns[0]) <= n.addr
  {
  }

  lemma TailNoAdjacentFree(ns: seq<Node>)
    requires NoAdjacentFree(ns) && ns != []
    ensures NoAdjacentFree(ns[1..])
  {
  }

  /** The free block at the front ends no later than the first live block of any list with the same live
      blocks. */
  lemma FreeHeadEnds(ns: seq<Node>, ms: seq<Node>, start: nat)
    requires Tiles(ns, start) && Tiles(ms, start) && Extent(ns) == Extent(ms) && Live(ns) == Live(ms)
    requires NoAdjacentFree(ms) && ns != [] && ms != [] && ns[0].free && ms[0].free
    ensures After(ns[0]) <= After(ms[0])
  {
    if |ms| == 1 {
      assert ms[1..] == [] && Extent(ms) == 24 + ms[0].size;
    } else {
      assert !ms[1].free && ms[1] in Live(ms) && ms[1].addr == After(ms[0]) by { assert ms[1..][0] == ms[1]; }
      TailLive(ns, start);
      assert ms[1] in Live(ns[1..]);
    }
  }

  /** Two block lists that fill the same area without adjacent free blocks and have the same live blocks
      are equal. */
  lemma {:induction false} Canonical(ns: seq<Node>, ms: seq<Node>, start: nat)
    requires Tiles(ns, start) && Tiles(ms, start) && Extent(ns) == Extent(ms)
    requires NoAdjacentFree(ns) && NoAdjacentFree(ms) && Live(ns) == Live(ms)
    ensures ns == ms
    decreases |ns|
  {
    if ns == [] || ms == [] {
      assert Extent(ns) == 0 && Extent(ms) == 0;
    } else {
      TailLive(ns, start);
      TailLive(ms, start);
      if ns[0].free && ms[0].free {
        FreeHeadEnds(ns, ms, start);
        FreeHeadEnds(ms, ns, start);
      } else {
        assert !ns[0].free ==> ns[0] in Live(ns);
        assert !ms[0].free ==> ms[0] in Live(ms);
      }
      assert ns[0] == ms[0];
      TailNoAdjacentFree(ns);
      TailNoAdjacentFree(ms);
      Canonical(ns[1..], ms[1..], After(ns[0]));
      assert ns == [ns[0]] + ns[1..] && ms == [ms[0]] + ms[1..];
    }
  }

  // ---- what one call does ----

  /** Block n is the first block that fits, cut down to the request if more than 56 bytes would be left over. */
  ghost predicate TakesFirst(ns: seq<Node>, r: nat, i: nat, n: Node) {
    && i < |ns| && ns[i].free && ns[i].size >= r && (forall k :: 0 <= k < i ==> !ns[k].free || ns[k].size < r)
    && n.addr == ns[i].addr && !n.free && n.size == if ns[i].size > r + 56 then r else ns[i].size
  }

  /** Allocation succeeds exactly when something is asked for and some free block holds the rounded request; it then
      uses the first such block, cut down to size, and otherwise changes nothing. */
  lemma MallocExactly(ns: seq<Node>, base: nat, request: nat)
    requires Inv(ns, base) && 0 < base
    ensures var (ms, ptr) := Malloc(ns, request); var r := Rounded(request);
      && Inv(ms, base)
      && (ptr != 0 <==> request > 0 && exists k :: 0 <= k < |ns| && ns[k].free && ns[k].size >= r)
      && (ptr == 0 ==> ms == ns)
      && (ptr != 0 ==> exists i: nat, n: Node :: TakesFirst(ns, r, i, n) && ptr == n.addr + 24
                         && Live(ms) == Live(ns) + {n} && n !in Live(ns))
  {
    var r := Rounded(request);
    var i := FirstFit(ns, r, 0);
    if request > 0 && i < |ns| {
      PlaceInv(ns, base, i, r);
      PlaceLive(ns, base, i, r);
      var n := Placed(ns, i, r);
      assert TakesFirst(ns, r, i, n);
      assert Live(Malloc(ns, request).0) == Live(ns) + {n};
    }
  }

  /** The rounded size covers the request exactly when the request is at most 2^64 - 8; beyond that the
      rounding wraps to 0 and a block of no size can be handed out. */
  lemma RoundedExactly(request: nat)
    requires request < 0x1_0000_0000_0000_0000
    ensures request <= Rounded(request) <==> request <= 0x1_0000_0000_0000_0000 - 8
    ensures Rounded(request) % 8 == 0
    ensures request > 0x1_0000_0000_0000_0000 - 8 ==> Rounded(request) == 0
    ensures request <= 0x1_0000_0000_0000_0000 - 8 ==> Rounded(request) < request + 8
  {
  }

  /** The largest request of all is granted, with a block of no bytes. */
  lemma HugeRequestGranted(base: nat)
    requires base > 0
    ensures var (ms, ptr) := Malloc(Initial(base), 0xFFFF_FFFF_FFFF_FFFF);
      ptr == base + 24 && LiveAt(ms, 0, ptr) && ms[0].size == 0
  {
  }

  /** Freeing what was just allocated restores the exact block list. */
  lemma MallocThenFree(ns: seq<Node>, base: nat, request: nat, i: nat)
    requires Inv(ns, base) && request > 0
    requires var (ms, ptr) := Malloc(ns, request); ptr != 0 && LiveAt(ms, i, ptr)
    ensures Release(Malloc(ns, request).0, i) == ns
  {
    var r := Rounded(request);
    var f := FirstFit(ns, r, 0);
    var ms := Place(ns, f, r);
    PlaceInv(ns, base, f, r);
    PlaceLive(ns, base, f, r);
    assert ms[f] == Placed(ns, f, r);
    if i < f { TilesOrder(ms, base, i, f); }
    if f < i { TilesOrder(ms, base, f, i); }
    ReleaseEffect(ms, base, i);
    assert Live(Release(ms, i)) == Live(ns);
    Canonical(Release(ms, i), ns, base);
  }

  // ---- what separates the blocks ----

  ghost predicate Disjoint(lo1: nat, hi1: nat, lo2: nat, hi2: nat) {
    hi1 <= lo2 || hi2 <= lo1
  }

  /** Payloads are 8-aligned, inside the arena, and overlap neither another payload nor any header. */
  lemma PayloadsApart(ns: seq<Node>, base: nat, i: nat, j: nat)
    requires Inv(ns, base) && i < |ns| && j < |ns| && i != j
    ensures (ns[i].addr + 24) % 8 == 0
    ensures base + 24 <= ns[i].addr + 24 && After(ns[i]) <= base + 16384
    ensures Disjoint(ns[i].addr + 24, After(ns[i]), ns[j].addr + 24, After(ns[j]))
    ensures Disjoint(ns[i].addr + 24, After(ns[i]), ns[j].addr, ns[j].addr + 24)
  {
    if i < j { TilesOrder(ns, base, i, j); } else { TilesOrder(ns, base, j, i); }
  }

  // ---- runs ----

  datatype Event = Allocate(request: nat) | Free(ptr: nat)

  ghost predicate Holds(ns: seq<Node>, ptr: nat) {
    exists i: nat :: LiveAt(ns, i, ptr)
  }

  ghost function IndexOf(ns: seq<Node>, ptr: nat): (i: nat)
    requires Holds(ns, ptr)
    ensures LiveAt(ns, i, ptr)
  {
    var i: nat :| LiveAt(ns, i, ptr);
    i
  }

  /** Callers free only what they hold (or null). */
  ghost predicate Legal(ns: seq<Node>, e: Event) {
    e.Free? ==> e.ptr == 0 || Holds(ns, e.ptr)
  }

  ghost function Step(ns: seq<Node>, e: Event): seq<Node>
    requires Legal(ns, e)
  {
    match e
    case Allocate(request) => Malloc(ns, request).0
    case Free(ptr) => if ptr == 0 then ns else Release(ns, IndexOf(ns, ptr))
  }

  ghost predicate LegalRun(ns: seq<Node>, es: seq<Event>)
    decreases |es|
  {
    es != [] ==> Legal(ns, es[0]) && LegalRun(Step(ns, es[0]), es[1..])
  }

  ghost function Run(ns: seq<Node>, es: seq<Event>): seq<Node>
    requires LegalRun(ns, es)
    decreases |es|
  {
    if es == [] then ns else Run(Step(ns, es[0]), es[1..])
  }

  /** The heap right after initialisation. */
  ghost function Initial(base: nat): seq<Node> {
    [Node(base, 16384 - 24, true)]
  }

  lemma InitialInv(base: nat)
    requires base % 4096 == 0
    ensures Inv(Initial(base), base) && Live(Initial(base)) == {}
  {
    assert Initial(base)[1..] == [];
    assert base % 8 == 0 by { assert base == base / 4096 * 512 * 8; }
  }

  lemma {:induction false} RunInv(ns: seq<Node>, base: nat, es: seq<Event>)
    requires Inv(ns, base) && LegalRun(ns, es)
    ensures Inv(Run(ns, es), base)
    decreases |es|
  {
    if es != [] {
      match es[0] {
        case Allocate(request) =>
          var i := FirstFit(ns, Rounded(request), 0);
          if i < |ns| { PlaceInv(ns, base, i, Rounded(request)); }
        case Free(ptr) =>
          if ptr != 0 { ReleaseEffect(ns, base, IndexOf(ns, ptr)); }
      }
      RunInv(Step(ns, es[0]), base, es[1..]);
    }
  }

  /** The heap has no memory of the past: any two runs that leave the same blocks live, whatever they
      allocated and freed before and in whatever order, leave the same block list. */
  lemma HistoryIndependent(base: nat, es: seq<Event>, fs: seq<Event>)
    requires base % 4096 == 0 && LegalRun(Initial(base), es) && LegalRun(Initial(base), fs)
    requires Live(Run(Initial(base), es)) == Live(Run(Initial(base), fs))
    ensures Run(Initial(base), es) == Run(Initial(base), fs)
  {
    InitialInv(base);
    RunInv(Initial(base), base, es);
    RunInv(Initial(base), base, fs);
    Canonical(Run(Initial(base), es), Run(Initial(base), fs), base);
  }

  /** Once everything is freed, in any order, the heap is again the single block it started as. */
  lemma AllFreed(base: nat, es: seq<Event>)
    requires base % 4096 == 0 && LegalRun(Initial(base), es) && Live(Run(Initial(base), es)) == {}
    ensures Run(Initial(base), es) == [Node(base, 16360, true)]
  {
    InitialInv(base);
    HistoryIndependent(base, es, []);
  }
}
