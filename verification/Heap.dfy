/** The heap as it lies in memory: headers at addresses, chained by their next fields, changed in place. */
module Heap {
  import opened PmmSpec
  import opened Pmm
  import opened HeapSpec
  import opened HeapMemory
  import opened HeapRuns

  /** The arena's blocks, wherever they are free. */
  ghost predicate InArena(ns: seq<Node>, base: nat) {
    Tiles(ns, base) && Extent(ns) == 16384 && 0 < base && base + 16384 < 0x1_0000_0000_0000_0000
  }

  lemma DistinctAddrs(ns: seq<Node>, base: nat)
    requires Tiles(ns, base)
    ensures forall i, j :: 0 <= i < |ns| && 0 <= j < |ns| && i != j ==> ns[i].addr != ns[j].addr
    ensures forall i :: 0 <= i < |ns| ==> base <= ns[i].addr
  {
  }

  /** Headers of the list do not overlap. */
  lemma Apart(ns: seq<Node>, base: nat, i: nat, j: nat)
    requires Tiles(ns, base) && i < |ns| && j < |ns| && i != j
    ensures ns[i].addr + 24 <= ns[j].addr || ns[j].addr + 24 <= ns[i].addr
  {
    if i < j { TilesOrder(ns, base, i, j); } else { TilesOrder(ns, base, j, i); }
  }

  ghost function Heads(ns: seq<Node>): set<nat> {
    set n | n in ns :: n.addr
  }

  /** Only bytes of these headers differ; their marks may. */
  ghost predicate OnlyHeaders(m: Memory, r: Memory, heads: set<nat>) {
    forall k: nat :: Get(r, k) == Get(m, k) || exists a :: a in heads && a <= k < a + 24
  }

  /** Only bytes of these headers differ, and not their marks. */
  ghost predicate OnlyFields(m: Memory, r: Memory, heads: set<nat>) {
    forall k: nat :: Get(r, k) == Get(m, k) || exists a :: a in heads && a + 4 <= k < a + 24
  }

  lemma OnlyFieldsThen(m: Memory, r: Memory, q: Memory, heads: set<nat>)
    requires OnlyFields(m, r, heads) && OnlyFields(r, q, heads)
    ensures OnlyFields(m, q, heads)
  {
    forall k: nat ensures Get(q, k) == Get(m, k) || exists a :: a in heads && a + 4 <= k < a + 24 {
      if Get(q, k) == Get(r, k) { assert Get(r, k) == Get(m, k) || exists a :: a in heads && a + 4 <= k < a + 24; }
    }
  }

  /** A change that stays away from a header leaves it alone. */
  lemma HeaderKept(m: Memory, r: Memory, heads: set<nat>, b: nat, h: Header)
    requires HeaderAt(m, b, h) && OnlyHeaders(m, r, heads) && forall a :: a in heads ==> a + 24 <= b || b + 24 <= a
    ensures HeaderAt(r, b, h)
  {
    SameHeader(m, r, b, h);
  }

  /** Changing one block's free mark means changing one field of one header. */
  lemma LinkedMark(m: Memory, ns: seq<Node>, base: nat, i: nat, free: bool)
    requires Tiles(ns, base) && Linked(m, ns) && i < |ns|
    ensures Linked(SetFree(m, ns[i].addr, if free then 1 else 0), ns[i := ns[i].(free := free)])
    ensures OnlyFields(m, SetFree(m, ns[i].addr, if free then 1 else 0), {ns[i].addr})
  {
    var v, ms := if free then 1 else 0, ns[i := ns[i].(free := free)];
    var r := SetFree(m, ns[i].addr, v);
    forall k | 0 <= k < |ms| ensures LinkedAt(r, ms, k) {
      assert LinkedAt(m, ns, k) && NextAddr(ms, k) == NextAddr(ns, k);
      if k == i {
        SetFreeHere(m, ns[i].addr, HeaderFor(ns, i), v);
      } else {
        Apart(ns, base, i, k);
        HeaderKept(m, r, {ns[i].addr}, ns[k].addr, HeaderFor(ns, k));
      }
    }
  }

  /** The two headers of a block that has been cut. */
  ghost predicate Cut(r: Memory, ns: seq<Node>, i: nat, size: nat)
    requires i < |ns| && ns[i].size >= size + 24
  {
    && HeaderAt(r, ns[i].addr, Header(HEAP_MAGIC, size, ns[i].addr + 24 + size, 0))
    && HeaderAt(r, ns[i].addr + 24 + size, Header(HEAP_MAGIC, ns[i].size - size - 24, NextAddr(ns, i), 1))
  }

  /** Any block of the list but the one that is cut. */
  lemma SplitElsewhere(m: Memory, r: Memory, ns: seq<Node>, ms: seq<Node>, base: nat, i: nat, j: nat, k: nat)
    requires Tiles(ms, base) && i + 1 < |ms| && k < |ms| && k != i && k != i + 1 && j < |ns| && ms[k] == ns[j]
    requires LinkedAt(m, ns, j) && OnlyHeaders(m, r, {ms[i].addr, ms[i + 1].addr}) && NextAddr(ms, k) == NextAddr(ns, j)
    ensures LinkedAt(r, ms, k)
  {
    Apart(ms, base, k, i);
    Apart(ms, base, k, i + 1);
    HeaderKept(m, r, {ms[i].addr, ms[i + 1].addr}, ms[k].addr, HeaderFor(ns, j));
  }

  /** Splitting a block writes the new header and redirects the old one. */
  lemma LinkedSplit(m: Memory, r: Memory, ns: seq<Node>, base: nat, i: nat, size: nat)
    requires Tiles(ns, base) && Linked(m, ns) && i < |ns| && Fits(ns[i], size) && ns[i].size > size + 56
    requires Cut(r, ns, i, size) && OnlyHeaders(m, r, {ns[i].addr, ns[i].addr + 24 + size})
    ensures Linked(r, Place(ns, i, size)) && OnlyHeaders(m, r, Heads(Place(ns, i, size)))
  {
    var ms := Place(ns, i, size);
    forall k | 0 <= k < |ms| ensures LinkedAt(r, ms, k) {
      if k != i && k != i + 1 { SplitOther(m, r, ns, base, i, size, k); } else { SplitSelf(r, ns, i, size); }
    }
    PlaceAt(ns, i, size);
    assert ms[i] in ms && ms[i + 1] in ms;
    MoreHeads(m, r, {ms[i].addr, ms[i + 1].addr}, Heads(ms));
  }

  lemma SplitOther(m: Memory, r: Memory, ns: seq<Node>, base: nat, i: nat, size: nat, k: nat)
    requires Tiles(ns, base) && Linked(m, ns) && i < |ns| && Fits(ns[i], size) && ns[i].size > size + 56
    requires OnlyHeaders(m, r, {ns[i].addr, ns[i].addr + 24 + size})
    requires k < |Place(ns, i, size)| && k != i && k != i + 1
    ensures LinkedAt(r, Place(ns, i, size), k)
  {
    var j := PlaceOther(ns, i, size, k);
    PlaceTiles(ns, base, i, size);
    assert LinkedAt(m, ns, j);
    SplitElsewhere(m, r, ns, Place(ns, i, size), base, i, j, k);
  }

  /** Where a block that is not cut was before the split. */
  lemma PlaceOther(ns: seq<Node>, i: nat, size: nat, k: nat) returns (j: nat)
    requires i < |ns| && Fits(ns[i], size) && ns[i].size > size + 56
    requires k < |Place(ns, i, size)| && k != i && k != i + 1
    ensures var ms := Place(ns, i, size);
      && j < |ns| && ms[k] == ns[j] && NextAddr(ms, k) == NextAddr(ns, j)
      && i + 1 < |ms| && ms[i].addr == ns[i].addr && ms[i + 1].addr == ns[i].addr + 24 + size
  {
    PlaceAt(ns, i, size);
    j := if k < i then k else k - 1;
  }

  lemma SplitSelf(r: Memory, ns: seq<Node>, i: nat, size: nat)
    requires i < |ns| && Fits(ns[i], size) && ns[i].size > size + 56 && Cut(r, ns, i, size)
    ensures i + 1 < |Place(ns, i, size)| && LinkedAt(r, Place(ns, i, size), i) && LinkedAt(r, Place(ns, i, size), i + 1)
  {
    var ms, cut := Place(ns, i, size), ns[i].addr + 24 + size;
    PlaceAt(ns, i, size);
    Links(r, ms, i, ns[i].addr, Header(HEAP_MAGIC, size, cut, 0));
    assert NextAddr(ms, i + 1) == NextAddr(ns, i);
    Links(r, ms, i + 1, cut, Header(HEAP_MAGIC, ns[i].size - size - 24, NextAddr(ns, i), 1));
  }

  lemma Links(r: Memory, ms: seq<Node>, k: nat, a: nat, h: Header)
    requires k < |ms| && ms[k].addr == a && HeaderFor(ms, k) == h && HeaderAt(r, a, h)
    ensures LinkedAt(r, ms, k)
  {
  }

  lemma MoreHeads(m: Memory, r: Memory, some: set<nat>, all: set<nat>)
    requires OnlyHeaders(m, r, some) && some <= all
    ensures OnlyHeaders(m, r, all)
  {
  }

  /** The list after block k has swallowed its successor. */
  ghost function Swallow(ns: seq<Node>, k: nat): seq<Node>
    requires k + 1 < |ns|
  {
    ns[..k] + [Merge(ns[k], ns[k + 1])] + ns[k + 2..]
  }

  lemma SwallowAt(ns: seq<Node>, k: nat)
    requires k + 1 < |ns|
    ensures var ms := Swallow(ns, k);
      && |ms| == |ns| - 1 && ms[..k] == ns[..k] && ms[k] == Merge(ns[k], ns[k + 1]) && ms[k + 1..] == ns[k + 2..]
      && (forall i :: 0 <= i < k ==> ms[i] == ns[i]) && (forall i :: k < i < |ms| ==> ms[i] == ns[i + 1])
  {
  }

  lemma SwallowTiles(ns: seq<Node>, base: nat, k: nat)
    requires Tiles(ns, base) && k + 1 < |ns|
    ensures Tiles(Swallow(ns, k), base) && Extent(Swallow(ns, k)) == Extent(ns)
  {
    SwallowAt(ns, k);
    TilesSplit(ns, k, base);
    TilesSplit(Swallow(ns, k), k, base);
    assert ns[k + 1..][0] == ns[k + 1] && ns[k + 1..][1..] == ns[k + 2..];
  }

  lemma LinkedSwallow(m: Memory, r: Memory, ns: seq<Node>, base: nat, k: nat)
    requires Tiles(ns, base) && Linked(m, ns) && k + 1 < |ns| && OnlyFields(m, r, {ns[k].addr})
    requires HeaderAt(r, ns[k].addr, HeaderFor(ns, k).(size := ns[k].size + 24 + ns[k + 1].size, next := NextAddr(ns, k + 1)))
    ensures Linked(r, Swallow(ns, k))
  {
    var ms := Swallow(ns, k);
    SwallowAt(ns, k);
    forall i | 0 <= i < |ms| ensures LinkedAt(r, ms, i) {
      if i == k {
        assert NextAddr(ms, k) == NextAddr(ns, k + 1);
      } else {
        var j := if i < k then i else i + 1;
        assert LinkedAt(m, ns, j) && NextAddr(ms, i) == NextAddr(ns, j);
        Apart(ns, base, j, k);
        HeaderKept(m, r, {ns[k].addr}, ns[j].addr, HeaderFor(ns, j));
      }
    }
  }

  /** Growing the heap asks the virtual allocator for 4096 pages. That is more than contiguous allocation can
      ever find, so the answer is always null and nothing has changed. */
  method VmmAlloc(pmm: PageAllocator, pages: nat) returns (ptr: nat)
    requires pmm.Valid() && pages > 8
    ensures ptr == 0
  {
    ptr := pmm.AllocPages(pages);
  }

  /** What following the pointers from block k shows. */
  lemma ReadBlock(m: Memory, ns: seq<Node>, base: nat, k: nat)
    requires InArena(ns, base) && Linked(m, ns) && k < |ns|
    ensures var a := ns[k].addr;
      && Load(m, a, 4) == HEAP_MAGIC && Load(m, a + 4, 8) == ns[k].size
      && Load(m, a + 12, 8) == NextAddr(ns, k) && Load(m, a + 20, 4) == if ns[k].free then 1 else 0
    ensures k + 1 < |ns| ==> NextAddr(ns, k) != 0
  {
    assert LinkedAt(m, ns, k);
    TilesSplit(ns, k, base);
    if k + 1 < |ns| { TilesOrder(ns, base, k, k + 1); }
    Widths();
    EncodeDecode(HEAP_MAGIC, 4);
    EncodeDecode(ns[k].size, 8);
    EncodeDecode(NextAddr(ns, k), 8);
    EncodeDecode(if ns[k].free then 1 else 0, 4);
  }

  lemma ReadTwo(m: Memory, ns: seq<Node>, base: nat, k: nat)
    requires InArena(ns, base) && Linked(m, ns) && k + 1 < |ns|
    ensures LinkedAt(m, ns, k)
    ensures var a, b := ns[k].addr, ns[k + 1].addr;
      && Load(m, a + 4, 8) == ns[k].size && Load(m, a + 12, 8) == b
      && Load(m, b + 4, 8) == ns[k + 1].size && Load(m, b + 12, 8) == NextAddr(ns, k + 1)
  {
    ReadBlock(m, ns, base, k);
    ReadBlock(m, ns, base, k + 1);
  }

  /** The free mark set through this pointer does no harm: it is not set at all, or it is a held block's own, or
      it changes no header of the list. */
  ghost predicate SafeFree(m: Memory, ns: seq<Node>, ptr: nat) {
    !BearsMark(m, ptr) || Holds(ns, ptr) || HarmlessMark(m, ns, NodeOf(ptr))
  }

  lemma MarkExactly(m: Memory, ns: seq<Node>, ptr: nat)
    requires Linked(m, ns) && BearsMark(m, ptr) && !Holds(ns, ptr)
    ensures Linked(SetFree(m, NodeOf(ptr), 1), ns) <==> SafeFree(m, ns, ptr)
  {
    MarkStore(m, ns, NodeOf(ptr));
  }

  class KernelHeap {
    const pmm: PageAllocator
    const base: nat
    var head: nat
    var mem: Memory
    ghost var nodes: seq<Node>

    ghost predicate Valid()
      reads this, pmm, pmm.bitmap
    {
      && pmm.Valid() && base > 0 && base % 4096 == 0 && base + 16384 < 0x1_0000_0000_0000_0000
      && (if head == 0 then nodes == [] else head == base && Inv(nodes, base) && Linked(mem, nodes))
    }

    /** Before initialisation there is no list. */
    constructor (pmm: PageAllocator, base: nat)
      requires pmm.Valid() && base > 0 && base % 4096 == 0 && base + 16384 < 0x1_0000_0000_0000_0000
      ensures Valid() && head == 0 && this.pmm == pmm && this.base == base
    {
      this.pmm, this.base := pmm, base;
      head, mem, nodes := 0, map[], [];
    }

    method Init()
      requires Valid()
      modifies this
      ensures Valid() && head == base && nodes == Initial(base)
    {
      head := base;
      WriteHeader(head, Header(HEAP_MAGIC, 16384 - 24, 0, 1));
      nodes := Initial(base);
      InitialInv(base);
    }

    /** First fit. No byte outside the headers of the list changes: payloads keep their contents. */
    method Malloc(request: nat) returns (ptr: nat)
      requires Valid() && request < 0x1_0000_0000_0000_0000
      modifies this
      ensures Valid() && head == old(head) && OnlyHeaders(old(mem), mem, Heads(nodes))
      ensures if head == 0 then ptr == 0 && nodes == old(nodes) else (nodes, ptr) == HeapSpec.Malloc(old(nodes), request)
    {
      if request == 0 || head == 0 { return 0; }
      var size := Rounded(request);
      var curr := head;
      ghost var i := 0;
      TilesSplit(nodes, 0, base);
      while curr != 0
        invariant unchanged(this)
        invariant curr != 0 && i < |nodes| && curr == nodes[i].addr
        invariant FirstFit(nodes, size, 0) == FirstFit(nodes, size, i)
        decreases |nodes| - i
      {
        ReadBlock(mem, nodes, base, i);
        if Load(mem, curr + 20, 4) != 0 && Load(mem, curr + 4, 8) >= size {
          TakeBlock(curr, size, i);
          return curr + 24;
        }
        if Load(mem, curr + 12, 8) == 0 {
          var more := VmmAlloc(pmm, 4096);
          assert more == 0;
          return 0;
        }
        curr := Load(mem, curr + 12, 8);
        i := i + 1;
      }
    }

    /** A whole header, field by field. */
    method WriteHeader(a: nat, h: Header)
      modifies this`mem
      ensures HeaderAt(mem, a, h) && OnlyHeaders(old(mem), mem, {a})
    {
      NewHeaderHere(mem, a, h);
      mem := NewHeader(mem, a, h);
    }

    /** A header's size and link. */
    method Resize(a: nat, size: nat, next: nat, ghost h: Header)
      requires HeaderAt(mem, a, h)
      modifies this`mem
      ensures HeaderAt(mem, a, h.(size := size, next := next)) && OnlyFields(old(mem), mem, {a})
    {
      SetSizeHere(mem, a, h, size);
      mem := SetSize(mem, a, size);
      SetNextHere(mem, a, h.(size := size), next);
      mem := SetNext(mem, a, next);
    }

    /** Cuts the block in two. */
    method SplitBlock(curr: nat, size: nat, ghost h: Header)
      requires HeaderAt(mem, curr, h) && h.magic == HEAP_MAGIC && size + 24 <= h.size
      requires Load(mem, curr + 4, 8) == h.size && Load(mem, curr + 12, 8) == h.next
      modifies this`mem
      ensures HeaderAt(mem, curr, h.(size := size, next := curr + 24 + size))
      ensures HeaderAt(mem, curr + 24 + size, Header(HEAP_MAGIC, h.size - size - 24, h.next, 1))
      ensures OnlyHeaders(old(mem), mem, {curr, curr + 24 + size})
    {
      var cut := curr + 24 + size;
      var rest := Header(HEAP_MAGIC, Load(mem, curr + 4, 8) - size - 24, Load(mem, curr + 12, 8), 1);
      WriteHeader(cut, rest);
      HeaderKept(old(mem), mem, {cut}, curr, h);
      ghost var m := mem;
      Resize(curr, size, cut, h);
      HeaderKept(m, mem, {curr}, cut, rest);
    }

    /** Splits the block if that pays, and marks it taken. */
    method TakeBlock(curr: nat, size: nat, ghost i: nat)
      requires Valid() && head != 0 && i < |nodes| && curr == nodes[i].addr && Fits(nodes[i], size) && size % 8 == 0
      modifies this
      ensures Valid() && head == old(head) && nodes == Place(old(nodes), i, size)
      ensures OnlyHeaders(old(mem), mem, Heads(nodes))
    {
      ReadBlock(mem, nodes, base, i);
      PlaceInv(nodes, base, i, size);
      if Load(mem, curr + 4, 8) > size + 24 + 32 {
        TakePart(curr, size, i);
      } else {
        TakeWhole(curr, size, i);
      }
      nodes := Place(nodes, i, size);
    }

    method TakePart(curr: nat, size: nat, ghost i: nat)
      requires InArena(nodes, base) && Linked(mem, nodes)
      requires i < |nodes| && curr == nodes[i].addr && Fits(nodes[i], size) && nodes[i].size > size + 56
      modifies this`mem
      ensures Linked(mem, Place(nodes, i, size)) && OnlyHeaders(old(mem), mem, Heads(Place(nodes, i, size)))
    {
      ReadBlock(mem, nodes, base, i);
      assert LinkedAt(mem, nodes, i);
      ghost var h, cut := HeaderFor(nodes, i), curr + 24 + size;
      SplitBlock(curr, size, h);
      ClearFree(curr, h.(size := size, next := cut), cut, Header(HEAP_MAGIC, h.size - size - 24, h.next, 1));
      assert h.(size := size, next := cut, free := 0) == Header(HEAP_MAGIC, size, cut, 0);
      assert Cut(mem, nodes, i, size);
      LinkedSplit(old(mem), mem, nodes, base, i, size);
    }

    method TakeWhole(curr: nat, size: nat, ghost i: nat)
      requires InArena(nodes, base) && Linked(mem, nodes)
      requires i < |nodes| && curr == nodes[i].addr && Fits(nodes[i], size) && nodes[i].size <= size + 56
      modifies this`mem
      ensures Linked(mem, Place(nodes, i, size)) && OnlyHeaders(old(mem), mem, Heads(Place(nodes, i, size)))
    {
      LinkedMark(mem, nodes, base, i, false);
      mem := SetFree(mem, curr, 0);
      assert Place(nodes, i, size)[i] in Place(nodes, i, size);
      assert curr in Heads(Place(nodes, i, size));
    }

    /** Takes the free mark off a header; another header stays as it is. */
    method ClearFree(a: nat, ghost h: Header, ghost b: nat, ghost g: Header)
      requires HeaderAt(mem, a, h) && HeaderAt(mem, b, g) && a + 24 <= b
      modifies this`mem
      ensures HeaderAt(mem, a, h.(free := 0)) && HeaderAt(mem, b, g) && OnlyFields(old(mem), mem, {a})
    {
      SetFreeHere(mem, a, h, 0);
      mem := SetFree(mem, a, 0);
      HeaderKept(old(mem), mem, {a}, b, g);
    }

    /** A program may write to what it was given: a byte that is in no header does not matter to the list. */
    method Poke(a: nat, v: nat)
      requires Valid() && !InHeader(nodes, a)
      modifies this`mem
      ensures Valid() && Get(mem, a) == v
    {
      StoreExactly(mem, nodes, a, [v]);
      mem := Store(mem, a, [v]);
    }

    /** The first half of free, for any pointer at all: if what lies before it bears the mark, the free field is set.
        Unless the pointer is held, the list survives if and only if no header byte is changed by that. */
    method SetFreeMark(ptr: nat) returns (found: bool)
      requires Valid() && ptr < 0x1_0000_0000_0000_0000
      modifies this`mem
      ensures found <==> BearsMark(old(mem), ptr)
      ensures mem == if found then SetFree(old(mem), NodeOf(ptr), 1) else old(mem)
      ensures Holds(nodes, ptr) ==> found
      ensures ptr == 0 ==> !found && mem == old(mem)
      ensures !Holds(nodes, ptr) ==> (Linked(mem, nodes) <==> SafeFree(old(mem), nodes, ptr))
    {
      if ptr == 0 { return false; }
      var node := NodeOf(ptr);
      if i: nat :| LiveAt(nodes, i, ptr) {
        ReadBlock(mem, nodes, base, i);
        HeaderOf(nodes, base, ptr, i);
      }
      if Load(mem, node, 4) != HEAP_MAGIC { return false; }
      if !Holds(nodes, ptr) { MarkExactly(mem, nodes, ptr); }
      mem := SetFree(mem, node, 1);
      return true;
    }

    /** A live block is released and the list coalesced. Any other pointer, as long as it does no harm, leaves the
        list as it is. Freeing a held block changes no byte outside the headers and keeps every header's mark, also
        of the blocks that are swallowed. */
    method Free(ptr: nat)
      requires Valid() && ptr < 0x1_0000_0000_0000_0000 && SafeFree(mem, nodes, ptr)
      modifies this
      ensures Valid() && head == old(head)
      ensures forall i: nat :: LiveAt(old(nodes), i, ptr) ==> nodes == Release(old(nodes), i)
      ensures !Holds(old(nodes), ptr) ==> nodes == old(nodes)
      ensures Holds(old(nodes), ptr) ==> OnlyFields(old(mem), mem, Heads(old(nodes)))
      ensures ptr == 0 ==> mem == old(mem) && nodes == old(nodes)
    {
      ghost var was, before := nodes, mem;
      var found := SetFreeMark(ptr);
      if !found || head == 0 { return; }
      if Holds(nodes, ptr) {
        Marking(before, ptr);
      } else {
        CoalesceIdle(nodes);
      }
      ghost var marked := mem;
      ghost var heads := Heads(nodes);
      Sweep();
      if Holds(was, ptr) {
        OnlyFieldsThen(before, marked, mem, heads);
      }
    }

    /** The list of a held block whose free field has just been set. */
    ghost method Marking(before: Memory, ptr: nat)
      requires head == base && base > 0 && base + 16384 < 0x1_0000_0000_0000_0000 && ptr < 0x1_0000_0000_0000_0000
      requires Inv(nodes, base) && Linked(before, nodes) && Holds(nodes, ptr) && mem == SetFree(before, NodeOf(ptr), 1)
      modifies this`nodes
      ensures InArena(nodes, base) && Linked(mem, nodes) && nodes != []
      ensures forall i: nat :: LiveAt(old(nodes), i, ptr) ==>
        Coalesce(nodes) == Release(old(nodes), i) && Inv(Coalesce(nodes), base)
      ensures Heads(nodes) == Heads(old(nodes)) && OnlyFields(before, mem, Heads(nodes))
    {
      ghost var i := IndexOf(nodes, ptr);
      HeaderOf(nodes, base, ptr, i);
      LinkedMark(before, nodes, base, i, true);
      ReleaseEffect(nodes, base, i);
      OnlyOne(nodes, base, ptr, i);
      MarkTiles(nodes, base, i);
      MarkHeads(nodes, i);
      nodes := nodes[i := nodes[i].(free := true)];
    }

    /** A free block takes over its free successor. */
    method SwallowNext(temp: nat, ghost k: nat)
      requires InArena(nodes, base) && Linked(mem, nodes) && k + 1 < |nodes| && temp == nodes[k].addr
      modifies this`mem, this`nodes
      ensures InArena(nodes, base) && Linked(mem, nodes) && nodes == Swallow(old(nodes), k)
      ensures OnlyFields(old(mem), mem, {temp})
    {
      SwallowTiles(nodes, base, k);
      ReadTwo(mem, nodes, base, k);
      var next := Load(mem, temp + 12, 8);
      var size, link := Load(mem, temp + 4, 8) + 24 + Load(mem, next + 4, 8), Load(mem, next + 12, 8);
      ghost var h := HeaderFor(nodes, k);
      assert h.(size := size, next := link)
        == h.(size := nodes[k].size + 24 + nodes[k + 1].size, next := NextAddr(nodes, k + 1));
      Resize(temp, size, link, h);
      LinkedSwallow(old(mem), mem, nodes, base, k);
      nodes := Swallow(nodes, k);
    }

    /** The coalescing loop over the whole list. */
    method Sweep()
      requires head == base && nodes != [] && InArena(nodes, base) && Linked(mem, nodes)
      modifies this
      ensures head == old(head) && InArena(nodes, base) && Linked(mem, nodes) && nodes == Coalesce(old(nodes))
      ensures OnlyFields(old(mem), mem, Heads(old(nodes)))
    {
      ghost var was := nodes;
      var temp := head;
      ghost var k := 0;
      assert nodes[0..] == nodes;
      while temp != 0
        invariant head == old(head) && InArena(nodes, base) && Linked(mem, nodes)
        invariant k <= |nodes| && temp == if k < |nodes| then nodes[k].addr else 0
        invariant Swept(was, nodes, k)
        invariant Heads(nodes) <= Heads(was) && OnlyFields(old(mem), mem, Heads(was))
        decreases |nodes| - k
      {
        ReadBlock(mem, nodes, base, k);
        if k + 1 < |nodes| { ReadBlock(mem, nodes, base, k + 1); }
        if Load(mem, temp + 20, 4) != 0 && Load(mem, temp + 12, 8) != 0 && Load(mem, Load(mem, temp + 12, 8) + 20, 4) != 0 {
          SweptSwallow(was, nodes, k);
          SwallowHeads(nodes, k);
          ghost var before := mem;
          SwallowNext(temp, k);
          assert OnlyFields(before, mem, Heads(was));
          OnlyFieldsThen(old(mem), before, mem, Heads(was));
          continue;
        }
        SweptSkip(was, nodes, k);
        temp := Load(mem, temp + 12, 8);
        k := k + 1;
      }
      if k < |nodes| { TilesSplit(nodes, k, base); }
      assert nodes[..k] == nodes && nodes[k..] == [];
    }
  }

  lemma MarkHeads(ns: seq<Node>, i: nat)
    requires i < |ns|
    ensures Heads(ns[i := ns[i].(free := true)]) == Heads(ns) && ns[i].addr in Heads(ns)
  {
    var ms := ns[i := ns[i].(free := true)];
    forall a | a in Heads(ns) ensures a in Heads(ms) {
      var j :| 0 <= j < |ns| && ns[j].addr == a;
      assert ms[j] in ms && ms[j].addr == a;
    }
    forall a | a in Heads(ms) ensures a in Heads(ns) {
      var j :| 0 <= j < |ms| && ms[j].addr == a;
      assert ns[j] in ns && ns[j].addr == a;
    }
    assert ns[i] in ns;
  }

  lemma SwallowHeads(ns: seq<Node>, k: nat)
    requires k + 1 < |ns|
    ensures Heads(Swallow(ns, k)) <= Heads(ns) && ns[k].addr in Heads(ns)
  {
    var ms := Swallow(ns, k);
    SwallowAt(ns, k);
    forall a | a in Heads(ms) ensures a in Heads(ns) {
      var j :| 0 <= j < |ms| && ms[j].addr == a;
      assert ns[if j <= k then j else j + 1] in ns;
    }
    assert ns[k] in ns;
  }

  /** The sweep has finished the first k blocks. */
  ghost predicate Swept(was: seq<Node>, ns: seq<Node>, k: nat)
    requires k <= |ns|
  {
    Coalesce(was) == ns[..k] + Coalesce(ns[k..])
  }

  lemma SweptSwallow(was: seq<Node>, ns: seq<Node>, k: nat)
    requires k + 1 < |ns| && ns[k].free && ns[k + 1].free && Swept(was, ns, k)
    ensures |Swallow(ns, k)| == |ns| - 1 && Swept(was, Swallow(ns, k), k) && Swallow(ns, k)[k].addr == ns[k].addr
  {
    CoalesceSwallow(ns, k);
    SwallowAt(ns, k);
  }

  lemma SweptSkip(was: seq<Node>, ns: seq<Node>, k: nat)
    requires k < |ns| && (k + 1 == |ns| || !(ns[k].free && ns[k + 1].free)) && Swept(was, ns, k)
    ensures Swept(was, ns, k + 1)
  {
  }

  /** The 64-bit subtraction finds a block exactly when the pointer is that block's payload address. */
  lemma HeaderOf(ns: seq<Node>, base: nat, ptr: nat, i: nat)
    requires Tiles(ns, base) && Extent(ns) == 16384 && base + 16384 < 0x1_0000_0000_0000_0000
    requires ptr < 0x1_0000_0000_0000_0000 && i < |ns|
    ensures ns[i].addr == NodeOf(ptr) <==> ns[i].addr + 24 == ptr
  {
    TilesSplit(ns, i, base);
  }

  lemma OnlyOne(ns: seq<Node>, base: nat, ptr: nat, i: nat)
    requires Tiles(ns, base) && LiveAt(ns, i, ptr)
    ensures forall j: nat :: LiveAt(ns, j, ptr) ==> j == i
  {
    DistinctAddrs(ns, base);
  }

  lemma MarkTiles(ns: seq<Node>, base: nat, i: nat)
    requires Tiles(ns, base) && i < |ns|
    ensures Tiles(ns[i := ns[i].(free := true)], base) && Extent(ns[i := ns[i].(free := true)]) == Extent(ns)
  {
    var ms := ns[i := ns[i].(free := true)];
    TilesSplit(ns, i, base);
    TilesSplit(ms, i, base);
    assert ms[..i] == ns[..i] && ms[i + 1..] == ns[i + 1..];
  }

  lemma {:induction false} CoalesceIdle(ns: seq<Node>)
    requires NoAdjacentFree(ns)
    ensures Coalesce(ns) == ns
    decreases |ns|
  {
    if |ns| > 1 {
      TailNoAdjacentFree(ns);
      CoalesceIdle(ns[1..]);
    }
  }

  lemma CoalesceSwallow(ns: seq<Node>, k: nat)
    requires k + 1 < |ns| && ns[k].free && ns[k + 1].free
    ensures Coalesce(ns[k..]) == Coalesce(Swallow(ns, k)[k..])
  {
    SwallowAt(ns, k);
    assert ns[k..][2..] == ns[k + 2..];
    assert Swallow(ns, k)[k..] == [Merge(ns[k], ns[k + 1])] + ns[k + 2..];
  }
}
