/** A pointer freed twice, with the block's old header overlapping a new one by then: the run on which free destroys
    the block list. */
module HeapMisuse {
  import opened HeapSpec
  import opened HeapMemory
  import opened HeapRuns
  import opened Heap

  ghost function OneSmall(base: nat): seq<Node> {
    [Node(base, 8, false), Node(base + 32, 16328, true)]
  }

  ghost function TwoSmall(base: nat): seq<Node> {
    [Node(base, 8, false), Node(base + 32, 8, false), Node(base + 64, 16296, true)]
  }

  ghost function OneLarger(base: nat): seq<Node> {
    [Node(base, 24, false), Node(base + 48, 16312, true)]
  }

  /** The lists the run goes through: two blocks of 8 bytes, both given back, then one of 24. */
  lemma RunLists(base: nat)
    requires base % 4096 == 0
    ensures Malloc(Initial(base), 8) == (OneSmall(base), base + 24) && Malloc(OneSmall(base), 8) == (TwoSmall(base), base + 56)
    ensures Malloc(Initial(base), 24) == (OneLarger(base), base + 24)
    ensures LiveAt(TwoSmall(base), 1, base + 56) && LiveAt(OneSmall(base), 0, base + 24)
    ensures Release(TwoSmall(base), 1) == OneSmall(base) && Release(OneSmall(base), 0) == Initial(base)
    ensures Inv(Initial(base), base) && Inv(OneSmall(base), base)
  {
    InitialInv(base);
    assert Place(Initial(base), 0, 8) == OneSmall(base);
    assert Place(Initial(base), 0, 24) == OneLarger(base);
    assert FirstFit(OneSmall(base), 8, 0) == 1;
    assert Place(OneSmall(base), 1, 8) == TwoSmall(base);
    PlaceInv(Initial(base), base, 0, 8);
    MallocThenFree(Initial(base), base, 8, 0);
    MallocThenFree(OneSmall(base), base, 8, 1);
  }

  /** A mark that no change comes near stays. */
  lemma MarkStays(m: Memory, r: Memory, a: nat)
    requires Field(m, a, 4, HEAP_MAGIC) && forall k: nat :: a <= k < a + 4 ==> Get(r, k) == Get(m, k)
    ensures Field(r, a, 4, HEAP_MAGIC)
  {
    assert Bytes(r, a, 4) == Bytes(m, a, 4);
  }

  /** Two blocks allocated and given back. The mark of the second survives both frees. */
  method FreeBoth(heap: KernelHeap) returns (stale: nat)
    requires heap.Valid() && heap.head != 0 && heap.nodes == Initial(heap.base)
    modifies heap
    ensures heap.Valid() && heap.head != 0 && heap.nodes == Initial(heap.base)
    ensures stale == heap.base + 56 && Field(heap.mem, heap.base + 32, 4, HEAP_MAGIC)
  {
    RunLists(heap.base);
    var first := heap.Malloc(8);
    stale := heap.Malloc(8);
    assert LinkedAt(heap.mem, heap.nodes, 1);
    ghost var m0 := heap.mem;
    heap.Free(stale);
    ghost var m1 := heap.mem;
    MarkStays(m0, m1, heap.base + 32);
    heap.Free(first);
    MarkStays(m1, heap.mem, heap.base + 32);
  }

  /** It also survives the next allocation. */
  method FreeBothThenAllocate(heap: KernelHeap) returns (stale: nat)
    requires heap.Valid() && heap.head != 0 && heap.nodes == Initial(heap.base)
    modifies heap
    ensures heap.Valid() && heap.head != 0 && heap.nodes == OneLarger(heap.base)
    ensures stale == heap.base + 56 && Field(heap.mem, heap.base + 32, 4, HEAP_MAGIC)
  {
    stale := FreeBoth(heap);
    RunLists(heap.base);
    ghost var m := heap.mem;
    var larger := heap.Malloc(24);
    MarkStays(m, heap.mem, heap.base + 32);
  }

  lemma StaleBearsMark(m: Memory, base: nat)
    requires Field(m, base + 32, 4, HEAP_MAGIC) && base + 16384 < 0x1_0000_0000_0000_0000
    ensures BearsMark(m, base + 56) && NodeOf(base + 56) == base + 32
  {
    Widths();
    EncodeDecode(HEAP_MAGIC, 4);
  }

  /** The free field of the stale header is the low word of the size of the live header 16 bytes further on. */
  lemma SizeLost(m: Memory, base: nat)
    requires Field(m, base + 52, 8, 16312)
    ensures Load(SetFree(m, base + 32, 1), base + 52, 8) == 1
  {
    var r := SetFree(m, base + 32, 1);
    One();
    HighWordZero(m, base + 52);
    assert Bytes(r, base + 52, 8) == [1, 0, 0, 0, 0, 0, 0, 0];
    DecodeOne();
  }

  lemma HighWordZero(m: Memory, a: nat)
    requires Field(m, a, 8, 16312)
    ensures Get(m, a + 4) == Get(m, a + 5) == Get(m, a + 6) == Get(m, a + 7) == 0
  {
    assert Encode(0, 4) == [0, 0, 0, 0];
    assert Encode(16312, 8) == [184, 63, 0, 0] + Encode(0, 4);
    var bs := Bytes(m, a, 8);
    assert bs[4] == bs[5] == bs[6] == bs[7] == 0;
  }

  lemma DecodeOne()
    ensures Decode([1, 0, 0, 0, 0, 0, 0, 0]) == 1
  {
    assert Decode([0, 0, 0]) == 0;
    assert Decode([0, 0, 0, 0, 0]) == 0;
    assert Decode([0, 0, 0, 0, 0, 0, 0]) == 0;
  }

  /** Freeing the second block once more: it passes the test of the mark, the size of the free block behind the live
      one becomes 1, and the headers no longer spell out the list. */
  method StaleFreeRun(heap: KernelHeap) returns (stale: nat, found: bool)
    requires heap.Valid() && heap.head != 0 && heap.nodes == Initial(heap.base)
    modifies heap
    ensures heap.nodes == OneLarger(heap.base) && found && !Holds(heap.nodes, stale) && HitsHeader(heap.nodes, stale)
    ensures !Linked(heap.mem, heap.nodes) && Load(heap.mem, heap.nodes[1].addr + 4, 8) == 1
  {
    stale := FreeBothThenAllocate(heap);
    ghost var base, m := heap.base, heap.mem;
    StaleBearsMark(m, base);
    assert stale == heap.nodes[1].addr + 8;
    assert LinkedAt(m, heap.nodes, 1);
    SizeLost(m, base);
    NotPayload(heap.nodes, base, stale);
    AlignedBase(base);
    StaleFreeExactly(m, heap.nodes, base, stale);
    found := heap.SetFreeMark(stale);
  }

  lemma NotPayload(ns: seq<Node>, base: nat, stale: nat)
    requires ns == OneLarger(base) && stale == base + 56
    ensures !PayloadAt(ns, stale) && !Holds(ns, stale)
  {
  }

  lemma AlignedBase(base: nat)
    requires base % 4096 == 0
    ensures (base + 56) % 8 == 0
  {
    assert base == base / 4096 * 512 * 8;
  }
}
