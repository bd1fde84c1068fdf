/** The page-table manager as the kernel runs it: entries written in place, fresh tables taken from the page
    allocator and zeroed in a loop. Physical memory is reached through the kernel's direct map. */
module Paging {
  import opened PmmSpec
  import opened Pmm
  import opened PageTables
  import opened PagingRuns
  import opened PagingRanges

  class PageTableManager {
    const pmm: PageAllocator
    const p4: nat
    const p3: nat
    const p2: nat
    var mem: Mem
    ghost var level: map<nat, nat>

    ghost function View(): Tables
      reads this, pmm, pmm.bitmap
      requires pmm.Shaped()
    {
      Tables(p4, p3, p2, mem, level, pmm.View().free)
    }

    ghost predicate Valid()
      reads this, pmm, pmm.bitmap
    {
      pmm.Valid() && Wf(View())
    }

    /** Takes over the tables that the boot code has set up. */
    constructor (pmm: PageAllocator, p4: nat, p3: nat, p2: nat, mem: Mem)
      requires pmm.Valid()
      requires AtBoot(Tables(p4, p3, p2, mem, map[p4 := 4, p3 := 3, p2 := 2], pmm.View().free))
      ensures Valid() && AtBoot(View())
      ensures this.pmm == pmm && this.mem == mem && (this.p4, this.p3, this.p2) == (p4, p3, p2)
    {
      this.pmm := pmm;
      this.p4, this.p3, this.p2 := p4, p3, p2;
      this.mem := mem;
      level := map[p4 := 4, p3 := 3, p2 := 2];
      new;
      BootWf(View());
    }

    /** The clearing loop for a new table. */
    method ZeroFrame(n: nat)
      requires IsFrame(mem, n)
      modifies this`mem
      ensures mem == old(mem)[n := Zeros()]
    {
      var k := 0;
      while k < 512
        invariant 0 <= k <= 512
        invariant IsFrame(mem, n) && mem == old(mem)[n := mem[n]]
        invariant forall j :: 0 <= j < k ==> mem[n][j] == 0
      {
        var row: seq<nat> := mem[n][k := 0];
        mem := mem[n := row];
        k := k + 1;
      }
      assert mem[n] == Zeros();
    }

    /** The block that the mapping code repeats for PML4, PDPT and page directory. */
    method EnsureTable(f: nat, i: nat) returns (next: nat)
      requires pmm.Valid() && CanEnsure(View(), f, i)
      modifies this, pmm`used, pmm.bitmap
      ensures pmm.Valid() && View() == Ensure(old(View()), f, i)
      ensures next == Child(View(), f, i)
    {
      ghost var was := View();
      if mem[f][i] % 2 == 0 {
        FreshFrame(was.free);
        var ptr := pmm.AllocPage();
        var phys := VirtToPhys(ptr);
        ZeroFrame(phys / 4096);
        var row: seq<nat> := mem[f][i := phys + 7];
        mem := mem[f := row];
        level := level[phys / 4096 := level[f] - 1];
        assert View() == PageTables.AddTable(was, f, i);
      }
      next := FrameOf(mem[f][i]);
    }

    /** Maps one page. The contract is the flat one: the tables become what MapPage says, and MapEffect
        and FromBoot tell what that means for every address. */
    method Map(virt: nat, phys: nat, flags: nat)
      requires Valid() && MapOk(View(), Request(Split(virt), phys, flags))
      modifies this, pmm`used, pmm.bitmap
      ensures Valid() && View() == MapPage(old(View()), Request(Split(virt), phys, flags))
    {
      MapAt(Request(Split(virt), phys, flags));
    }

    method MapAt(r: Request)
      requires Valid() && MapOk(View(), r)
      modifies this, pmm`used, pmm.bitmap
      ensures Valid() && View() == MapPage(old(View()), r)
    {
      ghost var s0 := View();
      MapPath(s0, r);
      MapShape(s0, r);
      WriteEntry(r.va.i4, r.va.i3, r.va.i2, r.va.i1, EntryOf(r));
    }

    /** The body of the mapping code once the indices and the entry have been computed. */
    method WriteEntry(i4: nat, i3: nat, i2: nat, i1: nat, entry: nat)
      requires pmm.Valid() && i1 < ENTRIES && Walkable(View(), i4, i3, i2)
      modifies this, pmm`used, pmm.bitmap
      ensures pmm.Valid() && View() == Written(old(View()), i4, i3, i2, i1, entry)
    {
      var pdpt := EnsureTable(p4, i4);
      var pd := EnsureTable(pdpt, i3);
      var pt := EnsureTable(pd, i2);
      var row: seq<nat> := mem[pt][i1 := entry];
      mem := mem[pt := row];
    }

    /** Maps a range of bytes page by page: it translates affinely, byte by byte, exactly when it avoids the boot
        window, and addresses that share no slot with any byte of it translate as before. */
    method MapRange(virt: nat, phys: nat, size: nat, flags: nat)
      requires size <= WORD_MOD - 4096
      requires Valid() && RunOk(View(), RangeRequests(virt, phys, PagesOf(size), flags))
      modifies this, pmm`used, pmm.bitmap
      ensures Valid() && View() == RunMaps(old(View()), RangeRequests(virt, phys, PagesOf(size), flags))
      ensures ByteRange(virt, phys, size, flags) ==>
        (BytesAffine(View(), virt, phys, size) <==> AvoidsBytes(virt, phys, size))
      ensures virt + size <= WORD_MOD ==>
        forall w: nat :: Untouched(virt, size, w) ==> GetPhys(mem, p4, w) == GetPhys(old(mem), p4, w)
    {
      ghost var rs := RangeRequests(virt, phys, PagesOf(size), flags);
      ghost var s0 := View();
      RangeMeans(s0, virt, phys, size, flags);
      ghost var states := RunStates(s0, rs);
      RunShape(s0, rs);
      MapLoop(virt, phys, size, flags, rs, states);
    }

    method MapLoop(virt: nat, phys: nat, size: nat, flags: nat, ghost rs: seq<Request>, ghost states: seq<Tables>)
      requires rs == RangeRequests(virt, phys, PagesOf(size), flags) && Turns(states, rs)
      requires pmm.Valid() && View() == states[0]
      modifies this, pmm`used, pmm.bitmap
      ensures pmm.Valid() && View() == states[|rs|]
    {
      ghost var k := 0;
      var offset := 0;
      while offset < size
        invariant offset == k * 4096 && 0 <= k <= |rs|
        invariant pmm.Valid() && View() == states[k]
      {
        var r := RequestAt(virt, phys, flags, offset, rs, k);
        MapTurn(r, rs, states, k);
        offset := offset + 4096;
        k := k + 1;
      }
    }

    method MapTurn(r: Request, ghost rs: seq<Request>, ghost states: seq<Tables>, ghost k: nat)
      requires Turns(states, rs) && k < |rs| && r == rs[k]
      requires pmm.Valid() && View() == states[k]
      modifies this, pmm`used, pmm.bitmap
      ensures pmm.Valid() && View() == states[k + 1]
    {
      assert Turn(states, rs, k);
      MapAt(r);
    }
  }

  /** The frame handed out next is memory, and not the table itself. */
  ghost predicate FreshOk(s: Tables, f: nat)
    requires Usable(s.free) != {}
  {
    LowestUsable(s.free);
    IsFrame(s.mem, Lowest(s.free)) && Lowest(s.free) != f
  }

  /** Slot i of table f leads to a table or can be made to. */
  ghost predicate CanEnsure(s: Tables, f: nat, i: nat) {
    && Addressable(s, f, i)
    && (Present(Word(s.mem, f, i)) ||
          (Usable(s.free) != {} && FreshOk(s, f)))
  }

  /** The three blocks can run one after the other. */
  ghost predicate Walkable(s: Tables, i4: nat, i3: nat, i2: nat) {
    && CanEnsure(s, s.p4, i4)
    && (var s3 := Ensure(s, s.p4, i4);
        var f3 := Child(s3, s.p4, i4);
        && CanEnsure(s3, f3, i3)
        && (var s2 := Ensure(s3, f3, i3);
            var f2 := Child(s2, f3, i3);
            && CanEnsure(s2, f2, i2)
            && (var s1 := Ensure(s2, f2, i2); IsFrame(s1.mem, Child(s1, f2, i2)))))
  }

  ghost function Written(s: Tables, i4: nat, i3: nat, i2: nat, i1: nat, entry: nat): Tables
    requires Walkable(s, i4, i3, i2) && i1 < ENTRIES
  {
    var s3 := Ensure(s, s.p4, i4);
    var f3 := Child(s3, s.p4, i4);
    var s2 := Ensure(s3, f3, i3);
    var f2 := Child(s2, f3, i3);
    var s1 := Ensure(s2, f2, i2);
    WriteLeaf(s1, Child(s1, f2, i2), i1, entry)
  }

  /** The pointer handed out for a usable frame is not null and gives back the frame. */
  lemma FreshFrame(free: set<nat>)
    requires Usable(free) != {}
    ensures Allocatable(free) != {} && VirtToPhys(PhysToVirt(Lowest(free) * 4096)) == Lowest(free) * 4096
    ensures PhysToVirt(Lowest(free) * 4096) != 0
  {
    LowestUsable(free);
  }

  lemma StepCanEnsure(s: Tables, f: nat, v: Va)
    requires Wf(s) && CanMap(s, f, v) && s.level[f] > 1
    ensures CanEnsure(s, f, Index(v, s.level[f]))
  {
    EnsureStep(s, f, v);
    if !Present(Word(s.mem, f, Index(v, s.level[f]))) { LowestUsable(s.free); assert Lowest(s.free) in s.free; }
  }

  /** One level of completing a path: the block, then the rest from the table it leads to. */
  lemma PrepareStep(s: Tables, f: nat, v: Va)
    requires Wf(s) && CanMap(s, f, v) && s.level[f] > 1
    ensures var i := Index(v, s.level[f]);
      && CanEnsure(s, f, i)
      && var t := Ensure(s, f, i); var g := Child(t, f, i);
      && Wf(t) && CanMap(t, g, v) && t.level[g] == s.level[f] - 1
      && Prepare(s, f, v) == Prepare(t, g, v)
      && LastTable(Prepare(s, f, v).mem, f, s.level[f], v) == LastTable(Prepare(t, g, v).mem, g, t.level[g], v)
      && t.p4 == s.p4
  {
    var i := Index(v, s.level[f]);
    StepCanEnsure(s, f, v);
    EnsureStep(s, f, v);
    var t := Ensure(s, f, i);
    PrepareShape(t, Child(t, f, i), v);
    var end := Prepare(t, Child(t, f, i), v);
    assert IsRef(end, f, i) && Child(end, f, i) == Child(t, f, i);
  }

  /** Outside the window the three blocks complete the path; inside, all three entries are already there. */
  lemma MapPath(s: Tables, r: Request)
    requires MapOk(s, r)
    ensures Walkable(s, r.va.i4, r.va.i3, r.va.i2)
    ensures MapPage(s, r) == Written(s, r.va.i4, r.va.i3, r.va.i2, r.va.i1, EntryOf(r))
  {
    if InWindow(r.va) { WindowPath(s, r); } else { OutsidePath(s, r); }
  }

  lemma WindowPath(s: Tables, r: Request)
    requires MapOk(s, r) && InWindow(r.va)
    ensures Walkable(s, r.va.i4, r.va.i3, r.va.i2)
    ensures MapPage(s, r) == Written(s, r.va.i4, r.va.i3, r.va.i2, r.va.i1, EntryOf(r))
  {
    BootEntryBits(s.p3);
    BootEntryBits(s.p2);
    LargePageBits(r.va.i2);
    assert Word(s.mem, s.p2, r.va.i2) == r.va.i2 * 0x20_0000 + 0x83;
  }

  lemma OutsidePath(s: Tables, r: Request)
    requires MapOk(s, r) && !InWindow(r.va)
    ensures Walkable(s, r.va.i4, r.va.i3, r.va.i2)
    ensures MapPage(s, r) == Written(s, r.va.i4, r.va.i3, r.va.i2, r.va.i1, EntryOf(r))
  {
    var v := r.va;
    ClearOutsideWindow(s, v);
    PrepareStep(s, s.p4, v);
    var s3 := Ensure(s, s.p4, v.i4);
    var f3 := Child(s3, s.p4, v.i4);
    PrepareStep(s3, f3, v);
    var s2 := Ensure(s3, f3, v.i3);
    var f2 := Child(s2, f3, v.i3);
    PrepareStep(s2, f2, v);
    var s1 := Ensure(s2, f2, v.i2);
    var f1 := Child(s1, f2, v.i2);
    assert Prepare(s1, f1, v) == s1 && LastTable(s1.mem, f1, 1, v) == At(f1);
  }

  lemma RangeMeans(s: Tables, virt: nat, phys: nat, size: nat, flags: nat)
    requires RunOk(s, RangeRequests(virt, phys, PagesOf(size), flags))
    ensures var t := RunMaps(s, RangeRequests(virt, phys, PagesOf(size), flags));
      && (ByteRange(virt, phys, size, flags) ==>
            (BytesAffine(t, virt, phys, size) <==> AvoidsBytes(virt, phys, size)))
      && (virt + size <= WORD_MOD ==>
            forall w: nat :: Untouched(virt, size, w) ==> GetPhys(t.mem, t.p4, w) == GetPhys(s.mem, s.p4, w))
  {
    if ByteRange(virt, phys, size, flags) { SizedRangeExactly(s, virt, phys, size, flags); }
    if virt + size <= WORD_MOD {
      var t := RunMaps(s, RangeRequests(virt, phys, PagesOf(size), flags));
      forall w: nat | Untouched(virt, size, w) ensures GetPhys(t.mem, t.p4, w) == GetPhys(s.mem, s.p4, w) {
        SizedRangeFrame(s, virt, phys, size, flags, w);
      }
    }
  }

  /** The arguments of the call made at one offset of the range. */
  method RequestAt(virt: nat, phys: nat, flags: nat, offset: nat, ghost rs: seq<Request>, ghost k: nat)
    returns (r: Request)
    requires offset == k * 4096 && k < |rs| && rs == RangeRequests(virt, phys, |rs|, flags)
    ensures r == rs[k]
  {
    r := Request(Split((virt + offset) % 0x1_0000_0000_0000_0000), (phys + offset) % 0x1_0000_0000_0000_0000, flags);
    RangeAt(virt, phys, |rs|, flags, k);
  }

  ghost predicate Turn(states: seq<Tables>, rs: seq<Request>, k: nat)
    requires |states| == |rs| + 1 && k < |rs|
  {
    MapOk(states[k], rs[k]) && states[k + 1] == MapPage(states[k], rs[k])
  }

  /** The states that a run goes through. */
  ghost predicate Turns(states: seq<Tables>, rs: seq<Request>) {
    |states| == |rs| + 1 && forall k :: 0 <= k < |rs| ==> Turn(states, rs, k)
  }

  lemma {:induction false} RunStates(s: Tables, rs: seq<Request>) returns (states: seq<Tables>)
    requires RunOk(s, rs)
    ensures Turns(states, rs) && states[0] == s && states[|rs|] == RunMaps(s, rs)
    decreases |rs|
  {
    if rs == [] {
      states := [s];
    } else {
      var front := RunStates(s, rs[..|rs| - 1]);
      states := front + [RunMaps(s, rs)];
      TurnsExtend(front, rs, RunMaps(s, rs));
    }
  }

  lemma TurnsExtend(front: seq<Tables>, rs: seq<Request>, last: Tables)
    requires rs != [] && Turns(front, rs[..|rs| - 1])
    requires MapOk(front[|rs| - 1], rs[|rs| - 1]) && last == MapPage(front[|rs| - 1], rs[|rs| - 1])
    ensures Turns(front + [last], rs)
  {
    var states := front + [last];
    forall k | 0 <= k < |rs| ensures Turn(states, rs, k) {
      if k < |rs| - 1 { assert Turn(front, rs[..|rs| - 1], k); }
    }
  }
}
