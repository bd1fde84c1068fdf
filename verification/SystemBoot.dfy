/** Boot as a whole: the memory map fills the page allocator, and the page-table code takes over the tables
    that the boot code built, on top of that allocator. */
module SystemBoot {
  import opened PmmSpec
  import opened Pmm
  import opened Boot
  import opened PmmRuns
  import opened PageTables
  import opened PagingRuns
  import opened Paging

  /** Every frame of RAM is there to be used. */
  ghost predicate Backed(mem: Mem, top: nat) {
    forall f: nat :: f < top / 4096 ==> IsFrame(mem, f)
  }

  /** What the boot code has written, and the promise that the image with its tables ends below 2 MiB. */
  ghost predicate BootImage(mem: Mem, p4: nat, p3: nat, p2: nat) {
    p4 < FIRST_PAGE && p3 < FIRST_PAGE && p2 < FIRST_PAGE && BootWords(mem, p4, p3, p2)
  }

  /** No page that boot marked free is one of the tables: allocation starts at 2 MiB. */
  lemma BootTablesSafe(tags: seq<Tag>, kernelEnd: nat, pool: Pool, mem: Mem, p4: nat, p3: nat, p2: nat)
    requires BootPool(tags, kernelEnd, pool) && BootImage(mem, p4, p3, p2)
    requires forall top: nat :: IsRamTop(tags, top) ==> Backed(mem, top)
    ensures AtBoot(Tables(p4, p3, p2, mem, map[p4 := 4, p3 := 3, p2 := 2], pool.free))
  {
    BootSparesBitmap(tags, kernelEnd, pool);
    var top: nat :| IsRamTop(tags, top) && pool.total == top / 4096 &&
      forall p: nat :: p in pool.free <==>
        p < pool.total && ReachedByAny(LastMap(tags), p, BitmapStart(kernelEnd), WindowEnd(kernelEnd, top));
    assert Backed(mem, top);
  }

  /** From the memory map to working page tables: translation is what boot set up, and every run of mappings
      from here on is the one that FromBoot describes. */
  method Start(tags: seq<Tag>, kernelEnd: nat, mem: Mem, p4: nat, p3: nat, p2: nat) returns (vm: PageTableManager)
    requires Sane(tags) && BootImage(mem, p4, p3, p2)
    requires forall top: nat :: IsRamTop(tags, top) ==> Backed(mem, top)
    ensures vm.Valid() && AtBoot(vm.View()) && BootPool(tags, kernelEnd, vm.pmm.View())
    ensures forall w: nat :: GetPhys(vm.mem, vm.p4, w) == if InWindow(Split(w)) then w % 0x4000_0000 else 0
  {
    var pmm := InitMemory(tags, kernelEnd);
    BootTablesSafe(tags, kernelEnd, pmm.View(), mem, p4, p3, p2);
    vm := new PageTableManager(pmm, p4, p3, p2, mem);
    BootLookup(vm.View());
  }

  lemma BootLookup(s: Tables)
    requires AtBoot(s)
    ensures forall w: nat :: GetPhys(s.mem, s.p4, w) == if InWindow(Split(w)) then w % 0x4000_0000 else 0
  {
    BootWf(s);
    FromBoot(s, []);
  }

  /** The boot tables are part of the kernel image. */
  ghost predicate InImage(kernelEnd: nat, p4: nat, p3: nat, p2: nat) {
    p4 * 4096 + 4096 <= kernelEnd && p3 * 4096 + 4096 <= kernelEnd && p2 * 4096 + 4096 <= kernelEnd
  }

  /** Over every run from boot, no table overlaps the bytes of the page bitmap. */
  lemma TablesSpareBitmap(tags: seq<Tag>, kernelEnd: nat, pool: Pool, mem: Mem, p4: nat, p3: nat, p2: nat,
                          rs: seq<Request>)
    requires BootPool(tags, kernelEnd, pool) && BootImage(mem, p4, p3, p2) && InImage(kernelEnd, p4, p3, p2)
    requires RunOk(Tables(p4, p3, p2, mem, map[p4 := 4, p3 := 3, p2 := 2], pool.free), rs)
    ensures var s := Tables(p4, p3, p2, mem, map[p4 := 4, p3 := 3, p2 := 2], pool.free);
      forall f: nat :: f in RunMaps(s, rs).level ==> !OverlapsBitmap(kernelEnd, pool.total, f)
  {
    var s := Tables(p4, p3, p2, mem, map[p4 := 4, p3 := 3, p2 := 2], pool.free);
    BootSparesBitmap(tags, kernelEnd, pool);
    RunFrames(s, rs);
    assert BitmapStart(kernelEnd) >= kernelEnd;
    forall f: nat | f in RunMaps(s, rs).level ensures !OverlapsBitmap(kernelEnd, pool.total, f) {
      assert f in FramesOf(s);
    }
  }
}
