/** What holds over whole runs of the page allocator, and exactly where its promises fail. */
module PmmRuns {
  import opened PmmSpec
  import opened Boot

  datatype Event = Alloc | AllocRun | Free(addr: nat) | Reserve(addr: nat)

  /** The pool together with the pages handed out and the pages marked used, and not given back yet. */
  datatype Ledger = Ledger(pool: Pool, held: set<nat>, reserved: set<nat>)

  /** Pages allocated one at a time, or eight at a time, and pages taken out by marking them used. */
  ghost function Apply(l: Ledger, e: Event): Ledger {
    match e
    case Alloc => var now := AllocPage(l.pool).0; l.(pool := now, held := l.held + (l.pool.free - now.free))
    case AllocRun => var now := AllocEight(l.pool).0; l.(pool := now, held := l.held + (l.pool.free - now.free))
    case Free(addr) => Ledger(MarkFree(l.pool, addr), l.held - {addr / 4096}, l.reserved - {addr / 4096})
    case Reserve(addr) =>
      var now := MarkUsed(l.pool, addr); l.(pool := now, reserved := l.reserved + (l.pool.free - now.free))
  }

  ghost function Run(l: Ledger, es: seq<Event>): Ledger
    decreases |es|
  {
    if es == [] then l else Run(Apply(l, es[0]), es[1..])
  }

  /** Callers only give back, by physical address, pages they were given or marked used. */
  ghost predicate Honest(l: Ledger, es: seq<Event>)
    decreases |es|
  {
    es != [] ==> (es[0].Free? ==> es[0].addr / 4096 in l.held + l.reserved) && Honest(Apply(l, es[0]), es[1..])
  }

  ghost function AllPages(l: Ledger): set<nat> {
    l.pool.free + l.held + l.reserved
  }

  ghost predicate Balanced(l: Ledger) {
    && PoolValid(l.pool) && l.pool.free !! l.held !! l.reserved
    && forall p :: p in AllPages(l) ==> p < l.pool.total
  }

  lemma ApplyBalanced(l: Ledger, e: Event)
    requires Balanced(l) && (e.Free? ==> e.addr / 4096 in l.held + l.reserved)
    ensures var m := Apply(l, e);
      Balanced(m) && m.pool.total == l.pool.total && AllPages(m) == AllPages(l)
  {
    var m := Apply(l, e);
    assert m.pool.total == l.pool.total;
    assert AllPages(m) == AllPages(l);
    assert m.pool.free !! m.held !! m.reserved;
  }

  /** Conservation: at every moment of every honest run the initially free pages are split, without
      overlap, into the pages still free, those held and those marked used. */
  lemma {:induction false} Conservation(l: Ledger, es: seq<Event>)
    requires Balanced(l) && Honest(l, es)
    ensures var end := Run(l, es);
      Balanced(end) && end.pool.total == l.pool.total && AllPages(end) == AllPages(l)
    decreases |es|
  {
    if es != [] {
      ApplyBalanced(l, es[0]);
      Conservation(Apply(l, es[0]), es[1..]);
    }
  }

  /** So no page is handed out twice: whatever the next allocation of one or of eight pages takes was held by
      nobody, and one page or all eight are taken unless there are none. */
  lemma NeverTwice(l: Ledger, es: seq<Event>, e: Event)
    requires Balanced(l) && Honest(l, es) && (e.Alloc? || e.AllocRun?)
    ensures var before := Run(l, es); var after := Apply(before, e); var taken := after.held - before.held;
      && taken !! before.held + before.reserved && taken == before.pool.free - after.pool.free
      && (e.Alloc? ==> if Allocatable(before.pool.free) == {} then taken == {} else taken == {Lowest(before.pool.free)})
      && (e.AllocRun? && (exists i: nat :: IsFirstByte(before.pool.free, i)) ==> |taken| == 8)
  {
    Conservation(l, es);
    var before := Run(l, es);
    ApplyBalanced(before, e);
    var after := Apply(before, e);
    var taken := before.pool.free - after.pool.free;
    assert after.held - before.held == taken;
    if e.AllocRun? && exists i: nat :: IsFirstByte(before.pool.free, i) {
      var i: nat :| IsFirstByte(before.pool.free, i) && after.pool.free == before.pool.free - MarkedPages(i, 8);
      assert taken == MarkedPages(i, 8);
      MarkedSize(i, 8);
    }
  }

  /** The page overlaps the bytes the bitmap itself occupies. */
  ghost predicate OverlapsBitmap(kernelEnd: nat, total: nat, p: nat) {
    var start := BitmapStart(kernelEnd);
    p * 4096 < start + (total + 7) / 8 && start < p * 4096 + 4096
  }

  /** Boot never frees a page under the bitmap, whether or not map entries are page aligned. */
  lemma BootSparesBitmap(tags: seq<Tag>, kernelEnd: nat, s: Pool)
    requires BootPool(tags, kernelEnd, s)
    ensures PoolValid(s)
    ensures forall p: nat :: p in s.free ==> !OverlapsBitmap(kernelEnd, s.total, p) && FIRST_PAGE <= p
  {
    var top: nat :| IsRamTop(tags, top) && s.total == top / 4096 &&
      forall p: nat :: p in s.free <==>
        p < s.total && ReachedByAny(LastMap(tags), p, BitmapStart(kernelEnd), WindowEnd(kernelEnd, top));
    forall p: nat | p in s.free ensures !OverlapsBitmap(kernelEnd, s.total, p) && FIRST_PAGE <= p {
      var entries, start, end := LastMap(tags), BitmapStart(kernelEnd), WindowEnd(kernelEnd, top);
      var i :| 0 <= i < |entries| && Reached(entries[i], p, start, end);
      var a: nat :| StepsOn(entries[i], a) && a / 4096 == p && !Skipped(a, start, end);
      assert start % 4096 == 0;
      assert (s.total + 7) / 8 <= top / 32768 + 1;
    }
  }

  /** After boot, no allocation in any honest run returns a page under the bitmap or below 2 MiB. */
  lemma AllocationSparesBitmap(tags: seq<Tag>, kernelEnd: nat, s: Pool, es: seq<Event>)
    requires BootPool(tags, kernelEnd, s) && Honest(Ledger(s, {}, {}), es)
    ensures forall p: nat :: p in Run(Ledger(s, {}, {}), es).held ==>
      p in s.free && FIRST_PAGE <= p && !OverlapsBitmap(kernelEnd, s.total, p)
  {
    BootSparesBitmap(tags, kernelEnd, s);
    Conservation(Ledger(s, {}, {}), es);
    var end := Run(Ledger(s, {}, {}), es);
    assert forall p :: p in end.held ==> p in AllPages(end);
  }

  /** And it withholds little more: an address that a step of an available entry of the last map reaches, at 2 MiB or
      above, lies on a free page if it is in the kernel image, or past it by two pages and the bytes of the bitmap. */
  lemma BootFreesRest(tags: seq<Tag>, kernelEnd: nat, s: Pool, i: nat, a: nat)
    requires BootPool(tags, kernelEnd, s) && i < |LastMap(tags)| && LastMap(tags)[i].available
    requires var e := LastMap(tags)[i]; e.addr <= a < e.addr + e.len && (a - e.addr) % 4096 == 0
    requires 0x20_0000 <= a && a / 4096 < s.total
    requires a < kernelEnd || kernelEnd + 8192 + (s.total + 7) / 8 <= a
    ensures a / 4096 in s.free
  {
    var top: nat :| IsRamTop(tags, top) && s.total == top / 4096 &&
      forall p: nat :: p in s.free <==>
        p < s.total && ReachedByAny(LastMap(tags), p, BitmapStart(kernelEnd), WindowEnd(kernelEnd, top));
    var start, end := BitmapStart(kernelEnd), WindowEnd(kernelEnd, top);
    WindowBounds(kernelEnd, top);
    assert StepsOn(LastMap(tags)[i], a) && !Skipped(a, start, end);
    assert Reached(LastMap(tags)[i], a / 4096, start, end);
  }

  lemma WindowBounds(kernelEnd: nat, top: nat)
    ensures kernelEnd < BitmapStart(kernelEnd) && WindowEnd(kernelEnd, top) <= kernelEnd + 8192 + (top / 4096 + 7) / 8
  {
    assert top / 32768 == top / 4096 / 8;
  }

  /** The total is where the highest available entry ends; without any, the machine is taken to have 512 MiB. */
  lemma BootTotal(tags: seq<Tag>, kernelEnd: nat, s: Pool)
    requires BootPool(tags, kernelEnd, s)
    ensures (forall t: nat, i: nat :: SomeEntry(tags, t, i) ==> EndOf(tags, t, i) == 0) ==> s.total == 0x2_0000
    ensures (exists t: nat, i: nat :: SomeEntry(tags, t, i) && EndOf(tags, t, i) > 0) ==>
      && (forall t: nat, i: nat :: SomeEntry(tags, t, i) ==> EndOf(tags, t, i) / 4096 <= s.total)
      && (exists t: nat, i: nat :: SomeEntry(tags, t, i) && EndOf(tags, t, i) / 4096 == s.total)
  {
    var top: nat :| IsRamTop(tags, top) && s.total == top / 4096;
    if t: nat, i: nat :| SomeEntry(tags, t, i) && EndOf(tags, t, i) > 0 {
      assert IsMaxEnd(tags, top);
    }
  }

  /** The last map tag is the one whose entries count. */
  lemma {:induction false} LastMapExactly(tags: seq<Tag>, t: nat)
    requires t < |tags| && tags[t].Mmap? && forall u :: t < u < |tags| ==> !tags[u].Mmap?
    ensures LastMap(tags) == tags[t].entries
    decreases |tags|
  {
    if t < |tags| - 1 { LastMapExactly(tags[..|tags| - 1], t); }
  }

  // ---- the kernel image ----

  /** Boot leaves every page that starts inside the kernel image marked used. */
  ghost predicate SparesKernel(kernelEnd: nat, s: Pool) {
    forall p: nat :: p in s.free ==> kernelEnd <= p * 4096
  }

  /** One available entry that covers everything up to 16 MiB past the image. */
  ghost function PlainMap(kernelEnd: nat): seq<Tag> {
    [Mmap([Entry(0, kernelEnd + 0x1000000, true)])]
  }

  ghost function PlainPool(kernelEnd: nat): Pool {
    var top := kernelEnd + 0x1000000;
    var start, end := BitmapStart(kernelEnd), WindowEnd(kernelEnd, top);
    Pool(top / 4096, set p | 0 <= p < top / 4096 && ReachedByAny(LastMap(PlainMap(kernelEnd)), p, start, end))
  }

  lemma PlainPoolIsBoot(kernelEnd: nat)
    ensures BootPool(PlainMap(kernelEnd), kernelEnd, PlainPool(kernelEnd))
  {
    var tags, top := PlainMap(kernelEnd), kernelEnd + 0x1000000;
    assert SomeEntry(tags, 0, 0) && EndOf(tags, 0, 0) == top;
    assert IsRamTop(tags, top);
  }

  /** The image (loaded from 1 MiB up) is spared by every memory map if and only if it
      ends below 2 MiB: only the low 2 MiB and the bitmap window are skipped, not the image itself. */
  lemma KernelSparedExactly(kernelEnd: nat)
    requires kernelEnd < WORD_MOD / 2
    ensures (forall tags: seq<Tag>, s: Pool :: Sane(tags) && BootPool(tags, kernelEnd, s) ==> SparesKernel(kernelEnd, s))
      <==> kernelEnd <= LOW_LIMIT
  {
    if kernelEnd <= LOW_LIMIT {
      forall tags: seq<Tag>, s: Pool | Sane(tags) && BootPool(tags, kernelEnd, s) ensures SparesKernel(kernelEnd, s) {
        BootSparesBitmap(tags, kernelEnd, s);
      }
    } else {
      PlainPoolIsBoot(kernelEnd);
      var tags, s := PlainMap(kernelEnd), PlainPool(kernelEnd);
      var start, end := BitmapStart(kernelEnd), WindowEnd(kernelEnd, kernelEnd + 0x1000000);
      assert StepsOn(LastMap(tags)[0], LOW_LIMIT) && !Skipped(LOW_LIMIT, start, end);
      assert Reached(LastMap(tags)[0], FIRST_PAGE, start, end);
      assert FIRST_PAGE in s.free;
      assert !SparesKernel(kernelEnd, s);
    }
  }

  // ---- pointers ----

  /** Physical and higher-half addresses convert back and forth without loss. */
  lemma PointerRoundTrip(a: nat)
    requires a < WORD_MOD
    ensures VirtToPhys(PhysToVirt(a)) == a
    ensures PhysToVirt(a) == 0 <==> a == NULL_PAGE * 4096
  {
  }

  /** A null result means "no page" except in one case: the page at 2 GiB has the null pointer as its
      higher-half address, so with more than 2 GiB of RAM it is taken and reported as a failure. */
  lemma NullMeansNone(s: Pool)
    requires PoolValid(s) && s.total * 4096 <= WORD_MOD
    ensures AllocPage(s).1 == 0 <==> Allocatable(s.free) == {} || IsLowest(s.free, NULL_PAGE)
    ensures AllocPage(s).0 == s <==> Allocatable(s.free) == {}
  {
  }

  lemma {:induction false} FirstByteExists(free: set<nat>, i: nat) returns (j: nat)
    requires ByteFree(free, i)
    ensures j <= i && IsFirstByte(free, j)
  {
    if k: nat :| k < i && ByteFree(free, k) {
      j := FirstByteExists(free, k);
    } else {
      j := i;
    }
  }

  /** The same for eight pages: those from 2 GiB on are taken and reported as a failure. */
  lemma EightNullMeansNone(s: Pool)
    requires PoolValid(s) && s.total * 4096 <= WORD_MOD
    ensures AllocEight(s).1 == 0 <==> (forall i: nat :: !ByteFree(s.free, i)) || IsFirstByte(s.free, NULL_PAGE / 8)
    ensures AllocEight(s).0 == s <==> forall i: nat :: !ByteFree(s.free, i)
  {
    if i: nat :| ByteFree(s.free, i) {
      var j := FirstByteExists(s.free, i);
      assert forall k: nat :: IsFirstByte(s.free, k) ==> k == j;
      assert 8 * j in s.free && 8 * j in MarkedPages(j, 8);
      PointerRoundTrip(8 * j * 4096);
    }
  }

  lemma NullPageExample()
    ensures var s := Pool(NULL_PAGE + 1, {NULL_PAGE});
      AllocPage(s) == (Pool(NULL_PAGE + 1, {}), 0)
  {
    var s := Pool(NULL_PAGE + 1, {NULL_PAGE});
    assert NULL_PAGE in Allocatable(s.free);
    assert Lowest(s.free) == NULL_PAGE;
    assert s.free - {NULL_PAGE} == {};
    PointerRoundTrip(NULL_PAGE * 4096);
  }

  // ---- contiguous allocation ----

  /** Eight pages are always a sound request: the byte found free is the byte taken. Seven or fewer are
      not: here one page is asked for, page 0 is free, and the page taken is page 7, which is in use. */
  lemma WrongRunExample()
    ensures FirstRun([0xFE], 1, 0) == 0 && MarkedPages(0, 1) == {7} && Bit([0xFE], 7) && !Bit([0xFE], 0)
  {
  }

  predicate Counted(i: nat, count: nat, p: nat) {
    8 * i <= p < 8 * i + count
  }

  /** The pages that were found free. */
  ghost function CountedPages(i: nat, count: nat): set<nat> {
    set p | 0 <= p < 8 * i + 8 && Counted(i, count, p)
  }

  /** Every page that is marked and returned was free. */
  ghost predicate Sound(bytes: seq<bv8>, count: nat) {
    var i := FirstRun(bytes, count, 0); i < |bytes| ==> forall p :: Marked(i, count, p) ==> !Bit(bytes, p)
  }

  /** A byte whose first `count` pages are free and whose others are in use. */
  function TightByte(count: nat): bv8
    requires 1 <= count <= 7
  {
    if count == 1 then 0xFE else if count == 2 then 0xFC else if count == 3 then 0xF8 else if count == 4 then 0xF0
    else if count == 5 then 0xE0 else if count == 6 then 0xC0 else 0x80
  }

  lemma TightByteBits(count: nat, j: nat)
    requires 1 <= count <= 7 && j < 8
    ensures TightByte(count) != 0xFF && (TightByte(count) & Mask(j) != 0 <==> count <= j)
  {
    MaskTable(j);
  }

  /** For each count from 1 to 7 there is a bitmap on which a page in use is returned. */
  lemma TightByteUnsound(count: nat)
    requires 1 <= count <= 7
    ensures !Sound([TightByte(count)], count)
  {
    var bytes := [TightByte(count)];
    forall p: nat | p < 8 ensures Bit(bytes, p) <==> count <= p { TightByteBits(count, p); }
    assert RunAt(bytes, 0, count);
    assert FirstRun(bytes, count, 0) == 0 && Marked(0, count, 7) && Bit(bytes, 7);
  }

  /** The request that callers can rely on: the pages returned are free on every bitmap if and only if none or
      eight are asked for. These are also the requests for which the pages returned are the pages counted. */
  lemma RunSoundExactly(count: nat)
    requires count <= 8
    ensures (forall bytes :: Sound(bytes, count)) <==> count == 0 || count == 8
    ensures forall i: nat :: CountedPages(i, count) == MarkedPages(i, count) <==> count == 0 || count == 8
  {
    if 1 <= count <= 7 {
      TightByteUnsound(count);
    }
    forall i: nat ensures CountedPages(i, count) == MarkedPages(i, count) <==> count == 0 || count == 8 {
      if 1 <= count <= 7 {
        assert 8 * i + 7 in MarkedPages(i, count) && 8 * i + 7 !in CountedPages(i, count);
      }
    }
  }

  /** On a given bitmap, a request for 4 to 8 pages is sound if and only if the chosen byte is free altogether. */
  lemma LargeRunSoundExactly(bytes: seq<bv8>, count: nat)
    requires 4 <= count <= 8 && FirstRun(bytes, count, 0) < |bytes|
    ensures Sound(bytes, count) <==> bytes[FirstRun(bytes, count, 0)] == 0
  {
    var i := FirstRun(bytes, count, 0);
    EmptyByte(bytes[i]);
    if Sound(bytes, count) {
      forall j: nat | j < 8 ensures bytes[i] & Mask(j) == 0 {
        BitOfByte(bytes, i, j);
        assert j < count || Marked(i, count, 8 * i + j);
      }
    } else {
      var p: nat :| Marked(i, count, p) && Bit(bytes, p);
      BitOfByte(bytes, i, p - 8 * i);
    }
  }

  lemma BitOfByte(bytes: seq<bv8>, i: nat, j: nat)
    requires i < |bytes| && j < 8
    ensures Bit(bytes, 8 * i + j) <==> bytes[i] & Mask(j) != 0
  {
  }

  /** The byte values whose last `count` pages are free. */
  function TopBound(count: nat): bv8
    requires 1 <= count <= 8
  {
    if count == 1 then 128 else if count == 2 then 64 else if count == 3 then 32 else if count == 4 then 16
    else if count == 5 then 8 else if count == 6 then 4 else if count == 7 then 2 else 1
  }

  predicate HighFree(b: bv8, count: nat) {
    forall j: nat :: 8 - count <= j < 8 ==> b & Mask(j) == 0
  }

  lemma TopBits(b: bv8, count: nat)
    requires 1 <= count <= 8
    ensures b < TopBound(count) <==> HighFree(b, count)
  {
    if b < TopBound(count) {
      forall j: nat | 8 - count <= j < 8 ensures b & Mask(j) == 0 { MaskTable(j); }
    } else {
      MaskTable(7); MaskTable(6); MaskTable(5); MaskTable(4); MaskTable(3); MaskTable(2); MaskTable(1); MaskTable(0);
      var j := HighBit(b, count);
    }
  }

  lemma HighBit(b: bv8, count: nat) returns (j: nat)
    requires 1 <= count <= 8 && b >= TopBound(count)
    ensures 8 - count <= j < 8 && b & Mask(j) != 0
  {
    j := if b >= 128 then 7 else if b >= 64 then 6 else if b >= 32 then 5 else if b >= 16 then 4
         else if b >= 8 then 3 else if b >= 4 then 2 else if b >= 2 then 1 else 0;
    MaskTable(j);
  }

  /** On a given bitmap, for every count: a request is sound if and only if the chosen byte is below a bound. */
  lemma RunSoundOnBitmap(bytes: seq<bv8>, count: nat)
    requires 1 <= count <= 8 && FirstRun(bytes, count, 0) < |bytes|
    ensures Sound(bytes, count) <==> bytes[FirstRun(bytes, count, 0)] < TopBound(count)
  {
    SoundBits(bytes, count);
    TopBits(bytes[FirstRun(bytes, count, 0)], count);
  }

  lemma SoundBits(bytes: seq<bv8>, count: nat)
    requires 1 <= count <= 8 && FirstRun(bytes, count, 0) < |bytes|
    ensures Sound(bytes, count) <==> HighFree(bytes[FirstRun(bytes, count, 0)], count)
  {
    var i := FirstRun(bytes, count, 0);
    if Sound(bytes, count) {
      forall j: nat | 8 - count <= j < 8 ensures bytes[i] & Mask(j) == 0 {
        BitOfByte(bytes, i, j);
        assert Marked(i, count, 8 * i + j);
      }
    }
    if HighFree(bytes[i], count) { HighSound(bytes, i, count); }
  }

  lemma HighSound(bytes: seq<bv8>, i: nat, count: nat)
    requires count <= 8 && i < |bytes| && HighFree(bytes[i], count)
    ensures forall p :: Marked(i, count, p) ==> !Bit(bytes, p)
  {
    forall p: nat | Marked(i, count, p) ensures !Bit(bytes, p) {
      var j: nat := p - 8 * i;
      BitOfByte(bytes, i, j);
    }
  }

  lemma EmptyByte(b: bv8)
    ensures b == 0 <==> forall j: nat :: j < 8 ==> b & Mask(j) == 0
  {
    MaskTable(0); MaskTable(1); MaskTable(2); MaskTable(3);
    MaskTable(4); MaskTable(5); MaskTable(6); MaskTable(7);
    if forall j: nat :: j < 8 ==> b & Mask(j) == 0 {
      assert b & Mask(0) == 0 && b & Mask(1) == 0 && b & Mask(2) == 0 && b & Mask(3) == 0;
      assert b & Mask(4) == 0 && b & Mask(5) == 0 && b & Mask(6) == 0 && b & Mask(7) == 0;
    }
  }
}
