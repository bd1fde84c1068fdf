/** What mapping a page means for translation: for one call, for every run of calls from boot, and for the
    loop that maps a range. */
module PagingRuns {
  import opened PmmSpec
  import opened PageTables
  import opened TableWrites

  /** A call: map the page of `va` to the frame of `phys`. */
  datatype Request = Request(va: Va, phys: nat, flags: nat)

  /** (phys & ~0xFFF) | flags, for flags below 4096. */
  function EntryOf(r: Request): nat {
    FrameOf(r.phys) * 4096 + r.flags
  }

  ghost function Translate(s: Tables, v: Va): nat {
    Walk(s.mem, s.p4, 4, v)
  }

  /** The addresses that boot maps with 2 MiB pages: the first GiB, at four places. */
  predicate InWindow(v: Va) {
    BootSlot(v.i4) && (v.i3 == 0 || v.i3 == 510)
  }

  /** The frame that a call inside the window takes for a page table. */
  function WindowFrame(v: Va): nat {
    v.i2 * 512
  }

  /** What the call needs: outside the window a frame for each missing level, inside it that the word it writes into
      the data of a large page does no harm, which PagingWindow.WindowCallExactly shows to be needed. */
  ghost predicate MapOk(s: Tables, r: Request) {
    && Wf(s) && IsVa(r.va) && r.flags < 4096
    && if InWindow(r.va)
       then IsFrame(s.mem, WindowFrame(r.va)) && Benign(s, WindowFrame(r.va), r.va.i1, EntryOf(r))
       else Missing(s.mem, s.p4, 4, r.va) <= |Usable(s.free)|
  }

  /** A path is free of large pages exactly when its address is outside the window: something a caller can
      read off the address. */
  lemma ClearOutsideWindow(s: Tables, v: Va)
    requires Wf(s) && IsVa(v)
    ensures Clear(s.mem, s.p4, 4, v) <==> !InWindow(v)
  {
    var e4 := Word(s.mem, s.p4, v.i4);
    var f3 := FrameOf(e4);
    var e3 := Word(s.mem, f3, v.i3);
    var f2 := FrameOf(e3);
    var e2 := Word(s.mem, f2, v.i2);
    BootEntryBits(s.p3);
    BootEntryBits(s.p2);
    LargePageBits(v.i2);
    if Present(e4) {
      assert IsRef(s, s.p4, v.i4) && Child(s, s.p4, v.i4) == f3;
      if Present(e3) {
        assert IsRef(s, f3, v.i3) && Child(s, f3, v.i3) == f2;
        assert Clear(s.mem, f2, 2, v) <==> (Present(e2) ==> Descends(e2, 2));
      }
    }
  }

  /** Inside the window translation is the address within its GiB, whatever has been mapped elsewhere. */
  lemma WindowTranslation(s: Tables, v: Va)
    requires Wf(s) && IsVa(v) && InWindow(v)
    ensures Translate(s, v) == Offset(v, 3)
  {
    BootEntryBits(s.p3);
    BootEntryBits(s.p2);
    LargePageBits(v.i2);
    assert Translate(s, v) == Walk(s.mem, s.p3, 3, v) == Walk(s.mem, s.p2, 2, v);
    assert Word(s.mem, s.p2, v.i2) == v.i2 * 0x20_0000 + 0x83;
  }

  /** The kernel's own view of physical memory: the higher-half address of any byte of the first GiB
      translates back to that byte, in every state that keeps the invariant. */
  lemma DirectMap(s: Tables, a: nat)
    requires Wf(s) && a < 0x4000_0000
    ensures GetPhys(s.mem, s.p4, PhysToVirt(a)) == a
  {
    HigherHalf(a);
    WindowTranslation(s, Split(PhysToVirt(a)));
    GetPhysIsWalk(s.mem, s.p4, PhysToVirt(a));
  }

  /** So the kernel gets at every word of every table, and of every frame that may become one: the accesses that the
      mapping code makes by higher-half addresses are accesses to the frames meant. */
  lemma TablesReached(s: Tables, f: nat, i: nat)
    requires Wf(s) && (f in s.level || f in Usable(s.free)) && i < ENTRIES
    ensures GetPhys(s.mem, s.p4, PhysToVirt(f * 4096 + i * 8)) == f * 4096 + i * 8
  {
    DirectMap(s, f * 4096 + i * 8);
  }

  lemma HigherHalf(a: nat)
    requires a < 0x4000_0000
    ensures var v := Split(PhysToVirt(a)); InWindow(v) && Offset(v, 3) == a
  {
    var va := PhysToVirt(a);
    assert va == 0xFFFF_FFFF_8000_0000 + a;
    SplitOffsets(va);
    assert va / 0x4000_0000 == 0x3_FFFF_FFFE;
    assert va / 0x80_0000_0000 == 0x1FF_FFFF;
  }

  /** The writer: outside the window it completes the path and writes the last entry; inside, it takes the
      data frame of the large page for a page table and writes a word there. */
  ghost function MapPage(s: Tables, r: Request): Tables
    requires MapOk(s, r)
  {
    if InWindow(r.va) then WriteLeaf(s, WindowFrame(r.va), r.va.i1, EntryOf(r))
    else
      ClearOutsideWindow(s, r.va);
      PrepareShape(s, s.p4, r.va);
      var t := Prepare(s, s.p4, r.va);
      WriteLeaf(t, LastTable(t.mem, t.p4, 4, r.va).table, r.va.i1, EntryOf(r))
  }

  /** What a translation gives once the page is mapped by r. */
  ghost function Target(r: Request, v: Va): nat {
    if r.flags % 2 == 1 then FrameOf(r.phys) * 4096 + v.off else 0
  }

  ghost function Frames(s: Tables, r: Request): nat {
    if InWindow(r.va) then 0 else Missing(s.mem, s.p4, 4, r.va)
  }

  /** The request decides the translation of v. */
  ghost predicate Decides(r: Request, v: Va) {
    !InWindow(r.va) && Alias(r.va, v)
  }

  /** One call keeps the shape, every table and every pointer, and costs a frame for each missing level. */
  lemma MapShape(s: Tables, r: Request)
    requires MapOk(s, r)
    ensures var t := MapPage(s, r);
      && Wf(t) && (t.p4, t.p3, t.p2) == (s.p4, s.p3, s.p2)
      && |Usable(t.free)| + Frames(s, r) == |Usable(s.free)| && Frames(s, r) <= 3
      && (forall f :: f in s.level ==> f in t.level && t.level[f] == s.level[f])
  {
    if InWindow(r.va) {
      BenignWf(s, WindowFrame(r.va), r.va.i1, EntryOf(r));
    } else {
      ClearOutsideWindow(s, r.va);
      PrepareShape(s, s.p4, r.va);
      var m := Prepare(s, s.p4, r.va);
      WriteLeafWf(m, LastTable(m.mem, m.p4, 4, r.va).table, r.va.i1, EntryOf(r));
    }
  }

  lemma MapInside(s: Tables, r: Request, v: Va)
    requires MapOk(s, r) && IsVa(v) && InWindow(r.va)
    ensures Translate(MapPage(s, r), v) == Translate(s, v)
  {
    BenignWalk(s, WindowFrame(r.va), r.va.i1, EntryOf(r), s.p4, v);
  }

  /** Outside the window a call is: complete the path, then write the last entry. */
  lemma OutsideForm(s: Tables, r: Request)
    requires MapOk(s, r) && !InWindow(r.va)
    ensures CanMap(s, s.p4, r.va)
    ensures var m := Prepare(s, s.p4, r.va);
      && Wf(m) && m.p4 == s.p4 && LastTable(m.mem, m.p4, 4, r.va).At?
      && (var l := LastTable(m.mem, m.p4, 4, r.va).table;
          IsFrame(m.mem, l) && MapPage(s, r) == WriteLeaf(m, l, r.va.i1, EntryOf(r)))
  {
    ClearOutsideWindow(s, r.va);
    PrepareShape(s, s.p4, r.va);
  }

  lemma MapOutside(s: Tables, r: Request, v: Va)
    requires MapOk(s, r) && IsVa(v) && !InWindow(r.va)
    ensures Translate(MapPage(s, r), v) == if Alias(r.va, v) then Target(r, v) else Translate(s, v)
  {
    OutsideForm(s, r);
    var m := Prepare(s, s.p4, r.va);
    PrepareWalk(s, s.p4, r.va, s.p4, v);
    LeafEffect(m, r.va, EntryOf(r), v);
    EntryBits(r);
  }

  /** One call, for every address: the pages aliased with the requested one translate to the target, every
      other address, large pages and unmapped ones included, translates as before. */
  lemma MapEffect(s: Tables, r: Request, v: Va)
    requires MapOk(s, r) && IsVa(v)
    ensures Translate(MapPage(s, r), v) == if Decides(r, v) then Target(r, v) else Translate(s, v)
  {
    if InWindow(r.va) { MapInside(s, r, v); } else { MapOutside(s, r, v); }
  }

  lemma EntryBits(r: Request)
    requires r.flags < 4096
    ensures FrameOf(EntryOf(r)) == FrameOf(r.phys) && (Present(EntryOf(r)) <==> r.flags % 2 == 1)
  {
  }

  /** The word that the call leaves behind, where its address's path ends: the frame and exactly the flags asked for. */
  lemma MapWord(s: Tables, r: Request)
    requires MapOk(s, r)
    ensures var t := MapPage(s, r);
      && (!InWindow(r.va) ==> LastTable(t.mem, t.p4, 4, r.va).At?)
      && var l := if InWindow(r.va) then r.va.i2 * 512 else LastTable(t.mem, t.p4, 4, r.va).table;
         Word(t.mem, l, r.va.i1) / 4096 == r.phys / 4096 && Word(t.mem, l, r.va.i1) % 4096 == r.flags
  {
    EntryWord(r);
    if !InWindow(r.va) {
      OutsideForm(s, r);
      var m := Prepare(s, s.p4, r.va);
      var l := LastTable(m.mem, m.p4, 4, r.va).table;
      Path(m, r.va);
      WriteWords(m, l, r.va.i1, EntryOf(r));
      SameEnd(m, r.va, l, r.va.i1, EntryOf(r));
    } else {
      WriteWords(s, WindowFrame(r.va), r.va.i1, EntryOf(r));
    }
  }

  lemma EntryWord(r: Request)
    requires r.flags < 4096
    ensures EntryOf(r) / 4096 == r.phys / 4096 && EntryOf(r) % 4096 == r.flags
  {
  }

  /** Writing in a page table does not move the end of a path. */
  lemma SameEnd(m: Tables, v: Va, l: nat, i: nat, e: nat)
    requires Wf(m) && IsVa(v) && LastTable(m.mem, m.p4, 4, v) == At(l) && IsFrame(m.mem, l) && i < ENTRIES
    ensures LastTable(WriteLeaf(m, l, i, e).mem, m.p4, 4, v) == At(l)
  {
    var t := WriteLeaf(m, l, i, e);
    Path(m, v);
    WriteWords(m, l, i, e);
    var f3 := Child(m, m.p4, v.i4);
    var f2 := Child(m, f3, v.i3);
    assert LastTable(t.mem, l, 1, v) == At(l);
    assert LastTable(t.mem, f2, 2, v) == At(l);
    assert LastTable(t.mem, f3, 3, v) == At(l);
  }

  /** A call takes effect if and only if its address is outside the boot window, or the window already
      translates it to the requested place. */
  lemma MapTakesEffectExactly(s: Tables, r: Request)
    requires MapOk(s, r) && r.flags % 2 == 1
    ensures Translate(MapPage(s, r), r.va) == FrameOf(r.phys) * 4096 + r.va.off <==>
      !InWindow(r.va) || Offset(r.va, 3) == FrameOf(r.phys) * 4096 + r.va.off
  {
    MapEffect(s, r, r.va);
    if InWindow(r.va) { WindowTranslation(s, r.va); }
  }

  // ---- runs ----

  ghost predicate RunOk(s: Tables, rs: seq<Request>)
    decreases |rs|, 0
  {
    Wf(s) && (rs != [] ==> RunOk(s, rs[..|rs| - 1]) && MapOk(RunMaps(s, rs[..|rs| - 1]), rs[|rs| - 1]))
  }

  ghost function RunMaps(s: Tables, rs: seq<Request>): Tables
    requires RunOk(s, rs)
    decreases |rs|, 1
  {
    if rs == [] then s else MapPage(RunMaps(s, rs[..|rs| - 1]), rs[|rs| - 1])
  }

  lemma {:induction false} RunShape(s: Tables, rs: seq<Request>)
    requires RunOk(s, rs)
    ensures var t := RunMaps(s, rs);
      Wf(t) && (t.p4, t.p3, t.p2) == (s.p4, s.p3, s.p2)
    decreases |rs|
  {
    if rs != [] {
      RunShape(s, rs[..|rs| - 1]);
      MapShape(RunMaps(s, rs[..|rs| - 1]), rs[|rs| - 1]);
    }
  }

  /** The flat map that the tables implement: the last request for an alias of the page wins, and what no
      request touches is as it was. */
  ghost function Flat(rs: seq<Request>, v: Va, before: nat): nat {
    if rs == [] then before
    else if Decides(rs[|rs| - 1], v) then Target(rs[|rs| - 1], v)
    else Flat(rs[..|rs| - 1], v, before)
  }

  /** The hierarchy refines the flat map over every run. */
  lemma {:induction false} RunRefinesFlat(s: Tables, rs: seq<Request>, v: Va)
    requires RunOk(s, rs) && IsVa(v)
    ensures Translate(RunMaps(s, rs), v) == Flat(rs, v, Translate(s, v))
    decreases |rs|
  {
    if rs != [] {
      RunRefinesFlat(s, rs[..|rs| - 1], v);
      MapEffect(RunMaps(s, rs[..|rs| - 1]), rs[|rs| - 1], v);
    }
  }

  /** Three frames a page are always enough. */
  lemma {:induction false} EnoughFrames(s: Tables, rs: seq<Request>)
    requires Wf(s) && 3 * |rs| <= |Usable(s.free)|
    requires forall k :: 0 <= k < |rs| ==> IsVa(rs[k].va) && rs[k].flags < 4096 && !InWindow(rs[k].va)
    ensures RunOk(s, rs) && |Usable(s.free)| <= |Usable(RunMaps(s, rs).free)| + 3 * |rs|
    decreases |rs|
  {
    if rs != [] {
      EnoughFrames(s, rs[..|rs| - 1]);
      RunShape(s, rs[..|rs| - 1]);
      MapShape(RunMaps(s, rs[..|rs| - 1]), rs[|rs| - 1]);
    }
  }

  // ---- where tables come from ----

  /** Frames that are tables or may be handed out. */
  ghost function FramesOf(s: Tables): set<nat> {
    s.level.Keys + s.free
  }

  lemma {:induction false} PrepareFrames(s: Tables, f: nat, v: Va)
    requires Wf(s) && CanMap(s, f, v)
    ensures FramesOf(Prepare(s, f, v)) == FramesOf(s)
    decreases s.level[f]
  {
    if s.level[f] > 1 {
      var i := Index(v, s.level[f]);
      EnsureStep(s, f, v);
      var t := Ensure(s, f, i);
      AddedFrames(s, f, i);
      PrepareFrames(t, Child(t, f, i), v);
    }
  }

  lemma AddedFrames(s: Tables, f: nat, i: nat)
    requires Addressable(s, f, i) && (Present(Word(s.mem, f, i)) || Usable(s.free) != {})
    ensures FramesOf(Ensure(s, f, i)) == FramesOf(s)
  {
    if !Present(Word(s.mem, f, i)) { LowestUsable(s.free); }
  }

  /** Over every run the frames that are tables or free stay the same: a table is a boot table or was free. */
  lemma {:induction false} RunFrames(s: Tables, rs: seq<Request>)
    requires RunOk(s, rs)
    ensures FramesOf(RunMaps(s, rs)) == FramesOf(s)
    decreases |rs|
  {
    if rs != [] {
      var t, r := RunMaps(s, rs[..|rs| - 1]), rs[|rs| - 1];
      RunFrames(s, rs[..|rs| - 1]);
      if !InWindow(r.va) {
        OutsideForm(t, r);
        PrepareFrames(t, t.p4, r.va);
      }
    }
  }

  // ---- from boot ----

  /** What the boot code writes: one PDPT at two PML4 slots, one page directory at two PDPT slots, 2 MiB pages. */
  ghost predicate BootWords(mem: Mem, p4: nat, p3: nat, p2: nat) {
    && p4 != p3 && p4 != p2 && p3 != p2
    && IsFrame(mem, p4) && IsFrame(mem, p3) && IsFrame(mem, p2)
    && (forall i :: 0 <= i < ENTRIES ==> Word(mem, p4, i) == if i == 0 || i == 511 then p3 * 4096 + 3 else 0)
    && (forall i :: 0 <= i < ENTRIES ==> Word(mem, p3, i) == if i == 0 || i == 510 then p2 * 4096 + 3 else 0)
    && (forall i :: 0 <= i < ENTRIES ==> Word(mem, p2, i) == i * 0x20_0000 + 0x83)
  }

  /** The tables as the boot code leaves them. */
  ghost predicate AtBoot(s: Tables) {
    && BootWords(s.mem, s.p4, s.p3, s.p2)
    && s.p4 < REACHED && s.p3 < REACHED && s.p2 < REACHED
    && s.level == map[s.p4 := 4, s.p3 := 3, s.p2 := 2]
    && Separate(s)
  }

  lemma BootRefs(s: Tables)
    requires AtBoot(s)
    ensures forall f, i :: IsRef(s, f, i) <==>
      (f == s.p4 && (i == 0 || i == 511)) || (f == s.p3 && (i == 0 || i == 510))
    ensures Child(s, s.p4, 0) == Child(s, s.p4, 511) == s.p3
    ensures Child(s, s.p3, 0) == Child(s, s.p3, 510) == s.p2
  {
    BootEntryBits(s.p3);
    BootEntryBits(s.p2);
    forall i: nat ensures !IsRef(s, s.p2, i) { LargePageBits(i); }
  }

  lemma BootWf(s: Tables)
    requires AtBoot(s)
    ensures Wf(s)
  {
    BootRefs(s);
    BootEntryBits(s.p2);
    assert IsRef(s, s.p4, 0) && IsRef(s, s.p3, 0);
    assert Stratified(s) && Sharing(s) && NoOrphans(s);
  }

  lemma BootTranslation(s: Tables, v: Va)
    requires AtBoot(s) && IsVa(v)
    ensures Translate(s, v) == if InWindow(v) then Offset(v, 3) else 0
  {
    BootWf(s);
    BootEntryBits(s.p3);
    if InWindow(v) {
      WindowTranslation(s, v);
    } else if BootSlot(v.i4) {
      assert Translate(s, v) == Walk(s.mem, s.p3, 3, v) == 0;
    }
  }

  /** Right after boot a byte of the first 2 GiB can be reached by its higher-half address if and only if it lies in
      the first GiB: a table further up could not be cleared. */
  lemma BootReachExactly(s: Tables, a: nat)
    requires AtBoot(s) && a < 0x8000_0000
    ensures GetPhys(s.mem, s.p4, PhysToVirt(a)) == a <==> a < 0x4000_0000
    ensures a >= 0x4000_0000 ==> GetPhys(s.mem, s.p4, PhysToVirt(a)) == 0
  {
    BootWf(s);
    if a < 0x4000_0000 {
      DirectMap(s, a);
    } else {
      SecondGib(a);
      BootTranslation(s, Split(PhysToVirt(a)));
      GetPhysIsWalk(s.mem, s.p4, PhysToVirt(a));
    }
  }

  lemma SecondGib(a: nat)
    requires 0x4000_0000 <= a < 0x8000_0000
    ensures !InWindow(Split(PhysToVirt(a)))
  {
    var va := PhysToVirt(a);
    assert va == 0xFFFF_FFFF_8000_0000 + a;
    assert va / 0x4000_0000 == 0x3_FFFF_FFFF;
  }

  /** The whole story of any run from boot: every address translates as the last request for its page says,
      else as boot left it; and the kernel's window onto physical memory never moves. */
  lemma FromBoot(s: Tables, rs: seq<Request>)
    requires AtBoot(s) && RunOk(s, rs)
    ensures var t := RunMaps(s, rs);
      && Wf(t)
      && (forall w: nat :: GetPhys(t.mem, t.p4, w) ==
            Flat(rs, Split(w), if InWindow(Split(w)) then w % 0x4000_0000 else 0))
      && (forall a: nat :: a < 0x4000_0000 ==> GetPhys(t.mem, t.p4, PhysToVirt(a)) == a)
      && (forall f: nat :: f in t.level ==> GetPhys(t.mem, t.p4, PhysToVirt(f * 4096)) == f * 4096)
  {
    var t := RunMaps(s, rs);
    RunShape(s, rs);
    forall w: nat
      ensures GetPhys(t.mem, t.p4, w) == Flat(rs, Split(w), if InWindow(Split(w)) then w % 0x4000_0000 else 0)
    {
      RunRefinesFlat(s, rs, Split(w));
      BootTranslation(s, Split(w));
      GetPhysIsWalk(t.mem, t.p4, w);
      SplitOffsets(w);
    }
    forall a: nat | a < 0x4000_0000 ensures GetPhys(t.mem, t.p4, PhysToVirt(a)) == a {
      DirectMap(t, a);
    }
    forall f: nat | f in t.level ensures GetPhys(t.mem, t.p4, PhysToVirt(f * 4096)) == f * 4096 {
      TablesReached(t, f, 0);
    }
  }

  // ---- runs over consecutive frames ----

  /** The last request that decides an address wins. */
  lemma {:induction false} FlatLast(rs: seq<Request>, v: Va, before: nat, k: nat) returns (j: nat)
    requires k < |rs| && Decides(rs[k], v)
    ensures k <= j < |rs| && Decides(rs[j], v) && Flat(rs, v, before) == Target(rs[j], v)
    decreases |rs|
  {
    j := |rs| - 1;
    if !Decides(rs[j], v) {
      j := FlatLast(rs[..j], v, before, k);
    }
  }

  lemma {:induction false} FlatUntouched(rs: seq<Request>, v: Va, before: nat)
    requires forall k :: 0 <= k < |rs| ==> !Decides(rs[k], v)
    ensures Flat(rs, v, before) == before
    decreases |rs|
  {
    if rs != [] { FlatUntouched(rs[..|rs| - 1], v, before); }
  }

  /** No two requests are for the same slot. */
  ghost predicate Distinct(rs: seq<Request>) {
    forall i, j :: 0 <= i < j < |rs| ==> !Alias(rs[i].va, rs[j].va)
  }

  /** Request k maps some page outside the window to the k-th frame from phys on. */
  ghost predicate Consecutive(rs: seq<Request>, phys: nat) {
    forall k :: 0 <= k < |rs| ==>
      && IsVa(rs[k].va) && !InWindow(rs[k].va) && rs[k].flags % 2 == 1
      && FrameOf(rs[k].phys) * 4096 == phys + k * 4096
  }

  /** Byte `off` of page p is where it should be. */
  ghost predicate ByteRight(t: Tables, rs: seq<Request>, phys: nat, p: nat, off: nat)
    requires p < |rs|
  {
    Translate(t, rs[p].va.(off := off)) == phys + p * 4096 + off
  }

  ghost predicate AffinePages(t: Tables, rs: seq<Request>, phys: nat) {
    forall p: nat, off: nat :: p < |rs| && off < 4096 ==> ByteRight(t, rs, phys, p, off)
  }

  /** A page ends up with the target of the last request for its slot. */
  lemma SlotResult(s: Tables, rs: seq<Request>, phys: nat, p: nat, off: nat, k: nat) returns (j: nat)
    requires RunOk(s, rs) && Consecutive(rs, phys) && p < |rs| && k < |rs| && off < 4096 && Alias(rs[k].va, rs[p].va)
    ensures k <= j < |rs| && Alias(rs[p].va, rs[j].va)
    ensures Translate(RunMaps(s, rs), rs[p].va.(off := off)) == phys + j * 4096 + off
  {
    var v := rs[p].va.(off := off);
    j := FlatLast(rs, v, Translate(s, v), k);
    RunRefinesFlat(s, rs, v);
  }

  /** Mapping pages to consecutive frames makes translation affine over them if and only if no two of the
      pages share a slot. */
  lemma RunAffineExactly(s: Tables, rs: seq<Request>, phys: nat)
    requires RunOk(s, rs) && Consecutive(rs, phys)
    ensures AffinePages(RunMaps(s, rs), rs, phys) <==> Distinct(rs)
  {
    var t := RunMaps(s, rs);
    if Distinct(rs) {
      forall p: nat, off: nat | p < |rs| && off < 4096 ensures ByteRight(t, rs, phys, p, off) {
        var j := SlotResult(s, rs, phys, p, off, p);
        assert j == p;
      }
    } else {
      var i, k :| 0 <= i < k < |rs| && Alias(rs[i].va, rs[k].va);
      var j := SlotResult(s, rs, phys, i, 0, k);
      assert !ByteRight(t, rs, phys, i, 0);
    }
  }

  /** A run leaves every address that shares no slot with its pages alone. */
  lemma RunFrame(s: Tables, rs: seq<Request>, v: Va)
    requires RunOk(s, rs) && IsVa(v) && forall k :: 0 <= k < |rs| ==> !Alias(rs[k].va, v)
    ensures Translate(RunMaps(s, rs), v) == Translate(s, v)
  {
    RunRefinesFlat(s, rs, v);
    FlatUntouched(rs, v, Translate(s, v));
  }
}
