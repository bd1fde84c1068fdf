/** The 4-level page tables (Intel SDM Vol. 3A, section 4.5, "4-Level Paging") as values: the reader, the
    writer and the shape that every state reached from boot keeps. The tables form a stratified DAG, not a
    tree: boot enters its PDPT at two PML4 slots and its page directory at two PDPT slots. */
module PageTables {
  import opened PmmSpec

  /** Physical memory: frame number to the 512 words of that frame. */
  type Mem = map<nat, seq<nat>>

  const ENTRIES: nat := 512

  /** Frames of the first GiB: those that the kernel's own mapping of physical memory reaches. */
  const REACHED: nat := 0x4_0000

  /** The frames that may become tables: a fresh table is cleared through its higher-half address. */
  ghost function Usable(free: set<nat>): (r: set<nat>)
    ensures r <= Allocatable(free)
  {
    set p | p in Allocatable(free) && p < REACHED
  }

  /** The allocator hands out the lowest page, so a usable one is handed out while there is any. */
  lemma LowestUsable(free: set<nat>)
    requires Usable(free) != {}
    ensures Allocatable(free) != {} && Lowest(free) in Usable(free)
  {
    var p :| p in Usable(free);
    assert p in Allocatable(free);
  }

  /** The boot tables, memory, the level of every frame in use as a table (4 = PML4 .. 1 = page table), and
      the pages the allocator still has. */
  datatype Tables = Tables(p4: nat, p3: nat, p2: nat, mem: Mem, level: map<nat, nat>, free: set<nat>)

  function Word(mem: Mem, f: nat, i: nat): nat {
    if f in mem && i < |mem[f]| then mem[f][i] else 0
  }

  predicate Present(e: nat) { e % 2 == 1 }

  predicate Huge(e: nat) { e / 128 % 2 == 1 }

  function FrameOf(e: nat): nat { e / 4096 }

  /** A virtual address split into the four table indices and the byte offset in its page. */
  datatype Va = Va(i4: nat, i3: nat, i2: nat, i1: nat, off: nat)

  ghost predicate IsVa(va: Va) {
    va.i4 < ENTRIES && va.i3 < ENTRIES && va.i2 < ENTRIES && va.i1 < ENTRIES && va.off < 4096
  }

  /** Bits 48 to 63 take no part in translation. */
  function Split(va: nat): (v: Va)
    ensures IsVa(v)
  {
    Va(va / 0x80_0000_0000 % 512, va / 0x4000_0000 % 512, va / 0x20_0000 % 512, va / 0x1000 % 512, va % 0x1000)
  }

  /** The table index that an address selects at a level. */
  function Index(va: Va, lvl: nat): nat {
    if lvl == 4 then va.i4 else if lvl == 3 then va.i3 else if lvl == 2 then va.i2 else va.i1
  }

  /** The offset in the area that one entry of a table at that level covers. */
  function Offset(va: Va, lvl: nat): nat {
    if lvl == 3 then va.i2 * 0x20_0000 + va.i1 * 0x1000 + va.off
    else if lvl == 2 then va.i1 * 0x1000 + va.off
    else va.off
  }

  // ---- entries ----

  /** The bits of a word q * 4096 + low with low below 4096. */
  lemma WordBits(q: nat, low: nat)
    requires low < 4096
    ensures FrameOf(q * 4096 + low) == q && (Present(q * 4096 + low) <==> low % 2 == 1)
  {
  }

  lemma HugeBit(q: nat, low: nat)
    requires low < 256
    ensures Huge(q * 256 + low) <==> low >= 128
  {
    if low >= 128 {
      assert (q * 256 + low) / 128 == q * 2 + 1;
    } else {
      assert (q * 256 + low) / 128 == q * 2;
    }
  }

  lemma BootEntryBits(f: nat)
    ensures FrameOf(f * 4096 + 3) == f && Present(f * 4096 + 3) && !Huge(f * 4096 + 3)
  {
    WordBits(f, 3);
    HugeBit(f * 16, 3);
  }

  lemma NewEntryBits(f: nat)
    ensures FrameOf(f * 4096 + 7) == f && Present(f * 4096 + 7) && !Huge(f * 4096 + 7)
  {
    WordBits(f, 7);
    HugeBit(f * 16, 7);
  }

  lemma LargePageBits(i: nat)
    ensures var e := i * 0x20_0000 + 0x83; Present(e) && Huge(e) && FrameOf(e) * 4096 == i * 0x20_0000
  {
    WordBits(i * 512, 0x83);
    HugeBit(i * 8192, 0x83);
  }

  // ---- the reader ----

  /** Address translation exactly as the kernel writes it; 0 stands for "not mapped". */
  function GetPhys(mem: Mem, p4: nat, va: nat): nat {
    var e4 := Word(mem, p4, va / 0x80_0000_0000 % 512);
    if !Present(e4) then 0 else
    var e3 := Word(mem, FrameOf(e4), va / 0x4000_0000 % 512);
    if !Present(e3) then 0 else
    if Huge(e3) then FrameOf(e3) * 4096 + va % 0x4000_0000 else
    var e2 := Word(mem, FrameOf(e3), va / 0x20_0000 % 512);
    if !Present(e2) then 0 else
    if Huge(e2) then FrameOf(e2) * 4096 + va % 0x20_0000 else
    var e1 := Word(mem, FrameOf(e2), va / 0x1000 % 512);
    if !Present(e1) then 0 else
    FrameOf(e1) * 4096 + va % 0x1000
  }

  /** The entry leads on to a table one level down. */
  predicate Descends(e: nat, lvl: nat) {
    lvl > 1 && Present(e) && (lvl == 4 || !Huge(e))
  }

  /** The same walk, one level at a time, from any table. */
  function Walk(mem: Mem, f: nat, lvl: nat, va: Va): nat
    decreases lvl
  {
    var e := Word(mem, f, Index(va, lvl));
    if Descends(e, lvl) then Walk(mem, FrameOf(e), lvl - 1, va)
    else if Present(e) then FrameOf(e) * 4096 + Offset(va, lvl)
    else 0
  }

  lemma GetPhysIsWalk(mem: Mem, p4: nat, va: nat)
    ensures GetPhys(mem, p4, va) == Walk(mem, p4, 4, Split(va))
  {
    var v := Split(va);
    var e4 := Word(mem, p4, v.i4);
    var e3 := Word(mem, FrameOf(e4), v.i3);
    var e2 := Word(mem, FrameOf(e3), v.i2);
    SplitOffsets(va);
    assert Descends(e4, 4) ==> Walk(mem, p4, 4, v) == Walk(mem, FrameOf(e4), 3, v);
    assert Descends(e3, 3) ==> Walk(mem, FrameOf(e4), 3, v) == Walk(mem, FrameOf(e3), 2, v);
    assert Descends(e2, 2) ==> Walk(mem, FrameOf(e3), 2, v) == Walk(mem, FrameOf(e2), 1, v);
  }

  lemma SplitOffsets(va: nat)
    ensures Offset(Split(va), 3) == va % 0x4000_0000 && Offset(Split(va), 2) == va % 0x20_0000
  {
    LowBits21(va);
    LowBits30(va);
  }

  lemma LowBits21(va: nat)
    ensures va % 0x20_0000 == va / 0x1000 % 512 * 0x1000 + va % 0x1000
  {
    var q := va / 0x1000;
    assert va == 0x20_0000 * (q / 512) + (q % 512 * 0x1000 + va % 0x1000);
  }

  lemma LowBits30(va: nat)
    ensures va % 0x4000_0000 == va / 0x20_0000 % 512 * 0x20_0000 + va % 0x20_0000
  {
    var q := va / 0x20_0000;
    assert va == 0x4000_0000 * (q / 512) + (q % 512 * 0x20_0000 + va % 0x20_0000);
  }

  /** The page table that the walk ends in, if it gets as far as level 1. */
  datatype Reach = Nowhere | At(table: nat)

  function LastTable(mem: Mem, f: nat, lvl: nat, va: Va): Reach
    decreases lvl
  {
    var e := Word(mem, f, Index(va, lvl));
    if lvl <= 1 then At(f)
    else if Descends(e, lvl) then LastTable(mem, FrameOf(e), lvl - 1, va)
    else Nowhere
  }

  // ---- the shape of the tables ----

  /** Slot i of table f points at a table one level down. */
  ghost predicate IsRef(s: Tables, f: nat, i: nat) {
    f in s.level && i < ENTRIES && Descends(Word(s.mem, f, i), s.level[f])
  }

  ghost function Child(s: Tables, f: nat, i: nat): nat {
    FrameOf(Word(s.mem, f, i))
  }

  ghost predicate IsFrame(mem: Mem, f: nat) {
    f in mem && |mem[f]| == ENTRIES
  }

  ghost predicate Stratified(s: Tables) {
    && (forall f :: f in s.level ==> IsFrame(s.mem, f) && 1 <= s.level[f] <= 4)
    && (forall f, i :: IsRef(s, f, i) ==> Child(s, f, i) in s.level && s.level[Child(s, f, i)] == s.level[f] - 1)
  }

  /** The allocator never owns a table, and every page it can hand out is real memory. */
  ghost predicate Separate(s: Tables) {
    && s.level.Keys !! s.free
    && (forall p :: p in s.free && FIRST_PAGE <= p ==> IsFrame(s.mem, p))
  }

  /** Only the boot tables are shared; every other table is pointed at from exactly one slot. */
  ghost predicate Sharing(s: Tables) {
    && (forall f, i :: IsRef(s, f, i) && Child(s, f, i) == s.p3 ==> f == s.p4 && (i == 0 || i == 511))
    && (forall f, i :: IsRef(s, f, i) && Child(s, f, i) == s.p2 ==> f == s.p3 && (i == 0 || i == 510))
    && (forall f, i, g, j :: IsRef(s, f, i) && IsRef(s, g, j) && Child(s, f, i) == Child(s, g, j) ==>
          (f == g && i == j) || Child(s, f, i) == s.p3 || Child(s, f, i) == s.p2)
  }

  ghost predicate NoOrphans(s: Tables) {
    forall f :: f in s.level && f != s.p4 ==> exists g, i :: IsRef(s, g, i) && Child(s, g, i) == f
  }

  /** The entries set up at boot are still there, and the only large pages are the boot ones. */
  ghost predicate BootIntact(s: Tables) {
    && s.p4 in s.level && s.level[s.p4] == 4
    && s.p3 in s.level && s.level[s.p3] == 3
    && s.p2 in s.level && s.level[s.p2] == 2
    && Word(s.mem, s.p4, 0) == Word(s.mem, s.p4, 511) == s.p3 * 4096 + 3
    && Word(s.mem, s.p3, 0) == Word(s.mem, s.p3, 510) == s.p2 * 4096 + 3
    && (forall i :: 0 <= i < ENTRIES ==> Word(s.mem, s.p2, i) == i * 0x20_0000 + 0x83)
    && (forall f, i: nat :: f in s.level && f != s.p2 && 2 <= s.level[f] <= 3 && Present(Word(s.mem, f, i)) ==>
          !Huge(Word(s.mem, f, i)))
  }

  /** Every table is where the kernel can get at it. */
  ghost predicate Low(s: Tables) {
    forall f :: f in s.level ==> f < REACHED
  }

  ghost predicate Wf(s: Tables) {
    Stratified(s) && Separate(s) && Sharing(s) && NoOrphans(s) && BootIntact(s) && Low(s)
  }

  // ---- the writer ----

  function Zeros(): (t: seq<nat>)
    ensures |t| == ENTRIES && forall i :: 0 <= i < ENTRIES ==> t[i] == 0
  {
    seq(ENTRIES, _ => 0)
  }

  ghost predicate Addressable(s: Tables, f: nat, i: nat) {
    f in s.level && s.level[f] > 1 && IsFrame(s.mem, f) && i < ENTRIES
  }

  /** Hangs a fresh zeroed table off a slot that is not present. */
  ghost function AddTable(s: Tables, f: nat, i: nat): Tables
    requires Addressable(s, f, i) && Usable(s.free) != {}
  {
    LowestUsable(s.free);
    var n := Lowest(s.free);
    s.(mem := s.mem[n := Zeros()][f := s.mem[f][i := n * 4096 + 7]],
       level := s.level[n := s.level[f] - 1],
       free := s.free - {n})
  }

  lemma AddTableWords(s: Tables, f: nat, i: nat)
    requires Stratified(s) && Separate(s) && Addressable(s, f, i) && Usable(s.free) != {}
    ensures var t, n := AddTable(s, f, i), Lowest(s.free);
      && n !in s.level && n != f && Word(t.mem, f, i) == n * 4096 + 7
      && (forall j :: 0 <= j < ENTRIES ==> Word(t.mem, n, j) == 0)
      && (forall g, j :: g != n && (g != f || j != i) ==> Word(t.mem, g, j) == Word(s.mem, g, j))
      && Descends(n * 4096 + 7, s.level[f]) && FrameOf(n * 4096 + 7) == n && !Huge(n * 4096 + 7)
  {
    NewEntryBits(Lowest(s.free));
  }

  lemma AddTableRefs(s: Tables, f: nat, i: nat)
    requires Stratified(s) && Separate(s) && Addressable(s, f, i) && Usable(s.free) != {}
    requires !Present(Word(s.mem, f, i))
    ensures var t := AddTable(s, f, i);
      forall g, j :: IsRef(t, g, j) <==> IsRef(s, g, j) || (g == f && j == i)
    ensures var t := AddTable(s, f, i);
      forall g, j :: IsRef(s, g, j) ==> Child(t, g, j) == Child(s, g, j) && (g != f || j != i)
  {
    AddTableWords(s, f, i);
  }

  lemma AddTableStratified(s: Tables, f: nat, i: nat)
    requires Wf(s) && Addressable(s, f, i) && Usable(s.free) != {}
    requires !Present(Word(s.mem, f, i))
    ensures Stratified(AddTable(s, f, i))
  {
    AddTableWords(s, f, i);
    AddTableRefs(s, f, i);
    var t := AddTable(s, f, i);
    forall g, j | IsRef(t, g, j) ensures Child(t, g, j) in t.level && t.level[Child(t, g, j)] == t.level[g] - 1 {
      if IsRef(s, g, j) { assert Child(t, g, j) == Child(s, g, j); }
    }
  }

  lemma AddTableSeparate(s: Tables, f: nat, i: nat)
    requires Wf(s) && Addressable(s, f, i) && Usable(s.free) != {}
    ensures Separate(AddTable(s, f, i))
  {
  }

  lemma AddTableSharing(s: Tables, f: nat, i: nat)
    requires Wf(s) && Addressable(s, f, i) && Usable(s.free) != {}
    requires !Present(Word(s.mem, f, i))
    ensures Sharing(AddTable(s, f, i))
  {
    AddTableWords(s, f, i);
    AddTableRefs(s, f, i);
  }

  lemma AddTableNoOrphans(s: Tables, f: nat, i: nat)
    requires Wf(s) && Addressable(s, f, i) && Usable(s.free) != {}
    requires !Present(Word(s.mem, f, i))
    ensures NoOrphans(AddTable(s, f, i))
  {
    AddTableWords(s, f, i);
    AddTableRefs(s, f, i);
    var t, n := AddTable(s, f, i), Lowest(s.free);
    forall g | g in t.level && g != t.p4 ensures exists h, j :: IsRef(t, h, j) && Child(t, h, j) == g {
      if g == n {
        assert IsRef(t, f, i) && Child(t, f, i) == n;
      } else {
        var h, j :| IsRef(s, h, j) && Child(s, h, j) == g;
        assert IsRef(t, h, j) && Child(t, h, j) == g;
      }
    }
  }

  lemma AddTableBoot(s: Tables, f: nat, i: nat)
    requires Wf(s) && Addressable(s, f, i) && Usable(s.free) != {}
    requires !Present(Word(s.mem, f, i))
    ensures BootIntact(AddTable(s, f, i))
  {
    AddTableWords(s, f, i);
    var t, n := AddTable(s, f, i), Lowest(s.free);
    LargePageBits(i);
    BootEntryBits(s.p3);
    BootEntryBits(s.p2);
    assert f != s.p2 by { assert f == s.p2 ==> Word(s.mem, s.p2, i) == i * 0x20_0000 + 0x83; }
    assert f == s.p4 ==> i != 0 && i != 511;
    assert f == s.p3 ==> i != 0 && i != 510;
    forall g, j: nat | g in t.level && g != t.p2 && 2 <= t.level[g] <= 3 && Present(Word(t.mem, g, j))
      ensures !Huge(Word(t.mem, g, j))
    {
      if g != n && (g != f || j != i) { assert Word(t.mem, g, j) == Word(s.mem, g, j); }
    }
  }

  lemma AddTableWf(s: Tables, f: nat, i: nat)
    requires Wf(s) && Addressable(s, f, i) && Usable(s.free) != {}
    requires !Present(Word(s.mem, f, i))
    ensures Wf(AddTable(s, f, i))
  {
    AddTableStratified(s, f, i);
    AddTableSeparate(s, f, i);
    AddTableSharing(s, f, i);
    AddTableNoOrphans(s, f, i);
    AddTableBoot(s, f, i);
  }

  /** An empty table changes no translation at all: what was unmapped stays unmapped. */
  lemma {:induction false} AddTableWalk(s: Tables, f: nat, i: nat, g: nat, va: Va)
    requires Wf(s) && Addressable(s, f, i) && Usable(s.free) != {}
    requires !Present(Word(s.mem, f, i)) && g in s.level && IsVa(va)
    ensures Walk(AddTable(s, f, i).mem, g, s.level[g], va) == Walk(s.mem, g, s.level[g], va)
    decreases s.level[g]
  {
    AddTableWords(s, f, i);
    var t, lvl, k := AddTable(s, f, i), s.level[g], Index(va, s.level[g]);
    var e := Word(s.mem, g, k);
    if g == f && k == i {
      var n := Lowest(s.free);
      assert Walk(t.mem, g, lvl, va) == Walk(t.mem, n, lvl - 1, va) == 0;
    } else if Descends(e, lvl) {
      assert IsRef(s, g, k);
      AddTableWalk(s, f, i, Child(s, g, k), va);
    }
  }

  /** No large page lies on the path, so every level can be descended or created. */
  ghost predicate Clear(mem: Mem, f: nat, lvl: nat, va: Va)
    decreases lvl
  {
    var e := Word(mem, f, Index(va, lvl));
    lvl > 1 && Present(e) ==> Descends(e, lvl) && Clear(mem, FrameOf(e), lvl - 1, va)
  }

  /** How many tables the path still lacks: 0 to 3. */
  ghost function Missing(mem: Mem, f: nat, lvl: nat, va: Va): (n: nat)
    ensures lvl >= 1 ==> n < lvl
    decreases lvl
  {
    var e := Word(mem, f, Index(va, lvl));
    if lvl <= 1 then 0
    else if Descends(e, lvl) then Missing(mem, FrameOf(e), lvl - 1, va)
    else lvl - 1
  }

  /** Makes sure the slot leads to a table: the block that the writer repeats at each level. */
  ghost function Ensure(s: Tables, f: nat, i: nat): Tables
    requires Addressable(s, f, i) && (Present(Word(s.mem, f, i)) || Usable(s.free) != {})
  {
    if Present(Word(s.mem, f, i)) then s else AddTable(s, f, i)
  }

  /** The path below table f can be completed. */
  ghost predicate CanMap(s: Tables, f: nat, va: Va) {
    IsVa(va) && f in s.level && Clear(s.mem, f, s.level[f], va) && Missing(s.mem, f, s.level[f], va) <= |Usable(s.free)|
  }

  lemma AddTableCount(s: Tables, f: nat, i: nat)
    requires Addressable(s, f, i) && Usable(s.free) != {}
    ensures Usable(AddTable(s, f, i).free) == Usable(s.free) - {Lowest(s.free)}
    ensures |Usable(AddTable(s, f, i).free)| == |Usable(s.free)| - 1
  {
  }

  /** One level down the path can still be completed, with one table fewer missing if one was added. */
  lemma EnsureStep(s: Tables, f: nat, va: Va)
    requires Wf(s) && CanMap(s, f, va) && s.level[f] > 1
    ensures var i, lvl := Index(va, s.level[f]), s.level[f];
      && Addressable(s, f, i) && (Present(Word(s.mem, f, i)) || Usable(s.free) != {})
      && var t := Ensure(s, f, i);
      && Wf(t) && IsRef(t, f, i) && t.level[Child(t, f, i)] == lvl - 1 && CanMap(t, Child(t, f, i), va)
      && |Usable(t.free)| + Missing(s.mem, f, lvl, va) ==
           |Usable(s.free)| + Missing(t.mem, Child(t, f, i), lvl - 1, va)
  {
    var i, lvl := Index(va, s.level[f]), s.level[f];
    if Present(Word(s.mem, f, i)) {
      assert IsRef(s, f, i);
    } else {
      AddTableWf(s, f, i);
      AddTableWords(s, f, i);
      AddTableCount(s, f, i);
      var t, n := AddTable(s, f, i), Lowest(s.free);
      assert Word(t.mem, n, Index(va, lvl - 1)) == 0;
      assert Missing(t.mem, n, lvl - 1, va) == lvl - 2;
    }
  }

  /** Completes the path of an address below table f. */
  ghost function Prepare(s: Tables, f: nat, va: Va): Tables
    requires Wf(s) && CanMap(s, f, va)
    decreases s.level[f]
  {
    if s.level[f] == 1 then s else
    EnsureStep(s, f, va);
    var t := Ensure(s, f, Index(va, s.level[f]));
    Prepare(t, Child(t, f, Index(va, s.level[f])), va)
  }

  /** t has every table and every pointer of s. */
  ghost predicate Extends(s: Tables, t: Tables) {
    && (t.p4, t.p3, t.p2) == (s.p4, s.p3, s.p2)
    && (forall g :: g in s.level ==> g in t.level && t.level[g] == s.level[g])
    && (forall g, j :: IsRef(s, g, j) ==> IsRef(t, g, j) && Child(t, g, j) == Child(s, g, j))
  }

  lemma EnsureExtends(s: Tables, f: nat, i: nat)
    requires Wf(s) && Addressable(s, f, i) && (Present(Word(s.mem, f, i)) || Usable(s.free) != {})
    ensures Extends(s, Ensure(s, f, i))
  {
    if !Present(Word(s.mem, f, i)) {
      AddTableWords(s, f, i);
      AddTableRefs(s, f, i);
    }
  }

  /** Completing a path keeps the shape and all pointers, uses exactly the missing frames and makes the path
      end in a page table. */
  lemma {:induction false} PrepareShape(s: Tables, f: nat, va: Va)
    requires Wf(s) && CanMap(s, f, va)
    ensures var t := Prepare(s, f, va);
      && Wf(t) && Extends(s, t)
      && |Usable(t.free)| + Missing(s.mem, f, s.level[f], va) == |Usable(s.free)|
      && LastTable(t.mem, f, s.level[f], va).At?
      && var l := LastTable(t.mem, f, s.level[f], va).table; l in t.level && t.level[l] == 1
    decreases s.level[f]
  {
    if s.level[f] > 1 {
      var i := Index(va, s.level[f]);
      EnsureStep(s, f, va);
      EnsureExtends(s, f, i);
      var m := Ensure(s, f, i);
      PrepareShape(m, Child(m, f, i), va);
      var t := Prepare(s, f, va);
      assert IsRef(t, f, i) && Child(t, f, i) == Child(m, f, i);
    }
  }

  /** And it changes no translation. */
  lemma {:induction false} PrepareWalk(s: Tables, f: nat, va: Va, g: nat, w: Va)
    requires Wf(s) && CanMap(s, f, va) && g in s.level && IsVa(w)
    ensures Walk(Prepare(s, f, va).mem, g, s.level[g], w) == Walk(s.mem, g, s.level[g], w)
    decreases s.level[f]
  {
    if s.level[f] > 1 {
      var i := Index(va, s.level[f]);
      EnsureStep(s, f, va);
      EnsureExtends(s, f, i);
      var m := Ensure(s, f, i);
      if !Present(Word(s.mem, f, i)) { AddTableWalk(s, f, i, g, w); }
      PrepareWalk(m, Child(m, f, i), va, g, w);
    }
  }

  /** Writing one entry of a page table. */
  ghost function WriteLeaf(s: Tables, l: nat, i: nat, e: nat): Tables
    requires IsFrame(s.mem, l) && i < ENTRIES
  {
    var row: seq<nat> := s.mem[l][i := e];
    s.(mem := s.mem[l := row])
  }

  lemma WriteWords(s: Tables, l: nat, i: nat, e: nat)
    requires IsFrame(s.mem, l) && i < ENTRIES
    ensures var t := WriteLeaf(s, l, i, e);
      && (forall f, j :: Word(t.mem, f, j) == if f == l && j == i then e else Word(s.mem, f, j))
      && (forall f :: IsFrame(s.mem, f) <==> IsFrame(t.mem, f))
  {
  }

  /** The write leaves every table above level 1 alone: it goes to a page table or to a data frame. */
  ghost predicate Harmless(s: Tables, l: nat) {
    IsFrame(s.mem, l) && (l in s.level ==> s.level[l] == 1)
  }

  lemma WriteRefs(s: Tables, l: nat, i: nat, e: nat)
    requires Wf(s) && Harmless(s, l) && i < ENTRIES
    ensures var t := WriteLeaf(s, l, i, e);
      && (forall f, j :: IsRef(t, f, j) <==> IsRef(s, f, j))
      && (forall f, j :: IsRef(s, f, j) ==> Child(t, f, j) == Child(s, f, j))
      && (forall f :: IsFrame(s.mem, f) <==> IsFrame(t.mem, f))
      && (forall f, j :: f != l ==> Word(t.mem, f, j) == Word(s.mem, f, j))
  {
    WriteWords(s, l, i, e);
  }

  lemma WriteSharing(s: Tables, l: nat, i: nat, e: nat)
    requires Wf(s) && Harmless(s, l) && i < ENTRIES
    ensures Stratified(WriteLeaf(s, l, i, e)) && Sharing(WriteLeaf(s, l, i, e))
  {
    WriteRefs(s, l, i, e);
  }

  lemma WriteNoOrphans(s: Tables, l: nat, i: nat, e: nat)
    requires Wf(s) && Harmless(s, l) && i < ENTRIES
    ensures NoOrphans(WriteLeaf(s, l, i, e))
  {
    WriteRefs(s, l, i, e);
    var t := WriteLeaf(s, l, i, e);
    forall g | g in t.level && g != t.p4 ensures exists h, j :: IsRef(t, h, j) && Child(t, h, j) == g {
      var h, j :| IsRef(s, h, j) && Child(s, h, j) == g;
      assert IsRef(t, h, j);
    }
  }

  lemma WriteLeafWf(s: Tables, l: nat, i: nat, e: nat)
    requires Wf(s) && Harmless(s, l) && i < ENTRIES
    ensures Wf(WriteLeaf(s, l, i, e))
  {
    WriteSharing(s, l, i, e);
    WriteNoOrphans(s, l, i, e);
    WriteRefs(s, l, i, e);
    assert BootIntact(WriteLeaf(s, l, i, e));
  }

  ghost function LeafValue(e: nat, va: Va): nat {
    if Present(e) then FrameOf(e) * 4096 + va.off else 0
  }

  /** Only walks that end in the written slot see the new entry. */
  lemma {:induction false} WriteLeafWalk(s: Tables, l: nat, i: nat, e: nat, g: nat, va: Va)
    requires Wf(s) && Harmless(s, l) && i < ENTRIES && g in s.level && IsVa(va)
    ensures var t := WriteLeaf(s, l, i, e);
      Walk(t.mem, g, s.level[g], va) ==
        if LastTable(s.mem, g, s.level[g], va) == At(l) && va.i1 == i then LeafValue(e, va)
        else Walk(s.mem, g, s.level[g], va)
    decreases s.level[g]
  {
    var t, lvl, k := WriteLeaf(s, l, i, e), s.level[g], Index(va, s.level[g]);
    if lvl > 1 {
      assert Word(t.mem, g, k) == Word(s.mem, g, k);
      if Descends(Word(s.mem, g, k), lvl) {
        assert IsRef(s, g, k);
        WriteLeafWalk(s, l, i, e, Child(s, g, k), va);
      }
    }
  }

  // ---- which addresses share a slot ----

  /** Both PML4 slots that boot points at its PDPT. */
  predicate BootSlot(i: nat) { i == 0 || i == 511 }

  /** The two addresses lie in pages that the boot sharing makes one and the same. */
  predicate Alias(v: Va, w: Va) {
    && v.i1 == w.i1 && v.i2 == w.i2 && v.i3 == w.i3
    && (v.i4 == w.i4 || (BootSlot(v.i4) && BootSlot(w.i4)))
  }

  /** Two walks end in the same page table exactly when their addresses agree above the last index. */
  lemma SameTable(s: Tables, v: Va, w: Va)
    requires Wf(s) && IsVa(v) && IsVa(w) && LastTable(s.mem, s.p4, 4, v).At?
    ensures LastTable(s.mem, s.p4, 4, w) == LastTable(s.mem, s.p4, 4, v) <==>
      && v.i2 == w.i2 && v.i3 == w.i3
      && (v.i4 == w.i4 || (BootSlot(v.i4) && BootSlot(w.i4)))
  {
    var v3, w3 := Child(s, s.p4, v.i4), Child(s, s.p4, w.i4);
    var v2, w2 := Child(s, v3, v.i3), Child(s, w3, w.i3);
    Path(s, v);
    BootEntryBits(s.p3);
    if LastTable(s.mem, s.p4, 4, w) == LastTable(s.mem, s.p4, 4, v) {
      Path(s, w);
      assert Child(s, v2, v.i2) == Child(s, w2, w.i2);
      assert v2 == w2 && v.i2 == w.i2;
      assert v2 != s.p2;
      assert v3 == w3 && v.i3 == w.i3;
    }
  }

  /** One pointer of a walk that reaches a page table. */
  lemma PathStep(s: Tables, f: nat, v: Va)
    requires Wf(s) && IsVa(v) && f in s.level && s.level[f] > 1 && LastTable(s.mem, f, s.level[f], v).At?
    ensures var i := Index(v, s.level[f]); var g := Child(s, f, i);
      && IsRef(s, f, i) && g in s.level && s.level[g] == s.level[f] - 1 && f != s.p2
      && LastTable(s.mem, f, s.level[f], v) == LastTable(s.mem, g, s.level[g], v)
  {
    if f == s.p2 { LargePageBits(v.i2); }
    assert IsRef(s, f, Index(v, s.level[f]));
  }

  /** The three pointers that a walk reaching a page table goes through. */
  lemma Path(s: Tables, v: Va)
    requires Wf(s) && IsVa(v) && LastTable(s.mem, s.p4, 4, v).At?
    ensures var f3 := Child(s, s.p4, v.i4);
            var f2 := Child(s, f3, v.i3);
      && IsRef(s, s.p4, v.i4) && f3 in s.level && s.level[f3] == 3
      && IsRef(s, f3, v.i3) && f2 in s.level && s.level[f2] == 2
      && IsRef(s, f2, v.i2) && f2 != s.p2
      && LastTable(s.mem, s.p4, 4, v) == At(Child(s, f2, v.i2))
      && s.level[Child(s, f2, v.i2)] == 1
  {
    PathStep(s, s.p4, v);
    var f3 := Child(s, s.p4, v.i4);
    PathStep(s, f3, v);
    var f2 := Child(s, f3, v.i3);
    PathStep(s, f2, v);
    assert LastTable(s.mem, Child(s, f2, v.i2), 1, v) == At(Child(s, f2, v.i2));
  }

  /** Writing the last entry of one address changes the translation of its aliases and of nothing else. */
  lemma LeafEffect(s: Tables, v: Va, e: nat, w: Va)
    requires Wf(s) && IsVa(v) && IsVa(w) && LastTable(s.mem, s.p4, 4, v).At?
    ensures var l := LastTable(s.mem, s.p4, 4, v).table;
      IsFrame(s.mem, l) && Walk(WriteLeaf(s, l, v.i1, e).mem, s.p4, 4, w) ==
        if Alias(v, w) then LeafValue(e, w) else Walk(s.mem, s.p4, 4, w)
  {
    Path(s, v);
    WriteLeafWalk(s, LastTable(s.mem, s.p4, 4, v).table, v.i1, e, s.p4, w);
    SameTable(s, v, w);
  }
}
