/** Mapping calls inside the boot window, which take the data of a 2 MiB page for a page table: exactly when they do no
    harm, and how soon after boot they can. */
module PagingWindow {
  import opened PmmSpec
  import opened PageTables
  import opened TableWrites
  import opened PagingRuns

  /** The state after a call inside the window, harmful or not. */
  ghost function WindowCall(s: Tables, r: Request): Tables
    requires IsVa(r.va) && IsFrame(s.mem, WindowFrame(r.va))
  {
    WriteLeaf(s, WindowFrame(r.va), r.va.i1, EntryOf(r))
  }

  /** A call inside the window keeps the tables well-formed and every translation if and only if the 2 MiB frame it
      writes to is no table, or the word there says the same already. */
  lemma WindowCallExactly(s: Tables, r: Request)
    requires Wf(s) && IsVa(r.va) && r.flags < 4096 && InWindow(r.va) && IsFrame(s.mem, WindowFrame(r.va))
    ensures var t := WindowCall(s, r); Wf(t) && SameTranslations(s, t) <==> MapOk(s, r)
  {
    WriteExactly(s, WindowFrame(r.va), r.va.i1, EntryOf(r));
  }

  /** If the frame is a page table, the call maps a page outside the window that it was not asked about. */
  lemma WindowHitsTable(s: Tables, r: Request, v: Va)
    requires Wf(s) && IsVa(r.va) && IsVa(v) && r.flags < 4096 && InWindow(r.va)
    requires LastTable(s.mem, s.p4, 4, v) == At(WindowFrame(r.va)) && v.i1 == r.va.i1
    ensures !InWindow(v) && IsFrame(s.mem, WindowFrame(r.va))
    ensures Walk(WindowCall(s, r).mem, s.p4, 4, v) == Target(r, v)
  {
    Path(s, v);
    WriteLeafWalk(s, WindowFrame(r.va), r.va.i1, EntryOf(r), s.p4, v);
    EntryBits(r);
    BootEntryBits(s.p3);
    BootEntryBits(s.p2);
  }

  /** The last GiB of the address space has neither a page directory nor page tables after boot: the path of an
      address there is completed from the boot PDPT on, starting with the first frame. */
  lemma FirstPath(s: Tables, v: Va)
    requires AtBoot(s) && Wf(s) && CanMap(s, s.p4, v) && v.i4 == v.i3 == 511 && IsLowest(s.free, FIRST_PAGE)
    ensures Usable(s.free) != {} && Lowest(s.free) == FIRST_PAGE && !Present(Word(s.mem, s.p3, 511))
    ensures var t := AddTable(s, s.p3, 511);
      Wf(t) && CanMap(t, FIRST_PAGE, v) && t.level[FIRST_PAGE] == 2 && Prepare(s, s.p4, v) == Prepare(t, FIRST_PAGE, v)
  {
    BootEntryBits(s.p3);
    EnsureStep(s, s.p4, v);
    assert Child(s, s.p4, 511) == s.p3 && Ensure(s, s.p4, 511) == s;
    assert Prepare(s, s.p4, v) == Prepare(s, s.p3, v);
    assert FIRST_PAGE in Usable(s.free);
    EnsureStep(s, s.p3, v);
    AddTableWords(s, s.p3, 511);
    assert Ensure(s, s.p3, 511) == AddTable(s, s.p3, 511);
  }

  /** One page table below an empty page directory. */
  lemma SecondPath(t: Tables, f: nat, v: Va)
    requires Wf(t) && CanMap(t, f, v) && t.level[f] == 2 && forall k :: 0 <= k < ENTRIES ==> Word(t.mem, f, k) == 0
    ensures var u := Prepare(t, f, v);
      && f in u.level && u.level[f] == 2
      && forall k :: 0 <= k < ENTRIES && k != v.i2 ==> Word(u.mem, f, k) == 0
  {
    EnsureStep(t, f, v);
    AddTableWords(t, f, v.i2);
    var u := AddTable(t, f, v.i2);
    assert Prepare(t, f, v) == Prepare(u, Child(u, f, v.i2), v) == u;
  }

  lemma FirstTable(s: Tables, r: Request)
    requires AtBoot(s) && IsLowest(s.free, FIRST_PAGE) && r.va.i4 == r.va.i3 == 511 && MapOk(s, r)
    ensures var t := MapPage(s, r);
      && FIRST_PAGE in t.level && t.level[FIRST_PAGE] == 2
      && forall k :: 0 <= k < ENTRIES && k != r.va.i2 ==> Word(t.mem, FIRST_PAGE, k) == 0
  {
    BootWf(s);
    OutsideForm(s, r);
    FirstPrepared(s, r.va);
    var m := Prepare(s, s.p4, r.va);
    LastIsLeaf(m, r.va);
    WriteWords(m, LastTable(m.mem, m.p4, 4, r.va).table, r.va.i1, EntryOf(r));
  }

  lemma FirstPrepared(s: Tables, v: Va)
    requires AtBoot(s) && Wf(s) && CanMap(s, s.p4, v) && v.i4 == v.i3 == 511 && IsLowest(s.free, FIRST_PAGE)
    ensures var t := Prepare(s, s.p4, v);
      && FIRST_PAGE in t.level && t.level[FIRST_PAGE] == 2
      && forall k :: 0 <= k < ENTRIES && k != v.i2 ==> Word(t.mem, FIRST_PAGE, k) == 0
  {
    FirstPath(s, v);
    AddTableWords(s, s.p3, 511);
    SecondPath(AddTable(s, s.p3, 511), FIRST_PAGE, v);
  }

  lemma LastIsLeaf(m: Tables, v: Va)
    requires Wf(m) && IsVa(v) && LastTable(m.mem, m.p4, 4, v).At?
    ensures var l := LastTable(m.mem, m.p4, 4, v).table; l in m.level && m.level[l] == 1
  {
    Path(m, v);
  }

  /** So one mapping in that GiB is enough for the window to reach into the tables: whatever is then mapped at the
      window's second 2 MiB, at any of 511 pages, leaves the tables malformed. */
  lemma WindowBreaksTables(s: Tables, r: Request, q: Request)
    requires AtBoot(s) && IsLowest(s.free, FIRST_PAGE) && r.va.i4 == r.va.i3 == 511 && MapOk(s, r)
    requires IsVa(q.va) && InWindow(q.va) && q.va.i2 == 1 && q.va.i1 != r.va.i2 && q.flags < 4096 && q.flags % 2 == 1
    ensures var t := MapPage(s, r);
      Wf(t) && IsFrame(t.mem, WindowFrame(q.va)) && !MapOk(t, q) && !Wf(WindowCall(t, q))
  {
    var t := MapPage(s, r);
    MapShape(s, r);
    FirstTable(s, r);
    EntryBits(q);
    assert WindowFrame(q.va) == FIRST_PAGE && IsFrame(t.mem, FIRST_PAGE);
    UpperWfExactly(t, FIRST_PAGE, q.va.i1, EntryOf(q));
  }
}
