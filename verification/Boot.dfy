/** How the boot code fills the page bitmap from the Multiboot2 memory map (section 3.6.8 of the
    Multiboot2 specification, "Memory map"). */
module Boot {
  import opened PmmSpec
  import opened Pmm

  datatype Entry = Entry(addr: nat, len: nat, available: bool)

  /** The boot information is a list of tags; only memory-map tags matter here. */
  datatype Tag = Mmap(entries: seq<Entry>) | Other

  const LOW_LIMIT: nat := 0x200000
  const DEFAULT_RAM: nat := 0x20000000

  /** No entry runs off the end of the 64-bit address space (the marking loop steps by a page). */
  ghost predicate Sane(tags: seq<Tag>) {
    forall t, i :: 0 <= t < |tags| && tags[t].Mmap? && 0 <= i < |tags[t].entries| ==>
      tags[t].entries[i].addr + tags[t].entries[i].len <= WORD_MOD - 4096
  }

  // ---- what the map says, independently of the loops ----

  ghost predicate SomeEntry(tags: seq<Tag>, t: nat, i: nat) {
    t < |tags| && tags[t].Mmap? && i < |tags[t].entries| && tags[t].entries[i].available
  }

  ghost function EndOf(tags: seq<Tag>, t: nat, i: nat): nat
    requires SomeEntry(tags, t, i)
  {
    tags[t].entries[i].addr + tags[t].entries[i].len
  }

  /** m is the highest end of an available entry, or 0. */
  ghost predicate IsMaxEnd(tags: seq<Tag>, m: nat) {
    && (forall t: nat, i: nat :: SomeEntry(tags, t, i) ==> EndOf(tags, t, i) <= m)
    && (m == 0 || exists t: nat, i: nat :: SomeEntry(tags, t, i) && EndOf(tags, t, i) == m)
  }

  ghost predicate IsRamTop(tags: seq<Tag>, top: nat) {
    (top != 0 && IsMaxEnd(tags, top)) || (IsMaxEnd(tags, 0) && top == DEFAULT_RAM)
  }

  /** The last memory-map tag is the one whose entries are marked. */
  ghost function LastMap(tags: seq<Tag>): seq<Entry> {
    if tags == [] then []
    else if tags[|tags| - 1].Mmap? then tags[|tags| - 1].entries
    else LastMap(tags[..|tags| - 1])
  }

  /** Where the bitmap goes and where the window reserved for it ends. */
  function BitmapStart(kernelEnd: nat): nat {
    (kernelEnd + 0x1000) / 4096 * 4096
  }

  function WindowEnd(kernelEnd: nat, top: nat): nat {
    BitmapStart(kernelEnd) + top / 32768 + 4096
  }

  predicate Skipped(a: nat, start: nat, end: nat) {
    a < LOW_LIMIT || start <= a < end
  }

  /** Address a is one of the 4096-byte steps through the entry. */
  ghost predicate StepsOn(e: Entry, a: nat) {
    e.available && e.addr <= a < e.addr + e.len && (a - e.addr) % 4096 == 0
  }

  ghost predicate Reached(e: Entry, p: nat, start: nat, end: nat) {
    exists a: nat :: StepsOn(e, a) && a / 4096 == p && !Skipped(a, start, end)
  }

  /** The same, counting only the steps before address `limit`. */
  ghost predicate ReachedBelow(e: Entry, p: nat, start: nat, end: nat, limit: nat) {
    exists a: nat :: StepsOn(e, a) && a / 4096 == p && !Skipped(a, start, end) && a < limit
  }

  lemma ReachedStep(e: Entry, p: nat, start: nat, end: nat, a: nat)
    requires StepsOn(e, a)
    ensures ReachedBelow(e, p, start, end, a + 4096) <==>
      ReachedBelow(e, p, start, end, a) || (p == a / 4096 && !Skipped(a, start, end))
  {
  }

  ghost predicate ReachedByAny(entries: seq<Entry>, p: nat, start: nat, end: nat) {
    exists i :: 0 <= i < |entries| && Reached(entries[i], p, start, end)
  }

  ghost predicate BootPool(tags: seq<Tag>, kernelEnd: nat, s: Pool) {
    exists top: nat :: IsRamTop(tags, top) && s.total == top / 4096 &&
      forall p: nat :: p in s.free <==>
        p < s.total && ReachedByAny(LastMap(tags), p, BitmapStart(kernelEnd), WindowEnd(kernelEnd, top))
  }

  // ---- the boot code ----

  method HighestEnd(tags: seq<Tag>) returns (top: nat, map_: seq<Entry>)
    requires Sane(tags)
    ensures IsMaxEnd(tags, top) && map_ == LastMap(tags)
  {
    top := 0;
    map_ := [];
    var t := 0;
    while t < |tags|
      invariant 0 <= t <= |tags|
      invariant IsMaxEnd(tags[..t], top) && map_ == LastMap(tags[..t])
    {
      assert tags[..t + 1][..t] == tags[..t];
      ghost var was := top;
      if tags[t].Mmap? {
        map_ := tags[t].entries;
        var i := 0;
        while i < |map_|
          invariant 0 <= i <= |map_|
          invariant was <= top
          invariant forall k: nat :: k < i && map_[k].available ==> map_[k].addr + map_[k].len <= top
          invariant top == was || exists k: nat :: SomeEntry(tags, t, k) && EndOf(tags, t, k) == top
        {
          if map_[i].available {
            var end := (map_[i].addr + map_[i].len) % 0x1_0000_0000_0000_0000;
            assert SomeEntry(tags, t, i) && EndOf(tags, t, i) == end;
            if end > top { top := end; }
          }
          i := i + 1;
        }
        MaxEndExtend(tags, t, was, top);
      } else {
        MaxEndExtend(tags, t, was, top);
      }
      t := t + 1;
    }
    assert tags[..|tags|] == tags;
  }

  lemma MaxEndExtend(tags: seq<Tag>, t: nat, was: nat, top: nat)
    requires t < |tags| && IsMaxEnd(tags[..t], was) && was <= top
    requires tags[t].Mmap? ==>
      forall k: nat :: k < |tags[t].entries| && tags[t].entries[k].available ==>
        tags[t].entries[k].addr + tags[t].entries[k].len <= top
    requires top == was || (exists k: nat :: SomeEntry(tags, t, k) && EndOf(tags, t, k) == top)
    ensures IsMaxEnd(tags[..t + 1], top)
  {
    var before, after := tags[..t], tags[..t + 1];
    forall u: nat, i: nat | SomeEntry(after, u, i) ensures EndOf(after, u, i) <= top {
      if u < t { assert SomeEntry(before, u, i) && EndOf(before, u, i) <= was; }
    }
    if top != 0 {
      if top == was {
        var u: nat, i: nat :| SomeEntry(before, u, i) && EndOf(before, u, i) == was;
        assert SomeEntry(after, u, i) && EndOf(after, u, i) == top;
      } else {
        var k: nat :| SomeEntry(tags, t, k) && EndOf(tags, t, k) == top;
        assert SomeEntry(after, t, k) && EndOf(after, t, k) == top;
      }
    }
  }

  /** Marks one available entry, page step by page step. */
  method MarkEntry(pmm: PageAllocator, e: Entry, start: nat, end: nat)
    requires pmm.Valid() && e.available && e.addr + e.len <= WORD_MOD - 4096
    modifies pmm`used, pmm.bitmap
    ensures pmm.Valid() && pmm.total == old(pmm.total)
    ensures forall p: nat :: p in pmm.View().free <==>
      p in old(pmm.View().free) || (p < pmm.total && Reached(e, p, start, end))
  {
    ghost var was := pmm.View().free;
    var a := e.addr;
    while a < (e.addr + e.len) % 0x1_0000_0000_0000_0000
      invariant pmm.Valid() && pmm.total == old(pmm.total)
      invariant e.addr <= a < WORD_MOD && (a - e.addr) % 4096 == 0
      invariant forall p: nat :: p in pmm.View().free <==>
        p in was || (p < pmm.total && ReachedBelow(e, p, start, end, a))
    {
      forall p: nat
        ensures ReachedBelow(e, p, start, end, a + 4096) <==>
          ReachedBelow(e, p, start, end, a) || (p == a / 4096 && !Skipped(a, start, end))
      {
        ReachedStep(e, p, start, end, a);
      }
      if !(a < 0x200000 || (a >= start && a < end)) {
        pmm.MarkFree(a);
      }
      a := a + 4096;
    }
  }

  method InitMemory(tags: seq<Tag>, kernelEnd: nat) returns (pmm: PageAllocator)
    requires Sane(tags)
    ensures fresh(pmm) && pmm.Valid() && BootPool(tags, kernelEnd, pmm.View())
  {
    var top, entries := HighestEnd(tags);
    SaneLast(tags);
    if top == 0 { top := DEFAULT_RAM; }
    assert IsRamTop(tags, top);
    pmm := new PageAllocator(top);
    var start, end := BitmapStart(kernelEnd), WindowEnd(kernelEnd, top);
    var i := 0;
    while i < |entries|
      invariant 0 <= i <= |entries|
      invariant fresh(pmm) && fresh(pmm.bitmap) && pmm.Valid() && pmm.total == top / 4096
      invariant forall p: nat :: p in pmm.View().free <==>
        p < pmm.total && ReachedByAny(entries[..i], p, start, end)
    {
      ghost var before := pmm.View().free;
      if entries[i].available {
        MarkEntry(pmm, entries[i], start, end);
      }
      forall p: nat
        ensures ReachedByAny(entries[..i + 1], p, start, end) <==>
          ReachedByAny(entries[..i], p, start, end) || Reached(entries[i], p, start, end)
      {
        ReachedExtend(entries, i, p, start, end);
      }
      i := i + 1;
    }
    assert entries[..|entries|] == entries;
  }

  lemma SaneLast(tags: seq<Tag>)
    requires Sane(tags)
    ensures forall i :: 0 <= i < |LastMap(tags)| ==> LastMap(tags)[i].addr + LastMap(tags)[i].len <= WORD_MOD - 4096
  {
  }

  lemma ReachedExtend(entries: seq<Entry>, i: nat, p: nat, start: nat, end: nat)
    requires i < |entries|
    ensures ReachedByAny(entries[..i + 1], p, start, end) <==>
      ReachedByAny(entries[..i], p, start, end) || Reached(entries[i], p, start, end)
  {
  }
}
