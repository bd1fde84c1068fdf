/** Physical page allocator: a bitmap with one bit per 4096-byte page (a set bit means "used"),
    kept in step with a plain set of free page numbers. */
module PmmSpec {

  const WORD_MOD: nat := 0x1_0000_0000_0000_0000

  /** First page that single-page allocation may hand out: the bottom 2 MiB are never allocated. */
  const FIRST_PAGE: nat := 512

  /** The page whose higher-half address wraps round to the null pointer (2 GiB). */
  const NULL_PAGE: nat := 0x80000

  function PhysToVirt(phys: nat): nat {
    (phys + 0xFFFF_FFFF_8000_0000) % 0x1_0000_0000_0000_0000
  }

  function VirtToPhys(virt: nat): nat {
    (virt + 0x8000_0000) % 0x1_0000_0000_0000_0000
  }

  /** The abstract allocator: how many pages there are and which of them are free. */
  datatype Pool = Pool(total: nat, free: set<nat>)

  ghost predicate PoolValid(s: Pool) {
    forall p :: p in s.free ==> p < s.total
  }

  ghost predicate IsLowest(free: set<nat>, p: nat) {
    p in free && FIRST_PAGE <= p && forall q :: q in free && FIRST_PAGE <= q ==> p <= q
  }

  ghost function Allocatable(free: set<nat>): set<nat> {
    set p | p in free && FIRST_PAGE <= p
  }

  lemma LowestExists(free: set<nat>)
    requires Allocatable(free) != {}
    ensures exists p :: IsLowest(free, p)
  {
    var candidates := Allocatable(free);
    var best :| best in candidates;
    var seen := {best};
    while seen != candidates
      invariant best in seen && seen <= candidates
      invariant forall q :: q in seen ==> best <= q
      decreases candidates - seen
    {
      assert exists q :: q in candidates && q !in seen;
      var q :| q in candidates && q !in seen;
      best := if q < best then q else best;
      seen := seen + {q};
    }
    assert forall q :: q in free && FIRST_PAGE <= q ==> q in candidates;
    assert IsLowest(free, best);
  }

  ghost function Lowest(free: set<nat>): (p: nat)
    requires Allocatable(free) != {}
    ensures IsLowest(free, p)
  {
    LowestExists(free);
    var p :| IsLowest(free, p);
    p
  }

  ghost function MarkFree(s: Pool, addr: nat): Pool {
    if addr / 4096 < s.total then s.(free := s.free + {addr / 4096}) else s
  }

  ghost function MarkUsed(s: Pool, addr: nat): Pool {
    s.(free := s.free - {addr / 4096})
  }

  ghost function AllocPage(s: Pool): (Pool, nat) {
    if Allocatable(s.free) == {} then (s, 0)
    else var p := Lowest(s.free); (s.(free := s.free - {p}), PhysToVirt(p * 4096))
  }

  // ---- bytes and bits ----

  function Mask(j: nat): bv8
    requires j < 8
  {
    (1 as bv8) << j
  }

  lemma MaskTable(j: nat)
    requires j < 8
    ensures Mask(j) == if j == 0 then 1 else if j == 1 then 2 else if j == 2 then 4 else if j == 3 then 8
                       else if j == 4 then 16 else if j == 5 then 32 else if j == 6 then 64 else 128
  {
  }

  lemma SetBit(b: bv8, j: nat, k: nat)
    requires j < 8 && k < 8
    ensures ((b | Mask(j)) & Mask(k) != 0) <==> (k == j || b & Mask(k) != 0)
  {
  }

  lemma ClearBit(b: bv8, j: nat, k: nat)
    requires j < 8 && k < 8
    ensures ((b & !Mask(j)) & Mask(k) != 0) <==> (k != j && b & Mask(k) != 0)
  {
    MaskTable(j); MaskTable(k);
  }

  lemma FullByte(b: bv8)
    ensures b == 0xFF <==> forall j :: 0 <= j < 8 ==> b & Mask(j) != 0
  {
    MaskTable(0); MaskTable(1); MaskTable(2); MaskTable(3);
    MaskTable(4); MaskTable(5); MaskTable(6); MaskTable(7);
    if forall j :: 0 <= j < 8 ==> b & Mask(j) != 0 {
      assert b & Mask(0) != 0 && b & Mask(1) != 0 && b & Mask(2) != 0 && b & Mask(3) != 0;
      assert b & Mask(4) != 0 && b & Mask(5) != 0 && b & Mask(6) != 0 && b & Mask(7) != 0;
    }
    if b == 0xFF {
      forall j | 0 <= j < 8 ensures b & Mask(j) != 0 { MaskTable(j); }
    }
  }

  predicate Bit(bytes: seq<bv8>, p: nat)
    requires p < 8 * |bytes|
  {
    bytes[p / 8] & Mask(p % 8) != 0
  }

  ghost function FreeSet(bytes: seq<bv8>, total: nat): set<nat>
    requires total <= 8 * |bytes|
  {
    set p | 0 <= p < total && !Bit(bytes, p)
  }

  ghost function UsedSet(bytes: seq<bv8>, total: nat): set<nat>
    requires total <= 8 * |bytes|
  {
    set p | 0 <= p < total && Bit(bytes, p)
  }

  ghost function SetPage(bytes: seq<bv8>, p: nat): seq<bv8>
    requires p < 8 * |bytes|
  {
    bytes[p / 8 := bytes[p / 8] | Mask(p % 8)]
  }

  ghost function ClearPage(bytes: seq<bv8>, p: nat): seq<bv8>
    requires p < 8 * |bytes|
  {
    bytes[p / 8 := bytes[p / 8] & !Mask(p % 8)]
  }

  lemma SetPageBits(bytes: seq<bv8>, p: nat)
    requires p < 8 * |bytes|
    ensures forall q :: 0 <= q < 8 * |bytes| ==> (Bit(SetPage(bytes, p), q) <==> (q == p || Bit(bytes, q)))
  {
    forall q | 0 <= q < 8 * |bytes| ensures Bit(SetPage(bytes, p), q) <==> (q == p || Bit(bytes, q)) {
      SetBit(bytes[p / 8], p % 8, q % 8);
    }
  }

  lemma ClearPageBits(bytes: seq<bv8>, p: nat)
    requires p < 8 * |bytes|
    ensures forall q :: 0 <= q < 8 * |bytes| ==> (Bit(ClearPage(bytes, p), q) <==> (q != p && Bit(bytes, q)))
  {
    forall q | 0 <= q < 8 * |bytes| ensures Bit(ClearPage(bytes, p), q) <==> (q != p && Bit(bytes, q)) {
      ClearBit(bytes[p / 8], p % 8, q % 8);
    }
  }

  /** Every page is either used or free, so the two counts always add up to the total. */
  lemma UsedPlusFree(bytes: seq<bv8>, total: nat)
    requires total <= 8 * |bytes|
    ensures |UsedSet(bytes, total)| + |FreeSet(bytes, total)| == total
  {
    if total != 0 {
      var n := total - 1;
      UsedPlusFree(bytes, n);
      if Bit(bytes, n) {
        assert UsedSet(bytes, total) == UsedSet(bytes, n) + {n};
        assert FreeSet(bytes, total) == FreeSet(bytes, n);
      } else {
        assert UsedSet(bytes, total) == UsedSet(bytes, n);
        assert FreeSet(bytes, total) == FreeSet(bytes, n) + {n};
      }
    }
  }

  /** The bits that pad the last byte out to eight. */
  ghost predicate PaddingSet(bytes: seq<bv8>, total: nat) {
    forall p :: total <= p < 8 * |bytes| ==> Bit(bytes, p)
  }

  /** Taking a free page moves it, and nothing else, from one set to the other. */
  lemma TakeEffect(bytes: seq<bv8>, total: nat, p: nat)
    requires total <= 8 * |bytes| && PaddingSet(bytes, total)
    requires p in FreeSet(bytes, total)
    ensures PaddingSet(SetPage(bytes, p), total)
    ensures FreeSet(SetPage(bytes, p), total) == FreeSet(bytes, total) - {p}
    ensures |UsedSet(SetPage(bytes, p), total)| == |UsedSet(bytes, total)| + 1
  {
    SetPageBits(bytes, p);
    assert UsedSet(SetPage(bytes, p), total) == UsedSet(bytes, total) + {p};
  }

  /** Giving a used page back is the exact opposite. */
  lemma GiveEffect(bytes: seq<bv8>, total: nat, p: nat)
    requires total <= 8 * |bytes| && PaddingSet(bytes, total)
    requires p in UsedSet(bytes, total)
    ensures PaddingSet(ClearPage(bytes, p), total)
    ensures FreeSet(ClearPage(bytes, p), total) == FreeSet(bytes, total) + {p}
    ensures |UsedSet(ClearPage(bytes, p), total)| == |UsedSet(bytes, total)| - 1
  {
    ClearPageBits(bytes, p);
    assert UsedSet(ClearPage(bytes, p), total) == UsedSet(bytes, total) - {p};
  }

  // ---- runs of free pages inside one byte ----

  /** Byte i starts with `count` free pages. */
  ghost predicate RunAt(bytes: seq<bv8>, i: nat, count: nat)
    requires i < |bytes|
  {
    count <= 8 && bytes[i] != 0xFF && forall p :: 8 * i <= p < 8 * i + count ==> !Bit(bytes, p)
  }

  /** The first byte from i on that starts with such a run, or |bytes| when there is none. */
  ghost function FirstRun(bytes: seq<bv8>, count: nat, i: nat): (r: nat)
    requires i <= |bytes|
    ensures i <= r <= |bytes|
    ensures r < |bytes| ==> RunAt(bytes, r, count)
    ensures forall k :: i <= k < r ==> !RunAt(bytes, k, count)
    decreases |bytes| - i
  {
    if i == |bytes| || RunAt(bytes, i, count) then i else FirstRun(bytes, count, i + 1)
  }

  /** Contiguous allocation that has chosen byte i marks and returns the LAST `count` pages of that byte. */
  predicate Marked(i: nat, count: nat, p: nat) {
    8 * i + 8 - count <= p < 8 * i + 8
  }

  ghost function MarkedPages(i: nat, count: nat): set<nat> {
    set p | 0 <= p < 8 * i + 8 && Marked(i, count, p)
  }

  /** All eight pages of byte i are free. */
  ghost predicate ByteFree(free: set<nat>, i: nat) {
    forall p :: 8 * i <= p < 8 * i + 8 ==> p in free
  }

  ghost predicate IsFirstByte(free: set<nat>, i: nat) {
    ByteFree(free, i) && forall k: nat :: k < i ==> !ByteFree(free, k)
  }

  /** Allocation of eight pages, on the set of free pages: the first byte that is free altogether is taken. */
  ghost function AllocEight(s: Pool): (Pool, nat) {
    if i: nat :| IsFirstByte(s.free, i) then (s.(free := s.free - MarkedPages(i, 8)), PhysToVirt(8 * i * 4096))
    else (s, 0)
  }

  lemma RunIsByteFree(bytes: seq<bv8>, total: nat, i: nat)
    requires total <= 8 * |bytes| && PaddingSet(bytes, total) && i < |bytes|
    ensures RunAt(bytes, i, 8) <==> ByteFree(FreeSet(bytes, total), i)
  {
    var free := FreeSet(bytes, total);
    FullByte(bytes[i]);
    if ByteFree(free, i) {
      assert 8 * i in free;
      assert !Bit(bytes, 8 * i) && (8 * i) / 8 == i && (8 * i) % 8 == 0;
    }
    forall p | 8 * i <= p < 8 * i + 8 ensures p in free <==> !Bit(bytes, p) {
    }
  }

  /** The scan over bytes for eight pages is the scan of the free set. */
  lemma EightPages(bytes: seq<bv8>, total: nat)
    requires total <= 8 * |bytes| && PaddingSet(bytes, total)
    ensures var s, i := Pool(total, FreeSet(bytes, total)), FirstRun(bytes, 8, 0);
      if i < |bytes| then
        && IsFirstByte(s.free, i) && MarkedPages(i, 8) <= s.free
        && AllocEight(s) == (s.(free := s.free - MarkedPages(i, 8)), PhysToVirt(8 * i * 4096))
      else AllocEight(s) == (s, 0)
  {
    var s, i := Pool(total, FreeSet(bytes, total)), FirstRun(bytes, 8, 0);
    forall k: nat ensures ByteFree(s.free, k) <==> k < |bytes| && RunAt(bytes, k, 8) {
      if k < |bytes| { RunIsByteFree(bytes, total, k); } else { assert 8 * k !in s.free; }
    }
    if i < |bytes| {
      assert IsFirstByte(s.free, i);
      assert forall k: nat :: IsFirstByte(s.free, k) ==> k == i;
    }
  }

  /** Counting `count` pages as taken is right exactly when every marked page was free before. */
  lemma MarkedAccounting(was: seq<bv8>, now: seq<bv8>, total: nat, i: nat, count: nat)
    requires |now| == |was| == (total + 7) / 8 && PaddingSet(was, total) && count <= 8 && i < |was|
    requires forall q :: 0 <= q < 8 * |was| ==> (Bit(now, q) <==> Bit(was, q) || Marked(i, count, q))
    ensures FreeSet(now, total) == FreeSet(was, total) - MarkedPages(i, count)
    ensures |UsedSet(now, total)| == |UsedSet(was, total)| + count
            <==> forall p :: Marked(i, count, p) ==> !Bit(was, p)
  {
    UsedPlusFree(was, total);
    UsedPlusFree(now, total);
    MarkedSize(i, count);
    var free, marked := FreeSet(was, total), MarkedPages(i, count);
    assert FreeSet(now, total) == free - marked;
    SplitSize(free, marked);
    if forall p :: Marked(i, count, p) ==> !Bit(was, p) {
      assert free * marked == marked;
    } else {
      var p :| Marked(i, count, p) && Bit(was, p);
      assert p in marked && p !in free * marked;
      SubsetSize(free * marked, marked - {p});
    }
  }

  lemma SplitSize(a: set<nat>, b: set<nat>)
    ensures |a| == |a - b| + |a * b|
  {
  }

  lemma SubsetSize(a: set<nat>, b: set<nat>)
    requires a <= b
    ensures |a| <= |b|
  {
    assert b == a + (b - a);
  }

  lemma MarkedSize(i: nat, count: nat)
    requires count <= 8
    ensures |MarkedPages(i, count)| == count
  {
    if count == 0 {
      assert MarkedPages(i, 0) == {};
    } else {
      MarkedSize(i, count - 1);
      assert MarkedPages(i, count) == MarkedPages(i, count - 1) + {8 * i + 8 - count};
    }
  }
}

/** The allocator as the kernel keeps it: bitmap bytes updated in place and a counter beside them. */
module Pmm {
  import opened PmmSpec

  class PageAllocator {
    var bitmap: array<bv8>
    var total: nat
    var used: nat

    /** The bitmap has the right size and its padding bits are set. */
    ghost predicate Shaped()
      reads this, bitmap
    {
      bitmap.Length == (total + 7) / 8 && PaddingSet(bitmap[..], total)
    }

    /** In addition, the counter is exact. */
    ghost predicate Valid()
      reads this, bitmap
    {
      Shaped() && used == |UsedSet(bitmap[..], total)|
    }

    ghost function View(): Pool
      reads this, bitmap
      requires Shaped()
    {
      Pool(total, FreeSet(bitmap[..], total))
    }

    constructor (size: nat)
      ensures Valid() && fresh(bitmap)
      ensures total == size / 4096 && View() == Pool(size / 4096, {})
    {
      total := size / 4096;
      used := size / 4096;
      var bytes := (size / 4096 + 7) / 8;
      bitmap := new bv8[bytes];
      new;
      var i := 0;
      while i < bytes
        invariant 0 <= i <= bytes == bitmap.Length
        invariant fresh(bitmap) && total == used == size / 4096
        invariant forall k :: 0 <= k < i ==> bitmap[k] == 0xFF
      {
        bitmap[i] := 0xFF;
        i := i + 1;
      }
      forall p: nat | p < 8 * bytes ensures Bit(bitmap[..], p) { FullByte(bitmap[p / 8]); }
      assert FreeSet(bitmap[..], total) == {};
      UsedPlusFree(bitmap[..], total);
    }

    method MarkFree(addr: nat)
      requires Valid()
      modifies this`used, bitmap
      ensures Valid() && View() == PmmSpec.MarkFree(old(View()), addr) && total == old(total)
      ensures addr / 4096 in View().free <==> addr / 4096 < total
      ensures forall p :: p != addr / 4096 ==> (p in View().free <==> p in old(View()).free)
    {
      var block := addr / 4096;
      if block < total {
        assert Bit(bitmap[..], block) <==> bitmap[block / 8] & Mask(block % 8) != 0;
        if bitmap[block / 8] & Mask(block % 8) != 0 {
          GivePage(block);
        } else {
          assert block in View().free;
        }
      }
    }

    method SetBitOf(p: nat)
      requires p < 8 * bitmap.Length
      modifies bitmap
      ensures bitmap[..] == SetPage(old(bitmap[..]), p)
    {
      bitmap[p / 8] := bitmap[p / 8] | Mask(p % 8);
    }

    method ClearBitOf(p: nat)
      requires p < 8 * bitmap.Length
      modifies bitmap
      ensures bitmap[..] == ClearPage(old(bitmap[..]), p)
    {
      bitmap[p / 8] := bitmap[p / 8] & !Mask(p % 8);
    }

    /** Clears the bit of a used page and counts it off. */
    method GivePage(p: nat)
      requires Valid() && p < total && Bit(bitmap[..], p)
      modifies this`used, bitmap
      ensures Valid() && View() == old(View()).(free := old(View()).free + {p})
    {
      ghost var was := bitmap[..];
      assert p in UsedSet(was, total);
      GiveEffect(was, total, p);
      if used > 0 { used := used - 1; }
      ClearBitOf(p);
    }

    method MarkUsed(addr: nat)
      requires Valid()
      modifies this`used, bitmap
      ensures Valid() && View() == PmmSpec.MarkUsed(old(View()), addr) && total == old(total)
      ensures addr / 4096 !in View().free
      ensures forall p :: p != addr / 4096 ==> (p in View().free <==> p in old(View()).free)
    {
      var block := addr / 4096;
      if block < total {
        if bitmap[block / 8] & Mask(block % 8) == 0 {
          TakePage(block);
        } else {
          assert FreeSet(bitmap[..], total) == FreeSet(bitmap[..], total) - {block};
        }
      } else {
        assert FreeSet(bitmap[..], total) == FreeSet(bitmap[..], total) - {block};
      }
    }

    /** Sets the bit of a free page and counts it: the two statements shared by every path that takes a page. */
    method TakePage(p: nat)
      requires Valid() && p in View().free
      modifies this`used, bitmap
      ensures Valid() && View() == old(View()).(free := old(View()).free - {p})
    {
      TakeEffect(bitmap[..], total, p);
      SetBitOf(p);
      used := used + 1;
    }

    method TotalKb() returns (kb: nat)
      requires Valid()
      ensures kb == 4 * View().total
    {
      kb := total * 4;
    }

    method UsedKb() returns (kb: nat)
      requires Valid()
      ensures kb == 4 * |UsedSet(bitmap[..], total)|
    {
      kb := used * 4;
    }

    /** What is not used is free, so the three figures always add up. */
    method FreeKb() returns (kb: nat)
      requires Valid()
      ensures kb == 4 * |View().free|
      ensures kb + 4 * |UsedSet(bitmap[..], total)| == 4 * View().total
    {
      UsedPlusFree(bitmap[..], total);
      kb := if total > used then (total - used) * 4 else 0;
    }

    method AllocPage() returns (ptr: nat)
      requires Valid()
      modifies this`used, bitmap
      ensures Valid() && (View(), ptr) == PmmSpec.AllocPage(old(View()))
    {
      ghost var bytes := bitmap[..];
      ghost var free := FreeSet(bytes, total);
      var i := 0;
      while i < bitmap.Length
        invariant 0 <= i <= bitmap.Length
        invariant unchanged(this) && bitmap[..] == bytes
        invariant forall q :: q in free && FIRST_PAGE <= q ==> 8 * i <= q
      {
        FullByte(bitmap[i]);
        if bitmap[i] != 0xFF {
          var j := 0;
          while j < 8
            invariant 0 <= j <= 8
            invariant unchanged(this) && bitmap[..] == bytes
            invariant forall q :: q in free && FIRST_PAGE <= q ==> 8 * i + j <= q
          {
            var page := i * 8 + j;
            assert page / 8 == i && page % 8 == j;
            assert Bit(bytes, page) <==> bitmap[i] & Mask(j) != 0;
            if bitmap[i] & Mask(j) == 0 {
              var addr := page * 4096;
              if addr < 0x200000 {
                j := j + 1;
                continue;
              }
              assert page < total;
              assert IsLowest(free, page) && page in Allocatable(free);
              assert Lowest(free) == page;
              TakePage(page);
              return PhysToVirt(addr);
            }
            j := j + 1;
          }
        } else {
          assert forall q :: q in free && FIRST_PAGE <= q ==> q / 8 != i;
        }
        i := i + 1;
      }
      assert Allocatable(free) == {};
      return 0;
    }

    /** Length of the run of free pages that byte i starts with, cut off at `count`: the inner scan. */
    method CountRun(i: nat, count: nat) returns (found: nat)
      requires Shaped() && i < bitmap.Length
      ensures found <= 8 && found <= count
      ensures forall p :: 8 * i <= p < 8 * i + found ==> !Bit(bitmap[..], p)
      ensures found < count && found < 8 ==> Bit(bitmap[..], 8 * i + found)
    {
      found := 0;
      var j := 0;
      while j < 8 && found < count
        invariant 0 <= j == found <= 8 && found <= count
        invariant forall p :: 8 * i <= p < 8 * i + found ==> !Bit(bitmap[..], p)
      {
        assert (8 * i + j) / 8 == i && (8 * i + j) % 8 == j;
        if bitmap[i] & Mask(j) != 0 { break; }
        found := found + 1;
        j := j + 1;
      }
    }

    /** Contiguous allocation. For more than 8 pages it fails and touches nothing. Otherwise it picks the
        first byte starting with `count` free pages and takes the LAST `count` pages of that byte; the
        counter stays exact if and only if those pages were free as well. */
    method AllocPages(count: nat) returns (ptr: nat)
      requires Valid()
      modifies if count > 8 then {} else {this, bitmap}
      ensures total == old(total) && bitmap == old(bitmap) && Shaped()
      ensures var was, i := old(bitmap[..]), FirstRun(old(bitmap[..]), count, 0);
              if i == |was| then ptr == 0 && bitmap[..] == was && used == old(used)
              else
                && ptr == PhysToVirt((8 * i + 8 - count) * 4096)
                && View().free == old(View()).free - MarkedPages(i, count)
                && used == old(used) + count
                && (Valid() <==> forall p :: Marked(i, count, p) ==> !Bit(was, p))
      ensures count > 8 ==> ptr == 0
      ensures count == 8 ==> Valid() && (View(), ptr) == AllocEight(old(View()))
    {
      ghost var was := bitmap[..];
      EightPages(was, total);
      var i := 0;
      while i < bitmap.Length
        invariant 0 <= i <= bitmap.Length
        invariant count <= 8 ==> unchanged(this)
        invariant bitmap[..] == was
        invariant FirstRun(was, count, 0) == FirstRun(was, count, i)
      {
        if bitmap[i] != 0xFF {
          var found := CountRun(i, count);
          if found >= count {
            MarkRun(i, count);
            ptr := PhysToVirt((i * 8 + (8 - found)) * 4096);
            return;
          }
          assert found < 8 ==> Bit(was, 8 * i + found);
        }
        assert !RunAt(was, i, count);
        i := i + 1;
      }
      return 0;
    }

    method MarkRun(i: nat, count: nat)
      requires Valid() && count <= 8 && i < bitmap.Length
      modifies this`used, bitmap
      ensures Shaped() && used == old(used) + count
      ensures View().free == old(View()).free - MarkedPages(i, count)
      ensures Valid() <==> forall p :: Marked(i, count, p) ==> !Bit(old(bitmap[..]), p)
    {
      ghost var was := bitmap[..];
      var k := 0;
      while k < count
        invariant 0 <= k <= count
        invariant used == old(used) + k
        invariant |bitmap[..]| == |was|
        invariant forall q :: 0 <= q < 8 * |was| ==>
          (Bit(bitmap[..], q) <==> Bit(was, q) || 8 * i + 8 - count <= q < 8 * i + 8 - count + k)
      {
        var page := 8 * i + 8 - count + k;
        SetPageBits(bitmap[..], page);
        SetBitOf(page);
        used := used + 1;
        k := k + 1;
      }
      MarkedAccounting(was, bitmap[..], total, i, count);
    }
  }
}
