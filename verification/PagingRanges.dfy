/** The loop that maps a range of addresses page by page, as a run of requests. */
module PagingRanges {
  import opened PmmSpec
  import opened PageTables
  import opened PagingRuns

  function PagesOf(size: nat): nat {
    (size + 4096 - 1) / 4096
  }

  /** The call that the range loop makes at offset k * 4096, with 64-bit wrap-around. */
  function Nth(virt: nat, phys: nat, flags: nat, k: nat): Request {
    Request(Split((virt + k * 4096) % 0x1_0000_0000_0000_0000), (phys + k * 4096) % 0x1_0000_0000_0000_0000, flags)
  }

  function RangeRequests(virt: nat, phys: nat, n: nat, flags: nat): (rs: seq<Request>)
    ensures |rs| == n
  {
    if n == 0 then [] else RangeRequests(virt, phys, n - 1, flags) + [Nth(virt, phys, flags, n - 1)]
  }

  lemma {:induction false} RangeAt(virt: nat, phys: nat, n: nat, flags: nat, k: nat)
    requires k < n
    ensures RangeRequests(virt, phys, n, flags)[k] == Nth(virt, phys, flags, k)
    decreases n
  {
    if k < n - 1 { RangeAt(virt, phys, n - 1, flags, k); }
  }

  ghost predicate Affine(t: Tables, virt: nat, phys: nat, n: nat) {
    forall w: nat :: virt <= w < virt + n * 4096 ==> GetPhys(t.mem, t.p4, w) == phys + (w - virt)
  }

  /** A page-aligned range that stays below 2^64. */
  ghost predicate AlignedRange(virt: nat, phys: nat, n: nat, flags: nat) {
    && virt % 4096 == 0 && phys % 4096 == 0 && flags % 2 == 1
    && virt + n * 4096 <= WORD_MOD && phys + n * 4096 <= WORD_MOD
  }

  /** All bytes of a page share its indices. */
  lemma SamePage(a: nat, b: nat)
    requires b % 4096 == 0 && b <= a < b + 4096
    ensures Split(a) == Split(b).(off := a - b)
  {
    assert a / 0x1000 == b / 0x1000;
    assert a / 0x20_0000 == b / 0x20_0000;
    assert a / 0x4000_0000 == b / 0x4000_0000;
    assert a / 0x80_0000_0000 == b / 0x80_0000_0000;
  }

  lemma NthPlain(virt: nat, phys: nat, flags: nat, k: nat)
    requires virt % 4096 == 0 && phys % 4096 == 0 && virt + k * 4096 < WORD_MOD && phys + k * 4096 < WORD_MOD
    ensures var r := Nth(virt, phys, flags, k);
      r.va == Split(virt + k * 4096) && FrameOf(r.phys) * 4096 == phys + k * 4096 && r.flags == flags
  {
    assert (virt + k * 4096) % 0x1_0000_0000_0000_0000 == virt + k * 4096;
    assert (phys + k * 4096) % 0x1_0000_0000_0000_0000 == phys + k * 4096;
  }

  /** Request k of the range, with nothing wrapped. */
  lemma PlainAt(virt: nat, phys: nat, n: nat, flags: nat, k: nat)
    requires AlignedRange(virt, phys, n, flags) && k < n
    ensures var r := RangeRequests(virt, phys, n, flags)[k];
      r.va == Split(virt + k * 4096) && FrameOf(r.phys) * 4096 == phys + k * 4096 && r.flags == flags
  {
    RangeAt(virt, phys, n, flags, k);
    NthPlain(virt, phys, flags, k);
  }

  lemma PageByte(virt: nat, p: nat, off: nat)
    requires virt % 4096 == 0 && off < 4096
    ensures Split(virt + p * 4096 + off) == Split(virt + p * 4096).(off := off)
  {
    SamePage(virt + p * 4096 + off, virt + p * 4096);
  }

  lemma PlainByte(virt: nat, phys: nat, n: nat, flags: nat, p: nat, off: nat)
    requires AlignedRange(virt, phys, n, flags) && p < n && off < 4096
    ensures Split(virt + p * 4096 + off) == RangeRequests(virt, phys, n, flags)[p].va.(off := off)
  {
    PlainAt(virt, phys, n, flags, p);
    PageByte(virt, p, off);
  }

  lemma LookupByte(t: Tables, virt: nat, phys: nat, n: nat, flags: nat, p: nat, off: nat, w: nat)
    requires AlignedRange(virt, phys, n, flags) && p < n && off < 4096 && w == virt + p * 4096 + off
    ensures GetPhys(t.mem, t.p4, w) == Translate(t, RangeRequests(virt, phys, n, flags)[p].va.(off := off))
  {
    PlainByte(virt, phys, n, flags, p, off);
    GetPhysIsWalk(t.mem, t.p4, w);
  }

  lemma AffineEither(t: Tables, virt: nat, phys: nat, n: nat, flags: nat)
    requires AlignedRange(virt, phys, n, flags)
    ensures Affine(t, virt, phys, n) <==> AffinePages(t, RangeRequests(virt, phys, n, flags), phys)
  {
    var rs := RangeRequests(virt, phys, n, flags);
    if Affine(t, virt, phys, n) {
      forall p: nat, off: nat | p < |rs| && off < 4096 ensures ByteRight(t, rs, phys, p, off) {
        LookupByte(t, virt, phys, n, flags, p, off, virt + p * 4096 + off);
      }
    }
    if AffinePages(t, rs, phys) {
      forall w: nat | virt <= w < virt + n * 4096 ensures GetPhys(t.mem, t.p4, w) == phys + (w - virt) {
        var p, off := (w - virt) / 4096, (w - virt) % 4096;
        LookupByte(t, virt, phys, n, flags, p, off, w);
        assert ByteRight(t, rs, phys, p, off);
      }
    }
  }

  // ---- the window, GiB by GiB ----

  function GibStart(g: nat): nat {
    g * 0x4000_0000
  }

  /** The address lies in a GiB that boot maps. */
  lemma GibWindow(a: nat)
    ensures var g := a / 0x4000_0000;
      InWindow(Split(a)) <==> BootSlot(g / 512 % 512) && (g % 512 == 0 || g % 512 == 510)
  {
    assert a / 0x80_0000_0000 == a / 0x4000_0000 / 512;
  }

  lemma StartWindow(g: nat)
    ensures InWindow(Split(GibStart(g))) <==> BootSlot(g / 512 % 512) && (g % 512 == 0 || g % 512 == 510)
  {
    GibWindow(GibStart(g));
  }

  /** Aliased pages lie a whole number of GiB apart. */
  lemma AliasGibs(a: nat, b: nat)
    requires a < b && a % 4096 == 0 && b % 4096 == 0 && Alias(Split(a), Split(b))
    ensures var ga, gb := a / 0x4000_0000, b / 0x4000_0000;
      && ga < gb && ga % 512 == gb % 512
      && (ga / 512 % 512 == gb / 512 % 512 || (BootSlot(ga / 512 % 512) && BootSlot(gb / 512 % 512)))
  {
    SplitOffsets(a);
    SplitOffsets(b);
    assert a % 0x4000_0000 == b % 0x4000_0000;
    assert a / 0x80_0000_0000 == a / 0x4000_0000 / 512;
    assert b / 0x80_0000_0000 == b / 0x4000_0000 / 512;
  }

  /** Between two such GiB, counted with the second, one of the window begins. */
  lemma WindowBetween(ha: nat, hb: nat, x: nat) returns (g: nat)
    requires x < 512 && ha < hb
    requires ha % 512 == hb % 512 || (BootSlot(ha % 512) && BootSlot(hb % 512))
    requires !(BootSlot(ha % 512) && (x == 0 || x == 510))
    ensures ha * 512 + x < g <= hb * 512 + x && BootSlot(g / 512 % 512) && (g % 512 == 0 || g % 512 == 510)
  {
    if BootSlot(ha % 512) && x < 510 {
      g := ha * 512 + 510;
    } else if ha % 512 == 511 {
      g := (ha + 1) * 512;
    } else {
      g := NextTop(ha, hb, x);
    }
  }

  /** The next PML4 slot 511. */
  lemma NextTop(ha: nat, hb: nat, x: nat) returns (g: nat)
    requires x < 512 && ha < hb && ha % 512 != 511
    requires ha % 512 == hb % 512 || (BootSlot(ha % 512) && BootSlot(hb % 512))
    ensures ha * 512 + x < g <= hb * 512 + x && BootSlot(g / 512 % 512) && g % 512 == 0
  {
    var top := ha / 512 * 512 + 511;
    assert top % 512 == 511;
    g := top * 512;
    assert g / 512 == top;
    assert top <= hb;
  }

  /** Pages that share a slot, the first outside the window, have the start of a window GiB between them. */
  lemma AliasCrosses(a: nat, b: nat) returns (g: nat)
    requires a < b && a % 4096 == 0 && b % 4096 == 0 && Alias(Split(a), Split(b)) && !InWindow(Split(a))
    ensures a < GibStart(g) <= b && InWindow(Split(GibStart(g)))
  {
    var ga, gb := a / 0x4000_0000, b / 0x4000_0000;
    AliasGibs(a, b);
    GibWindow(a);
    g := WindowBetween(ga / 512, gb / 512, ga % 512);
    StartWindow(g);
  }

  // ---- exactly when a range is mapped as asked ----

  /** The range enters no GiB of the window, and if it begins in one, it asks for what is there already. */
  ghost predicate AvoidsWindow(virt: nat, phys: nat, n: nat) {
    (InWindow(Split(virt)) ==> phys == virt % 0x4000_0000) && EntersNone(virt, virt + n * 4096)
  }

  ghost predicate EntersNone(lo: nat, hi: nat) {
    forall g: nat :: lo < GibStart(g) < hi ==> !InWindow(Split(GibStart(g)))
  }

  /** What page p of the range asks for is what the window gives, if the page is in the window. */
  ghost predicate PageAgrees(virt: nat, phys: nat, p: nat) {
    InWindow(Split(virt + p * 4096)) ==> (virt + p * 4096) % 0x4000_0000 == phys + p * 4096
  }

  lemma AvoidedAgrees(virt: nat, phys: nat, n: nat, p: nat)
    requires virt % 4096 == 0 && AvoidsWindow(virt, phys, n) && p < n
    ensures PageAgrees(virt, phys, p)
  {
    var a := virt + p * 4096;
    var g := a / 0x4000_0000;
    GibWindow(a);
    StartWindow(g);
    if InWindow(Split(a)) {
      assert GibStart(g) <= virt;
      assert virt / 0x4000_0000 == g;
      GibWindow(virt);
    }
  }

  lemma AgreesAvoided(virt: nat, phys: nat, n: nat)
    requires virt % 4096 == 0 && n > 0 && forall p: nat :: p < n ==> PageAgrees(virt, phys, p)
    ensures AvoidsWindow(virt, phys, n)
  {
    assert PageAgrees(virt, phys, 0);
    forall g: nat | virt < GibStart(g) < virt + n * 4096 ensures !InWindow(Split(GibStart(g))) {
      var p := GibPage(virt, n, g);
      assert PageAgrees(virt, phys, p);
    }
  }

  lemma GibPage(virt: nat, n: nat, g: nat) returns (p: nat)
    requires virt % 4096 == 0 && virt < GibStart(g) < virt + n * 4096
    ensures 0 < p < n && GibStart(g) == virt + p * 4096 && GibStart(g) % 0x4000_0000 == 0
  {
    p := g * 0x4_0000 - virt / 4096;
    assert virt == virt / 4096 * 4096;
  }

  /** No two pages of such a range, the window's apart, share a slot. */
  lemma AvoidedDistinct(virt: nat, phys: nat, n: nat, i: nat, j: nat)
    requires virt % 4096 == 0 && AvoidsWindow(virt, phys, n) && i < j < n && !InWindow(Split(virt + i * 4096))
    ensures !Alias(Split(virt + i * 4096), Split(virt + j * 4096))
  {
    PageAligned(virt, i);
    PageAligned(virt, j);
    NoneWithin(virt, virt + n * 4096, virt + i * 4096, virt + j * 4096);
  }

  lemma PageAligned(virt: nat, k: nat)
    requires virt % 4096 == 0
    ensures (virt + k * 4096) % 4096 == 0
  {
  }

  lemma NoneWithin(lo: nat, hi: nat, a: nat, b: nat)
    requires EntersNone(lo, hi) && lo <= a < b < hi && a % 4096 == 0 && b % 4096 == 0 && !InWindow(Split(a))
    ensures !Alias(Split(a), Split(b))
  {
    if Alias(Split(a), Split(b)) {
      var g := AliasCrosses(a, b);
      assert false;
    }
  }

  lemma WindowPage(s: Tables, virt: nat, phys: nat, n: nat, flags: nat, p: nat, off: nat)
    requires AlignedRange(virt, phys, n, flags) && p < n && off < 4096 && Wf(s) && InWindow(Split(virt + p * 4096))
    ensures ByteRight(s, RangeRequests(virt, phys, n, flags), phys, p, off) <==> PageAgrees(virt, phys, p)
  {
    var a := virt + p * 4096;
    PageAligned(virt, p);
    WindowByte(s, a, off);
    PlainAt(virt, phys, n, flags, p);
    assert RangeRequests(virt, phys, n, flags)[p].va == Split(a);
  }

  lemma WindowByte(s: Tables, a: nat, off: nat)
    requires Wf(s) && a % 4096 == 0 && off < 4096 && InWindow(Split(a))
    ensures Translate(s, Split(a).(off := off)) == a % 0x4000_0000 + off
  {
    WindowTranslation(s, Split(a).(off := off));
    SplitOffsets(a);
  }

  lemma OtherPage(s: Tables, virt: nat, phys: nat, n: nat, flags: nat, p: nat, off: nat)
    requires AlignedRange(virt, phys, n, flags) && RunOk(s, RangeRequests(virt, phys, n, flags)) && p < n && off < 4096
    requires AvoidsWindow(virt, phys, n) && !InWindow(Split(virt + p * 4096))
    ensures ByteRight(RunMaps(s, RangeRequests(virt, phys, n, flags)), RangeRequests(virt, phys, n, flags), phys, p, off)
  {
    var rs := RangeRequests(virt, phys, n, flags);
    PlainAt(virt, phys, n, flags, p);
    var v := rs[p].va.(off := off);
    var j := FlatLast(rs, v, Translate(s, v), p);
    PlainAt(virt, phys, n, flags, j);
    if j > p { AvoidedDistinct(virt, phys, n, p, j); }
    RunRefinesFlat(s, rs, v);
  }

  /** Mapping an aligned range makes translation affine on it, byte by byte, if and only if it avoids the boot window in
      this sense; in particular every range outside the window is mapped as asked. */
  lemma RangeAffineExactly(s: Tables, virt: nat, phys: nat, n: nat, flags: nat)
    requires AlignedRange(virt, phys, n, flags) && n > 0 && RunOk(s, RangeRequests(virt, phys, n, flags))
    ensures Affine(RunMaps(s, RangeRequests(virt, phys, n, flags)), virt, phys, n) <==> AvoidsWindow(virt, phys, n)
  {
    var rs := RangeRequests(virt, phys, n, flags);
    var t := RunMaps(s, rs);
    RunShape(s, rs);
    AffineEither(t, virt, phys, n, flags);
    if AvoidsWindow(virt, phys, n) {
      forall p: nat, off: nat | p < |rs| && off < 4096 ensures ByteRight(t, rs, phys, p, off) {
        if InWindow(Split(virt + p * 4096)) {
          AvoidedAgrees(virt, phys, n, p);
          WindowPage(t, virt, phys, n, flags, p, off);
        } else {
          OtherPage(s, virt, phys, n, flags, p, off);
        }
      }
    }
    if AffinePages(t, rs, phys) {
      forall p: nat | p < n ensures PageAgrees(virt, phys, p) {
        if InWindow(Split(virt + p * 4096)) {
          assert ByteRight(t, rs, phys, p, 0);
          WindowPage(t, virt, phys, n, flags, p, 0);
        }
      }
      AgreesAvoided(virt, phys, n);
    }
  }

  /** A range that has no page in the window has no two pages that share a slot, however long it is. */
  lemma OutsideDistinct(virt: nat, phys: nat, n: nat, flags: nat)
    requires AlignedRange(virt, phys, n, flags) && forall p: nat :: p < n ==> !InWindow(Split(virt + p * 4096))
    ensures Distinct(RangeRequests(virt, phys, n, flags))
  {
    var rs := RangeRequests(virt, phys, n, flags);
    forall i, j | 0 <= i < j < n ensures !Alias(rs[i].va, rs[j].va) {
      PlainAt(virt, phys, n, flags, i);
      PlainAt(virt, phys, n, flags, j);
      AgreesAvoided(virt, phys, n);
      AvoidedDistinct(virt, phys, n, i, j);
    }
  }

  // ---- the same for a size in bytes ----

  /** The number of pages is the least that covers the size. */
  lemma PagesCover(size: nat)
    ensures size <= PagesOf(size) * 4096 < size + 4096
  {
  }

  ghost predicate BytesAffine(t: Tables, virt: nat, phys: nat, size: nat) {
    forall w: nat :: virt <= w < virt + size ==> GetPhys(t.mem, t.p4, w) == phys + (w - virt)
  }

  ghost predicate AvoidsBytes(virt: nat, phys: nat, size: nat) {
    (InWindow(Split(virt)) ==> phys == virt % 0x4000_0000) && EntersNone(virt, virt + size)
  }

  /** A range of bytes, none of which wraps round, that starts on page boundaries and is mapped present. */
  ghost predicate ByteRange(virt: nat, phys: nat, size: nat, flags: nat) {
    && virt % 4096 == 0 && phys % 4096 == 0 && flags % 2 == 1 && size > 0
    && virt + size <= WORD_MOD && phys + size <= WORD_MOD
  }

  lemma RoundedRange(virt: nat, phys: nat, size: nat, flags: nat)
    requires ByteRange(virt, phys, size, flags)
    ensures AlignedRange(virt, phys, PagesOf(size), flags) && PagesOf(size) > 0
  {
    PagesCover(size);
    RoundedEnd(virt, size, PagesOf(size));
    RoundedEnd(phys, size, PagesOf(size));
  }

  lemma RoundedEnd(a: nat, size: nat, n: nat)
    requires a % 4096 == 0 && n * 4096 < size + 4096 && a + size <= 0x1_0000_0000_0000_0000
    ensures a + n * 4096 <= 0x1_0000_0000_0000_0000
  {
    assert (a / 4096 + n) * 4096 < 0x1_0000_0000_0000_0000 + 4096;
  }

  lemma RoundedAvoids(virt: nat, phys: nat, size: nat)
    requires virt % 4096 == 0 && size > 0
    ensures AvoidsBytes(virt, phys, size) <==> AvoidsWindow(virt, phys, PagesOf(size))
  {
    var n := PagesOf(size);
    PagesCover(size);
    if EntersNone(virt, virt + size) {
      forall g: nat | virt < GibStart(g) < virt + n * 4096 ensures !InWindow(Split(GibStart(g))) {
        var p := GibPage(virt, n, g);
        assert GibStart(g) < virt + size;
      }
    }
  }

  /** Mapping a range of any size takes effect on every byte of it if and only if it avoids the window. */
  lemma SizedRangeExactly(s: Tables, virt: nat, phys: nat, size: nat, flags: nat)
    requires ByteRange(virt, phys, size, flags) && RunOk(s, RangeRequests(virt, phys, PagesOf(size), flags))
    ensures BytesAffine(RunMaps(s, RangeRequests(virt, phys, PagesOf(size), flags)), virt, phys, size)
      <==> AvoidsBytes(virt, phys, size)
  {
    var n := PagesOf(size);
    var t := RunMaps(s, RangeRequests(virt, phys, n, flags));
    RoundedRange(virt, phys, size, flags);
    RoundedAvoids(virt, phys, size);
    RangeAffineExactly(s, virt, phys, n, flags);
    PagesCover(size);
    RunShape(s, RangeRequests(virt, phys, n, flags));
    if BytesAffine(t, virt, phys, size) { BytesAvoid(t, virt, phys, size, n, flags); }
  }

  lemma BytesAvoid(t: Tables, virt: nat, phys: nat, size: nat, n: nat, flags: nat)
    requires AlignedRange(virt, phys, n, flags) && n > 0 && (n - 1) * 4096 < size && Wf(t)
    requires BytesAffine(t, virt, phys, size)
    ensures AvoidsWindow(virt, phys, n)
  {
    forall p: nat | p < n ensures PageAgrees(virt, phys, p) {
      if InWindow(Split(virt + p * 4096)) {
        LookupByte(t, virt, phys, n, flags, p, 0, virt + p * 4096);
        WindowPage(t, virt, phys, n, flags, p, 0);
      }
    }
    AgreesAvoided(virt, phys, n);
  }

  /** No byte of the range shares a slot with the address. */
  ghost predicate Untouched(virt: nat, size: nat, w: nat) {
    forall a: nat :: virt <= a < virt + size ==> !Alias(Split(a), Split(w))
  }

  /** And every address that shares no slot with a byte of the range translates as before. */
  lemma SizedRangeFrame(s: Tables, virt: nat, phys: nat, size: nat, flags: nat, w: nat)
    requires virt + size <= WORD_MOD && RunOk(s, RangeRequests(virt, phys, PagesOf(size), flags))
    requires Untouched(virt, size, w)
    ensures var t := RunMaps(s, RangeRequests(virt, phys, PagesOf(size), flags));
      GetPhys(t.mem, t.p4, w) == GetPhys(s.mem, s.p4, w)
  {
    var n := PagesOf(size);
    var rs := RangeRequests(virt, phys, n, flags);
    RunShape(s, rs);
    forall k | 0 <= k < n ensures !Alias(rs[k].va, Split(w)) {
      RangeAt(virt, phys, n, flags, k);
      StepInside(virt, size, k);
    }
    RunFrame(s, rs, Split(w));
    GetPhysIsWalk(s.mem, s.p4, w);
    GetPhysIsWalk(RunMaps(s, rs).mem, s.p4, w);
  }

  lemma StepInside(virt: nat, size: nat, k: nat)
    requires virt + size <= WORD_MOD && k < PagesOf(size)
    ensures (virt + k * 4096) % 0x1_0000_0000_0000_0000 == virt + k * 4096 < virt + size
  {
    PagesCover(size);
  }

  // ---- when the loop ends ----

  /** The loop's offset, which wraps round at 2^64, runs past the size at some time if and only if the size is at most
      2^64 - 4096. */
  lemma LoopEndsExactly(size: nat)
    requires size < 0x1_0000_0000_0000_0000
    ensures (exists k: nat :: OffsetAt(k) >= size) <==> size <= 0xFFFF_FFFF_FFFF_F000
  {
    assert OffsetAt(0xF_FFFF_FFFF_FFFF) == 0xFFFF_FFFF_FFFF_F000;
    forall k: nat ensures OffsetAt(k) <= 0xFFFF_FFFF_FFFF_F000 { OffsetBound(k); }
  }

  function OffsetAt(k: nat): nat {
    k * 4096 % 0x1_0000_0000_0000_0000
  }

  lemma OffsetBound(k: nat)
    ensures OffsetAt(k) <= 0xFFFF_FFFF_FFFF_F000
  {
    assert OffsetAt(k) % 4096 == 0;
  }
}
