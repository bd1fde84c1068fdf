/** The bytes the heap lives in: headers are packed fields of little-endian bytes, and nothing keeps two headers,
    one of them stale, from overlapping. */
module HeapMemory {
  import opened HeapSpec

  /** Bytes by address; what has never been written reads as 0. */
  type Memory = map<nat, nat>

  function Get(m: Memory, a: nat): nat {
    if a in m then m[a] else 0
  }

  function Bytes(m: Memory, a: nat, n: nat): (bs: seq<nat>)
    ensures |bs| == n
  {
    seq<nat>(n, (k: nat) => Get(m, a + k))
  }

  /** Writing bytes from address a on changes those and no others. */
  function Store(m: Memory, a: nat, bs: seq<nat>): (r: Memory)
    ensures forall b: nat :: Get(r, b) == if a <= b < a + |bs| then bs[b - a] else Get(m, b)
    decreases |bs|
  {
    if bs == [] then m else Store(m[a := bs[0]], a + 1, bs[1..])
  }

  // ---- numbers as bytes ----

  /** 256 to the power n. */
  function Limit(n: nat): nat {
    if n == 0 then 1 else 256 * Limit(n - 1)
  }

  function Encode(v: nat, n: nat): (bs: seq<nat>)
    ensures |bs| == n
  {
    if n == 0 then [] else [v % 256] + Encode(v / 256, n - 1)
  }

  function Decode(bs: seq<nat>): nat {
    if bs == [] then 0 else bs[0] + 256 * Decode(bs[1..])
  }

  /** What is written to a field is what is read from it. */
  lemma {:induction false} EncodeDecode(v: nat, n: nat)
    requires v < Limit(n)
    ensures Decode(Encode(v, n)) == v
    decreases n
  {
    if n > 0 {
      EncodeDecode(v / 256, n - 1);
      assert Encode(v, n)[1..] == Encode(v / 256, n - 1);
    }
  }

  lemma Widths()
    ensures Limit(4) == 0x1_0000_0000 && Limit(8) == 0x1_0000_0000_0000_0000
  {
    assert Limit(2) == 65536;
    assert Limit(4) == 256 * (256 * Limit(2));
    assert Limit(6) == 256 * (256 * Limit(4));
    assert Limit(8) == 256 * (256 * Limit(6));
  }

  function Load(m: Memory, a: nat, n: nat): nat {
    Decode(Bytes(m, a, n))
  }

  lemma BytesStored(m: Memory, a: nat, bs: seq<nat>)
    ensures Bytes(Store(m, a, bs), a, |bs|) == bs
  {
  }

  lemma BytesKept(m: Memory, a: nat, bs: seq<nat>, b: nat, n: nat)
    requires b + n <= a || a + |bs| <= b
    ensures Bytes(Store(m, a, bs), b, n) == Bytes(m, b, n)
  {
  }

  // ---- headers ----

  const HEAP_MAGIC: nat := 0x12345678

  /** The packed 24-byte header; next is 0 at the end of the list. */
  datatype Header = Header(magic: nat, size: nat, next: nat, free: nat)

  ghost predicate Field(m: Memory, a: nat, n: nat, v: nat) {
    Bytes(m, a, n) == Encode(v, n)
  }

  ghost predicate HeaderAt(m: Memory, a: nat, h: Header) {
    Field(m, a, 4, h.magic) && Field(m, a + 4, 8, h.size) && Field(m, a + 12, 8, h.next) && Field(m, a + 20, 4, h.free)
  }

  function SetMagic(m: Memory, a: nat, v: nat): Memory { Store(m, a, Encode(v, 4)) }
  function SetSize(m: Memory, a: nat, v: nat): Memory { Store(m, a + 4, Encode(v, 8)) }
  function SetNext(m: Memory, a: nat, v: nat): Memory { Store(m, a + 12, Encode(v, 8)) }
  function SetFree(m: Memory, a: nat, v: nat): Memory { Store(m, a + 20, Encode(v, 4)) }

  /** Byte by byte: mark, size, link and free field of a header. */
  lemma HeaderBytes(m: Memory, a: nat, h: Header)
    requires HeaderAt(m, a, h) && h.magic == HEAP_MAGIC
    ensures Get(m, a) == 0x78 && Get(m, a + 1) == 0x56 && Get(m, a + 2) == 0x34 && Get(m, a + 3) == 0x12
    ensures Get(m, a + 4) == h.size % 256 && Get(m, a + 12) == h.next % 256 && Get(m, a + 20) == h.free % 256
  {
    var bs := Bytes(m, a, 4);
    assert Encode(0x12, 1) == [0x12] && Encode(0x1234, 2) == [0x34, 0x12] && Encode(0x123456, 3) == [0x56, 0x34, 0x12];
    assert Encode(0x12345678, 4) == [0x78, 0x56, 0x34, 0x12];
    assert bs[0] == 0x78 && bs[1] == 0x56 && bs[2] == 0x34 && bs[3] == 0x12;
    assert Bytes(m, a + 4, 8)[0] == h.size % 256;
    assert Bytes(m, a + 12, 8)[0] == h.next % 256;
    assert Bytes(m, a + 20, 4)[0] == h.free % 256;
  }

  lemma SetSizeHere(m: Memory, a: nat, h: Header, v: nat)
    requires HeaderAt(m, a, h)
    ensures HeaderAt(SetSize(m, a, v), a, h.(size := v))
  {
    var bs := Encode(v, 8);
    BytesStored(m, a + 4, bs);
    BytesKept(m, a + 4, bs, a, 4);
    BytesKept(m, a + 4, bs, a + 12, 8);
    BytesKept(m, a + 4, bs, a + 20, 4);
  }

  lemma SetNextHere(m: Memory, a: nat, h: Header, v: nat)
    requires HeaderAt(m, a, h)
    ensures HeaderAt(SetNext(m, a, v), a, h.(next := v))
  {
    var bs := Encode(v, 8);
    BytesStored(m, a + 12, bs);
    BytesKept(m, a + 12, bs, a, 4);
    BytesKept(m, a + 12, bs, a + 4, 8);
    BytesKept(m, a + 12, bs, a + 20, 4);
  }

  lemma SetFreeHere(m: Memory, a: nat, h: Header, v: nat)
    requires HeaderAt(m, a, h)
    ensures HeaderAt(SetFree(m, a, v), a, h.(free := v))
  {
    var bs := Encode(v, 4);
    BytesStored(m, a + 20, bs);
    BytesKept(m, a + 20, bs, a, 4);
    BytesKept(m, a + 20, bs, a + 4, 8);
    BytesKept(m, a + 20, bs, a + 12, 8);
  }

  /** A header written field by field. */
  function NewHeader(m: Memory, a: nat, h: Header): Memory {
    SetFree(SetNext(SetSize(SetMagic(m, a, h.magic), a, h.size), a, h.next), a, h.free)
  }

  lemma NewHeaderHere(m: Memory, a: nat, h: Header)
    ensures HeaderAt(NewHeader(m, a, h), a, h)
  {
    var m1 := SetMagic(m, a, h.magic);
    var m2 := SetSize(m1, a, h.size);
    var m3 := SetNext(m2, a, h.next);
    BytesStored(m, a, Encode(h.magic, 4));
    BytesStored(m1, a + 4, Encode(h.size, 8));
    BytesKept(m1, a + 4, Encode(h.size, 8), a, 4);
    BytesStored(m2, a + 12, Encode(h.next, 8));
    BytesKept(m2, a + 12, Encode(h.next, 8), a, 4);
    BytesKept(m2, a + 12, Encode(h.next, 8), a + 4, 8);
    BytesStored(m3, a + 20, Encode(h.free, 4));
    BytesKept(m3, a + 20, Encode(h.free, 4), a, 4);
    BytesKept(m3, a + 20, Encode(h.free, 4), a + 4, 8);
    BytesKept(m3, a + 20, Encode(h.free, 4), a + 12, 8);
  }

  /** The same 24 bytes spell the same header. */
  lemma SameHeader(m: Memory, r: Memory, a: nat, h: Header)
    requires HeaderAt(m, a, h) && forall k: nat :: a <= k < a + 24 ==> Get(r, k) == Get(m, k)
    ensures HeaderAt(r, a, h)
  {
    assert Bytes(r, a, 4) == Bytes(m, a, 4);
    assert Bytes(r, a + 4, 8) == Bytes(m, a + 4, 8);
    assert Bytes(r, a + 12, 8) == Bytes(m, a + 12, 8);
    assert Bytes(r, a + 20, 4) == Bytes(m, a + 20, 4);
  }

  /** And a header is spelled by one choice of bytes only. */
  lemma OneSpelling(m: Memory, r: Memory, a: nat, h: Header, k: nat)
    requires HeaderAt(m, a, h) && HeaderAt(r, a, h) && a <= k < a + 24
    ensures Get(r, k) == Get(m, k)
  {
    if k < a + 4 {
      assert Bytes(m, a, 4)[k - a] == Bytes(r, a, 4)[k - a];
    } else if k < a + 12 {
      assert Bytes(m, a + 4, 8)[k - a - 4] == Bytes(r, a + 4, 8)[k - a - 4];
    } else if k < a + 20 {
      assert Bytes(m, a + 12, 8)[k - a - 12] == Bytes(r, a + 12, 8)[k - a - 12];
    } else {
      assert Bytes(m, a + 20, 4)[k - a - 20] == Bytes(r, a + 20, 4)[k - a - 20];
    }
  }

  // ---- the list in memory ----

  ghost function NextAddr(ns: seq<Node>, i: nat): nat
    requires i < |ns|
  {
    if i + 1 < |ns| then ns[i + 1].addr else 0
  }

  ghost function HeaderFor(ns: seq<Node>, i: nat): Header
    requires i < |ns|
  {
    Header(HEAP_MAGIC, ns[i].size, NextAddr(ns, i), if ns[i].free then 1 else 0)
  }

  ghost predicate LinkedAt(m: Memory, ns: seq<Node>, i: nat)
    requires i < |ns|
  {
    HeaderAt(m, ns[i].addr, HeaderFor(ns, i))
  }

  /** The headers in memory spell out the list. */
  ghost predicate Linked(m: Memory, ns: seq<Node>) {
    forall i :: 0 <= i < |ns| ==> LinkedAt(m, ns, i)
  }

  /** Byte k belongs to a header of the list. */
  ghost predicate InHeader(ns: seq<Node>, k: nat) {
    exists i :: 0 <= i < |ns| && ns[i].addr <= k < ns[i].addr + 24
  }

  /** A store from a on changes no header byte. */
  ghost predicate Harmless(m: Memory, ns: seq<Node>, a: nat, bs: seq<nat>) {
    forall k: nat :: a <= k < a + |bs| && InHeader(ns, k) ==> bs[k - a] == Get(m, k)
  }

  /** Any store anywhere, by whomever, leaves the list as it is if and only if it changes no header byte. */
  lemma StoreExactly(m: Memory, ns: seq<Node>, a: nat, bs: seq<nat>)
    requires Linked(m, ns)
    ensures Linked(Store(m, a, bs), ns) <==> Harmless(m, ns, a, bs)
  {
    var r := Store(m, a, bs);
    if Harmless(m, ns, a, bs) {
      forall i | 0 <= i < |ns| ensures LinkedAt(r, ns, i) {
        assert LinkedAt(m, ns, i);
        forall k: nat | ns[i].addr <= k < ns[i].addr + 24 ensures Get(r, k) == Get(m, k) {
          assert InHeader(ns, k);
        }
        SameHeader(m, r, ns[i].addr, HeaderFor(ns, i));
      }
    }
    if Linked(r, ns) {
      forall k: nat | a <= k < a + |bs| && InHeader(ns, k) ensures bs[k - a] == Get(m, k) {
        var i :| 0 <= i < |ns| && ns[i].addr <= k < ns[i].addr + 24;
        assert LinkedAt(m, ns, i) && LinkedAt(r, ns, i);
        OneSpelling(m, r, ns[i].addr, HeaderFor(ns, i), k);
      }
    }
  }

  // ---- a pointer that is not held ----

  /** The header a pointer is taken to have, by 64-bit subtraction. Addresses are not reduced past the end of the
      address space, where no header lies. */
  function NodeOf(ptr: nat): nat {
    (ptr + 0x1_0000_0000_0000_0000 - 24) % 0x1_0000_0000_0000_0000
  }

  /** The pointer passes the test of the header's mark. */
  predicate BearsMark(m: Memory, ptr: nat) {
    ptr != 0 && Load(m, NodeOf(ptr), 4) == HEAP_MAGIC
  }

  /** The pointer is 8 or 16 bytes past the start of a header of the list: behind the fields that hold the low words
      of its size and its link. */
  ghost predicate HitsHeader(ns: seq<Node>, ptr: nat) {
    exists i :: 0 <= i < |ns| && (ptr == ns[i].addr + 8 || ptr == ns[i].addr + 16)
  }

  /** It is the payload of a free block. */
  ghost predicate FreeAt(ns: seq<Node>, ptr: nat) {
    exists i :: 0 <= i < |ns| && ns[i].free && ptr == ns[i].addr + 24
  }

  ghost predicate PayloadAt(ns: seq<Node>, ptr: nat) {
    exists i :: 0 <= i < |ns| && ptr == ns[i].addr + 24
  }

  /** Setting the free field of the header taken to be at this address changes no header of the list. */
  ghost predicate HarmlessMark(m: Memory, ns: seq<Node>, node: nat) {
    Harmless(m, ns, node + 20, Encode(1, 4))
  }

  lemma MarkStore(m: Memory, ns: seq<Node>, node: nat)
    requires Linked(m, ns)
    ensures Linked(SetFree(m, node, 1), ns) <==> HarmlessMark(m, ns, node)
  {
    StoreExactly(m, ns, node + 20, Encode(1, 4));
  }

  /** The bytes of 1. */
  lemma One()
    ensures Encode(1, 4) == [1, 0, 0, 0]
  {
    assert Encode(0, 1) == [0] && Encode(0, 2) == [0, 0] && Encode(0, 3) == [0, 0, 0];
  }

  /** A field that holds a multiple of 8 does not start with the byte 1. */
  lemma NotOne(m: Memory, a: nat, v: nat)
    requires Field(m, a, 8, v) && v % 8 == 0
    ensures Get(m, a) != 1
  {
    assert Bytes(m, a, 8)[0] == Encode(v, 8)[0] == v % 256;
  }

  /** The store of a free mark through header address `node` against one header of the list. */
  lemma MarkOnHeader(m: Memory, ns: seq<Node>, base: nat, node: nat, i: nat)
    requires Inv(ns, base) && Linked(m, ns) && node % 8 == 0 && i < |ns|
    ensures node + 16 == ns[i].addr || node + 8 == ns[i].addr ==> Get(m, node + 20) != 1
    ensures node == ns[i].addr && !ns[i].free ==> Get(m, node + 20) != 1
    ensures node == ns[i].addr && ns[i].free ==> Bytes(m, node + 20, 4) == Encode(1, 4)
  {
    assert LinkedAt(m, ns, i);
    if node + 16 == ns[i].addr {
      NotOne(m, ns[i].addr + 4, ns[i].size);
    }
    if node + 8 == ns[i].addr {
      assert NextAddr(ns, i) % 8 == 0;
      NotOne(m, ns[i].addr + 12, NextAddr(ns, i));
    }
    if node == ns[i].addr && !ns[i].free {
      assert Bytes(m, node + 20, 4)[0] == Encode(0, 4)[0] == 0;
    }
  }

  /** Marking a block free through an 8-aligned pointer that no caller holds, stale or forged, leaves the list
      intact if and only if the pointer is not behind the size or link of a header of the list. */
  lemma StaleFreeExactly(m: Memory, ns: seq<Node>, base: nat, ptr: nat)
    requires Inv(ns, base) && Linked(m, ns)
    requires ptr % 8 == 0 && 24 <= ptr < 0x1_0000_0000_0000_0000 && (PayloadAt(ns, ptr) ==> FreeAt(ns, ptr))
    ensures HarmlessMark(m, ns, NodeOf(ptr)) <==> !HitsHeader(ns, ptr)
    ensures Linked(SetFree(m, NodeOf(ptr), 1), ns) <==> !HitsHeader(ns, ptr)
  {
    NodeBefore(ptr);
    StaleMarkExactly(m, ns, base, ptr - 24);
    MarkStore(m, ns, ptr - 24);
  }

  lemma NodeBefore(ptr: nat)
    requires 24 <= ptr < 0x1_0000_0000_0000_0000
    ensures NodeOf(ptr) == ptr - 24 && (ptr % 8 == 0 ==> (ptr - 24) % 8 == 0)
  {
  }

  lemma StaleMarkExactly(m: Memory, ns: seq<Node>, base: nat, node: nat)
    requires Inv(ns, base) && Linked(m, ns) && node % 8 == 0 && (PayloadAt(ns, node + 24) ==> FreeAt(ns, node + 24))
    ensures HarmlessMark(m, ns, node) <==> !HitsHeader(ns, node + 24)
  {
    if HitsHeader(ns, node + 24) {
      HitHarms(m, ns, base, node);
    } else {
      forall k: nat | node + 20 <= k < node + 24 && InHeader(ns, k) ensures Encode(1, 4)[k - (node + 20)] == Get(m, k) {
        MissKeeps(m, ns, base, node, k);
      }
    }
  }

  lemma HitHarms(m: Memory, ns: seq<Node>, base: nat, node: nat)
    requires Inv(ns, base) && Linked(m, ns) && node % 8 == 0 && HitsHeader(ns, node + 24)
    ensures !Harmless(m, ns, node + 20, Encode(1, 4))
  {
    One();
    var i :| 0 <= i < |ns| && (node + 24 == ns[i].addr + 8 || node + 24 == ns[i].addr + 16);
    MarkOnHeader(m, ns, base, node, i);
    assert InHeader(ns, node + 20);
  }

  lemma MissKeeps(m: Memory, ns: seq<Node>, base: nat, node: nat, k: nat)
    requires Inv(ns, base) && Linked(m, ns) && node % 8 == 0 && !HitsHeader(ns, node + 24)
    requires PayloadAt(ns, node + 24) ==> FreeAt(ns, node + 24)
    requires node + 20 <= k < node + 24 && InHeader(ns, k)
    ensures Encode(1, 4)[k - (node + 20)] == Get(m, k)
  {
    var i :| 0 <= i < |ns| && ns[i].addr <= k < ns[i].addr + 24;
    EightApart(node, ns[i].addr, k);
    SamePayload(ns, base, node + 24, i);
    MarkOnHeader(m, ns, base, node, i);
    assert Bytes(m, node + 20, 4)[k - (node + 20)] == Get(m, k);
  }

  lemma EightApart(node: nat, addr: nat, k: nat)
    requires node % 8 == 0 && addr % 8 == 0 && node + 20 <= k < node + 24 && addr <= k < addr + 24
    ensures node == addr || node + 8 == addr || node + 16 == addr
  {
  }

  lemma SamePayload(ns: seq<Node>, base: nat, ptr: nat, i: nat)
    requires Tiles(ns, base) && i < |ns| && ptr == ns[i].addr + 24 && (PayloadAt(ns, ptr) ==> FreeAt(ns, ptr))
    ensures ns[i].free
  {
    assert PayloadAt(ns, ptr);
    var j :| 0 <= j < |ns| && ns[j].free && ptr == ns[j].addr + 24;
    if i < j { TilesOrder(ns, base, i, j); } else if j < i { TilesOrder(ns, base, j, i); }
  }
}
