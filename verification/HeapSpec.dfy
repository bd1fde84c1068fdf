/** The kernel heap as a list of adjacent blocks: first fit with splitting, and coalescing on free. */
module HeapSpec {

  /** A block: header address, payload size, and whether it is free. The header takes 24 bytes. */
  datatype Node = Node(addr: nat, size: nat, free: bool)

  function After(n: Node): nat {
    n.addr + 24 + n.size
  }

  // ---- the shape of every reachable heap ----

  ghost predicate Tiles(ns: seq<Node>, start: nat) {
    ns != [] ==> ns[0].addr == start && Tiles(ns[1..], After(ns[0]))
  }

  ghost function Extent(ns: seq<Node>): nat {
    if ns == [] then 0 else 24 + ns[0].size + Extent(ns[1..])
  }

  ghost predicate NoAdjacentFree(ns: seq<Node>) {
    forall i, j :: 0 <= i < j < |ns| && j == i + 1 ==> !(ns[i].free && ns[j].free)
  }

  ghost predicate Aligned(ns: seq<Node>) {
    forall i :: 0 <= i < |ns| ==> ns[i].addr % 8 == 0 && ns[i].size % 8 == 0
  }

  /** The blocks fill the 16384-byte arena exactly, are 8-aligned, and no two neighbours are both free. */
  ghost predicate Inv(ns: seq<Node>, base: nat) {
    Tiles(ns, base) && Extent(ns) == 16384 && Aligned(ns) && NoAdjacentFree(ns)
  }

  ghost function Live(ns: seq<Node>): set<Node> {
    set n | n in ns && !n.free
  }

  // ---- the operations ----

  /** (size + 7) & ~7 in 64 bits. */
  function Rounded(size: nat): nat {
    (size + 7) % 0x1_0000_0000_0000_0000 / 8 * 8
  }

  predicate Fits(n: Node, size: nat) {
    n.free && n.size >= size
  }

  /** The first block from i on that fits, or |ns|. */
  ghost function FirstFit(ns: seq<Node>, size: nat, i: nat): (r: nat)
    requires i <= |ns|
    ensures i <= r <= |ns|
    ensures r < |ns| ==> Fits(ns[r], size)
    ensures forall k :: i <= k < r ==> !Fits(ns[k], size)
    decreases |ns| - i
  {
    if i == |ns| || Fits(ns[i], size) then i else FirstFit(ns, size, i + 1)
  }

  /** Takes block i, cutting off the rest as a new free block when more than 56 bytes would be wasted. */
  ghost function Place(ns: seq<Node>, i: nat, size: nat): seq<Node>
    requires i < |ns| && Fits(ns[i], size)
  {
    var n := ns[i];
    if n.size > size + 24 + 32 then
      ns[..i] + [Node(n.addr, size, false), Node(n.addr + 24 + size, n.size - size - 24, true)] + ns[i + 1..]
    else
      ns[i := n.(free := false)]
  }

  ghost function Malloc(ns: seq<Node>, request: nat): (seq<Node>, nat) {
    if request == 0 then (ns, 0) else
    var i := FirstFit(ns, Rounded(request), 0);
    if i == |ns| then (ns, 0) else (Place(ns, i, Rounded(request)), ns[i].addr + 24)
  }

  function Merge(a: Node, b: Node): Node {
    a.(size := a.size + 24 + b.size)
  }

  /** The sweep over the whole list: a free block swallows its free successor and is looked at again. */
  ghost function Coalesce(ns: seq<Node>): seq<Node>
    decreases |ns|
  {
    if |ns| <= 1 then ns
    else if ns[0].free && ns[1].free then Coalesce([Merge(ns[0], ns[1])] + ns[2..])
    else [ns[0]] + Coalesce(ns[1..])
  }

  ghost predicate LiveAt(ns: seq<Node>, i: nat, ptr: nat) {
    i < |ns| && !ns[i].free && ns[i].addr + 24 == ptr
  }

  ghost function Release(ns: seq<Node>, i: nat): seq<Node>
    requires i < |ns|
  {
    Coalesce(ns[i := ns[i].(free := true)])
  }

  // ---- tilings ----

  lemma {:induction false} TilesConcat(a: seq<Node>, b: seq<Node>, start: nat)
    ensures Extent(a + b) == Extent(a) + Extent(b)
    ensures Tiles(a + b, start) <==> Tiles(a, start) && Tiles(b, start + Extent(a))
    decreases |a|
  {
    if a == [] {
      assert a + b == b;
    } else {
      assert (a + b)[1..] == a[1..] + b;
      TilesConcat(a[1..], b, After(a[0]));
    }
  }

  lemma TilesSplit(ns: seq<Node>, i: nat, start: nat)
    requires i < |ns|
    ensures Extent(ns) == Extent(ns[..i]) + 24 + ns[i].size + Extent(ns[i + 1..])
    ensures Tiles(ns, start) <==>
      Tiles(ns[..i], start) && ns[i].addr == start + Extent(ns[..i]) && Tiles(ns[i + 1..], After(ns[i]))
  {
    assert ns == ns[..i] + ns[i..] && ns[i..][1..] == ns[i + 1..];
    TilesConcat(ns[..i], ns[i..], start);
  }

  /** Blocks lie in order of address, each after the end of the one before. */
  lemma TilesOrder(ns: seq<Node>, start: nat, i: nat, j: nat)
    requires Tiles(ns, start) && i < j < |ns|
    ensures start <= ns[i].addr && After(ns[i]) <= ns[j].addr && After(ns[j]) <= start + Extent(ns)
  {
    TilesSplit(ns, j, start);
    var front := ns[..j];
    TilesSplit(front, i, start);
  }
}
