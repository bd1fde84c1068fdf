/** Writing one word of any frame, table or not: exactly when the tables keep their shape and every translation. This
    is what a mapping call inside the boot window does, because it takes the data of a large page for a table. */
module TableWrites {
  import opened PmmSpec
  import opened PageTables

  /** The word is one of those that boot has written and the kernel relies on. */
  ghost predicate BootWord(s: Tables, l: nat, i: nat) {
    (l == s.p4 && BootSlot(i)) || (l == s.p3 && (i == 0 || i == 510)) || l == s.p2
  }

  /** Both words are absent, or both lead to the same frame. */
  predicate SameTarget(w: nat, e: nat) {
    (Present(e) <==> Present(w)) && (Present(w) ==> FrameOf(e) == FrameOf(w))
  }

  /** The word goes to a frame that is no table, or says what the table's word says already. */
  ghost predicate Benign(s: Tables, l: nat, i: nat, e: nat) {
    l in s.level ==>
      && SameTarget(Word(s.mem, l, i), e)
      && (BootWord(s, l, i) ==> e == Word(s.mem, l, i))
      && (s.level[l] > 1 && Present(e) && !BootWord(s, l, i) ==> Descends(e, s.level[l]))
  }

  /** Above level 1 a present word leads on, the large pages of boot apart. */
  lemma PresentDescends(s: Tables, l: nat, i: nat)
    requires Wf(s) && l in s.level && s.level[l] > 1 && l != s.p2 && i < ENTRIES && Present(Word(s.mem, l, i))
    ensures IsRef(s, l, i)
  {
  }

  lemma BenignRefs(s: Tables, l: nat, i: nat, e: nat)
    requires Wf(s) && IsFrame(s.mem, l) && i < ENTRIES && Benign(s, l, i, e)
    ensures var t := WriteLeaf(s, l, i, e);
      && (forall f, j :: IsRef(t, f, j) <==> IsRef(s, f, j))
      && (forall f, j :: IsRef(s, f, j) ==> Child(t, f, j) == Child(s, f, j))
  {
    WriteWords(s, l, i, e);
    if l in s.level && s.level[l] > 1 && l != s.p2 && Present(Word(s.mem, l, i)) {
      PresentDescends(s, l, i);
      if BootWord(s, l, i) { assert e == Word(s.mem, l, i); }
    }
  }

  lemma BenignNoOrphans(s: Tables, l: nat, i: nat, e: nat)
    requires Wf(s) && IsFrame(s.mem, l) && i < ENTRIES && Benign(s, l, i, e)
    ensures NoOrphans(WriteLeaf(s, l, i, e))
  {
    BenignRefs(s, l, i, e);
    var t := WriteLeaf(s, l, i, e);
    forall g | g in t.level && g != t.p4 ensures exists h, j :: IsRef(t, h, j) && Child(t, h, j) == g {
      var h, j :| IsRef(s, h, j) && Child(s, h, j) == g;
      assert IsRef(t, h, j);
    }
  }

  lemma BenignBoot(s: Tables, l: nat, i: nat, e: nat)
    requires Wf(s) && IsFrame(s.mem, l) && i < ENTRIES && Benign(s, l, i, e)
    ensures BootIntact(WriteLeaf(s, l, i, e))
  {
    WriteWords(s, l, i, e);
    var t := WriteLeaf(s, l, i, e);
    BootEntryBits(s.p2);
    forall f, j: nat | f in t.level && f != t.p2 && 2 <= t.level[f] <= 3 && Present(Word(t.mem, f, j))
      ensures !Huge(Word(t.mem, f, j))
    {
      assert (f == l && j == i) || Word(t.mem, f, j) == Word(s.mem, f, j);
    }
  }

  lemma BenignWf(s: Tables, l: nat, i: nat, e: nat)
    requires Wf(s) && IsFrame(s.mem, l) && i < ENTRIES && Benign(s, l, i, e)
    ensures Wf(WriteLeaf(s, l, i, e))
  {
    BenignRefs(s, l, i, e);
    WriteWords(s, l, i, e);
    BenignNoOrphans(s, l, i, e);
    BenignBoot(s, l, i, e);
    assert Stratified(WriteLeaf(s, l, i, e));
  }

  lemma {:induction false} BenignWalk(s: Tables, l: nat, i: nat, e: nat, g: nat, v: Va)
    requires Wf(s) && IsFrame(s.mem, l) && i < ENTRIES && Benign(s, l, i, e) && g in s.level && IsVa(v)
    ensures Walk(WriteLeaf(s, l, i, e).mem, g, s.level[g], v) == Walk(s.mem, g, s.level[g], v)
    decreases s.level[g]
  {
    var k := Index(v, s.level[g]);
    BenignWord(s, l, i, e, g, k);
    if IsRef(s, g, k) { BenignWalk(s, l, i, e, Child(s, g, k), v); }
  }

  /** Every word of every table says the same after the write. */
  lemma BenignWord(s: Tables, l: nat, i: nat, e: nat, g: nat, k: nat)
    requires Wf(s) && IsFrame(s.mem, l) && i < ENTRIES && Benign(s, l, i, e) && g in s.level && k < ENTRIES
    ensures var t := WriteLeaf(s, l, i, e);
      SameTarget(Word(s.mem, g, k), Word(t.mem, g, k)) && (IsRef(t, g, k) <==> IsRef(s, g, k))
  {
    WriteWords(s, l, i, e);
    BenignRefs(s, l, i, e);
  }

  // ---- the converse ----

  lemma Elsewhere(s: Tables, l: nat, i: nat, e: nat, h: nat, j: nat)
    requires IsFrame(s.mem, l) && i < ENTRIES
    ensures var t := WriteLeaf(s, l, i, e);
      h != l || j != i ==> (IsRef(t, h, j) <==> IsRef(s, h, j)) && Child(t, h, j) == Child(s, h, j)
  {
    WriteWords(s, l, i, e);
  }

  /** Boot's words apart, no two words lead to the same table. */
  lemma OnlyRef(s: Tables, l: nat, i: nat, h: nat, j: nat)
    requires Wf(s) && !BootWord(s, l, i) && IsRef(s, l, i)
    ensures IsRef(s, h, j) && Child(s, h, j) == Child(s, l, i) ==> h == l && j == i
  {
  }

  /** The word that leads to a table. */
  lemma Parent(s: Tables, t: Tables, c: nat) returns (h: nat, j: nat)
    requires Wf(s) && c in t.level && t.level == s.level && s.level[c] < 4
    ensures IsRef(s, h, j) && Child(s, h, j) == c
  {
    assert c != s.p4;
    h, j :| IsRef(s, h, j) && Child(s, h, j) == c;
  }

  /** A table's word that led to a table must go on doing so, or that table is lost. */
  lemma RefMustStay(s: Tables, l: nat, i: nat, e: nat)
    requires Wf(s) && IsFrame(s.mem, l) && IsRef(s, l, i) && !BootWord(s, l, i) && Wf(WriteLeaf(s, l, i, e))
    ensures Descends(e, s.level[l]) && FrameOf(e) == Child(s, l, i)
  {
    WriteWords(s, l, i, e);
    var t, c := WriteLeaf(s, l, i, e), Child(s, l, i);
    assert c in t.level && c != t.p4;
    var h, j :| IsRef(t, h, j) && Child(t, h, j) == c;
    Elsewhere(s, l, i, e, h, j);
    OnlyRef(s, l, i, h, j);
  }

  /** An absent word of a table above level 1 must stay absent: any table it could lead to is taken. */
  lemma AbsentMustStay(s: Tables, l: nat, i: nat, e: nat)
    requires Wf(s) && IsFrame(s.mem, l) && l in s.level && s.level[l] > 1 && i < ENTRIES
    requires !BootWord(s, l, i) && !Present(Word(s.mem, l, i)) && Wf(WriteLeaf(s, l, i, e))
    ensures !Present(e)
  {
    WriteWords(s, l, i, e);
    var t := WriteLeaf(s, l, i, e);
    if Present(e) {
      assert Word(t.mem, l, i) == e;
      PresentDescends(t, l, i);
      var h, j := Parent(s, t, FrameOf(e));
      Elsewhere(s, l, i, e, h, j);
      OnlyRef(t, l, i, h, j);
      assert false;
    }
  }

  lemma UpperMustBeBenign(s: Tables, l: nat, i: nat, e: nat)
    requires Wf(s) && IsFrame(s.mem, l) && l in s.level && s.level[l] > 1 && i < ENTRIES && Wf(WriteLeaf(s, l, i, e))
    ensures Benign(s, l, i, e)
  {
    WriteWords(s, l, i, e);
    if BootWord(s, l, i) {
      assert Word(WriteLeaf(s, l, i, e).mem, l, i) == Word(s.mem, l, i);
    } else if Present(Word(s.mem, l, i)) {
      PresentDescends(s, l, i);
      RefMustStay(s, l, i, e);
    } else {
      AbsentMustStay(s, l, i, e);
    }
  }

  /** Above level 1 the shape alone decides. */
  lemma UpperWfExactly(s: Tables, l: nat, i: nat, e: nat)
    requires Wf(s) && IsFrame(s.mem, l) && l in s.level && s.level[l] > 1 && i < ENTRIES
    ensures Wf(WriteLeaf(s, l, i, e)) <==> Benign(s, l, i, e)
  {
    if Wf(WriteLeaf(s, l, i, e)) { UpperMustBeBenign(s, l, i, e); }
    if Benign(s, l, i, e) { BenignWf(s, l, i, e); }
  }

  /** Every page table is the end of some address's path. */
  lemma TableReached(s: Tables, l: nat, i: nat) returns (v: Va)
    requires Wf(s) && l in s.level && s.level[l] == 1 && i < ENTRIES
    ensures IsVa(v) && v.i1 == i && v.off == 0 && LastTable(s.mem, s.p4, 4, v) == At(l)
  {
    var f2, i2 :| IsRef(s, f2, i2) && Child(s, f2, i2) == l;
    var f3, i3 :| IsRef(s, f3, i3) && Child(s, f3, i3) == f2;
    var f4, i4 :| IsRef(s, f4, i4) && Child(s, f4, i4) == f3;
    assert f4 == s.p4;
    v := Va(i4, i3, i2, i, 0);
    assert LastTable(s.mem, l, 1, v) == At(l);
    assert LastTable(s.mem, f2, 2, v) == At(l);
    assert LastTable(s.mem, f3, 3, v) == At(l);
  }

  /** An address at whose translation the two words differ. */
  lemma LeafMustBeSame(s: Tables, l: nat, i: nat, e: nat) returns (v: Va)
    requires Wf(s) && IsFrame(s.mem, l) && l in s.level && s.level[l] == 1 && i < ENTRIES
    requires !SameTarget(Word(s.mem, l, i), e)
    ensures IsVa(v) && Walk(WriteLeaf(s, l, i, e).mem, s.p4, 4, v) != Walk(s.mem, s.p4, 4, v)
  {
    v := TableReached(s, l, i);
    v := v.(off := 1);
    OffsetIrrelevant(s.mem, s.p4, 4, v.(off := 0), v);
    WriteLeafWalk(s, l, i, e, s.p4, v);
    WalkIsLeaf(s, v, l);
  }

  lemma {:induction false} OffsetIrrelevant(mem: Mem, f: nat, lvl: nat, v: Va, w: Va)
    requires (v.i4, v.i3, v.i2, v.i1) == (w.i4, w.i3, w.i2, w.i1)
    ensures LastTable(mem, f, lvl, v) == LastTable(mem, f, lvl, w)
    decreases lvl
  {
    var e := Word(mem, f, Index(v, lvl));
    if lvl > 1 && Descends(e, lvl) { OffsetIrrelevant(mem, FrameOf(e), lvl - 1, v, w); }
  }

  /** A walk that reaches a page table gives what the word there says. */
  lemma WalkIsLeaf(s: Tables, v: Va, l: nat)
    requires Wf(s) && IsVa(v) && LastTable(s.mem, s.p4, 4, v) == At(l)
    ensures Walk(s.mem, s.p4, 4, v) == LeafValue(Word(s.mem, l, v.i1), v)
  {
    Path(s, v);
    var f3 := Child(s, s.p4, v.i4);
    var f2 := Child(s, f3, v.i3);
    assert Walk(s.mem, s.p4, 4, v) == Walk(s.mem, f3, 3, v) == Walk(s.mem, f2, 2, v) == Walk(s.mem, l, 1, v);
  }

  /** No translation changes. */
  ghost predicate SameTranslations(s: Tables, t: Tables) {
    forall v :: IsVa(v) ==> Walk(t.mem, t.p4, 4, v) == Walk(s.mem, s.p4, 4, v)
  }

  /** Writing any word of any frame keeps the shape of the tables and all translations if and only if the word goes
      to no table, or says what is there already. */
  lemma WriteExactly(s: Tables, l: nat, i: nat, e: nat)
    requires Wf(s) && IsFrame(s.mem, l) && i < ENTRIES
    ensures var t := WriteLeaf(s, l, i, e); Wf(t) && SameTranslations(s, t) <==> Benign(s, l, i, e)
  {
    var t := WriteLeaf(s, l, i, e);
    if Benign(s, l, i, e) {
      BenignWf(s, l, i, e);
      forall v | IsVa(v) ensures Walk(t.mem, t.p4, 4, v) == Walk(s.mem, s.p4, 4, v) { BenignWalk(s, l, i, e, s.p4, v); }
    } else if s.level[l] > 1 {
      UpperWfExactly(s, l, i, e);
    } else {
      var v := LeafMustBeSame(s, l, i, e);
    }
  }
}
