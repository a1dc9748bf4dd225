/** Four-level page tables that live in the memory they describe: the software walk, the
    hardware walk, and the ownership of frames that keeps the tables of all address
    spaces separate. */
module PageTables {
  import opened Bytes

  const TABLE_FLAGS: nat := 7 // present, writable, user

  // ---- entries of a table ----

  function Entry(fr: seq<byte>, i: nat): nat
    requires |fr| == 4096 && i < 512
  {
    Field(fr, 8 * i, 8)
  }

  function SetEntry(fr: seq<byte>, i: nat, e: nat): (r: seq<byte>)
    requires |fr| == 4096 && i < 512
    ensures |r| == 4096
  {
    PutField(fr, 8 * i, e, 8)
  }

  lemma EntryAfterSet(fr: seq<byte>, i: nat, e: nat, j: nat)
    requires |fr| == 4096 && i < 512 && j < 512 && e < 0x1_0000_0000_0000_0000
    ensures Entry(SetEntry(fr, i, e), j) == if i == j then e else Entry(fr, j)
  {
    Pow256Values();
    if i == j {
      FieldOfPut(fr, 8 * i, e, 8);
    } else {
      FieldApart(fr, 8 * i, e, 8, 8 * j, 8);
    }
  }

  lemma EntryOfZero(j: nat)
    requires j < 512
    ensures Entry(Zeros(4096), j) == 0
  {
    LeZero(Zeros(4096)[8 * j..8 * j + 8]);
  }

  ghost predicate WfMem(mem: seq<seq<byte>>) {
    forall f {:trigger mem[f]} :: 0 <= f < |mem| ==> |mem[f]| == 4096
  }

  /** Entry i of the table in frame f. */
  function At(mem: seq<seq<byte>>, f: nat, i: nat): nat {
    if f < |mem| && |mem[f]| == 4096 && i < 512 then Entry(mem[f], i) else 0
  }

  lemma AtBound(mem: seq<seq<byte>>, f: nat, i: nat)
    ensures At(mem, f, i) < 0x1_0000_0000_0000_0000
  {
    if f < |mem| && |mem[f]| == 4096 && i < 512 {
      LeBound(mem[f][8 * i..8 * i + 8]);
      Pow256Values();
    }
  }

  function WithEntryAt(mem: seq<seq<byte>>, f: nat, i: nat, e: nat): (r: seq<seq<byte>>)
    requires f < |mem| && |mem[f]| == 4096 && i < 512
    ensures |r| == |mem|
  {
    mem[f := SetEntry(mem[f], i, e)]
  }

  lemma AtAfterSet(mem: seq<seq<byte>>, f: nat, i: nat, e: nat, g: nat, j: nat)
    requires f < |mem| && |mem[f]| == 4096 && i < 512 && e < 0x1_0000_0000_0000_0000
    ensures At(WithEntryAt(mem, f, i, e), g, j) == if g == f && j == i then e else At(mem, g, j)
  {
    if g == f && j < 512 {
      EntryAfterSet(mem[f], i, e, j);
    }
  }

  // ---- the software walk ----

  predicate IsHuge(e: nat) { e / 128 % 2 == 1 }

  /** User mode may go through the entry. */
  predicate UserBit(e: nat) { e / 4 % 2 == 1 }

  /** The entry allows writing. */
  predicate WriteBit(e: nat) { e / 2 % 2 == 1 }

  /** Table indices of a virtual address. */
  datatype Ix = Ix(i4: nat, i3: nat, i2: nat, i1: nat)

  predicate WfIx(ix: Ix) { ix.i4 < 512 && ix.i3 < 512 && ix.i2 < 512 && ix.i1 < 512 }

  function IxOf(v: nat): (ix: Ix)
    ensures WfIx(ix)
  {
    Ix(v / 0x80_0000_0000 % 512, v / 0x4000_0000 % 512, v / 0x20_0000 % 512, v / 0x1000 % 512)
  }

  /** Pages of the 48-bit address space have indices of their own. */
  lemma IxInjective(v: nat, w: nat)
    requires v < 0x1_0000_0000_0000 && w < 0x1_0000_0000_0000
    ensures IxOf(v) == IxOf(w) <==> v / 4096 == w / 4096
  {
    IxParts(v);
    IxParts(w);
  }

  lemma IxParts(v: nat)
    requires v < 0x1_0000_0000_0000
    ensures v / 4096 == ((IxOf(v).i4 * 512 + IxOf(v).i3) * 512 + IxOf(v).i2) * 512 + IxOf(v).i1
    ensures IxOf(v).i1 == v / 4096 % 512
    ensures IxOf(v).i2 == v / 4096 / 512 % 512
    ensures IxOf(v).i3 == v / 4096 / 512 / 512 % 512
    ensures IxOf(v).i4 == v / 4096 / 512 / 512 / 512
  {
    var p := v / 4096;
    assert v / 0x20_0000 == p / 512;
    assert v / 0x4000_0000 == p / 512 / 512;
    assert v / 0x80_0000_0000 == p / 512 / 512 / 512 < 512;
  }

  /** One step down from table `f` through entry i. */
  function Down(mem: seq<seq<byte>>, f: Option<nat>, i: nat, stopAtHuge: bool): Option<nat> {
    if f.None? then None
    else
      var e := At(mem, f.value, i);
      if e == 0 || (stopAtHuge && IsHuge(e)) then None else Some(e / 4096)
  }

  function PdptOf(mem: seq<seq<byte>>, root: nat, ix: Ix): Option<nat> { Down(mem, Some(root), ix.i4, false) }

  function PdOf(mem: seq<seq<byte>>, root: nat, ix: Ix): Option<nat> { Down(mem, PdptOf(mem, root, ix), ix.i3, false) }

  function PtOf(mem: seq<seq<byte>>, root: nat, ix: Ix): Option<nat> { Down(mem, PdOf(mem, root, ix), ix.i2, true) }

  /** The frame a page is mapped to by a 4 KB entry. */
  function Lookup(mem: seq<seq<byte>>, root: nat, ix: Ix): Option<nat> { Down(mem, PtOf(mem, root, ix), ix.i1, false) }

  /** The last-level entry of a page, 0 if there is no table for it. */
  function Leaf(mem: seq<seq<byte>>, root: nat, ix: Ix): nat {
    if PtOf(mem, root, ix).Some? then At(mem, PtOf(mem, root, ix).value, ix.i1) else 0
  }

  // ---- ownership ----

  const SHARED: int := -1

  /** What a frame is used for: the table at a position of an address space's tree, or the
      page mapped at an index. Everything below slot 511 of a root belongs to the tree
      all address spaces share. */
  datatype Owner =
    | Pml4(root: int)
    | Pdpt(root: int, i4: nat)
    | Pd(root: int, i4: nat, i3: nat)
    | Pt(root: int, i4: nat, i3: nat, i2: nat)
    | Page(root: int, ix: Ix)

  function TreeOf(root: int, i4: nat): int { if i4 == 511 then SHARED else root }

  /** The owner of what entry i of a table points to. */
  function Child(o: Owner, i: nat): Owner
    requires !o.Page?
  {
    match o
    case Pml4(r) => Pdpt(TreeOf(r, i), i)
    case Pdpt(r, i4) => Pd(r, i4, i)
    case Pd(r, i4, i3) => Pt(r, i4, i3, i)
    case Pt(r, i4, i3, i2) => Page(r, Ix(i4, i3, i2, i))
  }

  predicate PointsTo(owner: map<nat, Owner>, e: nat, o: Owner) {
    e % 4096 == TABLE_FLAGS && e < 0x10_0000_0000_0000 && e / 4096 in owner && owner[e / 4096] == o
  }

  /** What entry i of a table owned by `o` may hold. */
  predicate EntryOk(owner: map<nat, Owner>, o: Owner, i: nat, e: nat) {
    match o
    case Pml4(_) => (e == 0 && i != 511) || PointsTo(owner, e, Child(o, i))
    case Pdpt(_, _) => e == 0 || PointsTo(owner, e, Child(o, i))
    case Pd(r, _, _) => e == 0 || (IsHuge(e) && (UserBit(e) ==> r == SHARED)) || PointsTo(owner, e, Child(o, i))
    case Pt(_, _, _, _) => e == 0 || (e % 2 == 1 && UserBit(e) && e < 0x10_0000_0000_0000)
    case Page(_, _) => true
  }

  /** All tables of all address spaces, well separated: an entry leads to a frame whose
      owner is the entry's own position, so no table is reached on two ways. */
  ghost predicate TreeOk(mem: seq<seq<byte>>, owner: map<nat, Owner>, kentry: nat) {
    && WfMem(mem)
    && (forall f {:trigger f in owner} :: f in owner ==>
          f < |mem| && (owner[f].Pml4? ==> owner[f].root == f && At(mem, f, 511) == kentry))
    && (forall f, i {:trigger At(mem, f, i)} ::
          f in owner && 0 <= i < 512 ==> EntryOk(owner, owner[f], i, At(mem, f, i)))
  }

  ghost predicate IsRoot(owner: map<nat, Owner>, r: nat) {
    r in owner && owner[r] == Pml4(r)
  }

  ghost predicate Owned(owner: map<nat, Owner>, f: Option<nat>, o: Owner) {
    f.None? || (f.value in owner && owner[f.value] == o)
  }

  lemma OwnedFrame(mem: seq<seq<byte>>, owner: map<nat, Owner>, kentry: nat, f: nat)
    requires TreeOk(mem, owner, kentry) && f in owner
    ensures f < |mem| && |mem[f]| == 4096
  {
  }

  lemma DownOwned(mem: seq<seq<byte>>, owner: map<nat, Owner>, kentry: nat, f: Option<nat>, o: Owner, i: nat)
    requires TreeOk(mem, owner, kentry) && Owned(owner, f, o) && i < 512
    requires o.Pml4? || o.Pdpt? || o.Pd?
    ensures Owned(owner, Down(mem, f, i, o.Pd?), Child(o, i))
  {
    if f.Some? {
      assert EntryOk(owner, o, i, At(mem, f.value, i));
    }
  }

  /** The tables a walk passes are owned by their positions. */
  lemma WalkOwned(mem: seq<seq<byte>>, owner: map<nat, Owner>, kentry: nat, r: nat, ix: Ix)
    requires TreeOk(mem, owner, kentry) && IsRoot(owner, r) && WfIx(ix)
    ensures var t := TreeOf(r, ix.i4);
      && Owned(owner, PdptOf(mem, r, ix), Pdpt(t, ix.i4))
      && Owned(owner, PdOf(mem, r, ix), Pd(t, ix.i4, ix.i3))
      && Owned(owner, PtOf(mem, r, ix), Pt(t, ix.i4, ix.i3, ix.i2))
  {
    var t := TreeOf(r, ix.i4);
    DownOwned(mem, owner, kentry, Some(r), Pml4(r), ix.i4);
    DownOwned(mem, owner, kentry, PdptOf(mem, r, ix), Pdpt(t, ix.i4), ix.i3);
    DownOwned(mem, owner, kentry, PdOf(mem, r, ix), Pd(t, ix.i4, ix.i3), ix.i2);
  }

  // ---- inserting a fresh table ----

  /** mem' is mem with a zeroed table in frame g hung below the empty entry i of table f. */
  ghost predicate TableInserted(mem: seq<seq<byte>>, mem': seq<seq<byte>>, owner: map<nat, Owner>, f: nat, i: nat,
                                g: nat) {
    && f in owner && f < |mem| && |mem[f]| == 4096 && i < 512 && At(mem, f, i) == 0
    && (owner[f].Pml4? || owner[f].Pdpt? || owner[f].Pd?)
    && g < |mem| && g !in owner && g < 0x1_0000_0000
    && mem' == WithEntryAt(mem[g := Zeros(4096)], f, i, g * 4096 + TABLE_FLAGS)
  }

  lemma AtInserted(mem: seq<seq<byte>>, mem': seq<seq<byte>>, owner: map<nat, Owner>, f: nat, i: nat, g: nat, h: nat,
                   j: nat)
    requires TableInserted(mem, mem', owner, f, i, g)
    ensures At(mem', h, j) == if h == f && j == i then g * 4096 + TABLE_FLAGS else if h == g then 0 else At(mem, h, j)
  {
    var zeroed := mem[g := Zeros(4096)];
    AtAfterSet(zeroed, f, i, g * 4096 + TABLE_FLAGS, h, j);
    if h == g && j < 512 {
      EntryOfZero(j);
    }
  }

  lemma InsertWf(mem: seq<seq<byte>>, mem': seq<seq<byte>>, owner: map<nat, Owner>, f: nat, i: nat, g: nat)
    requires WfMem(mem) && TableInserted(mem, mem', owner, f, i, g)
    ensures WfMem(mem') && |mem'| == |mem|
  {
  }

  lemma InsertedEntry(mem: seq<seq<byte>>, mem': seq<seq<byte>>, owner: map<nat, Owner>, kentry: nat, f: nat, i: nat,
                      g: nat, h: nat, j: nat)
    requires TreeOk(mem, owner, kentry) && TableInserted(mem, mem', owner, f, i, g)
    requires (h in owner || h == g) && j < 512
    ensures var owner' := owner[g := Child(owner[f], i)]; EntryOk(owner', owner'[h], j, At(mem', h, j))
  {
    hide At, WithEntryAt, Entry;
    AtInserted(mem, mem', owner, f, i, g, h, j);
    assert EntryOk(owner, owner[f], i, At(mem, f, i));
    if h != g && !(h == f && j == i) {
      assert EntryOk(owner, owner[h], j, At(mem, h, j));
    }
  }

  lemma InsertKeepsTree(mem: seq<seq<byte>>, mem': seq<seq<byte>>, owner: map<nat, Owner>, kentry: nat, f: nat,
                        i: nat, g: nat)
    requires TreeOk(mem, owner, kentry) && TableInserted(mem, mem', owner, f, i, g)
    ensures TreeOk(mem', owner[g := Child(owner[f], i)], kentry)
  {
    hide At, WithEntryAt, Entry;
    var owner' := owner[g := Child(owner[f], i)];
    InsertWf(mem, mem', owner, f, i, g);
    assert EntryOk(owner, owner[f], i, At(mem, f, i));
    forall h, j | h in owner' && 0 <= j < 512 ensures EntryOk(owner', owner'[h], j, At(mem', h, j)) {
      InsertedEntry(mem, mem', owner, kentry, f, i, g, h, j);
    }
    forall h | h in owner' && owner'[h].Pml4? ensures At(mem', h, 511) == kentry {
      AtInserted(mem, mem', owner, f, i, g, h, 511);
    }
  }

  /** A walk that ran into nothing may now reach the fresh table, and no further. */
  ghost predicate OrFresh(x: Option<nat>, x': Option<nat>, g: nat) {
    x' == x || (x.None? && x' == Some(g))
  }

  lemma DownInserted(mem: seq<seq<byte>>, mem': seq<seq<byte>>, owner: map<nat, Owner>, f: nat, i: nat, g: nat,
                     x: Option<nat>, x': Option<nat>, j: nat, stop: bool)
    requires TableInserted(mem, mem', owner, f, i, g)
    requires OrFresh(x, x', g) && (x.Some? ==> x.value in owner)
    ensures OrFresh(Down(mem, x, j, stop), Down(mem', x', j, stop), g)
    ensures (x.Some? ==> x.value != f) ==> Down(mem', x', j, stop) == Down(mem, x, j, stop)
  {
    if x'.Some? {
      AtInserted(mem, mem', owner, f, i, g, x'.value, j);
    }
  }

  /** Inserting an empty table changes no translation in any address space. */
  lemma InsertKeepsLookups(mem: seq<seq<byte>>, mem': seq<seq<byte>>, owner: map<nat, Owner>, kentry: nat,
                           f: nat, i: nat, g: nat, r: nat, ix: Ix)
    requires TreeOk(mem, owner, kentry) && TableInserted(mem, mem', owner, f, i, g)
    requires IsRoot(owner, r) && WfIx(ix)
    ensures Lookup(mem', r, ix) == Lookup(mem, r, ix) && Leaf(mem', r, ix) == Leaf(mem, r, ix)
  {
    hide TreeOk, Down, At;
    WalkOwned(mem, owner, kentry, r, ix);
    DownInserted(mem, mem', owner, f, i, g, Some(r), Some(r), ix.i4, false);
    DownInserted(mem, mem', owner, f, i, g, PdptOf(mem, r, ix), PdptOf(mem', r, ix), ix.i3, false);
    DownInserted(mem, mem', owner, f, i, g, PdOf(mem, r, ix), PdOf(mem', r, ix), ix.i2, true);
    DownInserted(mem, mem', owner, f, i, g, PtOf(mem, r, ix), PtOf(mem', r, ix), ix.i1, false);
    if PtOf(mem', r, ix).Some? {
      AtInserted(mem, mem', owner, f, i, g, PtOf(mem', r, ix).value, ix.i1);
    }
  }

  // ---- writing an entry of a last-level table ----

  lemma DownElsewhere(mem: seq<seq<byte>>, f: nat, i: nat, e: nat, x: Option<nat>, j: nat, stop: bool)
    requires f < |mem| && |mem[f]| == 4096 && i < 512 && e < 0x1_0000_0000_0000_0000
    requires x.Some? ==> x.value != f || j != i
    ensures Down(WithEntryAt(mem, f, i, e), x, j, stop) == Down(mem, x, j, stop)
  {
    if x.Some? {
      AtAfterSet(mem, f, i, e, x.value, j);
    }
  }

  /** Storing entry e for page ix of root r: that page now translates to e's frame, every
      other page of every address space as before, except that the shared tree shows the
      new page in all of them. */
  lemma MapUpdatesOnePage(mem: seq<seq<byte>>, owner: map<nat, Owner>, kentry: nat, f: nat, r: nat, ix: Ix, e: nat,
                          r': nat, ix': Ix)
    requires TreeOk(mem, owner, kentry) && IsRoot(owner, r) && IsRoot(owner, r') && WfIx(ix) && WfIx(ix')
    requires PtOf(mem, r, ix) == Some(f) && f < |mem| && 0 < e < 0x1_0000_0000_0000_0000
    ensures |mem[f]| == 4096
    ensures var mem' := WithEntryAt(mem, f, ix.i1, e);
      Lookup(mem', r', ix') ==
        if ix' == ix && TreeOf(r', ix.i4) == TreeOf(r, ix.i4) && PtOf(mem, r', ix) == Some(f) then Some(e / 4096)
        else Lookup(mem, r', ix')
    ensures ix' == ix && r' == r ==> PtOf(mem, r', ix) == Some(f)
    ensures PtOf(WithEntryAt(mem, f, ix.i1, e), r', ix') == PtOf(mem, r', ix')
    ensures Leaf(WithEntryAt(mem, f, ix.i1, e), r', ix') ==
      if ix' == ix && TreeOf(r', ix.i4) == TreeOf(r, ix.i4) && PtOf(mem, r', ix) == Some(f) then e
      else Leaf(mem, r', ix')
  {
    hide TreeOk, At, SetEntry;
    WalkOwned(mem, owner, kentry, r, ix);
    WalkOwned(mem, owner, kentry, r', ix');
    OwnedFrame(mem, owner, kentry, f);
    DownElsewhere(mem, f, ix.i1, e, Some(r'), ix'.i4, false);
    DownElsewhere(mem, f, ix.i1, e, PdptOf(mem, r', ix'), ix'.i3, false);
    DownElsewhere(mem, f, ix.i1, e, PdOf(mem, r', ix'), ix'.i2, true);
    var t := PtOf(mem, r', ix');
    if t == Some(f) && ix'.i1 == ix.i1 {
      assert ix' == ix && TreeOf(r', ix.i4) == TreeOf(r, ix.i4);
      AtAfterSet(mem, f, ix.i1, e, f, ix.i1);
    } else {
      DownElsewhere(mem, f, ix.i1, e, t, ix'.i1, false);
      if t.Some? {
        AtAfterSet(mem, f, ix.i1, e, t.value, ix'.i1);
      }
    }
  }

  lemma LeafKeepsTree(mem: seq<seq<byte>>, owner: map<nat, Owner>, kentry: nat, f: nat, i: nat, e: nat)
    requires TreeOk(mem, owner, kentry) && f in owner && owner[f].Pt? && i < 512 && e % 2 == 1 && UserBit(e)
    requires e < 0x10_0000_0000_0000
    ensures f < |mem| && |mem[f]| == 4096
    ensures TreeOk(WithEntryAt(mem, f, i, e), owner, kentry)
  {
    var mem' := WithEntryAt(mem, f, i, e);
    forall h, j | h in owner && 0 <= j < 512 ensures EntryOk(owner, owner[h], j, At(mem', h, j)) {
      AtAfterSet(mem, f, i, e, h, j);
      assert EntryOk(owner, owner[h], j, At(mem, h, j));
    }
    forall h | h in owner && owner[h].Pml4? ensures At(mem', h, 511) == kentry {
      AtAfterSet(mem, f, i, e, h, 511);
    }
  }

  // ---- writing a page ----

  /** Bytes of a frame that is no table may change without touching any translation. */
  lemma DataKeepsTree(mem: seq<seq<byte>>, owner: map<nat, Owner>, kentry: nat, p: nat, d: seq<byte>)
    requires TreeOk(mem, owner, kentry) && p < |mem| && |d| == 4096
    requires p in owner ==> owner[p].Page?
    ensures TreeOk(mem[p := d], owner, kentry)
  {
    var mem' := mem[p := d];
    forall h, j | h in owner && 0 <= j < 512 ensures EntryOk(owner, owner[h], j, At(mem', h, j)) {
      assert h != p ==> At(mem', h, j) == At(mem, h, j);
    }
    forall h | h in owner && owner[h].Pml4? ensures At(mem', h, 511) == kentry {
      assert At(mem', h, 511) == At(mem, h, 511);
    }
  }

  lemma DataKeepsLookups(mem: seq<seq<byte>>, owner: map<nat, Owner>, kentry: nat, p: nat, d: seq<byte>, r: nat, ix: Ix)
    requires TreeOk(mem, owner, kentry) && p < |mem| && |d| == 4096
    requires p in owner ==> owner[p].Page?
    requires IsRoot(owner, r) && WfIx(ix)
    ensures Lookup(mem[p := d], r, ix) == Lookup(mem, r, ix) && Leaf(mem[p := d], r, ix) == Leaf(mem, r, ix)
  {
    WalkOwned(mem, owner, kentry, r, ix);
    var mem' := mem[p := d];
    assert At(mem', r, ix.i4) == At(mem, r, ix.i4);
    assert PdptOf(mem, r, ix).Some? ==>
      At(mem', PdptOf(mem, r, ix).value, ix.i3) == At(mem, PdptOf(mem, r, ix).value, ix.i3);
    assert PdOf(mem, r, ix).Some? ==> At(mem', PdOf(mem, r, ix).value, ix.i2) == At(mem, PdOf(mem, r, ix).value, ix.i2);
    assert PtOf(mem, r, ix).Some? ==> At(mem', PtOf(mem, r, ix).value, ix.i1) == At(mem, PtOf(mem, r, ix).value, ix.i1);
  }
}
