/** Physical memory under the frame allocator, with the page tables of all address spaces
    in it: looking pages up, mapping them, inserting tables on the way. */
module Paging {
  import opened Bytes
  import opened Pmm
  import opened PageTables
  import opened KernelTables

  lemma LeafBits(q: nat, w: nat)
    requires w < 2
    ensures (8 * q + 2 * w + 5) % 2 == 1 && (8 * q + 2 * w + 5) / 4 % 2 == 1
    ensures (8 * q + 2 * w + 5) / 2 % 2 == w && (8 * q + 2 * w + 5) / 8 == q
  {
    var r := 8 * q + 2 * w + 5;
    assert r / 2 == 4 * q + w + 2 && r / 4 == 2 * q + 1;
  }

  /** The low twelve bits of a leaf entry: the caller's flags, present and user; writable
      if the caller says so. */
  function LeafFlags(flags: nat): (r: nat)
    requires flags < 0x1000
    ensures r < 0x1000 && r % 2 == 1 && r / 4 % 2 == 1 && r / 2 % 2 == flags / 2 % 2 && r / 8 == flags / 8
  {
    LeafBits(flags / 8, flags / 2 % 2);
    8 * (flags / 8) + 2 * (flags / 2 % 2) + 5
  }

  /** The address behind a page, as the kernel's own lookup computes it. */
  function LookupPage(mem: seq<seq<byte>>, pml4: nat, vaddr: nat): Option<nat> {
    var f := Lookup(mem, pml4 / 4096, IxOf(vaddr));
    if f.None? then None else Some(f.value * 4096)
  }

  /** Where 4 KB pages are used, the processor's walk goes where the kernel's lookup says. */
  lemma WalkFollowsLookup(mem: seq<seq<byte>>, owner: map<nat, Owner>, kentry: nat, root: nat, v: nat)
    requires TreeOk(mem, owner, kentry) && IsRoot(owner, root) && Canonical(v) && NotHuge(mem, root, IxOf(v))
    ensures HwWalk(mem, root, v) ==
      if Lookup(mem, root, IxOf(v)).Some? then Some(Lookup(mem, root, IxOf(v)).value * 4096 + v % 4096) else None
  {
    hide At, IxOf;
    var ix := IxOf(v);
    WalkOwned(mem, owner, kentry, root, ix);
    EntryWalked(mem, owner, kentry, Some(root), Pml4(root), ix.i4);
    EntryWalked(mem, owner, kentry, PdptOf(mem, root, ix), Pdpt(TreeOf(root, ix.i4), ix.i4), ix.i3);
    EntryWalked(mem, owner, kentry, PdOf(mem, root, ix), Pd(TreeOf(root, ix.i4), ix.i4, ix.i3), ix.i2);
    EntryWalked(mem, owner, kentry, PtOf(mem, root, ix), Pt(TreeOf(root, ix.i4), ix.i4, ix.i3, ix.i2), ix.i1);
  }

  /** One step of the processor's walk in an owned table that holds no 2 MB page there. */
  lemma EntryWalked(mem: seq<seq<byte>>, owner: map<nat, Owner>, kentry: nat, f: Option<nat>, o: Owner, i: nat)
    requires TreeOk(mem, owner, kentry) && Owned(owner, f, o) && i < 512 && !o.Page?
    requires o.Pd? && f.Some? ==> !IsHuge(At(mem, f.value, i))
    ensures f.Some? ==>
      var e := At(mem, f.value, i);
      && (Present(e) <==> e != 0) && FrameOf(e) == e / 4096 && (o.Pdpt? ==> !IsHuge(e)) && (e != 0 ==> UserBit(e))
      && Down(mem, f, i, o.Pd?) == if e == 0 then None else Some(e / 4096)
  {
    hide At;
    if f.Some? {
      assert EntryOk(owner, o, i, At(mem, f.value, i));
      if At(mem, f.value, i) != 0 {
        EntryFrame(At(mem, f.value, i));
      }
    }
  }

  /** In user mode the pages of an address space can be read, mapped or not as the lookup
      says. */
  lemma UserReadsPages(mem: seq<seq<byte>>, owner: map<nat, Owner>, kentry: nat, root: nat, v: nat)
    requires TreeOk(mem, owner, kentry) && IsRoot(owner, root) && Canonical(v) && NotHuge(mem, root, IxOf(v))
    ensures UserWalk(mem, root, v, false) ==
      if Lookup(mem, root, IxOf(v)).Some? then Some(Lookup(mem, root, IxOf(v)).value * 4096 + v % 4096) else None
  {
    hide At, IxOf;
    var ix := IxOf(v);
    WalkOwned(mem, owner, kentry, root, ix);
    WalkFollowsLookup(mem, owner, kentry, root, v);
    EntryWalked(mem, owner, kentry, Some(root), Pml4(root), ix.i4);
    EntryWalked(mem, owner, kentry, PdptOf(mem, root, ix), Pdpt(TreeOf(root, ix.i4), ix.i4), ix.i3);
    EntryWalked(mem, owner, kentry, PdOf(mem, root, ix), Pd(TreeOf(root, ix.i4), ix.i4, ix.i3), ix.i2);
    EntryWalked(mem, owner, kentry, PtOf(mem, root, ix), Pt(TreeOf(root, ix.i4), ix.i4, ix.i3, ix.i2), ix.i1);
  }

  /** Written they can be if and only if their own entry says so. */
  lemma UserWritesPages(mem: seq<seq<byte>>, owner: map<nat, Owner>, kentry: nat, root: nat, v: nat)
    requires TreeOk(mem, owner, kentry) && IsRoot(owner, root) && Canonical(v) && NotHuge(mem, root, IxOf(v))
    ensures UserWalk(mem, root, v, true) ==
      if Lookup(mem, root, IxOf(v)).Some? && WriteBit(Leaf(mem, root, IxOf(v)))
      then Some(Lookup(mem, root, IxOf(v)).value * 4096 + v % 4096) else None
  {
    hide At, IxOf, TreeOk;
    var ix := IxOf(v);
    UserReadsPages(mem, owner, kentry, root, v);
    WriteNeedsRead(mem, root, v);
    if Lookup(mem, root, ix).Some? {
      LeafDecidesRights(mem, owner, kentry, root, ix);
      WalkOwned(mem, owner, kentry, root, ix);
      var pdpt, pd := PdptOf(mem, root, ix).value, PdOf(mem, root, ix).value;
      TableAllows(At(mem, root, ix.i4));
      TableAllows(At(mem, pdpt, ix.i3));
      TableAllows(At(mem, pd, ix.i2));
      EntryWalked(mem, owner, kentry, Some(root), Pml4(root), ix.i4);
      EntryWalked(mem, owner, kentry, Some(pdpt), Pdpt(TreeOf(root, ix.i4), ix.i4), ix.i3);
      EntryWalked(mem, owner, kentry, Some(pd), Pd(TreeOf(root, ix.i4), ix.i4, ix.i3), ix.i2);
      EntryWalked(mem, owner, kentry, PtOf(mem, root, ix), Pt(TreeOf(root, ix.i4), ix.i4, ix.i3, ix.i2), ix.i1);
    }
  }

  lemma TableAllows(e: nat)
    requires e % 4096 == 7
    ensures Allows(e, true, true)
  {
    TableBits(e / 4096);
  }

  lemma WriteNeedsRead(mem: seq<seq<byte>>, root: nat, v: nat)
    ensures UserWalk(mem, root, v, true).Some? ==> UserWalk(mem, root, v, false) == UserWalk(mem, root, v, true)
  {
    hide HwWalk, At, IxOf, FrameOf, Present, UserBit, IsHuge;
  }

  /** Outside the shared top slot user mode reaches nothing but 4 KB pages. */
  lemma UserReachesPages(mem: seq<seq<byte>>, owner: map<nat, Owner>, kentry: nat, root: nat, v: nat, write: bool)
    requires TreeOk(mem, owner, kentry) && IsRoot(owner, root) && IxOf(v).i4 != 511
    requires UserWalk(mem, root, v, write).Some?
    ensures Lookup(mem, root, IxOf(v)).Some? && NotHuge(mem, root, IxOf(v))
    ensures UserWalk(mem, root, v, write) == Some(Lookup(mem, root, IxOf(v)).value * 4096 + v % 4096)
  {
    hide At, IxOf;
    var ix := IxOf(v);
    WalkOwned(mem, owner, kentry, root, ix);
    EntryWalked(mem, owner, kentry, Some(root), Pml4(root), ix.i4);
    EntryWalked(mem, owner, kentry, PdptOf(mem, root, ix), Pdpt(root, ix.i4), ix.i3);
    var pd := PdOf(mem, root, ix).value;
    assert EntryOk(owner, owner[pd], ix.i2, At(mem, pd, ix.i2));
    EntryWalked(mem, owner, kentry, PdOf(mem, root, ix), Pd(root, ix.i4, ix.i3), ix.i2);
    EntryWalked(mem, owner, kentry, PtOf(mem, root, ix), Pt(root, ix.i4, ix.i3, ix.i2), ix.i1);
    WalkFollowsLookup(mem, owner, kentry, root, v);
  }

  /** On the way to a 4 KB page every table entry allows writing and user access, so the
      rights to the page are those of its own entry. */
  lemma LeafDecidesRights(mem: seq<seq<byte>>, owner: map<nat, Owner>, kentry: nat, root: nat, ix: Ix)
    requires TreeOk(mem, owner, kentry) && IsRoot(owner, root) && WfIx(ix) && Lookup(mem, root, ix).Some?
    ensures At(mem, root, ix.i4) % 4096 == 7 && At(mem, PdptOf(mem, root, ix).value, ix.i3) % 4096 == 7
    ensures At(mem, PdOf(mem, root, ix).value, ix.i2) % 4096 == 7
  {
    hide At;
    WalkOwned(mem, owner, kentry, root, ix);
    var pdpt, pd := PdptOf(mem, root, ix).value, PdOf(mem, root, ix).value;
    assert EntryOk(owner, owner[root], ix.i4, At(mem, root, ix.i4));
    assert EntryOk(owner, owner[pdpt], ix.i3, At(mem, pdpt, ix.i3));
    assert EntryOk(owner, owner[pd], ix.i2, At(mem, pd, ix.i2));
  }

  lemma TableBits(q: nat)
    ensures var e := 4096 * q + TABLE_FLAGS;
      Present(e) && !IsHuge(e) && UserBit(e) && e / 2 % 2 == 1
  {
    hide IsHuge;
    LinkTarget(q);
    FlagBits(q, TABLE_FLAGS);
    assert (4096 * q + TABLE_FLAGS) / 2 == 2 * (1024 * q) + 3;
    EvenPlus(1024 * q, 3);
  }

  lemma SmallFrame(e: nat)
    requires e < 0x10_0000_0000_0000
    ensures FrameOf(e) == e / 4096
  {
    assert e / 4096 < 0x100_0000_0000;
  }

  lemma EntryFrame(e: nat)
    requires e < 0x10_0000_0000_0000
    ensures FrameOf(e) == e / 4096
    ensures e % 4096 == TABLE_FLAGS ==> Present(e) && !IsHuge(e) && UserBit(e) && e / 2 % 2 == 1
  {
    hide IsHuge, UserBit, Present, FrameOf;
    SmallFrame(e);
    TableBits(e / 4096);
  }

  // ---- what mapping and allocation may change ----

  /** From (mem, owner, free) to (mem', owner', free') only free frames were taken into
      use: no translation or right and no frame in use that is not a table has changed. */
  ghost predicate Kept(mem: seq<seq<byte>>, owner: map<nat, Owner>, free: set<nat>,
                       mem': seq<seq<byte>>, owner': map<nat, Owner>, free': set<nat>) {
    && FramesKept(mem, owner, free, mem', owner', free')
    && (forall r, ix {:trigger Lookup(mem', r, ix)} {:trigger Leaf(mem', r, ix)} :: IsRoot(owner, r) && WfIx(ix) ==>
          Lookup(mem', r, ix) == Lookup(mem, r, ix) && Leaf(mem', r, ix) == Leaf(mem, r, ix))
  }

  ghost predicate FramesKept(mem: seq<seq<byte>>, owner: map<nat, Owner>, free: set<nat>,
                             mem': seq<seq<byte>>, owner': map<nat, Owner>, free': set<nat>) {
    && |mem'| == |mem| && free' <= free
    && (forall f {:trigger f in owner'} :: f in owner ==> f in owner' && owner'[f] == owner[f])
    && (forall f {:trigger f in owner'} :: f in owner' && f !in owner ==> f in free)
    && (forall p {:trigger mem'[p]} ::
          0 <= p < |mem| && p !in free && (p in owner ==> owner[p].Page?) ==> mem'[p] == mem[p])
    && LinksKept(mem, owner, mem')
  }

  /** No used entry of an upper-level table has changed. */
  ghost predicate LinksKept(mem: seq<seq<byte>>, owner: map<nat, Owner>, mem': seq<seq<byte>>) {
    forall f: nat, i: nat {:trigger At(mem', f, i)} ::
      f in owner && !owner[f].Page? && !owner[f].Pt? && At(mem, f, i) != 0 ==> At(mem', f, i) == At(mem, f, i)
  }

  lemma LinksTrans(m1: seq<seq<byte>>, o1: map<nat, Owner>, m2: seq<seq<byte>>, o2: map<nat, Owner>, m3: seq<seq<byte>>)
    requires LinksKept(m1, o1, m2) && LinksKept(m2, o2, m3)
    requires forall f {:trigger f in o2} :: f in o1 ==> f in o2 && o2[f] == o1[f]
    ensures LinksKept(m1, o1, m3)
  {
    hide At;
    forall f: nat, i: nat | f in o1 && !o1[f].Page? && !o1[f].Pt? && At(m1, f, i) != 0
      ensures At(m3, f, i) == At(m1, f, i)
    {
      assert f in o2;
      assert At(m2, f, i) == At(m1, f, i);
    }
  }

  /** The walk of v ends at a 2 MB page. */
  ghost predicate EndsHuge(mem: seq<seq<byte>>, root: nat, v: nat) {
    && PdOf(mem, root, IxOf(v)).Some?
    && Present(At(mem, PdOf(mem, root, IxOf(v)).value, IxOf(v).i2))
    && IsHuge(At(mem, PdOf(mem, root, IxOf(v)).value, IxOf(v).i2))
  }

  /** Where the processor finds a 2 MB page it keeps finding it. */
  lemma HugeWalkKept(mem: seq<seq<byte>>, owner: map<nat, Owner>, kentry: nat, mem': seq<seq<byte>>, root: nat, v: nat)
    requires TreeOk(mem, owner, kentry) && IsRoot(owner, root) && LinksKept(mem, owner, mem') && Canonical(v)
    requires EndsHuge(mem, root, v)
    ensures EndsHuge(mem', root, v) && HwWalk(mem', root, v) == HwWalk(mem, root, v)
    ensures forall user, write :: Access(mem', root, v, user, write) == Access(mem, root, v, user, write)
    ensures HugeFrame(mem', root, IxOf(v)) == HugeFrame(mem, root, IxOf(v))
  {
    hide At, IxOf;
    var ix := IxOf(v);
    assert EntryOk(owner, owner[root], ix.i4, At(mem, root, ix.i4));
    assert At(mem', root, ix.i4) == At(mem, root, ix.i4);
    WalkKept(mem, owner, kentry, mem', root, TreeOf(root, ix.i4), v);
  }

  /** The same from any top-level table whose entry for v leads into an owned tree. */
  lemma WalkKept(mem: seq<seq<byte>>, owner: map<nat, Owner>, kentry: nat, mem': seq<seq<byte>>, root: nat, t: int,
                 v: nat)
    requires TreeOk(mem, owner, kentry) && LinksKept(mem, owner, mem') && Canonical(v) && EndsHuge(mem, root, v)
    requires At(mem', root, IxOf(v).i4) == At(mem, root, IxOf(v).i4)
    requires PointsTo(owner, At(mem, root, IxOf(v).i4), Pdpt(t, IxOf(v).i4))
    ensures EndsHuge(mem', root, v) && HwWalk(mem', root, v) == HwWalk(mem, root, v)
    ensures forall user, write :: Access(mem', root, v, user, write) == Access(mem, root, v, user, write)
    ensures HugeFrame(mem', root, IxOf(v)) == HugeFrame(mem, root, IxOf(v))
  {
    hide At, IxOf, TreeOk;
    var ix := IxOf(v);
    var pdpt, pd := PdptOf(mem, root, ix).value, PdOf(mem, root, ix).value;
    EntryFrame(At(mem, root, ix.i4));
    DownOwned(mem, owner, kentry, Some(pdpt), Pdpt(t, ix.i4), ix.i3);
    EntryWalked(mem, owner, kentry, Some(pdpt), Pdpt(t, ix.i4), ix.i3);
    assert At(mem', pdpt, ix.i3) == At(mem, pdpt, ix.i3);
    assert At(mem', pd, ix.i2) == At(mem, pd, ix.i2);
  }

  // ---- the kernel's part of every address space ----

  /** Addresses below the top slot translate as under the kernel's own tables. */
  ghost predicate TopShared(mem: seq<seq<byte>>, root: nat, kroot: nat) {
    forall v: nat {:trigger HwWalk(mem, root, v)} :: IxOf(v).i4 == 511 ==> HwWalk(mem, root, v) == HwWalk(mem, kroot, v)
  }

  /** Every physical address below 2 GB is found at its kernel alias: by the kernel, and, as
      the entries on the way are set, by a store in user mode too. */
  ghost predicate AliasAt(mem: seq<seq<byte>>, root: nat) {
    forall p: nat {:trigger PhysToVirt(p)} :: p < 0x8000_0000 ==>
      EndsHuge(mem, root, PhysToVirt(p)) && UserWalk(mem, root, PhysToVirt(p), true) == Some(p)
  }

  /** All address spaces share the kernel's top slot, and with it the alias. */
  lemma SpacesShareTop(mem: seq<seq<byte>>, owner: map<nat, Owner>, kentry: nat, root: nat, kroot: nat)
    requires TreeOk(mem, owner, kentry) && IsRoot(owner, root) && At(mem, kroot, 511) == kentry
    ensures TopShared(mem, root, kroot)
    ensures AliasAt(mem, kroot) ==> AliasAt(mem, root)
  {
    hide At, IxOf, Access, HwWalk, EndsHuge, PhysToVirt;
    assert At(mem, root, 511) == At(mem, kroot, 511);
    forall v: nat | IxOf(v).i4 == 511 ensures HwWalk(mem, root, v) == HwWalk(mem, kroot, v) {
      SameTop(mem, root, kroot, v);
    }
    if AliasAt(mem, kroot) {
      forall p: nat | p < 0x8000_0000
        ensures EndsHuge(mem, root, PhysToVirt(p)) && UserWalk(mem, root, PhysToVirt(p), true) == Some(p)
      {
        HighIndices(p);
        SameTop(mem, root, kroot, PhysToVirt(p));
      }
    }
  }

  lemma SameTop(mem: seq<seq<byte>>, root: nat, kroot: nat, v: nat)
    requires At(mem, root, 511) == At(mem, kroot, 511) && IxOf(v).i4 == 511
    ensures HwWalk(mem, root, v) == HwWalk(mem, kroot, v) && EndsHuge(mem, root, v) == EndsHuge(mem, kroot, v)
    ensures forall user, write :: Access(mem, root, v, user, write) == Access(mem, kroot, v, user, write)
  {
    hide At, IxOf, FrameOf, Present, IsHuge, UserBit, WriteBit;
  }

  /** The alias stays as long as used links do. */
  lemma AliasKept(mem: seq<seq<byte>>, owner: map<nat, Owner>, kentry: nat, mem': seq<seq<byte>>, kroot: nat)
    requires TreeOk(mem, owner, kentry) && PointsTo(owner, kentry, Pdpt(SHARED, 511)) && LinksKept(mem, owner, mem')
    requires At(mem, kroot, 511) == kentry == At(mem', kroot, 511) && AliasAt(mem, kroot)
    ensures AliasAt(mem', kroot)
  {
    hide At, IxOf, TreeOk, LinksKept, EndsHuge, Access;
    forall p: nat | p < 0x8000_0000
      ensures EndsHuge(mem', kroot, PhysToVirt(p)) && UserWalk(mem', kroot, PhysToVirt(p), true) == Some(p)
    {
      HighIndices(p);
      WalkKept(mem, owner, kentry, mem', kroot, SHARED, PhysToVirt(p));
    }
  }

  /** From mem to mem' the kernel's part of every address space, of `root` in particular,
      stayed the same. */
  ghost predicate KernelKept(mem: seq<seq<byte>>, mem': seq<seq<byte>>, root: nat, kroot: nat) {
    && TopShared(mem', root, kroot)
    && (AliasAt(mem, kroot) ==> AliasAt(mem', kroot) && AliasAt(mem', root))
  }

  lemma KernelPartKept(mem: seq<seq<byte>>, owner: map<nat, Owner>, kentry: nat, mem': seq<seq<byte>>,
                       owner': map<nat, Owner>, root: nat, kroot: nat)
    requires TreeOk(mem, owner, kentry) && PointsTo(owner, kentry, Pdpt(SHARED, 511)) && LinksKept(mem, owner, mem')
    requires At(mem, kroot, 511) == kentry == At(mem', kroot, 511)
    requires TreeOk(mem', owner', kentry) && IsRoot(owner', root)
    ensures KernelKept(mem, mem', root, kroot)
  {
    hide At, TreeOk, LinksKept, AliasAt, TopShared;
    if AliasAt(mem, kroot) {
      AliasKept(mem, owner, kentry, mem', kroot);
    }
    SpacesShareTop(mem', owner', kentry, root, kroot);
  }

  /** Boot makes the alias. */
  lemma AliasBuilt(mem: seq<seq<byte>>, k: Kernel)
    requires k.Wf(|mem|) && Built(mem, k)
    ensures AliasAt(mem, k.pml4)
  {
    hide Built, IxOf, At, EndsHuge, UserWalk, HwWalk;
    forall p: nat | p < 0x8000_0000
      ensures EndsHuge(mem, k.pml4, PhysToVirt(p)) && UserWalk(mem, k.pml4, PhysToVirt(p), true) == Some(p)
    {
      AliasBelow2G(mem, k, p);
      AliasHuge(mem, k, p);
    }
  }

  lemma DirectoryRights(i: nat, j: nat)
    requires i < 4 && j < 512
    ensures Allows(PdEntry(i, j), true, true)
  {
    var q := i * 0x4_0000 + j * 512;
    assert PdEntry(i, j) == 4096 * q + HUGE_FLAGS;
    assert PdEntry(i, j) / 2 == 2048 * q + 67 && PdEntry(i, j) / 4 == 1024 * q + 33;
  }

  /** A walk by way of the tables t and d to a 2 MB page. */
  lemma HugeReached(mem: seq<seq<byte>>, root: nat, v: nat, t: nat, d: nat)
    requires t < 0x100_0000_0000 && d < 0x100_0000_0000 && HwWalk(mem, root, v).Some?
    requires At(mem, root, IxOf(v).i4) == t * 4096 + TABLE_FLAGS && At(mem, t, IxOf(v).i3) == d * 4096 + TABLE_FLAGS
    requires Allows(At(mem, d, IxOf(v).i2), true, true) && IsHuge(At(mem, d, IxOf(v).i2))
    ensures EndsHuge(mem, root, v) && UserWalk(mem, root, v, true).Some?
  {
    hide At, IxOf;
    TableFrame(t);
    TableFrame(d);
    EntryFrame(t * 4096 + TABLE_FLAGS);
    EntryFrame(d * 4096 + TABLE_FLAGS);
  }

  lemma AliasHuge(mem: seq<seq<byte>>, k: Kernel, p: nat)
    requires k.Wf(|mem|) && Built(mem, k) && p < 0x8000_0000
    ensures EndsHuge(mem, k.pml4, PhysToVirt(p)) && UserWalk(mem, k.pml4, PhysToVirt(p), true).Some?
  {
    hide At, IxOf, PdEntry, UserWalk, HwWalk, EndsHuge, IsHuge, Allows, PhysToVirt;
    HighIndices(p);
    AliasBelow2G(mem, k, p);
    var i, j := p / 0x4000_0000, p / 0x20_0000 % 512;
    DirectoryFrame(i, j);
    DirectoryRights(i, j);
    assert At(mem, k.pml4, 511) == k.high * 4096 + TABLE_FLAGS;
    assert At(mem, k.high, 510 + i) == k.Pd(i) * 4096 + TABLE_FLAGS;
    assert At(mem, k.Pd(i), j) == PdEntry(i, j);
    HugeReached(mem, k.pml4, PhysToVirt(p), k.high, k.Pd(i));
  }

  /** No address space was created. */
  ghost predicate NoNewRoots(owner: map<nat, Owner>, owner': map<nat, Owner>) {
    forall f {:trigger f in owner'} :: f in owner' && owner'[f].Pml4? ==> f in owner
  }

  lemma KeptRefl(mem: seq<seq<byte>>, owner: map<nat, Owner>, free: set<nat>)
    ensures Kept(mem, owner, free, mem, owner, free)
  {
  }

  lemma KeptTrans(m1: seq<seq<byte>>, o1: map<nat, Owner>, f1: set<nat>,
                  m2: seq<seq<byte>>, o2: map<nat, Owner>, f2: set<nat>,
                  m3: seq<seq<byte>>, o3: map<nat, Owner>, f3: set<nat>)
    requires Kept(m1, o1, f1, m2, o2, f2) && Kept(m2, o2, f2, m3, o3, f3)
    ensures Kept(m1, o1, f1, m3, o3, f3)
  {
    hide At, Lookup, Leaf, LinksKept;
    LinksTrans(m1, o1, m2, o2, m3);
    forall f | f in o1 ensures f in o3 && o3[f] == o1[f] {
      assert f in o2;
    }
    forall f | f in o3 && f !in o1 ensures f in f1 {
      if f in o2 {
      }
    }
    forall p | 0 <= p < |m1| && p !in f1 && (p in o1 ==> o1[p].Page?) ensures m3[p] == m1[p] {
      assert m2[p] == m1[p];
      assert p in o2 ==> p in o1;
    }
    forall r, ix | IsRoot(o1, r) && WfIx(ix)
      ensures Lookup(m3, r, ix) == Lookup(m1, r, ix) && Leaf(m3, r, ix) == Leaf(m1, r, ix)
    {
      assert r in o2;
      assert Lookup(m2, r, ix) == Lookup(m1, r, ix);
    }
  }

  lemma InsertKept(mem: seq<seq<byte>>, mem': seq<seq<byte>>, owner: map<nat, Owner>, kentry: nat, free: set<nat>,
                   f: nat, i: nat, g: nat)
    requires TreeOk(mem, owner, kentry) && TableInserted(mem, mem', owner, f, i, g) && g in free
    ensures Kept(mem, owner, free, mem', owner[g := Child(owner[f], i)], free - {g})
  {
    hide At, Lookup, Leaf, TreeOk;
    forall h: nat, j: nat | h in owner && At(mem, h, j) != 0 ensures At(mem', h, j) == At(mem, h, j) {
      AtInserted(mem, mem', owner, f, i, g, h, j);
    }
    forall r, ix | IsRoot(owner, r) && WfIx(ix)
      ensures Lookup(mem', r, ix) == Lookup(mem, r, ix) && Leaf(mem', r, ix) == Leaf(mem, r, ix)
    {
      InsertKeepsLookups(mem, mem', owner, kentry, f, i, g, r, ix);
    }
  }

  /** Below slot 511 all address spaces walk the same tables. */
  lemma SharedWalk(mem: seq<seq<byte>>, owner: map<nat, Owner>, kentry: nat, r: nat, r': nat, ix: Ix)
    requires TreeOk(mem, owner, kentry) && IsRoot(owner, r) && IsRoot(owner, r') && ix.i4 == 511
    ensures PtOf(mem, r', ix) == PtOf(mem, r, ix)
  {
  }

  /** Who owns the static tables that all address spaces share. */
  ghost function KernelOwners(k: Kernel): map<nat, Owner> {
    map[k.high := Pdpt(SHARED, 511), k.pd0 := Pd(SHARED, 511, 510), k.pd1 := Pd(SHARED, 511, 511),
        k.pd2 := Pd(SHARED, 511, 508), k.pd3 := Pd(SHARED, 511, 509)]
  }

  lemma KernelTableEntry(mem: seq<seq<byte>>, k: Kernel, f: nat, j: nat)
    requires k.Wf(|mem|) && Built(mem, k) && f in KernelOwners(k) && j < 512
    ensures EntryOk(KernelOwners(k), KernelOwners(k)[f], j, At(mem, f, j))
  {
    hide At;
    assert k.Pd(0) == k.pd0 && k.Pd(1) == k.pd1 && k.Pd(2) == k.pd2 && k.Pd(3) == k.pd3;
    if f == k.high {
      assert At(mem, f, j) == HighEntry(k, 4, j);
    } else {
      var i := if f == k.pd0 then 0 else if f == k.pd1 then 1 else if f == k.pd2 then 2 else 3;
      assert At(mem, k.Pd(i), j) == PdEntry(i, j);
      DirectoryFrame(i, j);
    }
  }

  lemma KernelTree(mem: seq<seq<byte>>, k: Kernel)
    requires WfMem(mem) && k.Wf(|mem|) && Built(mem, k)
    ensures TreeOk(mem, KernelOwners(k), k.high * 4096 + TABLE_FLAGS)
    ensures k.pml4 !in KernelOwners(k) && At(mem, k.pml4, 511) == k.high * 4096 + TABLE_FLAGS
    ensures PointsTo(KernelOwners(k), k.high * 4096 + TABLE_FLAGS, Pdpt(SHARED, 511))
    ensures forall f {:trigger f in KernelOwners(k)} :: f in KernelOwners(k) ==> f == k.high || k.IsPd(f)
  {
    hide At, EntryOk;
    assert At(mem, k.pml4, 511) == RootEntry(k, 511);
    assert k.Pd(0) == k.pd0 && k.Pd(1) == k.pd1 && k.Pd(2) == k.pd2 && k.Pd(3) == k.pd3;
    forall f, j | f in KernelOwners(k) && 0 <= j < 512
      ensures EntryOk(KernelOwners(k), KernelOwners(k)[f], j, At(mem, f, j))
    {
      KernelTableEntry(mem, k, f, j);
    }
  }

  /** Entry i of table f is linked to table g, and an existing link was left alone. */
  ghost predicate TableEnsured(mem: seq<seq<byte>>, owner: map<nat, Owner>, mem': seq<seq<byte>>,
                               owner': map<nat, Owner>, f: nat, i: nat, g: nat) {
    && f in owner && !owner[f].Page?
    && g in owner' && owner'[g] == Child(owner[f], i) && Down(mem', Some(f), i, owner[f].Pd?) == Some(g)
    && (forall h: nat, j: nat {:trigger At(mem', h, j)} ::
          h in owner && (h != f || j != i) ==> At(mem', h, j) == At(mem, h, j))
    && (if g in owner then mem' == mem
        else Down(mem, Some(f), i, owner[f].Pd?).None? && forall j: nat :: At(mem', g, j) == 0)
  }

  /** Physical memory, its allocator, and who owns which frame. */
  class Machine {
    var mem: seq<seq<byte>>
    const pmm: Allocator
    const kernel: Kernel
    ghost var owner: map<nat, Owner>
    ghost var kentry: nat

    ghost predicate Valid()
      reads this, pmm, pmm.bitmap
    {
      && pmm.Valid() && 262144 <= |mem| && TreeOk(mem, owner, kentry)
      && (forall f {:trigger f in owner} :: f in owner ==> f !in pmm.Free())
      && kernel.pml4 < |mem| && kernel.pml4 !in owner && kernel.pml4 !in pmm.Free()
      && At(mem, kernel.pml4, 511) == kentry && PointsTo(owner, kentry, Pdpt(SHARED, 511))
    }

    ghost function Free(): set<nat>
      requires pmm.bitmap.Length == BITMAP_BYTES
      reads this, pmm, pmm.bitmap
    {
      pmm.Free()
    }

    /** Boot: builds the kernel tables in their zero-initialised frames. */
    constructor (m: seq<seq<byte>>, a: Allocator, k: Kernel)
      requires a.Valid() && WfMem(m) && 262144 <= |m| && k.Wf(|m|)
      requires AllZeroTable(m, k.pml4) && AllZeroTable(m, k.low) && AllZeroTable(m, k.high)
      requires k.pml4 !in a.Free() && k.high !in a.Free() && forall i :: 0 <= i < 4 ==> k.Pd(i) !in a.Free()
      ensures Valid() && pmm == a && kernel == k && Built(mem, k)
      ensures owner == KernelOwners(k) && |mem| == |m| && AliasAt(mem, k.pml4)
    {
      hide TreeOk, At, KernelOwners, PointsTo, Built, AllZeroTable, FreeSet, Linking, AliasAt;
      pmm := a;
      kernel := k;
      owner := KernelOwners(k);
      kentry := k.high * 4096 + TABLE_FLAGS;
      var built := BuildTables(m, k);
      mem := built;
      KernelTree(built, k);
      AliasBuilt(built, k);
      assert k.Pd(0) == k.pd0 && k.Pd(1) == k.pd1 && k.Pd(2) == k.pd2 && k.Pd(3) == k.pd3;
    }

    /** Follows entry i of table f, hanging a zeroed table below it if it is empty; a 2 MB
        page is followed as if it were a table. None stands for the panic on exhausted
        memory. */
    method EnsureTable(f: nat, i: nat) returns (r: Option<nat>)
      requires Valid() && f in owner && i < 512 && (owner[f].Pml4? || owner[f].Pdpt? || owner[f].Pd?)
      modifies this`mem, this`owner, pmm`freeCount, pmm.bitmap
      ensures Valid() && NoNewRoots(old(owner), owner)
      ensures Kept(old(mem), old(owner), old(Free()), mem, owner, Free())
      ensures r.Some? && !(old(owner)[f].Pd? && IsHuge(At(old(mem), f, i))) ==>
        TableEnsured(old(mem), old(owner), mem, owner, f, i, r.value)
      ensures At(old(mem), f, i) != 0 ==>
        r == Some(At(old(mem), f, i) / 4096) && mem == old(mem) && owner == old(owner) && Free() == old(Free())
      ensures r.None? ==> mem == old(mem) && owner == old(owner) && Free() == {} == old(Free())
    {
      KeptRefl(mem, owner, Free());
      if At(mem, f, i) == 0 {
        r := AddTable(f, i);
      } else {
        assert EntryOk(owner, owner[f], i, At(mem, f, i));
        r := Some(At(mem, f, i) / 4096);
      }
    }

    /** Allocates a frame, zeroes it and links it into the empty entry i of table f. */
    method AddTable(f: nat, i: nat) returns (r: Option<nat>)
      requires Valid() && f in owner && i < 512 && At(mem, f, i) == 0
      requires owner[f].Pml4? || owner[f].Pdpt? || owner[f].Pd?
      modifies this`mem, this`owner, pmm`freeCount, pmm.bitmap
      ensures Valid() && NoNewRoots(old(owner), owner)
      ensures Kept(old(mem), old(owner), old(Free()), mem, owner, Free())
      ensures r.Some? ==> TableEnsured(old(mem), old(owner), mem, owner, f, i, r.value)
      ensures r.None? ==> mem == old(mem) && owner == old(owner) && Free() == {} == old(Free())
    {
      hide TreeOk, At, Entry, SetEntry, FreeSet;
      KeptRefl(mem, owner, Free());
      var phys := pmm.AllocPage();
      if phys.None? {
        return None;
      }
      var g := phys.value / 4096;
      OwnedFrame(mem, owner, kentry, f);
      ghost var before := mem;
      mem := mem[g := Zeros(4096)];
      mem := WithEntryAt(mem, f, i, phys.value + TABLE_FLAGS);
      TableLinked(before, mem, owner, kentry, old(Free()), f, i, g, kernel.pml4);
      owner := owner[g := Child(owner[f], i)];
      r := Some(g);
    }

    /** Walks to the last-level table of page ix, creating up to three tables; through a
        2 MB page, the walk ends at the first frame of that page. */
    method EnsurePt(root: nat, ix: Ix) returns (r: Option<nat>)
      requires Valid() && IsRoot(owner, root) && WfIx(ix)
      modifies this`mem, this`owner, pmm`freeCount, pmm.bitmap
      ensures Valid() && NoNewRoots(old(owner), owner)
      ensures Kept(old(mem), old(owner), old(Free()), mem, owner, Free())
      ensures r.Some? && NotHuge(old(mem), root, ix) ==>
        && PtOf(mem, root, ix) == Some(r.value)
        && r.value in owner && owner[r.value] == Pt(TreeOf(root, ix.i4), ix.i4, ix.i3, ix.i2)
      ensures r.None? ==> Free() == {} && NotHuge(mem, root, ix)
      ensures !NotHuge(old(mem), root, ix) ==>
        r == Some(HugeFrame(old(mem), root, ix)) && mem == old(mem) && owner == old(owner) && Free() == old(Free())
    {
      hide TreeOk, At, FreeSet;
      ghost var m0, o0, f0 := mem, owner, Free();
      if !NotHuge(m0, root, ix) {
        HugePath(m0, owner, kentry, root, ix);
      }
      var pdpt := EnsureTable(root, ix.i4);
      if pdpt.None? {
        return None;
      }
      ghost var m1, o1, f1 := mem, owner, Free();
      var pd := EnsureTable(pdpt.value, ix.i3);
      KeptTrans(m0, o0, f0, m1, o1, f1, mem, owner, Free());
      if pd.None? {
        OpenBelowPdpt(m0, o0, m1, o1, root, ix, pdpt.value);
        return None;
      }
      ghost var m2, o2, f2 := mem, owner, Free();
      if NotHuge(m0, root, ix) {
        StillNotHuge(m0, o0, m1, o1, m2, o2, root, ix, pdpt.value, pd.value);
      }
      r := EnsureTable(pd.value, ix.i2);
      KeptTrans(m0, o0, f0, m2, o2, f2, mem, owner, Free());
      if r.Some? && NotHuge(m0, root, ix) {
        ReachedPt(m0, o0, m1, o1, m2, o2, mem, owner, root, ix, pdpt.value, pd.value, r.value);
      }
    }

    /** Maps the page of `vaddr` to `paddr`. Where no 2 MB page is in the way this is a
        finite-map update on the translations of all address spaces; false stands for the
        panic on exhausted memory. At a 2 MB page the entry goes into the first frame of
        that page instead, whatever the frame is used for. */
    method MapUserPage(pml4: nat, vaddr: nat, paddr: nat, flags: nat) returns (ok: bool)
      requires Valid() && IsRoot(owner, pml4 / 4096)
      requires paddr % 4096 == 0 && paddr < 0x10_0000_0000_0000 && flags < 0x1000
      modifies this`mem, this`owner, pmm`freeCount, pmm.bitmap
      ensures NotHuge(old(mem), pml4 / 4096, IxOf(vaddr)) ==> Valid() && NoNewRoots(old(owner), owner)
      ensures ok && NotHuge(old(mem), pml4 / 4096, IxOf(vaddr)) ==>
        && FramesKept(old(mem), old(owner), old(Free()), mem, owner, Free())
        && PageMapped(old(mem), old(owner), mem, pml4 / 4096, IxOf(vaddr), paddr / 4096)
        && LeafSet(old(mem), old(owner), mem, pml4 / 4096, IxOf(vaddr), paddr + LeafFlags(flags))
      ensures !ok ==>
        && Free() == {} && Kept(old(mem), old(owner), old(Free()), mem, owner, Free())
        && NotHuge(mem, pml4 / 4096, IxOf(vaddr))
      ensures !NotHuge(old(mem), pml4 / 4096, IxOf(vaddr)) ==>
        && ok && owner == old(owner) && Free() == old(Free())
        && mem == Strayed(old(mem), HugeFrame(old(mem), pml4 / 4096, IxOf(vaddr)), IxOf(vaddr).i1,
                          paddr + LeafFlags(flags))
    {
      hide TreeOk, At, Down, FreeSet, IxOf, Kept, FramesKept, PageMapped, LeafSet, NotHuge, HugeFrame, PtOf, Leaf,
        WithEntryAt, LeafFlags, UserBit, Strayed;
      var root, ix := pml4 / 4096, IxOf(vaddr);
      var pt := EnsurePt(root, ix);
      if pt.None? {
        return false;
      }
      ghost var m := mem;
      mem := Strayed(mem, pt.value, ix.i1, paddr + LeafFlags(flags));
      if NotHuge(old(mem), root, ix) {
        OwnedFrame(m, owner, kentry, pt.value);
        LeafIsUser(flags);
        StrayedTable(m, pt.value, ix.i1, paddr + LeafFlags(flags));
        LeafStored(old(mem), old(owner), old(Free()), m, mem, owner, kentry, Free(), root, ix, pt.value, paddr,
                   LeafFlags(flags), kernel.pml4);
      }
      ok := true;
    }
  }

  /** No 2 MB page sits where the last-level table of page ix has to go. */
  ghost predicate NotHuge(mem: seq<seq<byte>>, root: nat, ix: Ix) {
    PdOf(mem, root, ix).Some? ==> !IsHuge(At(mem, PdOf(mem, root, ix).value, ix.i2))
  }

  /** The first frame of the 2 MB page at the directory entry of page ix. */
  ghost function HugeFrame(mem: seq<seq<byte>>, root: nat, ix: Ix): nat {
    if PdOf(mem, root, ix).Some? then At(mem, PdOf(mem, root, ix).value, ix.i2) / 4096 else 0
  }

  /** Memory after entry i of the 512 words in frame f was set, table or not; addresses
      beyond the memory take nothing. */
  function Strayed(mem: seq<seq<byte>>, f: nat, i: nat, e: nat): (r: seq<seq<byte>>)
    ensures |r| == |mem|
  {
    if f < |mem| && |mem[f]| == 4096 && i < 512 then WithEntryAt(mem, f, i, e) else mem
  }

  lemma StrayedTable(mem: seq<seq<byte>>, f: nat, i: nat, e: nat)
    requires f < |mem| && |mem[f]| == 4096 && i < 512
    ensures Strayed(mem, f, i, e) == WithEntryAt(mem, f, i, e)
  {
  }

  lemma LeafIsUser(flags: nat)
    requires flags < 0x1000
    ensures UserBit(LeafFlags(flags))
  {
  }

  /** On the way to a 2 MB page there are tables. */
  lemma HugePath(mem: seq<seq<byte>>, owner: map<nat, Owner>, kentry: nat, root: nat, ix: Ix)
    requires TreeOk(mem, owner, kentry) && IsRoot(owner, root) && WfIx(ix) && !NotHuge(mem, root, ix)
    ensures At(mem, root, ix.i4) != 0 && At(mem, root, ix.i4) / 4096 == PdptOf(mem, root, ix).value
    ensures PdptOf(mem, root, ix).Some? && PdptOf(mem, root, ix).value in owner
    ensures owner[PdptOf(mem, root, ix).value].Pdpt?
    ensures At(mem, PdptOf(mem, root, ix).value, ix.i3) != 0
    ensures At(mem, PdptOf(mem, root, ix).value, ix.i3) / 4096 == PdOf(mem, root, ix).value
    ensures PdOf(mem, root, ix).Some? && PdOf(mem, root, ix).value in owner && owner[PdOf(mem, root, ix).value].Pd?
    ensures IsHuge(At(mem, PdOf(mem, root, ix).value, ix.i2)) && At(mem, PdOf(mem, root, ix).value, ix.i2) != 0
  {
    hide At;
    WalkOwned(mem, owner, kentry, root, ix);
  }

  /** In every address space page ix of the tree of `root` now has frame p, all others
      translate as before. */
  ghost predicate PageMapped(mem: seq<seq<byte>>, owner: map<nat, Owner>, mem': seq<seq<byte>>, root: nat, ix: Ix,
                             p: nat) {
    forall r: nat, x {:trigger Lookup(mem', r, x)} :: IsRoot(owner, r) && WfIx(x) ==>
      Lookup(mem', r, x) == if x == ix && TreeOf(r, ix.i4) == TreeOf(root, ix.i4) then Some(p) else Lookup(mem, r, x)
  }

  /** The last-level entry of that page is e, all others are as before. */
  ghost predicate LeafSet(mem: seq<seq<byte>>, owner: map<nat, Owner>, mem': seq<seq<byte>>, root: nat, ix: Ix,
                          e: nat) {
    forall r: nat, x {:trigger Leaf(mem', r, x)} :: IsRoot(owner, r) && WfIx(x) ==>
      Leaf(mem', r, x) == if x == ix && TreeOf(r, ix.i4) == TreeOf(root, ix.i4) then e else Leaf(mem, r, x)
  }

  /** In terms of addresses: the lookup of the mapped page gives `paddr`; every other page
      of this address space, and (the shared top slot aside) every page of every other
      one, is looked up as before. */
  lemma MapIsUpdate(mem: seq<seq<byte>>, owner: map<nat, Owner>, mem': seq<seq<byte>>, pml4: nat, vaddr: nat,
                    paddr: nat, other: nat, v: nat)
    requires PageMapped(mem, owner, mem', pml4 / 4096, IxOf(vaddr), paddr / 4096) && paddr % 4096 == 0
    requires IsRoot(owner, pml4 / 4096) && IsRoot(owner, other / 4096)
    requires vaddr < 0x1_0000_0000_0000 && v < 0x1_0000_0000_0000
    ensures LookupPage(mem', other, v) ==
      if v / 4096 == vaddr / 4096 && (other / 4096 == pml4 / 4096 || IxOf(vaddr).i4 == 511) then Some(paddr)
      else LookupPage(mem, other, v)
  {
    hide Lookup, IxOf;
    IxInjective(v, vaddr);
    assert Lookup(mem', other / 4096, IxOf(v)) == Lookup(mem', other / 4096, IxOf(v));
  }

  lemma StillNotHuge(m0: seq<seq<byte>>, o0: map<nat, Owner>, m1: seq<seq<byte>>, o1: map<nat, Owner>,
                     m2: seq<seq<byte>>, o2: map<nat, Owner>, root: nat, ix: Ix, pdpt: nat, pd: nat)
    requires IsRoot(o0, root) && WfIx(ix) && NotHuge(m0, root, ix)
    requires TableEnsured(m0, o0, m1, o1, root, ix.i4, pdpt) && TableEnsured(m1, o1, m2, o2, pdpt, ix.i3, pd)
    requires root in o1 && o1[root] == o0[root]
    ensures !IsHuge(At(m2, pd, ix.i2)) && NotHuge(m2, root, ix)
  {
    assert At(m2, root, ix.i4) == At(m1, root, ix.i4);
  }

  lemma OpenBelowPdpt(m0: seq<seq<byte>>, o0: map<nat, Owner>, m1: seq<seq<byte>>, o1: map<nat, Owner>, root: nat,
                      ix: Ix, pdpt: nat)
    requires IsRoot(o0, root) && WfIx(ix) && NotHuge(m0, root, ix) && TableEnsured(m0, o0, m1, o1, root, ix.i4, pdpt)
    ensures NotHuge(m1, root, ix)
  {
  }

  lemma ReachedPt(m0: seq<seq<byte>>, o0: map<nat, Owner>, m1: seq<seq<byte>>, o1: map<nat, Owner>,
                  m2: seq<seq<byte>>, o2: map<nat, Owner>, m3: seq<seq<byte>>, o3: map<nat, Owner>,
                  root: nat, ix: Ix, pdpt: nat, pd: nat, pt: nat)
    requires IsRoot(o0, root) && WfIx(ix)
    requires TableEnsured(m0, o0, m1, o1, root, ix.i4, pdpt) && TableEnsured(m1, o1, m2, o2, pdpt, ix.i3, pd)
    requires TableEnsured(m2, o2, m3, o3, pd, ix.i2, pt)
    requires root in o1 && o1[root] == o0[root] && root in o2 && o2[root] == o0[root] && pdpt in o2
    requires o2[pdpt] == o1[pdpt]
    ensures PtOf(m3, root, ix) == Some(pt)
    ensures pt in o3 && o3[pt] == Pt(TreeOf(root, ix.i4), ix.i4, ix.i3, ix.i2)
  {
    assert At(m3, root, ix.i4) == At(m2, root, ix.i4) == At(m1, root, ix.i4);
    assert At(m3, pdpt, ix.i3) == At(m2, pdpt, ix.i3);
  }

  /** The facts about a leaf entry that was just stored, relative to the start (m0, o0, f0). */
  lemma LeafStored(m0: seq<seq<byte>>, o0: map<nat, Owner>, f0: set<nat>, m: seq<seq<byte>>, m': seq<seq<byte>>,
                   owner: map<nat, Owner>, kentry: nat, free: set<nat>, root: nat, ix: Ix, pt: nat, paddr: nat,
                   flags: nat, k: nat)
    requires Kept(m0, o0, f0, m, owner, free) && TreeOk(m, owner, kentry) && IsRoot(o0, root) && WfIx(ix)
    requires PtOf(m, root, ix) == Some(pt) && pt in owner && owner[pt].Pt? && k !in owner
    requires paddr % 4096 == 0 && paddr < 0x10_0000_0000_0000 && flags < 4096 && flags % 2 == 1 && UserBit(flags)
    requires pt < |m| && |m[pt]| == 4096 && m' == WithEntryAt(m, pt, ix.i1, paddr + flags)
    ensures TreeOk(m', owner, kentry) && FramesKept(m0, o0, f0, m', owner, free)
    ensures PageMapped(m0, o0, m', root, ix, paddr / 4096)
    ensures At(m', k, 511) == At(m, k, 511) && LeafSet(m0, o0, m', root, ix, paddr + flags)
  {
    hide TreeOk, At, Lookup, Leaf, PtOf, SetEntry;
    LeafFrame(paddr, flags);
    LeafKeepsTree(m, owner, kentry, pt, ix.i1, paddr + flags);
    AtAfterSet(m, pt, ix.i1, paddr + flags, k, 511);
    AtAfterSet(m, pt, ix.i1, paddr + flags, pt, ix.i1);
    forall h: nat, j: nat | h in o0 && !o0[h].Page? && !o0[h].Pt? && At(m0, h, j) != 0
      ensures At(m', h, j) == At(m0, h, j)
    {
      assert h in owner;
      AtAfterSet(m, pt, ix.i1, paddr + flags, h, j);
      assert At(m, h, j) == At(m0, h, j);
    }
    assert root in owner;
    forall r: nat, x | IsRoot(o0, r) && WfIx(x)
      ensures Lookup(m', r, x) ==
        if x == ix && TreeOf(r, ix.i4) == TreeOf(root, ix.i4) then Some(paddr / 4096) else Lookup(m0, r, x)
      ensures Leaf(m', r, x) ==
        if x == ix && TreeOf(r, ix.i4) == TreeOf(root, ix.i4) then paddr + flags else Leaf(m0, r, x)
    {
      assert r in owner;
      LeafLookup(m, owner, kentry, root, ix, pt, paddr + flags, r, x);
      assert Lookup(m, r, x) == Lookup(m0, r, x);
    }
  }

  lemma EvenPlus(q: nat, a: nat)
    ensures (2 * q + a) % 2 == a % 2
  {
  }

  lemma FlagBits(q: nat, flags: nat)
    ensures (4096 * q + flags) % 2 == flags % 2
    ensures UserBit(4096 * q + flags) == UserBit(flags)
  {
    EvenPlus(2048 * q, flags);
    assert (4096 * q + flags) / 4 == 2 * (512 * q) + flags / 4;
    EvenPlus(512 * q, flags / 4);
  }

  lemma LeafFrame(paddr: nat, flags: nat)
    requires paddr % 4096 == 0 && flags < 4096
    ensures (paddr + flags) / 4096 == paddr / 4096
    ensures flags % 2 == 1 ==> (paddr + flags) % 2 == 1
    ensures UserBit(flags) ==> UserBit(paddr + flags)
    ensures paddr < 0x10_0000_0000_0000 ==> paddr + flags < 0x10_0000_0000_0000
  {
    hide UserBit;
    FlagBits(paddr / 4096, flags);
    assert paddr == 4096 * (paddr / 4096);
  }

  lemma LeafLookup(m: seq<seq<byte>>, owner: map<nat, Owner>, kentry: nat, root: nat, ix: Ix, pt: nat, e: nat, r: nat,
                   x: Ix)
    requires TreeOk(m, owner, kentry) && IsRoot(owner, root) && IsRoot(owner, r) && WfIx(ix) && WfIx(x)
    requires PtOf(m, root, ix) == Some(pt) && pt < |m| && |m[pt]| == 4096 && 0 < e < 0x1_0000_0000_0000_0000
    ensures Lookup(WithEntryAt(m, pt, ix.i1, e), r, x) ==
      if x == ix && TreeOf(r, ix.i4) == TreeOf(root, ix.i4) then Some(e / 4096) else Lookup(m, r, x)
    ensures Leaf(WithEntryAt(m, pt, ix.i1, e), r, x) ==
      if x == ix && TreeOf(r, ix.i4) == TreeOf(root, ix.i4) then e else Leaf(m, r, x)
  {
    hide TreeOk, At, Down;
    MapUpdatesOnePage(m, owner, kentry, pt, root, ix, e, r, x);
    if ix.i4 == 511 {
      SharedWalk(m, owner, kentry, root, r, ix);
    }
  }

  lemma LinkTarget(g: nat)
    ensures (g * 4096 + TABLE_FLAGS) / 4096 == g && !IsHuge(g * 4096 + TABLE_FLAGS)
  {
    assert (g * 4096 + TABLE_FLAGS) / 128 == g * 32;
  }

  /** The facts about a table that was just hung below entry i of f. */
  lemma TableLinked(mem: seq<seq<byte>>, mem': seq<seq<byte>>, owner: map<nat, Owner>, kentry: nat, free: set<nat>,
                    f: nat, i: nat, g: nat, k: nat)
    requires TreeOk(mem, owner, kentry) && TableInserted(mem, mem', owner, f, i, g) && g in free && k !in free
    requires k !in owner
    ensures TreeOk(mem', owner[g := Child(owner[f], i)], kentry)
    ensures Kept(mem, owner, free, mem', owner[g := Child(owner[f], i)], free - {g})
    ensures TableEnsured(mem, owner, mem', owner[g := Child(owner[f], i)], f, i, g)
    ensures At(mem', k, 511) == At(mem, k, 511)
  {
    hide TreeOk, At, Entry, WithEntryAt, Kept, IsHuge;
    InsertKeepsTree(mem, mem', owner, kentry, f, i, g);
    InsertKept(mem, mem', owner, kentry, free, f, i, g);
    LinkTarget(g);
    forall h: nat, j: nat
      ensures At(mem', h, j) == if h == f && j == i then g * 4096 + TABLE_FLAGS else if h == g then 0 else At(mem, h, j)
    {
      AtInserted(mem, mem', owner, f, i, g, h, j);
    }
  }
}
