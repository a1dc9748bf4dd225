/** Creating a user address space: the first four gigabytes mapped to themselves by 2 MB
    pages, with a hole for the program, and the kernel's top slot shared. */
module AddressSpace {
  import opened Bytes
  import opened Pmm
  import opened PageTables
  import opened KernelTables
  import opened Paging

  const USER_HUGE: nat := 0x83 // present, writable, 2 MB page

  /** Frames of the tables of a new address space. */
  datatype Tables = Tables(root: nat, pdpt: nat, pds: seq<nat>)

  /** Entry j of the directory for gigabyte i: a 2 MB page, except for the program's hole. */
  function UserPdEntry(i: nat, j: nat): nat {
    if i == 0 && j == 2 then 0 else (i * 512 + j) * 0x20_0000 + USER_HUGE
  }

  function UserPdptEntry(pds: seq<nat>, i: nat): nat { if i < |pds| then pds[i] * 4096 + TABLE_FLAGS else 0 }

  ghost predicate PdFilled(mem: seq<seq<byte>>, f: nat, i: nat) {
    forall j {:trigger At(mem, f, j)} :: 0 <= j < 512 ==> At(mem, f, j) == UserPdEntry(i, j)
  }

  ghost predicate PdptFilled(mem: seq<seq<byte>>, f: nat, pds: seq<nat>) {
    forall j {:trigger At(mem, f, j)} :: 0 <= j < 512 ==> At(mem, f, j) == UserPdptEntry(pds, j)
  }

  ghost predicate RootFilled(mem: seq<seq<byte>>, f: nat, e0: nat, kentry: nat) {
    forall j {:trigger At(mem, f, j)} ::
      0 <= j < 512 ==> At(mem, f, j) == if j == 0 then e0 else if j == 511 then kentry else 0
  }

  /** The tables of a new address space are complete. */
  ghost predicate SpaceBuilt(mem: seq<seq<byte>>, t: Tables, kentry: nat) {
    && |t.pds| == 4
    && RootFilled(mem, t.root, t.pdpt * 4096 + TABLE_FLAGS, kentry)
    && PdptFilled(mem, t.pdpt, t.pds)
    && (forall i {:trigger t.pds[i]} :: 0 <= i < 4 ==> PdFilled(mem, t.pds[i], i))
  }

  ghost predicate DistinctTables(t: Tables, n: nat) {
    && |t.pds| == 4 && n <= 0x1_0000_0000 && t.root < n && t.pdpt < n && t.root != t.pdpt
    && (forall i {:trigger t.pds[i]} :: 0 <= i < 4 ==> t.pds[i] < n && t.pds[i] != t.root && t.pds[i] != t.pdpt)
    && (forall i, j :: 0 <= i < j < 4 ==> t.pds[i] != t.pds[j])
  }

  ghost function Adopted(owner: map<nat, Owner>, t: Tables): map<nat, Owner>
    requires |t.pds| == 4
  {
    owner[t.root := Pml4(t.root)][t.pdpt := Pdpt(t.root, 0)]
      [t.pds[0] := Pd(t.root, 0, 0)][t.pds[1] := Pd(t.root, 0, 1)]
      [t.pds[2] := Pd(t.root, 0, 2)][t.pds[3] := Pd(t.root, 0, 3)]
  }

  /** None of the tables was in use. */
  ghost predicate NewFrames(owner: map<nat, Owner>, t: Tables) {
    && t.root !in owner && t.pdpt !in owner
    && (forall i {:trigger t.pds[i]} :: 0 <= i < |t.pds| ==> t.pds[i] !in owner)
  }

  lemma UserDirectoryFrame(i: nat, j: nat)
    requires i < 4 && j < 512 && !(i == 0 && j == 2)
    ensures Present(UserPdEntry(i, j)) && IsHuge(UserPdEntry(i, j))
    ensures FrameOf(UserPdEntry(i, j)) / 512 * 0x20_0000 == i * 0x4000_0000 + j * 0x20_0000
    ensures UserPdEntry(i, j) / 4096 == (i * 512 + j) * 512
  {
    var n := i * 512 + j;
    var e := UserPdEntry(i, j);
    assert e == (n * 512) * 4096 + USER_HUGE;
    assert e / 4096 == n * 512;
    assert e / 128 == n * 0x4000 + 1;
  }

  /** Adding the complete tables of a new space keeps all tables separate. */
  lemma AdoptSpace(mem: seq<seq<byte>>, owner: map<nat, Owner>, kentry: nat, t: Tables)
    requires TreeOk(mem, owner, kentry) && DistinctTables(t, 262144) && 262144 <= |mem| && SpaceBuilt(mem, t, kentry)
    requires NewFrames(owner, t)
    requires PointsTo(owner, kentry, Pdpt(SHARED, 511))
    ensures TreeOk(mem, Adopted(owner, t), kentry)
  {
    hide At, EntryOk, Adopted, SpaceBuilt;
    AdoptedOwners(owner, t);
    var owner' := Adopted(owner, t);
    forall f: nat, j: nat | f in owner' && j < 512 ensures EntryOk(owner', owner'[f], j, At(mem, f, j)) {
      if f in owner {
        assert EntryOk(owner, owner[f], j, At(mem, f, j));
        MoreOwners(owner, owner', owner[f], j, At(mem, f, j));
      } else {
        NewTableEntry(mem, owner, kentry, t, f, j);
      }
    }
    RootSlot(mem, t, kentry);
  }

  lemma AdoptedOwners(owner: map<nat, Owner>, t: Tables)
    requires DistinctTables(t, 0x1_0000_0000)
    requires NewFrames(owner, t)
    ensures var owner' := Adopted(owner, t);
      && (forall f {:trigger f in owner'} :: f in owner' <==>
            || f in owner || f == t.root || f == t.pdpt
            || f == t.pds[0] || f == t.pds[1] || f == t.pds[2] || f == t.pds[3])
      && (forall f {:trigger owner'[f]} :: f in owner ==> owner'[f] == owner[f])
      && owner'[t.root] == Pml4(t.root) && owner'[t.pdpt] == Pdpt(t.root, 0)
      && (forall i {:trigger t.pds[i]} :: 0 <= i < 4 ==> owner'[t.pds[i]] == Pd(t.root, 0, i))
  {
  }

  lemma MoreOwners(owner: map<nat, Owner>, owner': map<nat, Owner>, o: Owner, i: nat, e: nat)
    requires EntryOk(owner, o, i, e)
    requires forall f {:trigger f in owner'} :: f in owner ==> f in owner' && owner'[f] == owner[f]
    ensures EntryOk(owner', o, i, e)
  {
  }

  lemma RootSlot(mem: seq<seq<byte>>, t: Tables, kentry: nat)
    requires SpaceBuilt(mem, t, kentry)
    ensures At(mem, t.root, 511) == kentry
  {
  }

  lemma NewTableEntry(mem: seq<seq<byte>>, owner: map<nat, Owner>, kentry: nat, t: Tables, f: nat, j: nat)
    requires DistinctTables(t, 0x1_0000_0000) && SpaceBuilt(mem, t, kentry) && j < 512
    requires NewFrames(owner, t)
    requires PointsTo(owner, kentry, Pdpt(SHARED, 511))
    requires f in Adopted(owner, t) && f !in owner
    ensures EntryOk(Adopted(owner, t), Adopted(owner, t)[f], j, At(mem, f, j))
  {
    hide At, Adopted;
    AdoptedOwners(owner, t);
    if f == t.root {
      assert At(mem, f, j) == if j == 0 then t.pdpt * 4096 + TABLE_FLAGS else if j == 511 then kentry else 0;
    } else if f == t.pdpt {
      assert At(mem, f, j) == UserPdptEntry(t.pds, j);
      assert j < 4 ==> Adopted(owner, t)[t.pds[j]] == Pd(t.root, 0, j);
    } else {
      var i := if f == t.pds[0] then 0 else if f == t.pds[1] then 1 else if f == t.pds[2] then 2 else 3;
      assert f == t.pds[i] && PdFilled(mem, t.pds[i], i);
      assert At(mem, f, j) == UserPdEntry(i, j);
      if !(i == 0 && j == 2) {
        UserDirectoryFrame(i, j);
      }
    }
  }

  /** Walks and tables depend on owned frames only. */
  lemma OwnedAgree(mem: seq<seq<byte>>, mem': seq<seq<byte>>, owner: map<nat, Owner>, kentry: nat)
    requires TreeOk(mem, owner, kentry) && WfMem(mem') && |mem'| == |mem|
    requires forall f {:trigger f in owner} :: f in owner ==> mem'[f] == mem[f]
    ensures TreeOk(mem', owner, kentry)
    ensures forall f: nat, j: nat {:trigger At(mem', f, j)} :: f in owner ==> At(mem', f, j) == At(mem, f, j)
    ensures forall r, ix {:trigger Lookup(mem', r, ix)} {:trigger Leaf(mem', r, ix)} :: IsRoot(owner, r) && WfIx(ix) ==>
      Lookup(mem', r, ix) == Lookup(mem, r, ix) && Leaf(mem', r, ix) == Leaf(mem, r, ix)
  {
    forall f: nat, j: nat | f in owner && j < 512 ensures EntryOk(owner, owner[f], j, At(mem', f, j)) {
      assert At(mem', f, j) == At(mem, f, j);
    }
    forall r, ix | IsRoot(owner, r) && WfIx(ix)
      ensures Lookup(mem', r, ix) == Lookup(mem, r, ix) && Leaf(mem', r, ix) == Leaf(mem, r, ix)
    {
      WalkOwned(mem, owner, kentry, r, ix);
    }
  }

  // ---- the new space as the processor sees it ----

  /** Below four gigabytes a new space maps every address to itself, except the hole from
      4 MB to 6 MB, which it does not map at all. */
  lemma SpaceShape(mem: seq<seq<byte>>, t: Tables, kentry: nat, v: nat)
    requires DistinctTables(t, 262144) && SpaceBuilt(mem, t, kentry) && v < 0x1_0000_0000
    ensures HwWalk(mem, t.root, v) == if 0x40_0000 <= v < 0x60_0000 then None else Some(v)
    ensures KernelStore(mem, t.root, v) == HwWalk(mem, t.root, v)
  {
    hide At, WriteBit;
    LowIndices(v);
    var ix := IxOf(v);
    TableWrites(t.pdpt);
    TableWrites(t.pds[ix.i3]);
    TableFrame(t.pdpt);
    TableFrame(t.pds[ix.i3]);
    assert At(mem, t.root, 0) == t.pdpt * 4096 + TABLE_FLAGS;
    assert At(mem, t.pdpt, ix.i3) == t.pds[ix.i3] * 4096 + TABLE_FLAGS;
    assert PdFilled(mem, t.pds[ix.i3], ix.i3);
    assert At(mem, t.pds[ix.i3], ix.i2) == UserPdEntry(ix.i3, ix.i2);
    assert 0x40_0000 <= v < 0x60_0000 <==> ix.i3 == 0 && ix.i2 == 2;
    if !(ix.i3 == 0 && ix.i2 == 2) {
      UserDirectoryFrame(ix.i3, ix.i2);
      UserDirectoryWrites(ix.i3, ix.i2);
    }
  }

  lemma TableWrites(f: nat)
    ensures WriteBit(f * 4096 + TABLE_FLAGS)
  {
    assert (f * 4096 + TABLE_FLAGS) / 2 == 2 * (f * 1024 + 1) + 1;
  }

  lemma UserDirectoryWrites(i: nat, j: nat)
    requires i < 4 && j < 512 && !(i == 0 && j == 2)
    ensures WriteBit(UserPdEntry(i, j))
  {
    var n := i * 512 + j;
    assert UserPdEntry(i, j) == n * 0x20_0000 + USER_HUGE;
    assert UserPdEntry(i, j) / 2 == 2 * (n * 0x8_0000 + 0x20) + 1;
  }

  /** Outside the hole a new space uses 2 MB pages. */
  lemma HugeHere(mem: seq<seq<byte>>, t: Tables, kentry: nat, v: nat)
    requires DistinctTables(t, 262144) && SpaceBuilt(mem, t, kentry) && v < 0x1_0000_0000
    requires !(0x40_0000 <= v < 0x60_0000)
    ensures EndsHuge(mem, t.root, v) && HugeFrame(mem, t.root, IxOf(v)) == v / 0x20_0000 * 512
  {
    hide At;
    LowIndices(v);
    var ix := IxOf(v);
    assert At(mem, t.root, 0) == t.pdpt * 4096 + TABLE_FLAGS;
    assert At(mem, t.pdpt, ix.i3) == t.pds[ix.i3] * 4096 + TABLE_FLAGS;
    assert PdFilled(mem, t.pds[ix.i3], ix.i3);
    assert At(mem, t.pds[ix.i3], ix.i2) == UserPdEntry(ix.i3, ix.i2);
    assert 0x40_0000 <= v < 0x60_0000 <==> ix.i3 == 0 && ix.i2 == 2;
    UserDirectoryFrame(ix.i3, ix.i2);
  }

  /** No 4 KB page is mapped below slot 511 of a new space, and its hole is open. */
  lemma SpaceEmpty(mem: seq<seq<byte>>, t: Tables, kentry: nat, ix: Ix)
    requires DistinctTables(t, 262144) && SpaceBuilt(mem, t, kentry) && WfIx(ix) && ix.i4 != 511
    ensures Lookup(mem, t.root, ix) == None && Leaf(mem, t.root, ix) == 0
    ensures ix.i4 == 0 && ix.i3 == 0 && ix.i2 == 2 ==> NotHuge(mem, t.root, ix)
  {
    hide At;
    assert At(mem, t.root, ix.i4) == if ix.i4 == 0 then t.pdpt * 4096 + TABLE_FLAGS else 0;
    assert At(mem, t.pdpt, ix.i3) == UserPdptEntry(t.pds, ix.i3);
    if ix.i4 == 0 && ix.i3 < 4 {
      assert PdFilled(mem, t.pds[ix.i3], ix.i3);
      assert At(mem, t.pds[ix.i3], ix.i2) == UserPdEntry(ix.i3, ix.i2);
      if !(ix.i3 == 0 && ix.i2 == 2) {
        UserDirectoryFrame(ix.i3, ix.i2);
      }
    }
  }

  // ---- building it ----

  /** Only frame f has changed. */
  ghost predicate OnlyFrame(mem: seq<seq<byte>>, mem': seq<seq<byte>>, f: nat) {
    && |mem'| == |mem| && (forall g {:trigger mem'[g]} :: 0 <= g < |mem| && g != f ==> mem'[g] == mem[g])
    && (forall g: nat, j: nat {:trigger At(mem', g, j)} :: g != f ==> At(mem', g, j) == At(mem, g, j))
  }

  /** Allocates a frame and zeroes it. */
  method NewTable(m: Machine) returns (r: Option<nat>)
    requires m.Valid()
    modifies m`mem, m.pmm`freeCount, m.pmm.bitmap
    ensures m.Valid()
    ensures r.Some? ==>
      && r.value < 262144 && r.value in old(m.Free()) && r.value !in m.owner && r.value != m.kernel.pml4
      && m.Free() == old(m.Free()) - {r.value}
      && OnlyFrame(old(m.mem), m.mem, r.value) && forall j: nat :: At(m.mem, r.value, j) == 0
    ensures r.None? ==> m.mem == old(m.mem) && m.Free() == old(m.Free()) == {}
  {
    hide Entry, FreeSet;
    var phys := m.pmm.AllocPage();
    if phys.None? {
      return None;
    }
    var g := phys.value / 4096;
    ghost var before := m.mem;
    m.mem := m.mem[g := Zeros(4096)];
    forall j: nat ensures At(m.mem, g, j) == 0 {
      if j < 512 {
        EntryOfZero(j);
      }
    }
    OwnedAgree(before, m.mem, m.owner, m.kentry);
    r := Some(g);
  }

  /** Sets an entry of a table that is not linked anywhere yet. */
  method PutEntry(m: Machine, f: nat, i: nat, e: nat)
    requires m.Valid() && f < |m.mem| && f !in m.owner && f != m.kernel.pml4 && i < 512 && e < TWO_64
    modifies m`mem
    ensures m.Valid() && OnlyFrame(old(m.mem), m.mem, f)
    ensures forall j: nat :: At(m.mem, f, j) == if j == i then e else At(old(m.mem), f, j)
  {
    hide Entry, FreeSet;
    ghost var before := m.mem;
    m.mem := WithEntryAt(m.mem, f, i, e);
    forall g: nat, j: nat ensures At(m.mem, g, j) == if g == f && j == i then e else At(before, g, j) {
      AtAfterSet(before, f, i, e, g, j);
    }
    OwnedAgree(before, m.mem, m.owner, m.kentry);
  }

  /** The inner loop: one directory of 2 MB pages, with the hole left open. */
  method FillUserPd(m: Machine, f: nat, i: nat)
    requires m.Valid() && f < |m.mem| && f !in m.owner && f != m.kernel.pml4 && i < 4
    requires forall j: nat :: At(m.mem, f, j) == 0
    modifies m`mem
    ensures m.Valid() && OnlyFrame(old(m.mem), m.mem, f) && PdFilled(m.mem, f, i)
  {
    hide TreeOk, At, FreeSet, EntryOk, PointsTo;
    for j := 0 to 512
      invariant m.Valid() && OnlyFrame(old(m.mem), m.mem, f)
      invariant forall x: nat {:trigger At(m.mem, f, x)} :: At(m.mem, f, x) == if x < j then UserPdEntry(i, x) else 0
    {
      if !(i == 0 && j == 2) {
        PutEntry(m, f, j, (i * 512 + j) * 0x20_0000 + USER_HUGE);
      }
    }
  }

  /** The entries of the tables built so far. */
  ghost predicate FilledSoFar(mem: seq<seq<byte>>, t: Tables, kentry: nat) {
    && RootFilled(mem, t.root, 0, kentry) && PdptFilled(mem, t.pdpt, t.pds)
    && (forall i {:trigger t.pds[i]} :: 0 <= i < |t.pds| ==> PdFilled(mem, t.pds[i], i))
  }

  /** One more directory, filled in frame pd and linked. */
  lemma DirectoryAdded(m0: seq<seq<byte>>, m2: seq<seq<byte>>, m3: seq<seq<byte>>, t: Tables, pd: nat, kentry: nat)
    requires FilledSoFar(m0, t, kentry) && t.root != t.pdpt && |t.pds| < 4
    requires forall g: nat, j: nat {:trigger At(m2, g, j)} :: g != pd ==> At(m2, g, j) == At(m0, g, j)
    requires OnlyFrame(m2, m3, t.pdpt) && PdFilled(m2, pd, |t.pds|) && pd != t.root && pd != t.pdpt
    requires forall j: nat :: At(m3, t.pdpt, j) == if j == |t.pds| then pd * 4096 + TABLE_FLAGS else At(m2, t.pdpt, j)
    requires forall i {:trigger t.pds[i]} :: 0 <= i < |t.pds| ==> t.pds[i] != pd && t.pds[i] != t.pdpt
    ensures FilledSoFar(m3, t.(pds := t.pds + [pd]), kentry)
  {
    hide At, UserPdEntry;
    var t' := t.(pds := t.pds + [pd]);
    forall i: nat | i < |t'.pds| ensures PdFilled(m3, t'.pds[i], i) {
      if i < |t.pds| {
        assert t'.pds[i] == t.pds[i];
      }
    }
  }

  /** What has been built when `pds` directories are linked. */
  ghost predicate SpaceSoFar(m: Machine, mem0: seq<seq<byte>>, free0: set<nat>, t: Tables)
    reads m, m.pmm, m.pmm.bitmap
  {
    && m.Valid() && |m.mem| == |mem0| && m.Free() <= free0
    && Unlinked(m, free0, t.root) && Unlinked(m, free0, t.pdpt) && t.root != t.pdpt
    && (forall i {:trigger t.pds[i]} :: 0 <= i < |t.pds| ==>
          Unlinked(m, free0, t.pds[i]) && t.pds[i] != t.root && t.pds[i] != t.pdpt)
    && (forall i, j :: 0 <= i < j < |t.pds| ==> t.pds[i] != t.pds[j])
    && FilledSoFar(m.mem, t, m.kentry)
    && (forall g {:trigger m.mem[g]} :: 0 <= g < |mem0| && g !in free0 ==> m.mem[g] == mem0[g])
  }

  /** A frame taken from the allocator and not yet part of any tree. */
  ghost predicate Unlinked(m: Machine, free0: set<nat>, f: nat)
    reads m, m.pmm, m.pmm.bitmap
  {
    m.Valid() && f < 262144 && f in free0 && f !in m.Free() && f !in m.owner && f != m.kernel.pml4
  }

  /** One round of the outer loop: a directory, filled and linked into the PDPT. */
  method AddDirectory(m: Machine, t: Tables, ghost mem0: seq<seq<byte>>, ghost free0: set<nat>)
    returns (r: Option<Tables>)
    requires SpaceSoFar(m, mem0, free0, t) && |t.pds| < 4
    modifies m`mem, m.pmm`freeCount, m.pmm.bitmap
    ensures r.Some? ==> |r.value.pds| == |t.pds| + 1 && r.value == t.(pds := t.pds + [r.value.pds[|t.pds|]])
    ensures r.Some? ==> SpaceSoFar(m, mem0, free0, r.value)
    ensures r.None? ==> m.Valid() && m.Free() == {}
  {
    hide TreeOk, At, FreeSet, PointsTo, PdFilled, FilledSoFar;
    var i := |t.pds|;
    ghost var m0 := m.mem;
    var pd := NewTable(m);
    if pd.None? {
      return None;
    }
    FillUserPd(m, pd.value, i);
    ghost var m2 := m.mem;
    PutEntry(m, t.pdpt, i, pd.value * 4096 + TABLE_FLAGS);
    DirectoryAdded(m0, m2, m.mem, t, pd.value, m.kentry);
    var t' := t.(pds := t.pds + [pd.value]);
    assert forall x :: 0 <= x < i ==> t'.pds[x] == t.pds[x];
    r := Some(t');
  }

  /** Builds and adopts a user address space; None stands for the panic on exhausted memory. */
  method CreateUserAddressSpace(m: Machine) returns (r: Option<nat>, ghost t: Tables)
    requires m.Valid()
    modifies m`mem, m`owner, m.pmm`freeCount, m.pmm.bitmap
    ensures m.Valid()
    ensures r.Some? ==>
      && r.value == t.root * 4096 && IsRoot(m.owner, t.root)
      && NewFrames(old(m.owner), t)
      && DistinctTables(t, 262144) && SpaceBuilt(m.mem, t, m.kentry) && m.owner == Adopted(old(m.owner), t)
      && Kept(old(m.mem), old(m.owner), old(m.Free()), m.mem, m.owner, m.Free())
      && KernelKept(old(m.mem), m.mem, t.root, m.kernel.pml4)
    ensures r.None? ==> m.Free() == {}
  {
    hide TreeOk, At, FreeSet, PointsTo, NewFrames, KernelKept;
    ghost var mem0, free0 := m.mem, m.Free();
    t := Tables(0, 0, []);
    var root := NewTable(m);
    if root.None? {
      return None, t;
    }
    AtBound(m.mem, m.kernel.pml4, 511);
    PutEntry(m, root.value, 511, KernelSlot(m));
    var pdpt := NewTable(m);
    if pdpt.None? {
      return None, t;
    }
    var tabs := Tables(root.value, pdpt.value, []);
    while |tabs.pds| < 4
      invariant tabs.root == root.value && tabs.pdpt == pdpt.value && |tabs.pds| <= 4
      invariant SpaceSoFar(m, mem0, free0, tabs) && m.owner == old(m.owner) && m.kentry == old(m.kentry)
      modifies m`mem, m.pmm`freeCount, m.pmm.bitmap
    {
      var next := AddDirectory(m, tabs, mem0, free0);
      if next.None? {
        return None, t;
      }
      tabs := next.value;
    }
    PutEntry(m, tabs.root, 0, tabs.pdpt * 4096 + TABLE_FLAGS);
    t := tabs;
    Adopt(m, t, mem0, free0);
    KernelPartKept(mem0, old(m.owner), m.kentry, m.mem, m.owner, t.root, m.kernel.pml4);
    r := Some(tabs.root * 4096);
  }

  /** Ghost bookkeeping: the finished tables become part of the forest of trees. */
  ghost method Adopt(m: Machine, t: Tables, mem0: seq<seq<byte>>, free0: set<nat>)
    requires m.Valid() && TreeOk(mem0, m.owner, m.kentry) && |m.mem| == |mem0| && m.Free() <= free0
    requires DistinctTables(t, 262144) && SpaceBuilt(m.mem, t, m.kentry)
    requires Unlinked(m, free0, t.root) && Unlinked(m, free0, t.pdpt)
    requires forall i {:trigger t.pds[i]} :: 0 <= i < 4 ==> Unlinked(m, free0, t.pds[i])
    requires forall g {:trigger m.mem[g]} :: 0 <= g < |mem0| && g !in free0 ==> m.mem[g] == mem0[g]
    requires forall f {:trigger f in m.owner} :: f in m.owner ==> f !in free0
    modifies m`owner
    ensures m.owner == Adopted(old(m.owner), t) && IsRoot(m.owner, t.root) && m.Valid() && NewFrames(old(m.owner), t)
    ensures Kept(mem0, old(m.owner), free0, m.mem, m.owner, m.Free())
  {
    hide At, FreeSet, SpaceBuilt, EntryOk, Adopted, Lookup, Leaf;
    OwnedAgree(mem0, m.mem, m.owner, m.kentry);
    AdoptSpace(m.mem, m.owner, m.kentry, t);
    AdoptedOwners(m.owner, t);
    m.owner := Adopted(m.owner, t);
  }

  /** The kernel's top-level entry. */
  function KernelSlot(m: Machine): nat
    reads m
  {
    At(m.mem, m.kernel.pml4, 511)
  }
}
