/** The program window of an address space, 0x400000 to 0x5FFFFF, as a map from page slots
    to page contents, and the machine steps that change it: mapping a frame, writing bytes. */
module UserImage {
  import opened Bytes
  import opened Pmm
  import opened PageTables
  import opened KernelTables
  import opened Paging
  import opened AddressSpace

  const WINDOW: nat := 0x40_0000

  /** Page slot j of the window. */
  function SlotIx(j: nat): Ix { Ix(0, 0, 2, j) }

  lemma SlotAddress(j: nat)
    requires j < 512
    ensures IxOf(0x40_0000 + j * 4096) == SlotIx(j)
  {
    var v := 0x40_0000 + j * 4096;
    assert v / 0x1000 == 1024 + j && v / 0x20_0000 == 2 && v / 0x4000_0000 == 0 && v / 0x80_0000_0000 == 0;
  }

  /** Frame p belongs to page ix of address space r, a page of the window. */
  ghost predicate PageOwned(owner: map<nat, Owner>, r: nat, ix: Ix, p: nat) {
    p < 262144 && p in owner && owner[p] == Page(TreeOf(r, ix.i4), ix) && ix == SlotIx(ix.i1)
  }

  /** Every 4 KB page mapped outside the shared slot is one of a window and has a frame that
      is owned by it, so no two such pages share one. */
  ghost predicate PagesOwned(mem: seq<seq<byte>>, owner: map<nat, Owner>) {
    forall r: nat, ix {:trigger Lookup(mem, r, ix)} ::
      IsRoot(owner, r) && WfIx(ix) && ix.i4 != 511 && Lookup(mem, r, ix).Some? ==>
      PageOwned(owner, r, ix, Lookup(mem, r, ix).value)
  }

  /** After boot there is no address space yet, and so no page to be owned. */
  lemma NoSpaceYet(mem: seq<seq<byte>>, k: Kernel)
    ensures PagesOwned(mem, KernelOwners(k))
  {
  }

  /** Different pages of user space are backed by different frames. */
  lemma PagesDistinct(mem: seq<seq<byte>>, owner: map<nat, Owner>, r: nat, ix: Ix, r': nat, ix': Ix)
    requires PagesOwned(mem, owner) && IsRoot(owner, r) && IsRoot(owner, r') && WfIx(ix) && WfIx(ix')
    requires Lookup(mem, r, ix).Some? && Lookup(mem, r', ix').Some? && ix.i4 != 511 && ix'.i4 != 511
    requires r != r' || ix != ix'
    ensures Lookup(mem, r, ix) != Lookup(mem, r', ix')
  {
  }

  /** The frame behind slot j. */
  function SlotFrame(mem: seq<seq<byte>>, root: nat, j: nat): Option<nat> { Lookup(mem, root, SlotIx(j)) }

  /** Contents of the mapped pages of the window. */
  ghost function ImageOf(mem: seq<seq<byte>>, root: nat): map<nat, seq<byte>> {
    map j: nat | j < 512 && SlotFrame(mem, root, j).Some? && SlotFrame(mem, root, j).value < |mem|
      :: mem[SlotFrame(mem, root, j).value]
  }

  /** The slots whose pages user mode may write to. */
  ghost function Writable(mem: seq<seq<byte>>, root: nat): set<nat> {
    set j: nat | j < 512 && WriteBit(Leaf(mem, root, SlotIx(j)))
  }

  /** A set with j in it, or not. */
  ghost function Marked(s: set<nat>, j: nat, w: bool): set<nat> { if w then s + {j} else s - {j} }

  /** A sound machine with `root` an address space whose window takes 4 KB pages. */
  ghost predicate SpaceOk(m: Machine, root: nat)
    reads m, m.pmm, m.pmm.bitmap
  {
    && m.Valid() && IsRoot(m.owner, root) && PagesOwned(m.mem, m.owner)
    && (forall j {:trigger SlotIx(j)} :: 0 <= j < 512 ==> NotHuge(m.mem, root, SlotIx(j)))
  }

  /** Once one slot is mapped, the whole window takes 4 KB pages. */
  lemma WindowOpen(mem: seq<seq<byte>>, root: nat, j: nat, j': nat)
    requires Lookup(mem, root, SlotIx(j)).Some?
    ensures NotHuge(mem, root, SlotIx(j'))
  {
  }

  /** The window lies below a single entry of one directory. */
  lemma OneHole(mem: seq<seq<byte>>, root: nat, j: nat, j': nat)
    requires NotHuge(mem, root, SlotIx(j))
    ensures NotHuge(mem, root, SlotIx(j'))
  {
  }

  // ---- taking a frame into use as a page ----

  /** A frame that was handed out and is not part of anything yet. */
  ghost predicate Loose(m: Machine, p: nat)
    reads m, m.pmm, m.pmm.bitmap
  {
    m.Valid() && p < 262144 && p !in m.owner && p !in m.Free() && p != m.kernel.pml4
  }

  lemma PageKeepsTree(mem: seq<seq<byte>>, owner: map<nat, Owner>, kentry: nat, p: nat, o: Owner)
    requires TreeOk(mem, owner, kentry) && p !in owner && p < |mem| && o.Page?
    ensures TreeOk(mem, owner[p := o], kentry)
  {
    forall f: nat, j: nat | f in owner[p := o] && j < 512
      ensures EntryOk(owner[p := o], owner[p := o][f], j, At(mem, f, j))
    {
      if f != p {
        assert EntryOk(owner, owner[f], j, At(mem, f, j));
        MoreOwners(owner, owner[p := o], owner[f], j, At(mem, f, j));
      }
    }
  }

  lemma MappedPagesOwned(mem: seq<seq<byte>>, owner: map<nat, Owner>, mem': seq<seq<byte>>, owner': map<nat, Owner>,
                         free: set<nat>, free': set<nat>, root: nat, ix: Ix, p: nat)
    requires PagesOwned(mem, owner) && FramesKept(mem, owner, free, mem', owner', free') && WfIx(ix)
    requires PageMapped(mem, owner, mem', root, ix, p) && p !in owner' && IsRoot(owner, root) && ix == SlotIx(ix.i1)
    requires NoNewRoots(owner, owner') && p < 262144
    ensures PagesOwned(mem', owner'[p := Page(TreeOf(root, ix.i4), ix)])
  {
    var owner'' := owner'[p := Page(TreeOf(root, ix.i4), ix)];
    forall r: nat, x | IsRoot(owner'', r) && WfIx(x) && x.i4 != 511 && Lookup(mem', r, x).Some?
      ensures PageOwned(owner'', r, x, Lookup(mem', r, x).value)
    {
      assert r != p && r in owner' && IsRoot(owner, r);
    }
  }

  /** The address spaces are the same and every frame in use is still used for the same. */
  ghost predicate RootsKept(owner: map<nat, Owner>, owner': map<nat, Owner>) {
    && (forall r: nat {:trigger IsRoot(owner', r)} :: IsRoot(owner, r) <==> IsRoot(owner', r))
    && (forall f {:trigger f in owner'} :: f in owner ==> f in owner' && owner'[f] == owner[f])
  }

  /** The windows of all address spaces but `root` and the rights to their pages are as they
      were, and all links of upper-level tables. */
  ghost predicate OthersKept(mem: seq<seq<byte>>, owner: map<nat, Owner>, mem': seq<seq<byte>>, root: nat) {
    && LinksKept(mem, owner, mem')
    && (forall r: nat {:trigger ImageOf(mem', r)} {:trigger Writable(mem', r)} :: IsRoot(owner, r) && r != root ==>
          ImageOf(mem', r) == ImageOf(mem, r) && Writable(mem', r) == Writable(mem, r))
  }

  lemma OthersTrans(m0: seq<seq<byte>>, o0: map<nat, Owner>, m1: seq<seq<byte>>, o1: map<nat, Owner>,
                    m2: seq<seq<byte>>, root: nat)
    requires OthersKept(m0, o0, m1, root) && OthersKept(m1, o1, m2, root) && RootsKept(o0, o1)
    ensures OthersKept(m0, o0, m2, root)
  {
    hide ImageOf, Writable, LinksKept;
    LinksTrans(m0, o0, m1, o1, m2);
    forall r: nat | IsRoot(o0, r) && r != root
      ensures ImageOf(m2, r) == ImageOf(m0, r) && Writable(m2, r) == Writable(m0, r)
    {
      assert IsRoot(o1, r);
      assert ImageOf(m1, r) == ImageOf(m0, r);
    }
  }

  ghost predicate OwnersKept(owner: map<nat, Owner>, owner': map<nat, Owner>) {
    forall f {:trigger f in owner'} :: f in owner ==> f in owner' && owner'[f] == owner[f]
  }

  lemma NothingChanged(mem: seq<seq<byte>>, owner: map<nat, Owner>, root: nat)
    ensures OthersKept(mem, owner, mem, root) && ImagesKept(mem, owner, mem)
    ensures OwnersKept(owner, owner) && RootsKept(owner, owner)
  {
  }

  lemma LinksOf(mem: seq<seq<byte>>, owner: map<nat, Owner>, mem': seq<seq<byte>>, root: nat)
    requires OthersKept(mem, owner, mem', root) || ImagesKept(mem, owner, mem')
    ensures LinksKept(mem, owner, mem') && OthersKept(mem, owner, mem', root)
  {
    hide LinksKept;
  }

  lemma KeptOwners(mem: seq<seq<byte>>, owner: map<nat, Owner>, free: set<nat>, mem': seq<seq<byte>>,
                   owner': map<nat, Owner>, free': set<nat>)
    requires Kept(mem, owner, free, mem', owner', free')
    ensures OwnersKept(owner, owner')
  {
  }

  lemma OwnersTrans(o0: map<nat, Owner>, o1: map<nat, Owner>, o2: map<nat, Owner>)
    requires OwnersKept(o0, o1) && RootsKept(o1, o2)
    ensures OwnersKept(o0, o2)
  {
    forall f | f in o0 ensures f in o2 && o2[f] == o0[f] {
      assert f in o1;
    }
  }

  lemma RootsTrans(o0: map<nat, Owner>, o1: map<nat, Owner>, o2: map<nat, Owner>)
    requires RootsKept(o0, o1) && RootsKept(o1, o2)
    ensures RootsKept(o0, o2)
  {
    forall r: nat ensures IsRoot(o0, r) <==> IsRoot(o2, r) {
      assert IsRoot(o0, r) <==> IsRoot(o1, r);
    }
    forall f | f in o0 ensures f in o2 && o2[f] == o0[f] {
      assert f in o1;
    }
  }

  /** Changes to the window of `root` that leave everything else alone: slot j now holds
      `page`, writable or not, other slots and all other address spaces are as they were. */
  ghost predicate SlotSet(mem: seq<seq<byte>>, owner: map<nat, Owner>, mem': seq<seq<byte>>, root: nat, j: nat,
                          page: seq<byte>, w: bool) {
    && ImageOf(mem', root) == ImageOf(mem, root)[j := page]
    && Writable(mem', root) == Marked(Writable(mem, root), j, w)
    && OthersKept(mem, owner, mem', root)
  }

  lemma MappedSlotSet(mem: seq<seq<byte>>, owner: map<nat, Owner>, mem': seq<seq<byte>>, owner': map<nat, Owner>,
                      kentry: nat, free: set<nat>, free': set<nat>, root: nat, j: nat, p: nat, e: nat)
    requires TreeOk(mem, owner, kentry) && PagesOwned(mem, owner) && FramesKept(mem, owner, free, mem', owner', free')
    requires (forall f {:trigger f in owner} :: f in owner ==> f !in free) && p < |mem|
    requires j < 512 && IsRoot(owner, root) && PageMapped(mem, owner, mem', root, SlotIx(j), p)
    requires LeafSet(mem, owner, mem', root, SlotIx(j), e)
    ensures SlotSet(mem, owner, mem', root, j, mem'[p], WriteBit(e))
  {
    hide Lookup, Leaf, At, WriteBit, TreeOk, LinksKept, PagesOwned, PageMapped, LeafSet;
    KeptLinks(mem, owner, free, mem', owner', free');
    forall r: nat, x: nat | IsRoot(owner, r) && x < 512
      ensures SlotFrame(mem', r, x) == if x == j && r == root then Some(p) else SlotFrame(mem, r, x)
      ensures SlotFrame(mem, r, x).Some? ==>
        SlotFrame(mem, r, x).value < |mem| && mem'[SlotFrame(mem, r, x).value] == mem[SlotFrame(mem, r, x).value]
      ensures Leaf(mem', r, SlotIx(x)) == if x == j && r == root then e else Leaf(mem, r, SlotIx(x))
    {
      OneSlot(mem, owner, mem', root, j, p, e, r, x);
      if SlotFrame(mem, r, x).Some? {
        SlotInMemory(mem, owner, kentry, r, x);
        PageFacts(mem, owner, r, x);
      }
    }
  }

  lemma KeptLinks(mem: seq<seq<byte>>, owner: map<nat, Owner>, free: set<nat>, mem': seq<seq<byte>>,
                  owner': map<nat, Owner>, free': set<nat>)
    requires FramesKept(mem, owner, free, mem', owner', free')
    ensures |mem'| == |mem| && LinksKept(mem, owner, mem')
  {
  }

  lemma OneSlot(mem: seq<seq<byte>>, owner: map<nat, Owner>, mem': seq<seq<byte>>, root: nat, j: nat, p: nat, e: nat,
                r: nat, x: nat)
    requires PageMapped(mem, owner, mem', root, SlotIx(j), p) && LeafSet(mem, owner, mem', root, SlotIx(j), e)
    requires IsRoot(owner, root) && IsRoot(owner, r) && x < 512 && j < 512
    ensures SlotFrame(mem', r, x) == if x == j && r == root then Some(p) else SlotFrame(mem, r, x)
    ensures Leaf(mem', r, SlotIx(x)) == if x == j && r == root then e else Leaf(mem, r, SlotIx(x))
  {
    hide Lookup, Leaf;
    assert Lookup(mem', r, SlotIx(x)) == Lookup(mem', r, SlotIx(x));
  }

  /** The windows of all address spaces, the rights to their pages and all links of
      upper-level tables are as they were. */
  ghost predicate ImagesKept(mem: seq<seq<byte>>, owner: map<nat, Owner>, mem': seq<seq<byte>>) {
    && LinksKept(mem, owner, mem')
    && (forall r: nat {:trigger ImageOf(mem', r)} {:trigger Writable(mem', r)} :: IsRoot(owner, r) ==>
          ImageOf(mem', r) == ImageOf(mem, r) && Writable(mem', r) == Writable(mem, r))
  }

  /** Taking free frames into use as tables changes no window. */
  lemma KeptImages(mem: seq<seq<byte>>, owner: map<nat, Owner>, kentry: nat, free: set<nat>,
                   mem': seq<seq<byte>>, owner': map<nat, Owner>, free': set<nat>)
    requires TreeOk(mem, owner, kentry) && PagesOwned(mem, owner) && Kept(mem, owner, free, mem', owner', free')
    requires forall f {:trigger f in owner} :: f in owner ==> f !in free
    ensures ImagesKept(mem, owner, mem')
    ensures NoNewRoots(owner, owner') ==> PagesOwned(mem', owner')
  {
    hide At, Lookup, Leaf, WriteBit;
    forall r: nat, x: nat | IsRoot(owner, r) && x < 512
      ensures SlotFrame(mem', r, x) == SlotFrame(mem, r, x)
      ensures SlotFrame(mem, r, x).Some? ==>
        SlotFrame(mem, r, x).value < |mem| && mem'[SlotFrame(mem, r, x).value] == mem[SlotFrame(mem, r, x).value]
      ensures Leaf(mem', r, SlotIx(x)) == Leaf(mem, r, SlotIx(x))
    {
      assert Lookup(mem', r, SlotIx(x)) == Lookup(mem, r, SlotIx(x));
    }
    if NoNewRoots(owner, owner') {
      forall r: nat, ix | IsRoot(owner', r) && WfIx(ix) && ix.i4 != 511 && Lookup(mem', r, ix).Some?
        ensures PageOwned(owner', r, ix, Lookup(mem', r, ix).value)
      {
        assert r in owner && IsRoot(owner, r);
        assert Lookup(mem', r, ix) == Lookup(mem, r, ix);
      }
    }
  }

  /** Maps the loose frame p at slot j, writable if the flags say so. */
  method MapSlot(m: Machine, root: nat, j: nat, p: nat, flags: nat) returns (ok: bool)
    requires SpaceOk(m, root) && Loose(m, p) && j < 512 && flags < 0x1000
    modifies m`mem, m`owner, m.pmm`freeCount, m.pmm.bitmap
    ensures SpaceOk(m, root) && RootsKept(old(m.owner), m.owner) && m.Free() <= old(m.Free())
    ensures ok ==>
      && SlotFrame(m.mem, root, j) == Some(p)
      && SlotSet(old(m.mem), old(m.owner), m.mem, root, j, old(m.mem)[p], WriteBit(flags))
    ensures !ok ==> m.Free() == {} && ImagesKept(old(m.mem), old(m.owner), m.mem)
  {
    hide TreeOk, At, FreeSet, Lookup, ImageOf, NotHuge, IxOf, PagesOwned, SlotSet, ImagesKept, Leaf, LinksKept,
      WriteBit, LeafFlags;
    ghost var mem0, owner0, free0 := m.mem, m.owner, m.Free();
    SlotAddress(j);
    ok := m.MapUserPage(root * 4096, WINDOW + j * 4096, p * 4096, flags);
    if ok {
      assert m.mem[p] == mem0[p] && Lookup(m.mem, root, SlotIx(j)) == Some(p);
      MappedSlotSet(mem0, owner0, m.mem, m.owner, m.kentry, free0, m.Free(), root, j, p, p * 4096 + LeafFlags(flags));
      LeafWrite(p, flags);
      MappedPagesOwned(mem0, owner0, m.mem, m.owner, free0, m.Free(), root, SlotIx(j), p);
      PageKeepsTree(m.mem, m.owner, m.kentry, p, Page(TreeOf(root, 0), SlotIx(j)));
      m.owner := m.owner[p := Page(TreeOf(root, 0), SlotIx(j))];
      forall x | 0 <= x < 512 ensures NotHuge(m.mem, root, SlotIx(x)) {
        WindowOpen(m.mem, root, j, x);
      }
    } else {
      KeptImages(mem0, owner0, m.kentry, free0, m.mem, m.owner, m.Free());
      forall x | 0 <= x < 512 ensures NotHuge(m.mem, root, SlotIx(x)) {
        OneHole(m.mem, root, j, x);
      }
    }
  }

  lemma LeafWrite(p: nat, flags: nat)
    requires flags < 0x1000
    ensures WriteBit(p * 4096 + LeafFlags(flags)) == WriteBit(flags)
  {
    assert (p * 4096 + LeafFlags(flags)) / 2 == 2 * (p * 1024) + LeafFlags(flags) / 2;
    EvenPlus(p * 1024, LeafFlags(flags) / 2);
  }

  /** Takes a frame from the allocator; its bytes are whatever they were. */
  method AllocFrame(m: Machine) returns (r: Option<nat>)
    requires m.Valid()
    modifies m.pmm`freeCount, m.pmm.bitmap
    ensures m.Valid()
    ensures r.Some? ==> Loose(m, r.value) && m.Free() == old(m.Free()) - {r.value} && r.value in old(m.Free())
    ensures r.None? ==> m.Free() == old(m.Free()) == {}
  {
    hide TreeOk, At, FreeSet;
    var phys := m.pmm.AllocPage();
    r := if phys.None? then None else Some(phys.value / 4096);
  }

  /** Zeroes a frame that is not part of anything yet. */
  method ZeroFrame(m: Machine, p: nat)
    requires Loose(m, p)
    modifies m`mem
    ensures Loose(m, p) && m.mem == old(m.mem)[p := Zeros(4096)]
    ensures forall r, ix {:trigger Lookup(m.mem, r, ix)} {:trigger Leaf(m.mem, r, ix)} ::
      IsRoot(m.owner, r) && WfIx(ix) ==>
      Lookup(m.mem, r, ix) == Lookup(old(m.mem), r, ix) && Leaf(m.mem, r, ix) == Leaf(old(m.mem), r, ix)
  {
    hide FreeSet, EntryOk;
    ghost var before := m.mem;
    m.mem := m.mem[p := Zeros(4096)];
    OwnedAgree(before, m.mem, m.owner, m.kentry);
  }

  lemma PageWriteKeepsLinks(mem: seq<seq<byte>>, owner: map<nat, Owner>, p: nat, d: seq<byte>)
    requires p < |mem| && (p in owner ==> owner[p].Page?)
    ensures LinksKept(mem, owner, mem[p := d])
  {
    hide Entry;
  }

  lemma WrittenSlotSet(mem: seq<seq<byte>>, owner: map<nat, Owner>, kentry: nat, root: nat, j: nat, p: nat,
                       d: seq<byte>)
    requires TreeOk(mem, owner, kentry) && PagesOwned(mem, owner) && IsRoot(owner, root) && j < 512 && |d| == 4096
    requires SlotFrame(mem, root, j) == Some(p) && p < |mem| && p in owner && owner[p].Page?
    ensures SlotSet(mem, owner, mem[p := d], root, j, d, j in Writable(mem, root)) && PagesOwned(mem[p := d], owner)
    ensures SlotFrame(mem[p := d], root, j) == Some(p)
  {
    hide At, TreeOk, Lookup, Leaf, WriteBit;
    var mem' := mem[p := d];
    PageWriteKeepsLinks(mem, owner, p, d);
    forall r: nat, ix | IsRoot(owner, r) && WfIx(ix)
      ensures Lookup(mem', r, ix) == Lookup(mem, r, ix) && Leaf(mem', r, ix) == Leaf(mem, r, ix)
    {
      DataKeepsLookups(mem, owner, kentry, p, d, r, ix);
    }
    forall r: nat, x: nat | IsRoot(owner, r) && x < 512
      ensures SlotFrame(mem', r, x) == SlotFrame(mem, r, x)
      ensures SlotFrame(mem, r, x) == Some(p) ==> r == root && x == j
    {
      assert Lookup(mem', r, SlotIx(x)) == Lookup(mem, r, SlotIx(x));
      assert Lookup(mem, root, SlotIx(j)).Some?;
    }
  }

  /** Replaces the contents of the page at slot j, through its frame p. */
  method WriteSlot(m: Machine, root: nat, j: nat, p: nat, d: seq<byte>)
    requires SpaceOk(m, root) && j < 512 && SlotFrame(m.mem, root, j) == Some(p) && |d| == 4096
    modifies m`mem
    ensures SpaceOk(m, root) && SlotFrame(m.mem, root, j) == Some(p)
    ensures p < |old(m.mem)| && m.mem == old(m.mem)[p := d]
    ensures SlotSet(old(m.mem), m.owner, m.mem, root, j, d, j in Writable(old(m.mem), root))
  {
    hide At, FreeSet, ImageOf, EntryOk;
    ghost var before := m.mem;
    assert p in m.owner && m.owner[p] == Page(TreeOf(root, 0), SlotIx(j)) by {
      assert WfIx(SlotIx(j)) && Lookup(m.mem, root, SlotIx(j)).Some?;
    }
    WrittenSlotSet(m.mem, m.owner, m.kentry, root, j, p, d);
    DataKeepsTree(m.mem, m.owner, m.kentry, p, d);
    KernelSlotKept(m.mem, p, d, m.kernel.pml4);
    m.mem := m.mem[p := d];
    forall x | 0 <= x < 512 ensures NotHuge(m.mem, root, SlotIx(x)) {
      WindowOpen(m.mem, root, j, x);
    }
  }

  lemma KernelSlotKept(mem: seq<seq<byte>>, p: nat, d: seq<byte>, k: nat)
    requires p < |mem| && k != p
    ensures At(mem[p := d], k, 511) == At(mem, k, 511)
  {
  }

  lemma SlotContents(mem: seq<seq<byte>>, root: nat, j: nat, p: nat)
    requires WfMem(mem) && j < 512 && SlotFrame(mem, root, j) == Some(p) && p < |mem|
    ensures j in ImageOf(mem, root) && ImageOf(mem, root)[j] == mem[p] && |mem[p]| == 4096
  {
  }

  lemma SlotUnmapped(mem: seq<seq<byte>>, root: nat, j: nat)
    requires SlotFrame(mem, root, j).None?
    ensures j !in ImageOf(mem, root)
  {
  }

  /** The mapped frame of a slot lies in memory. */
  lemma SlotInMemory(mem: seq<seq<byte>>, owner: map<nat, Owner>, kentry: nat, root: nat, j: nat)
    requires TreeOk(mem, owner, kentry) && PagesOwned(mem, owner) && IsRoot(owner, root) && j < 512
    requires SlotFrame(mem, root, j).Some?
    ensures SlotFrame(mem, root, j).value < |mem| && WfMem(mem)
  {
    var p := Lookup(mem, root, SlotIx(j)).value;
    assert p in owner;
  }

  // ---- around the window ----

  /** Address v is mapped to itself by a 2 MB page that the kernel can write to. */
  ghost predicate SelfMapped(mem: seq<seq<byte>>, root: nat, v: nat) {
    && EndsHuge(mem, root, v) && HwWalk(mem, root, v) == Some(v) && KernelStore(mem, root, v) == Some(v)
    && HugeFrame(mem, root, IxOf(v)) == v / 0x20_0000 * 512
  }

  /** Outside the window the first four gigabytes are mapped to themselves by 2 MB pages. */
  ghost predicate LowMapped(mem: seq<seq<byte>>, root: nat) {
    forall v: nat {:trigger HwWalk(mem, root, v)} ::
      v < 0x1_0000_0000 && !(0x40_0000 <= v < 0x60_0000) ==> SelfMapped(mem, root, v)
  }

  lemma BuiltLow(mem: seq<seq<byte>>, t: Tables, kentry: nat)
    requires DistinctTables(t, 262144) && SpaceBuilt(mem, t, kentry)
    ensures LowMapped(mem, t.root)
  {
    hide At, HwWalk, SpaceBuilt, EndsHuge, HugeFrame, IxOf;
    forall v: nat | v < 0x1_0000_0000 && !(0x40_0000 <= v < 0x60_0000) ensures SelfMapped(mem, t.root, v) {
      SpaceShape(mem, t, kentry, v);
      HugeHere(mem, t, kentry, v);
    }
  }

  /** As long as no used link changes, that shape stays. */
  lemma LowKept(mem: seq<seq<byte>>, owner: map<nat, Owner>, kentry: nat, mem': seq<seq<byte>>, root: nat)
    requires TreeOk(mem, owner, kentry) && IsRoot(owner, root) && LinksKept(mem, owner, mem') && LowMapped(mem, root)
    ensures LowMapped(mem', root)
  {
    hide At, HwWalk, TreeOk, LinksKept, EndsHuge, HugeFrame, IxOf;
    forall v: nat | v < 0x1_0000_0000 && !(0x40_0000 <= v < 0x60_0000) ensures SelfMapped(mem', root, v) {
      assert HwWalk(mem, root, v) == Some(v);
      HugeWalkKept(mem, owner, kentry, mem', root, v);
    }
  }

  // ---- user mode ----

  /** Outside the shared top slot user mode reaches the mapped pages of the window and
      nothing else. */
  lemma UserReachesWindow(mem: seq<seq<byte>>, owner: map<nat, Owner>, kentry: nat, root: nat, v: nat, write: bool)
    requires TreeOk(mem, owner, kentry) && PagesOwned(mem, owner) && IsRoot(owner, root)
    requires IxOf(v).i4 != 511 && UserWalk(mem, root, v, write).Some?
    ensures 0x40_0000 <= v < 0x60_0000 && IxOf(v) == SlotIx((v - 0x40_0000) / 4096)
    ensures SlotFrame(mem, root, (v - 0x40_0000) / 4096).Some?
    ensures UserWalk(mem, root, v, write) == Some(SlotFrame(mem, root, (v - 0x40_0000) / 4096).value * 4096 + v % 4096)
  {
    hide At, TreeOk, Lookup, HwWalk, UserWalk;
    UserReachesPages(mem, owner, kentry, root, v, write);
    assert PageOwned(owner, root, IxOf(v), Lookup(mem, root, IxOf(v)).value);
    CanonicalWalk(mem, root, v, write);
    WindowAddress(v);
  }

  lemma CanonicalWalk(mem: seq<seq<byte>>, root: nat, v: nat, write: bool)
    requires UserWalk(mem, root, v, write).Some?
    ensures Canonical(v)
  {
  }

  lemma WindowAddress(v: nat)
    requires Canonical(v) && IxOf(v).i4 == 0 && IxOf(v).i3 == 0 && IxOf(v).i2 == 2
    ensures 0x40_0000 <= v < 0x60_0000 && IxOf(v).i1 == (v - 0x40_0000) / 4096
  {
    var q := v / 0x80_0000_0000;
    assert v >= 0xFFFF_8000_0000_0000 ==> 0x1FF_FF00 <= q <= 0x1FF_FFFF;
    assert q < 256;
    assert v / 0x80_0000_0000 == 0 && v / 0x4000_0000 < 512;
    assert v / 0x20_0000 < 512;
  }

  /** Memory after byte b was stored at physical address w; addresses beyond the memory
      take nothing. */
  function StoreAt(mem: seq<seq<byte>>, w: nat, b: byte): seq<seq<byte>> {
    if w / 4096 < |mem| && w % 4096 < |mem[w / 4096]| then
      var frame: seq<byte> := mem[w / 4096][w % 4096 := b];
      mem[w / 4096 := frame]
    else mem
  }

  /** Page slot j with byte x replaced. */
  ghost function PageWith(img: map<nat, seq<byte>>, j: nat, x: nat, b: byte): map<nat, seq<byte>>
    requires j in img && x < |img[j]|
  {
    var page: seq<byte> := img[j][x := b];
    img[j := page]
  }

  /** A store of the program in `root`, wherever user mode may write. Outside the shared top
      slot it changes one byte of its own window; in that slot, whatever is at the
      physical address. */
  method UserStore(m: Machine, root: nat, v: nat, b: byte)
    requires SpaceOk(m, root) && UserWalk(m.mem, root, v, true).Some?
    modifies m`mem
    ensures m.mem == StoreAt(old(m.mem), UserWalk(old(m.mem), root, v, true).value, b)
    ensures IxOf(v).i4 != 511 ==>
      && SpaceOk(m, root) && OthersKept(old(m.mem), m.owner, m.mem, root) && 0x40_0000 <= v < 0x60_0000
      && (v - 0x40_0000) / 4096 in ImageOf(old(m.mem), root)
      && |ImageOf(old(m.mem), root)[(v - 0x40_0000) / 4096]| == 4096
      && ImageOf(m.mem, root) == PageWith(ImageOf(old(m.mem), root), (v - 0x40_0000) / 4096, v % 4096, b)
      && Writable(m.mem, root) == Writable(old(m.mem), root)
  {
    hide At, FreeSet, ImageOf, EntryOk, TreeOk, PagesOwned, Lookup, HwWalk, UserWalk, NotHuge, IxOf, LinksKept;
    var w := UserWalk(m.mem, root, v, true).value;
    ghost var before := m.mem;
    if IxOf(v).i4 != 511 {
      UserReachesWindow(m.mem, m.owner, m.kentry, root, v, true);
      StorePage(m, root, v, b, w);
    } else {
      m.mem := StoreAt(m.mem, w, b);
    }
  }

  method StorePage(m: Machine, root: nat, v: nat, b: byte, w: nat)
    requires SpaceOk(m, root) && 0x40_0000 <= v < 0x60_0000 && SlotFrame(m.mem, root, (v - 0x40_0000) / 4096).Some?
    requires w == SlotFrame(m.mem, root, (v - 0x40_0000) / 4096).value * 4096 + v % 4096
    modifies m`mem
    ensures m.mem == StoreAt(old(m.mem), w, b)
    ensures SpaceOk(m, root) && OthersKept(old(m.mem), m.owner, m.mem, root)
    ensures (v - 0x40_0000) / 4096 in ImageOf(old(m.mem), root)
    ensures |ImageOf(old(m.mem), root)[(v - 0x40_0000) / 4096]| == 4096
    ensures ImageOf(m.mem, root) == PageWith(ImageOf(old(m.mem), root), (v - 0x40_0000) / 4096, v % 4096, b)
    ensures Writable(m.mem, root) == Writable(old(m.mem), root)
  {
    hide At, FreeSet, ImageOf, EntryOk, PagesOwned, Lookup, NotHuge, LinksKept;
    var j := (v - 0x40_0000) / 4096;
    var p := SlotFrame(m.mem, root, j).value;
    assert w / 4096 == p && w % 4096 == v % 4096;
    SlotInMemory(m.mem, m.owner, m.kentry, root, j);
    SlotContents(m.mem, root, j, p);
    WriteSlot(m, root, j, p, m.mem[p][v % 4096 := b]);
  }

  /** A user-mode store of b at v, if it is allowed at all, changes no other window. */
  ghost predicate WindowsSafe(mem: seq<seq<byte>>, owner: map<nat, Owner>, root: nat, v: nat, b: byte) {
    UserWalk(mem, root, v, true).Some? ==>
      forall r: nat {:trigger IsRoot(owner, r)} :: IsRoot(owner, r) && r != root ==>
        ImageOf(StoreAt(mem, UserWalk(mem, root, v, true).value, b), r) == ImageOf(mem, r)
  }

  /** A store at the kernel alias of another program's byte changes that byte. */
  lemma AliasStoreHits(mem: seq<seq<byte>>, owner: map<nat, Owner>, kentry: nat, root: nat, other: nat, j: nat, x: nat,
                       b: byte)
    requires TreeOk(mem, owner, kentry) && PagesOwned(mem, owner) && IsRoot(owner, other) && AliasAt(mem, root)
    requires j < 512 && SlotFrame(mem, other, j).Some? && x < 4096
    ensures var p := SlotFrame(mem, other, j).value;
      && UserWalk(mem, root, PhysToVirt(p * 4096 + x), true) == Some(p * 4096 + x)
      && j in ImageOf(mem, other) && |ImageOf(mem, other)[j]| == 4096
      && ImageOf(StoreAt(mem, p * 4096 + x, b), other) == PageWith(ImageOf(mem, other), j, x, b)
  {
    hide At, TreeOk, Lookup, HwWalk, UserWalk, ImageOf, EndsHuge, PagesOwned;
    var p := SlotFrame(mem, other, j).value;
    PageFacts(mem, owner, other, j);
    SlotInMemory(mem, owner, kentry, other, j);
    SlotContents(mem, other, j, p);
    var w := p * 4096 + x;
    assert w / 4096 == p && w % 4096 == x;
    assert PhysToVirt(w) == PhysToVirt(w);
    WrittenSlotSet(mem, owner, kentry, other, j, p, mem[p][x := b]);
  }

  lemma PageFacts(mem: seq<seq<byte>>, owner: map<nat, Owner>, root: nat, j: nat)
    requires PagesOwned(mem, owner) && IsRoot(owner, root) && j < 512 && SlotFrame(mem, root, j).Some?
    ensures PageOwned(owner, root, SlotIx(j), SlotFrame(mem, root, j).value)
  {
    hide Lookup;
    assert WfIx(SlotIx(j)) && Lookup(mem, root, SlotIx(j)).Some?;
  }

  /** As long as another program has a page: user-mode stores at addresses of top-level slot
      i4 leave all other windows alone if and only if that is not the shared slot. */
  lemma IsolationIff(mem: seq<seq<byte>>, owner: map<nat, Owner>, kentry: nat, root: nat, other: nat, j: nat, i4: nat)
    requires TreeOk(mem, owner, kentry) && PagesOwned(mem, owner) && IsRoot(owner, root) && AliasAt(mem, root)
    requires IsRoot(owner, other) && other != root && j < 512 && SlotFrame(mem, other, j).Some?
    ensures (forall v: nat, b: byte :: IxOf(v).i4 == i4 ==> WindowsSafe(mem, owner, root, v, b)) <==> i4 != 511
  {
    hide At, TreeOk, Lookup, HwWalk, UserWalk, ImageOf, IxOf, AliasAt, PagesOwned, PhysToVirt;
    if i4 != 511 {
      forall v: nat, b: byte | IxOf(v).i4 == i4 ensures WindowsSafe(mem, owner, root, v, b) {
        if UserWalk(mem, root, v, true).Some? {
          OwnStore(mem, owner, kentry, root, v, b);
        }
      }
    } else {
      var p := SlotFrame(mem, other, j).value;
      PageFacts(mem, owner, other, j);
      HighIndices(p * 4096);
      SlotInMemory(mem, owner, kentry, other, j);
      SlotContents(mem, other, j, p);
      var b: byte := if mem[p][0] == 0 then 1 else 0;
      AliasStoreHits(mem, owner, kentry, root, other, j, 0, b);
      assert !WindowsSafe(mem, owner, root, PhysToVirt(p * 4096), b);
    }
  }

  lemma OwnStore(mem: seq<seq<byte>>, owner: map<nat, Owner>, kentry: nat, root: nat, v: nat, b: byte)
    requires TreeOk(mem, owner, kentry) && PagesOwned(mem, owner) && IsRoot(owner, root)
    requires IxOf(v).i4 != 511 && UserWalk(mem, root, v, true).Some?
    ensures OthersKept(mem, owner, StoreAt(mem, UserWalk(mem, root, v, true).value, b), root)
  {
    hide At, TreeOk, Lookup, HwWalk, UserWalk, ImageOf, IxOf, LinksKept, PagesOwned;
    UserReachesWindow(mem, owner, kentry, root, v, true);
    var j := (v - 0x40_0000) / 4096;
    var p, x := SlotFrame(mem, root, j).value, v % 4096;
    PageFacts(mem, owner, root, j);
    SlotInMemory(mem, owner, kentry, root, j);
    SlotContents(mem, root, j, p);
    assert (p * 4096 + x) / 4096 == p && (p * 4096 + x) % 4096 == x;
    WrittenSlotSet(mem, owner, kentry, root, j, p, mem[p][x := b]);
  }
}
