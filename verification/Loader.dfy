/** Loading a program into a fresh address space: segments page by page, then the stack. */
module Loader {
  import opened Bytes
  import opened Pmm
  import opened PageTables
  import opened KernelTables
  import opened Paging
  import opened AddressSpace
  import opened UserImage
  import opened Elf

  /** The frame of slot j: the one already mapped, or a fresh zeroed one, mapped with these
      flags. The page is zeroed after it is mapped. */
  method EnsurePage(m: Machine, root: nat, j: nat, flags: nat) returns (r: Option<nat>)
    requires SpaceOk(m, root) && j < 512 && flags < 0x1000
    modifies m`mem, m`owner, m.pmm`freeCount, m.pmm.bitmap
    ensures SpaceOk(m, root) && RootsKept(old(m.owner), m.owner) && OthersKept(old(m.mem), old(m.owner), m.mem, root)
    ensures r.Some? ==>
      && SlotFrame(m.mem, root, j) == Some(r.value) && r.value < |m.mem|
      && ImageOf(m.mem, root) == ImageOf(old(m.mem), root)[j := PageOr0(ImageOf(old(m.mem), root), j)]
      && Writable(m.mem, root) ==
         if j in ImageOf(old(m.mem), root) then Writable(old(m.mem), root)
         else Marked(Writable(old(m.mem), root), j, WriteBit(flags))
    ensures r.None? ==> m.Free() == {}
  {
    hide TreeOk, At, FreeSet, Lookup, ImageOf, NotHuge, EntryOk, Writable, WriteBit;
    ghost var mem0, owner0 := m.mem, m.owner;
    var p := SlotFrame(m.mem, root, j);
    if p.Some? {
      SlotInMemory(m.mem, m.owner, m.kentry, root, j);
      SlotContents(m.mem, root, j, p.value);
      return p;
    }
    SlotUnmapped(m.mem, root, j);
    var q := AllocFrame(m);
    if q.None? {
      return None;
    }
    var ok := MapSlot(m, root, j, q.value, flags);
    if !ok {
      return None;
    }
    ghost var mem1, owner1 := m.mem, m.owner;
    WriteSlot(m, root, j, q.value, Zeros(4096));
    OthersTrans(mem0, owner0, mem1, owner1, m.mem, root);
    SlotInMemory(m.mem, m.owner, m.kentry, root, j);
    r := q;
  }

  /** One round of the page loop. */
  method LoadPage(m: Machine, root: nat, j: nat, ph: Phdr, data: seq<byte>) returns (ok: bool)
    requires SpaceOk(m, root) && j < 512
    requires 0x40_0000 <= ph.vaddr && ph.offset + ph.filesz <= |data| && FirstSlot(ph) <= j
    modifies m`mem, m`owner, m.pmm`freeCount, m.pmm.bitmap
    ensures SpaceOk(m, root) && RootsKept(old(m.owner), m.owner) && OthersKept(old(m.mem), old(m.owner), m.mem, root)
    ensures ok ==>
      && ImageOf(m.mem, root) == ImageOf(old(m.mem), root)[j := SlotLoaded(ImageOf(old(m.mem), root), ph, data, j)]
      && RightsSet(ImageOf(old(m.mem), root), Writable(old(m.mem), root), Writable(m.mem, root), j, j + 1, Writes(ph))
    ensures !ok ==> m.Free() == {}
  {
    hide TreeOk, At, FreeSet, Lookup, ImageOf, NotHuge, EntryOk, FirstSlot, CopyInto, PageOr0, Writable;
    ghost var mem0, owner0 := m.mem, m.owner;
    var pageFlags := if ph.flags / 2 % 2 == 1 then 7 else 5;
    var p := EnsurePage(m, root, j, pageFlags);
    if p.None? {
      return false;
    }
    ghost var mem1, owner1 := m.mem, m.owner;
    SlotInMemory(m.mem, m.owner, m.kentry, root, j);
    SlotContents(m.mem, root, j, p.value);
    PastStart(ph, j);
    WriteSlot(m, root, j, p.value, CopyInto(m.mem[p.value], WINDOW + j * 4096, ph, data));
    OthersTrans(mem0, owner0, mem1, owner1, m.mem, root);
    RootsTrans(owner0, owner1, m.owner);
    ok := true;
  }

  /** Maps and fills the pages of one segment. */
  method LoadOne(m: Machine, root: nat, ph: Phdr, data: seq<byte>) returns (ok: bool)
    requires SpaceOk(m, root) && Loadable(ph, data) && ph.ptype == PT_LOAD
    modifies m`mem, m`owner, m.pmm`freeCount, m.pmm.bitmap
    ensures SpaceOk(m, root) && RootsKept(old(m.owner), m.owner) && OthersKept(old(m.mem), old(m.owner), m.mem, root)
    ensures ok ==>
      && ImageOf(m.mem, root) == LoadSegment(ImageOf(old(m.mem), root), ph, data)
      && RightsSet(ImageOf(old(m.mem), root), Writable(old(m.mem), root), Writable(m.mem, root), FirstSlot(ph),
                   EndSlot(ph), Writes(ph))
    ensures !ok ==> m.Free() == {}
  {
    hide TreeOk, At, FreeSet, ImageOf, NotHuge, EntryOk, SlotLoaded, PagesOwned, Writable, RightsSet, LoadSlots, Writes;
    ghost var mem0, owner0 := m.mem, m.owner;
    var pageStart, pageEnd := PageStart(ph), PageEnd(ph);
    ghost var a, j: nat := FirstSlot(ph), FirstSlot(ph);
    ghost var img0, w0 := ImageOf(mem0, root), Writable(mem0, root);
    RightsNone(img0, w0, a, Writes(ph));
    LoadNone(img0, ph, data, a);
    var currentPage := pageStart;
    while currentPage < pageEnd
      invariant a <= j && currentPage == 0x40_0000 + j * 4096 && (j <= EndSlot(ph) || j == a)
      invariant SpaceOk(m, root) && RootsKept(owner0, m.owner) && OthersKept(mem0, owner0, m.mem, root)
      invariant ImageOf(m.mem, root) == LoadSlots(img0, ph, data, a, j)
      invariant RightsSet(img0, w0, Writable(m.mem, root), a, j, Writes(ph))
    {
      ghost var mem1, owner1 := m.mem, m.owner;
      ok := LoadPage(m, root, (currentPage - 0x40_0000) / 4096, ph, data);
      OthersTrans(mem0, owner0, mem1, owner1, m.mem, root);
      RootsTrans(owner0, owner1, m.owner);
      if !ok {
        return;
      }
      RightsMore(img0, ph, data, w0, Writable(mem1, root), Writable(m.mem, root), a, j);
      currentPage := currentPage + 4096;
      j := j + 1;
    }
    ok := true;
  }

  lemma LoadNone(img: Image, ph: Phdr, data: seq<byte>, a: nat)
    requires 0x40_0000 <= ph.vaddr && ph.offset + ph.filesz <= |data| && FirstSlot(ph) <= a
    ensures LoadSlots(img, ph, data, a, a) == img
  {
  }

  lemma RightsNone(img: Image, w: set<nat>, a: nat, writes: bool)
    ensures forall b :: b <= a ==> RightsSet(img, w, w, a, b, writes)
  {
  }

  /** One more slot of a segment. */
  lemma RightsMore(img: Image, ph: Phdr, data: seq<byte>, w: set<nat>, w1: set<nat>, w2: set<nat>, a: nat, j: nat)
    requires 0x40_0000 <= ph.vaddr && ph.offset + ph.filesz <= |data| && FirstSlot(ph) <= a <= j
    requires RightsSet(img, w, w1, a, j, Writes(ph))
    requires RightsSet(LoadSlots(img, ph, data, a, j), w1, w2, j, j + 1, Writes(ph))
    ensures RightsSet(img, w, w2, a, j + 1, Writes(ph))
    ensures LoadSlots(img, ph, data, a, j + 1) ==
      LoadSlots(img, ph, data, a, j)[j := SlotLoaded(LoadSlots(img, ph, data, a, j), ph, data, j)]
  {
    hide SlotLoaded, FirstSlot, Writes;
    LoadSlotsAt(img, ph, data, a, j, j);
    forall k: nat ensures k in w2 <==> if a <= k < j + 1 && k !in img then Writes(ph) else k in w {
      assert (k in w1 || k !in w1) && (k in w2 || k !in w2);
    }
  }

  /** A new address space is sound and its window is empty. */
  lemma FreshSpace(mem: seq<seq<byte>>, owner: map<nat, Owner>, free: set<nat>, mem': seq<seq<byte>>,
                   owner': map<nat, Owner>, free': set<nat>, kentry: nat, t: Tables)
    requires PagesOwned(mem, owner) && Kept(mem, owner, free, mem', owner', free') && DistinctTables(t, 262144)
    requires SpaceBuilt(mem', t, kentry) && owner' == Adopted(owner, t)
    requires NewFrames(owner, t)
    ensures PagesOwned(mem', owner') && ImageOf(mem', t.root) == map[] && Writable(mem', t.root) == {}
    ensures forall j :: 0 <= j < 512 ==> NotHuge(mem', t.root, SlotIx(j))
  {
    hide At, SpaceBuilt, Adopted, FramesKept;
    AdoptedOwners(owner, t);
    forall r: nat, ix | IsRoot(owner', r) && WfIx(ix) && ix.i4 != 511 && Lookup(mem', r, ix).Some?
      ensures PageOwned(owner', r, ix, Lookup(mem', r, ix).value)
    {
      if r == t.root {
        SpaceEmpty(mem', t, kentry, ix);
      } else {
        assert IsRoot(owner, r);
      }
    }
    forall j: nat | j < 512
      ensures SlotFrame(mem', t.root, j).None? && NotHuge(mem', t.root, SlotIx(j)) && Leaf(mem', t.root, SlotIx(j)) == 0
    {
      SpaceEmpty(mem', t, kentry, SlotIx(j));
    }
  }

  /** Loads all segments into an empty window. */
  method LoadProgram(m: Machine, root: nat, phs: seq<Phdr>, data: seq<byte>) returns (ok: bool, heapEnd: nat)
    requires SpaceOk(m, root) && ImageOf(m.mem, root) == map[] && Writable(m.mem, root) == {}
    requires AllLoadable(phs, data)
    modifies m`mem, m`owner, m.pmm`freeCount, m.pmm.bitmap
    ensures SpaceOk(m, root) && RootsKept(old(m.owner), m.owner) && OthersKept(old(m.mem), old(m.owner), m.mem, root)
    ensures ok ==>
      ImageOf(m.mem, root) == LoadAll(phs, data) && RightsOf(phs, Writable(m.mem, root)) && heapEnd == HeapEnd(phs)
    ensures !ok ==> m.Free() == {}
  {
    hide TreeOk, At, FreeSet, ImageOf, NotHuge, EntryOk, LoadSegment, PagesOwned, PageEnd, Writable, RightsOf,
      RightsSet;
    ghost var mem0, owner0 := m.mem, m.owner;
    ok, heapEnd := true, 0;
    NoRights();
    for i := 0 to |phs|
      invariant SpaceOk(m, root) && RootsKept(owner0, m.owner) && OthersKept(mem0, owner0, m.mem, root) && ok
      invariant ImageOf(m.mem, root) == LoadAll(phs[..i], data) && heapEnd == HeapEnd(phs[..i])
      invariant RightsOf(phs[..i], Writable(m.mem, root))
    {
      var ph := phs[i];
      assert phs[..i + 1][..i] == phs[..i] && phs[..i + 1][i] == ph;
      ghost var mem1, owner1 := m.mem, m.owner;
      if ph.ptype == PT_LOAD {
        ok := LoadOne(m, root, ph, data);
        OthersTrans(mem0, owner0, mem1, owner1, m.mem, root);
        RootsTrans(owner0, owner1, m.owner);
        if !ok {
          return;
        }
        heapEnd := if PageEnd(ph) > heapEnd then PageEnd(ph) else heapEnd;
      } else {
        NotLoaded(LoadAll(phs[..i], data), ph, data);
      }
      RightsNext(phs[..i + 1], data, Writable(mem1, root), Writable(m.mem, root));
    }
    assert phs[..|phs|] == phs;
  }

  lemma NoRights()
    ensures RightsOf([], {})
  {
  }

  lemma NotLoaded(img: Image, ph: Phdr, data: seq<byte>)
    requires ph.ptype != PT_LOAD
    ensures LoadSegment(img, ph, data) == img
  {
  }

  /** The first n stack pages are mapped and nothing below or above them has changed. */
  ghost predicate StackMapped(img: Image, img': Image, n: nat) {
    && (forall j: nat {:trigger j in img'} ::
          !(256 <= j < 256 + n) ==> (j in img' <==> j in img) && (j in img ==> img'[j] == img[j]))
    && (forall j: nat {:trigger j in img'} :: 256 <= j < 256 + n ==> j in img')
  }

  /** Maps the eight stack pages, writable. Their frames are used as they come, without
      zeroing. */
  method MapStack(m: Machine, root: nat) returns (ok: bool)
    requires SpaceOk(m, root)
    modifies m`mem, m`owner, m.pmm`freeCount, m.pmm.bitmap
    ensures SpaceOk(m, root) && RootsKept(old(m.owner), m.owner) && OthersKept(old(m.mem), old(m.owner), m.mem, root)
    ensures ok ==>
      && StackMapped(ImageOf(old(m.mem), root), ImageOf(m.mem, root), 8)
      && Writable(m.mem, root) == Writable(old(m.mem), root) + Slots(256, 8)
      && StackWritable(m.mem, root)
    ensures !ok ==> m.Free() == {}
  {
    hide TreeOk, At, FreeSet, ImageOf, NotHuge, EntryOk, PagesOwned, Lookup, Writable, UserWalk, OthersKept, LinksKept,
      StackMapped;
    ghost var mem0, owner0 := m.mem, m.owner;
    NothingChanged(mem0, owner0, root);
    NoStack(ImageOf(mem0, root));
    for i := 0 to 8
      invariant SpaceOk(m, root) && RootsKept(owner0, m.owner) && OthersKept(mem0, owner0, m.mem, root)
      invariant StackMapped(ImageOf(mem0, root), ImageOf(m.mem, root), i)
      invariant Writable(m.mem, root) == Writable(mem0, root) + Slots(256, i)
    {
      ghost var mem1, owner1 := m.mem, m.owner;
      ghost var p;
      ok, p := MapStackPage(m, root, i);
      OthersTrans(mem0, owner0, mem1, owner1, m.mem, root);
      RootsTrans(owner0, owner1, m.owner);
      if !ok {
        return;
      }
      MoreStack(ImageOf(mem0, root), ImageOf(mem1, root), ImageOf(m.mem, root), i, p);
      assert Slots(256, i + 1) == Slots(256, i) + {256 + i};
    }
    StackWrites(m.mem, m.owner, m.kentry, root);
    ok := true;
  }

  /** One round of that loop; the page holds what its frame held. */
  method MapStackPage(m: Machine, root: nat, i: nat) returns (ok: bool, ghost page: seq<byte>)
    requires SpaceOk(m, root) && i < 8
    modifies m`mem, m`owner, m.pmm`freeCount, m.pmm.bitmap
    ensures SpaceOk(m, root) && RootsKept(old(m.owner), m.owner) && OthersKept(old(m.mem), old(m.owner), m.mem, root)
    ensures ok ==>
      && ImageOf(m.mem, root) == ImageOf(old(m.mem), root)[256 + i := page]
      && Writable(m.mem, root) == Writable(old(m.mem), root) + {256 + i}
    ensures !ok ==> m.Free() == {}
  {
    hide TreeOk, At, FreeSet, ImageOf, NotHuge, EntryOk, PagesOwned, Lookup, Writable, LinksKept;
    page := [];
    ghost var mem0 := m.mem;
    NothingChanged(m.mem, m.owner, root);
    var p := AllocFrame(m);
    if p.None? {
      return false, page;
    }
    page := mem0[p.value];
    ok := MapSlot(m, root, 256 + i, p.value, 6);
  }

  lemma NoStack(img: Image)
    ensures StackMapped(img, img, 0)
  {
  }

  lemma MoreStack(img: Image, img1: Image, img2: Image, i: nat, page: seq<byte>)
    requires StackMapped(img, img1, i) && img2 == img1[256 + i := page]
    ensures StackMapped(img, img2, i + 1)
  {
    forall j: nat ensures
        if 256 <= j < 256 + (i + 1) then j in img2
        else (j in img2 <==> j in img) && (j in img ==> img2[j] == img[j]) {
      assert j in img1 || j !in img1;
    }
  }

  /** The n slots from a on. */
  ghost function Slots(a: nat, n: nat): (r: set<nat>)
    ensures forall j {:trigger j in r} :: j in r <==> a <= j < a + n
  {
    if n == 0 then {} else Slots(a, n - 1) + {a + n - 1}
  }

  /** User mode may write to a page of the window if and only if its slot says so. */
  lemma UserWritesSlot(mem: seq<seq<byte>>, owner: map<nat, Owner>, kentry: nat, root: nat, v: nat)
    requires TreeOk(mem, owner, kentry) && IsRoot(owner, root) && 0x40_0000 <= v < 0x60_0000
    requires NotHuge(mem, root, SlotIx((v - 0x40_0000) / 4096))
    ensures UserWalk(mem, root, v, true).Some? <==> (v - 0x40_0000) / 4096 in Writable(mem, root)
  {
    hide At, TreeOk, NotHuge, HwWalk, UserWalk, IxOf, PtOf;
    SlotOfAddress(v);
    UserWritesPages(mem, owner, kentry, root, v);
  }

  /** A program can push: its stack can be written to in user mode. */
  ghost predicate StackWritable(mem: seq<seq<byte>>, root: nat) {
    forall v: nat {:trigger UserWalk(mem, root, v, true)} ::
      0x50_0000 <= v < 0x50_8000 ==> UserWalk(mem, root, v, true).Some?
  }

  /** The stack can be written to if and only if its slots can. */
  lemma StackWrites(mem: seq<seq<byte>>, owner: map<nat, Owner>, kentry: nat, root: nat)
    requires TreeOk(mem, owner, kentry) && IsRoot(owner, root)
    requires forall j {:trigger SlotIx(j)} :: 0 <= j < 512 ==> NotHuge(mem, root, SlotIx(j))
    ensures StackWritable(mem, root) <==> Slots(256, 8) <= Writable(mem, root)
  {
    hide At, TreeOk, NotHuge, UserWalk, Writable;
    forall v: nat | 0x50_0000 <= v < 0x50_8000
      ensures UserWalk(mem, root, v, true).Some? <==> (v - 0x40_0000) / 4096 in Writable(mem, root)
      ensures (v - 0x40_0000) / 4096 in Slots(256, 8)
    {
      assert SlotIx((v - 0x40_0000) / 4096) == SlotIx((v - 0x40_0000) / 4096);
      UserWritesSlot(mem, owner, kentry, root, v);
    }
    forall j | j in Slots(256, 8) && StackWritable(mem, root) ensures j in Writable(mem, root) {
      var v := 0x40_0000 + j * 4096;
      assert UserWalk(mem, root, v, true).Some?;
      assert (v - 0x40_0000) / 4096 == j;
    }
  }

  // ---- spawning ----

  /** The byte a program in the address space `root` finds at address v in user mode. */
  ghost function UserByte(mem: seq<seq<byte>>, root: nat, v: nat): Option<byte> {
    var w := UserWalk(mem, root, v, false);
    if w.Some? && w.value / 4096 < |mem| && |mem[w.value / 4096]| == 4096 then Some(mem[w.value / 4096][w.value % 4096])
    else None
  }

  /** In the window user mode sees the image, and nothing where no page is. */
  lemma WindowByte(mem: seq<seq<byte>>, owner: map<nat, Owner>, kentry: nat, root: nat, v: nat)
    requires TreeOk(mem, owner, kentry) && IsRoot(owner, root) && PagesOwned(mem, owner) && 0x40_0000 <= v < 0x60_0000
    requires NotHuge(mem, root, SlotIx((v - 0x40_0000) / 4096))
    ensures WfImage(ImageOf(mem, root)) && UserByte(mem, root, v) == ImageByte(ImageOf(mem, root), v)
  {
    hide At, TreeOk, Lookup, NotHuge, HwWalk, UserWalk, IxOf;
    var j := (v - 0x40_0000) / 4096;
    forall x: nat | x in ImageOf(mem, root) ensures |ImageOf(mem, root)[x]| == 4096 {
      SlotInMemory(mem, owner, kentry, root, x);
    }
    SlotOfAddress(v);
    UserReadsPages(mem, owner, kentry, root, v);
    if SlotFrame(mem, root, j).Some? {
      SlotInMemory(mem, owner, kentry, root, j);
      WalkTarget(SlotFrame(mem, root, j).value, v);
    }
  }

  lemma SlotOfAddress(v: nat)
    requires 0x40_0000 <= v < 0x60_0000
    ensures IxOf(v) == SlotIx((v - 0x40_0000) / 4096) && (v - 0x40_0000) / 4096 < 512
  {
    var j := (v - 0x40_0000) / 4096;
    assert v / 0x1000 == 1024 + j && v / 0x20_0000 == 2 && v / 0x4000_0000 == 0 && v / 0x80_0000_0000 == 0;
  }

  lemma WalkTarget(p: nat, v: nat)
    ensures (p * 4096 + v % 4096) / 4096 == p && (p * 4096 + v % 4096) % 4096 == v % 4096
  {
  }

  /** The program below the stack, byte by byte, with its rights, and the stack's pages. */
  ghost predicate Loaded(mem: seq<seq<byte>>, root: nat, phs: seq<Phdr>, data: seq<byte>)
    requires AllLoadable(phs, data)
  {
    && (forall v {:trigger UserByte(mem, root, v)} ::
          0x40_0000 <= v < 0x50_0000 ==> UserByte(mem, root, v) == ByteOf(phs, data, v))
    && (forall v {:trigger UserByte(mem, root, v)} :: 0x50_0000 <= v < 0x50_8000 ==> UserByte(mem, root, v).Some?)
    && (forall v {:trigger WritableAt(phs, v)} ::
          0x40_0000 <= v < 0x50_0000 ==> (UserWalk(mem, root, v, true).Some? <==> WritableAt(phs, v)))
    && StackWritable(mem, root)
  }

  lemma LoadedBytes(mem: seq<seq<byte>>, owner: map<nat, Owner>, kentry: nat, root: nat, phs: seq<Phdr>,
                    data: seq<byte>, w: set<nat>)
    requires TreeOk(mem, owner, kentry) && IsRoot(owner, root) && PagesOwned(mem, owner) && AllLoadable(phs, data)
    requires forall j {:trigger SlotIx(j)} :: 0 <= j < 512 ==> NotHuge(mem, root, SlotIx(j))
    requires StackMapped(LoadAll(phs, data), ImageOf(mem, root), 8)
    requires RightsOf(phs, w) && Writable(mem, root) == w + Slots(256, 8)
    ensures Loaded(mem, root, phs, data)
  {
    hide At, TreeOk, UserByte, NotHuge, ImageOf, LoadAll, ByteOf, AllLoadable, PagesOwned, Writable, UserWalk, RightsOf,
      WritableAt;
    StackWrites(mem, owner, kentry, root);
    forall v: nat | 0x40_0000 <= v < 0x50_0000 ensures UserWalk(mem, root, v, true).Some? <==> WritableAt(phs, v) {
      assert SlotIx((v - 0x40_0000) / 4096) == SlotIx((v - 0x40_0000) / 4096);
      UserWritesSlot(mem, owner, kentry, root, v);
      RightsInPage(phs, w, v);
    }
    forall v: nat | 0x40_0000 <= v < 0x50_8000
      ensures v < 0x50_0000 ==> UserByte(mem, root, v) == ByteOf(phs, data, v)
      ensures v >= 0x50_0000 ==> UserByte(mem, root, v).Some?
    {
      WindowByte(mem, owner, kentry, root, v);
      LoadAllBytes(phs, data, v);
      var j := (v - 0x40_0000) / 4096;
      assert j in ImageOf(mem, root) || j !in ImageOf(mem, root);
    }
  }

  /** A well-formed program, once loaded, reads its own file bytes and zeroes after them. */
  lemma ProgramReadsItself(mem: seq<seq<byte>>, root: nat, phs: seq<Phdr>, data: seq<byte>, k: nat, v: nat)
    requires AllLoadable(phs, data) && NoOverlap(phs) && FileFits(phs) && Loaded(mem, root, phs, data)
    requires k < |phs| && phs[k].ptype == PT_LOAD && phs[k].vaddr <= v < phs[k].vaddr + phs[k].memsz
    ensures UserByte(mem, root, v) ==
      if v < phs[k].vaddr + phs[k].filesz then Some(data[phs[k].offset + (v - phs[k].vaddr)]) else Some(0)
  {
    LoadedImage(phs, data, k, v);
    MemoryInPages(phs[k], v);
    assert Loadable(phs[k], data);
  }

  datatype Process = Process(cr3: nat, entry: nat, stackTop: nat, heapEnd: nat)

  /** What spawning can come to. NoMemory includes the panic when no table can be made
      for a page, Panicked is the one when no address space can be made. */
  datatype Outcome = Spawned(process: Process) | BadHeader | NoMemory | Panicked

  /** Spawns the program in `data`. The caller hands in a file that holds its own headers. */
  method Spawn(m: Machine, data: seq<byte>) returns (r: Outcome)
    requires m.Valid() && PagesOwned(m.mem, m.owner)
    requires |data| >= 64 && PhOff(data) + PhNum(data) * PHDR_SIZE <= |data| && AllLoadable(Phdrs(data), data)
    modifies m`mem, m`owner, m.pmm`freeCount, m.pmm.bitmap
    ensures m.Valid()
    ensures r.BadHeader? <==> !HeaderValid(data)
    ensures r.BadHeader? ==> m.mem == old(m.mem) && m.owner == old(m.owner) && m.Free() == old(m.Free())
    ensures r.NoMemory? || r.Panicked? ==> m.Free() == {}
    ensures !r.Panicked? ==>
      PagesOwned(m.mem, m.owner) && ImagesKept(old(m.mem), old(m.owner), m.mem) && OwnersKept(old(m.owner), m.owner)
    ensures r.Spawned? ==>
      && r.process.cr3 % 4096 == 0 && r.process.cr3 / 4096 !in old(m.owner) && SpaceOk(m, r.process.cr3 / 4096)
      && Loaded(m.mem, r.process.cr3 / 4096, Phdrs(data), data) && LowMapped(m.mem, r.process.cr3 / 4096)
      && KernelKept(old(m.mem), m.mem, r.process.cr3 / 4096, m.kernel.pml4)
      && r.process.entry == EntryPoint(data) && r.process.stackTop == 0x50_8000
      && r.process.heapEnd == HeapEnd(Phdrs(data))
  {
    hide TreeOk, At, FreeSet, ImageOf, NotHuge, Lookup, Phdrs, EntryPoint, PhOff, PhNum, AllLoadable, Loaded,
      StackMapped, PagesOwned, LoadAll, HeapEnd, Adopted, LowMapped, SpaceBuilt, KernelKept, PointsTo, Writable,
      RightsOf, UserWalk, OthersKept, ImagesKept, RootsKept, OwnersKept, FramesKept, Kept,
      DistinctTables, NewFrames, PageMapped;
    ghost var mem0, owner0, free0 := m.mem, m.owner, m.Free();
    NothingChanged(mem0, owner0, 0);
    if !HeaderValid(data) {
      return BadHeader;
    }
    var cr3, t := CreateUserAddressSpace(m);
    if cr3.None? {
      return Panicked;
    }
    FreshSpace(mem0, owner0, free0, m.mem, m.owner, m.Free(), m.kentry, t);
    KeptImages(mem0, owner0, m.kentry, free0, m.mem, m.owner, m.Free());
    KeptOwners(mem0, owner0, free0, m.mem, m.owner, m.Free());
    ghost var mem1, owner1 := m.mem, m.owner;
    NewRoot(owner0, t);
    var root := cr3.value / 4096;
    var ok, heapEnd := LoadProgram(m, root, Phdrs(data), data);
    OwnersTrans(owner0, owner1, m.owner);
    SpawnKeeps(mem0, owner0, mem1, owner1, m.mem, root);
    if !ok {
      return NoMemory;
    }
    ghost var mem2, owner2 := m.mem, m.owner;
    ok := MapStack(m, root);
    OwnersTrans(owner0, owner2, m.owner);
    OthersTrans(mem1, owner1, mem2, owner2, m.mem, root);
    SpawnKeeps(mem0, owner0, mem1, owner1, m.mem, root);
    if !ok {
      return NoMemory;
    }
    LoadedBytes(m.mem, m.owner, m.kentry, root, Phdrs(data), data, Writable(mem2, root));
    BuiltLow(mem1, t, m.kentry);
    LinksOf(mem1, owner1, m.mem, root);
    LinksOf(mem0, owner0, m.mem, root);
    LowKept(mem1, owner1, m.kentry, m.mem, root);
    KernelPartKept(mem0, owner0, m.kentry, m.mem, m.owner, root, m.kernel.pml4);
    r := Spawned(Process(cr3.value, EntryPoint(data), (0x50_0000 + 8 * 4096) / 16 * 16, heapEnd));
  }

  lemma NewRoot(owner: map<nat, Owner>, t: Tables)
    requires NewFrames(owner, t)
    ensures t.root !in owner && !IsRoot(owner, t.root)
    ensures (0x50_0000 + 8 * 4096) / 16 * 16 == 0x50_8000 && t.root * 4096 % 4096 == 0 && t.root * 4096 / 4096 == t.root
  {
  }

  lemma SpawnKeeps(m0: seq<seq<byte>>, o0: map<nat, Owner>, m1: seq<seq<byte>>, o1: map<nat, Owner>,
                   m2: seq<seq<byte>>, root: nat)
    requires ImagesKept(m0, o0, m1) && OthersKept(m1, o1, m2, root) && !IsRoot(o0, root)
    requires OwnersKept(o0, o1)
    ensures ImagesKept(m0, o0, m2)
  {
    hide ImageOf, Writable, LinksKept;
    LinksTrans(m0, o0, m1, o1, m2);
    forall r: nat | IsRoot(o0, r) ensures ImageOf(m2, r) == ImageOf(m0, r) && Writable(m2, r) == Writable(m0, r) {
      assert r in o1;
      assert ImageOf(m1, r) == ImageOf(m0, r);
    }
  }
}
