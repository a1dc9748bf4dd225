/** The heap of a process: anonymous pages, the break, and anonymous mappings after it. */
module Heap {
  import opened Bytes
  import opened Pmm
  import opened PageTables
  import opened KernelTables
  import opened Paging
  import opened AddressSpace
  import opened UserImage
  import opened Elf
  import opened Loader

  /** One anonymous page: mapped; or no frame left; or no frame left for a table, where
      the kernel panics. */
  datatype Anon = Mapped | NoFrame | Panic

  lemma HoleKept(mem: seq<seq<byte>>, owner: map<nat, Owner>, kentry: nat, p: nat, d: seq<byte>, root: nat, ix: Ix)
    requires TreeOk(mem, owner, kentry) && IsRoot(owner, root) && WfIx(ix) && p < |mem| && p !in owner
    requires NotHuge(mem, root, ix)
    ensures NotHuge(mem[p := d], root, ix)
  {
    hide TreeOk, Entry;
    WalkOwned(mem, owner, kentry, root, ix);
    assert forall f: nat, i: nat :: f in owner ==> At(mem[p := d], f, i) == At(mem, f, i);
  }

  /** Zeroing a frame that belongs to nothing disturbs no table and no page. */
  lemma LooseFrameZeroed(mem: seq<seq<byte>>, owner: map<nat, Owner>, kentry: nat, p: nat, root: nat)
    requires TreeOk(mem, owner, kentry) && PagesOwned(mem, owner) && IsRoot(owner, root) && p < |mem| && p !in owner
    requires forall r, ix
      {:trigger Lookup(mem[p := Zeros(4096)], r, ix)} {:trigger Leaf(mem[p := Zeros(4096)], r, ix)} ::
      IsRoot(owner, r) && WfIx(ix) ==>
      && Lookup(mem[p := Zeros(4096)], r, ix) == Lookup(mem, r, ix)
      && Leaf(mem[p := Zeros(4096)], r, ix) == Leaf(mem, r, ix)
    requires NotHuge(mem, root, SlotIx(0))
    ensures PagesOwned(mem[p := Zeros(4096)], owner) && ImagesKept(mem, owner, mem[p := Zeros(4096)])
    ensures NotHuge(mem[p := Zeros(4096)], root, SlotIx(0))
  {
    hide Lookup, Leaf, TreeOk, At, WriteBit;
    var mem' := mem[p := Zeros(4096)];
    HoleKept(mem, owner, kentry, p, Zeros(4096), root, SlotIx(0));
    PageWriteKeepsLinks(mem, owner, p, Zeros(4096));
    forall r: nat, x: nat | IsRoot(owner, r) && x < 512
      ensures SlotFrame(mem', r, x) == SlotFrame(mem, r, x)
      ensures SlotFrame(mem, r, x).Some? ==> SlotFrame(mem, r, x).value != p
      ensures Leaf(mem', r, SlotIx(x)) == Leaf(mem, r, SlotIx(x))
    {
      assert Lookup(mem', r, SlotIx(x)) == Lookup(mem, r, SlotIx(x));
    }
  }

  /** Allocates, zeroes and maps the page at slot j, writable. */
  method AnonPage(m: Machine, root: nat, j: nat) returns (r: Anon)
    requires SpaceOk(m, root) && j < 512
    modifies m`mem, m`owner, m.pmm`freeCount, m.pmm.bitmap
    ensures SpaceOk(m, root) && RootsKept(old(m.owner), m.owner) && OthersKept(old(m.mem), old(m.owner), m.mem, root)
    ensures r.Mapped? ==>
      && ImageOf(m.mem, root) == ImageOf(old(m.mem), root)[j := Zeros(4096)]
      && Writable(m.mem, root) == Writable(old(m.mem), root) + {j}
    ensures !r.Mapped? ==>
      && ImageOf(m.mem, root) == ImageOf(old(m.mem), root) && Writable(m.mem, root) == Writable(old(m.mem), root)
      && m.Free() == {}
  {
    hide TreeOk, At, FreeSet, ImageOf, NotHuge, EntryOk, PagesOwned, Writable;
    ghost var mem0, owner0 := m.mem, m.owner;
    var p := AllocFrame(m);
    if p.None? {
      return NoFrame;
    }
    assert NotHuge(m.mem, root, SlotIx(0));
    ZeroFrame(m, p.value);
    LooseFrameZeroed(mem0, owner0, m.kentry, p.value, root);
    forall x | 0 <= x < 512 ensures NotHuge(m.mem, root, SlotIx(x)) {
      OneHole(m.mem, root, 0, x);
    }
    ghost var mem1, owner1 := m.mem, m.owner;
    var ok := MapSlot(m, root, j, p.value, 7);
    OthersTrans(mem0, owner0, mem1, owner1, m.mem, root);
    r := if ok then Mapped else Panic;
  }

  /** Slots a to b-1 now hold zeroed pages, every other slot is as it was. */
  ghost predicate Grown(img: Image, img': Image, a: nat, b: nat) {
    && (forall j: nat {:trigger j in img'} :: a <= j < b ==> j in img' && img'[j] == Zeros(4096))
    && (forall j: nat {:trigger j in img'} ::
          !(a <= j < b) ==> (j in img' <==> j in img) && (j in img ==> img'[j] == img[j]))
  }

  lemma MoreSlots(w: set<nat>, a: nat, n: nat)
    ensures w + Slots(a, n) + {a + n} == w + Slots(a, n + 1)
  {
  }

  lemma PagesGained(start: nat, n: nat)
    requires start % 4096 == 0
    ensures (start + n * 4096) / 4096 == start / 4096 + n && (start + n * 4096) % 4096 == 0
    ensures (start + n * 4096 - start) / 4096 == n
  {
  }

  lemma RoundedUp(end: nat, newBrk: nat)
    ensures RoundUp(newBrk) >= newBrk && RoundUp(newBrk) % 4096 == 0 && RoundUp(newBrk) < newBrk + 4096
    ensures end % 4096 == 0 && newBrk <= end ==> RoundUp(newBrk) <= end
  {
  }

  lemma SlotOfPage(base: nat, i: nat)
    requires base % 4096 == 0 && 0x40_0000 <= base
    ensures (base + i * 4096 - 0x40_0000) / 4096 == base / 4096 - 1024 + i
    ensures base + i * 4096 < 0x60_0000 ==> base / 4096 - 1024 + i < 512
  {
  }

  lemma NextPage(addr: nat, end: nat)
    requires addr % 4096 == 0 && addr < end
    ensures addr + 4096 <= RoundUp(end) && (end <= 0x60_0000 ==> addr + 4096 <= 0x60_0000)
  {
  }

  lemma GrownNone(img: Image, a: nat)
    ensures Grown(img, img, a, a)
  {
  }

  lemma GrownMore(img: Image, img1: Image, img2: Image, a: nat, b: nat)
    requires a <= b && Grown(img, img1, a, b) && img2 == img1[b := Zeros(4096)]
    ensures Grown(img, img2, a, b + 1)
  {
    hide Zeros;
    forall j: nat ensures
        if a <= j < b + 1 then j in img2 && img2[j] == Zeros(4096)
        else (j in img2 <==> j in img) && (j in img ==> img2[j] == img[j]) {
      assert j in img1 || j !in img1;
    }
  }

  /** Maps `pages` zeroed pages from `base` on. On exhausted memory it stops, leaving the
      n pages it has mapped. */
  method AllocAnon(m: Machine, root: nat, base: nat, pages: nat) returns (r: Anon, ghost n: nat)
    requires SpaceOk(m, root) && base % 4096 == 0 && 0x40_0000 <= base && base + pages * 4096 <= 0x60_0000
    modifies m`mem, m`owner, m.pmm`freeCount, m.pmm.bitmap
    ensures SpaceOk(m, root) && RootsKept(old(m.owner), m.owner) && OthersKept(old(m.mem), old(m.owner), m.mem, root)
    ensures n <= pages
    ensures Grown(ImageOf(old(m.mem), root), ImageOf(m.mem, root), base / 4096 - 1024, base / 4096 - 1024 + n)
    ensures Writable(m.mem, root) == Writable(old(m.mem), root) + Slots(base / 4096 - 1024, n)
    ensures r.Mapped? <==> n == pages
    ensures !r.Mapped? ==> m.Free() == {}
  {
    hide TreeOk, At, FreeSet, ImageOf, NotHuge, EntryOk, PagesOwned, Lookup, Writable, Grown, OthersKept, RootsKept,
      LinksKept;
    ghost var mem0, owner0 := m.mem, m.owner;
    ghost var a: nat := base / 4096 - 1024;
    NothingChanged(mem0, owner0, root);
    GrownNone(ImageOf(mem0, root), a);
    n := 0;
    for i := 0 to pages
      invariant SpaceOk(m, root) && RootsKept(owner0, m.owner) && OthersKept(mem0, owner0, m.mem, root)
      invariant n == i && Grown(ImageOf(mem0, root), ImageOf(m.mem, root), a, a + i)
      invariant Writable(m.mem, root) == Writable(mem0, root) + Slots(a, i)
    {
      var vaddr := base + i * 4096;
      SlotOfPage(base, i);
      ghost var mem1, owner1 := m.mem, m.owner;
      r := AnonPage(m, root, (vaddr - 0x40_0000) / 4096);
      OthersTrans(mem0, owner0, mem1, owner1, m.mem, root);
      RootsTrans(owner0, owner1, m.owner);
      if !r.Mapped? {
        return;
      }
      GrownMore(ImageOf(mem0, root), ImageOf(mem1, root), ImageOf(m.mem, root), a, a + i);
      MoreSlots(Writable(mem0, root), a, i);
      n := n + 1;
    }
    r := Mapped;
  }

  /** The pages from `init` to `end` are all there, writable, each with a frame of its own. */
  ghost predicate HeapMapped(mem: seq<seq<byte>>, root: nat, init: nat, end: nat) {
    && (forall j: nat {:trigger SlotFrame(mem, root, j)} ::
          init <= 0x40_0000 + j * 4096 < end ==> SlotFrame(mem, root, j).Some?)
    && (forall i: nat, j: nat {:trigger SlotFrame(mem, root, i), SlotFrame(mem, root, j)} ::
          init <= 0x40_0000 + i * 4096 < 0x40_0000 + j * 4096 < end ==>
            SlotFrame(mem, root, i) != SlotFrame(mem, root, j))
    && (forall j: nat {:trigger j in Writable(mem, root)} ::
          init <= 0x40_0000 + j * 4096 < end ==> j in Writable(mem, root))
  }

  lemma MappedHeap(mem: seq<seq<byte>>, owner: map<nat, Owner>, root: nat, init: nat, end: nat)
    requires PagesOwned(mem, owner) && IsRoot(owner, root) && end <= 0x60_0000
    requires forall j: nat {:trigger j in ImageOf(mem, root)} ::
      init <= 0x40_0000 + j * 4096 < end ==> j in ImageOf(mem, root)
    requires forall j: nat {:trigger j in Writable(mem, root)} ::
      init <= 0x40_0000 + j * 4096 < end ==> j in Writable(mem, root)
    ensures HeapMapped(mem, root, init, end)
  {
    hide Lookup, PagesOwned, Writable;
    forall j: nat | init <= 0x40_0000 + j * 4096 < end ensures SlotFrame(mem, root, j).Some? {
      assert j in ImageOf(mem, root);
    }
    forall i: nat, j: nat | init <= 0x40_0000 + i * 4096 < 0x40_0000 + j * 4096 < end
      ensures SlotFrame(mem, root, i) != SlotFrame(mem, root, j)
    {
      assert i in ImageOf(mem, root) && j in ImageOf(mem, root);
      PagesDistinct(mem, owner, root, SlotIx(i), root, SlotIx(j));
    }
  }

  lemma HeapInImage(mem: seq<seq<byte>>, owner: map<nat, Owner>, kentry: nat, root: nat, init: nat, end: nat, j: nat)
    requires TreeOk(mem, owner, kentry) && PagesOwned(mem, owner) && IsRoot(owner, root)
    requires HeapMapped(mem, root, init, end)
    requires init <= 0x40_0000 + j * 4096 < end <= 0x60_0000
    ensures j in ImageOf(mem, root)
  {
    hide Lookup, TreeOk, PagesOwned;
    assert SlotFrame(mem, root, j).Some?;
    SlotInMemory(mem, owner, kentry, root, j);
  }

  /** Growing the heap keeps its pages and adds the new ones. */
  lemma GrownHeap(mem: seq<seq<byte>>, owner: map<nat, Owner>, kentry: nat, mem': seq<seq<byte>>,
                  owner': map<nat, Owner>, root: nat, init: nat, end: nat, n: nat, kept: nat)
    requires TreeOk(mem, owner, kentry) && PagesOwned(mem, owner) && IsRoot(owner, root)
    requires HeapMapped(mem, root, init, end)
    requires PagesOwned(mem', owner') && IsRoot(owner', root)
    requires end % 4096 == 0 && 0x40_0000 <= init <= end && end + n * 4096 <= 0x60_0000 && kept <= n
    requires Grown(ImageOf(mem, root), ImageOf(mem', root), end / 4096 - 1024, end / 4096 - 1024 + n)
    requires Writable(mem', root) == Writable(mem, root) + Slots(end / 4096 - 1024, n)
    ensures HeapMapped(mem', root, init, end + kept * 4096)
  {
    hide Lookup, TreeOk, PagesOwned, ImageOf, SlotFrame, Writable;
    forall j: nat | init <= 0x40_0000 + j * 4096 < end + kept * 4096 ensures j in ImageOf(mem', root) {
      if 0x40_0000 + j * 4096 < end {
        HeapInImage(mem, owner, kentry, root, init, end, j);
      }
    }
    MappedHeap(mem', owner', root, init, end + kept * 4096);
  }

  /** The loop of sys_brk: maps zeroed pages from `start` up to `newBrk`, as far as memory goes. */
  method Extend(m: Machine, root: nat, start: nat, newBrk: nat) returns (addr: nat, panicked: bool, ghost n: nat)
    requires SpaceOk(m, root) && start % 4096 == 0 && 0x40_0000 <= start < newBrk <= 0x60_0000
    modifies m`mem, m`owner, m.pmm`freeCount, m.pmm.bitmap
    ensures SpaceOk(m, root) && RootsKept(old(m.owner), m.owner) && OthersKept(old(m.mem), old(m.owner), m.mem, root)
    ensures addr == start + n * 4096 && addr <= RoundUp(newBrk) && addr <= 0x60_0000
    ensures Grown(ImageOf(old(m.mem), root), ImageOf(m.mem, root), start / 4096 - 1024, start / 4096 - 1024 + n)
    ensures Writable(m.mem, root) == Writable(old(m.mem), root) + Slots(start / 4096 - 1024, n)
    ensures addr < newBrk || panicked ==> m.Free() == {}
  {
    hide TreeOk, At, FreeSet, ImageOf, NotHuge, EntryOk, PagesOwned, Lookup, Writable, Grown, OthersKept, RoundUp,
      RootsKept, LinksKept;
    ghost var mem0, owner0 := m.mem, m.owner;
    ghost var a: nat := start / 4096 - 1024;
    NothingChanged(mem0, owner0, root);
    GrownNone(ImageOf(mem0, root), a);
    addr, panicked, n := start, false, 0;
    while addr < newBrk
      invariant addr == start + n * 4096 && addr <= RoundUp(newBrk) && addr <= 0x60_0000 && !panicked
      invariant SpaceOk(m, root) && RootsKept(owner0, m.owner) && OthersKept(mem0, owner0, m.mem, root)
      invariant Grown(ImageOf(mem0, root), ImageOf(m.mem, root), a, a + n)
      invariant Writable(m.mem, root) == Writable(mem0, root) + Slots(a, n)
    {
      ghost var mem1, owner1 := m.mem, m.owner;
      SlotOfPage(start, n);
      var p := AnonPage(m, root, (addr - 0x40_0000) / 4096);
      OthersTrans(mem0, owner0, mem1, owner1, m.mem, root);
      RootsTrans(owner0, owner1, m.owner);
      if !p.Mapped? {
        panicked := p.Panic?;
        break;
      }
      GrownMore(ImageOf(mem0, root), ImageOf(mem1, root), ImageOf(m.mem, root), a, a + n);
      MoreSlots(Writable(mem0, root), a, n);
      NextPage(addr, newBrk);
      addr, n := addr + 4096, n + 1;
    }
  }

  const FAILED: nat := 0xFFFF_FFFF_FFFF_FFFF

  function RoundUp(a: nat): (r: nat)
    ensures r % 4096 == 0 && a <= r < a + 4096
  {
    (a + 4095) / 4096 * 4096
  }

  /** No right to write was lost, and new ones are at or above the break. */
  ghost predicate RightsGrown(w: set<nat>, w': set<nat>, end: nat) {
    w <= w' && forall j {:trigger j in w'} :: j in w' && j !in w ==> end <= 0x40_0000 + j * 4096
  }

  lemma SameRights(w: set<nat>, end: nat)
    ensures RightsGrown(w, w, end)
  {
  }

  lemma MoreRights(w0: set<nat>, w1: set<nat>, w2: set<nat>, end0: nat, end1: nat)
    requires RightsGrown(w0, w1, end0) && RightsGrown(w1, w2, end1) && end0 <= end1
    ensures RightsGrown(w0, w2, end0)
  {
  }

  lemma StackKeepsRights(mem: seq<seq<byte>>, owner: map<nat, Owner>, mem': seq<seq<byte>>, owner': map<nat, Owner>,
                         kentry: nat, root: nat, end: nat)
    requires TreeOk(mem, owner, kentry) && IsRoot(owner, root) && TreeOk(mem', owner', kentry) && IsRoot(owner', root)
    requires forall j {:trigger SlotIx(j)} :: 0 <= j < 512 ==>
      NotHuge(mem, root, SlotIx(j)) && NotHuge(mem', root, SlotIx(j))
    requires RightsGrown(Writable(mem, root), Writable(mem', root), end)
    ensures StackWritable(mem, root) ==> StackWritable(mem', root)
  {
    hide TreeOk, NotHuge, Writable, StackWritable;
    StackWrites(mem, owner, kentry, root);
    StackWrites(mem', owner', kentry, root);
  }

  /** A program can write to its heap. */
  lemma HeapWrites(mem: seq<seq<byte>>, owner: map<nat, Owner>, kentry: nat, root: nat, init: nat, end: nat)
    requires TreeOk(mem, owner, kentry) && IsRoot(owner, root) && HeapMapped(mem, root, init, end)
    requires forall j {:trigger SlotIx(j)} :: 0 <= j < 512 ==> NotHuge(mem, root, SlotIx(j))
    requires init % 4096 == 0 && end % 4096 == 0 && 0x40_0000 <= init && end <= 0x60_0000
    ensures forall v {:trigger UserWalk(mem, root, v, true)} :: init <= v < end ==> UserWalk(mem, root, v, true).Some?
  {
    hide At, TreeOk, NotHuge, UserWalk, Writable, SlotFrame;
    forall v | init <= v < end ensures UserWalk(mem, root, v, true).Some? {
      var j := (v - 0x40_0000) / 4096;
      assert SlotIx(j) == SlotIx(j);
      UserWritesSlot(mem, owner, kentry, root, v);
      assert init <= 0x40_0000 + j * 4096 < end;
    }
  }

  /** System calls of a running program that concern its memory, and its own stores in user
      mode. */
  datatype Call = Brk(addr: nat) | Mmap(len: nat) | Store(v: nat, b: byte)

  /** The call stays inside the window; a store is allowed in user mode and does not go
      through the shared top slot. */
  predicate Fits(mem: seq<seq<byte>>, root: nat, heapEnd: nat, c: Call) {
    match c
    case Brk(addr) => addr <= 0x60_0000
    case Mmap(len) => heapEnd + RoundUp(len) <= 0x60_0000
    case Store(v, _) => UserWalk(mem, root, v, true).Some? && IxOf(v).i4 != 511
  }

  /** Where a call may move the break to. */
  predicate Moved(c: Call, end: nat, end': nat) {
    match c
    case Brk(addr) => end <= end' && (addr <= end ==> end' == end) && (end < addr ==> end' <= RoundUp(addr))
    case Mmap(len) => end' == end || end' == end + RoundUp(len)
    case Store(_, _) => end' == end
  }

  /** The breaks before, between and after calls: page ends that never fall, each moved by
      its call. */
  ghost predicate Breaks(calls: seq<Call>, ends: seq<nat>) {
    && 0 < |ends| <= |calls| + 1
    && (forall i {:trigger ends[i]} :: 0 <= i < |ends| ==> ends[i] % 4096 == 0)
    && (forall i, j :: 0 <= i < j < |ends| ==> ends[i] <= ends[j])
    && (forall i {:trigger calls[i]} :: 0 <= i < |ends| - 1 ==> Moved(calls[i], ends[i], ends[i + 1]))
  }

  lemma FirstBreak(calls: seq<Call>, end: nat)
    requires end % 4096 == 0
    ensures Breaks(calls, [end])
  {
  }

  lemma NextBreak(calls: seq<Call>, ends: seq<nat>, end: nat)
    requires Breaks(calls, ends) && |ends| <= |calls| && end % 4096 == 0 && ends[|ends| - 1] <= end
    requires Moved(calls[|ends| - 1], ends[|ends| - 1], end)
    ensures Breaks(calls, ends + [end])
  {
    hide Moved;
  }

  /** The call is one that ends a run: it reaches beyond the window, faults, or stores into
      the top 512 GB. */
  ghost predicate Stops(mem: seq<seq<byte>>, root: nat, end: nat, c: Call) {
    match c
    case Brk(addr) => addr > 0x60_0000
    case Mmap(len) => end + RoundUp(len) > 0x60_0000
    case Store(v, _) => UserWalk(mem, root, v, true).None? || v >= 0xFFFF_FF80_0000_0000
  }

  lemma FitsOrStops(mem: seq<seq<byte>>, root: nat, end: nat, c: Call)
    ensures Fits(mem, root, end, c) <==> !Stops(mem, root, end, c)
  {
    hide UserWalk, RoundUp;
    if c.Store? && UserWalk(mem, root, c.v, true).Some? {
      CanonicalWalk(mem, root, c.v, true);
      TopSlot(c.v);
    }
  }

  lemma TopSlot(v: nat)
    requires Canonical(v)
    ensures IxOf(v).i4 == 511 <==> v >= 0xFFFF_FF80_0000_0000
  {
    var q := v / 0x80_0000_0000;
    assert v < 0x8000_0000_0000 ==> q < 256;
    assert v >= 0xFFFF_8000_0000_0000 ==> 0x1FF_FF00 <= q <= 0x1FF_FFFF;
    assert v >= 0xFFFF_FF80_0000_0000 <==> q >= 0x1FF_FFFF;
  }

  /** How far a run has come: through all calls, or to one that ends it, or to a panic. */
  ghost predicate RunDone(m: Machine, root: nat, calls: seq<Call>, ends: seq<nat>, panicked: bool)
    reads m, m.pmm, m.pmm.bitmap
  {
    && Breaks(calls, ends)
    && (|ends| == |calls| + 1 || panicked || Stops(m.mem, root, ends[|ends| - 1], calls[|ends| - 1]))
    && (panicked ==> m.Valid() && m.Free() == {})
  }

  /** A process's view of its heap. */
  class HeapTask {
    const root: nat
    var heapEnd: nat

    /** `init` is where the heap began. */
    ghost predicate Valid(m: Machine, init: nat)
      reads this, m, m.pmm, m.pmm.bitmap
    {
      && SpaceOk(m, root)
      && 0x40_0000 <= init <= heapEnd <= 0x60_0000 && init % 4096 == 0 && heapEnd % 4096 == 0
      && HeapMapped(m.mem, root, init, heapEnd)
    }

    /** A process that was just spawned: the heap is empty. */
    constructor (ghost m: Machine, r: nat, end: nat)
      requires SpaceOk(m, r) && end % 4096 == 0 && 0x40_0000 <= end <= 0x60_0000
      ensures root == r && heapEnd == end && Valid(m, end)
    {
      root, heapEnd := r, end;
    }

    /** sys_brk. The break moves to the page end above `newBrk`, or as far as memory goes. */
    method SysBrk(m: Machine, newBrk: nat, ghost init: nat) returns (r: nat, panicked: bool)
      requires Valid(m, init) && newBrk <= 0x60_0000
      modifies this`heapEnd, m`mem, m`owner, m.pmm`freeCount, m.pmm.bitmap
      ensures Valid(m, init) && RootsKept(old(m.owner), m.owner) && OthersKept(old(m.mem), old(m.owner), m.mem, root)
      ensures r == heapEnd >= old(heapEnd)
      ensures Grown(ImageOf(old(m.mem), root), ImageOf(m.mem, root), old(heapEnd) / 4096 - 1024, heapEnd / 4096 - 1024)
      ensures Writable(m.mem, root) ==
        Writable(old(m.mem), root) + Slots(old(heapEnd) / 4096 - 1024, (heapEnd - old(heapEnd)) / 4096)
      ensures heapEnd <= RoundUp(newBrk) || heapEnd == old(heapEnd)
      ensures heapEnd < newBrk || panicked ==> m.Free() == {}
      ensures heapEnd >= newBrk && old(heapEnd) <= 0x50_0000 && StackInUse(ImageOf(old(m.mem), root)) ==>
        (StackKept(ImageOf(old(m.mem), root), ImageOf(m.mem, root)) <==> newBrk <= 0x50_0000)
    {
      hide TreeOk, At, FreeSet, ImageOf, NotHuge, EntryOk, PagesOwned, Lookup, HeapMapped, Writable, Grown, StackKept,
        OthersKept, LinksKept, RootsKept, RoundUp, StackInUse;
      panicked := false;
      ghost var mem0, owner0 := m.mem, m.owner;
      NothingChanged(mem0, owner0, root);
      GrownNone(ImageOf(mem0, root), heapEnd / 4096 - 1024);
      StackStays(ImageOf(mem0, root));
      RoundedUp(heapEnd, newBrk);
      if newBrk == 0 {
        return heapEnd, false;
      }
      if newBrk > heapEnd {
        ghost var n;
        var addr;
        addr, panicked, n := Extend(m, root, heapEnd, newBrk);
        GrownHeap(mem0, owner0, m.kentry, m.mem, m.owner, root, init, heapEnd, n, n);
        PagesGained(heapEnd, n);
        heapEnd := addr;
      }
      if heapEnd >= newBrk && old(heapEnd) <= 0x50_0000 && StackInUse(ImageOf(mem0, root)) {
        BrkKeepsStackIff(ImageOf(mem0, root), ImageOf(m.mem, root), old(heapEnd), newBrk);
      }
      r := heapEnd;
    }

    /** sys_mmap. All pages or none count: a failed call may leave zeroed pages above the
        break, which itself stays. */
    method SysMmap(m: Machine, len: nat, ghost init: nat) returns (r: nat, panicked: bool, ghost n: nat)
      requires Valid(m, init) && heapEnd + RoundUp(len) <= 0x60_0000
      modifies this`heapEnd, m`mem, m`owner, m.pmm`freeCount, m.pmm.bitmap
      ensures Valid(m, init) && RootsKept(old(m.owner), m.owner) && OthersKept(old(m.mem), old(m.owner), m.mem, root)
      ensures r == FAILED || (len > 0 && r == old(heapEnd))
      ensures heapEnd == old(heapEnd) + if r == FAILED then 0 else RoundUp(len)
      ensures heapEnd <= old(heapEnd) + n * 4096 <= old(heapEnd) + RoundUp(len)
      ensures Grown(ImageOf(old(m.mem), root), ImageOf(m.mem, root),
                    old(heapEnd) / 4096 - 1024, old(heapEnd) / 4096 - 1024 + n)
      ensures Writable(m.mem, root) == Writable(old(m.mem), root) + Slots(old(heapEnd) / 4096 - 1024, n)
      ensures (r == FAILED && len > 0) || panicked ==> m.Free() == {}
      ensures r != FAILED && old(heapEnd) <= 0x50_0000 && StackInUse(ImageOf(old(m.mem), root)) ==>
        (StackKept(ImageOf(old(m.mem), root), ImageOf(m.mem, root)) <==> old(heapEnd) + RoundUp(len) <= 0x50_0000)
    {
      hide TreeOk, At, FreeSet, ImageOf, NotHuge, EntryOk, PagesOwned, Lookup, HeapMapped, Writable;
      ghost var mem0, owner0 := m.mem, m.owner;
      if len == 0 {
        return FAILED, false, 0;
      }
      var pages := (len + 4095) / 4096;
      var base := heapEnd;
      var a;
      a, n := AllocAnon(m, root, base, pages);
      GrownHeap(mem0, owner0, m.kentry, m.mem, m.owner, root, init, base, n, if a.Mapped? then n else 0);
      if a.Mapped? {
        heapEnd := base + pages * 4096;
        r := base;
        if base <= 0x50_0000 && StackInUse(ImageOf(mem0, root)) {
          MmapKeepsStackIff(ImageOf(mem0, root), ImageOf(m.mem, root), base, len);
        }
      } else {
        r := FAILED;
      }
      panicked := a.Panic?;
    }

    /** The program stores a byte, not through the shared top slot: it hits one of its own
        pages. */
    method StoreByte(m: Machine, v: nat, b: byte, ghost init: nat)
      requires Valid(m, init) && UserWalk(m.mem, root, v, true).Some? && IxOf(v).i4 != 511
      modifies m`mem
      ensures Valid(m, init) && OthersKept(old(m.mem), m.owner, m.mem, root)
      ensures Writable(m.mem, root) == Writable(old(m.mem), root)
      ensures m.mem == StoreAt(old(m.mem), UserWalk(old(m.mem), root, v, true).value, b)
    {
      hide TreeOk, At, FreeSet, ImageOf, NotHuge, EntryOk, PagesOwned, Lookup, UserWalk, HwWalk, IxOf, StoreAt,
        Writable;
      ghost var mem0, owner0 := m.mem, m.owner;
      UserStore(m, root, v, b);
      forall j: nat | init <= 0x40_0000 + j * 4096 < heapEnd ensures j in ImageOf(m.mem, root) {
        HeapInImage(mem0, owner0, m.kentry, root, init, heapEnd, j);
      }
      MappedHeap(m.mem, m.owner, root, init, heapEnd);
    }

    /** A run of calls and stores, all of them up to one that does not fit or a panic for
        want of memory. `ends` are the breaks before, between and after the calls. */
    method Run(m: Machine, calls: seq<Call>, ghost init: nat) returns (ends: seq<nat>, panicked: bool)
      requires Valid(m, init)
      modifies this`heapEnd, m`mem, m`owner, m.pmm`freeCount, m.pmm.bitmap
      ensures Valid(m, init) && RootsKept(old(m.owner), m.owner) && OthersKept(old(m.mem), old(m.owner), m.mem, root)
      ensures LowMapped(old(m.mem), root) ==> LowMapped(m.mem, root)
      ensures StackWritable(old(m.mem), root) ==> StackWritable(m.mem, root)
      ensures RightsGrown(Writable(old(m.mem), root), Writable(m.mem, root), old(heapEnd))
      ensures forall v {:trigger UserWalk(m.mem, root, v, true)} ::
        init <= v < heapEnd ==> UserWalk(m.mem, root, v, true).Some?
      ensures KernelKept(old(m.mem), m.mem, root, m.kernel.pml4)
      ensures RunDone(m, root, calls, ends, panicked)
      ensures |ends| > 0 && ends[0] == old(heapEnd) && ends[|ends| - 1] == heapEnd
    {
      hide TreeOk, At, FreeSet, ImageOf, NotHuge, EntryOk, PagesOwned, Lookup, HeapMapped, Grown, LowMapped,
        KernelKept, PointsTo, Writable, StackWritable, OthersKept, LinksKept, UserWalk, Stops, Breaks, RightsGrown,
        FramesKept;
      ghost var mem0, owner0 := m.mem, m.owner;
      ends, panicked := PerformAll(m, calls, init);
      LinksOf(mem0, owner0, m.mem, root);
      HeapWrites(m.mem, m.owner, m.kentry, root, init, heapEnd);
      StackKeepsRights(mem0, owner0, m.mem, m.owner, m.kentry, root, old(heapEnd));
      KernelPartKept(mem0, owner0, m.kentry, m.mem, m.owner, root, m.kernel.pml4);
      if LowMapped(mem0, root) {
        LowKept(mem0, owner0, m.kentry, m.mem, root);
      }
    }

    method PerformAll(m: Machine, calls: seq<Call>, ghost init: nat) returns (ends: seq<nat>, panicked: bool)
      requires Valid(m, init)
      modifies this`heapEnd, m`mem, m`owner, m.pmm`freeCount, m.pmm.bitmap
      ensures Valid(m, init) && RootsKept(old(m.owner), m.owner) && OthersKept(old(m.mem), old(m.owner), m.mem, root)
      ensures RightsGrown(Writable(old(m.mem), root), Writable(m.mem, root), old(heapEnd))
      ensures RunDone(m, root, calls, ends, panicked)
      ensures |ends| > 0 && ends[0] == old(heapEnd) && ends[|ends| - 1] == heapEnd
      ensures m.kentry == old(m.kentry)
    {
      hide TreeOk, At, FreeSet, ImageOf, NotHuge, EntryOk, PagesOwned, HeapMapped, Writable, OthersKept, LinksKept,
        RootsKept, UserWalk, Fits, Stops, Moved, Breaks, RightsGrown;
      ghost var mem0, owner0 := m.mem, m.owner;
      NothingChanged(mem0, owner0, root);
      SameRights(Writable(mem0, root), heapEnd);
      FirstBreak(calls, heapEnd);
      ends, panicked := [heapEnd], false;
      while |ends| <= |calls| && !panicked && Fits(m.mem, root, heapEnd, calls[|ends| - 1])
        invariant Valid(m, init) && RootsKept(owner0, m.owner) && OthersKept(mem0, owner0, m.mem, root)
        invariant RightsGrown(Writable(mem0, root), Writable(m.mem, root), old(heapEnd))
        invariant (panicked ==> m.Free() == {}) && 0 < |ends| <= |calls| + 1 && Breaks(calls, ends)
        invariant ends[0] == old(heapEnd) <= heapEnd == ends[|ends| - 1]
        decreases |calls| + 1 - |ends|
      {
        ghost var mem1, owner1, end1 := m.mem, m.owner, heapEnd;
        panicked := Perform(m, calls[|ends| - 1], init);
        OthersTrans(mem0, owner0, mem1, owner1, m.mem, root);
        RootsTrans(owner0, owner1, m.owner);
        MoreRights(Writable(mem0, root), Writable(mem1, root), Writable(m.mem, root), old(heapEnd), end1);
        NextBreak(calls, ends, heapEnd);
        ends := ends + [heapEnd];
      }
      if |ends| <= |calls| {
        FitsOrStops(m.mem, root, heapEnd, calls[|ends| - 1]);
      }
    }

    method Perform(m: Machine, c: Call, ghost init: nat) returns (panicked: bool)
      requires Valid(m, init) && Fits(m.mem, root, heapEnd, c)
      modifies this`heapEnd, m`mem, m`owner, m.pmm`freeCount, m.pmm.bitmap
      ensures Valid(m, init) && RootsKept(old(m.owner), m.owner) && OthersKept(old(m.mem), old(m.owner), m.mem, root)
      ensures heapEnd >= old(heapEnd) && Moved(c, old(heapEnd), heapEnd)
      ensures panicked ==> m.Free() == {}
      ensures RightsGrown(Writable(old(m.mem), root), Writable(m.mem, root), old(heapEnd))
    {
      hide TreeOk, At, FreeSet, ImageOf, NotHuge, EntryOk, PagesOwned, HeapMapped, Grown, RoundUp, Writable, UserWalk;
      panicked := false;
      match c {
        case Brk(addr) =>
          var r;
          r, panicked := SysBrk(m, addr, init);
        case Mmap(len) =>
          var r;
          ghost var n;
          r, panicked, n := SysMmap(m, len, init);
        case Store(v, b) =>
          StoreByte(m, v, b, init);
      }
    }
  }

  // ---- the heap and the stack ----

  /** The eight pages of the stack hold what they held. */
  ghost predicate StackKept(img: Image, img': Image) {
    forall j: nat {:trigger j in img'} ::
      256 <= j < 264 ==> (j in img' <==> j in img) && (j in img ==> img'[j] == img[j])
  }

  lemma StackStays(img: Image)
    ensures StackKept(img, img)
  {
  }

  /** The lowest stack page is there and not blank. */
  ghost predicate StackInUse(img: Image) { 256 in img && img[256] != Zeros(4096) }

  /** Growing the heap over slots a to b-1 leaves the stack alone if and only if these lie
      below or above it, or the stack pages among them were mapped and zero already. */
  lemma StackKeptIff(img: Image, img': Image, a: nat, b: nat)
    requires Grown(img, img', a, b)
    ensures StackKept(img, img') <==>
      forall j: nat :: 256 <= j < 264 && a <= j < b ==> j in img && img[j] == Zeros(4096)
  {
    hide Zeros;
    forall j: nat | 256 <= j < 264
      ensures (j in img' <==> j in img) && (j in img ==> img'[j] == img[j]) <==>
        (a <= j < b ==> j in img && img[j] == Zeros(4096))
    {
      assert j in img' || j !in img';
    }
  }

  /** For a break below the stack and a stack whose first page is in use, as the caller can
      tell before the call: a sys_brk that memory suffices for keeps the stack if and only
      if the new break is not above it. */
  lemma BrkKeepsStackIff(img: Image, img': Image, heapEnd: nat, newBrk: nat)
    requires heapEnd % 4096 == 0 && 0x40_0000 <= heapEnd <= 0x50_0000 && newBrk <= 0x60_0000
    requires var end := if newBrk > heapEnd then RoundUp(newBrk) else heapEnd;
      Grown(img, img', heapEnd / 4096 - 1024, end / 4096 - 1024)
    requires StackInUse(img)
    ensures StackKept(img, img') <==> newBrk <= 0x50_0000
  {
    hide Zeros, Grown, StackKept;
    var end := if newBrk > heapEnd then RoundUp(newBrk) else heapEnd;
    StackKeptIff(img, img', heapEnd / 4096 - 1024, end / 4096 - 1024);
    if newBrk > 0x50_0000 {
      assert heapEnd / 4096 - 1024 <= 256 < end / 4096 - 1024;
    }
  }

  /** brk(0x501000) from a break below the stack replaces the first stack page by zeroes. */
  lemma BrkOntoStack(img: Image, img': Image, heapEnd: nat)
    requires heapEnd % 4096 == 0 && 0x40_0000 <= heapEnd <= 0x50_0000
    requires Grown(img, img', heapEnd / 4096 - 1024, RoundUp(0x50_1000) / 4096 - 1024)
    ensures 256 in img' && img'[256] == Zeros(4096)
  {
    hide Zeros;
    assert RoundUp(0x50_1000) == 0x50_1000;
    assert 256 in img';
  }

  /** The same for sys_mmap. */
  lemma MmapKeepsStackIff(img: Image, img': Image, heapEnd: nat, len: nat)
    requires heapEnd % 4096 == 0 && 0x40_0000 <= heapEnd <= 0x50_0000 && StackInUse(img)
    requires Grown(img, img', heapEnd / 4096 - 1024, (heapEnd + RoundUp(len)) / 4096 - 1024)
    ensures StackKept(img, img') <==> heapEnd + RoundUp(len) <= 0x50_0000
  {
    hide Zeros, Grown, StackKept;
    var end := heapEnd + RoundUp(len);
    StackKeptIff(img, img', heapEnd / 4096 - 1024, end / 4096 - 1024);
    if end > 0x50_0000 {
      assert heapEnd / 4096 - 1024 <= 256 < end / 4096 - 1024;
    }
  }

  // ---- heaps that start outside the window ----

  lemma StrayEntry(mem: seq<seq<byte>>, f: nat, i: nat, e: nat, g: nat, j: nat)
    requires e < 0x1_0000_0000_0000_0000
    ensures var now := At(Strayed(mem, f, i, e), g, j);
      now == At(mem, g, j) || (g == f && j == i && now == e)
  {
    if f < |mem| && |mem[f]| == 4096 && i < 512 {
      AtAfterSet(mem, f, i, e, g, j);
    }
  }

  /** Linking the zeroed frame p wherever the walk of a page under a 2 MB entry may pass
      leaves that page unmapped: the walk goes the old way, or ends in p. */
  lemma StrayUnmapped(mem: seq<seq<byte>>, owner: map<nat, Owner>, kentry: nat, root: nat, ix: Ix, i: nat, p: nat)
    requires TreeOk(mem, owner, kentry) && IsRoot(owner, root) && WfIx(ix) && !NotHuge(mem, root, ix)
    requires p < 262144 && p !in owner && forall j: nat :: At(mem, p, j) == 0
    ensures Lookup(Strayed(mem, HugeFrame(mem, root, ix), i, p * 4096 + 7), root, ix) == None
  {
    hide TreeOk, At, Strayed, IsHuge;
    var f, e := HugeFrame(mem, root, ix), p * 4096 + 7;
    var mem' := Strayed(mem, f, i, e);
    HugePath(mem, owner, kentry, root, ix);
    LinkTarget(p);
    var pdpt, pd := PdptOf(mem, root, ix).value, PdOf(mem, root, ix).value;
    StrayEntry(mem, f, i, e, root, ix.i4);
    StrayEntry(mem, f, i, e, pdpt, ix.i3);
    StrayEntry(mem, f, i, e, pd, ix.i2);
    StrayEntry(mem, f, i, e, p, ix.i3);
    StrayEntry(mem, f, i, e, p, ix.i2);
    StrayEntry(mem, f, i, e, p, ix.i1);
  }

  /** The addresses of the low four gigabytes whose page can be mapped are the window's. */
  lemma WindowIsHole(mem: seq<seq<byte>>, root: nat, v: nat)
    requires LowMapped(mem, root) && v < 0x1_0000_0000
    requires (forall j {:trigger SlotIx(j)} :: 0 <= j < 512 ==> NotHuge(mem, root, SlotIx(j)))
    ensures NotHuge(mem, root, IxOf(v)) <==> 0x40_0000 <= v < 0x60_0000
  {
    hide At, IxOf;
    if 0x40_0000 <= v < 0x60_0000 {
      SlotOfAddress(v);
    } else {
      assert HwWalk(mem, root, v) == HwWalk(mem, root, v);
    }
  }

  /** One round of the loop of sys_brk at any address below 4 GB: allocate, zero, map. Only
      in the window is the page there afterwards; elsewhere the entry overwrites a word of
      the first frame of the 2 MB page, and the page is still not mapped. Some(p) is the
      frame, None exhausted memory. */
  method GrowAt(m: Machine, root: nat, addr: nat) returns (r: Option<nat>)
    requires SpaceOk(m, root) && LowMapped(m.mem, root) && addr % 4096 == 0 && addr < 0x1_0000_0000
    modifies m`mem, m`owner, m.pmm`freeCount, m.pmm.bitmap
    ensures r.Some? && 0x40_0000 <= addr < 0x60_0000 ==>
      && LookupPage(m.mem, root * 4096, addr) == Some(r.value * 4096)
      && UserWalk(m.mem, root, addr, true) == Some(r.value * 4096)
    ensures r.Some? && !(0x40_0000 <= addr < 0x60_0000) ==>
      && r.value < |old(m.mem)| && m.owner == old(m.owner)
      && m.mem == Strayed(old(m.mem)[r.value := Zeros(4096)], addr / 0x20_0000 * 512, IxOf(addr).i1, r.value * 4096 + 7)
      && LookupPage(m.mem, root * 4096, addr) == None
    ensures r.None? ==> m.Free() == {}
  {
    hide TreeOk, At, FreeSet, ImageOf, NotHuge, EntryOk, PagesOwned, Lookup, LowMapped, IxOf, Strayed, HugeFrame,
      UserWalk, HwWalk, Leaf, LeafFlags, Writable;
    ghost var mem0 := m.mem;
    r := AllocFrame(m);
    if r.None? {
      return;
    }
    ZeroFrame(m, r.value);
    ghost var mem1, owner1 := m.mem, m.owner;
    ZeroedSpace(mem0, m.owner, m.kentry, r.value, root, addr);
    var ok := m.MapUserPage(root * 4096, addr, r.value * 4096, 7);
    if !ok {
      return None;
    }
    if 0x40_0000 <= addr < 0x60_0000 {
      assert Lookup(m.mem, root, IxOf(addr)) == Some(r.value);
      assert Leaf(m.mem, root, IxOf(addr)) == r.value * 4096 + LeafFlags(7);
      LeafWrite(r.value, 7);
      SlotOfAddress(addr);
      WindowOpen(m.mem, root, (addr - 0x40_0000) / 4096, (addr - 0x40_0000) / 4096);
      UserWritesPages(m.mem, m.owner, m.kentry, root, addr);
    } else {
      ZeroEntries(mem1, r.value);
      StrayUnmapped(mem1, owner1, m.kentry, root, IxOf(addr), IxOf(addr).i1, r.value);
    }
  }

  lemma ZeroEntries(mem: seq<seq<byte>>, p: nat)
    requires p < |mem| && mem[p] == Zeros(4096)
    ensures forall j: nat :: At(mem, p, j) == 0
  {
    forall j: nat ensures At(mem, p, j) == 0 {
      if j < 512 {
        EntryOfZero(j);
      }
    }
  }

  /** A break at the end of the window, moved by brk(0x601000): the page at 0x600000 is not
      mapped, and a word of frame 1536 is overwritten, whoever uses it. */
  method BrkPastWindow(m: Machine, root: nat) returns (r: Option<nat>)
    requires SpaceOk(m, root) && LowMapped(m.mem, root)
    modifies m`mem, m`owner, m.pmm`freeCount, m.pmm.bitmap
    ensures r.Some? ==>
      && LookupPage(m.mem, root * 4096, 0x60_0000) == None && r.value < |old(m.mem)|
      && m.mem == Strayed(old(m.mem)[r.value := Zeros(4096)], 1536, 0, r.value * 4096 + 7)
  {
    assert 0x60_0000 / 0x20_0000 * 512 == 1536 && IxOf(0x60_0000).i1 == 0;
    r := GrowAt(m, root, 0x60_0000);
  }

  lemma ZeroedSpace(mem: seq<seq<byte>>, owner: map<nat, Owner>, kentry: nat, p: nat, root: nat, v: nat)
    requires TreeOk(mem, owner, kentry) && IsRoot(owner, root) && p < |mem| && p !in owner && v < 0x1_0000_0000
    requires LowMapped(mem, root) && (forall j {:trigger SlotIx(j)} :: 0 <= j < 512 ==> NotHuge(mem, root, SlotIx(j)))
    ensures NotHuge(mem[p := Zeros(4096)], root, IxOf(v)) <==> 0x40_0000 <= v < 0x60_0000
    ensures !(0x40_0000 <= v < 0x60_0000) ==> HugeFrame(mem[p := Zeros(4096)], root, IxOf(v)) == v / 0x20_0000 * 512
  {
    hide TreeOk, At, IxOf, NotHuge, LowMapped, HugeFrame, EndsHuge;
    var mem' := mem[p := Zeros(4096)];
    PageWriteKeepsLinks(mem, owner, p, Zeros(4096));
    LowKept(mem, owner, kentry, mem', root);
    forall j | 0 <= j < 512 ensures NotHuge(mem', root, SlotIx(j)) {
      HoleKept(mem, owner, kentry, p, Zeros(4096), root, SlotIx(j));
    }
    WindowIsHole(mem', root, v);
    if !(0x40_0000 <= v < 0x60_0000) {
      LowFrame(mem', root, v);
    }
  }

  lemma LowFrame(mem: seq<seq<byte>>, root: nat, v: nat)
    requires LowMapped(mem, root) && v < 0x1_0000_0000 && !(0x40_0000 <= v < 0x60_0000)
    ensures HugeFrame(mem, root, IxOf(v)) == v / 0x20_0000 * 512
  {
    hide HwWalk, EndsHuge, HugeFrame;
    assert HwWalk(mem, root, v) == HwWalk(mem, root, v);
  }

  // ---- from a program file to a running heap ----

  lemma KernelTrans(m0: seq<seq<byte>>, m1: seq<seq<byte>>, m2: seq<seq<byte>>, root: nat, kroot: nat)
    requires KernelKept(m0, m1, root, kroot) && KernelKept(m1, m2, root, kroot)
    ensures KernelKept(m0, m2, root, kroot)
  {
    hide AliasAt, TopShared;
  }

  /** What holds of a spawned process after any run of its calls: its heap reaches from the
      end of its segments to the last break, breaks never fell, heap and stack can be
      written to, and around the window its address space is as it was made. */
  ghost predicate Running(m: Machine, mem0: seq<seq<byte>>, p: Process, phs: seq<Phdr>, ends: seq<nat>)
    reads m, m.pmm, m.pmm.bitmap
  {
    var root := p.cr3 / 4096;
    && SpaceOk(m, root) && LowMapped(m.mem, root) && KernelKept(mem0, m.mem, root, m.kernel.pml4)
    && |ends| > 0 && ends[0] == HeapEnd(phs)
    && HeapMapped(m.mem, root, HeapEnd(phs), ends[|ends| - 1]) && StackWritable(m.mem, root)
    && (forall v {:trigger UserWalk(m.mem, root, v, true)} ::
          HeapEnd(phs) <= v < ends[|ends| - 1] ==> UserWalk(m.mem, root, v, true).Some?)
  }

  lemma LoadedStack(mem: seq<seq<byte>>, root: nat, phs: seq<Phdr>, data: seq<byte>)
    requires AllLoadable(phs, data) && Loaded(mem, root, phs, data)
    ensures StackWritable(mem, root)
  {
  }

  /** Spawns a program and lets it call sys_brk and sys_mmap and store into its pages in any
      order. If it has a segment, the heap invariant holds over the whole run; if it has
      none, the heap does not start in the window, and the run is not begun. */
  method SpawnAndRun(m: Machine, data: seq<byte>, calls: seq<Call>) returns (r: Outcome, ends: seq<nat>, panicked: bool)
    requires m.Valid() && PagesOwned(m.mem, m.owner)
    requires |data| >= 64 && PhOff(data) + PhNum(data) * PHDR_SIZE <= |data| && AllLoadable(Phdrs(data), data)
    modifies m`mem, m`owner, m.pmm`freeCount, m.pmm.bitmap
    ensures m.Valid()
    ensures r.Spawned? ==> (0x40_0000 <= r.process.heapEnd <= 0x50_0000 <==> HasLoad(Phdrs(data)))
    ensures r.Spawned? && HasLoad(Phdrs(data)) ==>
      && Running(m, old(m.mem), r.process, Phdrs(data), ends) && ImagesKept(old(m.mem), old(m.owner), m.mem)
      && RunDone(m, r.process.cr3 / 4096, calls, ends, panicked)
  {
    hide TreeOk, At, FreeSet, ImageOf, NotHuge, Lookup, Phdrs, EntryPoint, PhOff, PhNum, AllLoadable, Loaded,
      PagesOwned, HeapEnd, LowMapped, KernelKept, HasLoad, HeapMapped, PointsTo, LinksKept, StackWritable, UserWalk,
      Writable, RightsGrown, RunDone;
    ghost var mem0, owner0 := m.mem, m.owner;
    ends, panicked := [], false;
    r := Spawn(m, data);
    HeapEndInWindow(Phdrs(data), data);
    HeapEndIsMax(Phdrs(data));
    if r.Spawned? && r.process.heapEnd >= 0x40_0000 {
      ghost var mem1, owner1 := m.mem, m.owner;
      var root := r.process.cr3 / 4096;
      LoadedStack(m.mem, root, Phdrs(data), data);
      var task := new HeapTask(m, root, r.process.heapEnd);
      ends, panicked := task.Run(m, calls, r.process.heapEnd);
      KernelTrans(mem0, mem1, m.mem, root, m.kernel.pml4);
      SpawnKeeps(mem0, owner0, mem1, owner1, m.mem, root);
    }
  }

  /** The same from boot on; the kernel's alias then works in the process's address space. */
  method BootSpawnRun(mem: seq<seq<byte>>, a: Allocator, k: Kernel, data: seq<byte>, calls: seq<Call>)
    returns (m: Machine, r: Outcome, ends: seq<nat>, panicked: bool)
    requires a.Valid() && WfMem(mem) && 262144 <= |mem| && k.Wf(|mem|)
    requires AllZeroTable(mem, k.pml4) && AllZeroTable(mem, k.low) && AllZeroTable(mem, k.high)
    requires k.pml4 !in a.Free() && k.high !in a.Free() && forall i :: 0 <= i < 4 ==> k.Pd(i) !in a.Free()
    requires |data| >= 64 && PhOff(data) + PhNum(data) * PHDR_SIZE <= |data| && AllLoadable(Phdrs(data), data)
    modifies a`freeCount, a.bitmap
    ensures r.Spawned? && HasLoad(Phdrs(data)) ==>
      && m.Valid() && |ends| > 0 && HeapMapped(m.mem, r.process.cr3 / 4096, HeapEnd(Phdrs(data)), ends[|ends| - 1])
      && AliasAt(m.mem, r.process.cr3 / 4096) && StackWritable(m.mem, r.process.cr3 / 4096)
  {
    hide TreeOk, At, FreeSet, Phdrs, PhOff, PhNum, AllLoadable, PagesOwned, HeapEnd, LowMapped, AliasAt, TopShared,
      HasLoad, HeapMapped, Built, PointsTo, KernelOwners, NotHuge, AllZeroTable, ImagesKept, StackWritable, UserWalk;
    m := new Machine(mem, a, k);
    NoSpaceYet(m.mem, k);
    r, ends, panicked := SpawnAndRun(m, data, calls);
  }

  /** The first page a spawned program's heap is given memory for is mapped if and only if
      the program has a segment. */
  method SpawnAndGrow(m: Machine, data: seq<byte>) returns (r: Outcome, frame: Option<nat>)
    requires m.Valid() && PagesOwned(m.mem, m.owner)
    requires |data| >= 64 && PhOff(data) + PhNum(data) * PHDR_SIZE <= |data| && AllLoadable(Phdrs(data), data)
    modifies m`mem, m`owner, m.pmm`freeCount, m.pmm.bitmap
    ensures r.Spawned? && frame.Some? ==>
      (LookupPage(m.mem, r.process.cr3, r.process.heapEnd).Some? <==> HasLoad(Phdrs(data)))
  {
    hide TreeOk, At, FreeSet, ImageOf, NotHuge, Lookup, Phdrs, EntryPoint, PhOff, PhNum, AllLoadable, Loaded,
      PagesOwned, HeapEnd, LowMapped, KernelKept, HasLoad, LookupPage, Strayed;
    frame := None;
    r := Spawn(m, data);
    HeapEndInWindow(Phdrs(data), data);
    HeapEndIsMax(Phdrs(data));
    if r.Spawned? {
      frame := GrowAt(m, r.process.cr3 / 4096, r.process.heapEnd);
    }
  }
}
