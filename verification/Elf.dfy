/** ELF images: headers as they lie in the file, and what loading a list of segments means,
    page by page and byte by byte. */
module Elf {
  import opened Bytes

  const PT_LOAD: nat := 1
  const PHDR_SIZE: nat := 56

  datatype Phdr = Phdr(ptype: nat, flags: nat, offset: nat, vaddr: nat, filesz: nat, memsz: nat)

  predicate HeaderValid(data: seq<byte>)
    requires |data| >= 64
  {
    data[0] == 0x7F && data[1] == 0x45 && data[2] == 0x4C && data[3] == 0x46 && data[4] == 2
  }

  function EntryPoint(data: seq<byte>): nat
    requires |data| >= 64
  {
    Field(data, 24, 8)
  }

  function PhOff(data: seq<byte>): nat
    requires |data| >= 64
  {
    Field(data, 32, 8)
  }

  function PhNum(data: seq<byte>): nat
    requires |data| >= 64
  {
    Field(data, 56, 2)
  }

  function ParsePhdr(data: seq<byte>, at: nat): Phdr
    requires at + PHDR_SIZE <= |data|
  {
    Phdr(Field(data, at, 4), Field(data, at + 4, 4), Field(data, at + 8, 8), Field(data, at + 16, 8),
         Field(data, at + 32, 8), Field(data, at + 40, 8))
  }

  /** The program header table. */
  function Phdrs(data: seq<byte>): (r: seq<Phdr>)
    requires |data| >= 64 && PhOff(data) + PhNum(data) * PHDR_SIZE <= |data|
    ensures |r| == PhNum(data)
  {
    seq(PhNum(data), i requires 0 <= i < PhNum(data) => ParsePhdr(data, PhOff(data) + i * PHDR_SIZE))
  }

  // ---- headers as a linker writes them ----

  /** The identification of a 64-bit image, entry point, and place and number of the
      program headers. */
  function HeaderFields(entry: nat, phOff: nat, phNum: nat): seq<Store> {
    [Store(0, 1, 0x7F), Store(1, 1, 0x45), Store(2, 1, 0x4C), Store(3, 1, 0x46), Store(4, 1, 2),
     Store(24, 8, entry), Store(32, 8, phOff), Store(56, 2, phNum)]
  }

  ghost function FileHeader(template: seq<byte>, entry: nat, phOff: nat, phNum: nat): (r: seq<byte>)
    requires |template| >= 64
    ensures |r| == |template|
  {
    PutAll(template, HeaderFields(entry, phOff, phNum))
  }

  /** What was written is read, whatever the other fields hold. */
  lemma HeaderRead(template: seq<byte>, entry: nat, phOff: nat, phNum: nat)
    requires |template| >= 64 && phNum < 0x1_0000
    requires entry < 0x1_0000_0000_0000_0000 && phOff < 0x1_0000_0000_0000_0000
    ensures var d := FileHeader(template, entry, phOff, phNum);
      HeaderValid(d) && EntryPoint(d) == entry && PhOff(d) == phOff && PhNum(d) == phNum
  {
    hide PutAll, LaidOut, Field;
    var d, l := FileHeader(template, entry, phOff, phNum), HeaderFields(entry, phOff, phNum);
    HeaderLaidOut(entry, phOff, phNum, |template|);
    forall i | 0 <= i < |l| ensures l[i].pos + l[i].n <= |d| && Field(d, l[i].pos, l[i].n) == l[i].v {
      PutAllRead(template, l, i);
    }
    FirstBytes(d);
    assert l[0] == Store(0, 1, 0x7F) && l[1] == Store(1, 1, 0x45) && l[2] == Store(2, 1, 0x4C);
    assert l[3] == Store(3, 1, 0x46) && l[4] == Store(4, 1, 2);
    assert l[5] == Store(24, 8, entry) && l[6] == Store(32, 8, phOff) && l[7] == Store(56, 2, phNum);
  }

  lemma FirstBytes(d: seq<byte>)
    requires |d| >= 64
    ensures forall i {:trigger d[i]} :: 0 <= i < 5 ==> Field(d, i, 1) == d[i]
  {
    forall i | 0 <= i < 5 ensures Field(d, i, 1) == d[i] {
      ByteField(d, i);
    }
  }

  lemma HeaderLaidOut(entry: nat, phOff: nat, phNum: nat, len: nat)
    requires phNum < 0x1_0000 && entry < 0x1_0000_0000_0000_0000 && phOff < 0x1_0000_0000_0000_0000 && len >= 64
    ensures LaidOut(HeaderFields(entry, phOff, phNum), len)
  {
    Pow256Values();
    assert Pow256(1) == 256 * Pow256(0);
  }

  /** Exactly the headers of that form are valid. */
  lemma ValidIsWritten(data: seq<byte>)
    requires |data| >= 64
    ensures HeaderValid(data) <==> data == FileHeader(data, EntryPoint(data), PhOff(data), PhNum(data))
  {
    hide PutAll, Field;
    var l := HeaderFields(EntryPoint(data), PhOff(data), PhNum(data));
    FieldBounds(data);
    HeaderRead(data, EntryPoint(data), PhOff(data), PhNum(data));
    if HeaderValid(data) {
      FirstBytes(data);
      assert forall i :: 0 <= i < |l| ==> l[i].pos + l[i].n <= |data| && Field(data, l[i].pos, l[i].n) == l[i].v;
      PutAllSame(data, l);
    }
  }

  lemma FieldBounds(data: seq<byte>)
    requires |data| >= 64
    ensures EntryPoint(data) < 0x1_0000_0000_0000_0000 && PhOff(data) < 0x1_0000_0000_0000_0000
    ensures PhNum(data) < 0x1_0000
  {
    Pow256Values();
    LeBound(data[24..32]);
    LeBound(data[32..40]);
    LeBound(data[56..58]);
  }

  predicate FitsPhdr(ph: Phdr) {
    && ph.ptype < 0x1_0000_0000 && ph.flags < 0x1_0000_0000
    && ph.offset < 0x1_0000_0000_0000_0000 && ph.vaddr < 0x1_0000_0000_0000_0000
    && ph.filesz < 0x1_0000_0000_0000_0000 && ph.memsz < 0x1_0000_0000_0000_0000
  }

  /** A program header at `at`: type, flags, offset, virtual address, (physical address),
      size in the file, size in memory, (alignment). */
  function PhdrFields(at: nat, ph: Phdr): seq<Store> {
    [Store(at, 4, ph.ptype), Store(at + 4, 4, ph.flags), Store(at + 8, 8, ph.offset), Store(at + 16, 8, ph.vaddr),
     Store(at + 32, 8, ph.filesz), Store(at + 40, 8, ph.memsz)]
  }

  lemma PhdrRead(template: seq<byte>, at: nat, ph: Phdr)
    requires at + PHDR_SIZE <= |template| && FitsPhdr(ph)
    ensures |PutAll(template, PhdrFields(at, ph))| == |template|
    ensures ParsePhdr(PutAll(template, PhdrFields(at, ph)), at) == ph
  {
    hide PutAll, LaidOut, Field;
    var l := PhdrFields(at, ph);
    var d := PutAll(template, l);
    PhdrLaidOut(at, ph, |template|);
    forall i | 0 <= i < |l| ensures l[i].pos + l[i].n <= |d| && Field(d, l[i].pos, l[i].n) == l[i].v {
      PutAllRead(template, l, i);
    }
    assert l[0] == Store(at, 4, ph.ptype) && l[1] == Store(at + 4, 4, ph.flags);
    assert l[2] == Store(at + 8, 8, ph.offset) && l[3] == Store(at + 16, 8, ph.vaddr);
    assert l[4] == Store(at + 32, 8, ph.filesz) && l[5] == Store(at + 40, 8, ph.memsz);
  }

  lemma PhdrLaidOut(at: nat, ph: Phdr, len: nat)
    requires at + PHDR_SIZE <= len && FitsPhdr(ph)
    ensures LaidOut(PhdrFields(at, ph), len)
  {
    Pow256Values();
  }

  /** The file with the table `phs` at `at`. */
  ghost function WithPhdrs(template: seq<byte>, at: nat, phs: seq<Phdr>): (r: seq<byte>)
    requires at + |phs| * PHDR_SIZE <= |template|
    ensures |r| == |template|
  {
    if phs == [] then template
    else
      var n := |phs| - 1;
      PutAll(WithPhdrs(template, at, phs[..n]), PhdrFields(at + n * PHDR_SIZE, phs[n]))
  }

  lemma {:induction false} TableRead(template: seq<byte>, at: nat, phs: seq<Phdr>, i: nat)
    requires at + |phs| * PHDR_SIZE <= |template| && forall k {:trigger phs[k]} :: 0 <= k < |phs| ==> FitsPhdr(phs[k])
    ensures WithPhdrs(template, at, phs)[..at] == template[..at]
    ensures i < |phs| ==> ParsePhdr(WithPhdrs(template, at, phs), at + i * PHDR_SIZE) == phs[i]
  {
    hide PutAll, Field;
    if phs != [] {
      var n := |phs| - 1;
      var before, here := WithPhdrs(template, at, phs[..n]), at + n * PHDR_SIZE;
      TableRead(template, at, phs[..n], i);
      PhdrRead(before, here, phs[n]);
      PutAllOutside(before, PhdrFields(here, phs[n]), 0, at);
      if i < n {
        PhdrKept(before, here, phs[n], at + i * PHDR_SIZE);
      }
    }
  }

  lemma PhdrKept(d: seq<byte>, here: nat, ph: Phdr, at: nat)
    requires at + PHDR_SIZE <= here && here + PHDR_SIZE <= |d|
    ensures ParsePhdr(PutAll(d, PhdrFields(here, ph)), at) == ParsePhdr(d, at)
  {
    hide PutAll, LeDecode;
    var l := PhdrFields(here, ph);
    assert forall i :: 0 <= i < |l| ==> here <= l[i].pos;
    PutAllOutside(d, l, at, at + 4);
    PutAllOutside(d, l, at + 4, at + 8);
    PutAllOutside(d, l, at + 8, at + 16);
    PutAllOutside(d, l, at + 16, at + 24);
    PutAllOutside(d, l, at + 32, at + 40);
    PutAllOutside(d, l, at + 40, at + 48);
  }

  /** The loader reads from a program file the entry point and the program headers that were
      written to it. */
  lemma ProgramRead(template: seq<byte>, entry: nat, at: nat, phs: seq<Phdr>)
    requires 64 <= at && at + |phs| * PHDR_SIZE <= |template| && |phs| < 0x1_0000
    requires entry < 0x1_0000_0000_0000_0000 && at < 0x1_0000_0000_0000_0000
    requires forall k {:trigger phs[k]} :: 0 <= k < |phs| ==> FitsPhdr(phs[k])
    ensures var d := WithPhdrs(FileHeader(template, entry, at, |phs|), at, phs);
      && HeaderValid(d) && EntryPoint(d) == entry
      && PhOff(d) + PhNum(d) * PHDR_SIZE <= |d| && Phdrs(d) == phs
  {
    hide WithPhdrs, FileHeader, Field, ParsePhdr;
    var t := FileHeader(template, entry, at, |phs|);
    var d := WithPhdrs(t, at, phs);
    HeaderRead(template, entry, at, |phs|);
    TableRead(t, at, phs, 0);
    SameHeader(t, d, at);
    forall i | 0 <= i < |phs| ensures ParsePhdr(d, at + i * PHDR_SIZE) == phs[i] {
      TableRead(t, at, phs, i);
    }
  }

  lemma SameHeader(t: seq<byte>, d: seq<byte>, at: nat)
    requires 64 <= at <= |t| && |d| == |t| && d[..at] == t[..at]
    ensures HeaderValid(d) == HeaderValid(t) && EntryPoint(d) == EntryPoint(t)
    ensures PhOff(d) == PhOff(t) && PhNum(d) == PhNum(t)
  {
    assert forall i :: 0 <= i < 64 ==> d[i] == d[..at][i] == t[i];
    assert d[24..32] == t[24..32] && d[32..40] == t[32..40] && d[56..58] == t[56..58];
  }

  // ---- pages of a segment ----

  function PageStart(ph: Phdr): nat { ph.vaddr / 4096 * 4096 }

  function PageEnd(ph: Phdr): nat { (ph.vaddr + ph.memsz + 4095) / 4096 * 4096 }

  /** A segment the loader can take: inside the window below the stack, its bytes in the file. */
  predicate Loadable(ph: Phdr, data: seq<byte>) {
    ph.ptype == PT_LOAD ==>
      0x40_0000 <= ph.vaddr && PageEnd(ph) <= 0x50_0000 && ph.offset + ph.filesz <= |data|
  }

  /** First and one-past-last window slot of a segment. */
  function FirstSlot(ph: Phdr): int { ph.vaddr / 4096 - 1024 }

  function EndSlot(ph: Phdr): int { (ph.vaddr + ph.memsz + 4095) / 4096 - 1024 }

  /** The page at address `a` with the segment's file bytes copied in, as the loader computes it. */
  function CopyInto(page: seq<byte>, a: nat, ph: Phdr, data: seq<byte>): (r: seq<byte>)
    requires |page| == 4096 && a + 4096 > ph.vaddr && ph.offset + ph.filesz <= |data|
    ensures |r| == 4096
  {
    var pageOffset := if a < ph.vaddr then ph.vaddr - a else 0;
    var start := if a < ph.vaddr then ph.vaddr else a;
    var fileOffset := start - ph.vaddr;
    if fileOffset < ph.filesz then
      var n := if ph.filesz - fileOffset < 4096 - pageOffset then ph.filesz - fileOffset else 4096 - pageOffset;
      Overwrite(page, pageOffset, data[ph.offset + fileOffset..ph.offset + fileOffset + n])
    else page
  }

  /** The file byte a segment puts at address v, if any. */
  predicate InFile(ph: Phdr, v: nat) { ph.vaddr <= v < ph.vaddr + ph.filesz }

  /** Copying page by page puts exactly the segment's file bytes where they belong. */
  lemma CopiedByte(page: seq<byte>, a: nat, ph: Phdr, data: seq<byte>, x: nat)
    requires |page| == 4096 && a + 4096 > ph.vaddr && ph.offset + ph.filesz <= |data| && x < 4096
    ensures CopyInto(page, a, ph, data)[x] ==
      if InFile(ph, a + x) then data[ph.offset + (a + x - ph.vaddr)] else page[x]
  {
    hide Overwrite;
    var start := if a < ph.vaddr then ph.vaddr else a;
    var o, at := start - a, ph.offset + (start - ph.vaddr);
    if start - ph.vaddr < ph.filesz {
      var n := if ph.filesz - (start - ph.vaddr) < 4096 - o then ph.filesz - (start - ph.vaddr) else 4096 - o;
      OverwriteAt(page, o, data[at..at + n], x);
    }
  }

  type Image = map<nat, seq<byte>>

  /** The window page at slot j, zero if it is not mapped yet. */
  function PageOr0(img: Image, j: nat): seq<byte> { if j in img && |img[j]| == 4096 then img[j] else Zeros(4096) }

  lemma PastStart(ph: Phdr, j: nat)
    requires 0x40_0000 <= ph.vaddr && FirstSlot(ph) <= j
    ensures 0x40_0000 + j * 4096 + 4096 > ph.vaddr
  {
  }

  /** Slot j after the segment's bytes were copied into its page. */
  function SlotLoaded(img: Image, ph: Phdr, data: seq<byte>, j: nat): (r: seq<byte>)
    requires 0x40_0000 <= ph.vaddr && ph.offset + ph.filesz <= |data| && FirstSlot(ph) <= j
    ensures |r| == 4096
  {
    PastStart(ph, j);
    CopyInto(PageOr0(img, j), 0x40_0000 + j * 4096, ph, data)
  }

  /** Loading slots a to b-1 of a segment. */
  ghost function LoadSlots(img: Image, ph: Phdr, data: seq<byte>, a: nat, b: nat): Image
    requires 0x40_0000 <= ph.vaddr && ph.offset + ph.filesz <= |data| && FirstSlot(ph) <= a
    decreases b
  {
    if b <= a then img
    else
      var before := LoadSlots(img, ph, data, a, b - 1);
      before[b - 1 := SlotLoaded(before, ph, data, b - 1)]
  }

  ghost function LoadSegment(img: Image, ph: Phdr, data: seq<byte>): Image
    requires Loadable(ph, data)
  {
    if ph.ptype == PT_LOAD then
      if FirstSlot(ph) < EndSlot(ph) then LoadSlots(img, ph, data, FirstSlot(ph), EndSlot(ph)) else img
    else img
  }

  ghost predicate AllLoadable(phs: seq<Phdr>, data: seq<byte>) {
    forall i {:trigger phs[i]} :: 0 <= i < |phs| ==> Loadable(phs[i], data)
  }

  /** Loading all segments in order. */
  ghost function LoadAll(phs: seq<Phdr>, data: seq<byte>): Image
    requires AllLoadable(phs, data)
  {
    if phs == [] then map[] else LoadSegment(LoadAll(phs[..|phs| - 1], data), phs[|phs| - 1], data)
  }

  /** End of the last page of any segment. */
  function HeapEnd(phs: seq<Phdr>): nat {
    if phs == [] then 0
    else
      var before, ph := HeapEnd(phs[..|phs| - 1]), phs[|phs| - 1];
      if ph.ptype == PT_LOAD && PageEnd(ph) > before then PageEnd(ph) else before
  }

  // ---- what the image holds, byte by byte ----

  predicate InPages(ph: Phdr, v: nat) { ph.ptype == PT_LOAD && PageStart(ph) <= v < PageEnd(ph) }

  /** The byte the segments in order leave at address v; None if its page is not mapped. */
  ghost function ByteOf(phs: seq<Phdr>, data: seq<byte>, v: nat): Option<byte>
    requires AllLoadable(phs, data)
  {
    if phs == [] then None
    else
      var before, ph := ByteOf(phs[..|phs| - 1], data, v), phs[|phs| - 1];
      if !InPages(ph, v) then before
      else if InFile(ph, v) then Some(data[ph.offset + (v - ph.vaddr)])
      else if before.Some? then before else Some(0)
  }

  ghost predicate WfImage(img: Image) { forall j {:trigger img[j]} :: j in img ==> |img[j]| == 4096 }

  /** Byte at address v of the window. */
  ghost function ImageByte(img: Image, v: nat): Option<byte>
    requires WfImage(img)
  {
    if 0x40_0000 <= v && (v - 0x40_0000) / 4096 in img then Some(img[(v - 0x40_0000) / 4096][v % 4096]) else None
  }

  lemma SlotLoadedSame(img: Image, img': Image, ph: Phdr, data: seq<byte>, j: nat)
    requires 0x40_0000 <= ph.vaddr && ph.offset + ph.filesz <= |data| && FirstSlot(ph) <= j
    requires (j in img <==> j in img') && (j in img ==> img'[j] == img[j])
    ensures SlotLoaded(img', ph, data, j) == SlotLoaded(img, ph, data, j)
  {
    assert PageOr0(img', j) == PageOr0(img, j);
  }

  lemma {:induction false} LoadSlotsAt(img: Image, ph: Phdr, data: seq<byte>, a: nat, b: nat, j: nat)
    requires 0x40_0000 <= ph.vaddr && ph.offset + ph.filesz <= |data| && FirstSlot(ph) <= a
    ensures j in LoadSlots(img, ph, data, a, b) <==> j in img || a <= j < b
    ensures a <= j < b ==> LoadSlots(img, ph, data, a, b)[j] == SlotLoaded(img, ph, data, j)
    ensures j in img && !(a <= j < b) ==> LoadSlots(img, ph, data, a, b)[j] == img[j]
    decreases b
  {
    hide SlotLoaded, FirstSlot;
    if b <= a {
    } else {
      LoadSlotsAt(img, ph, data, a, b - 1, j);
      LoadSlotsAt(img, ph, data, a, b - 1, b - 1);
      SlotLoadedSame(img, LoadSlots(img, ph, data, a, b - 1), ph, data, b - 1);
    }
  }

  lemma LoadSlotsWf(img: Image, ph: Phdr, data: seq<byte>, a: nat, b: nat)
    requires WfImage(img)
    requires 0x40_0000 <= ph.vaddr && ph.offset + ph.filesz <= |data| && FirstSlot(ph) <= a
    ensures WfImage(LoadSlots(img, ph, data, a, b))
  {
    hide SlotLoaded, FirstSlot, LoadSlots;
    forall j: nat | j in LoadSlots(img, ph, data, a, b) ensures |LoadSlots(img, ph, data, a, b)[j]| == 4096 {
      LoadSlotsAt(img, ph, data, a, b, j);
    }
  }

  lemma SlotOf(ph: Phdr, v: nat)
    requires 0x40_0000 <= ph.vaddr && 0x40_0000 <= v
    ensures InPages(ph, v) <==> ph.ptype == PT_LOAD && FirstSlot(ph) <= (v - 0x40_0000) / 4096 < EndSlot(ph)
    ensures 0x40_0000 + (v - 0x40_0000) / 4096 * 4096 + v % 4096 == v
  {
    var j := (v - 0x40_0000) / 4096;
    assert v == (1024 + j) * 4096 + v % 4096;
  }

  lemma SegmentByte(img: Image, ph: Phdr, data: seq<byte>, v: nat)
    requires WfImage(img) && Loadable(ph, data) && 0x40_0000 <= v
    ensures WfImage(LoadSegment(img, ph, data))
    ensures ImageByte(LoadSegment(img, ph, data), v) ==
      if !InPages(ph, v) then ImageByte(img, v)
      else if InFile(ph, v) then Some(data[ph.offset + (v - ph.vaddr)])
      else if ImageByte(img, v).Some? then ImageByte(img, v) else Some(0)
  {
    hide LoadSlots, FirstSlot, EndSlot, CopyInto, PageStart, PageEnd;
    if ph.ptype == PT_LOAD {
      SlotOf(ph, v);
      var j := (v - 0x40_0000) / 4096;
      if FirstSlot(ph) < EndSlot(ph) {
        FirstSlotNat(ph);
        LoadSlotsWf(img, ph, data, FirstSlot(ph), EndSlot(ph));
        LoadSlotsAt(img, ph, data, FirstSlot(ph), EndSlot(ph), j);
        if FirstSlot(ph) <= j < EndSlot(ph) {
          PastStart(ph, j);
          CopiedByte(PageOr0(img, j), 0x40_0000 + j * 4096, ph, data, v % 4096);
        }
      }
    }
  }

  lemma FirstSlotNat(ph: Phdr)
    requires 0x40_0000 <= ph.vaddr
    ensures FirstSlot(ph) >= 0
  {
  }

  /** The page-wise loader and the byte-wise meaning of the segments agree everywhere. */
  lemma {:induction false} LoadAllBytes(phs: seq<Phdr>, data: seq<byte>, v: nat)
    requires AllLoadable(phs, data) && 0x40_0000 <= v
    ensures WfImage(LoadAll(phs, data))
    ensures ImageByte(LoadAll(phs, data), v) == ByteOf(phs, data, v)
  {
    if phs == [] {
    } else {
      LoadAllBytes(phs[..|phs| - 1], data, v);
      SegmentByte(LoadAll(phs[..|phs| - 1], data), phs[|phs| - 1], data, v);
    }
  }

  // ---- who may write ----

  /** The segment asks for writable pages. */
  predicate Writes(ph: Phdr) { ph.flags / 2 % 2 == 1 }

  ghost predicate Covered(phs: seq<Phdr>, v: nat) { exists i :: 0 <= i < |phs| && InPages(phs[i], v) }

  /** The page of v may be written to: the segment that maps it first says so. */
  ghost predicate WritableAt(phs: seq<Phdr>, v: nat) {
    if phs == [] then false
    else
      var before, ph := phs[..|phs| - 1], phs[|phs| - 1];
      if Covered(before, v) then WritableAt(before, v) else InPages(ph, v) && Writes(ph)
  }

  /** In terms of the first segment with a part in that page. */
  lemma {:induction false} FirstDecides(phs: seq<Phdr>, k: nat, v: nat)
    requires k < |phs| && InPages(phs[k], v) && forall i {:trigger phs[i]} :: 0 <= i < k ==> !InPages(phs[i], v)
    ensures WritableAt(phs, v) <==> Writes(phs[k])
    decreases |phs|
  {
    var n := |phs| - 1;
    assert forall i :: 0 <= i < n ==> phs[..n][i] == phs[i];
    if k < n {
      assert InPages(phs[..n][k], v);
      FirstDecides(phs[..n], k, v);
    }
  }

  /** Code and data in one page, code first: the program cannot write to its data. */
  lemma SharedPageLost(phs: seq<Phdr>)
    requires |phs| == 2 && phs[0] == Phdr(1, 5, 0x1000, 0x40_0000, 0x100, 0x100)
    requires phs[1] == Phdr(1, 6, 0x1100, 0x40_0100, 0x100, 0x100)
    ensures NoOverlap(phs) && FileFits(phs) && Writes(phs[1]) && InFile(phs[1], 0x40_0100)
    ensures !WritableAt(phs, 0x40_0100)
  {
    assert InPages(phs[0], 0x40_0100);
    FirstDecides(phs, 0, 0x40_0100);
  }

  /** Bytes are where a segment has a part in the page. */
  lemma {:induction false} CoveredBytes(phs: seq<Phdr>, data: seq<byte>, v: nat)
    requires AllLoadable(phs, data)
    ensures ByteOf(phs, data, v).Some? <==> Covered(phs, v)
  {
    if phs != [] {
      var n := |phs| - 1;
      assert forall i :: 0 <= i < n ==> phs[..n][i] == phs[i];
      CoveredBytes(phs[..n], data, v);
      if Covered(phs[..n], v) {
        var i :| 0 <= i < n && InPages(phs[..n][i], v);
        assert InPages(phs[i], v);
      }
      if i :| 0 <= i < |phs| && InPages(phs[i], v) {
        assert i < n ==> InPages(phs[..n][i], v);
      }
    }
  }

  lemma OnlyCovered(phs: seq<Phdr>, v: nat)
    ensures WritableAt(phs, v) ==> Covered(phs, v)
  {
    if phs != [] {
      var n := |phs| - 1;
      assert forall i :: 0 <= i < n ==> phs[..n][i] == phs[i];
      if Covered(phs[..n], v) {
        var i :| 0 <= i < n && InPages(phs[..n][i], v);
        assert InPages(phs[i], v);
      }
    }
  }

  /** Slots a to b-1 were given the right to write, or not, unless they were mapped before. */
  ghost predicate RightsSet(img: Image, w: set<nat>, w': set<nat>, a: int, b: int, writes: bool) {
    forall j: nat {:trigger j in w'} :: j in w' <==> if a <= j < b && j !in img then writes else j in w
  }

  /** The rights after loading: slot by slot what the segments say. */
  ghost predicate RightsOf(phs: seq<Phdr>, w: set<nat>) {
    forall j: nat {:trigger j in w} :: j in w <==> j < 512 && WritableAt(phs, 0x40_0000 + j * 4096)
  }

  /** Loading one more segment. */
  lemma RightsNext(phs: seq<Phdr>, data: seq<byte>, w: set<nat>, w': set<nat>)
    requires AllLoadable(phs, data) && phs != [] && RightsOf(phs[..|phs| - 1], w)
    requires var ph := phs[|phs| - 1];
      if ph.ptype == PT_LOAD
      then RightsSet(LoadAll(phs[..|phs| - 1], data), w, w', FirstSlot(ph), EndSlot(ph), Writes(ph)) else w' == w
    ensures RightsOf(phs, w')
  {
    hide LoadAll, FirstSlot, EndSlot, ByteOf, InPages, Covered;
    var n := |phs| - 1;
    assert forall i :: 0 <= i < n ==> phs[..n][i] == phs[i];
    assert Loadable(phs[n], data);
    NoPages(phs[n]);
    forall j: nat ensures j in w' <==> j < 512 && WritableAt(phs, 0x40_0000 + j * 4096) {
      var v := 0x40_0000 + j * 4096;
      LoadAllBytes(phs[..n], data, v);
      CoveredBytes(phs[..n], data, v);
      SlotAt(j);
      if phs[n].ptype == PT_LOAD {
        SlotOf(phs[n], v);
        SlotsBelow(phs[n]);
      }
      OnlyCovered(phs[..n], v);
      assert j in w' || j !in w';
    }
  }

  lemma NoPages(ph: Phdr)
    ensures ph.ptype != PT_LOAD ==> forall v {:trigger InPages(ph, v)} :: !InPages(ph, v)
  {
  }

  /** Rights are those of whole pages. */
  lemma {:induction false} RightsPage(phs: seq<Phdr>, v: nat)
    ensures WritableAt(phs, v) <==> WritableAt(phs, v / 4096 * 4096)
    ensures Covered(phs, v) <==> Covered(phs, v / 4096 * 4096)
  {
    forall i | 0 <= i < |phs| ensures InPages(phs[i], v) <==> InPages(phs[i], v / 4096 * 4096) {
      SamePage(phs[i], v);
    }
    if phs != [] {
      RightsPage(phs[..|phs| - 1], v);
    }
  }

  lemma SamePage(ph: Phdr, v: nat)
    ensures InPages(ph, v) <==> InPages(ph, v / 4096 * 4096)
  {
  }

  lemma RightsInPage(phs: seq<Phdr>, w: set<nat>, v: nat)
    requires RightsOf(phs, w) && 0x40_0000 <= v < 0x50_0000
    ensures (v - 0x40_0000) / 4096 in w <==> WritableAt(phs, v)
  {
    hide WritableAt;
    RightsPage(phs, v);
    PageOfSlot(v);
    assert (v - 0x40_0000) / 4096 in w || (v - 0x40_0000) / 4096 !in w;
  }

  lemma PageOfSlot(v: nat)
    requires 0x40_0000 <= v < 0x50_0000
    ensures v / 4096 * 4096 == 0x40_0000 + (v - 0x40_0000) / 4096 * 4096 && (v - 0x40_0000) / 4096 < 512
  {
    assert v / 4096 == 1024 + (v - 0x40_0000) / 4096;
  }

  lemma SlotAt(j: nat)
    ensures (0x40_0000 + j * 4096 - 0x40_0000) / 4096 == j
  {
  }

  lemma SlotsBelow(ph: Phdr)
    requires PageEnd(ph) <= 0x50_0000
    ensures EndSlot(ph) <= 256
  {
  }

  /** Segments whose memory ranges do not overlap. */
  ghost predicate NoOverlap(phs: seq<Phdr>) {
    forall i, j {:trigger phs[i], phs[j]} ::
      0 <= i < j < |phs| && phs[i].ptype == PT_LOAD && phs[j].ptype == PT_LOAD ==>
      phs[i].vaddr + phs[i].memsz <= phs[j].vaddr || phs[j].vaddr + phs[j].memsz <= phs[i].vaddr
  }

  ghost predicate FileFits(phs: seq<Phdr>) {
    forall i {:trigger phs[i]} :: 0 <= i < |phs| && phs[i].ptype == PT_LOAD ==> phs[i].filesz <= phs[i].memsz
  }

  /** Outside every segment's file range a mapped byte is zero. */
  lemma {:induction false} ZeroOutsideFiles(phs: seq<Phdr>, data: seq<byte>, v: nat)
    requires AllLoadable(phs, data)
    requires forall i {:trigger phs[i]} :: 0 <= i < |phs| && phs[i].ptype == PT_LOAD ==> !InFile(phs[i], v)
    ensures ByteOf(phs, data, v).Some? ==> ByteOf(phs, data, v).value == 0
    ensures ByteOf(phs, data, v).Some? <==> exists i :: 0 <= i < |phs| && InPages(phs[i], v)
  {
    if phs == [] {
    } else {
      var n := |phs| - 1;
      assert forall i :: 0 <= i < n ==> phs[..n][i] == phs[i];
      ZeroOutsideFiles(phs[..n], data, v);
      if ByteOf(phs[..n], data, v).Some? {
        var i :| 0 <= i < n && InPages(phs[..n][i], v);
        assert InPages(phs[i], v);
      }
      if i :| 0 <= i < |phs| && InPages(phs[i], v) {
        assert i < n ==> InPages(phs[..n][i], v);
      }
    }
  }

  /** A byte of the file range of segment k that no later segment covers. */
  lemma {:induction false} FileByteLoaded(phs: seq<Phdr>, data: seq<byte>, k: nat, v: nat)
    requires AllLoadable(phs, data) && k < |phs| && phs[k].ptype == PT_LOAD && InFile(phs[k], v) && InPages(phs[k], v)
    requires forall i {:trigger phs[i]} :: k < i < |phs| && phs[i].ptype == PT_LOAD ==> !InFile(phs[i], v)
    ensures ByteOf(phs, data, v) == Some(data[phs[k].offset + (v - phs[k].vaddr)])
    decreases |phs|
  {
    var n := |phs| - 1;
    if k < n {
      assert forall i :: 0 <= i < n ==> phs[..n][i] == phs[i];
      FileByteLoaded(phs[..n], data, k, v);
    }
  }

  /** For a well-formed program: each byte of a segment's file range holds the file's byte,
      each byte of its remaining memory is zero. */
  lemma LoadedImage(phs: seq<Phdr>, data: seq<byte>, k: nat, v: nat)
    requires AllLoadable(phs, data) && NoOverlap(phs) && FileFits(phs)
    requires k < |phs| && phs[k].ptype == PT_LOAD && phs[k].vaddr <= v < phs[k].vaddr + phs[k].memsz
    ensures ByteOf(phs, data, v) ==
      if v < phs[k].vaddr + phs[k].filesz then Some(data[phs[k].offset + (v - phs[k].vaddr)]) else Some(0)
  {
    var ph := phs[k];
    MemoryInPages(ph, v);
    forall i | 0 <= i < |phs| && i != k && phs[i].ptype == PT_LOAD ensures !InFile(phs[i], v) {
      assert i < k || k < i;
    }
    if InFile(ph, v) {
      FileByteLoaded(phs, data, k, v);
    } else {
      ZeroOutsideFiles(phs, data, v);
    }
  }

  lemma MemoryInPages(ph: Phdr, v: nat)
    requires ph.ptype == PT_LOAD && ph.vaddr <= v < ph.vaddr + ph.memsz
    ensures InPages(ph, v)
  {
  }

  /** The heap starts at the page-rounded end of the highest segment. */
  lemma {:induction false} HeapEndIsMax(phs: seq<Phdr>)
    ensures HeapEnd(phs) % 4096 == 0
    ensures forall i {:trigger phs[i]} :: 0 <= i < |phs| && phs[i].ptype == PT_LOAD ==> PageEnd(phs[i]) <= HeapEnd(phs)
    ensures HeapEnd(phs) == 0 || exists i ::
      0 <= i < |phs| && phs[i].ptype == PT_LOAD && PageEnd(phs[i]) == HeapEnd(phs)
  {
    if phs == [] {
    } else {
      var n := |phs| - 1;
      assert forall i :: 0 <= i < n ==> phs[..n][i] == phs[i];
      HeapEndIsMax(phs[..n]);
      if HeapEnd(phs[..n]) != 0 {
        var i :| 0 <= i < n && phs[..n][i].ptype == PT_LOAD && PageEnd(phs[..n][i]) == HeapEnd(phs[..n]);
        assert phs[i].ptype == PT_LOAD && PageEnd(phs[i]) == HeapEnd(phs[..n]);
      }
    }
  }

  ghost predicate HasLoad(phs: seq<Phdr>) { exists i :: 0 <= i < |phs| && phs[i].ptype == PT_LOAD }

  /** The heap of a loadable program starts inside the window, and below the stack, if and
      only if the program has a segment; otherwise it starts at address 0. */
  lemma HeapEndInWindow(phs: seq<Phdr>, data: seq<byte>)
    requires AllLoadable(phs, data)
    ensures HeapEnd(phs) <= 0x50_0000
    ensures HeapEnd(phs) >= 0x40_0000 <==> HasLoad(phs)
    ensures !HasLoad(phs) ==> HeapEnd(phs) == 0
  {
    HeapEndIsMax(phs);
    if HeapEnd(phs) != 0 {
      var i :| 0 <= i < |phs| && phs[i].ptype == PT_LOAD && PageEnd(phs[i]) == HeapEnd(phs);
      assert Loadable(phs[i], data);
    }
    if HasLoad(phs) {
      var i :| 0 <= i < |phs| && phs[i].ptype == PT_LOAD;
      assert Loadable(phs[i], data) && PageEnd(phs[i]) <= HeapEnd(phs);
    }
  }

  /** A file without program headers is loadable, and its heap starts at address 0. */
  lemma NoHeaders(data: seq<byte>)
    requires |data| >= 64 && PhOff(data) <= |data| && PhNum(data) == 0
    ensures AllLoadable(Phdrs(data), data) && HeapEnd(Phdrs(data)) == 0
  {
    hide Field;
    assert Phdrs(data) == [];
  }
}
