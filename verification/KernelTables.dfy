/** The kernel's static page tables, as built at boot, under the processor's own walk
    (4-level paging with 2 MB and 1 GB pages). */
module KernelTables {
  import opened Bytes
  import opened PageTables

  const KERNEL_VMA_BASE: nat := 0xFFFF_FFFF_8000_0000
  const TWO_64: nat := 0x1_0000_0000_0000_0000
  const HUGE_FLAGS: nat := 0x87 // present, writable, user, 2 MB page

  /** Addresses the processor accepts: bits 63 to 47 all equal. */
  predicate Canonical(v: nat) { v < 0x8000_0000_0000 || 0xFFFF_8000_0000_0000 <= v < TWO_64 }

  predicate Present(e: nat) { e % 2 == 1 }

  /** Physical address bits 51 to 12 of an entry, as a frame number. */
  function FrameOf(e: nat): nat { e / 4096 % 0x100_0000_0000 }

  /** The processor's translation of a virtual address. */
  function HwWalk(mem: seq<seq<byte>>, root: nat, v: nat): Option<nat> {
    if !Canonical(v) then None
    else
      var ix := IxOf(v);
      var e4 := At(mem, root, ix.i4);
      if !Present(e4) then None
      else
        var e3 := At(mem, FrameOf(e4), ix.i3);
        if !Present(e3) then None
        else if IsHuge(e3) then Some(FrameOf(e3) / 0x4_0000 * 0x4000_0000 + v % 0x4000_0000)
        else
          var e2 := At(mem, FrameOf(e3), ix.i2);
          if !Present(e2) then None
          else if IsHuge(e2) then Some(FrameOf(e2) / 512 * 0x20_0000 + v % 0x20_0000)
          else
            var e1 := At(mem, FrameOf(e2), ix.i1);
            if !Present(e1) then None else Some(FrameOf(e1) * 4096 + v % 4096)
  }

  /** An access, in user mode or as supervisor, for writing or for reading, may go through
      the entry. (Write protection holds for the supervisor, too.) */
  predicate Allows(e: nat, user: bool, write: bool) {
    Present(e) && (user ==> UserBit(e)) && (write ==> WriteBit(e))
  }

  /** The processor's translation for an access, which every level has to allow. */
  function Access(mem: seq<seq<byte>>, root: nat, v: nat, user: bool, write: bool): (r: Option<nat>)
    ensures r.Some? ==> r == HwWalk(mem, root, v)
  {
    if !Canonical(v) then None
    else
      var ix := IxOf(v);
      var e4 := At(mem, root, ix.i4);
      if !Allows(e4, user, write) then None
      else
        var e3 := At(mem, FrameOf(e4), ix.i3);
        if !Allows(e3, user, write) then None
        else if IsHuge(e3) then HwWalk(mem, root, v)
        else
          var e2 := At(mem, FrameOf(e3), ix.i2);
          if !Allows(e2, user, write) then None
          else if IsHuge(e2) then HwWalk(mem, root, v)
          else if Allows(At(mem, FrameOf(e2), ix.i1), user, write) then HwWalk(mem, root, v) else None
  }

  function UserWalk(mem: seq<seq<byte>>, root: nat, v: nat, write: bool): (r: Option<nat>)
    ensures r.Some? ==> r == HwWalk(mem, root, v)
  {
    Access(mem, root, v, true, write)
  }

  /** Where a store of the kernel goes. */
  function KernelStore(mem: seq<seq<byte>>, root: nat, v: nat): (r: Option<nat>)
    ensures r.Some? ==> r == HwWalk(mem, root, v)
  {
    Access(mem, root, v, false, true)
  }

  /** The kernel's alias of a physical address, in 64-bit arithmetic. */
  function PhysToVirt(phys: nat): nat { (phys + KERNEL_VMA_BASE) % TWO_64 }

  /** Frames of the static tables. */
  datatype Kernel = Kernel(pml4: nat, low: nat, high: nat, pd0: nat, pd1: nat, pd2: nat, pd3: nat)
  {
    function Pd(i: nat): nat { if i == 0 then pd0 else if i == 1 then pd1 else if i == 2 then pd2 else pd3 }

    ghost predicate Wf(n: nat) {
      && pml4 < n && low < n && high < n && (forall i :: 0 <= i < 4 ==> Pd(i) < n) && n < 0x100_0000_0000
      && pml4 != low && pml4 != high && low != high
      && (forall i :: 0 <= i < 4 ==> Pd(i) != pml4 && Pd(i) != low && Pd(i) != high)
      && (forall i, j :: 0 <= i < j < 4 ==> Pd(i) != Pd(j))
    }

    predicate IsPd(f: nat) { f == pd0 || f == pd1 || f == pd2 || f == pd3 }
  }

  /** Which slot of the high PDPT directory i goes to. */
  function HighSlot(i: nat): nat { if i == 0 then 510 else if i == 1 then 511 else if i == 2 then 508 else 509 }

  /** Entry j of the directory for gigabyte i. */
  function PdEntry(i: nat, j: nat): nat { i * 0x4000_0000 + j * 0x20_0000 + HUGE_FLAGS }

  /** Entry j of the low PDPT when `n` directories are linked. */
  function LowEntry(k: Kernel, n: nat, j: nat): nat { if j < n && j < 4 then k.Pd(j) * 4096 + TABLE_FLAGS else 0 }

  function HighEntry(k: Kernel, n: nat, j: nat): nat {
    if n > 0 && j == 510 then k.pd0 * 4096 + TABLE_FLAGS
    else if n > 1 && j == 511 then k.pd1 * 4096 + TABLE_FLAGS
    else if n > 2 && j == 508 then k.pd2 * 4096 + TABLE_FLAGS
    else if n > 3 && j == 509 then k.pd3 * 4096 + TABLE_FLAGS
    else 0
  }

  function RootEntry(k: Kernel, j: nat): nat {
    if j == 0 then k.low * 4096 + TABLE_FLAGS else if j == 511 then k.high * 4096 + TABLE_FLAGS else 0
  }

  /** The static tables hold what boot puts there. */
  ghost predicate Built(mem: seq<seq<byte>>, k: Kernel) {
    && (forall j {:trigger At(mem, k.pml4, j)} :: 0 <= j < 512 ==> At(mem, k.pml4, j) == RootEntry(k, j))
    && (forall j {:trigger At(mem, k.low, j)} :: 0 <= j < 512 ==> At(mem, k.low, j) == LowEntry(k, 4, j))
    && (forall j {:trigger At(mem, k.high, j)} :: 0 <= j < 512 ==> At(mem, k.high, j) == HighEntry(k, 4, j))
    && (forall i, j {:trigger At(mem, k.Pd(i), j)} ::
          0 <= i < 4 && 0 <= j < 512 ==> At(mem, k.Pd(i), j) == PdEntry(i, j))
  }

  ghost predicate AllZeroTable(mem: seq<seq<byte>>, f: nat) {
    forall j {:trigger At(mem, f, j)} :: 0 <= j < 512 ==> At(mem, f, j) == 0
  }

  /** mem' differs from mem in table f only. */
  ghost predicate OnlyTable(mem: seq<seq<byte>>, mem': seq<seq<byte>>, f: nat) {
    |mem'| == |mem| && (forall g {:trigger mem'[g]} :: 0 <= g < |mem| && g != f ==> mem'[g] == mem[g]) && WfMem(mem')
  }

  /** Sets one entry of a table in place. */
  method Store(mem: seq<seq<byte>>, f: nat, i: nat, e: nat) returns (r: seq<seq<byte>>)
    requires WfMem(mem) && f < |mem| && i < 512 && e < TWO_64
    ensures OnlyTable(mem, r, f) && |r| == |mem|
    ensures forall g: nat, j: nat :: At(r, g, j) == if g == f && j == i then e else At(mem, g, j)
  {
    r := WithEntryAt(mem, f, i, e);
    forall g: nat, j: nat ensures At(r, g, j) == if g == f && j == i then e else At(mem, g, j) {
      AtAfterSet(mem, f, i, e, g, j);
    }
  }

  /** Fills directory i with 2 MB pages. */
  method FillPd(mem: seq<seq<byte>>, f: nat, i: nat) returns (r: seq<seq<byte>>)
    requires WfMem(mem) && f < |mem| && i < 4
    ensures OnlyTable(mem, r, f) && |r| == |mem|
    ensures forall g: nat, j: nat :: At(r, g, j) == if g == f && j < 512 then PdEntry(i, j) else At(mem, g, j)
  {
    hide At;
    r := mem;
    for entry := 0 to 512
      invariant OnlyTable(mem, r, f)
      invariant forall g: nat, j: nat :: At(r, g, j) == if g == f && j < entry then PdEntry(i, j) else At(mem, g, j)
    {
      var phys := i * 0x4000_0000 + entry * 0x20_0000;
      r := Store(r, f, entry, phys + HUGE_FLAGS);
    }
  }

  /** The entries of the tables while the directories are being linked. */
  ghost predicate Linking(mem: seq<seq<byte>>, k: Kernel, n: nat) {
    && (forall j {:trigger At(mem, k.pml4, j)} :: 0 <= j < 512 ==> At(mem, k.pml4, j) == RootEntry(k, j))
    && (forall j {:trigger At(mem, k.low, j)} :: 0 <= j < 512 ==> At(mem, k.low, j) == LowEntry(k, n, j))
    && (forall j {:trigger At(mem, k.high, j)} :: 0 <= j < 512 ==> At(mem, k.high, j) == HighEntry(k, n, j))
  }

  ghost predicate KernelOnly(mem: seq<seq<byte>>, mem': seq<seq<byte>>, k: Kernel) {
    && |mem'| == |mem| && WfMem(mem')
    && (forall g {:trigger mem'[g]} ::
          0 <= g < |mem| && g != k.pml4 && g != k.low && g != k.high && !k.IsPd(g) ==> mem'[g] == mem[g])
  }

  method LinkOne(mem: seq<seq<byte>>, k: Kernel, i: nat) returns (r: seq<seq<byte>>)
    requires WfMem(mem) && k.Wf(|mem|) && i < 4 && Linking(mem, k, i)
    ensures KernelOnly(mem, r, k) && Linking(r, k, i + 1)
  {
    hide At;
    var e := k.Pd(i) * 4096 + TABLE_FLAGS;
    var m := Store(mem, k.low, i, e);
    r := Store(m, k.high, HighSlot(i), e);
  }

  method LinkRoot(mem: seq<seq<byte>>, k: Kernel) returns (r: seq<seq<byte>>)
    requires WfMem(mem) && k.Wf(|mem|)
    requires AllZeroTable(mem, k.pml4) && AllZeroTable(mem, k.low) && AllZeroTable(mem, k.high)
    ensures KernelOnly(mem, r, k) && Linking(r, k, 0)
  {
    hide At;
    var m := Store(mem, k.pml4, 0, k.low * 4096 + TABLE_FLAGS);
    r := Store(m, k.pml4, 511, k.high * 4096 + TABLE_FLAGS);
  }

  method FillAll(mem: seq<seq<byte>>, k: Kernel) returns (r: seq<seq<byte>>)
    requires WfMem(mem) && k.Wf(|mem|) && Linking(mem, k, 4)
    ensures KernelOnly(mem, r, k) && Built(r, k)
  {
    hide At;
    r := mem;
    for i := 0 to 4
      invariant KernelOnly(mem, r, k) && Linking(r, k, 4)
      invariant forall h, j {:trigger At(r, k.Pd(h), j)} ::
        0 <= h < i && 0 <= j < 512 ==> At(r, k.Pd(h), j) == PdEntry(h, j)
    {
      r := FillPd(r, k.Pd(i), i);
    }
  }

  /** Builds the static tables in place. */
  method BuildTables(mem: seq<seq<byte>>, k: Kernel) returns (r: seq<seq<byte>>)
    requires WfMem(mem) && k.Wf(|mem|)
    requires AllZeroTable(mem, k.pml4) && AllZeroTable(mem, k.low) && AllZeroTable(mem, k.high)
    ensures KernelOnly(mem, r, k) && Built(r, k)
  {
    r := LinkRoot(mem, k);
    for i := 0 to 4
      invariant KernelOnly(mem, r, k) && Linking(r, k, i)
    {
      r := LinkOne(r, k, i);
    }
    r := FillAll(r, k);
  }

  // ---- the processor's view of the static tables ----

  lemma TableFrame(f: nat)
    requires f < 0x100_0000_0000
    ensures FrameOf(f * 4096 + TABLE_FLAGS) == f && Present(f * 4096 + TABLE_FLAGS) && !IsHuge(f * 4096 + TABLE_FLAGS)
  {
    var e := f * 4096 + TABLE_FLAGS;
    assert e / 4096 == f;
    assert e / 128 == f * 32;
    assert e == 2 * (f * 2048 + 3) + 1;
  }

  lemma DirectoryFrame(i: nat, j: nat)
    requires i < 4 && j < 512
    ensures Present(PdEntry(i, j)) && IsHuge(PdEntry(i, j))
    ensures FrameOf(PdEntry(i, j)) / 512 * 0x20_0000 == i * 0x4000_0000 + j * 0x20_0000
  {
    var e := PdEntry(i, j);
    assert e == (i * 0x4_0000 + j * 512) * 4096 + HUGE_FLAGS;
    assert e / 4096 == i * 0x4_0000 + j * 512;
    assert e / 128 == (i * 0x4_0000 + j * 512) * 32 + 1;
  }

  /** An address in gigabyte n of the low half. */
  lemma LowIndices(v: nat)
    requires v < 0x1_0000_0000
    ensures IxOf(v).i4 == 0 && IxOf(v).i3 == v / 0x4000_0000 < 4
    ensures v == IxOf(v).i3 * 0x4000_0000 + IxOf(v).i2 * 0x20_0000 + v % 0x20_0000
  {
    assert v / 0x20_0000 / 512 == v / 0x4000_0000;
  }

  /** The low four gigabytes are mapped to themselves. */
  lemma LowIdentity(mem: seq<seq<byte>>, k: Kernel, v: nat)
    requires k.Wf(|mem|) && Built(mem, k) && v < 0x1_0000_0000
    ensures HwWalk(mem, k.pml4, v) == Some(v)
  {
    LowIndices(v);
    var ix := IxOf(v);
    TableFrame(k.low);
    TableFrame(k.Pd(ix.i3));
    DirectoryFrame(ix.i3, ix.i2);
    assert At(mem, k.pml4, 0) == k.low * 4096 + TABLE_FLAGS;
    assert At(mem, k.low, ix.i3) == k.Pd(ix.i3) * 4096 + TABLE_FLAGS;
    assert At(mem, k.Pd(ix.i3), ix.i2) == PdEntry(ix.i3, ix.i2);
  }

  lemma HighIndices(p: nat)
    requires p < 0x8000_0000
    ensures PhysToVirt(p) == p + KERNEL_VMA_BASE
    ensures var v := PhysToVirt(p);
      && IxOf(v).i4 == 511 && IxOf(v).i3 == 510 + p / 0x4000_0000 && IxOf(v).i2 == p / 0x20_0000 % 512
      && v % 0x20_0000 == p % 0x20_0000
    ensures p == p / 0x4000_0000 * 0x4000_0000 + p / 0x20_0000 % 512 * 0x20_0000 + p % 0x20_0000
  {
    var v := p + KERNEL_VMA_BASE;
    TopIndex(p, 510);
    Megabytes(p);
  }

  /** Table indices of the last gigabytes of the address space, from number s of the 512
      behind entry 511. */
  lemma TopIndex(x: nat, s: nat)
    requires 508 <= s < 512 && x < (512 - s) * 0x4000_0000
    ensures var v := (0x3_FFFF_FE00 + s) * 0x4000_0000 + x;
      && IxOf(v).i4 == 511 && IxOf(v).i3 == s + x / 0x4000_0000 && IxOf(v).i2 == x / 0x20_0000 % 512
      && v % 0x20_0000 == x % 0x20_0000
  {
    var v := (0x3_FFFF_FE00 + s) * 0x4000_0000 + x;
    var g := x / 0x4000_0000;
    Quotient(x, 0x3_FFFF_FE00 + s, 0x4000_0000);
    Quotient(s + g, 0x1FF_FFFF, 512);
    HalfTerabytes(v);
    Quotient(x, (0x3_FFFF_FE00 + s) * 512, 0x20_0000);
    Quotient(x / 0x20_0000, 0x3_FFFF_FE00 + s, 512);
  }

  lemma HalfTerabytes(v: nat)
    ensures v / 0x4000_0000 / 512 == v / 0x80_0000_0000
  {
    var m := v / 0x4000_0000;
    UniqueQuotient(v, 0x80_0000_0000, m / 512, m % 512 * 0x4000_0000 + v % 0x4000_0000);
  }

  lemma Quotient(p: nat, q: nat, n: nat)
    requires n > 0
    ensures (p + q * n) / n == q + p / n && (p + q * n) % n == p % n
  {
    var a, b := p / n, p % n;
    assert p == a * n + b;
    assert p + q * n == (a + q) * n + b by {
      Distribute(a, q, n);
    }
    UniqueQuotient(p + q * n, n, a + q, b);
  }

  lemma Distribute(a: nat, q: nat, n: nat)
    ensures (a + q) * n == a * n + q * n
  {
  }

  lemma UniqueQuotient(x: nat, n: nat, a: nat, b: nat)
    requires n > 0 && b < n && x == a * n + b
    ensures x / n == a && x % n == b
  {
    var c, d := x / n, x % n;
    assert c * n + d == a * n + b && d < n;
    if c < a {
      MulLess(c, a, n);
    } else if a < c {
      MulLess(a, c, n);
    }
  }

  lemma MulLess(a: nat, b: nat, n: nat)
    requires a < b
    ensures a * n + n <= b * n
  {
    var d: nat := b - a - 1;
    Distribute(a + 1, d, n);
    Distribute(a, 1, n);
    assert d * n >= 0;
  }

  /** Gigabytes, 2 MB pages and the rest of an address. */
  lemma Megabytes(p: nat)
    ensures p / 0x20_0000 / 512 == p / 0x4000_0000
    ensures p == p / 0x4000_0000 * 0x4000_0000 + p / 0x20_0000 % 512 * 0x20_0000 + p % 0x20_0000
  {
    var m := p / 0x20_0000;
    UniqueQuotient(p, 0x4000_0000, m / 512, m % 512 * 0x20_0000 + p % 0x20_0000);
  }

  /** The top four gigabytes are mapped in two halves, of which the upper one is the alias. */
  lemma TopMapped(mem: seq<seq<byte>>, k: Kernel, y: nat)
    requires k.Wf(|mem|) && Built(mem, k) && y < 0x1_0000_0000
    ensures HwWalk(mem, k.pml4, 0xFFFF_FFFF_0000_0000 + y) == Some((y + 0x8000_0000) % 0x1_0000_0000)
  {
    hide At;
    var p := (y + 0x8000_0000) % 0x1_0000_0000;
    TopIndices(y);
    var i, j := p / 0x4000_0000, p / 0x20_0000 % 512;
    TableFrame(k.high);
    TableFrame(k.Pd(i));
    DirectoryFrame(i, j);
    assert At(mem, k.pml4, 511) == k.high * 4096 + TABLE_FLAGS;
    assert At(mem, k.high, 508 + y / 0x4000_0000) == k.Pd(i) * 4096 + TABLE_FLAGS;
    assert At(mem, k.Pd(i), j) == PdEntry(i, j);
  }

  lemma TopIndices(y: nat)
    requires y < 0x1_0000_0000
    ensures var v, p := 0xFFFF_FFFF_0000_0000 + y, (y + 0x8000_0000) % 0x1_0000_0000;
      && IxOf(v).i4 == 511 && IxOf(v).i3 == 508 + y / 0x4000_0000 && IxOf(v).i2 == p / 0x20_0000 % 512
      && v % 0x20_0000 == p % 0x20_0000 && p / 0x4000_0000 == (y / 0x4000_0000 + 2) % 4
      && p == p / 0x4000_0000 * 0x4000_0000 + p / 0x20_0000 % 512 * 0x20_0000 + p % 0x20_0000
  {
    var v, p := 0xFFFF_FFFF_0000_0000 + y, (y + 0x8000_0000) % 0x1_0000_0000;
    TopIndex(y, 508);
    Megabytes(p);
    if y < 0x8000_0000 {
      HalfTurn(y);
    } else {
      HalfTurn(p);
    }
  }

  lemma HalfTurn(x: nat)
    requires x < 0x8000_0000
    ensures var y := x + 0x8000_0000;
      && y / 0x4000_0000 == x / 0x4000_0000 + 2 && y / 0x20_0000 % 512 == x / 0x20_0000 % 512
      && y % 0x20_0000 == x % 0x20_0000
  {
    Quotient(x, 2, 0x4000_0000);
    Quotient(x, 1024, 0x20_0000);
    Quotient(x / 0x20_0000, 2, 512);
  }

  /** Below two gigabytes the kernel alias inverts the processor's translation. */
  lemma AliasBelow2G(mem: seq<seq<byte>>, k: Kernel, p: nat)
    requires k.Wf(|mem|) && Built(mem, k) && p < 0x8000_0000
    ensures HwWalk(mem, k.pml4, PhysToVirt(p)) == Some(p)
  {
    HighIndices(p);
    var i, j := p / 0x4000_0000, p / 0x20_0000 % 512;
    TableFrame(k.high);
    TableFrame(k.Pd(i));
    DirectoryFrame(i, j);
    assert At(mem, k.pml4, 511) == k.high * 4096 + TABLE_FLAGS;
    assert At(mem, k.high, 510 + i) == k.Pd(i) * 4096 + TABLE_FLAGS;
    assert At(mem, k.Pd(i), j) == PdEntry(i, j);
  }

  /** The last step of a walk that has reached a static directory. */
  lemma DirectoryStep(mem: seq<seq<byte>>, k: Kernel, i: nat, j: nat)
    requires k.Wf(|mem|) && Built(mem, k) && i < 4 && j < 512
    ensures var e := k.Pd(i) * 4096 + TABLE_FLAGS;
      && Present(e) && !IsHuge(e) && At(mem, FrameOf(e), j) == PdEntry(i, j) && IsHuge(PdEntry(i, j))
      && FrameOf(PdEntry(i, j)) / 512 * 0x20_0000 + 0x20_0000 <= 0x1_0000_0000
  {
    hide At;
    TableFrame(k.Pd(i));
    DirectoryFrame(i, j);
    assert At(mem, k.Pd(i), j) == PdEntry(i, j);
  }

  /** A PDPT entry of the static tables is empty or leads to one of the directories. */
  lemma StaticPdpt(mem: seq<seq<byte>>, k: Kernel, i4: nat, i3: nat)
    requires k.Wf(|mem|) && Built(mem, k) && i4 < 512 && i3 < 512
    ensures !Present(At(mem, k.pml4, i4)) || !Present(At(mem, FrameOf(At(mem, k.pml4, i4)), i3))
      || exists i :: 0 <= i < 4 && At(mem, FrameOf(At(mem, k.pml4, i4)), i3) == k.Pd(i) * 4096 + TABLE_FLAGS
  {
    hide At;
    TableFrame(k.low);
    TableFrame(k.high);
    assert At(mem, k.pml4, i4) == RootEntry(k, i4);
    assert At(mem, k.low, i3) == LowEntry(k, 4, i3);
    assert At(mem, k.high, i3) == HighEntry(k, 4, i3);
    assert k.Pd(0) == k.pd0 && k.Pd(1) == k.pd1 && k.Pd(2) == k.pd2 && k.Pd(3) == k.pd3;
  }

  /** The static tables lead nowhere beyond four gigabytes. */
  lemma Below4G(mem: seq<seq<byte>>, k: Kernel, v: nat)
    requires k.Wf(|mem|) && Built(mem, k)
    ensures HwWalk(mem, k.pml4, v).Some? ==> HwWalk(mem, k.pml4, v).value < 0x1_0000_0000
  {
    hide At, FrameOf, Present, IsHuge, Built, IxOf;
    var ix := IxOf(v);
    StaticPdpt(mem, k, ix.i4, ix.i3);
    var e4 := At(mem, k.pml4, ix.i4);
    var e3 := At(mem, FrameOf(e4), ix.i3);
    if Present(e4) && Present(e3) {
      var i :| 0 <= i < 4 && e3 == k.Pd(i) * 4096 + TABLE_FLAGS;
      DirectoryStep(mem, k, i, ix.i2);
    }
  }

  /** The kernel alias of a physical address translates back to it exactly below two
      gigabytes: beyond, the 64-bit sum wraps into the low half. */
  lemma AliasInverts(mem: seq<seq<byte>>, k: Kernel, p: nat)
    requires k.Wf(|mem|) && Built(mem, k) && p < TWO_64
    ensures HwWalk(mem, k.pml4, PhysToVirt(p)) == Some(p) <==> p < 0x8000_0000
  {
    if p < 0x8000_0000 {
      AliasBelow2G(mem, k, p);
    } else {
      var v := PhysToVirt(p);
      assert v == p - 0x8000_0000;
      Below4G(mem, k, v);
      if p < 0x1_0000_0000 {
        LowIdentity(mem, k, v);
      }
    }
  }

  /** The first address that fails: its alias is address 0. */
  lemma AliasWraps(mem: seq<seq<byte>>, k: Kernel)
    requires k.Wf(|mem|) && Built(mem, k)
    ensures PhysToVirt(0x8000_0000) == 0 && HwWalk(mem, k.pml4, PhysToVirt(0x8000_0000)) == Some(0)
  {
    LowIdentity(mem, k, 0);
  }
}
