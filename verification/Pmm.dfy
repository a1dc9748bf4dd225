/** The physical frame allocator: one bit per 4 KB frame, set while the frame is in use. */
module Pmm {
  import opened Bytes

  const PAGE_SIZE: nat := 4096
  const BITMAP_BYTES: nat := 32768
  const MAX_PAGES: nat := 262144

  // ---- bits of a byte ----

  function Mask(bit: nat): bv8
    requires bit < 8
  {
    if bit == 0 then 1 else if bit == 1 then 2 else if bit == 2 then 4 else if bit == 3 then 8
    else if bit == 4 then 16 else if bit == 5 then 32 else if bit == 6 then 64 else 128
  }

  predicate BitSet(b: bv8, bit: nat)
    requires bit < 8
  {
    b & Mask(bit) != 0
  }

  lemma AfterSet(b: bv8, i: nat, j: nat)
    requires i < 8 && j < 8
    ensures BitSet(b | Mask(i), j) <==> i == j || BitSet(b, j)
  {
  }

  lemma AfterClear(b: bv8, i: nat, j: nat)
    requires i < 8 && j < 8
    ensures BitSet(b & !Mask(i), j) <==> i != j && BitSet(b, j)
  {
  }

  lemma FullByte(b: bv8)
    ensures b == 0xFF <==> forall i :: 0 <= i < 8 ==> BitSet(b, i)
  {
    if forall i :: 0 <= i < 8 ==> BitSet(b, i) {
      assert BitSet(b, 0) && BitSet(b, 1) && BitSet(b, 2) && BitSet(b, 3);
      assert BitSet(b, 4) && BitSet(b, 5) && BitSet(b, 6) && BitSet(b, 7);
    }
  }

  // ---- regions reported by the loader ----

  datatype Kind = Usable | Used | Reserved

  datatype Region = Region(base: nat, size: nat, kind: Kind)

  /** Frames of a usable region, numbered from its rounded-down base. */
  predicate Covers(r: Region, page: nat) {
    r.kind.Usable? && r.base / PAGE_SIZE <= page < r.base / PAGE_SIZE + r.size / PAGE_SIZE
  }

  predicate CoveredBy(regions: seq<Region>, page: nat) {
    exists k :: 0 <= k < |regions| && Covers(regions[k], page)
  }

  ghost function UsablePages(regions: seq<Region>): set<nat> {
    set p: nat | p < MAX_PAGES && CoveredBy(regions, p)
  }

  lemma UsableNone(regions: seq<Region>)
    ensures UsablePages(regions[..0]) == {}
  {
  }

  // ---- the bitmap as a set of frames ----

  predicate IsFree(bm: seq<bv8>, page: nat)
    requires |bm| == BITMAP_BYTES
  {
    page < MAX_PAGES && !BitSet(bm[page / 8], page % 8)
  }

  ghost function FreeSet(bm: seq<bv8>): set<nat>
    requires |bm| == BITMAP_BYTES
  {
    set p: nat | p < MAX_PAGES && IsFree(bm, p)
  }

  lemma FreeSetClear(bm: seq<bv8>, page: nat)
    requires |bm| == BITMAP_BYTES && page < MAX_PAGES
    ensures FreeSet(bm[page / 8 := bm[page / 8] & !Mask(page % 8)]) == FreeSet(bm) + {page}
  {
    var bm' := bm[page / 8 := bm[page / 8] & !Mask(page % 8)];
    forall p: nat | p < MAX_PAGES ensures IsFree(bm', p) <==> p == page || IsFree(bm, p) {
      AfterClear(bm[page / 8], page % 8, p % 8);
    }
  }

  lemma FreeSetTake(bm: seq<bv8>, page: nat)
    requires |bm| == BITMAP_BYTES && page < MAX_PAGES
    ensures FreeSet(bm[page / 8 := bm[page / 8] | Mask(page % 8)]) == FreeSet(bm) - {page}
  {
    var bm' := bm[page / 8 := bm[page / 8] | Mask(page % 8)];
    forall p: nat | p < MAX_PAGES ensures IsFree(bm', p) <==> p != page && IsFree(bm, p) {
      AfterSet(bm[page / 8], page % 8, p % 8);
    }
  }

  lemma AddCard(s: set<nat>, x: nat)
    ensures |s + {x}| == |s| + (if x in s then 0 else 1)
    ensures |s - {x}| == |s| - (if x in s then 1 else 0)
  {
    if x in s {
      assert s + {x} == s;
    } else {
      assert s - {x} == s;
    }
  }

  /** If bits 0 to n-1 of byte k are set and nothing below byte k is free, then nothing
      below frame 8k+n is. */
  lemma SetBitsSkipped(bm: seq<bv8>, k: nat, n: nat)
    requires |bm| == BITMAP_BYTES && k < BITMAP_BYTES && n <= 8
    requires forall b :: 0 <= b < n ==> BitSet(bm[k], b)
    requires forall p :: p in FreeSet(bm) ==> 8 * k <= p
    ensures forall p :: p in FreeSet(bm) ==> 8 * k + n <= p
  {
    forall p | p in FreeSet(bm) ensures 8 * k + n <= p {
      assert IsFree(bm, p);
      assert p < 8 * k + 8 ==> p / 8 == k && p % 8 == p - 8 * k;
    }
  }

  lemma NothingFree(bm: seq<bv8>)
    requires |bm| == BITMAP_BYTES
    requires forall p :: p in FreeSet(bm) ==> 8 * BITMAP_BYTES <= p
    ensures FreeSet(bm) == {}
  {
  }

  lemma InFreeSet(bm: seq<bv8>, page: nat)
    requires |bm| == BITMAP_BYTES && page < MAX_PAGES
    ensures page in FreeSet(bm) <==> !BitSet(bm[page / 8], page % 8)
  {
    assert IsFree(bm, page) <==> !BitSet(bm[page / 8], page % 8);
  }

  function SaturatingSub(a: nat, b: nat): nat { if a < b then 0 else a - b }

  class Allocator {
    const bitmap: array<bv8>
    var freeCount: nat
    var totalCount: nat

    ghost predicate Valid()
      reads this, bitmap
    {
      bitmap.Length == BITMAP_BYTES && freeCount == |Free()|
    }

    /** The frames whose bit is clear. */
    ghost function Free(): set<nat>
      requires bitmap.Length == BITMAP_BYTES
      reads bitmap
    {
      FreeSet(bitmap[..])
    }

    constructor ()
      ensures Valid() && Free() == {} && totalCount == 0
      ensures fresh(bitmap)
    {
      bitmap := new bv8[BITMAP_BYTES](_ => 0xFF);
      freeCount := 0;
      totalCount := 0;
      new;
      forall p: nat | p < MAX_PAGES ensures !IsFree(bitmap[..], p) {
        FullByte(0xFF);
      }
    }

    /** Clears the bit of `page` if it is set; tells whether it was. */
    method ClearBit(page: nat) returns (was: bool)
      requires bitmap.Length == BITMAP_BYTES && page < MAX_PAGES
      modifies bitmap
      ensures Free() == old(Free()) + {page}
      ensures was <==> page !in old(Free())
    {
      hide FreeSet;
      var byte, bit := page / 8, page % 8;
      was := bitmap[byte] & Mask(bit) != 0;
      FreeSetClear(bitmap[..], page);
      InFreeSet(bitmap[..], page);
      if was {
        bitmap[byte] := bitmap[byte] & !Mask(bit);
        assert bitmap[..] == old(bitmap[..])[byte := bitmap[byte]];
      } else {
        assert Free() == Free() + {page};
      }
    }

    /** Hands the frames of all usable regions to the allocator; a frame covered by
        several regions is counted once. */
    method Init(regions: seq<Region>)
      requires Valid()
      modifies this, bitmap
      ensures Valid() && Free() == old(Free()) + UsablePages(regions)
      ensures totalCount - old(totalCount) == freeCount - old(freeCount)
    {
      hide FreeSet, UsablePages, BitSet;
      UsableNone(regions);
      for k := 0 to |regions|
        invariant Valid() && Free() == old(Free()) + UsablePages(regions[..k])
        invariant totalCount - old(totalCount) == freeCount - old(freeCount)
      {
        InitRegion(regions[k]);
        UsableStep(regions, k);
      }
      assert regions[..|regions|] == regions;
    }

    method InitRegion(r: Region)
      requires Valid()
      modifies this, bitmap
      ensures Valid() && Free() == old(Free()) + UsablePages([r])
      ensures totalCount - old(totalCount) == freeCount - old(freeCount)
    {
      hide FreeSet, UsablePages, PageRange;
      RegionRange(r);
      if r.kind.Usable? {
        var start := r.base / PAGE_SIZE;
        var pages := r.size / PAGE_SIZE;
        if start + pages >= MAX_PAGES {
          ClippedRange(start, start + pages);
        }
        ReclaimRange(start, if start + pages < MAX_PAGES then start + pages else MAX_PAGES);
      }
    }

    /** Marks the frames from `start` to `end` free, counting those that were not. */
    method ReclaimRange(start: nat, end: nat)
      requires Valid() && end <= 262144
      modifies this, bitmap
      ensures Valid() && Free() == old(Free()) + PageRange(start, if start < end then end else start)
      ensures totalCount - old(totalCount) == freeCount - old(freeCount)
    {
      hide FreeSet, PageRange, BitSet;
      EmptyRange(start);
      var i := start;
      while i < end
        invariant Valid() && start <= i && (i <= end || i == start)
        invariant Free() == old(Free()) + PageRange(start, i)
        invariant totalCount - old(totalCount) == freeCount - old(freeCount)
      {
        PageRangeNext(start, i);
        Reclaim(i);
        i := i + 1;
      }
    }

    method Reclaim(i: nat)
      requires Valid() && i < 262144
      modifies this, bitmap
      ensures Valid() && Free() == old(Free()) + {i}
      ensures totalCount - old(totalCount) == freeCount - old(freeCount)
    {
      hide FreeSet, BitSet;
      AddCard(Free(), i);
      var was := ClearBit(i);
      if was {
        freeCount := freeCount + 1;
        totalCount := totalCount + 1;
      }
    }

    /** The lowest free frame's address, or None exactly when nothing is free. */
    method AllocPage() returns (r: Option<nat>)
      requires Valid()
      modifies this`freeCount, bitmap
      ensures Valid()
      ensures r.None? <==> old(Free()) == {}
      ensures r.None? ==> Free() == old(Free())
      ensures r.Some? ==>
        && r.value % PAGE_SIZE == 0 && r.value < 0x4000_0000 && r.value / PAGE_SIZE in old(Free())
        && Free() == old(Free()) - {r.value / PAGE_SIZE}
        && (forall p :: p in old(Free()) ==> r.value / PAGE_SIZE <= p)
    {
      hide FreeSet;
      var k, bit: Option<nat> := 0, None;
      while k < BITMAP_BYTES && bit.None?
        invariant k <= BITMAP_BYTES
        invariant bit.None? ==> forall p :: p in Free() ==> 8 * k <= p
        invariant bit.Some? ==>
          && k < BITMAP_BYTES && bit.value < 8 && !BitSet(bitmap[k], bit.value)
          && forall p :: p in Free() ==> 8 * k + bit.value <= p
        decreases BITMAP_BYTES - k, bit.None?
        modifies {}
      {
        bit := FindClear(k);
        if bit.None? {
          k := k + 1;
        }
      }
      if bit.None? {
        assert k == BITMAP_BYTES && Free() == FreeSet(bitmap[..]);
        NothingFree(bitmap[..]);
        return None;
      }
      r := TakeBit(k, bit.value);
    }

    /** The inner loop: the lowest clear bit of byte k, if any. */
    method FindClear(k: nat) returns (r: Option<nat>)
      requires bitmap.Length == BITMAP_BYTES && k < BITMAP_BYTES
      requires forall p :: p in Free() ==> 8 * k <= p
      ensures r.Some? ==>
        && r.value < 8 && !BitSet(bitmap[k], r.value) && forall p :: p in Free() ==> 8 * k + r.value <= p
      ensures r.None? ==> forall p :: p in Free() ==> 8 * k + 8 <= p
    {
      hide FreeSet;
      assert Free() == FreeSet(bitmap[..]);
      var byte := bitmap[k];
      if byte == 0xFF {
        FullByte(byte);
        SetBitsSkipped(bitmap[..], k, 8);
        return None;
      }
      for bit := 0 to 8
        invariant forall b :: 0 <= b < bit ==> BitSet(byte, b)
      {
        if byte & Mask(bit) == 0 {
          SetBitsSkipped(bitmap[..], k, bit);
          return Some(bit);
        }
      }
      SetBitsSkipped(bitmap[..], k, 8);
      return None;
    }

    method TakeBit(k: nat, bit: nat) returns (r: Option<nat>)
      requires Valid() && k < BITMAP_BYTES && bit < 8 && !BitSet(bitmap[k], bit)
      modifies this`freeCount, bitmap
      ensures Valid() && r == Some((8 * k + bit) * PAGE_SIZE)
      ensures 8 * k + bit in old(Free()) && Free() == old(Free()) - {8 * k + bit}
    {
      hide FreeSet;
      ghost var page := 8 * k + bit;
      assert page / 8 == k && page % 8 == bit;
      InFreeSet(bitmap[..], page);
      FreeSetTake(bitmap[..], page);
      AddCard(Free(), page);
      bitmap[k] := bitmap[k] | Mask(bit);
      assert bitmap[..] == old(bitmap[..])[k := bitmap[k]];
      freeCount := SaturatingSub(freeCount, 1);
      r := Some((k * 8 + bit) * PAGE_SIZE);
    }

    /** Gives a frame back; frees nothing beyond the bitmap and nothing twice. */
    method FreePage(addr: nat)
      requires Valid()
      modifies this`freeCount, bitmap
      ensures Valid()
      ensures Free() == if addr / PAGE_SIZE < MAX_PAGES then old(Free()) + {addr / PAGE_SIZE} else old(Free())
    {
      var page := addr / PAGE_SIZE;
      if page >= MAX_PAGES {
        return;
      }
      AddCard(Free(), page);
      var was := ClearBit(page);
      if was {
        freeCount := freeCount + 1;
      }
    }
  }

  predicate Between(p: nat, lo: nat, hi: nat) { lo <= p < hi }

  ghost function PageRange(lo: nat, hi: nat): set<nat> {
    set p: nat | p < MAX_PAGES && Between(p, lo, hi)
  }

  lemma PageRangeNext(lo: nat, hi: nat)
    requires lo <= hi < MAX_PAGES
    ensures PageRange(lo, hi + 1) == PageRange(lo, hi) + {hi}
  {
    forall p: nat | p < MAX_PAGES ensures Between(p, lo, hi + 1) <==> Between(p, lo, hi) || p == hi {
    }
  }

  lemma EmptyRange(lo: nat)
    ensures PageRange(lo, lo) == {}
  {
  }

  lemma RegionRange(r: Region)
    ensures r.kind.Usable? ==>
      UsablePages([r]) == PageRange(r.base / PAGE_SIZE, r.base / PAGE_SIZE + r.size / PAGE_SIZE)
    ensures !r.kind.Usable? ==> UsablePages([r]) == {}
  {
    UsableOne(r);
  }

  lemma ClippedRange(lo: nat, hi: nat)
    requires MAX_PAGES <= hi
    ensures PageRange(lo, hi) == PageRange(lo, if lo < MAX_PAGES then MAX_PAGES else lo)
  {
    forall p: nat | p < MAX_PAGES
      ensures Between(p, lo, hi) <==> Between(p, lo, if lo < MAX_PAGES then MAX_PAGES else lo)
    {
    }
  }

  lemma UsableOne(r: Region)
    ensures forall p: nat :: p in UsablePages([r]) <==> p < MAX_PAGES && Covers(r, p)
  {
    forall p: nat | p < MAX_PAGES && Covers(r, p) ensures CoveredBy([r], p) {
      assert Covers([r][0], p);
    }
  }

  lemma UsableStep(regions: seq<Region>, k: nat)
    requires k < |regions|
    ensures UsablePages(regions[..k + 1]) == UsablePages(regions[..k]) + UsablePages([regions[k]])
  {
    var a, b := regions[..k], regions[..k + 1];
    UsableOne(regions[k]);
    forall p: nat | p < MAX_PAGES ensures CoveredBy(b, p) <==> CoveredBy(a, p) || Covers(regions[k], p) {
      if CoveredBy(a, p) {
        var j :| 0 <= j < |a| && Covers(a[j], p);
        assert Covers(b[j], p);
      }
      if CoveredBy(b, p) {
        var j :| 0 <= j < |b| && Covers(b[j], p);
        assert j < k ==> Covers(a[j], p);
      }
      if Covers(regions[k], p) {
        assert Covers(b[k], p);
      }
    }
  }

  // ---- runs of the allocator ----

  datatype Event = Alloc(page: nat) | OutOfMemory | Release(page: nat)

  /** The allocator's steps as its methods allow them: `frees[i]` is the free set before event i. */
  ghost predicate Step(free: set<nat>, e: Event, free': set<nat>) {
    match e
    case Alloc(p) => p in free && (forall q :: q in free ==> p <= q) && free' == free - {p}
    case OutOfMemory => free == {} && free' == free
    case Release(p) => free' == if p < MAX_PAGES then free + {p} else free
  }

  ghost predicate Run(frees: seq<set<nat>>, evs: seq<Event>) {
    |frees| == |evs| + 1 && forall i {:trigger evs[i]} :: 0 <= i < |evs| ==> Step(frees[i], evs[i], frees[i + 1])
  }

  /** Once handed out and not released, a frame stays out of the free set. */
  lemma {:induction false} StaysOut(frees: seq<set<nat>>, evs: seq<Event>, p: nat, i: nat, j: nat)
    requires Run(frees, evs) && i <= j < |frees| && p !in frees[i]
    requires forall k :: i <= k < j ==> evs[k] != Release(p)
    ensures p !in frees[j]
    decreases j - i
  {
    if i < j {
      assert Step(frees[i], evs[i], frees[i + 1]);
      StaysOut(frees, evs, p, i + 1, j);
    }
  }

  /** No frame is handed out twice without being released in between. */
  lemma NoDoubleAllocation(frees: seq<set<nat>>, evs: seq<Event>, i: nat, j: nat)
    requires Run(frees, evs) && i < j < |evs|
    requires evs[i].Alloc? && evs[j] == evs[i]
    ensures exists k :: i < k < j && evs[k] == Release(evs[i].page)
  {
    var p := evs[i].page;
    assert Step(frees[i], evs[i], frees[i + 1]) && Step(frees[j], evs[j], frees[j + 1]);
    if forall k :: i < k < j ==> evs[k] != Release(p) {
      StaysOut(frees, evs, p, i + 1, j);
      assert false;
    }
  }

  /** Frames handed out and not given back. */
  ghost function Outstanding(evs: seq<Event>): set<nat> {
    if evs == [] then {}
    else
      var before := Outstanding(evs[..|evs| - 1]);
      match evs[|evs| - 1]
      case Alloc(p) => before + {p}
      case OutOfMemory => before
      case Release(p) => before - {p}
  }

  ghost predicate ReleasesOwned(evs: seq<Event>) {
    forall k :: 0 <= k < |evs| && evs[k].Release? ==> evs[k].page in Outstanding(evs[..k])
  }

  /** If only frames that are out are released, free and outstanding frames always make up
      the initial pool, without overlap. */
  lemma {:induction false} Conservation(frees: seq<set<nat>>, evs: seq<Event>)
    requires Run(frees, evs) && ReleasesOwned(evs)
    requires forall p :: p in frees[0] ==> p < MAX_PAGES
    ensures frees[|evs|] !! Outstanding(evs)
    ensures frees[|evs|] + Outstanding(evs) == frees[0]
    ensures |frees[|evs|]| + |Outstanding(evs)| == |frees[0]|
    decreases |evs|
  {
    if evs == [] {
    } else {
      var n := |evs| - 1;
      var evs', frees' := evs[..n], frees[..n + 1];
      assert forall i :: 0 <= i < n ==> evs'[i] == evs[i];
      assert forall i :: 0 <= i <= n ==> frees'[i] == frees[i];
      forall k | 0 <= k < n && evs'[k].Release? ensures evs'[k].page in Outstanding(evs'[..k]) {
        assert evs'[..k] == evs[..k];
      }
      Conservation(frees', evs');
      assert Step(frees[n], evs[n], frees[n + 1]);
      assert evs[..n] == evs';
    }
  }

  datatype Request = Want | GiveBack(addr: nat)

  lemma RunSnoc(frees: seq<set<nat>>, evs: seq<Event>, e: Event, free: set<nat>)
    requires Run(frees, evs) && Step(frees[|evs|], e, free)
    ensures Run(frees + [free], evs + [e])
  {
    hide Step;
    var evs', frees' := evs + [e], frees + [free];
    forall i | 0 <= i < |evs'| ensures Step(frees'[i], evs'[i], frees'[i + 1]) {
      if i < |evs| {
        assert Step(frees[i], evs[i], frees[i + 1]);
      }
    }
  }

  /** Serves any sequence of requests. What happens is a run in the above sense; if every
      frame was free at first and only frames that are out are given back, the two
      counters account for all frames. */
  method Serve(a: Allocator, reqs: seq<Request>) returns (evs: seq<Event>, ghost frees: seq<set<nat>>)
    requires a.Valid()
    modifies a`freeCount, a.bitmap
    ensures a.Valid() && |evs| == |reqs| && Run(frees, evs) && frees[0] == old(a.Free()) && frees[|evs|] == a.Free()
    ensures forall i :: 0 <= i < |reqs| ==>
      if reqs[i].Want? then !evs[i].Release? else evs[i] == Release(reqs[i].addr / PAGE_SIZE)
    ensures old(a.freeCount) == a.totalCount && ReleasesOwned(evs) ==> a.freeCount + |Outstanding(evs)| == a.totalCount
  {
    hide FreeSet, BitSet;
    evs, frees := [], [a.Free()];
    for i := 0 to |reqs|
      invariant a.Valid() && |evs| == i && Run(frees, evs) && frees[0] == old(a.Free()) && frees[i] == a.Free()
      invariant forall j :: 0 <= j < i ==>
        if reqs[j].Want? then !evs[j].Release? else evs[j] == Release(reqs[j].addr / PAGE_SIZE)
    {
      var e := ServeOne(a, reqs[i]);
      RunSnoc(frees, evs, e, a.Free());
      evs, frees := evs + [e], frees + [a.Free()];
    }
    FreeBelowLimit(frees[0], old(a.bitmap[..]));
    if ReleasesOwned(evs) {
      Conservation(frees, evs);
    }
  }

  lemma FreeBelowLimit(free: set<nat>, bm: seq<bv8>)
    requires |bm| == BITMAP_BYTES && free == FreeSet(bm)
    ensures forall p :: p in free ==> p < MAX_PAGES
  {
  }

  method ServeOne(a: Allocator, r: Request) returns (e: Event)
    requires a.Valid()
    modifies a`freeCount, a.bitmap
    ensures a.Valid() && Step(old(a.Free()), e, a.Free())
    ensures if r.Want? then !e.Release? else e == Release(r.addr / PAGE_SIZE)
  {
    hide FreeSet, BitSet;
    match r {
      case Want =>
        var p := a.AllocPage();
        e := if p.Some? then Alloc(p.value / PAGE_SIZE) else OutOfMemory;
      case GiveBack(addr) =>
        a.FreePage(addr);
        e := Release(addr / PAGE_SIZE);
    }
  }
}
