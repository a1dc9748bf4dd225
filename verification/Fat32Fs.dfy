/** The mounted volume: cluster transfers, FAT links and cluster allocation. */
module Fat32 {
  import opened Bytes
  import opened FatLayout
  import opened FatFormat
  import opened FatChains
  import opened BlockDevice

  datatype Alloc = Allocated(cluster: nat) | DiskFull | IoError

  /** Copy `fat` with the entry of c set to the 28-bit `value`. */
  function EntrySet(fat: seq<nat>, c: nat, value: nat): seq<nat>
    requires c < |fat|
  {
    fat[c := SetLow(fat[c], value)]
  }

  /** Each FAT copy has the new link of c or still the old one; nothing else moved. */
  ghost predicate EntryStages(v: View, v': View, c: nat, value: nat) {
    && |v'.fat| == |v.fat| && v'.data == v.data && v'.boot == v.boot
    && (forall f :: 0 <= f < |v.fat| ==>
          && c < |v.fat[f]|
          && (v'.fat[f] == v.fat[f] || v'.fat[f] == EntrySet(v.fat[f], c, value)))
  }

  ghost predicate EntryDone(v: View, v': View, c: nat, value: nat) {
    && |v'.fat| == |v.fat| && v'.data == v.data && v'.boot == v.boot
    && (forall f :: 0 <= f < |v.fat| ==> c < |v.fat[f]| && v'.fat[f] == EntrySet(v.fat[f], c, value))
  }

  /** A state an allocation of c behind `prev` can be cut off in. */
  ghost predicate AllocReach(v: View, v': View, prev: Option<nat>, c: nat) {
    && |v.fat| > 0 && IsFree(v.fat[0], c)
    && |v'.fat| == |v.fat| && v'.boot == v.boot
    && |v'.data| == |v.data| && c < |v.data| && v'.data == v.data[c := v'.data[c]]
    && (forall f :: 0 <= f < |v.fat| ==>
          && c < |v.fat[f]| && (prev.Some? ==> prev.value < |v.fat[f]|)
          && AllocStage(v.fat[f], v'.fat[f], prev, c))
  }

  /** The state after a completed allocation: linked in every copy and zeroed. */
  ghost predicate AllocDone(v: View, v': View, prev: Option<nat>, c: nat, cb: nat) {
    && |v.fat| > 0 && IsFree(v.fat[0], c)
    && |v'.fat| == |v.fat| && v'.boot == v.boot
    && c < |v.data| && v'.data == v.data[c := Zeros(cb)]
    && (forall f :: 0 <= f < |v.fat| ==>
          && c < |v.fat[f]| && (prev.Some? ==> prev.value < |v.fat[f]|)
          && v'.fat[f] == if prev.Some? then LinkedAfter(v.fat[f], prev.value, c) else Marked(v.fat[f], c))
  }

  /** The leading k sectors of `buf` replaced those of d. */
  ghost predicate TornAt(d: seq<byte>, buf: seq<byte>, d': seq<byte>, k: nat) {
    k * 512 <= |buf| <= |d| && d' == Overwrite(d, 0, buf[..k * 512])
  }

  /** A write of `buf` over d was cut off after some sector. */
  ghost predicate Torn(d: seq<byte>, buf: seq<byte>, d': seq<byte>) {
    exists k: nat :: TornAt(d, buf, d', k)
  }

  lemma NotTorn(d: seq<byte>, buf: seq<byte>)
    requires |buf| <= |d|
    ensures Torn(d, buf, d)
  {
    OverwriteNothing(d, 0, buf);
    assert TornAt(d, buf, d, 0);
  }

  /** c is the free cluster an allocation takes. */
  ghost predicate LowestFree(fat: seq<nat>, c: nat) {
    IsFree(fat, c) && forall x :: 0 <= x < c ==> !IsFree(fat, x)
  }

  /** The state after a device failure during an allocation of c behind `prev`. */
  ghost predicate AllocCut(v: View, v': View, prev: Option<nat>, c: nat, cb: nat) {
    && AllocReach(v, v', prev, c) && LowestFree(v.fat[0], c) && Torn(v.data[c], Zeros(cb), v'.data[c])
  }

  ghost function FreeCount(v: View): nat { if |v.fat| > 0 then |FreeClusters(v.fat[0])| else 0 }

  class Fat32Fs {
    const disk: Disk
    const bpb: Bpb
    const fatStart: nat
    const dataStart: nat
    ghost var view: View

    ghost predicate Valid()
      reads this`view, disk`bytes
    {
      && fatStart == bpb.reservedSectors
      && dataStart == DataStart(bpb)
      && WfVolume(bpb, |disk.bytes|)
      && Linked(bpb, disk.bytes, view)
    }

    lemma Shaped()
      requires Valid()
      ensures Shape(bpb, view) && bpb.numFats >= 1 && Entries(bpb) <= EOC_MIN
    {
    }

    constructor (d: Disk, b: Bpb)
      ensures disk == d && bpb == b
      ensures fatStart == b.reservedSectors && dataStart == DataStart(b)
      ensures WfVolume(b, |d.bytes|) ==> Valid()
    {
      disk := d;
      bpb := b;
      fatStart := b.reservedSectors;
      dataStart := b.reservedSectors + b.numFats * b.fatSectors;
      new;
      if WfVolume(b, |d.bytes|) {
        view := ViewOf(b, d.bytes);
      }
    }

    /** Mounts the volume on `d`: with the layout its boot sector describes, and refused
        exactly if it describes none. */
    static method Mount(d: Disk) returns (fs: Option<Fat32Fs>)
      requires |d.bytes| >= 512
      modifies d`faulted
      ensures fs.Some? ==>
        && fresh(fs.value) && fs.value.disk == d && Describes(d.bytes[..512], fs.value.bpb)
        && (WfVolume(fs.value.bpb, |d.bytes|) ==> fs.value.Valid())
      ensures fs.None? ==> d.faulted || forall b :: !Describes(d.bytes[..512], b)
      ensures fs.Some? ==> d.faulted == old(d.faulted)
    {
      var sec := d.ReadSectors(0, 1);
      if sec.None? {
        return None;
      }
      assert sec.value == d.bytes[..512];
      var bpb := ParseBpb(sec.value);
      forall b ensures ParseBpb(sec.value) == Some(b) <==> Describes(sec.value, b) {
        ParsedDescribes(sec.value, b);
      }
      if bpb.None? {
        return None;
      }
      var m := new Fat32Fs(d, bpb.value);
      fs := Some(m);
    }

    /** A disk that holds the image of a volume, as laid out by a formatting program, is
        mounted with that layout and seen to hold those contents. */
    static method MountImage(d: Disk, ghost b: Bpb, ghost v: View, ghost tail: seq<byte>) returns (fs: Option<Fat32Fs>)
      requires Storable(b, v) && |tail| % 512 == 0 && d.bytes == VolumeImage(v, tail)
      requires FitsBoot(b) && |v.boot| >= 512 && exists t :: |t| == 512 && v.boot[..512] == BootSector(t, b)
      modifies d`faulted
      ensures fs.Some? ==>
        && fresh(fs.value) && fs.value.disk == d && fs.value.bpb == b && fs.value.Valid()
        && fs.value.view.fat == v.fat && fs.value.view.data[2..] == v.data[2..]
      ensures fs.None? ==> d.faulted
    {
      hide Storable, VolumeImage, Describes, Linked, WfVolume, BootSector, FitsBoot;
      ImageLinked(b, v, tail);
      ImageBoot(b, v, tail);
      fs := Mount(d);
      forall b' ensures Describes(d.bytes[..512], b') <==> b' == b {
        ParsedDescribes(d.bytes[..512], b);
        ParsedDescribes(d.bytes[..512], b');
      }
      if fs.Some? {
        OneView(b, d.bytes, v, fs.value.view);
      }
    }

    /** No cluster is free. */
    ghost predicate Full()
      reads this`view
    {
      |view.fat| > 0 && forall c :: 0 <= c < |view.fat[0]| ==> !IsFree(view.fat[0], c)
    }

    /** How many clusters are free. */
    ghost function Room(): nat
      reads this`view
    {
      FreeCount(view)
    }

    lemma FullRoom()
      requires Full()
      ensures Room() == 0
    {
      assert FreeClusters(view.fat[0]) == {};
    }

    function ClusterSize(): nat {
      bpb.sectorsPerCluster * 512
    }

    method ReadCluster(cluster: nat) returns (r: Option<seq<byte>>)
      requires Valid() && IsCluster(bpb, cluster)
      modifies disk`faulted
      ensures r.Some? ==> r.value == view.data[cluster] && disk.faulted == old(disk.faulted)
      ensures r.Some? ==> |r.value| == ClusterBytes(bpb) && |r.value| % 32 == 0
      ensures r.None? ==> disk.faulted
    {
      var first := dataStart + (cluster - 2) * bpb.sectorsPerCluster;
      ClusterInBounds(bpb, |disk.bytes|, cluster);
      assert view.data[cluster] == ClusterData(bpb, disk.bytes, cluster);
      var rem, sec := bpb.sectorsPerCluster, first;
      var buf: seq<byte> := [];
      while rem > 0
        invariant 0 <= rem <= bpb.sectorsPerCluster
        invariant sec == first + (bpb.sectorsPerCluster - rem)
        invariant buf == disk.bytes[first * 512..sec * 512]
        invariant disk.faulted == old(disk.faulted)
      {
        var cnt := if rem < 8 then rem else 8;
        var chunk := disk.ReadSectors(sec, cnt);
        if chunk.None? {
          return None;
        }
        buf := buf + chunk.value;
        sec := sec + cnt;
        rem := rem - cnt;
      }
      WholeSlots(bpb);
      return Some(buf);
    }

    /** One transfer of such a run: the next `cnt` sectors of `buf`, which starts at `first`. */
    method StoreChunk(sec: nat, cnt: nat, buf: seq<byte>, off: nat, ghost first: nat, ghost before: seq<byte>)
      returns (ok: bool, ghost done: nat)
      requires first * 512 + |buf| <= |before| && off + cnt * 512 <= |buf|
      requires sec * 512 == first * 512 + off && cnt <= 8
      requires disk.bytes == Overwrite(before, first * 512, buf[..off])
      modifies disk
      ensures done <= cnt && disk.bytes == Overwrite(before, first * 512, buf[..off + done * 512])
      ensures ok ==> done == cnt && disk.faulted == old(disk.faulted)
      ensures !ok ==> disk.faulted
    {
      ok, done := disk.WriteSectors(sec, cnt, buf[off..]);
      OverwriteNext(before, first * 512, buf, off, done * 512);
    }

    /** Stores `buf` from sector `first` on, at most eight sectors per transfer. */
    method StoreRun(first: nat, count: nat, buf: seq<byte>) returns (ok: bool, ghost done: nat)
      requires (first + count) * 512 <= |disk.bytes| && |buf| == count * 512
      modifies disk
      ensures done <= count
      ensures disk.bytes == Overwrite(old(disk.bytes), first * 512, buf[..done * 512])
      ensures ok ==> done == count && disk.faulted == old(disk.faulted)
      ensures !ok ==> disk.faulted
    {
      hide *;
      ghost var before := disk.bytes;
      OverwriteNothing(before, first * 512, buf);
      var rem, sec, off := count, first, 0;
      while rem > 0
        invariant 0 <= rem && first <= sec && sec + rem == first + count
        invariant off == (sec - first) * 512
        invariant disk.bytes == Overwrite(before, first * 512, buf[..off])
        invariant disk.faulted == old(disk.faulted)
      {
        var cnt := if rem < 8 then rem else 8;
        ok, done := StoreChunk(sec, cnt, buf, off, first, before);
        done := sec - first + done;
        if !ok {
          return;
        }
        sec := sec + cnt;
        off := off + cnt * 512;
        rem := rem - cnt;
      }
      return true, count;
    }

    method WriteCluster(cluster: nat, buf: seq<byte>) returns (ok: bool)
      requires Valid() && IsCluster(bpb, cluster) && |buf| == ClusterBytes(bpb)
      modifies disk, this`view
      ensures Valid()
      ensures view == WithCluster(old(view), cluster, view.data[cluster])
      ensures |view.data[cluster]| == |old(view).data[cluster]| == |buf|
      ensures forall i :: 0 <= i < |buf| ==> view.data[cluster][i] in {old(view).data[cluster][i], buf[i]}
      ensures Torn(old(view).data[cluster], buf, view.data[cluster])
      ensures ok ==> view.data[cluster] == buf && disk.faulted == old(disk.faulted)
      ensures !ok ==> disk.faulted
    {
      var first := dataStart + (cluster - 2) * bpb.sectorsPerCluster;
      ClusterInBounds(bpb, |disk.bytes|, cluster);
      ghost var disk0, done := disk.bytes, 0;
      ok, done := StoreRun(first, bpb.sectorsPerCluster, buf);
      ghost var stored := buf[..done * 512];
      LinkedClusterWrite(bpb, disk0, view, cluster, stored);
      view := WithCluster(view, cluster, Overwrite(view.data[cluster], 0, stored));
      assert TornAt(old(view).data[cluster], buf, view.data[cluster], done);
    }

    /** The link of `cluster`, read from the first FAT copy. */
    method NextCluster(cluster: nat) returns (r: Option<nat>)
      requires Valid() && cluster < Entries(bpb)
      modifies disk`faulted
      ensures r.Some? ==> r.value == Next(view.fat[0], cluster) && disk.faulted == old(disk.faulted)
      ensures r.None? ==> disk.faulted
    {
      var ob := cluster * 4;
      var sec, pos := fatStart + ob / 512, ob % 512;
      EntryInSector(bpb, disk.bytes, view, 0, cluster);
      var buf := disk.ReadSectors(sec, 1);
      if buf.None? {
        return None;
      }
      return Some(Field(buf.value, pos, 4) % LOW28);
    }

    /** The same, along a chain: the next cluster or an end-of-chain mark. */
    method NextInChain(cluster: nat, ghost cs: seq<nat>, ghost j: nat) returns (r: Option<nat>)
      requires Valid() && IsChain(view.fat[0], cs) && j < |cs| && cluster == cs[j]
      modifies disk`faulted
      ensures r.Some? ==> disk.faulted == old(disk.faulted)
      ensures r.Some? ==> if j + 1 < |cs| then r.value == cs[j + 1] else r.value >= EOC_MIN
      ensures r.None? ==> disk.faulted
    {
      r := NextCluster(cluster);
    }

    method SetFatEntry(cluster: nat, value: nat) returns (ok: bool)
      requires Valid() && cluster < Entries(bpb)
      modifies disk, this`view
      ensures Valid()
      ensures EntryStages(old(view), view, cluster, value)
      ensures ok ==> EntryDone(old(view), view, cluster, value) && disk.faulted == old(disk.faulted)
      ensures !ok ==> disk.faulted
    {
      for f := 0 to bpb.numFats
        invariant Valid()
        invariant view.data == old(view).data && view.boot == old(view).boot
        invariant forall g :: 0 <= g < f ==> view.fat[g] == EntrySet(old(view).fat[g], cluster, value)
        invariant forall g :: f <= g < bpb.numFats ==> view.fat[g] == old(view).fat[g]
        invariant disk.faulted == old(disk.faulted)
      {
        ok := SetOneCopy(f, cluster, value);
        if !ok {
          return;
        }
      }
      ok := true;
    }

    /** One iteration of the loop over FAT copies: read, replace four bytes, write back. */
    method SetOneCopy(f: nat, cluster: nat, value: nat) returns (ok: bool)
      requires Valid() && cluster < Entries(bpb) && f < bpb.numFats
      modifies disk, this`view
      ensures Valid()
      ensures view == old(view) || view == WithEntry(old(view), f, cluster, SetLow(old(view).fat[f][cluster], value))
      ensures ok ==>
        && view == WithEntry(old(view), f, cluster, SetLow(old(view).fat[f][cluster], value))
        && disk.faulted == old(disk.faulted)
      ensures !ok ==> disk.faulted
    {
      hide Overwrite, PutField, LeEncode, LeDecode, Linked, Field;
      Shaped();
      var ob := cluster * 4;
      var sec, pos := fatStart + f * bpb.fatSectors + ob / 512, ob % 512;
      EntryInSector(bpb, disk.bytes, view, f, cluster);
      var buf := disk.ReadSectors(sec, 1);
      if buf.None? {
        return false;
      }
      var entry := SetLow(Field(buf.value, pos, 4), value);
      var sector := PutField(buf.value, pos, entry, 4);
      ghost var disk0, done := disk.bytes, 0;
      ok, done := disk.WriteSectors(sec, 1, sector);
      EntryRmw(bpb, disk0, view, f, cluster, entry, sector);
      OneSector(disk0, sec * 512, sector, done);
      view := if done == 1 then WithEntry(view, f, cluster, entry) else view;
    }

    /** First free entry among the 128 of sector `si` of the first FAT copy. */
    method ScanSector(si: nat, buf: seq<byte>) returns (r: Option<nat>)
      requires Valid() && si < bpb.fatSectors && (fatStart + si + 1) * 512 <= |disk.bytes|
      requires buf == disk.bytes[(fatStart + si) * 512..(fatStart + si + 1) * 512]
      ensures r.Some? ==>
        && r.value < Entries(bpb) && IsFree(view.fat[0], r.value)
        && forall c :: si * 128 <= c < r.value ==> !IsFree(view.fat[0], c)
      ensures r.None? ==> forall c :: si * 128 <= c < si * 128 + 128 ==> !IsFree(view.fat[0], c)
    {
      hide LeDecode;
      for i := 0 to 128
        invariant forall c :: si * 128 <= c < si * 128 + i ==> !IsFree(view.fat[0], c)
      {
        var cluster := si * 128 + i;
        if cluster >= 2 {
          EntryOfSector(bpb, disk.bytes, view, si, i);
          if Field(buf, i * 4, 4) % LOW28 == 0 {
            return Some(cluster);
          }
        }
      }
      return None;
    }

    /** First free cluster of the first FAT copy, sector by sector. */
    method FindFree() returns (r: Alloc)
      requires Valid()
      modifies disk`faulted
      ensures r.Allocated? ==>
        && IsFree(view.fat[0], r.cluster) && disk.faulted == old(disk.faulted)
        && forall c :: 0 <= c < r.cluster ==> !IsFree(view.fat[0], c)
      ensures r.DiskFull? ==> Full()
      ensures r.DiskFull? ==> disk.faulted == old(disk.faulted)
      ensures r.IoError? ==> disk.faulted
    {
      FatInBounds(bpb, |disk.bytes|, 0);
      for si := 0 to bpb.fatSectors
        invariant forall c :: 0 <= c < si * 128 ==> !IsFree(view.fat[0], c)
        invariant disk.faulted == old(disk.faulted)
      {
        var buf := disk.ReadSectors(fatStart + si, 1);
        if buf.None? {
          return IoError;
        }
        var c := ScanSector(si, buf.value);
        if c.Some? {
          return Allocated(c.value);
        }
      }
      return DiskFull;
    }

    /** Allocates the lowest free cluster: mark end-of-chain in every copy, then link
        it behind `prev`, then zero it. */
    method AllocCluster(prev: Option<nat>) returns (r: Alloc)
      requires Valid()
      requires prev.Some? ==> IsCluster(bpb, prev.value) && !IsFree(view.fat[0], prev.value)
      modifies disk, this`view
      ensures Valid()
      ensures r.Allocated? ==>
        && IsCluster(bpb, r.cluster) && disk.faulted == old(disk.faulted)
        && AllocDone(old(view), view, prev, r.cluster, ClusterBytes(bpb))
        && Room() + 1 == old(Room())
        && forall c :: 0 <= c < r.cluster ==> !IsFree(old(view).fat[0], c)
      ensures r.DiskFull? ==> view == old(view) && Full() && disk.faulted == old(disk.faulted)
      ensures r.IoError? ==>
        && disk.faulted
        && (view == old(view) || exists c :: IsCluster(bpb, c) && AllocCut(old(view), view, prev, c, ClusterBytes(bpb)))
    {
      var found := FindFree();
      if !found.Allocated? {
        return found;
      }
      var c := found.cluster;
      NotTorn(view.data[c], Zeros(ClusterSize()));
      var ok := SetFatEntry(c, EOC);
      if !ok {
        assert AllocCut(old(view), view, prev, c, ClusterBytes(bpb));
        return IoError;
      }
      ghost var marked := view;
      if prev.Some? {
        ok := SetFatEntry(prev.value, c);
        assert AllocReach(old(view), view, prev, c) by {
          forall f | 0 <= f < |old(view).fat| ensures AllocStage(old(view).fat[f], view.fat[f], prev, c) {
            assert marked.fat[f] == Marked(old(view).fat[f], c);
          }
        }
        if !ok {
          assert AllocCut(old(view), view, prev, c, ClusterBytes(bpb));
          return IoError;
        }
      }
      ok := WriteCluster(c, Zeros(ClusterSize()));
      if !ok {
        assert AllocCut(old(view), view, prev, c, ClusterBytes(bpb));
        return IoError;
      }
      FreeTaken(old(view).fat[0], view.fat[0], prev, c);
      return Allocated(c);
    }

    /** The first `max` bytes of the chain that starts at `first`, or all of them if there
        are fewer, cluster by cluster. */
    method ReadChainInto(first: nat, max: nat, ghost cs: seq<nat>) returns (out: Option<seq<byte>>)
      requires Valid()
      requires first < 2 ==> cs == []
      requires first >= 2 ==> IsChain(view.fat[0], cs) && cs[0] == first
      modifies disk`faulted
      ensures out.Some? ==>
        && |ChainBytes(view.data, cs)| == |cs| * ClusterBytes(bpb)
        && out.value == ChainBytes(view.data, cs)[..Min(max, |ChainBytes(view.data, cs)|)]
        && disk.faulted == old(disk.faulted)
      ensures out.None? ==> disk.faulted
    {
      var cb := ClusterSize();
      ghost var s := ChainBytes(view.data, cs);
      ChainBytesLength(view.data, cs, cb);
      var data: seq<byte> := [];
      if first < 2 {
        return Some(data);
      }
      var cluster := first;
      ghost var i, end := 0, Min(max, |s|);
      while cluster >= 2 && cluster < EOC_MIN && |data| < max
        invariant 0 <= i <= |cs| && i * cb <= |s|
        invariant if i < |cs| then cluster == cs[i] else cluster >= EOC_MIN
        invariant data == s[..Min(i * cb, end)]
        invariant disk.faulted == old(disk.faulted)
        decreases max - |data|
      {
        MulStep(i, |cs|, cb);
        ReadStep(view.data, cs, cb, i, end);
        var take := Min(cb, max - |data|);
        var buf := ReadCluster(cluster);
        if buf.None? {
          return None;
        }
        data := data + buf.value[..take];
        var next := NextInChain(cluster, cs, i);
        if next.None? {
          return None;
        }
        cluster := next.value;
        i := i + 1;
      }
      return Some(data);
    }
  }
}
