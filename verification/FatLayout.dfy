/** On-disk layout of a FAT32 volume and its abstract view: one entry table per
    FAT copy and one byte string per data cluster. */
module FatLayout {
  import opened Bytes

  const SECTOR: nat := 512
  const EOC_MIN: nat := 0x0FFF_FFF8
  const EOC: nat := 0x0FFF_FFFF
  const LOW28: nat := 0x1000_0000

  datatype Bpb = Bpb(
    bytesPerSector: nat,
    sectorsPerCluster: nat,
    reservedSectors: nat,
    numFats: nat,
    fatSectors: nat,
    rootCluster: nat)

  predicate IsPowerOfTwoByte(n: nat) {
    n in {1, 2, 4, 8, 16, 32, 64, 128}
  }

  /** What the boot sector must satisfy to be accepted. */
  predicate BootAccepted(s: seq<byte>)
    requires |s| == SECTOR
  {
    && s[510] == 0x55 && s[511] == 0xAA
    && Field(s, 0x16, 2) == 0
    && Field(s, 0x0B, 2) == 512
    && IsPowerOfTwoByte(s[0x0D])
  }

  function ParseBpb(s: seq<byte>): (r: Option<Bpb>)
    requires |s| == SECTOR
    ensures r.Some? <==> BootAccepted(s)
    ensures r.Some? ==> 1 <= r.value.sectorsPerCluster <= 128 && r.value.bytesPerSector == SECTOR
  {
    if s[510] != 0x55 || s[511] != 0xAA then None
    else if Field(s, 0x16, 2) != 0 then None
    else if Field(s, 0x0B, 2) != 512 then None
    else if s[0x0D] == 0 || !IsPowerOfTwoByte(s[0x0D]) then None
    else Some(Bpb(Field(s, 0x0B, 2), s[0x0D], Field(s, 0x0E, 2), s[0x10],
                  Field(s, 0x24, 4), Field(s, 0x2C, 4)))
  }

  // ---- regions ----

  function ClusterBytes(b: Bpb): nat { b.sectorsPerCluster * 512 }

  /** Number of clusters one FAT copy can name (its first two entries are reserved). */
  function Entries(b: Bpb): nat { b.fatSectors * 128 }

  function DataStart(b: Bpb): nat { b.reservedSectors + b.numFats * b.fatSectors }

  function FatOff(b: Bpb, f: nat): nat { (b.reservedSectors + f * b.fatSectors) * 512 }

  function EntryOff(b: Bpb, f: nat, c: nat): nat { FatOff(b, f) + 4 * c }

  function ClusterSector(b: Bpb, c: nat): nat
    requires c >= 2
  {
    DataStart(b) + (c - 2) * b.sectorsPerCluster
  }

  function ClusterOff(b: Bpb, c: nat): nat
    requires c >= 2
  {
    ClusterSector(b, c) * 512
  }

  /** What the driver assumes of a volume of `len` bytes. */
  ghost predicate WfVolume(b: Bpb, len: nat) {
    && b.sectorsPerCluster >= 1
    && b.numFats >= 1
    && b.fatSectors >= 1
    && Entries(b) < 0x0FFF_FFF7
    && (DataStart(b) + (Entries(b) - 2) * b.sectorsPerCluster) * 512 <= len
    && len % 512 == 0
  }

  predicate IsCluster(b: Bpb, c: nat) { 2 <= c < Entries(b) }

  /** Byte offset of block i when blocks are k bytes long. */
  function BlockOff(i: nat, k: nat): nat { i * k }

  lemma NextBlock(i: nat, k: nat)
    ensures BlockOff(i + 1, k) == BlockOff(i, k) + k
  {
  }

  lemma MulMono(x: nat, y: nat, k: nat)
    requires x <= y
    ensures x * k <= y * k
  {
  }

  lemma MulStep(x: nat, y: nat, k: nat)
    requires x < y
    ensures x * k + k <= y * k
  {
    MulMono(x + 1, y, k);
  }

  lemma DivMod(x: nat, k: nat)
    requires k > 0
    ensures x / k >= 0 && x / k * k + x % k == x && 0 <= x % k < k
  {
  }

  lemma WholeSlots(b: Bpb)
    ensures ClusterBytes(b) % 32 == 0
  {
    assert ClusterBytes(b) == 32 * (16 * b.sectorsPerCluster);
  }

  lemma FatInBounds(b: Bpb, len: nat, f: nat)
    requires WfVolume(b, len) && f < b.numFats
    ensures FatOff(b, f) + b.fatSectors * 512 <= DataStart(b) * 512 <= len
    ensures b.reservedSectors * 512 <= FatOff(b, f)
  {
    var at, all, data := f * b.fatSectors, b.numFats * b.fatSectors, (Entries(b) - 2) * b.sectorsPerCluster;
    MulStep(f, b.numFats, b.fatSectors);
    MulMono(0, Entries(b) - 2, b.sectorsPerCluster);
    assert FatOff(b, f) == (b.reservedSectors + at) * 512 && DataStart(b) == b.reservedSectors + all;
    assert (DataStart(b) + data) * 512 <= len && 0 <= data;
  }

  lemma ClusterInBounds(b: Bpb, len: nat, c: nat)
    requires WfVolume(b, len) && IsCluster(b, c)
    ensures DataStart(b) * 512 <= ClusterOff(b, c)
    ensures ClusterOff(b, c) + ClusterBytes(b) <= len
  {
    MulStep(c - 2, Entries(b) - 2, b.sectorsPerCluster);
  }

  /** Different clusters occupy disjoint byte ranges. */
  lemma ClustersApart(b: Bpb, c: nat, d: nat)
    requires 2 <= c && 2 <= d && c != d
    ensures ClusterOff(b, c) + ClusterBytes(b) <= ClusterOff(b, d)
         || ClusterOff(b, d) + ClusterBytes(b) <= ClusterOff(b, c)
  {
    if c < d {
      MulStep(c - 2, d - 2, b.sectorsPerCluster);
    } else {
      MulStep(d - 2, c - 2, b.sectorsPerCluster);
    }
  }

  /** Different FAT copies occupy disjoint byte ranges. */
  lemma FatCopiesApart(b: Bpb, f: nat, g: nat)
    requires f != g
    ensures FatOff(b, f) + b.fatSectors * 512 <= FatOff(b, g)
         || FatOff(b, g) + b.fatSectors * 512 <= FatOff(b, f)
  {
    if f < g {
      MulStep(f, g, b.fatSectors);
    } else {
      MulStep(g, f, b.fatSectors);
    }
  }

  // ---- the abstract view ----

  /** `fat[f][c]` is the raw 32-bit entry of cluster c in copy f; `data[c]` the
      contents of cluster c; `boot` the reserved area in front of the first FAT. */
  datatype View = View(fat: seq<seq<nat>>, data: seq<seq<byte>>, boot: seq<byte>)

  function Raw(b: Bpb, disk: seq<byte>, f: nat, c: nat): nat
    requires EntryOff(b, f, c) + 4 <= |disk|
  {
    Field(disk, EntryOff(b, f, c), 4)
  }

  function ClusterData(b: Bpb, disk: seq<byte>, c: nat): seq<byte>
    requires c >= 2 && ClusterOff(b, c) + ClusterBytes(b) <= |disk|
  {
    disk[ClusterOff(b, c)..ClusterOff(b, c) + ClusterBytes(b)]
  }

  ghost predicate Shape(b: Bpb, v: View) {
    && |v.fat| == b.numFats
    && |v.data| == Entries(b)
    && (forall f {:trigger v.fat[f]} :: 0 <= f < b.numFats ==> |v.fat[f]| == Entries(b))
    && (forall c {:trigger v.data[c]} :: 2 <= c < Entries(b) ==> |v.data[c]| == ClusterBytes(b))
  }

  /** The view agrees with the bytes of the disk. */
  ghost predicate Linked(b: Bpb, disk: seq<byte>, v: View)
    requires WfVolume(b, |disk|)
  {
    && Shape(b, v)
    && b.reservedSectors * 512 <= |disk| && v.boot == disk[..b.reservedSectors * 512]
    && (forall f, c {:trigger Raw(b, disk, f, c)} :: 0 <= f < b.numFats && 0 <= c < Entries(b) ==>
          EntryOff(b, f, c) + 4 <= |disk| && v.fat[f][c] == Raw(b, disk, f, c))
    && (forall c {:trigger ClusterData(b, disk, c)} :: 2 <= c < Entries(b) ==>
          ClusterOff(b, c) + ClusterBytes(b) <= |disk| && v.data[c] == ClusterData(b, disk, c))
  }

  ghost function FatRow(b: Bpb, disk: seq<byte>, f: nat): (r: seq<nat>)
    requires WfVolume(b, |disk|) && f < b.numFats
    ensures |r| == Entries(b) && FatOff(b, f) + 4 * Entries(b) <= |disk|
    ensures forall c :: 0 <= c < Entries(b) ==> r[c] == Raw(b, disk, f, c)
  {
    FatInBounds(b, |disk|, f);
    seq(Entries(b), c requires 0 <= c < Entries(b) => Raw(b, disk, f, c))
  }

  ghost function DataRow(b: Bpb, disk: seq<byte>): (r: seq<seq<byte>>)
    requires WfVolume(b, |disk|)
    ensures |r| == Entries(b)
    ensures forall c :: 2 <= c < Entries(b) ==>
      ClusterOff(b, c) + ClusterBytes(b) <= |disk| && r[c] == ClusterData(b, disk, c)
  {
    assert forall c | 2 <= c < Entries(b) :: ClusterOff(b, c) + ClusterBytes(b) <= |disk| by {
      forall c | 2 <= c < Entries(b) ensures ClusterOff(b, c) + ClusterBytes(b) <= |disk| {
        ClusterInBounds(b, |disk|, c);
      }
    }
    seq(Entries(b), c requires 0 <= c < Entries(b) => if c < 2 then [] else ClusterData(b, disk, c))
  }

  /** Every well-formed disk has a view. */
  ghost function ViewOf(b: Bpb, disk: seq<byte>): (v: View)
    requires WfVolume(b, |disk|)
    ensures Linked(b, disk, v)
  {
    FatInBounds(b, |disk|, 0);
    var v := View(
      seq(b.numFats, f requires 0 <= f < b.numFats => FatRow(b, disk, f)),
      DataRow(b, disk),
      disk[..b.reservedSectors * 512]);
    assert forall f, c | 0 <= f < b.numFats && 0 <= c < Entries(b) ::
      EntryOff(b, f, c) + 4 <= |disk| && v.fat[f][c] == Raw(b, disk, f, c) by {
      forall f, c | 0 <= f < b.numFats && 0 <= c < Entries(b)
        ensures EntryOff(b, f, c) + 4 <= |disk| && v.fat[f][c] == Raw(b, disk, f, c)
      {
        assert v.fat[f] == FatRow(b, disk, f);
      }
    }
    v
  }

  function WithCluster(v: View, c: nat, d: seq<byte>): View
    requires c < |v.data|
  {
    v.(data := v.data[c := d])
  }

  function WithEntry(v: View, f: nat, c: nat, e: nat): View
    requires f < |v.fat| && c < |v.fat[f]|
  {
    var row: seq<nat> := v.fat[f][c := e];
    v.(fat := v.fat[f := row])
  }

  /** Storing bytes at the start of cluster c changes only that cluster of the view. */
  lemma LinkedClusterWrite(b: Bpb, disk: seq<byte>, v: View, c: nat, d: seq<byte>)
    requires WfVolume(b, |disk|) && Linked(b, disk, v) && IsCluster(b, c)
    requires |d| <= ClusterBytes(b)
    ensures |v.data[c]| == ClusterBytes(b)
    ensures ClusterOff(b, c) + |d| <= |disk|
    ensures Linked(b, Overwrite(disk, ClusterOff(b, c), d), WithCluster(v, c, Overwrite(v.data[c], 0, d)))
  {
    var len := |disk|;
    ClusterInBounds(b, len, c);
    var off := ClusterOff(b, c);
    var disk' := Overwrite(disk, off, d);
    var v' := WithCluster(v, c, Overwrite(v.data[c], 0, d));
    FatInBounds(b, len, 0);
    OverwriteOutside(disk, off, d, 0, b.reservedSectors * 512);
    forall f, x | 0 <= f < b.numFats && 0 <= x < Entries(b)
      ensures EntryOff(b, f, x) + 4 <= |disk'| && v'.fat[f][x] == Raw(b, disk', f, x)
    {
      FatInBounds(b, len, f);
      OverwriteOutside(disk, off, d, EntryOff(b, f, x), EntryOff(b, f, x) + 4);
      assert v.fat[f][x] == Raw(b, disk, f, x);
    }
    forall x | 2 <= x < Entries(b)
      ensures ClusterOff(b, x) + ClusterBytes(b) <= |disk'| && v'.data[x] == ClusterData(b, disk', x)
    {
      ClusterInBounds(b, len, x);
      assert v.data[x] == ClusterData(b, disk, x);
      if x == c {
        OverwriteWindow(disk, off, d, off, off + ClusterBytes(b));
      } else {
        ClustersApart(b, c, x);
        OverwriteOutside(disk, off, d, ClusterOff(b, x), ClusterOff(b, x) + ClusterBytes(b));
      }
    }
  }

  /** Storing one 32-bit entry changes only that entry of that copy. */
  lemma LinkedEntryWrite(b: Bpb, disk: seq<byte>, v: View, f: nat, c: nat, e: nat)
    requires WfVolume(b, |disk|) && Linked(b, disk, v)
    requires f < b.numFats && c < Entries(b) && e < 0x1_0000_0000
    ensures EntryOff(b, f, c) + 4 <= |disk|
    ensures Linked(b, PutField(disk, EntryOff(b, f, c), e, 4), WithEntry(v, f, c, e))
  {
    var len := |disk|;
    FatInBounds(b, len, f);
    var off := EntryOff(b, f, c);
    var disk' := PutField(disk, off, e, 4);
    var v' := WithEntry(v, f, c, e);
    Pow256Values();
    OverwriteOutside(disk, off, LeEncode(e, 4), 0, b.reservedSectors * 512);
    forall g, x | 0 <= g < b.numFats && 0 <= x < Entries(b)
      ensures EntryOff(b, g, x) + 4 <= |disk'| && v'.fat[g][x] == Raw(b, disk', g, x)
    {
      FatInBounds(b, len, g);
      assert v.fat[g][x] == Raw(b, disk, g, x);
      if g == f && x == c {
        FieldOfPut(disk, off, e, 4);
      } else {
        if g != f {
          FatCopiesApart(b, f, g);
        }
        FieldApart(disk, off, e, 4, EntryOff(b, g, x), 4);
      }
    }
    forall x | 2 <= x < Entries(b)
      ensures ClusterOff(b, x) + ClusterBytes(b) <= |disk'| && v'.data[x] == ClusterData(b, disk', x)
    {
      ClusterInBounds(b, len, x);
      assert v.data[x] == ClusterData(b, disk, x);
      OverwriteOutside(disk, off, LeEncode(e, 4), ClusterOff(b, x), ClusterOff(b, x) + ClusterBytes(b));
    }
  }

  /** Read-modify-write of a whole sector stores just the changed field. */
  lemma SectorRmw(disk: seq<byte>, sec: nat, pos: nat, e: nat)
    requires sec * 512 + 512 <= |disk| && pos + 4 <= 512
    ensures Overwrite(disk, sec * 512, PutField(disk[sec * 512..sec * 512 + 512], pos, e, 4))
         == PutField(disk, sec * 512 + pos, e, 4)
  {
    hide LeEncode;
    OverwriteNested(disk, sec * 512, 512, pos, LeEncode(e, 4));
  }

  function EntrySector(b: Bpb, f: nat, c: nat): nat { b.reservedSectors + f * b.fatSectors + c * 4 / 512 }

  function EntryPos(c: nat): nat { c * 4 % 512 }

  lemma EntrySectorArith(b: Bpb, f: nat, c: nat)
    requires c < Entries(b)
    ensures EntryPos(c) + 4 <= 512
    ensures EntrySector(b, f, c) * 512 + EntryPos(c) == EntryOff(b, f, c)
    ensures EntrySector(b, f, c) * 512 + 512 <= FatOff(b, f) + b.fatSectors * 512
  {
    assert c * 4 / 512 == c / 128 && c * 4 % 512 == 4 * (c % 128);
    assert c / 128 < b.fatSectors;
  }

  /** Reading the sector and position the driver computes yields the entry. */
  lemma EntryInSector(b: Bpb, disk: seq<byte>, v: View, f: nat, c: nat)
    requires WfVolume(b, |disk|) && Linked(b, disk, v) && f < b.numFats && c < Entries(b)
    ensures var lo := EntrySector(b, f, c) * 512;
      && lo + 512 <= |disk| && EntryPos(c) + 4 <= 512
      && lo + EntryPos(c) == EntryOff(b, f, c)
      && Field(disk[lo..lo + 512], EntryPos(c), 4) == v.fat[f][c] < 0x1_0000_0000
  {
    FatInBounds(b, |disk|, f);
    var lo, pos := EntrySector(b, f, c) * 512, EntryPos(c);
    EntrySectorArith(b, f, c);
    SubSlice(disk, lo, lo + 512, pos, pos + 4);
    assert v.fat[f][c] == Raw(b, disk, f, c);
    LeBound(disk[EntryOff(b, f, c)..EntryOff(b, f, c) + 4]);
    Pow256Values();
  }

  /** Entry i of sector `si` of the first FAT copy. */
  lemma EntryOfSector(b: Bpb, disk: seq<byte>, v: View, si: nat, i: nat)
    requires WfVolume(b, |disk|) && Linked(b, disk, v) && si < b.fatSectors && i < 128
    ensures var lo := (b.reservedSectors + si) * 512;
      lo + 512 <= |disk| && Field(disk[lo..lo + 512], i * 4, 4) == v.fat[0][si * 128 + i]
  {
    var c := si * 128 + i;
    assert c * 4 == si * 512 + i * 4;
    assert c * 4 / 512 == si && c * 4 % 512 == i * 4;
    EntryInSector(b, disk, v, 0, c);
  }

  /** Writing that sector back with the field replaced sets the entry. */
  lemma EntryRmw(b: Bpb, disk: seq<byte>, v: View, f: nat, c: nat, e: nat, sector: seq<byte>)
    requires WfVolume(b, |disk|) && Linked(b, disk, v) && f < b.numFats && c < Entries(b)
    requires e < 0x1_0000_0000
    requires EntrySector(b, f, c) * 512 + 512 <= |disk| && EntryPos(c) + 4 <= 512
    requires sector == PutField(disk[EntrySector(b, f, c) * 512..EntrySector(b, f, c) * 512 + 512], EntryPos(c), e, 4)
    ensures Linked(b, Overwrite(disk, EntrySector(b, f, c) * 512, sector), WithEntry(v, f, c, e))
  {
    hide *;
    EntryInSector(b, disk, v, f, c);
    SectorRmw(disk, EntrySector(b, f, c), EntryPos(c), e);
    LinkedEntryWrite(b, disk, v, f, c, e);
  }

  /** A one-sector write stores the sector or nothing. */
  lemma OneSector(disk: seq<byte>, off: nat, sector: seq<byte>, done: nat)
    requires |sector| == 512 && off + 512 <= |disk| && done <= 1
    ensures Overwrite(disk, off, sector[..done * 512]) == if done == 1 then Overwrite(disk, off, sector) else disk
  {
    assert sector[..512] == sector;
  }
}
