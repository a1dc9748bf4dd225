/** FAT32 volumes as a formatting program lays them out: the boot sector, and the image of a
    whole volume as reserved area, FAT copies and clusters one behind the other. */
module FatFormat {
  import opened Bytes
  import opened FatLayout

  function Pow2(k: nat): nat { if k == 0 then 1 else 2 * Pow2(k - 1) }

  /** Cluster sizes the standard knows, in sectors. */
  ghost predicate ClusterSectors(n: nat) { exists k: nat :: k <= 7 && n == Pow2(k) }

  /** Layouts the boot sector has room for: sectors of 512 bytes, one to 128 in a cluster. */
  ghost predicate FitsBoot(b: Bpb) {
    && b.bytesPerSector == 512 && ClusterSectors(b.sectorsPerCluster)
    && b.reservedSectors < 0x1_0000 && b.numFats < 0x100
    && b.fatSectors < 0x1_0000_0000 && b.rootCluster < 0x1_0000_0000
  }

  /** Where a FAT32 boot sector has its fields; the 16-bit FAT size is zero. */
  function BootFields(b: Bpb): seq<Store> {
    [Store(0x0B, 2, b.bytesPerSector), Store(0x0D, 1, b.sectorsPerCluster), Store(0x0E, 2, b.reservedSectors),
     Store(0x10, 1, b.numFats), Store(0x16, 2, 0), Store(0x24, 4, b.fatSectors), Store(0x2C, 4, b.rootCluster),
     Store(510, 1, 0x55), Store(511, 1, 0xAA)]
  }

  /** The boot sector of layout b; the rest is as in `template`. */
  ghost function BootSector(template: seq<byte>, b: Bpb): (r: seq<byte>)
    requires |template| == SECTOR
    ensures |r| == SECTOR
  {
    PutAll(template, BootFields(b))
  }

  /** The boot sector s describes layout b. */
  ghost predicate Describes(s: seq<byte>, b: Bpb)
    requires |s| == SECTOR
  {
    FitsBoot(b) && s == BootSector(s, b)
  }

  lemma PowersOfTwo(n: nat)
    ensures IsPowerOfTwoByte(n) <==> ClusterSectors(n)
  {
    assert Pow2(1) == 2 && Pow2(2) == 4 && Pow2(3) == 8;
    assert Pow2(4) == 16 && Pow2(5) == 32;
    assert Pow2(6) == 64 && Pow2(7) == 128;
    forall k: nat | k <= 7 ensures IsPowerOfTwoByte(Pow2(k)) {
      assert k == 0 || k == 1 || k == 2 || k == 3 || k == 4 || k == 5 || k == 6 || k == 7;
    }
    if IsPowerOfTwoByte(n) {
      var k := if n == 1 then 0 else if n == 2 then 1 else if n == 4 then 2 else if n == 8 then 3
               else if n == 16 then 4 else if n == 32 then 5 else if n == 64 then 6 else 7;
      assert n == Pow2(k);
    }
  }

  lemma BootLaidOut(b: Bpb)
    requires FitsBoot(b)
    ensures LaidOut(BootFields(b), SECTOR)
  {
    PowersOfTwo(b.sectorsPerCluster);
    Pow256Values();
    assert Pow256(1) == 256;
  }

  /** What was written is parsed, whatever the rest of the sector holds. */
  lemma WrittenParsed(template: seq<byte>, b: Bpb)
    requires |template| == SECTOR && FitsBoot(b)
    ensures ParseBpb(BootSector(template, b)) == Some(b)
  {
    hide PutAll, LaidOut, Field, IsPowerOfTwoByte;
    var s, l := BootSector(template, b), BootFields(b);
    BootLaidOut(b);
    PowersOfTwo(b.sectorsPerCluster);
    forall i | 0 <= i < |l| ensures l[i].pos + l[i].n <= SECTOR && Field(s, l[i].pos, l[i].n) == l[i].v {
      PutAllRead(template, l, i);
    }
    ByteField(s, 0x0D);
    ByteField(s, 0x10);
    ByteField(s, 510);
    ByteField(s, 511);
    assert l[0] == Store(0x0B, 2, 512) && l[1] == Store(0x0D, 1, b.sectorsPerCluster);
    assert l[2] == Store(0x0E, 2, b.reservedSectors) && l[3] == Store(0x10, 1, b.numFats) && l[4] == Store(0x16, 2, 0);
    assert l[5] == Store(0x24, 4, b.fatSectors) && l[6] == Store(0x2C, 4, b.rootCluster);
    assert l[7] == Store(510, 1, 0x55) && l[8] == Store(511, 1, 0xAA);
    NotZero();
    assert Field(s, 0x0B, 2) == 512 && Field(s, 0x0E, 2) == b.reservedSectors && Field(s, 0x16, 2) == 0;
    assert Field(s, 0x24, 4) == b.fatSectors && Field(s, 0x2C, 4) == b.rootCluster;
    assert s[0x0D] == b.sectorsPerCluster && s[0x10] == b.numFats;
    assert s[510] == 0x55 && s[511] == 0xAA;
  }

  lemma NotZero()
    ensures !IsPowerOfTwoByte(0)
  {
  }

  /** An accepted sector describes the parsed layout and no other. */
  lemma ParsedDescribes(s: seq<byte>, b: Bpb)
    requires |s| == SECTOR
    ensures ParseBpb(s) == Some(b) <==> Describes(s, b)
  {
    hide PutAll, Field, IsPowerOfTwoByte;
    if Describes(s, b) {
      WrittenParsed(s, b);
    }
    if ParseBpb(s) == Some(b) {
      SectorFields(s);
      PowersOfTwo(b.sectorsPerCluster);
      var l := BootFields(b);
      forall i | 0 <= i < |l| ensures l[i].pos + l[i].n <= |s| && Field(s, l[i].pos, l[i].n) == l[i].v {
        ByteField(s, 0x0D);
        ByteField(s, 0x10);
        ByteField(s, 510);
        ByteField(s, 511);
      }
      PutAllSame(s, l);
    }
  }

  lemma SectorFields(s: seq<byte>)
    requires |s| == SECTOR
    ensures Field(s, 0x0E, 2) < 0x1_0000 && Field(s, 0x24, 4) < 0x1_0000_0000 && Field(s, 0x2C, 4) < 0x1_0000_0000
  {
    Pow256Values();
    LeBound(s[0x0E..0x10]);
    LeBound(s[0x24..0x28]);
    LeBound(s[0x2C..0x30]);
  }

  // ---- a whole volume ----

  /** Byte strings one behind the other. */
  ghost function Flat(parts: seq<seq<byte>>): seq<byte> {
    if parts == [] then [] else parts[0] + Flat(parts[1..])
  }

  lemma {:induction false} FlatLength(parts: seq<seq<byte>>, len: nat)
    requires forall i {:trigger parts[i]} :: 0 <= i < |parts| ==> |parts[i]| == len
    ensures |Flat(parts)| == BlockOff(|parts|, len)
  {
    hide BlockOff;
    BlockZero(len);
    if parts != [] {
      FlatLength(parts[1..], len);
      NextBlock(|parts| - 1, len);
    }
  }

  /** Parts of one length lie at its multiples. */
  lemma {:induction false} FlatAt(parts: seq<seq<byte>>, len: nat, k: nat)
    requires (forall i {:trigger parts[i]} :: 0 <= i < |parts| ==> |parts[i]| == len) && k < |parts|
    ensures BlockOff(k, len) + len <= |Flat(parts)|
    ensures Flat(parts)[BlockOff(k, len)..BlockOff(k, len) + len] == parts[k]
  {
    hide BlockOff;
    var rest := Flat(parts[1..]);
    if k == 0 {
      BlockZero(len);
      assert (parts[0] + rest)[0..len] == parts[0];
    } else {
      FlatAt(parts[1..], len, k - 1);
      NextBlock(k - 1, len);
      SubSliceBehind(parts[0], rest, BlockOff(k - 1, len), len);
    }
  }

  lemma BlockZero(len: nat)
    ensures BlockOff(0, len) == 0
  {
  }

  lemma SubSliceBehind(a: seq<byte>, s: seq<byte>, lo: nat, n: nat)
    requires lo + n <= |s|
    ensures (a + s)[|a| + lo..|a| + lo + n] == s[lo..lo + n]
  {
  }

  lemma MiddleSlice(a: seq<byte>, m: seq<byte>, z: seq<byte>, lo: nat, n: nat)
    requires lo + n <= |m|
    ensures (a + m + z)[|a| + lo..|a| + lo + n] == m[lo..lo + n]
  {
  }

  /** One FAT copy: 32-bit entries. */
  ghost function FatBytes(row: seq<nat>): seq<byte> {
    Flat(seq(|row|, c requires 0 <= c < |row| => LeEncode(row[c], 4)))
  }

  ghost function FatRows(fat: seq<seq<nat>>): (r: seq<seq<byte>>)
    ensures |r| == |fat| && forall f :: 0 <= f < |fat| ==> r[f] == FatBytes(fat[f])
  {
    seq(|fat|, f requires 0 <= f < |fat| => FatBytes(fat[f]))
  }

  ghost function FatArea(fat: seq<seq<nat>>): seq<byte> { Flat(FatRows(fat)) }

  /** The volume with these contents: reserved area, FAT copies, clusters from number 2 on,
      and whatever is behind them. */
  ghost function VolumeImage(v: View, tail: seq<byte>): seq<byte>
    requires |v.data| >= 2
  {
    v.boot + FatArea(v.fat) + Flat(v.data[2..]) + tail
  }

  /** Contents a volume of layout b can have. */
  ghost predicate Storable(b: Bpb, v: View) {
    && b.sectorsPerCluster >= 1 && b.numFats >= 1 && 1 <= b.fatSectors && Entries(b) < 0x0FFF_FFF7
    && Shape(b, v) && |v.boot| == b.reservedSectors * 512
    && (forall f, c {:trigger v.fat[f][c]} :: 0 <= f < |v.fat| && 0 <= c < |v.fat[f]| ==> v.fat[f][c] < 0x1_0000_0000)
  }

  lemma EntryInRow(row: seq<nat>, c: nat)
    requires c < |row| && row[c] < 0x1_0000_0000
    ensures |FatBytes(row)| == 4 * |row|
    ensures Field(FatBytes(row), 4 * c, 4) == row[c]
  {
    RowLength(row);
    FlatAt(seq(|row|, x requires 0 <= x < |row| => LeEncode(row[x], 4)), 4, c);
    Pow256Values();
    LeRoundTrip(row[c], 4);
  }

  lemma RowLength(row: seq<nat>)
    ensures |FatBytes(row)| == 4 * |row|
  {
    FlatLength(seq(|row|, x requires 0 <= x < |row| => LeEncode(row[x], 4)), 4);
  }

  function FatCopyBytes(b: Bpb): nat { b.fatSectors * 512 }

  /** Where the FAT copies lie in the image. */
  lemma RowInArea(b: Bpb, v: View, f: nat)
    requires Storable(b, v) && f < b.numFats
    ensures |FatArea(v.fat)| == BlockOff(b.numFats, FatCopyBytes(b))
    ensures var lo := BlockOff(f, FatCopyBytes(b));
      lo + FatCopyBytes(b) <= |FatArea(v.fat)| && FatArea(v.fat)[lo..lo + FatCopyBytes(b)] == FatBytes(v.fat[f])
  {
    hide Shape, FatBytes, Flat, BlockOff;
    var rows := FatRows(v.fat);
    ShapeRows(b, v);
    forall g | 0 <= g < |rows| ensures |rows[g]| == FatCopyBytes(b) {
      RowLength(v.fat[g]);
    }
    FlatLength(rows, FatCopyBytes(b));
    FlatAt(rows, FatCopyBytes(b), f);
  }

  lemma ShapeRows(b: Bpb, v: View)
    requires Shape(b, v)
    ensures |v.fat| == b.numFats && forall g :: 0 <= g < |v.fat| ==> |v.fat[g]| == Entries(b)
  {
  }

  /** Where the clusters lie in the image. */
  lemma ClusterInArea(b: Bpb, v: View, c: nat)
    requires Storable(b, v) && 2 <= c < Entries(b)
    ensures |Flat(v.data[2..])| == BlockOff(Entries(b) - 2, ClusterBytes(b))
    ensures var lo := BlockOff(c - 2, ClusterBytes(b));
      lo + ClusterBytes(b) <= |Flat(v.data[2..])| && Flat(v.data[2..])[lo..lo + ClusterBytes(b)] == v.data[c]
  {
    hide BlockOff, Flat, ClusterBytes;
    FlatLength(v.data[2..], ClusterBytes(b));
    FlatAt(v.data[2..], ClusterBytes(b), c - 2);
  }

  /** The places the driver computes, in terms of what lies in front. */
  lemma Places(b: Bpb, f: nat, c: nat)
    requires c >= 2
    ensures FatOff(b, f) == b.reservedSectors * 512 + BlockOff(f, FatCopyBytes(b))
    ensures DataStart(b) * 512 == b.reservedSectors * 512 + BlockOff(b.numFats, FatCopyBytes(b))
    ensures ClusterOff(b, c) == DataStart(b) * 512 + BlockOff(c - 2, ClusterBytes(b))
    ensures (DataStart(b) + (c - 2) * b.sectorsPerCluster) * 512 ==
      DataStart(b) * 512 + BlockOff(c - 2, ClusterBytes(b))
  {
    Regroup(f, b.fatSectors);
    Regroup(b.numFats, b.fatSectors);
    Regroup(c - 2, b.sectorsPerCluster);
  }

  lemma Regroup(x: nat, y: nat)
    ensures x * y * 512 == BlockOff(x, y * 512)
  {
  }

  lemma WholeSectors(b: Bpb, x: nat)
    ensures BlockOff(x, FatCopyBytes(b)) % 512 == 0 && BlockOff(x, ClusterBytes(b)) % 512 == 0
  {
    Regroup(x, b.fatSectors);
    Regroup(x, b.sectorsPerCluster);
  }

  lemma ImageSize(b: Bpb, v: View, tail: seq<byte>)
    requires Storable(b, v) && |tail| % 512 == 0
    ensures WfVolume(b, |VolumeImage(v, tail)|)
  {
    hide FatArea, Flat, Shape, BlockOff, DataStart, FatCopyBytes, ClusterBytes, WfVolume;
    RowInArea(b, v, 0);
    ClusterInArea(b, v, 2);
    Places(b, 0, Entries(b));
    WholeSectors(b, b.numFats);
    WholeSectors(b, Entries(b) - 2);
    ImageLength(b, v, tail);
    var fats, data := BlockOff(b.numFats, FatCopyBytes(b)), BlockOff(Entries(b) - 2, ClusterBytes(b));
    SumOfSectors(b.reservedSectors * 512, fats, data, |tail|);
    Enough(b, |VolumeImage(v, tail)|, data);
  }

  lemma SumOfSectors(x: nat, y: nat, z: nat, t: nat)
    requires x % 512 == 0 && y % 512 == 0 && z % 512 == 0 && t % 512 == 0
    ensures (x + y + z + t) % 512 == 0
  {
  }

  lemma Enough(b: Bpb, len: nat, data: nat)
    requires b.sectorsPerCluster >= 1 && b.numFats >= 1 && b.fatSectors >= 1
    requires Entries(b) < 0x0FFF_FFF7 && len % 512 == 0
    requires DataStart(b) * 512 + data <= len
    requires data == BlockOff(Entries(b) - 2, ClusterBytes(b))
    ensures WfVolume(b, len)
  {
    hide BlockOff, DataStart;
    Places(b, 0, Entries(b));
  }

  lemma ImageLength(b: Bpb, v: View, tail: seq<byte>)
    requires Storable(b, v)
    ensures |v.data| >= 2 && |VolumeImage(v, tail)| == |v.boot| + |FatArea(v.fat)| + |Flat(v.data[2..])| + |tail|
  {
  }

  /** The driver sees in the image of a volume what was laid out, in every copy of the FAT
      and in every cluster. */
  lemma ImageLinked(b: Bpb, v: View, tail: seq<byte>)
    requires Storable(b, v) && |tail| % 512 == 0
    ensures WfVolume(b, |VolumeImage(v, tail)|) && Linked(b, VolumeImage(v, tail), v)
  {
    hide FatArea, Flat, Field, FatBytes, WfVolume;
    var disk, fats, data := VolumeImage(v, tail), FatArea(v.fat), Flat(v.data[2..]);
    ImageSize(b, v, tail);
    forall f, c | 0 <= f < b.numFats && 0 <= c < Entries(b)
      ensures EntryOff(b, f, c) + 4 <= |disk| && v.fat[f][c] == Raw(b, disk, f, c)
    {
      RawInImage(b, v, tail, f, c);
    }
    forall c | 2 <= c < Entries(b)
      ensures ClusterOff(b, c) + ClusterBytes(b) <= |disk| && v.data[c] == ClusterData(b, disk, c)
    {
      DataInImage(b, v, tail, c);
    }
  }

  lemma RawInImage(b: Bpb, v: View, tail: seq<byte>, f: nat, c: nat)
    requires Storable(b, v) && f < b.numFats && c < Entries(b)
    ensures EntryOff(b, f, c) + 4 <= |VolumeImage(v, tail)| && v.fat[f][c] == Raw(b, VolumeImage(v, tail), f, c)
  {
    hide FatArea, Flat, LeDecode, FatBytes, BlockOff, FatOff, DataStart;
    var fats, rest := FatArea(v.fat), Flat(v.data[2..]) + tail;
    RowInArea(b, v, f);
    EntryInRow(v.fat[f], c);
    Places(b, f, 2);
    var lo := BlockOff(f, FatCopyBytes(b));
    SubSlice(fats, lo, lo + FatCopyBytes(b), 4 * c, 4 * c + 4);
    MiddleSlice(v.boot, fats, rest, lo + 4 * c, 4);
    assert VolumeImage(v, tail) == v.boot + fats + rest;
  }

  lemma DataInImage(b: Bpb, v: View, tail: seq<byte>, c: nat)
    requires Storable(b, v) && 2 <= c < Entries(b)
    ensures ClusterOff(b, c) + ClusterBytes(b) <= |VolumeImage(v, tail)|
    ensures v.data[c] == ClusterData(b, VolumeImage(v, tail), c)
  {
    hide FatArea, Flat, Shape, BlockOff, ClusterOff, ClusterBytes, DataStart;
    ImageLength(b, v, tail);
    var fats, data := FatArea(v.fat), Flat(v.data[2..]);
    RowInArea(b, v, 0);
    ClusterInArea(b, v, c);
    Places(b, 0, c);
    MiddleSlice(v.boot + fats, data, tail, BlockOff(c - 2, ClusterBytes(b)), ClusterBytes(b));
  }

  /** A disk has one view: two that agree with its bytes agree with each other. */
  lemma OneView(b: Bpb, disk: seq<byte>, v: View, w: View)
    requires WfVolume(b, |disk|) && Linked(b, disk, v) && Linked(b, disk, w)
    ensures v.fat == w.fat && v.boot == w.boot && v.data[2..] == w.data[2..]
  {
    hide Raw, ClusterData, WfVolume;
    forall f | 0 <= f < b.numFats ensures v.fat[f] == w.fat[f] {
      FatInBounds(b, |disk|, f);
      forall c | 0 <= c < Entries(b) ensures v.fat[f][c] == w.fat[f][c] {
        assert v.fat[f][c] == Raw(b, disk, f, c);
      }
    }
    forall c | 2 <= c < Entries(b) ensures v.data[c] == w.data[c] {
      ClusterInBounds(b, |disk|, c);
      assert v.data[c] == ClusterData(b, disk, c);
    }
  }

  /** The boot sector in front of an image. */
  lemma ImageBoot(b: Bpb, v: View, tail: seq<byte>)
    requires Storable(b, v) && FitsBoot(b) && |v.boot| >= 512
    requires exists t :: |t| == 512 && v.boot[..512] == BootSector(t, b)
    ensures |VolumeImage(v, tail)| >= 512 && Describes(VolumeImage(v, tail)[..512], b)
  {
    hide Flat, FatArea, FitsBoot, BootSector;
    var t :| |t| == 512 && v.boot[..512] == BootSector(t, b);
    assert VolumeImage(v, tail)[..512] == v.boot[..512];
    WrittenParsed(t, b);
    ParsedDescribes(v.boot[..512], b);
  }
}
