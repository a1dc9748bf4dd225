/** The 32-byte directory record: its attributes, its first-cluster and size fields. */
module DirRecord {
  import opened Bytes
  import opened FileSpec

  const RECORD: nat := 32

  function Record(d: seq<byte>, off: nat): (r: seq<byte>)
    requires off + RECORD <= |d|
    ensures |r| == RECORD
  {
    d[off..off + RECORD]
  }

  /** Neither a long-name part nor a volume label. */
  predicate IsPlain(rec: seq<byte>)
    requires |rec| == RECORD
  {
    rec[0x0B] != 0x0F && rec[0x0B] / 8 % 2 == 0
  }

  predicate IsDirectory(rec: seq<byte>)
    requires |rec| == RECORD
  {
    rec[0x0B] / 16 % 2 == 1
  }

  /** The first cluster is split over two 16-bit fields. */
  function FirstClusterOf(e: seq<byte>): nat
    requires |e| == RECORD
  {
    Field(e, 0x14, 2) * 0x1_0000 + Field(e, 0x1A, 2)
  }

  function EntrySize(e: seq<byte>): nat
    requires |e| == RECORD
  {
    Field(e, 0x1C, 4)
  }

  /** The four single-byte stores that put `c` into the record at `o`. */
  function PutFirstCluster(d: seq<byte>, o: nat, c: nat): (r: seq<byte>)
    requires o + RECORD <= |d|
    ensures |r| == |d|
  {
    d[o + 0x14 := c / 0x1_0000 % 256][o + 0x15 := c / 0x100_0000 % 256]
     [o + 0x1A := c % 256][o + 0x1B := c / 0x100 % 256]
  }

  function PutSize(d: seq<byte>, o: nat, size: nat): (r: seq<byte>)
    requires o + RECORD <= |d|
    ensures |r| == |d|
  {
    PutField(d, o + 0x1C, size, 4)
  }

  // ---- records as other systems write them ----

  datatype Attributes = Attributes(readOnly: bool, hidden: bool, system: bool, volume: bool, directory: bool,
                                   archive: bool)

  function Bit(b: bool, value: nat): nat { if b then value else 0 }

  function AttrByte(a: Attributes): (r: nat)
    ensures r < 64
  {
    Bit(a.readOnly, 0x01) + Bit(a.hidden, 0x02) + Bit(a.system, 0x04) + Bit(a.volume, 0x08) + Bit(a.directory, 0x10)
    + Bit(a.archive, 0x20)
  }

  /** Where a record has its fields; the high half of the first cluster is at 0x14. */
  function RecordFields(a: Attributes, first: nat, size: nat): seq<Store> {
    [Store(0x0B, 1, AttrByte(a)), Store(0x14, 2, first / 0x1_0000), Store(0x1A, 2, first % 0x1_0000),
     Store(0x1C, 4, size)]
  }

  /** A record with these fields; time stamps are as in `template`. */
  ghost function RecordOf(template: seq<byte>, name: seq<byte>, a: Attributes, first: nat, size: nat): (r: seq<byte>)
    requires |template| == RECORD && |name| == 11
    ensures |r| == RECORD
  {
    PutAll(Overwrite(template, 0, name), RecordFields(a, first, size))
  }

  /** The driver reads from a record what was written to it. */
  lemma RecordRead(template: seq<byte>, name: seq<byte>, a: Attributes, first: nat, size: nat)
    requires |template| == RECORD && |name| == 11 && first < 0x1_0000_0000 && size < 0x1_0000_0000
    ensures var r := RecordOf(template, name, a, first, size);
      && r[..11] == name && FirstClusterOf(r) == first && EntrySize(r) == size
      && (IsDirectory(r) <==> a.directory) && (IsPlain(r) <==> !a.volume)
  {
    hide PutAll, LaidOut, Field, AttrByte, Bit;
    var named, l := Overwrite(template, 0, name), RecordFields(a, first, size);
    var r := RecordOf(template, name, a, first, size);
    Pow256Values();
    FieldsLaidOut(a, first, size);
    forall i | 0 <= i < |l| ensures l[i].pos + l[i].n <= RECORD && Field(r, l[i].pos, l[i].n) == l[i].v {
      PutAllRead(named, l, i);
    }
    PutAllOutside(named, l, 0, 11);
    OverwriteInside(template, 0, name);
    ByteField(r, 0x0B);
    assert l[0] == Store(0x0B, 1, AttrByte(a)) && l[1] == Store(0x14, 2, first / 0x1_0000);
    assert l[2] == Store(0x1A, 2, first % 0x1_0000) && l[3] == Store(0x1C, 4, size);
    assert r[0x0B] == AttrByte(a);
    AttrBits(a);
  }

  lemma FieldsLaidOut(a: Attributes, first: nat, size: nat)
    requires first < 0x1_0000_0000 && size < 0x1_0000_0000
    ensures LaidOut(RecordFields(a, first, size), RECORD)
  {
    Pow256Values();
    assert Pow256(1) == 256 * Pow256(0);
  }

  lemma AttrBits(a: Attributes)
    ensures AttrByte(a) / 16 % 2 == 1 <==> a.directory
    ensures AttrByte(a) / 8 % 2 == 0 && AttrByte(a) != 0x0F <==> !a.volume
  {
  }

  lemma TwoByteField(s: seq<byte>, pos: nat)
    requires pos + 2 <= |s|
    ensures Field(s, pos, 2) == s[pos] as int + 256 * s[pos + 1] as int
  {
    var w := s[pos..pos + 2];
    assert LeDecode(w[1..]) == w[1] + 256 * LeDecode(w[1..][1..]);
  }

  /** Storing the first cluster: it reads back, the size field and the rest stay. */
  lemma FirstClusterStored(d: seq<byte>, o: nat, c: nat)
    requires o + RECORD <= |d| && c < 0x1_0000_0000
    ensures FirstClusterOf(Record(PutFirstCluster(d, o, c), o)) == c
    ensures EntrySize(Record(PutFirstCluster(d, o, c), o)) == EntrySize(Record(d, o))
    ensures RecordFrame(d, PutFirstCluster(d, o, c), o)
  {
    hide Field, LeDecode;
    var e := Record(PutFirstCluster(d, o, c), o);
    TwoByteField(e, 0x14);
    TwoByteField(e, 0x1A);
    ClusterBytesJoin(c);
    FieldSame(e, Record(d, o), 0x1C, 4);
  }

  lemma ClusterBytesJoin(c: nat)
    requires c < 0x1_0000_0000
    ensures (c / 0x1_0000 % 256 + 256 * (c / 0x100_0000 % 256)) * 0x1_0000 + (c % 256 + 256 * (c / 0x100 % 256)) == c
  {
    var a := c / 256;
    var b := a / 256;
    assert c / 0x1_0000 == b && c / 0x100_0000 == b / 256 < 256;
    assert c == 256 * a + c % 256 && a == 256 * b + a % 256 && b == 256 * (b / 256) + b % 256;
  }

  lemma FieldSame(a: seq<byte>, b: seq<byte>, pos: nat, n: nat)
    requires pos + n <= |a| && pos + n <= |b| && forall i :: pos <= i < pos + n ==> a[i] == b[i]
    ensures Field(a, pos, n) == Field(b, pos, n)
  {
    assert a[pos..pos + n] == b[pos..pos + n];
  }

  lemma SizeStored(d: seq<byte>, o: nat, size: nat)
    requires o + RECORD <= |d| && size < 0x1_0000_0000
    ensures EntrySize(Record(PutSize(d, o, size), o)) == size
    ensures FirstClusterOf(Record(PutSize(d, o, size), o)) == FirstClusterOf(Record(d, o))
    ensures RecordFrame(d, PutSize(d, o, size), o)
  {
    var d' := PutSize(d, o, size);
    Pow256Values();
    FieldOfPut(d, o + 0x1C, size, 4);
    SubSlice(d', o, o + 32, 0x1C, 0x20);
    SubSlice(d', o, o + 32, 0x14, 0x16);
    SubSlice(d, o, o + 32, 0x14, 0x16);
    SubSlice(d', o, o + 32, 0x1A, 0x1C);
    SubSlice(d, o, o + 32, 0x1A, 0x1C);
    FieldApart(d, o + 0x1C, size, 4, o + 0x14, 2);
    FieldApart(d, o + 0x1C, size, 4, o + 0x1A, 2);
  }

  /** A torn write of the record still stays inside the node fields. */
  lemma TornRecord(d: seq<byte>, d': seq<byte>, torn: seq<byte>, o: nat)
    requires RecordFrame(d, d', o) && |torn| == |d|
    requires forall i :: 0 <= i < |d| ==> torn[i] in {d[i], d'[i]}
    ensures RecordFrame(d, torn, o)
  {
  }
}
