/** The driver as its callers use it: create a file in a directory, open one by name and
    write to it. Each refines one step on the abstract list of named byte strings. */
module FatDriver {
  import opened Bytes
  import opened FatLayout
  import opened FatChains
  import opened Fat32
  import opened FileSpec
  import opened DirRecord
  import opened DirSpec
  import opened ShortNames
  import opened FatNode
  import opened AbstractDir

  /** A sound directory node with the chains of the files in it. */
  ghost predicate DirOk(dir: Fat32Node, chains: seq<seq<nat>>)
    reads dir, dir.fs, dir.fs.disk
  {
    && dir.Valid() && dir.isDir && dir.firstCluster >= 2
    && WfDirectory(dir.fs.bpb, dir.fs.view, dir.chain, chains)
    && Compact(dir.Slots())
    && (forall i {:trigger chains[i]} :: 0 <= i < |chains| ==> dir.parentCluster !in chains[i])
  }

  // ---- the root directory ----

  /** The root directory is one zeroed cluster, as on a newly formatted volume. */
  ghost predicate Formatted(b: Bpb, v: View)
    requires Shape(b, v) && b.numFats >= 1
  {
    && IsCluster(b, b.rootCluster) && Next(v.fat[0], b.rootCluster) >= EOC_MIN
    && v.data[b.rootCluster] == Zeros(ClusterBytes(b))
  }

  /** A newly formatted volume has a sound root directory that lists nothing. */
  lemma FormattedRoot(b: Bpb, v: View)
    requires Shape(b, v) && b.numFats >= 1 && Entries(b) <= EOC_MIN && Formatted(b, v)
    ensures WfDirectory(b, v, [b.rootCluster], []) && Compact(DirSlots(v.data, [b.rootCluster]))
    ensures Listing(b, v, [b.rootCluster], []) == []
    ensures NodeOk(b, v, [b.rootCluster], b.rootCluster, 0, 0, 0)
  {
    var r := b.rootCluster;
    var s := DirSlots(v.data, [r]);
    assert [r][1..] == [] && DirSlots(v.data, []) == [];
    assert s == ClusterSlots(v.data[r], r);
    forall i | 0 <= i < |s| ensures s[i].rec == Zeros(RECORD) {
      assert s[i].rec == Zeros(ClusterBytes(b))[32 * i..32 * i + 32];
    }
    LiveZero(s);
  }

  /** The node of the root directory, whose chain is `ds`. */
  method Root(fs: Fat32Fs, ghost ds: seq<nat>) returns (dir: Fat32Node)
    requires fs.Valid() && fs.bpb.rootCluster >= 2 && IsChain(fs.view.fat[0], ds) && ds[0] == fs.bpb.rootCluster
    ensures fresh(dir) && dir.fs == fs && dir.chain == ds && dir.Valid() && dir.isDir
    ensures forall chains {:trigger WfDirectory(fs.bpb, fs.view, ds, chains)} ::
      WfDirectory(fs.bpb, fs.view, ds, chains) && Compact(DirSlots(fs.view.data, ds)) ==> DirOk(dir, chains)
    ensures Formatted(fs.bpb, fs.view) ==> DirOk(dir, []) && Listing(fs.bpb, fs.view, ds, []) == []
  {
    hide DirSlots, Live, Listing, Compact, Decode;
    forall chains: seq<seq<nat>>, i | WfDirectory(fs.bpb, fs.view, ds, chains) && 0 <= i < |chains|
      ensures 0 !in chains[i]
    {
      NoReserved(fs.bpb, fs.view, ds, chains, i);
    }
    dir := new Fat32Node(fs, fs.bpb.rootCluster, 0, true, 0, 0, ds);
    if Formatted(fs.bpb, fs.view) {
      FormattedChain(fs.view.fat[0], ds);
      FormattedRoot(fs.bpb, fs.view);
    }
  }

  lemma NoReserved(b: Bpb, v: View, ds: seq<nat>, chains: seq<seq<nat>>, i: nat)
    requires WfDirectory(b, v, ds, chains) && i < |chains|
    ensures 0 !in chains[i]
  {
    hide DirSlots, Live;
    assert RecordFits(b, v, Live(DirSlots(v.data, ds))[i], chains[i]);
  }

  lemma FormattedChain(fat: seq<nat>, ds: seq<nat>)
    requires IsChain(fat, ds) && |fat| <= EOC_MIN && Next(fat, ds[0]) >= EOC_MIN
    ensures ds == [ds[0]]
  {
    ChainUnique(fat, ds, [ds[0]]);
  }

  /** The abstract list gained an empty file called `name`; distinct names stay distinct. */
  ghost predicate FileAdded(b: Bpb, v: View, v': View, ds: seq<nat>, ds': seq<nat>, chains: seq<seq<nat>>,
                            name: seq<byte>) {
    && WfDirectory(b, v, ds, chains) && WfDirectory(b, v', ds', chains + [[]])
    && Listing(b, v', ds', chains + [[]]) == Listing(b, v, ds, chains) + [Entry(LowerAll(name), false, [])]
    && (DistinctNames(Listing(b, v, ds, chains)) ==> DistinctNames(Listing(b, v', ds', chains + [[]])))
  }

  lemma NoParentRecord(v: View, v': View, own: seq<nat>, own': seq<nat>, par: nat, off: nat)
    requires Tracked(v, v', own, own', par, off)
    requires 0 != par < |v.data| ==> v'.data[par] == v.data[par]
    ensures Tracked(v, v', own, own', 0, 0)
  {
  }

  /** The files a directory held before a creation was tried are still listed first, with
      their records, chains and contents. */
  ghost predicate FilesKept(b: Bpb, v: View, v': View, ds: seq<nat>, ds': seq<nat>, chains: seq<seq<nat>>)
    requires WfDirectory(b, v, ds, chains)
  {
    && Shape(b, v') && IsChain(v'.fat[0], ds')
    && Live(DirSlots(v.data, ds)) <= Live(DirSlots(v'.data, ds'))
    && forall j {:trigger chains[j]} :: 0 <= j < |chains| ==>
         && RecordFits(b, v', Live(DirSlots(v.data, ds))[j], chains[j])
         && (forall k {:trigger chains[j][k]} :: 0 <= k < |chains[j]| ==> chains[j][k] < |v.data|)
         && ChainBytes(v'.data, chains[j]) == ChainBytes(v.data, chains[j])
  }

  /** A creation that failed: refused or out of space, nothing changed; cut off by the
      device, the old files are all there and the listing is the old one, the old one and
      the new file, or, if the directory was full, the old one and what the cluster that
      was to be appended still holds. */
  ghost predicate CreateFailed(dir: Fat32Node, v: View, ds: seq<nat>, chains: seq<seq<nat>>, name: seq<byte>)
    requires WfDirectory(dir.fs.bpb, v, ds, chains)
    reads dir, dir.fs, dir.fs.disk
  {
    && dir.Valid()
    && (!dir.fs.disk.faulted || To83(name).None? || FirstMatch(Named(name), Live(DirSlots(v.data, ds))).Some? ==>
          dir.fs.view == v && dir.chain == ds)
    && FilesKept(dir.fs.bpb, v, dir.fs.view, ds, dir.chain, chains)
    && (To83(name).Some? ==> CutListing(v, DirSlots(v.data, ds), Live(dir.Slots()), NewRecord(To83(name).value)))
  }

  /** Creating a file under a findable name appends an empty file to the directory and
      returns it opened. Unless the device fails, this succeeds exactly if the name is
      acceptable and new and there is room for its record. */
  method CreateIn(dir: Fat32Node, name: seq<byte>, ghost chains: seq<seq<nat>>) returns (node: Option<Fat32Node>)
    requires DirOk(dir, chains) && Findable(name)
    modifies dir.fs.disk, dir.fs`view, dir`chain
    ensures node.Some? ==>
      && FileAdded(dir.fs.bpb, old(dir.fs.view), dir.fs.view, old(dir.chain), dir.chain, chains, name)
      && fresh(node.value) && Opened(dir, chains + [[]], |chains|, node.value) && node.value.Contents() == []
      && To83(name).Some? && FirstMatch(Named(name), Live(old(dir.Slots()))).None?
      && Live(dir.Slots()) == Live(old(dir.Slots())) + [node.value.NewEntry(name)]
      && FirstMatch(Named(name), Live(dir.Slots())) == Some(node.value.NewEntry(name))
    ensures node.None? ==>
      && CreateFailed(dir, old(dir.fs.view), old(dir.chain), chains, name)
      && (To83(name).None? || FirstMatch(Named(name), Live(old(dir.Slots()))).Some? ||
          dir.fs.disk.faulted || dir.fs.Full())
    ensures !dir.fs.disk.faulted ==>
      (node.Some? <==>
        && Acceptable(name) && FirstMatch(Named(name), Live(old(dir.Slots()))).None?
        && HasPlace(old(dir.fs.view), old(dir.Slots())))
  {
    hide OnlyMine, DirSlots, Live, Inserted, InsertCut, Decode, To83, Listing, Findable, Compact, WfDirectory,
      FileAdded, FilesKept, Acceptable, HasPlace;
    ghost var b, v, ds := dir.fs.bpb, dir.fs.view, dir.chain;
    node := dir.Create(name);
    if node.Some? {
      CreateSound(b, v, dir.fs.view, ds, dir.chain, chains, name, node.value.NewEntry(name), dir.parentCluster,
                  dir.dirEntryOffset);
      CreatedOpened(dir, chains, Live(DirSlots(v.data, ds)), name, node.value);
    } else {
      CreateCutSound(b, v, dir.fs.view, ds, dir.chain, chains, name, dir.parentCluster, dir.dirEntryOffset);
    }
  }

  /** The facts of a creation that failed, put together. */
  lemma CreateCutSound(b: Bpb, v: View, v': View, ds: seq<nat>, ds': seq<nat>, chains: seq<seq<nat>>, name: seq<byte>,
                       par: nat, off: nat)
    requires WfDirectory(b, v, ds, chains) && Compact(DirSlots(v.data, ds)) && Findable(name) && ds <= ds'
    requires Shape(b, v') && IsChain(v'.fat[0], ds') && Tracked(v, v', ds, ds', par, off)
    requires 0 != par < |v.data| ==> v'.data[par] == v.data[par]
    requires if To83(name).None? then v' == v && ds' == ds
      else InsertCut(v, DirSlots(v.data, ds), DirSlots(v'.data, ds'), NewRecord(To83(name).value), ClusterBytes(b))
    ensures FilesKept(b, v, v', ds, ds', chains)
    ensures To83(name).Some? ==>
      CutListing(v, DirSlots(v.data, ds), Live(DirSlots(v'.data, ds')), NewRecord(To83(name).value))
  {
    hide DirSlots, Live, Decode, OnlyMine, InsertCut, Findable, To83, NewRecord, Compact, CutListing;
    NoParentRecord(v, v', ds, ds', par, off);
    var live := Live(DirSlots(v.data, ds));
    if To83(name).Some? {
      FirstByte(name);
      InsertCutLive(v, DirSlots(v.data, ds), DirSlots(v'.data, ds'), NewRecord(To83(name).value), ClusterBytes(b));
      CutPrefix(v, DirSlots(v.data, ds), Live(DirSlots(v'.data, ds')), NewRecord(To83(name).value));
    }
    ListingPlaces(b, v, ds);
    forall j | 0 <= j < |chains|
      ensures RecordFits(b, v', live[j], chains[j])
      ensures forall k {:trigger chains[j][k]} :: 0 <= k < |chains[j]| ==> chains[j][k] < |v.data|
      ensures ChainBytes(v'.data, chains[j]) == ChainBytes(v.data, chains[j])
    {
      assert RecordFits(b, v, live[j], chains[j]) && Disjoint(chains[j], ds) && live[j].cluster in ds;
      OtherFileAfterCreate(b, v, v', ds, ds', live[j], chains[j]);
    }
  }

  lemma CutPrefix(v: View, s: seq<Slot>, l': seq<Slot>, rec: seq<byte>)
    requires WfSlots(s) && CutListing(v, s, l', rec)
    ensures Live(s) <= l'
  {
    hide Live, ClusterSlots;
  }

  /** If the directory has a free slot, or the cluster it would be given holds no live
      record, then after any failure the listing is the old one, or that and the new file. */
  lemma CutCreate(v: View, s: seq<Slot>, l': seq<Slot>, rec: seq<byte>, c: nat)
    requires WfSlots(s) && CutListing(v, s, l', rec)
    requires NoFree(s) ==>
      |v.fat| > 0 && LowestFree(v.fat[0], c) && c < |v.data| && Live(ClusterSlots(v.data[c], c)) == []
    ensures l' == Live(s) || exists e: Slot :: e.rec == rec && l' == Live(s) + [e]
  {
    hide Live, ClusterSlots;
    if NoFree(s) {
      forall x: nat | LowestFree(v.fat[0], x) ensures x == c {
      }
    }
  }

  /** The node a creation returns is open for the new file. */
  lemma CreatedOpened(dir: Fat32Node, chains: seq<seq<nat>>, live: seq<Slot>, name: seq<byte>, node: Fat32Node)
    requires To83(name).Some? && node.fs == dir.fs && !node.isDir && node.chain == []
    requires node.DecodedFrom(node.NewEntry(name))
    requires DirOk(dir, chains + [[]]) && |live| == |chains| && Live(dir.Slots()) == live + [node.NewEntry(name)]
    ensures Opened(dir, chains + [[]], |chains|, node)
  {
    hide OnlyMine, DirSlots, Live, Decode, LeDecode, Compact, WfDirectory, Listing, To83;
    BoundOpened(dir, chains + [[]], |chains|, node);
  }

  /** The facts of a successful creation, put together. */
  lemma CreateSound(b: Bpb, v: View, v': View, ds: seq<nat>, ds': seq<nat>, chains: seq<seq<nat>>, name: seq<byte>,
                    entry: Slot, par: nat, off: nat)
    requires WfDirectory(b, v, ds, chains) && Compact(DirSlots(v.data, ds))
    requires Findable(name) && To83(name).Some?
    requires entry.rec == NewRecord(To83(name).value)
    requires FirstMatch(Named(name), Live(DirSlots(v.data, ds))).None?
    requires Shape(b, v') && IsChain(v'.fat[0], ds') && Tracked(v, v', ds, ds', par, off)
    requires 0 != par < |v.data| ==> v'.data[par] == v.data[par]
    requires Inserted(DirSlots(v.data, ds), DirSlots(v'.data, ds'), entry, ClusterBytes(b))
    ensures WfDirectory(b, v', ds', chains + [[]]) && Compact(DirSlots(v'.data, ds'))
    ensures FileAdded(b, v, v', ds, ds', chains, name)
    ensures RecordFits(b, v', entry, [])
    ensures Live(DirSlots(v'.data, ds')) == Live(DirSlots(v.data, ds)) + [entry]
    ensures |Live(DirSlots(v.data, ds))| == |chains|
    ensures FirstMatch(Named(name), Live(DirSlots(v'.data, ds'))) == Some(entry)
    ensures entry.cluster < |v'.data| && entry.off + 32 <= |v'.data[entry.cluster]|
    ensures Record(v'.data[entry.cluster], entry.off) == entry.rec
  {
    hide DirSlots, Live, Decode, OnlyMine, Inserted, Clean, To83, NewRecord, Named, FirstMatch, RecordFits, Record;
    NoParentRecord(v, v', ds, ds', par, off);
    FirstByte(name);
    CreatedLive(b, v, v', ds, ds', entry);
    CreateRefines(b, v, v', ds, ds', chains, entry);
    CleanDecodes(name);
    CreatedIsFound(DirSlots(v.data, ds), DirSlots(v'.data, ds'), name, entry, ClusterBytes(b));
    if DistinctNames(Listing(b, v, ds, chains)) {
      CreateKeepsNames(b, v, ds, chains, name);
    }
    ListingPlaces(b, v', ds');
    assert Live(DirSlots(v'.data, ds'))[|Live(DirSlots(v.data, ds))|] == entry;
  }

  lemma FirstByte(name: seq<byte>)
    requires Findable(name) && To83(name).Some?
    ensures To83(name).value[0] != 0 && To83(name).value[0] != DELETED
  {
    PackedFirst(name);
  }

  /** The contents of element i of the abstract list are now c; all others stayed. */
  ghost predicate FileWritten(b: Bpb, v: View, v': View, ds: seq<nat>, chains: seq<seq<nat>>, chains': seq<seq<nat>>,
                              i: nat, c: seq<byte>) {
    && WfDirectory(b, v, ds, chains) && WfDirectory(b, v', ds, chains') && i < |chains| == |chains'|
    && var l, l' := Listing(b, v, ds, chains), Listing(b, v', ds, chains');
       l' == l[i := l[i].(contents := c)]
  }

  /** The part of the spliced contents that lies inside the old file. */
  function Clip(s: seq<byte>, offset: nat, data: seq<byte>): (r: seq<byte>)
    ensures |r| == |s|
  {
    Splice(s, offset, data)[..|s|]
  }

  /** `node` holds what the record of file i of the directory says. */
  ghost predicate Bound(dir: Fat32Node, chains: seq<seq<nat>>, i: nat, node: Fat32Node)
    reads dir, node, dir.fs, dir.fs.disk
  {
    && DirOk(dir, chains) && i < |chains| && node.fs == dir.fs && !node.isDir
    && node.chain == chains[i] && node.DecodedFrom(Live(dir.Slots())[i])
  }

  /** `node` is open for file i of the directory: it agrees with its record and denotes the
      listed contents. */
  ghost predicate Opened(dir: Fat32Node, chains: seq<seq<nat>>, i: nat, node: Fat32Node)
    reads dir, node, dir.fs, dir.fs.disk, node.fs, node.fs.disk
  {
    && Bound(dir, chains, i, node) && node.parentCluster != 0
    && node.Valid() && node.RecordAgrees() && node.SlackZero()
    && node.Contents() == Listing(dir.fs.bpb, dir.fs.view, dir.chain, chains)[i].contents
  }

  lemma BoundOpened(dir: Fat32Node, chains: seq<seq<nat>>, i: nat, node: Fat32Node)
    requires Bound(dir, chains, i, node)
    ensures Opened(dir, chains, i, node)
  {
    hide OnlyMine, DirSlots, Live, Decode, LeDecode, Compact, WfDirectory, Listing, ChainBytes;
    OpenedNode(node, dir.chain, chains, i);
  }

  /** Element i is the first record called `name`. */
  ghost predicate FirstNamed(live: seq<Slot>, name: seq<byte>, i: nat) {
    i < |live| && FirstMatch(Named(name), live) == Some(live[i])
  }

  /** Opens the first file called `name`. */
  method OpenFile(dir: Fat32Node, name: seq<byte>, ghost chains: seq<seq<nat>>)
    returns (r: Option<Fat32Node>, ghost i: nat)
    requires DirOk(dir, chains)
    modifies dir.fs.disk`faulted
    ensures DirOk(dir, chains)
    ensures r.Some? ==>
      && fresh(r.value) && Opened(dir, chains, i, r.value)
      && FirstNamed(Live(dir.Slots()), name, i) && !IsDirectory(Live(dir.Slots())[i].rec)
    ensures r.None? ==>
      || dir.fs.disk.faulted || FirstMatch(Named(name), Live(dir.Slots())).None?
      || (FirstNamed(Live(dir.Slots()), name, i) && IsDirectory(Live(dir.Slots())[i].rec))
  {
    hide OnlyMine, DirSlots, Decode, Compact, Listing, ChainBytes;
    i := 0;
    r := dir.FindDir(name);
    if r.Some? {
      i := MatchedFile(dir.fs.bpb, dir.fs.view, dir.chain, chains, name);
      if r.value.isDir {
        r := None;
      } else {
        DenotedChain(r.value, dir.chain, chains, i);
        BoundOpened(dir, chains, i, r.value);
      }
    }
  }

  /** The chain and the free clusters together hold `end` bytes. */
  ghost predicate FitsVolume(b: Bpb, v: View, chain: seq<nat>, end: nat) {
    end <= BlockOff(|chain| + FreeCount(v), ClusterBytes(b))
  }

  /** A write through an opened node splices its file and nothing else, and leaves the node
      open: it agrees with its record, so reopening the file yields the same bytes. A write
      that stops midway leaves all other files alone, too; stopped by a full volume, the
      node agrees with its record and denotes the clipped contents, and it is still open
      exactly if what was stored behind the end of the file is zero. */
  method WriteOpened(dir: Fat32Node, node: Fat32Node, offset: nat, data: seq<byte>, ghost chains: seq<seq<nat>>,
                     ghost i: nat)
    returns (r: Option<nat>)
    requires Opened(dir, chains, i, node)
    modifies dir.fs.disk, dir.fs`view, node`chain, node`firstCluster, node`size
    ensures dir.Valid() && Compact(dir.Slots()) && node.Valid() && i < |chains|
    ensures r.Some? ==>
      && data != [] && r.value == |data| && node.RecordAgrees()
      && node.Contents() == Truncated(Splice(old(node.Contents()), offset, data))
      && (offset + |data| < 0x1_0000_0000 ==> node.SlackZero())
    ensures r.None? ==> data == [] || dir.fs.disk.faulted || dir.fs.Full()
    ensures r.None? && data != [] && !dir.fs.disk.faulted ==>
      && node.RecordAgrees() && node.Contents() == Clip(old(node.Contents()), offset, data)
      && (node.SlackZero() <==> ZeroPast(offset, data, old(node.size), |node.ChainData()|))
    ensures (r.Some? || (data != [] && !dir.fs.disk.faulted)) && node.SlackZero() ==>
      && Opened(dir, chains[i := node.chain], i, node)
      && FileWritten(dir.fs.bpb, old(dir.fs.view), dir.fs.view, dir.chain, chains, chains[i := node.chain], i,
                     node.Contents())
    ensures data == [] ==> r.None? && dir.fs.view == old(dir.fs.view) && Opened(dir, chains, i, node)
    ensures data != [] && !dir.fs.disk.faulted ==>
      (r.Some? <==> FitsVolume(dir.fs.bpb, old(dir.fs.view), old(node.chain), offset + |data|))
    ensures Isolated(dir.fs.bpb, old(dir.fs.view), dir.fs.view, dir.chain, chains, i)
  {
    hide OnlyMine, DirSlots, Live, Decode, Compact, Listing, FileWritten, ChainBytes, Splice, Isolated, SlotsKept,
      Truncated, KeptOrWritten, StoredClipped, ZeroPast;
    ghost var b, v, ds := dir.fs.bpb, dir.fs.view, dir.chain;
    r := node.Write(offset, data);
    WriteIsolates(b, v, dir.fs.view, ds, chains, i, node.chain);
    DirectoryNode(b, v, dir.fs.view, ds, chains, i, node.chain, dir.firstCluster, dir.size, dir.parentCluster,
                  dir.dirEntryOffset);
    if (r.Some? || (data != [] && !dir.fs.disk.faulted)) && node.SlackZero() {
      NodeFacts(node);
      WriteSound(b, v, dir.fs.view, ds, chains, i, node.chain, node.firstCluster, node.size, node.Contents());
      StillBound(dir, v, chains, i, node);
      BoundOpened(dir, chains[i := node.chain], i, node);
    } else if data == [] {
      BoundOpened(dir, chains, i, node);
    }
  }

  /** After a completed write the record of file i still has its place and says what the
      node caches. */
  lemma StillBound(dir: Fat32Node, v: View, chains: seq<seq<nat>>, i: nat, node: Fat32Node)
    requires WfDirectory(dir.fs.bpb, v, dir.chain, chains) && i < |chains|
    requires DirOk(dir, chains[i := node.chain]) && node.fs == dir.fs && !node.isDir && node.Valid()
    requires node.RecordAgrees()
    requires var e := Live(DirSlots(v.data, dir.chain))[i];
      && node.parentCluster == e.cluster != 0 && node.dirEntryOffset == e.off && !IsDirectory(e.rec)
      && Tracked(v, dir.fs.view, chains[i], node.chain, e.cluster, e.off)
    ensures Bound(dir, chains[i := node.chain], i, node)
  {
    hide OnlyMine, DirSlots, Live, Decode, Compact, ChainBytes, LeDecode;
    var b, v', ds := dir.fs.bpb, dir.fs.view, dir.chain;
    var e := Live(DirSlots(v.data, ds))[i];
    ListingPlaces(b, v, ds);
    ListingPlaces(b, v', ds);
    assert RecordFits(b, v, e, chains[i]) && Disjoint(chains[i], ds);
    DirectoryUntouched(b, v, v', chains[i], e.cluster, e.off, ds);
    var e' := Live(DirSlots(v'.data, ds))[i];
    assert SlotKept(e, e', e.cluster, e.off);
    assert e'.rec == Record(v'.data[e.cluster], e.off);
    assert e'.rec[0x0B] == e.rec[0x0B];
  }

  /** A read through an opened node: the slice of the listed contents. */
  method ReadOpened(dir: Fat32Node, node: Fat32Node, at: nat, len: nat, ghost chains: seq<seq<nat>>, ghost i: nat)
    returns (r: Option<seq<byte>>)
    requires Opened(dir, chains, i, node)
    modifies dir.fs.disk`faulted
    ensures Opened(dir, chains, i, node)
    ensures r.Some? ==> r.value == Slice(Listing(dir.fs.bpb, dir.fs.view, dir.chain, chains)[i].contents, at, len)
    ensures r.None? ==> dir.fs.disk.faulted
  {
    hide OnlyMine, DirSlots, Live, Compact, WfDirectory, Listing, Decode, LeDecode;
    r := node.Read(at, len);
    BoundOpened(dir, chains, i, node);
  }

  /** Up to `len` bytes from `at` on, as many as there are. */
  function Slice(s: seq<byte>, at: nat, len: nat): seq<byte> {
    if at >= |s| then [] else s[at..if at + len < |s| then at + len else |s|]
  }

  lemma MatchedFile(b: Bpb, v: View, ds: seq<nat>, chains: seq<seq<nat>>, name: seq<byte>) returns (i: nat)
    requires WfDirectory(b, v, ds, chains) && FirstMatch(Named(name), Live(DirSlots(v.data, ds))).Some?
    ensures i < |chains| && FirstMatch(Named(name), Live(DirSlots(v.data, ds))) == Some(Live(DirSlots(v.data, ds))[i])
  {
    var live := Live(DirSlots(v.data, ds));
    var e := FirstMatch(Named(name), live).value;
    i :| 0 <= i < |live| && live[i] == e;
  }

  /** A node opened from a record of a sound directory is sound, agrees with the record
      and denotes the listed contents. */
  lemma OpenedNode(node: Fat32Node, ds: seq<nat>, chains: seq<seq<nat>>, i: nat)
    requires node.fs.Valid() && WfDirectory(node.fs.bpb, node.fs.view, ds, chains) && i < |chains|
    requires node.DecodedFrom(Live(DirSlots(node.fs.view.data, ds))[i]) && node.chain == chains[i] && !node.isDir
    ensures node.Valid() && node.RecordAgrees() && node.SlackZero() && node.parentCluster != 0
    ensures node.Contents() == Listing(node.fs.bpb, node.fs.view, ds, chains)[i].contents
  {
    hide OnlyMine, DirSlots, Live, Decode, LeDecode;
    var e := Live(DirSlots(node.fs.view.data, ds))[i];
    assert RecordFits(node.fs.bpb, node.fs.view, e, chains[i]);
    ListingPlaces(node.fs.bpb, node.fs.view, ds);
  }

  /** A node decoded from a record of a sound directory denotes that file's chain. */
  lemma DenotedChain(node: Fat32Node, ds: seq<nat>, chains: seq<seq<nat>>, i: nat)
    requires node.fs.Valid() && WfDirectory(node.fs.bpb, node.fs.view, ds, chains) && i < |chains|
    requires node.DecodedFrom(Live(DirSlots(node.fs.view.data, ds))[i]) && node.DenotesChain() && !node.isDir
    ensures node.chain == chains[i]
  {
    hide OnlyMine, DirSlots, Live, Decode, LeDecode, ChainBytes;
    assert RecordFits(node.fs.bpb, node.fs.view, Live(DirSlots(node.fs.view.data, ds))[i], chains[i]);
  }

  lemma NodeFacts(node: Fat32Node)
    requires node.Valid() && node.RecordAgrees() && node.SlackZero() && node.parentCluster != 0
    ensures ZeroBeyond(node.fs.view.data, node.chain, node.size)
    ensures node.Contents() == ChainBytes(node.fs.view.data, node.chain)[..node.size]
    ensures node.parentCluster < |node.fs.view.data|
    ensures node.dirEntryOffset + 32 <= |node.fs.view.data[node.parentCluster]|
    ensures FirstClusterOf(Record(node.fs.view.data[node.parentCluster], node.dirEntryOffset)) == node.firstCluster
    ensures EntrySize(Record(node.fs.view.data[node.parentCluster], node.dirEntryOffset)) == node.size
  {
    ChainBytesLength(node.fs.view.data, node.chain, ClusterBytes(node.fs.bpb));
  }

  /** The facts of a write that left zeroes behind the end of the file, put together. */
  lemma WriteSound(b: Bpb, v: View, v': View, ds: seq<nat>, chains: seq<seq<nat>>, i: nat, own': seq<nat>,
                   first: nat, size: nat, c: seq<byte>)
    requires WfDirectory(b, v, ds, chains) && i < |chains| && Shape(b, v')
    requires var e := Live(DirSlots(v.data, ds))[i];
      && !IsDirectory(e.rec) && Tracked(v, v', chains[i], own', e.cluster, e.off)
      && NodeOk(b, v', own', first, size, e.cluster, e.off) && ZeroBeyond(v'.data, own', size)
      && e.cluster < |v'.data| && e.off + 32 <= |v'.data[e.cluster]|
      && FirstClusterOf(Record(v'.data[e.cluster], e.off)) == first
      && EntrySize(Record(v'.data[e.cluster], e.off)) == size
    requires ChainBytes(v'.data, own')[..size] == c
    ensures FileWritten(b, v, v', ds, chains, chains[i := own'], i, c)
    ensures WfDirectory(b, v', ds, chains[i := own'])
  {
    hide OnlyMine, DirSlots, Live, Decode, LeDecode, ChainBytes;
    assert Written(b, v, v', ds, chains, i, own');
    WriteRefines(b, v, v', ds, chains, i, own');
    var l, l' := Listing(b, v, ds, chains), Listing(b, v', ds, chains[i := own']);
    assert l'[i] == l[i].(contents := c);
  }

  /** The directory node itself stays sound, and the directory compact. */
  lemma DirectoryNode(b: Bpb, v: View, v': View, ds: seq<nat>, chains: seq<seq<nat>>, i: nat, own': seq<nat>,
                      first: nat, size: nat, par: nat, off: nat)
    requires WfDirectory(b, v, ds, chains) && i < |chains| && Shape(b, v') && Compact(DirSlots(v.data, ds))
    requires var e := Live(DirSlots(v.data, ds))[i]; Tracked(v, v', chains[i], own', e.cluster, e.off)
    requires first >= 2 && NodeOk(b, v, ds, first, size, par, off) && par !in chains[i]
    ensures NodeOk(b, v', ds, first, size, par, off) && par !in own'
    ensures Compact(DirSlots(v'.data, ds))
  {
    hide DirSlots, Live, Decode, LeDecode, ChainBytes;
    var e := Live(DirSlots(v.data, ds))[i];
    ListingPlaces(b, v, ds);
    assert Disjoint(chains[i], ds);
    DirectoryUntouched(b, v, v', chains[i], e.cluster, e.off, ds);
    SlotsOfDirectory(b, v, v', ds, chains[i], e.cluster, e.off, e);
    if par != 0 {
      assert v'.fat[0][par] == v.fat[0][par];
    }
  }

  lemma SlotsOfDirectory(b: Bpb, v: View, v': View, ds: seq<nat>, own: seq<nat>, par: nat, off: nat, e: Slot)
    requires Shape(b, v) && Shape(b, v') && b.numFats >= 1 && Entries(b) <= EOC_MIN && off % 32 == 0
    requires OnlyMine(v, v', own, par, off) && IsChain(v.fat[0], ds) && Disjoint(ds, own)
    requires Compact(DirSlots(v.data, ds)) && e in Live(DirSlots(v.data, ds)) && e.cluster == par && e.off == off
    ensures Compact(DirSlots(v'.data, ds))
  {
    var s, s' := DirSlots(v.data, ds), DirSlots(v'.data, ds);
    SlotsUntouched(b, v, v', own, par, off, ds);
    LiveSubset(s);
    LiveNotEnd(s);
    ChainDistinct(v.fat[0], ds);
    PlacesDistinct(v.data, ds, ClusterBytes(b));
    var k0 :| 0 <= k0 < |s| && s[k0] == e;
    assert forall k :: 0 <= k < |s| && s[k].cluster == par && s[k].off == off ==> k == k0;
    CompactKept(s, s', par, off);
  }

  lemma {:induction false} LiveNotEnd(s: seq<Slot>)
    requires WfSlots(s)
    ensures forall e :: e in Live(s) ==> |e.rec| == RECORD && e.rec[0] != 0
  {
    if s == [] || s[0].rec[0] == 0 {
    } else {
      LiveNotEnd(s[1..]);
    }
  }
}
