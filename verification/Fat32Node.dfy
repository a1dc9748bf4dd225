/** A file or directory node: cached first cluster and size, byte reads and writes. */
module FatNode {
  import opened Bytes
  import opened FatLayout
  import opened FatChains
  import opened Fat32
  import opened FileSpec
  import opened DirRecord
  import opened DirSpec
  import opened ShortNames

  /** Cached node state that fits the volume. `chain` is the cluster chain behind `first`. */
  ghost predicate NodeOk(b: Bpb, v: View, chain: seq<nat>, first: nat, size: nat, par: nat, off: nat)
    requires Shape(b, v) && b.numFats >= 1
  {
    && (first < 2 ==> chain == [] && size == 0)
    && (first >= 2 ==> IsChain(v.fat[0], chain) && chain[0] == first)
    && size <= |chain| * ClusterBytes(b) && size < 0x1_0000_0000
    && (par != 0 ==> IsCluster(b, par) && !Mine(v, chain, par) && off + RECORD <= ClusterBytes(b))
  }

  /** Going from v0 (chain `own0`) to v (chain `chain`) touched only clusters that were
      the node's own or free, and the node fields of its record. */
  ghost predicate Tracked(v0: View, v: View, own0: seq<nat>, chain: seq<nat>, par: nat, off: nat) {
    && |v0.fat| > 0
    && OnlyMine(v0, v, own0, par, off)
    && (forall i {:trigger chain[i]} :: 0 <= i < |chain| ==> Mine(v0, own0, chain[i]))
    && (par != 0 ==> !Mine(v0, own0, par))
  }

  lemma ParentApart(b: Bpb, v0: View, v: View, own0: seq<nat>, chain: seq<nat>, par: nat, off: nat)
    requires Shape(b, v) && b.numFats >= 1
    requires Tracked(v0, v, own0, chain, par, off) && IsCluster(b, par)
    ensures !Mine(v, chain, par)
  {
    assert |v.fat| == |v0.fat| && |v.fat[0]| == Entries(b);
    assert |v.fat[0]| == |v0.fat[0]|;
    assert v.fat[0][par] == v0.fat[0][par];
  }

  /** An allocation behind the last cluster, finished or cut off, keeps the node sound
      for whichever of the two chains the first FAT copy now shows. */
  lemma GrowTracked(b: Bpb, v0: View, v: View, v': View, own0: seq<nat>, chain: seq<nat>, chain': seq<nat>, c: nat,
                    first: nat, size: nat, par: nat, off: nat)
    requires Shape(b, v) && Shape(b, v') && b.numFats >= 1
    requires NodeOk(b, v, chain, first, size, par, off) && Tracked(v0, v, own0, chain, par, off)
    requires chain != [] && AllocReach(v, v', Some(chain[|chain| - 1]), c)
    requires chain' == chain || chain' == chain + [c]
    requires IsChain(v'.fat[0], chain')
    ensures NodeOk(b, v', chain', first, size, par, off) && Tracked(v0, v', own0, chain', par, off)
  {
    AllocMine(v0, v, v', own0, par, off, Some(chain[|chain| - 1]), c);
    MulMono(|chain|, |chain'|, ClusterBytes(b));
    assert Tracked(v0, v', own0, chain', par, off);
    if par != 0 {
      ParentApart(b, v0, v', own0, chain', par, off);
    }
  }

  lemma GrowDone(b: Bpb, v0: View, v: View, v': View, own0: seq<nat>, chain: seq<nat>, c: nat,
                 first: nat, size: nat, par: nat, off: nat)
    requires Shape(b, v) && Shape(b, v') && b.numFats >= 1 && Entries(b) <= EOC_MIN
    requires NodeOk(b, v, chain, first, size, par, off) && Tracked(v0, v, own0, chain, par, off)
    requires chain != [] && AllocDone(v, v', Some(chain[|chain| - 1]), c, ClusterBytes(b))
    ensures NodeOk(b, v', chain + [c], first, size, par, off) && Tracked(v0, v', own0, chain + [c], par, off)
    ensures ChainBytes(v'.data, chain + [c]) == Pad(ChainBytes(v.data, chain), (|chain| + 1) * ClusterBytes(b))
    ensures c !in chain && (par != 0 ==> v'.data[par] == v.data[par])
  {
    DoneIsReach(v, v', Some(chain[|chain| - 1]), c, ClusterBytes(b));
    AppendZeroed(v, v', chain, c, ClusterBytes(b));
    GrowTracked(b, v0, v, v', own0, chain, chain + [c], c, first, size, par, off);
  }

  /** What an allocation behind the end of a chain can come to when it fails. */
  ghost predicate GrowthCut(v: View, v': View, chain: seq<nat>, chain': seq<nat>, cb: nat) {
    || (v' == v && chain' == chain)
    || (chain != [] && exists c: nat {:trigger AllocCut(v, v', Some(chain[|chain| - 1]), c, cb)} ::
          AllocCut(v, v', Some(chain[|chain| - 1]), c, cb) && (chain' == chain || chain' == chain + [c]))
  }

  lemma GrowCut(b: Bpb, v0: View, v: View, v': View, own0: seq<nat>, chain: seq<nat>,
                first: nat, size: nat, par: nat, off: nat) returns (chain': seq<nat>)
    requires Shape(b, v) && Shape(b, v') && b.numFats >= 1 && Entries(b) <= EOC_MIN
    requires NodeOk(b, v, chain, first, size, par, off) && Tracked(v0, v, own0, chain, par, off)
    requires chain != []
    requires v' == v || exists c :: IsCluster(b, c) && AllocCut(v, v', Some(chain[|chain| - 1]), c, ClusterBytes(b))
    ensures NodeOk(b, v', chain', first, size, par, off) && Tracked(v0, v', own0, chain', par, off)
    ensures GrowthCut(v, v', chain, chain', ClusterBytes(b)) && (par != 0 ==> v'.data[par] == v.data[par])
  {
    hide Tracked, OnlyMine, AllocStage, Torn, LowestFree, Marked, LinkedAfter;
    if v' == v {
      return chain;
    }
    var c: nat :| IsCluster(b, c) && AllocCut(v, v', Some(chain[|chain| - 1]), c, ClusterBytes(b));
    CutOffChain(v, v', chain, c);
    chain' := if IsChain(v'.fat[0], chain) then chain else chain + [c];
    GrowTracked(b, v0, v, v', own0, chain, chain', c, first, size, par, off);
    ParentKept(b, v, v', Some(chain[|chain| - 1]), chain, c, par);
  }

  /** A failed attempt to make a chain longer keeps its bytes in front. */
  lemma GrowthPrefix(v: View, v': View, chain: seq<nat>, chain': seq<nat>, cb: nat)
    requires |v.fat| > 0 && IsChain(v.fat[0], chain) && GrowthCut(v, v', chain, chain', cb)
    requires forall x {:trigger chain[x]} :: 0 <= x < |chain| ==> chain[x] < |v.data|
    requires forall x {:trigger chain'[x]} :: 0 <= x < |chain'| ==> chain'[x] < |v'.data|
    ensures ChainBytes(v.data, chain) <= ChainBytes(v'.data, chain') && |chain| <= |chain'| <= |chain| + 1
  {
    hide ChainBytes, Torn, AllocStage, IsChain, LowestFree;
    if !(v' == v && chain' == chain) {
      var c: nat :| AllocCut(v, v', Some(chain[|chain| - 1]), c, cb) && (chain' == chain || chain' == chain + [c]);
      FreeNotInChain(v.fat[0], chain, c);
      ChainBytesFrame(v.data, v'.data, chain);
      if chain' != chain {
        ChainBytesConcat(v'.data, chain, [c]);
      }
    }
  }

  /** The first cluster fits the record's field. */
  lemma FirstBound(b: Bpb, v: View, chain: seq<nat>, first: nat, size: nat, par: nat, off: nat)
    requires Shape(b, v) && b.numFats >= 1 && Entries(b) <= EOC_MIN && NodeOk(b, v, chain, first, size, par, off)
    ensures first < 0x1_0000_0000
  {
  }

  lemma LastInUse(fat: seq<nat>, chain: seq<nat>)
    requires IsChain(fat, chain)
    ensures !IsFree(fat, chain[|chain| - 1])
  {
  }

  lemma ParentKept(b: Bpb, v: View, v': View, prev: Option<nat>, chain: seq<nat>, c: nat, par: nat)
    requires Shape(b, v) && b.numFats >= 1 && AllocReach(v, v', prev, c)
    requires par != 0 ==> IsCluster(b, par) && !Mine(v, chain, par)
    ensures par != 0 ==> v'.data[par] == v.data[par]
  {
  }

  /** The first cluster of an empty file. */
  lemma FirstDone(b: Bpb, v0: View, v: View, v': View, own0: seq<nat>, c: nat, par: nat, off: nat)
    requires Shape(b, v) && Shape(b, v') && b.numFats >= 1
    requires Tracked(v0, v, own0, [], par, off)
    requires par != 0 ==> IsCluster(b, par) && off + RECORD <= ClusterBytes(b)
    requires AllocDone(v, v', None, c, ClusterBytes(b)) && IsCluster(b, c)
    ensures NodeOk(b, v', [c], c, 0, par, off) && Tracked(v0, v', own0, [c], par, off)
    ensures ChainBytes(v'.data, [c]) == Zeros(ClusterBytes(b))
    ensures par != 0 ==> v'.data[par] == v.data[par]
  {
    DoneIsReach(v, v', None, c, ClusterBytes(b));
    AllocMine(v0, v, v', own0, par, off, None, c);
    assert v'.fat[0] == Marked(v.fat[0], c);
    assert Next(v'.fat[0], c) == EOC;
    assert ChainBytes(v'.data, [c]) == v'.data[c] + ChainBytes(v'.data, []);
    assert Tracked(v0, v', own0, [c], par, off);
    if par != 0 {
      ParentApart(b, v0, v', own0, [c], par, off);
    }
  }

  /** Rewriting the node fields of the record leaves the node and its bytes alone. */
  lemma RecordTracked(b: Bpb, v0: View, v: View, d: seq<byte>, own0: seq<nat>, chain: seq<nat>,
                      first: nat, size: nat, par: nat, off: nat)
    requires Shape(b, v) && b.numFats >= 1
    requires NodeOk(b, v, chain, first, size, par, off) && Tracked(v0, v, own0, chain, par, off)
    requires par != 0 && RecordFrame(v.data[par], d, off)
    ensures var v' := WithCluster(v, par, d);
      && Shape(b, v') && NodeOk(b, v', chain, first, size, par, off) && Tracked(v0, v', own0, chain, par, off)
      && (forall i {:trigger chain[i]} :: 0 <= i < |chain| ==> chain[i] < |v.data|)
      && ChainBytes(v'.data, chain) == ChainBytes(v.data, chain)
  {
    RecordMine(v0, v, own0, par, off, d);
    assert forall i :: 0 <= i < |chain| ==> chain[i] != par;
    ChainBytesFrame(v.data, WithCluster(v, par, d).data, chain);
  }

  /** Storing a piece of data in the i-th cluster. */
  lemma PieceTracked(b: Bpb, v0: View, v: View, d: seq<byte>, own0: seq<nat>, chain: seq<nat>, i: nat,
                     first: nat, size: nat, par: nat, off: nat)
    requires Shape(b, v) && b.numFats >= 1 && i < |chain|
    requires NodeOk(b, v, chain, first, size, par, off) && Tracked(v0, v, own0, chain, par, off)
    requires |d| == ClusterBytes(b)
    ensures chain[i] < |v.data|
    ensures var v' := WithCluster(v, chain[i], d);
      && NodeOk(b, v', chain, first, size, par, off) && Tracked(v0, v', own0, chain, par, off)
      && (par != 0 ==> v'.data[par] == v.data[par])
  {
    ClusterMine(v0, v, own0, par, off, chain[i], d);
  }

  class Fat32Node {
    const fs: Fat32Fs
    const isDir: bool
    /** Cluster that holds this node's record, 0 if it has none. */
    const parentCluster: nat
    const dirEntryOffset: nat
    var firstCluster: nat
    var size: nat
    ghost var chain: seq<nat>

    ghost predicate Valid()
      reads this, fs, fs.disk
    {
      fs.Valid() && NodeOk(fs.bpb, fs.view, chain, firstCluster, size, parentCluster, dirEntryOffset)
    }

    /** All bytes of the chain, the tail beyond `size` included. */
    ghost function ChainData(): seq<byte>
      requires Valid()
      reads this, fs, fs.disk
    {
      ChainBytes(fs.view.data, chain)
    }

    /** The abstract file. */
    ghost function Contents(): (s: seq<byte>)
      requires Valid()
      reads this, fs, fs.disk
      ensures |s| == size
    {
      ChainBytesLength(fs.view.data, chain, ClusterBytes(fs.bpb));
      ChainBytes(fs.view.data, chain)[..size]
    }

    ghost predicate SlackZero()
      requires Valid()
      reads this, fs, fs.disk
    {
      ChainBytesLength(fs.view.data, chain, ClusterBytes(fs.bpb));
      AllZero(ChainBytes(fs.view.data, chain)[size..])
    }

    /** The record on disk says what the node caches. */
    ghost predicate RecordAgrees()
      requires Valid()
      reads this, fs, fs.disk
    {
      parentCluster != 0 ==>
        && FirstClusterOf(Record(fs.view.data[parentCluster], dirEntryOffset)) == firstCluster
        && EntrySize(Record(fs.view.data[parentCluster], dirEntryOffset)) == size
    }

    /** The directory cluster with this node's record. */
    ghost function ParentData(): seq<byte>
      reads this, fs
    {
      if 0 < parentCluster < |fs.view.data| then fs.view.data[parentCluster] else []
    }

    /** Since the state `v0` only this node's clusters (chain `own0` then), clusters
        free then and the node fields of its record have changed. */
    ghost predicate Track(v0: View, own0: seq<nat>)
      reads this, fs
    {
      Tracked(v0, fs.view, own0, chain, parentCluster, dirEntryOffset)
    }

    constructor (fs: Fat32Fs, first: nat, size: nat, isDir: bool, parent: nat, off: nat, ghost chain: seq<nat>)
      ensures this.fs == fs && firstCluster == first && this.size == size && this.isDir == isDir
      ensures parentCluster == parent && dirEntryOffset == off && this.chain == chain
    {
      this.fs := fs;
      this.isDir := isDir;
      parentCluster := parent;
      dirEntryOffset := off;
      firstCluster := first;
      this.size := size;
      this.chain := chain;
    }

    // ---- reading ----

    /** Up to `len` bytes from `offset`, clipped at the end of the file. */
    method Read(offset: nat, len: nat) returns (r: Option<seq<byte>>)
      requires Valid()
      modifies fs.disk`faulted
      ensures r.Some? ==>
        && !isDir && fs.disk.faulted == old(fs.disk.faulted)
        && r.value == if offset >= size then [] else Contents()[offset..Min(offset + len, size)]
      ensures r.None? ==> isDir || fs.disk.faulted
    {
      if isDir {
        return None;
      }
      var total := size;
      if offset >= total {
        return Some([]);
      }
      var want := Min(len, total - offset);
      var data := fs.ReadChainInto(firstCluster, offset + want, chain);
      if data.None? {
        return None;
      }
      var end := Min(|data.value|, offset + want);
      if offset >= end {
        return Some([]);
      }
      ghost var s := ChainData();
      SubSlice(s, 0, offset + want, offset, end);
      SubSlice(s, 0, size, offset, end);
      return Some(data.value[offset..end]);
    }

    // ---- writing ----

    /** From the i-th cluster of the chain to the next one, appending a zeroed cluster
        if there is none. */
    method Advance(cluster: nat, ghost i: nat, ghost v0: View, ghost own0: seq<nat>) returns (r: Option<nat>)
      requires Valid() && Track(v0, own0)
      requires i < |chain| && cluster == chain[i]
      modifies fs.disk, fs`view, this`chain
      ensures Valid() && Track(v0, own0)
      ensures r.Some? ==>
        && i + 1 < |chain| && r.value == chain[i + 1]
        && |chain| == Max(old(|chain|), i + 2) && fs.disk.faulted == old(fs.disk.faulted)
        && ChainData() == Pad(old(ChainData()), |chain| * ClusterBytes(fs.bpb))
        && ParentData() == old(ParentData())
      ensures old(ChainData()) <= ChainData() && old(|chain|) <= |chain| <= Max(old(|chain|), i + 2)
      ensures r.Some? || !fs.disk.faulted ==> |chain| + fs.Room() == old(|chain| + fs.Room())
      ensures r.None? ==>
        || fs.disk.faulted
        || (fs.Full() && fs.view == old(fs.view) && chain == old(chain) && i + 1 == |chain|)
    {
      hide Linked, Tracked, OnlyMine, ChainBytes, GrowthCut;
      OwnClusters();
      var next := fs.NextCluster(cluster);
      if next.None? {
        return None;
      }
      ChainBytesLength(fs.view.data, chain, ClusterBytes(fs.bpb));
      if next.value < EOC_MIN {
        assert i < |chain| - 1;
        return next;
      }
      assert i == |chain| - 1;
      r := Grow(cluster, v0, own0);
    }

    /** Allocates behind the last cluster of the chain. */
    method Grow(last: nat, ghost v0: View, ghost own0: seq<nat>) returns (r: Option<nat>)
      requires Valid() && Track(v0, own0)
      requires chain != [] && last == chain[|chain| - 1]
      modifies fs.disk, fs`view, this`chain
      ensures Valid() && Track(v0, own0)
      ensures r.Some? ==>
        && chain == old(chain) + [r.value] && fs.disk.faulted == old(fs.disk.faulted)
        && r.value !in old(chain) && r.value < |old(fs.view.data)| == |fs.view.data|
        && fs.view.data == old(fs.view.data)[r.value := Zeros(ClusterBytes(fs.bpb))]
        && ChainData() == Pad(old(ChainData()), |chain| * ClusterBytes(fs.bpb))
      ensures ParentData() == old(ParentData()) && old(chain) <= chain && old(ChainData()) <= ChainData()
      ensures r.Some? || !fs.disk.faulted ==> |chain| + fs.Room() == old(|chain| + fs.Room())
      ensures r.None? ==>
        && (fs.disk.faulted || (fs.Full() && fs.view == old(fs.view) && chain == old(chain)))
        && |chain| <= old(|chain|) + 1 && GrowthCut(old(fs.view), fs.view, old(chain), chain, ClusterBytes(fs.bpb))
    {
      hide Linked, Tracked, OnlyMine, AllocStage, AllocReach, AllocCut, ChainBytes, IsChain, FreeClusters, Pad, NodeOk;
      OwnClusters();
      LastInUse(fs.view.fat[0], chain);
      ghost var v := fs.view;
      var a := fs.AllocCluster(Some(last));
      fs.Shaped();
      match a {
        case Allocated(c) =>
          GrowDone(fs.bpb, v0, v, fs.view, own0, chain, c, firstCluster, size, parentCluster, dirEntryOffset);
          chain := chain + [c];
          PadLonger(old(ChainData()), |chain| * ClusterBytes(fs.bpb));
          return Some(c);
        case DiskFull =>
          return None;
        case IoError =>
          chain := GrowCut(fs.bpb, v0, v, fs.view, own0, chain, firstCluster, size, parentCluster, dirEntryOffset);
          OwnClusters();
          GrowthPrefix(v, fs.view, old(chain), chain, ClusterBytes(fs.bpb));
          return None;
      }
    }

    /** Writes back the cluster with this node's record, node fields changed. */
    method PutRecord(buf: seq<byte>, ghost v0: View, ghost own0: seq<nat>) returns (ok: bool)
      requires Valid() && Track(v0, own0) && parentCluster != 0
      requires RecordFrame(fs.view.data[parentCluster], buf, dirEntryOffset)
      modifies fs.disk, fs`view
      ensures Valid() && Track(v0, own0) && ChainData() == old(ChainData()) && fs.view.fat == old(fs.view.fat)
      ensures ok ==> fs.view.data[parentCluster] == buf && fs.disk.faulted == old(fs.disk.faulted)
      ensures !ok ==> fs.disk.faulted
    {
      ghost var v := fs.view;
      ok := fs.WriteCluster(parentCluster, buf);
      TornRecord(v.data[parentCluster], buf, fs.view.data[parentCluster], dirEntryOffset);
      RecordTracked(fs.bpb, v0, v, fs.view.data[parentCluster], own0, chain, firstCluster, size, parentCluster,
                    dirEntryOffset);
    }

    /** Allocates the first cluster of an empty file. */
    method TakeFirst(ghost v0: View, ghost own0: seq<nat>) returns (ok: bool)
      requires Valid() && Track(v0, own0) && firstCluster < 2
      modifies fs.disk, fs`view, this`chain, this`firstCluster
      ensures Valid() && Track(v0, own0)
      ensures ok ==>
        && firstCluster >= 2 && |chain| == 1 && ChainData() == Zeros(ClusterBytes(fs.bpb))
        && ParentData() == old(ParentData()) && fs.disk.faulted == old(fs.disk.faulted)
        && fs.Room() + 1 == old(fs.Room())
      ensures !ok ==>
        && chain == [] && firstCluster == old(firstCluster)
        && (fs.disk.faulted || (fs.Full() && fs.view == old(fs.view)))
    {
      hide Linked, Torn, AllocStage, LowestFree, FreeClusters;
      fs.Shaped();
      ghost var v := fs.view;
      var a := fs.AllocCluster(None);
      fs.Shaped();
      if !a.Allocated? {
        if fs.view != v {
          ghost var c :| IsCluster(fs.bpb, c) && AllocCut(v, fs.view, None, c, ClusterBytes(fs.bpb));
          AllocMine(v0, v, fs.view, own0, parentCluster, dirEntryOffset, None, c);
          if parentCluster != 0 {
            ParentApart(fs.bpb, v0, fs.view, own0, chain, parentCluster, dirEntryOffset);
          }
        }
        return false;
      }
      var c := a.cluster;
      FirstDone(fs.bpb, v0, v, fs.view, own0, c, parentCluster, dirEntryOffset);
      firstCluster := c;
      chain := [c];
      return true;
    }

    /** Stores the first cluster in this node's record. */
    method RecordFirst(ghost v0: View, ghost own0: seq<nat>) returns (ok: bool)
      requires Valid() && Track(v0, own0) && parentCluster != 0
      modifies fs.disk, fs`view
      ensures Valid() && Track(v0, own0) && ChainData() == old(ChainData()) && fs.Room() == old(fs.Room())
      ensures ok ==>
        && fs.disk.faulted == old(fs.disk.faulted)
        && FirstClusterOf(Record(fs.view.data[parentCluster], dirEntryOffset)) == firstCluster
        && EntrySize(Record(fs.view.data[parentCluster], dirEntryOffset))
           == EntrySize(Record(old(fs.view.data[parentCluster]), dirEntryOffset))
      ensures !ok ==> fs.disk.faulted
    {
      hide Linked, OnlyMine, Tracked, FreeClusters, ChainBytes, PutFirstCluster, Record;
      fs.Shaped();
      FirstBound(fs.bpb, fs.view, chain, firstCluster, size, parentCluster, dirEntryOffset);
      var buf := fs.ReadCluster(parentCluster);
      if buf.None? {
        return false;
      }
      FirstClusterStored(buf.value, dirEntryOffset, firstCluster);
      ok := PutRecord(PutFirstCluster(buf.value, dirEntryOffset, firstCluster), v0, own0);
    }

    /** Gives an empty file its first cluster and records it in the directory. */
    method EnsureFirst(ghost v0: View, ghost own0: seq<nat>) returns (ok: bool)
      requires Valid() && Track(v0, own0)
      modifies fs.disk, fs`view, this`chain, this`firstCluster
      ensures Valid() && Track(v0, own0)
      ensures ok ==>
        && firstCluster >= 2 && |chain| == Max(old(|chain|), 1) && fs.disk.faulted == old(fs.disk.faulted)
        && ChainData() == Pad(old(ChainData()), |chain| * ClusterBytes(fs.bpb))
        && (old(RecordAgrees()) ==> RecordAgrees())
      ensures old(ChainData()) <= ChainData() && old(|chain|) <= |chain| <= Max(old(|chain|), 1)
      ensures ok || !fs.disk.faulted ==> |chain| + fs.Room() == old(|chain| + fs.Room())
      ensures !ok ==>
        || fs.disk.faulted
        || (fs.Full() && Untouched(old(fs.view), old(chain), old(firstCluster), old(size)) && chain == [])
    {
      hide Linked, OnlyMine, Tracked, FreeClusters, Record;
      fs.Shaped();
      ChainBytesLength(fs.view.data, chain, ClusterBytes(fs.bpb));
      if firstCluster >= 2 {
        return true;
      }
      ok := TakeFirst(v0, own0);
      if ok && parentCluster != 0 {
        ok := RecordFirst(v0, own0);
      }
    }

    /** Walks to the cluster with index `idx`, appending zeroed clusters as needed. */
    method WalkTo(idx: nat, ghost v0: View, ghost own0: seq<nat>) returns (r: Option<nat>)
      requires Valid() && Track(v0, own0) && firstCluster >= 2
      modifies fs.disk, fs`view, this`chain
      ensures Valid() && Track(v0, own0)
      ensures r.Some? ==>
        && idx < |chain| && r.value == chain[idx] && fs.disk.faulted == old(fs.disk.faulted)
        && ChainData() == Pad(old(ChainData()), |chain| * ClusterBytes(fs.bpb))
        && ParentData() == old(ParentData())
      ensures old(ChainData()) <= ChainData() && old(|chain|) <= |chain| <= Max(old(|chain|), idx + 1)
      ensures r.Some? || !fs.disk.faulted ==> |chain| + fs.Room() == old(|chain| + fs.Room())
      ensures r.None? ==>
        || fs.disk.faulted
        || (fs.Full() && |chain| <= idx && ChainData() == Pad(old(ChainData()), |chain| * ClusterBytes(fs.bpb))
            && ParentData() == old(ParentData()))
    {
      hide Linked, Tracked, OnlyMine, ChainBytes, IsChain;
      OwnClusters();
      var cluster := firstCluster;
      ChainBytesLength(fs.view.data, chain, ClusterBytes(fs.bpb));
      for j := 0 to idx
        invariant Valid() && Track(v0, own0)
        invariant j < |chain| && cluster == chain[j] && fs.disk.faulted == old(fs.disk.faulted)
        invariant old(|chain|) <= |chain| <= Max(old(|chain|), j + 1)
        invariant ChainData() == Pad(old(ChainData()), |chain| * ClusterBytes(fs.bpb))
        invariant ParentData() == old(ParentData()) && |chain| + fs.Room() == old(|chain| + fs.Room())
      {
        ghost var n := |chain|;
        PadLonger(old(ChainData()), n * ClusterBytes(fs.bpb));
        var next := Advance(cluster, j, v0, own0);
        if next.None? {
          return None;
        }
        MulMono(n, |chain|, ClusterBytes(fs.bpb));
        PadTwice(old(ChainData()), n * ClusterBytes(fs.bpb), |chain| * ClusterBytes(fs.bpb));
        cluster := next.value;
      }
      PadLonger(old(ChainData()), |chain| * ClusterBytes(fs.bpb));
      return Some(cluster);
    }

    /** Read-modify-write of the i-th cluster. */
    method StorePiece(cluster: nat, bufOff: nat, piece: seq<byte>, ghost i: nat, ghost v0: View, ghost own0: seq<nat>)
      returns (ok: bool)
      requires Valid() && Track(v0, own0)
      requires i < |chain| && cluster == chain[i] && bufOff + |piece| <= ClusterBytes(fs.bpb)
      modifies fs.disk, fs`view
      ensures Valid() && Track(v0, own0)
      ensures ok ==>
        && i * ClusterBytes(fs.bpb) + ClusterBytes(fs.bpb) <= |old(ChainData())|
        && fs.disk.faulted == old(fs.disk.faulted)
        && ChainData() == Overwrite(old(ChainData()), i * ClusterBytes(fs.bpb) + bufOff, piece)
        && ParentData() == old(ParentData()) && fs.Room() == old(fs.Room())
      ensures !ok ==>
        && fs.disk.faulted && i * ClusterBytes(fs.bpb) + ClusterBytes(fs.bpb) <= |old(ChainData())|
        && Mixed(ChainData(), old(ChainData()), Overwrite(old(ChainData()), i * ClusterBytes(fs.bpb) + bufOff, piece))
    {
      hide Linked, Tracked, OnlyMine, ChainBytes, Overwrite, Torn, IsChain, FreeClusters;
      OwnClusters();
      ghost var v := fs.view;
      ChainDistinct(v.fat[0], chain);
      ChainPiece(v.data, chain, ClusterBytes(fs.bpb), i, bufOff, piece);
      var buf := fs.ReadCluster(cluster);
      if buf.None? {
        return false;
      }
      var d := Overwrite(buf.value, bufOff, piece);
      ok := fs.WriteCluster(cluster, d);
      fs.Shaped();
      PieceTracked(fs.bpb, v0, v, fs.view.data[cluster], own0, chain, i, firstCluster, size, parentCluster,
                   dirEntryOffset);
      if !ok {
        ChainMixed(v.data, chain, ClusterBytes(fs.bpb), i, bufOff, piece, fs.view.data[cluster]);
      }
    }

    /** The first `written` bytes of `data` are stored at `offset` over the bytes `b0`. */
    ghost predicate Stored(b0: seq<byte>, offset: nat, data: seq<byte>, written: nat)
      reads this, fs, fs.disk
    {
      var n := |chain| * ClusterBytes(fs.bpb);
      && Valid() && |b0| <= n && offset + written <= n && written <= |data|
      && ChainData() == Overwrite(Pad(b0, n), offset, data[..written])
    }

    method StoreNext(cluster: nat, bufOff: nat, offset: nat, data: seq<byte>, written: nat, take: nat,
                     ghost i: nat, ghost b0: seq<byte>, ghost v0: View, ghost own0: seq<nat>)
      returns (ok: bool)
      requires Track(v0, own0) && Stored(b0, offset, data, written)
      requires i < |chain| && cluster == chain[i] && bufOff + take <= ClusterBytes(fs.bpb)
      requires written + take <= |data| && BlockOff(i, ClusterBytes(fs.bpb)) + bufOff == offset + written
      modifies fs.disk, fs`view
      ensures Valid() && Track(v0, own0)
      ensures ok ==>
        && Stored(b0, offset, data, written + take) && fs.disk.faulted == old(fs.disk.faulted)
        && ParentData() == old(ParentData()) && fs.Room() == old(fs.Room())
      ensures !ok ==> fs.disk.faulted && KeptOrWritten(b0, ChainData(), offset, data)
    {
      hide Overwrite, Pad, ChainBytes, Linked, IsChain, OnlyMine, Tracked, KeptOrWritten, Mixed;
      ghost var n := |chain| * ClusterBytes(fs.bpb);
      ok := StorePiece(cluster, bufOff, data[written..written + take], i, v0, own0);
      NextPiece(Pad(b0, n), offset, data, written, take);
      if !ok {
        TornPieceKept(b0, n, offset, data, written, take, ChainData());
      }
    }

    /** Advance, with the stored data kept. */
    method StoreAdvance(cluster: nat, offset: nat, data: seq<byte>, written: nat,
                        ghost i: nat, ghost b0: seq<byte>, ghost v0: View, ghost own0: seq<nat>)
      returns (r: Option<nat>)
      requires Track(v0, own0) && Stored(b0, offset, data, written)
      requires i < |chain| && cluster == chain[i]
      modifies fs.disk, fs`view, this`chain
      ensures Valid() && Track(v0, own0)
      ensures r.Some? ==>
        && Stored(b0, offset, data, written) && fs.disk.faulted == old(fs.disk.faulted)
        && i + 1 < |chain| && r.value == chain[i + 1]
        && ParentData() == old(ParentData())
      ensures KeptOrWritten(b0, ChainData(), offset, data)
      ensures old(|chain|) <= |chain| && (|chain| > old(|chain|) ==> |chain| <= i + 2)
      ensures r.Some? || !fs.disk.faulted ==> |chain| + fs.Room() == old(|chain| + fs.Room())
      ensures r.None? ==>
        || fs.disk.faulted
        || (fs.Full() && Stored(b0, offset, data, written) && i + 1 == |chain| && ParentData() == old(ParentData()))
    {
      hide Overwrite, Pad, ChainBytes, Linked, IsChain, OnlyMine, Tracked, KeptOrWritten;
      ghost var n, before := |chain| * ClusterBytes(fs.bpb), ChainData();
      ghost var len := |chain|;
      StoredKept(b0, n, offset, data, written);
      r := Advance(cluster, i, v0, own0);
      LongerKept(b0, before, ChainData(), offset, data);
      if r.Some? {
        MulMono(len, |chain|, ClusterBytes(fs.bpb));
        PadStored(b0, n, |chain| * ClusterBytes(fs.bpb), offset, data[..written]);
      }
    }

    /** One round of the store loop: a piece, then the next cluster if data is left. */
    method StoreRound(cluster: nat, bufOff: nat, offset: nat, data: seq<byte>, written: nat, take: nat,
                      ghost i: nat, ghost b0: seq<byte>, ghost v0: View, ghost own0: seq<nat>)
      returns (r: Option<nat>)
      requires Track(v0, own0) && Stored(b0, offset, data, written)
      requires i < |chain| && cluster == chain[i] && bufOff + take <= ClusterBytes(fs.bpb)
      requires written + take <= |data| && BlockOff(i, ClusterBytes(fs.bpb)) + bufOff == offset + written
      modifies fs.disk, fs`view, this`chain
      ensures Valid() && Track(v0, own0)
      ensures r.Some? ==>
        && Stored(b0, offset, data, written + take) && fs.disk.faulted == old(fs.disk.faulted)
        && ParentData() == old(ParentData())
        && (written + take < |data| ==> i + 1 < |chain| && r.value == chain[i + 1])
      ensures r.None? ==> KeptOrWritten(b0, ChainData(), offset, data)
      ensures old(|chain|) <= |chain| && (|chain| > old(|chain|) ==> |chain| <= i + 2 && written + take < |data|)
      ensures r.Some? || !fs.disk.faulted ==> |chain| + fs.Room() == old(|chain| + fs.Room())
      ensures r.None? ==>
        || fs.disk.faulted
        || (fs.Full() && written + take < |data| && Stored(b0, offset, data, written + take) && i + 1 == |chain|
            && ParentData() == old(ParentData()))
    {
      hide *;
      var ok := StoreNext(cluster, bufOff, offset, data, written, take, i, b0, v0, own0);
      if !ok {
        return None;
      }
      if written + take < |data| {
        r := StoreAdvance(cluster, offset, data, written + take, i, b0, v0, own0);
      } else {
        r := Some(cluster);
      }
    }

    /** The store loop, from byte `offset` on; `first` is the cluster with that byte and
        `start` its position inside it. */
    method StoreData(first: nat, start: nat, offset: nat, data: seq<byte>, ghost idx: nat, ghost b0: seq<byte>,
                     ghost v0: View, ghost own0: seq<nat>)
      returns (ok: bool, ghost w: nat)
      requires Valid() && Track(v0, own0) && Stored(b0, offset, data, 0)
      requires idx < |chain| && first == chain[idx]
      requires BlockOff(idx, ClusterBytes(fs.bpb)) + start == offset && start < ClusterBytes(fs.bpb)
      modifies fs.disk, fs`view, this`chain
      ensures Valid() && Track(v0, own0)
      ensures ok ==>
        && Stored(b0, offset, data, |data|) && fs.disk.faulted == old(fs.disk.faulted)
        && ParentData() == old(ParentData())
      ensures !ok ==> KeptOrWritten(b0, ChainData(), offset, data)
      ensures old(|chain|) <= |chain|
      ensures |chain| > old(|chain|) ==> BlockOff(|chain| - 1, ClusterBytes(fs.bpb)) < offset + |data|
      ensures ok || !fs.disk.faulted ==> |chain| + fs.Room() == old(|chain| + fs.Room())
      ensures !ok ==>
        || fs.disk.faulted
        || (&& fs.Full() && w < |data| && Stored(b0, offset, data, w)
            && offset + w == BlockOff(|chain|, ClusterBytes(fs.bpb)) && ParentData() == old(ParentData()))
    {
      hide *;
      var cb := ClusterBytes(fs.bpb);
      w := 0;
      var cluster, written: nat, bufOff: nat := first, 0, start;
      ghost var i: nat := idx;
      while written < |data|
        invariant Valid() && Track(v0, own0) && Stored(b0, offset, data, written)
        invariant written <= |data| && fs.disk.faulted == old(fs.disk.faulted)
        invariant written < |data| ==>
          i < |chain| && cluster == chain[i] && BlockOff(i, cb) + bufOff == offset + written && bufOff < cb
        invariant ParentData() == old(ParentData()) && |chain| + fs.Room() == old(|chain| + fs.Room())
        invariant old(|chain|) <= |chain|
        invariant |chain| > old(|chain|) ==> BlockOff(|chain| - 1, cb) < offset + |data|
      {
        var take := Min(|data| - written, cb - bufOff);
        var next := StoreRound(cluster, bufOff, offset, data, written, take, i, b0, v0, own0);
        NextBlock(i, cb);
        w := written + take;
        if next.None? {
          return false, w;
        }
        cluster, written, bufOff, i := next.value, written + take, 0, i + 1;
      }
      return true, written;
    }

    /** Nothing stored yet: the chain has been walked to the block with `offset`. */
    lemma StoredNothing(b0: seq<byte>, offset: nat, data: seq<byte>, idx: nat)
      requires Valid() && idx < |chain| && idx == offset / ClusterBytes(fs.bpb)
      requires ChainData() == Pad(b0, |chain| * ClusterBytes(fs.bpb))
      ensures Stored(b0, offset, data, 0)
      ensures BlockOff(idx, ClusterBytes(fs.bpb)) + offset % ClusterBytes(fs.bpb) == offset
    {
      var cb := ClusterBytes(fs.bpb);
      ChainBytesLength(fs.view.data, chain, cb);
      DivMod(offset, cb);
      MulStep(idx, |chain|, cb);
      assert Overwrite(ChainData(), offset, data[..0]) == ChainData();
    }

    method UpdateSizeOnDisk(newSize: nat, ghost v0: View, ghost own0: seq<nat>) returns (ok: bool)
      requires Valid() && Track(v0, own0) && newSize < 0x1_0000_0000
      modifies fs.disk, fs`view
      ensures Valid() && Track(v0, own0) && ChainData() == old(ChainData())
      ensures ok ==> fs.disk.faulted == old(fs.disk.faulted)
      ensures ok && parentCluster != 0 ==>
        && EntrySize(Record(fs.view.data[parentCluster], dirEntryOffset)) == newSize
        && FirstClusterOf(Record(fs.view.data[parentCluster], dirEntryOffset))
           == FirstClusterOf(Record(old(fs.view.data[parentCluster]), dirEntryOffset))
      ensures !ok ==> fs.disk.faulted
    {
      if parentCluster == 0 {
        return true;
      }
      var buf := fs.ReadCluster(parentCluster);
      if buf.None? {
        return false;
      }
      SizeStored(buf.value, dirEntryOffset, newSize);
      ok := PutRecord(PutSize(buf.value, dirEntryOffset, newSize), v0, own0);
    }

    /** All of the data is stored, or all that fits into the chain. */
    lemma StoredToEnd(b0: seq<byte>, offset: nat, data: seq<byte>, w: nat)
      requires Stored(b0, offset, data, w) && (w == |data| || offset + w == BlockOff(|chain|, ClusterBytes(fs.bpb)))
      ensures StoredClipped(b0, ChainData(), offset, data)
    {
      hide Overwrite, Pad, ChainBytes, Linked, StoredClipped;
      StoredIsClipped(b0, |chain| * ClusterBytes(fs.bpb), offset, data, w);
    }

    /** The chain ends before the first byte to be written. */
    lemma EndsBefore(b0: seq<byte>, offset: nat, data: seq<byte>, idx: nat)
      requires Valid() && ChainData() == Pad(b0, |chain| * ClusterBytes(fs.bpb))
      requires |b0| <= |ChainData()| && |chain| <= idx && BlockOff(idx, ClusterBytes(fs.bpb)) <= offset
      ensures StoredClipped(b0, ChainData(), offset, data) && BlockOff(|chain|, ClusterBytes(fs.bpb)) <= offset
    {
      hide Pad, ChainBytes, StoredClipped;
      var cb := ClusterBytes(fs.bpb);
      ChainBytesLength(fs.view.data, chain, cb);
      MulMono(|chain|, idx, cb);
      PadIsClipped(b0, |chain| * cb, offset, data);
    }

    /** The cluster with byte `offset`, with zeroed clusters appended up to it. */
    method ReachOffset(idx: nat, ghost offset: nat, ghost data: seq<byte>, ghost v0: View, ghost own0: seq<nat>)
      returns (r: Option<nat>)
      requires Valid() && Track(v0, own0) && BlockOff(idx, ClusterBytes(fs.bpb)) <= offset
      modifies fs.disk, fs`view, this`chain, this`firstCluster
      ensures Valid() && Track(v0, own0) && old(ChainData()) <= ChainData() && old(|chain|) <= |chain|
      ensures |chain| > old(|chain|) ==> BlockOff(|chain| - 1, ClusterBytes(fs.bpb)) <= offset
      ensures r.Some? ==>
        && idx < |chain| && r.value == chain[idx]
        && ChainData() == Pad(old(ChainData()), |chain| * ClusterBytes(fs.bpb))
        && firstCluster >= 2 && fs.disk.faulted == old(fs.disk.faulted)
      ensures r.Some? || !fs.disk.faulted ==>
        |chain| + fs.Room() == old(|chain| + fs.Room()) && (old(RecordAgrees()) ==> RecordAgrees())
      ensures r.None? ==>
        || fs.disk.faulted
        || (fs.Full() && StoredClipped(old(ChainData()), ChainData(), offset, data)
            && BlockOff(|chain|, ClusterBytes(fs.bpb)) <= offset)
    {
      hide Overwrite, Pad, ChainBytes, Tracked, OnlyMine, IsChain, StoredClipped, Linked, Record, FreeClusters;
      fs.Shaped();
      ghost var cb, b0 := ClusterBytes(fs.bpb), ChainData();
      var ok := EnsureFirst(v0, own0);
      fs.Shaped();
      if !ok {
        if !fs.disk.faulted {
          NoBytes(fs.view.data, b0, offset, data);
        }
        return None;
      }
      ghost var n1 := |chain|;
      r := WalkTo(idx, v0, own0);
      fs.Shaped();
      MulMono(n1, |chain|, cb);
      PadTwice(b0, n1 * cb, |chain| * cb);
      if |chain| <= idx + 1 {
        MulMono(|chain| - 1, idx, cb);
      }
      if r.None? && !fs.disk.faulted {
        EndsBefore(b0, offset, data, idx);
      }
    }

    /** First cluster, walk and store loop: everything of a write but the size update. The
        chain grows no further than needed. */
    method WriteBytes(offset: nat, data: seq<byte>) returns (ok: bool)
      requires Valid() && data != []
      modifies fs.disk, fs`view, this`chain, this`firstCluster
      ensures Valid() && Track(old(fs.view), old(chain)) && KeptOrWritten(old(ChainData()), ChainData(), offset, data)
      ensures ok ==>
        && Stored(old(ChainData()), offset, data, |data|) && fs.disk.faulted == old(fs.disk.faulted)
        && firstCluster >= 2 && (old(RecordAgrees()) ==> RecordAgrees())
      ensures old(|chain|) <= |chain|
      ensures |chain| > old(|chain|) ==> BlockOff(|chain| - 1, ClusterBytes(fs.bpb)) < offset + |data|
      ensures ok || !fs.disk.faulted ==>
        && |chain| + fs.Room() == old(|chain| + fs.Room())
        && StoredClipped(old(ChainData()), ChainData(), offset, data)
      ensures !ok ==>
        || fs.disk.faulted
        || (&& fs.Full() && BlockOff(|chain|, ClusterBytes(fs.bpb)) < offset + |data|
            && (old(RecordAgrees()) ==> RecordAgrees()))
    {
      hide Overwrite, Pad, ChainBytes, Stored, OnlyMine, IsChain, KeptOrWritten, StoredClipped, Linked, Record,
        FreeClusters;
      ghost var v0, own0, b0 := fs.view, chain, ChainData();
      fs.Shaped();
      OnlyMineRefl(v0, own0, parentCluster, dirEntryOffset);
      var cb := ClusterBytes(fs.bpb);
      DivMod(offset, cb);
      NothingWritten(b0, offset, data);
      var cluster := ReachOffset(offset / cb, offset, data, v0, own0);
      LongerKept(b0, b0, ChainData(), offset, data);
      if cluster.None? {
        return false;
      }
      StoredNothing(b0, offset, data, offset / cb);
      ghost var w: nat;
      ok, w := StoreData(cluster.value, offset % cb, offset, data, offset / cb, b0, v0, own0);
      fs.Shaped();
      if ok {
        StoredToEnd(b0, offset, data, |data|);
        ClippedKept(b0, ChainData(), offset, data);
      } else if !fs.disk.faulted {
        StoredToEnd(b0, offset, data, w);
      }
    }

    /** Caches and records a larger size. */
    method CommitSize(newSize: nat, ghost v0: View, ghost own0: seq<nat>) returns (ok: bool)
      requires Valid() && Track(v0, own0) && firstCluster >= 2
      requires size <= newSize <= |chain| * ClusterBytes(fs.bpb)
      modifies fs.disk, fs`view, this`size
      ensures Valid() && Track(v0, own0) && ChainData() == old(ChainData())
      ensures ok ==>
        && size == AsU32(newSize) && fs.disk.faulted == old(fs.disk.faulted)
        && (old(RecordAgrees()) ==> RecordAgrees())
      ensures !ok ==> fs.disk.faulted
      ensures newSize == old(size) ==> size == old(size)
    {
      if newSize > size {
        size := AsU32(newSize);
        ok := UpdateSizeOnDisk(size, v0, own0);
      } else {
        ok := true;
      }
    }

    /** What a write of data that is not refused leaves when the device did not fail and the
        volume is full: as much of the data as fits is stored, the size is the old one. */
    ghost predicate RanFull(b0: seq<byte>, oldSize: nat, offset: nat, data: seq<byte>)
      reads this, fs, fs.disk
    {
      && Valid() && fs.Full() && size == oldSize <= |b0|
      && Contents() == Splice(b0[..oldSize], offset, data)[..oldSize]
      && (AllZero(b0[oldSize..]) ==> (SlackZero() <==> ZeroPast(offset, data, oldSize, |ChainData()|)))
    }

    /** The part of a write that is not refused at once. */
    method WriteData(offset: nat, data: seq<byte>) returns (ok: bool)
      requires Valid() && data != []
      modifies fs.disk, fs`view, this`chain, this`firstCluster, this`size
      ensures Valid() && Track(old(fs.view), old(chain)) && KeptOrWritten(old(ChainData()), ChainData(), offset, data)
      ensures ok ==>
        && fs.disk.faulted == old(fs.disk.faulted) && size == AsU32(Max(offset + |data|, old(size)))
        && (old(RecordAgrees()) ==> RecordAgrees())
      ensures ok && old(SlackZero()) ==>
        && Contents() == Truncated(Splice(old(Contents()), offset, data))
        && (offset + |data| < 0x1_0000_0000 ==> SlackZero())
      ensures !ok ==>
        || fs.disk.faulted
        || (RanFull(old(ChainData()), old(size), offset, data) && (old(RecordAgrees()) ==> RecordAgrees()))
      ensures old(|chain|) <= |chain|
      ensures |chain| > old(|chain|) ==> BlockOff(|chain| - 1, ClusterBytes(fs.bpb)) < offset + |data|
      ensures offset + |data| <= old(size) ==> size == old(size)
      ensures ok || !fs.disk.faulted ==> StoredClipped(old(ChainData()), ChainData(), offset, data)
      ensures !ok && !fs.disk.faulted ==> |chain| == old(|chain| + fs.Room())
      ensures !fs.disk.faulted ==>
        (ok <==> offset + |data| <= BlockOff(old(|chain| + fs.Room()), ClusterBytes(fs.bpb)))
    {
      hide Linked, Tracked, OnlyMine, IsChain, ChainBytes, Overwrite, Pad, KeptOrWritten, StoredClipped, FreeClusters,
        Record, Splice;
      fs.Shaped();
      ghost var v0, own0, b0, total := fs.view, chain, ChainData(), |chain| + fs.Room();
      DataLength();
      var oldSize := size;
      var newSize := Max(offset + |data|, oldSize);
      ok := WriteBytes(offset, data);
      fs.Shaped();
      DataLength();
      ghost var n, b := |chain| * ClusterBytes(fs.bpb), ChainData();
      if |chain| <= total {
        MulMono(|chain|, total, ClusterBytes(fs.bpb));
      }
      if !ok {
        if !fs.disk.faulted {
          fs.FullRoom();
          ClippedContents(b0, b, oldSize, offset, data);
        }
        return;
      }
      assert data[..|data|] == data;
      ok := CommitSize(newSize, v0, own0);
      if ok && AllZero(b0[oldSize..]) {
        WrittenContents(b0, oldSize, n, offset, data);
        CutContents(b, newSize, size);
      }
    }

    lemma DataLength()
      requires Valid()
      ensures |ChainData()| == |chain| * ClusterBytes(fs.bpb) && size <= |ChainData()|
    {
      ChainBytesLength(fs.view.data, chain, ClusterBytes(fs.bpb));
    }

    /** A write inside the file leaves the bytes behind its end zero in every outcome. */
    lemma InsideSlack(b0: seq<byte>, n0: nat, offset: nat, data: seq<byte>)
      requires Valid() && KeptOrWritten(b0, ChainData(), offset, data) && |b0| == n0 * ClusterBytes(fs.bpb)
      requires n0 <= |chain| && (|chain| > n0 ==> BlockOff(|chain| - 1, ClusterBytes(fs.bpb)) < offset + |data|)
      requires offset + |data| <= size <= |b0| && AllZero(b0[size..])
      ensures SlackZero()
    {
      hide ChainBytes, KeptOrWritten, AllZero;
      DataLength();
      if |chain| > n0 {
        MulMono(n0, |chain| - 1, ClusterBytes(fs.bpb));
      }
      InsideContents(b0, ChainData(), size, offset, data);
    }

    /** Writes `data` at `offset`. Whatever the exit, only this file's clusters, clusters
        that were free and the node fields of its record have changed, and every byte of
        the file is the old one or the one written there. On success the abstract file is
        spliced; the cached size is the low 32 bits of the new one. Unless the device fails,
        a write succeeds exactly if the clusters of the file and the free ones suffice. */
    method Write(offset: nat, data: seq<byte>) returns (r: Option<nat>)
      requires Valid()
      modifies fs.disk, fs`view, this`chain, this`firstCluster, this`size
      ensures Valid() && Track(old(fs.view), old(chain))
      ensures r.Some? ==>
        && !isDir && data != [] && r.value == |data| && fs.disk.faulted == old(fs.disk.faulted)
        && size == AsU32(Max(offset + |data|, old(size)))
        && (old(RecordAgrees()) ==> RecordAgrees())
      ensures r.Some? && old(SlackZero()) ==>
        && Contents() == Truncated(Splice(old(Contents()), offset, data))
        && (Contents() == Splice(old(Contents()), offset, data) <==> offset + |data| < 0x1_0000_0000)
        && (offset + |data| < 0x1_0000_0000 ==> SlackZero())
      ensures isDir || data == [] ==> r.None? && Untouched(old(fs.view), old(chain), old(firstCluster), old(size))
      ensures r.None? ==> isDir || data == [] || fs.disk.faulted || fs.Full()
      ensures KeptOrWritten(old(ChainData()), ChainData(), offset, data)
      ensures r.Some? || (!isDir && data != [] && !fs.disk.faulted) ==>
        StoredClipped(old(ChainData()), ChainData(), offset, data)
      ensures r.None? && !isDir && data != [] && !fs.disk.faulted ==>
        && RanFull(old(ChainData()), old(size), offset, data) && |chain| == old(|chain| + fs.Room())
        && (old(RecordAgrees()) ==> RecordAgrees())
      ensures !isDir && data != [] && !fs.disk.faulted ==>
        (r.Some? <==> offset + |data| <= BlockOff(old(|chain| + fs.Room()), ClusterBytes(fs.bpb)))
      ensures !isDir && data != [] && offset + |data| <= old(size) ==>
        && size == old(size) && (old(SlackZero()) ==> SlackZero()) && (!fs.disk.faulted ==> r.Some?)
    {
      hide Linked, OnlyMine, IsChain, ChainBytes, KeptOrWritten, StoredClipped, FreeClusters, Record, Splice, Truncated;
      fs.Shaped();
      OnlyMineRefl(fs.view, chain, parentCluster, dirEntryOffset);
      ghost var b0, n0, room, size0 := ChainData(), |chain|, fs.Room(), size;
      DataLength();
      NothingWritten(b0, offset, data);
      if isDir || data == [] {
        return None;
      }
      var ok := WriteData(offset, data);
      if offset + |data| <= size0 && AllZero(b0[size0..]) {
        InsideSlack(b0, n0, offset, data);
      }
      MulMono(n0, n0 + room, ClusterBytes(fs.bpb));
      r := if ok then Some(|data|) else None;
    }

    /** Nothing of the volume and of the node has changed. */
    ghost predicate Untouched(v: View, cs: seq<nat>, first: nat, n: nat)
      reads this, fs
    {
      fs.view == v && chain == cs && firstCluster == first && size == n
    }

    /** One byte written at the last 32-bit offset: the size wraps and the file is empty. */
    method WriteAtLimit(b: byte) returns (r: Option<nat>)
      requires Valid() && SlackZero()
      modifies fs.disk, fs`view, this`chain, this`firstCluster, this`size
      ensures r.Some? ==> Valid() && size == 0 && Contents() == []
    {
      hide Linked, Tracked, OnlyMine, ChainBytes, IsChain, AllZero, RecordAgrees;
      fs.Shaped();
      r := Write(0xFFFF_FFFF, [b]);
    }

    /** One free cluster of 512 bytes and an empty file: a write of 1024 bytes fails and leaves
        512 of them behind the size 0; a byte then written at offset 100 brings 100 of
        them into the file, where zeros were to be expected. */
    method SlackExposed(data: seq<byte>, b: byte) returns (first: Option<nat>, second: Option<nat>)
      requires Valid() && !isDir && chain == [] && fs.Room() == 1 && ClusterBytes(fs.bpb) == 512 && |data| == 1024
      modifies fs.disk, fs`view, this`chain, this`firstCluster, this`size
      ensures !fs.disk.faulted ==> first.None? && second.Some? && Valid() && Contents() == data[..100] + [b]
    {
      hide Linked, OnlyMine, IsChain, ChainBytes, Tracked, FreeClusters, Record, Splice, Truncated, KeptOrWritten;
      DataLength();
      first := Write(0, data);
      DataLength();
      if fs.disk.faulted {
        return first, None;
      }
      ghost var b1 := ChainData();
      second := Write(100, [b]);
      DataLength();
      if !fs.disk.faulted {
        assert forall i :: 0 <= i < 100 ==> ChainData()[i] == b1[i] == data[i];
      }
    }

    /** A write followed by a read of the same node sees the spliced bytes, cut where the
        recorded size ends. */
    method WriteThenRead(offset: nat, data: seq<byte>, at: nat, len: nat) returns (r: Option<seq<byte>>)
      requires Valid() && SlackZero()
      modifies fs.disk, fs`view, this`chain, this`firstCluster, this`size
      ensures Valid()
      ensures r.Some? ==>
        var now := Truncated(Splice(old(Contents()), offset, data));
        r.value == if at >= |now| then [] else now[at..Min(at + len, |now|)]
      ensures r.None? ==> isDir || data == [] || fs.disk.faulted || fs.Full()
    {
      var w := Write(offset, data);
      if w.None? {
        return None;
      }
      r := Read(at, len);
    }

    // ---- directories ----

    /** All slots of this directory. */
    ghost function Slots(): (r: seq<Slot>)
      requires Valid()
      reads this, fs, fs.disk
      ensures WfSlots(r)
    {
      DirSlots(fs.view.data, chain)
    }

    /** Runs the visitor `f` over the live records, front to back, until it yields. */
    method WalkDir<S, T>(f: (S, Slot) -> (S, Option<T>), s0: S) returns (ok: bool, s: S, r: Option<T>)
      requires Valid()
      modifies fs.disk`faulted
      ensures ok ==> (s, r) == Visit(f, s0, Live(Slots())) && fs.disk.faulted == old(fs.disk.faulted)
      ensures !ok ==> fs.disk.faulted
    {
      hide DirSlots, ClusterSlots, OnlyMine;
      s, r := s0, None;
      var cluster := firstCluster;
      ghost var j := 0;
      ghost var data := fs.view.data;
      ghost var want := Visit(f, s0, Live(DirSlots(data, chain)));
      assert chain[0..] == chain;
      while cluster >= 2 && cluster < EOC_MIN
        invariant 0 <= j <= |chain|
        invariant if j < |chain| then cluster == chain[j] else cluster < 2 || cluster >= EOC_MIN
        invariant want == Visit(f, s, Live(DirSlots(data, chain[j..])))
        invariant r.None? && fs.disk.faulted == old(fs.disk.faulted)
        decreases |chain| - j
      {
        var buf := fs.ReadCluster(cluster);
        if buf.None? {
          return false, s, None;
        }
        DirSlotsFront(data, chain, j);
        var ended;
        s, r, ended := VisitCluster(f, s, buf.value, cluster, DirSlots(data, chain[j + 1..]));
        if ended || r.Some? {
          return true, s, r;
        }
        var next := fs.NextInChain(cluster, chain, j);
        if next.None? {
          return false, s, None;
        }
        cluster := next.value;
        j := j + 1;
      }
      NoSlots(data);
      ok := true;
    }

    /** The cached fields are those of the record `e`. */
    ghost predicate DecodedFrom(e: Slot)
      reads this
    {
      && |e.rec| == RECORD
      && firstCluster == FirstClusterOf(e.rec) && isDir == IsDirectory(e.rec)
      && size == (if IsDirectory(e.rec) then 0 else EntrySize(e.rec))
      && parentCluster == e.cluster && dirEntryOffset == e.off
    }

    /** If the cached fields fit some chain, then they fit the one this node denotes. */
    ghost predicate DenotesChain()
      reads this, fs, fs.disk
    {
      fs.Valid() && forall cs ::
        NodeOk(fs.bpb, fs.view, cs, firstCluster, size, parentCluster, dirEntryOffset) ==> chain == cs
    }

    /** Node for the first live record called `name`; its cached fields are decoded from
        that record. If the record's first cluster starts a chain, the node denotes it. */
    method FindDir(name: seq<byte>) returns (r: Option<Fat32Node>)
      requires Valid()
      modifies fs.disk`faulted
      ensures r.Some? ==>
        && isDir && fresh(r.value) && r.value.fs == fs && fs.disk.faulted == old(fs.disk.faulted)
        && FirstMatch(Named(name), Live(Slots())).Some?
        && r.value.DecodedFrom(FirstMatch(Named(name), Live(Slots())).value)
        && r.value.DenotesChain()
      ensures r.None? ==> !isDir || fs.disk.faulted || FirstMatch(Named(name), Live(Slots())).None?
    {
      if !isDir {
        return None;
      }
      var ok, _, found := WalkDir(Finder(Named(name)), ());
      VisitFinder(Named(name), Live(Slots()));
      if !ok || found.None? {
        return None;
      }
      var e := found.value;
      var first := FirstClusterOf(e.rec);
      var size := if IsDirectory(e.rec) then 0 else EntrySize(e.rec);
      ghost var cs := if exists cs :: IsChain(fs.view.fat[0], cs) && cs[0] == first
                      then var cs :| IsChain(fs.view.fat[0], cs) && cs[0] == first; cs else [];
      var node := new Fat32Node(fs, first, size, IsDirectory(e.rec), e.cluster, e.off, if first < 2 then [] else cs);
      forall cs' | NodeOk(fs.bpb, fs.view, cs', first, size, e.cluster, e.off) ensures node.chain == cs' {
        if first >= 2 {
          ChainUnique(fs.view.fat[0], cs, cs');
        }
      }
      return Some(node);
    }

    lemma OwnClusters()
      requires Valid() && (firstCluster >= 2 || chain != [])
      ensures Shape(fs.bpb, fs.view) && fs.bpb.numFats >= 1 && chain != [] && chain[0] == firstCluster
      ensures IsChain(fs.view.fat[0], chain) && Entries(fs.bpb) <= EOC_MIN
      ensures forall x {:trigger chain[x]} :: 0 <= x < |chain| ==> 2 <= chain[x] < |fs.view.data|
    {
    }

    /** The first free slot, if the directory has one, and its last cluster. */
    method ScanSlots() returns (ok: bool, slot: Option<(nat, nat)>, last: nat, ghost j: nat)
      requires Valid() && firstCluster >= 2
      modifies fs.disk`faulted
      ensures ok ==> fs.disk.faulted == old(fs.disk.faulted)
      ensures ok && slot.Some? ==>
        j < |chain| && slot.value.0 == chain[j] && FreeSlotAt(fs.view.data, chain, j, slot.value.1)
      ensures ok && slot.None? ==> NoFree(Slots()) && last == chain[|chain| - 1]
      ensures !ok ==> fs.disk.faulted && slot.None?
    {
      hide DirSlots, ClusterSlots, NoFree, Linked, ChainBytes;
      OwnClusters();
      var cluster := firstCluster;
      last, j, ok, slot := firstCluster, 0, true, None;
      NoSlotsFree(fs.view.data, chain);
      while cluster >= 2 && cluster < EOC_MIN
        invariant 0 <= j <= |chain|
        invariant if j < |chain| then cluster == chain[j] else cluster >= EOC_MIN
        invariant last == chain[if j == 0 then 0 else j - 1]
        invariant NoFree(DirSlots(fs.view.data, chain[..j]))
        invariant fs.disk.faulted == old(fs.disk.faulted)
        decreases |chain| - j
        modifies fs.disk`faulted
      {
        last := cluster;
        var buf := fs.ReadCluster(cluster);
        if buf.None? {
          return false, None, last, j;
        }
        var i := FreeInCluster(buf.value, cluster);
        if i.Some? {
          return true, Some((cluster, i.value)), last, j;
        }
        var next := fs.NextInChain(cluster, chain, j);
        if next.None? {
          return false, None, last, j;
        }
        NoFreeNext(fs.view.data, chain, j);
        cluster := next.value;
        j := j + 1;
      }
      assert chain[..j] == chain;
      slot := None;
    }

    /** First free slot, or the first slot of a cluster appended to a full directory. */
    method FindFreeSlot(ghost v0: View, ghost own0: seq<nat>) returns (r: Option<(nat, nat)>, ghost j: nat)
      requires Valid() && Track(v0, own0) && firstCluster >= 2
      modifies fs.disk, fs`view, this`chain
      ensures Valid() && Track(v0, own0) && ParentData() == old(ParentData()) && old(chain) <= chain
      ensures r.Some? ==>
        && fs.disk.faulted == old(fs.disk.faulted)
        && j < |chain| && r.value.0 == chain[j]
        && FreeSlotAt(fs.view.data, chain, j, r.value.1)
        && (Slots() == old(Slots())
            || (NoFree(old(Slots())) && Slots() == old(Slots()) + ClusterSlots(Zeros(ClusterBytes(fs.bpb)), r.value.0)))
      ensures r.None? ==>
        && (fs.disk.faulted || (fs.Full() && fs.view == old(fs.view) && chain == old(chain)))
        && GrownCut(old(fs.view), old(Slots()), Slots(), ClusterBytes(fs.bpb))
      ensures !fs.disk.faulted ==> (r.Some? <==> HasPlace(old(fs.view), old(Slots())))
    {
      hide DirSlots, ClusterSlots, NoFree, Linked, ChainBytes, Tracked, Stale, IsChain, FreeClusters, Record;
      OwnClusters();
      var ok, slot, last;
      ok, slot, last, j := ScanSlots();
      if !ok || slot.Some? {
        if slot.Some? {
          FreeSlotSeen(fs.view.data, chain, j, slot.value.1);
        }
        return slot, j;
      }
      j := |chain|;
      var newC := GrowDirectory(last, v0, own0);
      return if newC.Some? then Some((newC.value, 0)) else None, j;
    }

    /** Read-modify-write of a directory cluster: fills the free slot at `off`. */
    method FillAt(cluster: nat, off: nat, rec: seq<byte>, ghost j: nat, ghost v0: View, ghost own0: seq<nat>)
      returns (ok: bool)
      requires Valid() && Track(v0, own0) && |rec| == RECORD
      requires j < |chain| && cluster == chain[j] && FreeSlotAt(fs.view.data, chain, j, off)
      modifies fs.disk, fs`view
      ensures Valid() && Track(v0, own0) && ParentData() == old(ParentData())
      ensures ok ==>
        && fs.disk.faulted == old(fs.disk.faulted)
        && exists k :: FilledIn(old(Slots()), Slots(), k, Slot(rec, cluster, off), ClusterBytes(fs.bpb))
      ensures !ok ==> fs.disk.faulted && FillCut(old(Slots()), Slots(), Slot(rec, cluster, off))
    {
      hide OnlyMine, DirSlots, ClusterSlots, Filled, NoFree, FilledCluster, ChainBytes, Torn, FillCut, Record;
      FillNotBegun(Slots(), Slot(rec, cluster, off));
      ghost var v := fs.view;
      var buf := fs.ReadCluster(cluster);
      if buf.None? {
        return false;
      }
      var d := FilledCluster(buf.value, off, rec);
      ok := fs.WriteCluster(cluster, d);
      PieceTracked(fs.bpb, v0, v, fs.view.data[cluster], own0, chain, j, firstCluster, size, parentCluster,
                   dirEntryOffset);
      if ok {
        ChainDistinct(v.fat[0], chain);
        ghost var k := |DirSlots(v.data, chain[..j])| + off / 32;
        FillSlot(v.data, fs.view.data, chain, j, off / 32, rec, k);
        assert FilledIn(old(Slots()), Slots(), k, Slot(rec, cluster, off), ClusterBytes(fs.bpb));
      } else {
        ChainDistinct(v.fat[0], chain);
        ghost var k := |DirSlots(v.data, chain[..j])| + off / 32;
        FillTorn(v.data, fs.view.data, chain, j, off / 32, rec, k);
      }
    }

    /** Finds a free slot, growing the directory if needed, and stores `rec` in it. */
    method Insert(rec: seq<byte>, ghost v0: View, ghost own0: seq<nat>) returns (r: Option<(nat, nat)>)
      requires Valid() && Track(v0, own0) && firstCluster >= 2 && |rec| == RECORD
      modifies fs.disk, fs`view, this`chain
      ensures Valid() && Track(v0, own0) && ParentData() == old(ParentData()) && old(chain) <= chain
      ensures r.Some? ==>
        && fs.disk.faulted == old(fs.disk.faulted)
        && Inserted(old(Slots()), Slots(), Slot(rec, r.value.0, r.value.1), ClusterBytes(fs.bpb))
      ensures r.None? ==>
        && (fs.disk.faulted || (fs.Full() && fs.view == old(fs.view) && chain == old(chain)))
        && InsertCut(old(fs.view), old(Slots()), Slots(), rec, ClusterBytes(fs.bpb))
      ensures !fs.disk.faulted ==> (r.Some? <==> HasPlace(old(fs.view), old(Slots())))
    {
      hide OnlyMine, DirSlots, ClusterSlots, FilledIn, NoFree, FreeSlotAt, ChainBytes, Tracked, IsChain, GrownCut,
        FillCut;
      ghost var j;
      r, j := FindFreeSlot(v0, own0);
      if r.Some? {
        var ok := FillAt(r.value.0, r.value.1, rec, j, v0, own0);
        if !ok {
          r := None;
        }
      }
    }

    /** Creates an empty file. No live record's decoded name may match; the record goes to
        the first free slot, the directory growing by a zeroed cluster if it is full. Unless
        the device fails this succeeds exactly for an acceptable name that no live record
        has, if the directory has a free slot or the volume a free cluster. */
    method Create(name: seq<byte>) returns (r: Option<Fat32Node>)
      requires Valid() && (isDir ==> firstCluster >= 2)
      modifies fs.disk, fs`view, this`chain
      ensures Valid() && Track(old(fs.view), old(chain)) && ParentData() == old(ParentData()) && old(chain) <= chain
      ensures !fs.disk.faulted ==>
        (r.Some? <==>
          && isDir && Acceptable(name) && FirstMatch(Named(name), Live(old(Slots()))).None?
          && HasPlace(old(fs.view), old(Slots())))
      ensures r.Some? ==>
        && isDir && To83(name).Some? && FirstMatch(Named(name), Live(old(Slots()))).None?
        && fs.disk.faulted == old(fs.disk.faulted)
        && fresh(r.value) && r.value.fs == fs && !r.value.isDir && r.value.chain == []
        && r.value.DecodedFrom(r.value.NewEntry(name))
        && Inserted(old(Slots()), Slots(), r.value.NewEntry(name), ClusterBytes(fs.bpb))
      ensures r.None? ==>
        || !isDir || To83(name).None? || FirstMatch(Named(name), Live(old(Slots()))).Some?
        || fs.disk.faulted || fs.Full()
      ensures r.None? && (!fs.disk.faulted || To83(name).None? || FirstMatch(Named(name), Live(old(Slots()))).Some?) ==>
        fs.view == old(fs.view) && chain == old(chain)
      ensures r.None? && To83(name).Some? ==>
        InsertCut(old(fs.view), old(Slots()), Slots(), NewRecord(To83(name).value), ClusterBytes(fs.bpb))
    {
      hide OnlyMine, DirSlots, ClusterSlots, Inserted, ChainBytes, IsChain, To83, NameMatches, InsertCut, HasPlace,
        Acceptable;
      AcceptedIff(name);
      OnlyMineRefl(fs.view, chain, parentCluster, dirEntryOffset);
      if To83(name).Some? {
        NotInserted(fs.view, Slots(), NewRecord(To83(name).value), ClusterBytes(fs.bpb));
      }
      if !isDir {
        return None;
      }
      var name83 := To83(name);
      if name83.None? {
        return None;
      }
      var ok, _, dup := WalkDir(Finder(Named(name)), ());
      VisitFinder(Named(name), Live(Slots()));
      if !ok || dup.Some? {
        return None;
      }
      var slot := Insert(NewRecord(name83.value), fs.view, chain);
      if slot.None? {
        return None;
      }
      var node := new Fat32Node(fs, 0, 0, false, slot.value.0, slot.value.1, []);
      return Some(node);
    }

    /** The record of an empty file called `name` at this node's place. */
    ghost function NewEntry(name: seq<byte>): Slot
      requires To83(name).Some?
    {
      Slot(NewRecord(To83(name).value), parentCluster, dirEntryOffset)
    }

    /** Appends a zeroed cluster to a directory without free slots. */
    method GrowDirectory(last: nat, ghost v0: View, ghost own0: seq<nat>) returns (r: Option<nat>)
      requires Valid() && Track(v0, own0) && NoFree(Slots())
      requires chain != [] && last == chain[|chain| - 1]
      modifies fs.disk, fs`view, this`chain
      ensures Valid() && Track(v0, own0)
      ensures ParentData() == old(ParentData()) && old(chain) <= chain
      ensures r.Some? ==>
        && chain == old(chain) + [r.value] && fs.disk.faulted == old(fs.disk.faulted)
        && FreeSlotAt(fs.view.data, chain, |chain| - 1, 0)
        && Slots() == old(Slots()) + ClusterSlots(Zeros(ClusterBytes(fs.bpb)), r.value)
      ensures r.None? ==>
        && (fs.disk.faulted || (fs.Full() && fs.view == old(fs.view) && chain == old(chain)))
        && GrownCut(old(fs.view), old(Slots()), Slots(), ClusterBytes(fs.bpb))
      ensures !fs.disk.faulted ==> (r.Some? <==> old(fs.Room()) > 0)
    {
      hide DirSlots, ClusterSlots, NoFree, Linked, ChainBytes, Tracked, Stale, GrownCut, GrowthCut, FreeSlotAt, IsChain,
        FreeClusters;
      OwnClusters();
      ghost var v := fs.view;
      r := Grow(last, v0, own0);
      if r.Some? {
        AppendedSlots(v.data, old(chain), r.value, Zeros(ClusterBytes(fs.bpb)));
        FirstOfZeroed(v.data, old(chain), r.value, ClusterBytes(fs.bpb));
      } else {
        CutSlots(v, fs.view, old(chain), chain, ClusterBytes(fs.bpb));
        if !fs.disk.faulted {
          fs.FullRoom();
        }
      }
    }
  }

  /** The inner loop of the directory walk: the records of one cluster. */
  method VisitCluster<S, T>(f: (S, Slot) -> (S, Option<T>), s0: S, buf: seq<byte>, cluster: nat, ghost rest: seq<Slot>)
    returns (s: S, r: Option<T>, ended: bool)
    requires |buf| % 32 == 0 && WfSlots(rest)
    ensures ended || r.Some? ==> (s, r) == Visit(f, s0, Live(ClusterSlots(buf, cluster) + rest))
    ensures !ended && r.None? ==> Visit(f, s0, Live(ClusterSlots(buf, cluster) + rest)) == Visit(f, s, Live(rest))
  {
    s, r, ended := s0, None, false;
    ghost var slots := ClusterSlots(buf, cluster);
    ghost var k := 0;
    assert slots[0..] == slots;
    var i := 0;
    while i + 32 <= |buf|
      invariant i == 32 * k && 0 <= k <= |slots|
      invariant r.None? && !ended
      invariant Visit(f, s0, Live(slots + rest)) == Visit(f, s, Live(slots[k..] + rest))
    {
      var entry := Slot(buf[i..i + 32], cluster, i);
      ghost var t := slots[k..] + rest;
      assert t[0] == entry && t[1..] == slots[k + 1..] + rest;
      if entry.rec[0] == 0 {
        ended := true;
        return;
      }
      i := i + 32;
      k := k + 1;
      if entry.rec[0] != DELETED && IsPlain(entry.rec) {
        assert Live(t) == [entry] + Live(slots[k..] + rest);
        var (s', v) := f(s, entry);
        s := s';
        if v.Some? {
          r := v;
          return;
        }
      }
    }
    assert slots[k..] + rest == rest;
  }

  /** Matches records whose 8.3 name is `name`, ignoring case. */
  function Named(name: seq<byte>): Slot -> bool {
    (e: Slot) => |e.rec| == RECORD && NameMatches(e.rec[..11], name)
  }

  /** There is room for one more record: a free slot, or a free cluster to append. */
  ghost predicate HasPlace(v: View, slots: seq<Slot>) { !NoFree(slots) || FreeCount(v) > 0 }

  /** The slot at byte `off` of the j-th cluster is the first free one. */
  ghost predicate FreeSlotAt(data: seq<seq<byte>>, ds: seq<nat>, j: nat, off: nat)
    requires forall x {:trigger ds[x]} :: 0 <= x < |ds| ==> ds[x] < |data|
  {
    && j < |ds| && off % 32 == 0 && off + RECORD <= |data[ds[j]]|
    && NoFree(DirSlots(data, ds[..j]))
    && NoFree(ClusterSlots(data[ds[j]], ds[j])[..off / 32])
    && IsFreeSlot(Record(data[ds[j]], off))
  }

  /** Byte offset of the first free slot of one cluster. */
  method FreeInCluster(buf: seq<byte>, ghost c: nat) returns (r: Option<nat>)
    requires |buf| % 32 == 0
    ensures r.Some? ==>
      && r.value % 32 == 0 && r.value + RECORD <= |buf|
      && NoFree(ClusterSlots(buf, c)[..r.value / 32]) && IsFreeSlot(Record(buf, r.value))
    ensures r.None? ==> NoFree(ClusterSlots(buf, c))
  {
    var i := 0;
    ghost var slots := ClusterSlots(buf, c);
    while i < |buf|
      invariant i % 32 == 0 && 0 <= i <= |buf|
      invariant NoFree(slots[..i / 32])
    {
      assert slots[i / 32].rec == Record(buf, i);
      if buf[i] == 0 || buf[i] == DELETED {
        return Some(i);
      }
      assert slots[..(i + 32) / 32] == slots[..i / 32] + [slots[i / 32]];
      i := i + 32;
    }
    assert slots[..i / 32] == slots;
    return None;
  }

  lemma NoSlotsFree(data: seq<seq<byte>>, ds: seq<nat>)
    requires forall x {:trigger ds[x]} :: 0 <= x < |ds| ==> ds[x] < |data|
    ensures NoFree(DirSlots(data, ds[..0]))
  {
    NoSlots(data);
    assert ds[..0] == [];
  }

  /** The first slot of a zeroed cluster appended to a full directory is its first free one. */
  lemma FirstOfZeroed(data: seq<seq<byte>>, ds: seq<nat>, c: nat, cb: nat)
    requires (forall x {:trigger ds[x]} :: 0 <= x < |ds| ==> ds[x] < |data|) && c < |data| && c !in ds
    requires NoFree(DirSlots(data, ds)) && cb >= 32
    ensures FreeSlotAt(data[c := Zeros(cb)], ds + [c], |ds|, 0)
  {
    hide DirSlots;
    AppendedSlots(data, ds, c, Zeros(cb));
    assert (ds + [c])[..|ds|] == ds;
  }

  /** The slots of a directory after a failed attempt to make it longer. */
  lemma CutSlots(v: View, v': View, ds: seq<nat>, ds': seq<nat>, cb: nat)
    requires (forall x {:trigger ds[x]} :: 0 <= x < |ds| ==> ds[x] < |v.data|) && |v.fat| > 0
    requires IsChain(v.fat[0], ds) && GrowthCut(v, v', ds, ds', cb) && NoFree(DirSlots(v.data, ds))
    ensures forall x {:trigger ds'[x]} :: 0 <= x < |ds'| ==> ds'[x] < |v'.data|
    ensures GrownCut(v, DirSlots(v.data, ds), DirSlots(v'.data, ds'), cb)
  {
    hide DirSlots, ClusterSlots, NoFree, Torn, AllocStage, IsChain;
    if v' == v && ds' == ds {
    } else {
      var c: nat :| AllocCut(v, v', Some(ds[|ds| - 1]), c, cb) && (ds' == ds || ds' == ds + [c]);
      FreeNotInChain(v.fat[0], ds, c);
      AppendedSlots(v.data, ds, c, v'.data[c]);
      assert Stale(v, c, v'.data[c], cb);
    }
  }

  lemma NoFreeNext(data: seq<seq<byte>>, ds: seq<nat>, j: nat)
    requires forall x {:trigger ds[x]} :: 0 <= x < |ds| ==> ds[x] < |data|
    requires j < |ds| && NoFree(DirSlots(data, ds[..j])) && NoFree(ClusterSlots(data[ds[j]], ds[j]))
    ensures NoFree(DirSlots(data, ds[..j + 1]))
  {
    hide *;
    DirSlotsBack(data, ds, j);
    NoFreeConcat(DirSlots(data, ds[..j]), ClusterSlots(data[ds[j]], ds[j]));
  }
}
