/** A directory seen as a list of named byte strings, and the proof that writing one file
    changes one element of that list and creating a file appends one. */
module AbstractDir {
  import opened Bytes
  import opened FatLayout
  import opened FatChains
  import opened Fat32
  import opened FileSpec
  import opened DirRecord
  import opened DirSpec
  import opened ShortNames
  import opened FatNode

  // ---- how the slots of a directory move with a write to one of its files ----

  ghost predicate NodeFieldsOnly(r: seq<byte>, r': seq<byte>) {
    |r'| == |r| && forall i :: 0 <= i < |r| && !InNodeFields(0, i) ==> r'[i] == r[i]
  }

  /** The same slot; only the one at (par, off) may differ, and only in its node fields. */
  ghost predicate SlotKept(a: Slot, b: Slot, par: nat, off: nat) {
    && b.cluster == a.cluster && b.off == a.off && |a.rec| == |b.rec| == RECORD
    && (if a.cluster == par && a.off == off then NodeFieldsOnly(a.rec, b.rec) else b.rec == a.rec)
  }

  ghost predicate SlotsKept(s: seq<Slot>, s': seq<Slot>, par: nat, off: nat) {
    |s'| == |s| && forall k {:trigger s[k]} {:trigger s'[k]} :: 0 <= k < |s| ==> SlotKept(s[k], s'[k], par, off)
  }

  lemma ClusterKept(d: seq<byte>, d': seq<byte>, c: nat, par: nat, off: nat)
    requires if c == par then RecordFrame(d, d', off) else d' == d
    requires off % 32 == 0
    ensures SlotsKept(ClusterSlots(d, c), ClusterSlots(d', c), par, off)
  {
    var s, s' := ClusterSlots(d, c), ClusterSlots(d', c);
    forall k | 0 <= k < |s| ensures SlotKept(s[k], s'[k], par, off) {
      var r, r' := d[32 * k..32 * k + 32], d'[32 * k..32 * k + 32];
      assert s[k].rec == r && s'[k].rec == r';
      if c == par {
        forall i | 0 <= i < 32 && (32 * k != off || !InNodeFields(0, i)) ensures r'[i] == r[i] {
          assert !InNodeFields(off, 32 * k + i);
          assert d'[32 * k + i] == d[32 * k + i];
        }
        assert 32 * k != off ==> r' == r;
      }
    }
  }

  lemma {:induction false} DirectoryKept(data: seq<seq<byte>>, data': seq<seq<byte>>, ds: seq<nat>, par: nat, off: nat)
    requires forall i {:trigger ds[i]} :: 0 <= i < |ds| ==>
      && ds[i] < |data| && ds[i] < |data'|
      && (if ds[i] == par then RecordFrame(data[par], data'[par], off) else data'[ds[i]] == data[ds[i]])
    requires off % 32 == 0
    ensures SlotsKept(DirSlots(data, ds), DirSlots(data', ds), par, off)
  {
    if ds == [] {
    } else {
      hide ClusterSlots, RecordFrame, SlotKept;
      var t := ds[1..];
      assert forall i :: 0 <= i < |t| ==> t[i] == ds[i + 1];
      DirectoryKept(data, data', t, par, off);
      ClusterKept(data[ds[0]], data'[ds[0]], ds[0], par, off);
      JoinedKept(ClusterSlots(data[ds[0]], ds[0]), ClusterSlots(data'[ds[0]], ds[0]), DirSlots(data, t),
                 DirSlots(data', t), par, off);
    }
  }

  lemma JoinedKept(a: seq<Slot>, a': seq<Slot>, b: seq<Slot>, b': seq<Slot>, par: nat, off: nat)
    requires SlotsKept(a, a', par, off) && SlotsKept(b, b', par, off)
    ensures SlotsKept(a + b, a' + b', par, off)
  {
    hide SlotKept;
  }

  /** The listing keeps its length; each element stays or changes in its node fields. */
  lemma {:induction false} ListingKept(s: seq<Slot>, s': seq<Slot>, par: nat, off: nat)
    requires WfSlots(s) && WfSlots(s') && SlotsKept(s, s', par, off)
    ensures SlotsKept(Live(s), Live(s'), par, off)
  {
    if s == [] {
    } else {
      var a, b := s[0], s'[0];
      assert SlotKept(a, b, par, off);
      assert b.rec[0] == a.rec[0] && b.rec[0x0B] == a.rec[0x0B];
      assert forall k :: 0 <= k < |s[1..]| ==> s[1..][k] == s[k + 1] && s'[1..][k] == s'[k + 1];
      ListingKept(s[1..], s'[1..], par, off);
    }
  }

  // ---- every record has a place of its own ----

  ghost predicate OwnPlaces(s: seq<Slot>) {
    forall i, j {:trigger s[i], s[j]} :: 0 <= i < j < |s| ==> s[i].cluster != s[j].cluster || s[i].off != s[j].off
  }

  /** Where the slots of a directory lie. */
  lemma {:induction false} SlotPlaces(data: seq<seq<byte>>, ds: seq<nat>, cb: nat)
    requires Holds(data, ds, cb)
    ensures forall k {:trigger DirSlots(data, ds)[k]} :: 0 <= k < |DirSlots(data, ds)| ==>
      && DirSlots(data, ds)[k].cluster in ds && DirSlots(data, ds)[k].off % 32 == 0
      && DirSlots(data, ds)[k].off + 32 <= cb
  {
    if ds == [] {
    } else {
      SlotPlaces(data, ds[1..], cb);
    }
  }

  lemma {:induction false} PlacesDistinct(data: seq<seq<byte>>, ds: seq<nat>, cb: nat)
    requires Holds(data, ds, cb) && Distinct(ds)
    ensures OwnPlaces(DirSlots(data, ds))
  {
    if ds == [] {
    } else {
      PlacesDistinct(data, ds[1..], cb);
      SlotPlaces(data, ds[1..], cb);
      assert forall x :: x in ds[1..] ==> x != ds[0];
    }
  }

  lemma {:induction false} LiveSubset(s: seq<Slot>)
    requires WfSlots(s)
    ensures forall k :: 0 <= k < |Live(s)| ==> Live(s)[k] in s
  {
    if s == [] || s[0].rec[0] == 0 {
    } else {
      LiveSubset(s[1..]);
    }
  }

  lemma {:induction false} LivePlaces(s: seq<Slot>)
    requires WfSlots(s) && OwnPlaces(s)
    ensures OwnPlaces(Live(s))
  {
    if s == [] || s[0].rec[0] == 0 {
    } else {
      LivePlaces(s[1..]);
      LiveSubset(s[1..]);
      assert forall k :: 0 <= k < |s[1..]| ==> s[1..][k] == s[k + 1];
    }
  }

  // ---- the abstract directory ----

  datatype Entry = Entry(name: seq<byte>, isDir: bool, contents: seq<byte>)

  /** The bytes of a chain beyond the size of the file are zero. */
  ghost predicate ZeroBeyond(data: seq<seq<byte>>, cs: seq<nat>, size: nat) {
    && (forall i {:trigger cs[i]} :: 0 <= i < |cs| ==> cs[i] < |data|)
    && size <= |ChainBytes(data, cs)| && AllZero(ChainBytes(data, cs)[size..])
  }

  /** Record `e` describes the file whose clusters are `cs`. */
  ghost predicate RecordFits(b: Bpb, v: View, e: Slot, cs: seq<nat>)
    requires Shape(b, v) && b.numFats >= 1 && |e.rec| == RECORD
  {
    if IsDirectory(e.rec) then cs == []
    else
      && NodeOk(b, v, cs, FirstClusterOf(e.rec), EntrySize(e.rec), e.cluster, e.off)
      && ZeroBeyond(v.data, cs, EntrySize(e.rec))
  }

  /** Directory `ds` and the files in it: each live record fits its chain, no two files
      share a cluster and none shares one with the directory. */
  ghost predicate WfDirectory(b: Bpb, v: View, ds: seq<nat>, chains: seq<seq<nat>>) {
    && Shape(b, v) && b.numFats >= 1 && Entries(b) <= EOC_MIN && IsChain(v.fat[0], ds)
    && |chains| == |Live(DirSlots(v.data, ds))|
    && (forall i {:trigger chains[i]} :: 0 <= i < |chains| ==>
          RecordFits(b, v, Live(DirSlots(v.data, ds))[i], chains[i]) && Disjoint(chains[i], ds))
    && (forall i, j :: 0 <= i < |chains| && 0 <= j < |chains| && i != j ==> Disjoint(chains[i], chains[j]))
  }

  ghost function EntryOf(data: seq<seq<byte>>, e: Slot, cs: seq<nat>): Entry
    requires |e.rec| == RECORD
    requires forall i {:trigger cs[i]} :: 0 <= i < |cs| ==> cs[i] < |data|
  {
    var bytes := ChainBytes(data, cs);
    Entry(Decode(e.rec[..11]), IsDirectory(e.rec),
          if EntrySize(e.rec) <= |bytes| then bytes[..EntrySize(e.rec)] else bytes)
  }

  /** The directory as a list of named byte strings, in listing order. */
  ghost function Listing(b: Bpb, v: View, ds: seq<nat>, chains: seq<seq<nat>>): (r: seq<Entry>)
    requires WfDirectory(b, v, ds, chains)
    ensures |r| == |chains|
  {
    var live := Live(DirSlots(v.data, ds));
    seq(|chains|, i requires 0 <= i < |chains| =>
      assert RecordFits(b, v, live[i], chains[i]);
      EntryOf(v.data, live[i], chains[i]))
  }

  // ---- isolation ----

  /** A chain that avoids the clusters of the written file and the free ones is still a
      chain in every FAT copy, and its clusters hold the same bytes. */
  lemma OtherChainUntouched(v: View, v': View, own: seq<nat>, par: nat, off: nat, f: nat, cs: seq<nat>)
    requires OnlyMine(v, v', own, par, off)
    requires f < |v.fat| && |v.fat[f]| <= |v.data| && IsChain(v.fat[f], cs)
    requires forall i {:trigger cs[i]} :: 0 <= i < |cs| ==> !Mine(v, own, cs[i]) && cs[i] != par
    ensures IsChain(v'.fat[f], cs)
    ensures forall i {:trigger cs[i]} :: 0 <= i < |cs| ==> cs[i] < |v'.data|
    ensures ChainBytes(v'.data, cs) == ChainBytes(v.data, cs)
  {
    forall i | 0 <= i < |cs| ensures v'.fat[f][cs[i]] == v.fat[f][cs[i]] && v'.data[cs[i]] == v.data[cs[i]] {
      assert |v'.fat[f]| == |v.fat[f]|;
    }
    ChainFrame(v.fat[f], v'.fat[f], cs);
    ChainBytesFrame(v.data, v'.data, cs);
  }

  /** Clusters of a chain disjoint from `own` are none of the written file's. */
  lemma ChainNotMine(v: View, own: seq<nat>, cs: seq<nat>)
    requires |v.fat| > 0 && IsChain(v.fat[0], cs) && Disjoint(cs, own)
    ensures forall i {:trigger cs[i]} :: 0 <= i < |cs| ==> !Mine(v, own, cs[i])
  {
    forall i | 0 <= i < |cs| ensures !Mine(v, own, cs[i]) {
      if IsFree(v.fat[0], cs[i]) {
        FreeNotInChain(v.fat[0], cs, cs[i]);
        assert false;
      }
    }
  }

  /** A directory stays a chain and keeps its slots, the written file's record aside. */
  lemma SlotsUntouched(b: Bpb, v: View, v': View, own: seq<nat>, par: nat, off: nat, ds: seq<nat>)
    requires Shape(b, v) && Shape(b, v') && b.numFats >= 1 && off % 32 == 0
    requires OnlyMine(v, v', own, par, off) && IsChain(v.fat[0], ds) && Disjoint(ds, own)
    ensures IsChain(v'.fat[0], ds)
    ensures SlotsKept(DirSlots(v.data, ds), DirSlots(v'.data, ds), par, off)
  {
    ChainNotMine(v, own, ds);
    forall i | 0 <= i < |ds|
      ensures ds[i] < |v.data| && v'.fat[0][ds[i]] == v.fat[0][ds[i]]
      ensures if ds[i] == par then RecordFrame(v.data[par], v'.data[par], off) else v'.data[ds[i]] == v.data[ds[i]]
    {
    }
    ChainFrame(v.fat[0], v'.fat[0], ds);
    DirectoryKept(v.data, v'.data, ds, par, off);
  }

  lemma DirectoryUntouched(b: Bpb, v: View, v': View, own: seq<nat>, par: nat, off: nat, ds: seq<nat>)
    requires Shape(b, v) && Shape(b, v') && b.numFats >= 1 && off % 32 == 0
    requires OnlyMine(v, v', own, par, off) && IsChain(v.fat[0], ds) && Disjoint(ds, own)
    ensures IsChain(v'.fat[0], ds)
    ensures SlotsKept(Live(DirSlots(v.data, ds)), Live(DirSlots(v'.data, ds)), par, off)
  {
    SlotsUntouched(b, v, v', own, par, off, ds);
    ListingKept(DirSlots(v.data, ds), DirSlots(v'.data, ds), par, off);
  }

  /** A file other than the written one keeps fitting its record. */
  lemma OtherFileFits(b: Bpb, v: View, v': View, own: seq<nat>, own': seq<nat>, par: nat, off: nat, e: Slot,
                      cs: seq<nat>)
    requires Shape(b, v) && Shape(b, v') && b.numFats >= 1 && |e.rec| == RECORD
    requires Tracked(v, v', own, own', par, off) && par != 0
    requires RecordFits(b, v, e, cs) && Disjoint(cs, own) && par !in cs
    requires !IsDirectory(e.rec) ==> e.cluster != 0 && !Mine(v, own, e.cluster)
    ensures forall i {:trigger cs[i]} :: 0 <= i < |cs| ==> cs[i] < |v.data| && cs[i] < |v'.data|
    ensures RecordFits(b, v', e, cs) && Disjoint(cs, own')
    ensures ChainBytes(v'.data, cs) == ChainBytes(v.data, cs)
  {
    if cs != [] {
      ChainNotMine(v, own, cs);
      OtherChainUntouched(v, v', own, par, off, 0, cs);
    }
    if !IsDirectory(e.rec) {
      assert v'.fat[0][e.cluster] == v.fat[0][e.cluster];
    }
  }

  /** The record in a slot is stored at the slot's place. */
  lemma {:induction false} SlotRecord(data: seq<seq<byte>>, ds: seq<nat>, cb: nat)
    requires Holds(data, ds, cb)
    ensures forall k {:trigger DirSlots(data, ds)[k]} :: 0 <= k < |DirSlots(data, ds)| ==>
      var e := DirSlots(data, ds)[k];
      e.cluster < |data| && e.off + 32 <= |data[e.cluster]| && e.rec == data[e.cluster][e.off..e.off + 32]
  {
    if ds == [] {
    } else {
      SlotRecord(data, ds[1..], cb);
    }
  }

  // ---- refinement ----

  /** Each live record lies in its directory, at a place of its own. */
  lemma ListingPlaces(b: Bpb, v: View, ds: seq<nat>)
    requires Shape(b, v) && b.numFats >= 1 && Entries(b) <= EOC_MIN && IsChain(v.fat[0], ds)
    ensures var live := Live(DirSlots(v.data, ds));
      && OwnPlaces(live)
      && forall i {:trigger live[i]} :: 0 <= i < |live| ==>
           && live[i].cluster in ds && live[i].off % 32 == 0
           && live[i].cluster < |v.data| && live[i].off + 32 <= |v.data[live[i].cluster]|
           && live[i].rec == Record(v.data[live[i].cluster], live[i].off)
  {
    var s := DirSlots(v.data, ds);
    ChainDistinct(v.fat[0], ds);
    PlacesDistinct(v.data, ds, ClusterBytes(b));
    SlotPlaces(v.data, ds, ClusterBytes(b));
    SlotRecord(v.data, ds, ClusterBytes(b));
    LivePlaces(s);
    LiveSubset(s);
  }

  /** Of the files of a directory only the i-th may have changed between v and v': all other
      records, chains and contents are as they were. */
  ghost predicate Isolated(b: Bpb, v: View, v': View, ds: seq<nat>, chains: seq<seq<nat>>, i: nat)
    requires WfDirectory(b, v, ds, chains)
  {
    && Shape(b, v') && IsChain(v'.fat[0], ds)
    && |Live(DirSlots(v'.data, ds))| == |chains|
    && forall j {:trigger chains[j]} :: 0 <= j < |chains| && j != i ==>
         && Live(DirSlots(v'.data, ds))[j] == Live(DirSlots(v.data, ds))[j]
         && RecordFits(b, v', Live(DirSlots(v.data, ds))[j], chains[j])
         && (forall k {:trigger chains[j][k]} :: 0 <= k < |chains[j]| ==> chains[j][k] < |v.data|)
         && ChainBytes(v'.data, chains[j]) == ChainBytes(v.data, chains[j])
  }

  /** Whatever a write to file i came to, finished or stopped midway, the other files of
      the directory are untouched. */
  lemma WriteIsolates(b: Bpb, v: View, v': View, ds: seq<nat>, chains: seq<seq<nat>>, i: nat, own': seq<nat>)
    requires WfDirectory(b, v, ds, chains) && i < |chains| && Shape(b, v')
    requires var e := Live(DirSlots(v.data, ds))[i]; Tracked(v, v', chains[i], own', e.cluster, e.off)
    ensures Isolated(b, v, v', ds, chains, i)
  {
    hide DirSlots, Live, Decode, LeDecode, OnlyMine, Mine;
    var live, live' := Live(DirSlots(v.data, ds)), Live(DirSlots(v'.data, ds));
    var par, off := live[i].cluster, live[i].off;
    ListingPlaces(b, v, ds);
    assert RecordFits(b, v, live[i], chains[i]) && Disjoint(chains[i], ds);
    DirectoryUntouched(b, v, v', chains[i], par, off, ds);
    ChainNotMine(v, chains[i], ds);
    forall j | 0 <= j < |chains| && j != i
      ensures live'[j] == live[j] && RecordFits(b, v', live[j], chains[j])
      ensures forall k {:trigger chains[j][k]} :: 0 <= k < |chains[j]| ==> chains[j][k] < |v.data|
      ensures ChainBytes(v'.data, chains[j]) == ChainBytes(v.data, chains[j])
    {
      assert SlotKept(live[j], live'[j], par, off);
      assert RecordFits(b, v, live[j], chains[j]) && Disjoint(chains[j], ds) && Disjoint(chains[j], chains[i]);
      assert par in ds;
      OtherFileFits(b, v, v', chains[i], own', par, off, live[j], chains[j]);
    }
  }

  /** What is known about a file with index i after a write to it went from v to v'. */
  ghost predicate Written(b: Bpb, v: View, v': View, ds: seq<nat>, chains: seq<seq<nat>>, i: nat, own': seq<nat>)
    requires WfDirectory(b, v, ds, chains) && i < |chains|
  {
    var e := Live(DirSlots(v.data, ds))[i];
    && Shape(b, v') && !IsDirectory(e.rec)
    && Tracked(v, v', chains[i], own', e.cluster, e.off)
    && e.cluster < |v'.data| && e.off + 32 <= |v'.data[e.cluster]|
    && NodeOk(b, v', own', FirstClusterOf(Record(v'.data[e.cluster], e.off)),
              EntrySize(Record(v'.data[e.cluster], e.off)), e.cluster, e.off)
    && ZeroBeyond(v'.data, own', EntrySize(Record(v'.data[e.cluster], e.off)))
  }

  /** Element j of the directory after the write. */
  lemma WrittenAt(b: Bpb, v: View, v': View, ds: seq<nat>, chains: seq<seq<nat>>, i: nat, own': seq<nat>, j: nat)
    requires WfDirectory(b, v, ds, chains) && i < |chains| && j < |chains|
    requires Written(b, v, v', ds, chains, i, own')
    requires IsChain(v'.fat[0], ds)
    requires SlotsKept(Live(DirSlots(v.data, ds)), Live(DirSlots(v'.data, ds)),
                       Live(DirSlots(v.data, ds))[i].cluster, Live(DirSlots(v.data, ds))[i].off)
    ensures var e, e', cs := Live(DirSlots(v.data, ds))[j], Live(DirSlots(v'.data, ds))[j], chains[i := own'][j];
      && RecordFits(b, v', e', cs) && Disjoint(cs, ds)
      && (j != i ==> e' == e && Disjoint(cs, own') && ChainBytes(v'.data, cs) == ChainBytes(v.data, cs))
      && e'.rec[..0x14] == e.rec[..0x14]
  {
    var live, live' := Live(DirSlots(v.data, ds)), Live(DirSlots(v'.data, ds));
    var par, off := live[i].cluster, live[i].off;
    ListingPlaces(b, v, ds);
    ListingPlaces(b, v', ds);
    assert SlotKept(live[j], live'[j], par, off);
    assert par != 0;
    if j == i {
      assert live'[i].rec == Record(v'.data[par], off);
      ChainNotMine(v, chains[i], ds);
    } else {
      assert chains[i := own'][j] == chains[j];
      assert live'[j] == live[j];
      assert RecordFits(b, v, live[j], chains[j]) && Disjoint(chains[j], ds);
      assert par in ds;
      if !IsDirectory(live[j].rec) {
        ChainNotMine(v, chains[i], ds);
      }
      OtherFileFits(b, v, v', chains[i], own', par, off, live[j], chains[j]);
    }
  }

  /** Writing one file of a directory, seen from outside: the directory stays well formed
      and of its list only the contents of that file have changed. */
  lemma WriteRefines(b: Bpb, v: View, v': View, ds: seq<nat>, chains: seq<seq<nat>>, i: nat, own': seq<nat>)
    requires WfDirectory(b, v, ds, chains) && i < |chains|
    requires Written(b, v, v', ds, chains, i, own')
    ensures WfDirectory(b, v', ds, chains[i := own'])
    ensures forall j :: 0 <= j < |chains| && j != i ==>
      Listing(b, v', ds, chains[i := own'])[j] == Listing(b, v, ds, chains)[j]
    ensures var old_, new_ := Listing(b, v, ds, chains)[i], Listing(b, v', ds, chains[i := own'])[i];
      && new_.name == old_.name && !new_.isDir
      && new_.contents == ChainBytes(v'.data, own')[..EntrySize(Record(v'.data[Live(DirSlots(v.data, ds))[i].cluster],
                                                                       Live(DirSlots(v.data, ds))[i].off))]
  {
    hide DirSlots, Live, Decode, LeDecode, OnlyMine, Mine;
    var live, live' := Live(DirSlots(v.data, ds)), Live(DirSlots(v'.data, ds));
    var par, off := live[i].cluster, live[i].off;
    ListingPlaces(b, v, ds);
    assert RecordFits(b, v, live[i], chains[i]) && Disjoint(chains[i], ds);
    DirectoryUntouched(b, v, v', chains[i], par, off, ds);
    var chains' := chains[i := own'];
    forall j | 0 <= j < |chains'|
      ensures RecordFits(b, v', live'[j], chains'[j]) && Disjoint(chains'[j], ds)
      ensures j != i ==> live'[j] == live[j] && Disjoint(chains'[j], own')
      ensures j != i ==> ChainBytes(v'.data, chains'[j]) == ChainBytes(v.data, chains'[j])
      ensures live'[j].rec[..0x14] == live[j].rec[..0x14]
    {
      WrittenAt(b, v, v', ds, chains, i, own', j);
    }
    ListingPlaces(b, v', ds);
    assert live'[i].rec == Record(v'.data[par], off);
    SameName(live[i].rec, live'[i].rec);
  }

  lemma SameName(r: seq<byte>, r': seq<byte>)
    requires |r| == |r'| == RECORD && r'[..0x14] == r[..0x14]
    ensures r'[..11] == r[..11] && r'[0x0B] == r[0x0B] && IsDirectory(r') == IsDirectory(r)
  {
    assert r[..0x14][..11] == r[..11] && r'[..0x14][..11] == r'[..11];
    assert r[..0x14][0x0B] == r[0x0B] && r'[..0x14][0x0B] == r'[0x0B];
  }

  /** A file of a directory after another file was created in it. */
  lemma OtherFileAfterCreate(b: Bpb, v: View, v': View, ds: seq<nat>, ds': seq<nat>, e: Slot, cs: seq<nat>)
    requires Shape(b, v) && Shape(b, v') && b.numFats >= 1 && |e.rec| == RECORD
    requires Tracked(v, v', ds, ds', 0, 0) && IsChain(v'.fat[0], ds')
    requires RecordFits(b, v, e, cs) && Disjoint(cs, ds) && e.cluster in ds'
    ensures forall i {:trigger cs[i]} :: 0 <= i < |cs| ==> cs[i] < |v.data| && cs[i] < |v'.data|
    ensures RecordFits(b, v', e, cs) && Disjoint(cs, ds')
    ensures ChainBytes(v'.data, cs) == ChainBytes(v.data, cs)
  {
    if cs != [] {
      ChainNotMine(v, ds, cs);
      OtherChainUntouched(v, v', ds, 0, 0, 0, cs);
    }
    assert Disjoint(cs, ds');
    if !IsDirectory(e.rec) {
      if IsFree(v'.fat[0], e.cluster) {
        FreeNotInChain(v'.fat[0], ds', e.cluster);
        assert false;
      }
    }
  }

  /** What is known about a directory after a file was created in it. */
  ghost predicate Created(b: Bpb, v: View, v': View, ds: seq<nat>, ds': seq<nat>, entry: Slot) {
    && Shape(b, v) && Shape(b, v') && b.numFats >= 1 && Entries(b) <= EOC_MIN
    && IsChain(v.fat[0], ds) && IsChain(v'.fat[0], ds') && Tracked(v, v', ds, ds', 0, 0)
    && Compact(DirSlots(v.data, ds))
    && Inserted(DirSlots(v.data, ds), DirSlots(v'.data, ds'), entry, ClusterBytes(b))
    && |entry.rec| == RECORD && !IsFreeSlot(entry.rec) && IsPlain(entry.rec)
    && !IsDirectory(entry.rec) && FirstClusterOf(entry.rec) == 0 && EntrySize(entry.rec) == 0
  }

  lemma CreatedLive(b: Bpb, v: View, v': View, ds: seq<nat>, ds': seq<nat>, entry: Slot)
    requires Created(b, v, v', ds, ds', entry)
    ensures Compact(DirSlots(v'.data, ds'))
    ensures Live(DirSlots(v'.data, ds')) == Live(DirSlots(v.data, ds)) + [entry]
    ensures RecordFits(b, v', entry, [])
  {
    InsertedCompact(DirSlots(v.data, ds), DirSlots(v'.data, ds'), entry, ClusterBytes(b));
    ListingPlaces(b, v', ds');
    assert Live(DirSlots(v'.data, ds'))[|Live(DirSlots(v.data, ds))|] == entry;
    EmptyFileFits(b, v', ds', entry);
  }

  lemma CreatedAt(b: Bpb, v: View, v': View, ds: seq<nat>, ds': seq<nat>, chains: seq<seq<nat>>, entry: Slot, j: nat)
    requires WfDirectory(b, v, ds, chains) && Created(b, v, v', ds, ds', entry)
    requires j < |chains|
    requires Live(DirSlots(v'.data, ds')) == Live(DirSlots(v.data, ds)) + [entry]
    ensures var e := Live(DirSlots(v.data, ds))[j];
      && Live(DirSlots(v'.data, ds'))[j] == e
      && RecordFits(b, v', e, chains[j]) && Disjoint(chains[j], ds')
      && ChainBytes(v'.data, chains[j]) == ChainBytes(v.data, chains[j])
  {
    var e := Live(DirSlots(v.data, ds))[j];
    ListingPlaces(b, v', ds');
    assert Live(DirSlots(v'.data, ds'))[j] == e;
    assert RecordFits(b, v, e, chains[j]) && Disjoint(chains[j], ds);
    OtherFileAfterCreate(b, v, v', ds, ds', e, chains[j]);
  }

  /** Creating a file in a compact directory appends one empty file to its list. */
  lemma CreateRefines(b: Bpb, v: View, v': View, ds: seq<nat>, ds': seq<nat>, chains: seq<seq<nat>>, entry: Slot)
    requires WfDirectory(b, v, ds, chains) && Created(b, v, v', ds, ds', entry)
    ensures WfDirectory(b, v', ds', chains + [[]])
    ensures Listing(b, v', ds', chains + [[]]) ==
      Listing(b, v, ds, chains) + [Entry(Decode(entry.rec[..11]), false, [])]
  {
    CreatedLive(b, v, v', ds, ds', entry);
    forall j | 0 <= j < |chains|
      ensures Live(DirSlots(v'.data, ds'))[j] == Live(DirSlots(v.data, ds))[j]
      ensures RecordFits(b, v', Live(DirSlots(v.data, ds))[j], chains[j]) && Disjoint(chains[j], ds')
      ensures ChainBytes(v'.data, chains[j]) == ChainBytes(v.data, chains[j])
    {
      CreatedAt(b, v, v', ds, ds', chains, entry, j);
    }
    ExtendedListing(b, v, v', ds, ds', chains, entry);
  }

  lemma ExtendedListing(b: Bpb, v: View, v': View, ds: seq<nat>, ds': seq<nat>, chains: seq<seq<nat>>, entry: Slot)
    requires WfDirectory(b, v, ds, chains)
    requires Shape(b, v') && IsChain(v'.fat[0], ds') && |entry.rec| == RECORD
    requires Live(DirSlots(v'.data, ds')) == Live(DirSlots(v.data, ds)) + [entry]
    requires RecordFits(b, v', entry, []) && !IsDirectory(entry.rec) && EntrySize(entry.rec) == 0
    requires forall j {:trigger chains[j]} :: 0 <= j < |chains| ==>
      && RecordFits(b, v', Live(DirSlots(v.data, ds))[j], chains[j]) && Disjoint(chains[j], ds')
      && ChainBytes(v'.data, chains[j]) == ChainBytes(v.data, chains[j])
    ensures WfDirectory(b, v', ds', chains + [[]])
    ensures Listing(b, v', ds', chains + [[]]) ==
      Listing(b, v, ds, chains) + [Entry(Decode(entry.rec[..11]), false, [])]
  {
    hide DirSlots, Decode, LeDecode;
    var live, live' := Live(DirSlots(v.data, ds)), Live(DirSlots(v'.data, ds'));
    var chains' := chains + [[]];
    forall j | 0 <= j < |chains'| ensures RecordFits(b, v', live'[j], chains'[j]) && Disjoint(chains'[j], ds') {
      assert j < |chains| ==> chains'[j] == chains[j] && live'[j] == live[j];
    }
    assert WfDirectory(b, v', ds', chains');
    assert ChainBytes(v'.data, []) == [];
    var l, l' := Listing(b, v, ds, chains), Listing(b, v', ds', chains');
    forall j | 0 <= j < |l'| ensures l'[j] == (l + [Entry(Decode(entry.rec[..11]), false, [])])[j] {
      if j < |chains| {
        assert chains'[j] == chains[j] && live'[j] == live[j];
        assert RecordFits(b, v, live[j], chains[j]);
      }
    }
  }

  lemma EmptyFileFits(b: Bpb, v: View, ds: seq<nat>, e: Slot)
    requires Shape(b, v) && b.numFats >= 1 && IsChain(v.fat[0], ds)
    requires |e.rec| == RECORD && !IsDirectory(e.rec) && FirstClusterOf(e.rec) == 0 && EntrySize(e.rec) == 0
    requires e.cluster in ds && e.off + 32 <= ClusterBytes(b)
    ensures RecordFits(b, v, e, [])
  {
    if IsFree(v.fat[0], e.cluster) {
      FreeNotInChain(v.fat[0], ds, e.cluster);
      assert false;
    }
  }

  // ---- which names can be found again ----

  /** Names whose record is listed and matches them. */
  predicate Findable(name: seq<byte>) { Clean(name) && name[0] != 0 }

  lemma PackedFirst(name: seq<byte>)
    requires To83(name).Some?
    ensures |name| > 0 && To83(name).value[0] == Upper(name[0])
  {
    SplitName(name);
    PackedHalves(name);
    assert To83(name).value[0] == Half(BaseOf(name), 8)[0] == Upper(BaseOf(name)[0]);
    assert BaseOf(name)[0] == name[0];
  }

  /** A file created in a compact directory is found again under its name if and only if the
      name is clean and does not begin with a NUL. Otherwise its name is still free
      afterwards, so that creating it again is not refused. */
  lemma CreatedIsFound(s: seq<Slot>, s': seq<Slot>, name: seq<byte>, entry: Slot, cb: nat)
    requires Compact(s) && To83(name).Some? && entry.rec == NewRecord(To83(name).value) && Inserted(s, s', entry, cb)
    requires FirstMatch(Named(name), Live(s)).None?
    ensures WfSlots(s')
    ensures FirstMatch(Named(name), Live(s')) == if Findable(name) then Some(entry) else None
  {
    hide Live, Inserted, Clean, To83, Decode;
    PackedFirst(name);
    MatchesItself(name);
    if IsFreeSlot(entry.rec) {
      InsertedUnseen(s, s', entry, cb);
      NotClean(name);
    } else {
      InsertedCompact(s, s', entry, cb);
      FirstMatchConcat(Named(name), Live(s), [entry]);
    }
  }

  /** A first byte of 0xE5 is not ASCII. */
  lemma NotClean(name: seq<byte>)
    requires To83(name).Some? && |name| > 0 && (Upper(name[0]) == 0 || Upper(name[0]) == DELETED)
    ensures !Findable(name)
  {
  }

  /** A name that cannot be found is created twice: two records with the same packed name. */
  lemma CreatedTwice(s: seq<Slot>, s1: seq<Slot>, s2: seq<Slot>, name: seq<byte>, e1: Slot, e2: Slot, cb: nat)
    requires Compact(s) && To83(name).Some? && !Clean(name) && FirstMatch(Named(name), Live(s)).None?
    requires !IsFreeSlot(NewRecord(To83(name).value))
    requires e1.rec == NewRecord(To83(name).value) && Inserted(s, s1, e1, cb)
    requires e2.rec == NewRecord(To83(name).value) && Inserted(s1, s2, e2, cb)
    ensures WfSlots(s1) && FirstMatch(Named(name), Live(s1)).None?
    ensures WfSlots(s2) && Live(s2) == Live(s) + [e1, e2]
  {
    hide Live, Inserted, Clean, To83;
    CreatedIsFound(s, s1, name, e1, cb);
    InsertedCompact(s, s1, e1, cb);
    InsertedCompact(s1, s2, e2, cb);
    assert Live(s) + [e1] + [e2] == Live(s) + [e1, e2];
  }

  /** A clean name that begins with a NUL is accepted, and its record is never listed. */
  lemma NulNameUnseen(s: seq<Slot>, s': seq<Slot>, entry: Slot, cb: nat)
    requires Compact(s) && Inserted(s, s', entry, cb)
    requires To83([0, 0x61]).Some? && entry.rec == NewRecord(To83([0, 0x61]).value)
    ensures Clean([0, 0x61]) && WfSlots(s') && Live(s') == Live(s)
  {
    NulName();
    InsertedUnseen(s, s', entry, cb);
  }

  lemma NulName()
    ensures Clean([0, 0x61]) && To83([0, 0x61]).Some? && To83([0, 0x61]).value[0] == 0
  {
    var name: seq<byte> := [0, 0x61];
    assert LastDot(name).None?;
    PackedFirst(name);
  }

  // ---- creations that were cut off ----

  /** The device fails after the cluster was linked and before it is zeroed: a full
      directory then lists the same if and only if that cluster held no live record. */
  lemma CutAfterLink(v: View, v': View, ds: seq<nat>, c: nat, cb: nat)
    requires |v.fat| > 0 && |v.fat[0]| <= EOC_MIN && |v.fat[0]| <= |v.data| && IsChain(v.fat[0], ds)
    requires LowestFree(v.fat[0], c)
    requires (forall f {:trigger v.fat[f]} :: 0 <= f < |v.fat| ==> |v.fat[f]| == |v.fat[0]|) && cb <= |v.data[c]|
    requires v' == v.(fat := v'.fat) && |v'.fat| == |v.fat|
    requires forall f {:trigger v'.fat[f]} :: 0 <= f < |v.fat| ==> v'.fat[f] == LinkedAfter(v.fat[f], ds[|ds| - 1], c)
    requires forall i {:trigger ds[i]} :: 0 <= i < |ds| ==> ds[i] < |v.data|
    requires NoFree(DirSlots(v.data, ds))
    ensures AllocCut(v, v', Some(ds[|ds| - 1]), c, cb) && IsChain(v'.fat[0], ds + [c])
    ensures Live(DirSlots(v'.data, ds + [c])) == Live(DirSlots(v.data, ds)) <==> Live(ClusterSlots(v.data[c], c)) == []
  {
    hide DirSlots, Live, ClusterSlots, NoFree, LinkedAfter, Torn;
    NotTorn(v.data[c], Zeros(cb));
    ChainExtend(v.fat[0], ds, c);
    AppendedSlots(v.data, ds, c, v.data[c]);
    assert v.data[c := v.data[c]] == v.data;
    AppendedLive(DirSlots(v.data, ds), v.data[c], c);
  }

  /** A cluster of 512 bytes that repeats one record. */
  function FullCluster(rec: seq<byte>): (d: seq<byte>)
    requires |rec| == RECORD
    ensures |d| == 512
  {
    seq(512, i requires 0 <= i < 512 => rec[i % 32])
  }

  lemma FullSlots(rec: seq<byte>, c: nat)
    requires |rec| == RECORD && !IsFreeSlot(rec)
    ensures NoFree(ClusterSlots(FullCluster(rec), c))
  {
    var d := FullCluster(rec);
    forall i | 0 <= i < 16 ensures d[32 * i..32 * i + 32] == rec {
      assert forall j :: 0 <= j < 32 ==> d[32 * i..32 * i + 32][j] == d[32 * i + j] == rec[j];
    }
  }

  lemma StaleSlots(rec: seq<byte>, c: nat)
    requires |rec| == RECORD && !IsFreeSlot(rec) && IsPlain(rec)
    ensures Live(ClusterSlots(rec + Zeros(480), c)) == [Slot(rec, c, 0)]
  {
    hide IsPlain;
    var d := rec + Zeros(480);
    var s := ClusterSlots(d, c);
    assert d[0..32] == rec && d[32] == 0 && d[32..64][0] == d[32];
    assert s[0] == Slot(rec, c, 0) && s[1..][0] == s[1] == Slot(d[32..64], c, 32);
    assert Live(s[1..]) == [];
  }

  /** A volume of two clusters, a full directory in the first and a deleted directory's
      record "STALE" left in the second: cut after the link, the creation of a file makes
      the directory list that record. */
  lemma StaleListed(packed: seq<byte>, v: View, v': View)
    requires packed == [0x53, 0x54, 0x41, 0x4C, 0x45, 0x20, 0x20, 0x20, 0x20, 0x20, 0x20]
    requires v.fat == [[EOC, EOC, EOC, 0]] && v' == v.(fat := [LinkedAfter(v.fat[0], 2, 3)])
    requires v.data == [[], [], FullCluster(NewRecord(packed)), NewRecord(packed) + Zeros(480)]
    ensures AllocCut(v, v', Some(2), 3, 512) && IsChain(v'.fat[0], [2, 3])
    ensures Live(DirSlots(v'.data, [2, 3])) == Live(DirSlots(v.data, [2])) + [Slot(NewRecord(packed), 3, 0)]
  {
    hide Live, ClusterSlots, LinkedAfter, NewRecord, FullCluster;
    var rec, data := NewRecord(packed), v.data;
    NoSlots(data);
    assert [2][1..] == [] && data[3 := data[3]] == data && [2] + [3] == [2, 3];
    FullSlots(rec, 2);
    assert DirSlots(data, [2]) == ClusterSlots(data[2], 2);
    CutAfterLink(v, v', [2], 3, 512);
    AppendedSlots(data, [2], 3, data[3]);
    StaleSlots(rec, 3);
    LiveConcat(DirSlots(data, [2]), ClusterSlots(data[3], 3));
  }

  ghost predicate DistinctNames(l: seq<Entry>) {
    forall i, j :: 0 <= i < j < |l| ==> l[i].name != l[j].name
  }

  /** Creating clean names keeps the names of a directory distinct. */
  lemma CreateKeepsNames(b: Bpb, v: View, ds: seq<nat>, chains: seq<seq<nat>>, name: seq<byte>)
    requires WfDirectory(b, v, ds, chains) && DistinctNames(Listing(b, v, ds, chains))
    requires To83(name).Some? && Clean(name)
    requires FirstMatch(Named(name), Live(DirSlots(v.data, ds))).None?
    ensures DistinctNames(Listing(b, v, ds, chains) + [Entry(LowerAll(name), false, [])])
  {
    var l, live := Listing(b, v, ds, chains), Live(DirSlots(v.data, ds));
    LowerUpper(name);
    forall i | 0 <= i < |l| ensures l[i].name != LowerAll(name) {
      assert RecordFits(b, v, live[i], chains[i]);
      assert !Named(name)(live[i]);
    }
  }

  /** A write to a file leaves a compact directory compact. */
  lemma CompactKept(s: seq<Slot>, s': seq<Slot>, par: nat, off: nat)
    requires Compact(s) && WfSlots(s') && SlotsKept(s, s', par, off)
    requires forall k {:trigger s[k]} :: 0 <= k < |s| && s[k].cluster == par && s[k].off == off ==> s[k].rec[0] != 0
    ensures Compact(s')
  {
    forall k | 0 <= k < |s| ensures s'[k].rec[0] == s[k].rec[0] {
      assert SlotKept(s[k], s'[k], par, off);
    }
    forall i, j | 0 <= i < j < |s'| && s'[i].rec[0] == 0 ensures s'[j].rec == Zeros(RECORD) {
      assert s[i].rec[0] == 0 && s[j].rec == Zeros(RECORD) && s[j].rec[0] == 0;
      assert SlotKept(s[j], s'[j], par, off);
    }
  }
}
