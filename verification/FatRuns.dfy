/** Whole runs of the driver on one directory: any sequence of creations, openings, writes
    and reads through held nodes does to the volume what it does to a plain list of named
    byte strings. Several files may be open at a time, each through one node. */
module FatRuns {
  import opened Bytes
  import opened FatLayout
  import opened FatChains
  import opened Fat32
  import opened FileSpec
  import opened DirRecord
  import opened DirSpec
  import opened ShortNames
  import opened FatNode
  import opened AbstractDir
  import opened FatDriver

  /** Operations; h numbers the nodes held at the moment. */
  datatype Op =
    | Create(name: seq<byte>)
    | Open(name: seq<byte>)
    | Write(h: nat, offset: nat, data: seq<byte>)
    | Read(h: nat, at: nat, len: nat)
    | Close(h: nat)

  predicate Allowed(op: Op) {
    match op
    case Create(name) => Findable(name)
    case Write(_, offset, data) => offset + |data| < 0x1_0000_0000
    case _ => true
  }

  // ---- the list of named byte strings ----

  /** The files, which of them are open, and what has been read so far. */
  datatype Session = Session(files: seq<Entry>, open: seq<nat>, out: seq<seq<byte>>)

  /** Index of the first entry called `name`, letter case aside. */
  ghost function FirstCalled(l: seq<Entry>, name: seq<byte>): (r: Option<nat>)
    ensures r.Some? ==>
      && r.value < |l| && EqIgnoreCase(l[r.value].name, name)
      && forall j :: 0 <= j < r.value ==> !EqIgnoreCase(l[j].name, name)
    ensures r.None? ==> forall j :: 0 <= j < |l| ==> !EqIgnoreCase(l[j].name, name)
  {
    if l == [] then None
    else if EqIgnoreCase(l[0].name, name) then Some(0)
    else
      var r := FirstCalled(l[1..], name);
      if r.None? then None else Some(r.value + 1)
  }

  /** Handle h is open for a file of the list. */
  predicate Held(s: Session, h: nat) { h < |s.open| && s.open[h] < |s.files| }

  /** The session once the file of handle h has the contents c. */
  function Stored(s: Session, h: nat, c: seq<byte>): Session
    requires Held(s, h)
  {
    var i := s.open[h];
    s.(files := s.files[i := s.files[i].(contents := c)])
  }

  function Dropped<T>(s: seq<T>, h: nat): seq<T>
    requires h < |s|
  {
    s[..h] + s[h + 1..]
  }

  /** The session after an operation; None if the operation has to be refused. A file that
      is open is not opened again. */
  ghost function Apply(s: Session, op: Op): Option<Session> {
    match op
    case Create(name) =>
      if !Acceptable(name) || FirstCalled(s.files, name).Some? then None
      else Some(s.(files := s.files + [Entry(LowerAll(name), false, [])], open := s.open + [|s.files|]))
    case Open(name) =>
      var i := FirstCalled(s.files, name);
      if i.None? || s.files[i.value].isDir || i.value in s.open then None
      else Some(s.(open := s.open + [i.value]))
    case Write(h, offset, data) =>
      if !Held(s, h) || data == [] then None
      else Some(Stored(s, h, Splice(s.files[s.open[h]].contents, offset, data)))
    case Read(h, at, len) =>
      if !Held(s, h) then None else Some(s.(out := s.out + [Slice(s.files[s.open[h]].contents, at, len)]))
    case Close(h) =>
      if !Held(s, h) then None else Some(s.(open := Dropped(s.open, h)))
  }

  ghost function ApplyAll(s: Session, ops: seq<Op>): Option<Session> {
    if ops == [] then Some(s)
    else
      var before := ApplyAll(s, ops[..|ops| - 1]);
      if before.None? then None else Apply(before.value, ops[|ops| - 1])
  }

  lemma ApplyKeepsNames(s: Session, op: Op)
    requires DistinctNames(s.files) && Apply(s, op).Some?
    ensures DistinctNames(Apply(s, op).value.files)
  {
    if op.Create? {
      LowerUpper(op.name);
    }
  }

  /** Names that differ stay different over every run. */
  lemma {:induction false} RunKeepsNames(s: Session, ops: seq<Op>)
    requires DistinctNames(s.files) && ApplyAll(s, ops).Some?
    ensures DistinctNames(ApplyAll(s, ops).value.files)
  {
    if ops != [] {
      RunKeepsNames(s, ops[..|ops| - 1]);
      ApplyKeepsNames(ApplyAll(s, ops[..|ops| - 1]).value, ops[|ops| - 1]);
    }
  }

  /** What is written through a held node is read after closing and opening again by name. */
  lemma ReopenedReadsWritten(s: Session, name: seq<byte>, offset: nat, data: seq<byte>, at: nat, len: nat)
    requires Acceptable(name) && FirstCalled(s.files, name).None? && data != []
    requires forall k {:trigger s.open[k]} :: 0 <= k < |s.open| ==> s.open[k] < |s.files|
    ensures var h := |s.open|;
      var ops := [Create(name), Write(h, offset, data), Close(h), Open(name), Read(h, at, len)];
      var r := ApplyAll(s, ops);
      r.Some? && r.value.out == s.out + [Slice(Splice([], offset, data), at, len)]
  {
    hide Apply, Splice, Slice, Acceptable;
    var h, was := |s.open|, Entry(LowerAll(name), false, []);
    var now := was.(contents := Splice([], offset, data));
    var s1 := s.(files := s.files + [was], open := s.open + [|s.files|]);
    var s2 := s1.(files := s.files + [now]);
    var s3 := s2.(open := s.open);
    var s5 := s2.(out := s.out + [Slice(Splice([], offset, data), at, len)]);
    CreateWrite(s, name, offset, data);
    CloseOpen(s, name, now);
    LastRead(s2, h, at, len, now);
    ApplyFive(s, s1, s2, s3, s2, s5, Create(name), Write(h, offset, data), Close(h), Open(name), Read(h, at, len));
  }

  lemma CreateWrite(s: Session, name: seq<byte>, offset: nat, data: seq<byte>)
    requires Acceptable(name) && FirstCalled(s.files, name).None? && data != []
    ensures var e := Entry(LowerAll(name), false, []);
      var s1 := s.(files := s.files + [e], open := s.open + [|s.files|]);
      && Apply(s, Create(name)) == Some(s1)
      && Apply(s1, Write(|s.open|, offset, data)) ==
         Some(s1.(files := s.files + [e.(contents := Splice([], offset, data))]))
  {
    hide Splice, Acceptable;
    var e := Entry(LowerAll(name), false, []);
    var e' := e.(contents := Splice([], offset, data));
    assert (s.files + [e])[|s.files| := e'] == s.files + [e'];
  }

  lemma CloseOpen(s: Session, name: seq<byte>, e: Entry)
    requires FirstCalled(s.files, name).None? && e.name == LowerAll(name) && !e.isDir
    requires forall k {:trigger s.open[k]} :: 0 <= k < |s.open| ==> s.open[k] < |s.files|
    ensures var s2 := s.(files := s.files + [e], open := s.open + [|s.files|]);
      && Apply(s2, Close(|s.open|)) == Some(s2.(open := s.open))
      && Apply(s2.(open := s.open), Open(name)) == Some(s2)
  {
    LowerUpper(name);
    FirstIsThere(s.files + [e], name, |s.files|);
    assert Dropped(s.open + [|s.files|], |s.open|) == s.open;
  }

  lemma LastRead(s: Session, h: nat, at: nat, len: nat, e: Entry)
    requires Held(s, h) && s.files[s.open[h]] == e
    ensures Apply(s, Read(h, at, len)) == Some(s.(out := s.out + [Slice(e.contents, at, len)]))
  {
  }

  lemma ApplyFive(s0: Session, s1: Session, s2: Session, s3: Session, s4: Session, s5: Session,
                  a: Op, b: Op, c: Op, d: Op, e: Op)
    requires Apply(s0, a) == Some(s1) && Apply(s1, b) == Some(s2) && Apply(s2, c) == Some(s3)
    requires Apply(s3, d) == Some(s4) && Apply(s4, e) == Some(s5)
    ensures ApplyAll(s0, [a, b, c, d, e]) == Some(s5)
  {
    hide Apply;
    assert [a, b, c, d, e][..4] == [a, b, c, d] && [a, b, c, d][..3] == [a, b, c];
    assert [a, b, c][..2] == [a, b] && [a, b][..1] == [a] && [a][..0] == [];
    assert ApplyAll(s0, []) == Some(s0);
    assert ApplyAll(s0, [a]) == Some(s1);
    assert ApplyAll(s0, [a, b]) == Some(s2);
    assert ApplyAll(s0, [a, b, c]) == Some(s3);
    assert ApplyAll(s0, [a, b, c, d]) == Some(s4);
  }

  // ---- the first match on disk and in the list ----

  lemma {:induction false} FirstMatchIndex(matches: Slot -> bool, live: seq<Slot>) returns (i: nat)
    requires FirstMatch(matches, live).Some?
    ensures i < |live| && matches(live[i]) && FirstMatch(matches, live) == Some(live[i])
    ensures forall j :: 0 <= j < i ==> !matches(live[j])
  {
    if matches(live[0]) {
      i := 0;
    } else {
      i := FirstMatchIndex(matches, live[1..]);
      i := i + 1;
    }
  }

  lemma ListedName(b: Bpb, v: View, ds: seq<nat>, chains: seq<seq<nat>>, name: seq<byte>, i: nat)
    requires WfDirectory(b, v, ds, chains) && i < |chains|
    ensures var e := Live(DirSlots(v.data, ds))[i];
      && |e.rec| == RECORD
      && (Named(name)(e) <==> EqIgnoreCase(Listing(b, v, ds, chains)[i].name, name))
      && Listing(b, v, ds, chains)[i].isDir == IsDirectory(e.rec)
  {
    hide DirSlots, Live, Decode, LeDecode;
    assert RecordFits(b, v, Live(DirSlots(v.data, ds))[i], chains[i]);
  }

  /** The driver and the list agree on which entry a name means. */
  lemma FirstAgrees(b: Bpb, v: View, ds: seq<nat>, chains: seq<seq<nat>>, name: seq<byte>)
    requires WfDirectory(b, v, ds, chains)
    ensures FirstMatch(Named(name), Live(DirSlots(v.data, ds))).None? <==>
      FirstCalled(Listing(b, v, ds, chains), name).None?
    ensures forall i: nat :: FirstNamed(Live(DirSlots(v.data, ds)), name, i) ==>
      FirstCalled(Listing(b, v, ds, chains), name) == Some(i)
  {
    hide DirSlots, Live, Decode, LeDecode, Listing, EqIgnoreCase, Named, RecordFits;
    var live, l := Live(DirSlots(v.data, ds)), Listing(b, v, ds, chains);
    forall i: nat | i < |live| ensures Named(name)(live[i]) <==> EqIgnoreCase(l[i].name, name) {
      ListedName(b, v, ds, chains, name, i);
    }
    if FirstMatch(Named(name), live).Some? {
      var k := FirstMatchIndex(Named(name), live);
      assert EqIgnoreCase(l[k].name, name);
      ListingPlaces(b, v, ds);
      forall i: nat | FirstNamed(live, name, i) ensures FirstCalled(l, name) == Some(i) {
        assert live[i] == live[k];
        assert i == k;
        FirstIsThere(l, name, k);
      }
    } else {
      NoneCalled(l, name);
    }
  }

  lemma FirstIsThere(l: seq<Entry>, name: seq<byte>, k: nat)
    requires k < |l| && EqIgnoreCase(l[k].name, name) && forall j :: 0 <= j < k ==> !EqIgnoreCase(l[j].name, name)
    ensures FirstCalled(l, name) == Some(k)
  {
    hide EqIgnoreCase;
    var r := FirstCalled(l, name);
    assert r.Some?;
    assert r.value == k;
  }

  lemma NoneCalled(l: seq<Entry>, name: seq<byte>)
    requires forall j :: 0 <= j < |l| ==> !EqIgnoreCase(l[j].name, name)
    ensures FirstCalled(l, name).None?
  {
    hide EqIgnoreCase;
  }

  // ---- running ----

  /** `node` holds what the i-th of the live records says. */
  ghost predicate TiedTo(node: Fat32Node, i: nat, chains: seq<seq<nat>>, live: seq<Slot>)
    reads node
  {
    i < |chains| && |chains| == |live| && !node.isDir && node.chain == chains[i] && node.DecodedFrom(live[i])
  }

  ghost predicate Apart(nodes: seq<Fat32Node>, open: seq<nat>) {
    && |nodes| == |open|
    && forall j, k {:trigger nodes[j], nodes[k]} ::
         0 <= j < k < |nodes| ==> nodes[j] != nodes[k] && open[j] != open[k]
  }

  /** Each held node is tied to a record of its own. */
  ghost predicate Tied(nodes: seq<Fat32Node>, open: seq<nat>, chains: seq<seq<nat>>, live: seq<Slot>)
    reads nodes
  {
    Apart(nodes, open) && forall k {:trigger nodes[k]} :: 0 <= k < |nodes| ==> TiedTo(nodes[k], open[k], chains, live)
  }

  /** The directory lists the session's files, and the nodes are those of its open files. */
  ghost predicate InSession(dir: Fat32Node, chains: seq<seq<nat>>, nodes: seq<Fat32Node>, s: Session)
    reads dir, nodes, dir.fs, dir.fs.disk
  {
    && DirOk(dir, chains) && s.files == Listing(dir.fs.bpb, dir.fs.view, dir.chain, chains)
    && Tied(nodes, s.open, chains, Live(dir.Slots()))
    && forall k {:trigger nodes[k]} :: 0 <= k < |nodes| ==> nodes[k].fs == dir.fs
  }

  /** All held nodes but the h-th are tied to their records. */
  ghost predicate OthersTied(nodes: seq<Fat32Node>, open: seq<nat>, chains: seq<seq<nat>>, live: seq<Slot>, h: nat)
    reads set k | 0 <= k < |nodes| && k != h :: nodes[k]
  {
    && |nodes| == |open|
    && forall k {:trigger nodes[k]} :: 0 <= k < |nodes| && k != h ==> TiedTo(nodes[k], open[k], chains, live)
  }

  /** A write through handle h that failed: all other files and nodes are untouched. Without
      a device failure the file has the part of the data that lies inside it, and if what
      was stored behind its end is zero the session goes on with that. */
  ghost predicate WriteFailed(dir: Fat32Node, chains: seq<seq<nat>>, nodes: seq<Fat32Node>, s: Session, h: nat,
                              offset: nat, data: seq<byte>, v: View)
    requires WfDirectory(dir.fs.bpb, v, dir.chain, chains) && Held(s, h)
    reads dir, nodes, dir.fs, dir.fs.disk
  {
    var i := s.open[h];
    && dir.Valid() && Isolated(dir.fs.bpb, v, dir.fs.view, dir.chain, chains, i)
    && OthersTied(nodes, s.open, chains, Live(dir.Slots()), h)
    && (data != [] && !dir.fs.disk.faulted ==>
          && nodes[h].fs == dir.fs && nodes[h].Valid() && i < |chains|
          && nodes[h].Contents() == Clip(s.files[i].contents, offset, data)
          && (nodes[h].SlackZero() ==>
                InSession(dir, chains[i := nodes[h].chain], nodes, Stored(s, h, nodes[h].Contents()))))
  }

  /** There is no room for the record of a new file, or for all the data of a write. */
  ghost predicate OutOfSpace(b: Bpb, v: View, ds: seq<nat>, chains: seq<seq<nat>>, s: Session, op: Op)
    requires forall i {:trigger ds[i]} :: 0 <= i < |ds| ==> ds[i] < |v.data|
  {
    match op
    case Create(_) => !HasPlace(v, DirSlots(v.data, ds))
    case Write(h, offset, data) =>
      Held(s, h) && s.open[h] < |chains| && !FitsVolume(b, v, chains[s.open[h]], offset + |data|)
    case _ => false
  }

  /** What a failed operation leaves. Refused, or failed while only reading or for want of
      space for a new record: the session as it was. Otherwise all files but the one
      concerned are untouched. */
  ghost predicate Failed(dir: Fat32Node, chains: seq<seq<nat>>, nodes: seq<Fat32Node>, s: Session, op: Op, v: View,
                         ds: seq<nat>)
    requires WfDirectory(dir.fs.bpb, v, ds, chains)
    reads dir, nodes, dir.fs, dir.fs.disk
  {
    && (Apply(s, op).Some? ==> dir.fs.disk.faulted || OutOfSpace(dir.fs.bpb, v, ds, chains, s, op))
    && (Apply(s, op).None? || !(op.Create? || op.Write?) || (op.Create? && !dir.fs.disk.faulted) ==>
          InSession(dir, chains, nodes, s))
    && (op.Create? ==> CreateFailed(dir, v, ds, chains, op.name))
    && (op.Write? && Held(s, op.h) ==>
          dir.chain == ds && WriteFailed(dir, chains, nodes, s, op.h, op.offset, op.data, v))
  }

  /** Entries of the list and live records correspond. */
  lemma ListedKinds(b: Bpb, v: View, ds: seq<nat>, chains: seq<seq<nat>>)
    requires WfDirectory(b, v, ds, chains)
    ensures |Listing(b, v, ds, chains)| == |Live(DirSlots(v.data, ds))| == |chains|
    ensures forall i {:trigger Listing(b, v, ds, chains)[i]} :: 0 <= i < |chains| ==>
      && |Live(DirSlots(v.data, ds))[i].rec| == RECORD
      && Listing(b, v, ds, chains)[i].isDir == IsDirectory(Live(DirSlots(v.data, ds))[i].rec)
  {
    hide DirSlots, Live, Listing, Decode;
    forall i: nat | i < |chains|
      ensures |Live(DirSlots(v.data, ds))[i].rec| == RECORD
      ensures Listing(b, v, ds, chains)[i].isDir == IsDirectory(Live(DirSlots(v.data, ds))[i].rec)
    {
      ListedName(b, v, ds, chains, [], i);
    }
  }

  lemma TiedMore(nodes: seq<Fat32Node>, open: seq<nat>, chains: seq<seq<nat>>, live: seq<Slot>, node: Fat32Node,
                 e: Slot)
    requires Tied(nodes, open, chains, live) && |chains| == |live| && node !in nodes
    requires !node.isDir && node.chain == [] && node.DecodedFrom(e)
    ensures Tied(nodes + [node], open + [|chains|], chains + [[]], live + [e])
  {
    forall k | 0 <= k < |nodes| ensures TiedTo(nodes[k], open[k], chains + [[]], live + [e]) {
      assert TiedTo(nodes[k], open[k], chains, live);
    }
  }

  lemma NotTheDirectory(dir: Fat32Node, nodes: seq<Fat32Node>, open: seq<nat>, chains: seq<seq<nat>>, live: seq<Slot>)
    requires Tied(nodes, open, chains, live) && dir.isDir
    ensures dir !in nodes
  {
  }

  method DoCreate(dir: Fat32Node, nodes: seq<Fat32Node>, name: seq<byte>, ghost chains: seq<seq<nat>>, ghost s: Session)
    returns (node: Option<Fat32Node>)
    requires InSession(dir, chains, nodes, s) && Findable(name)
    modifies dir.fs.disk, dir.fs`view, dir`chain
    ensures node.Some? ==>
      && fresh(node.value) && Apply(s, Create(name)).Some?
      && InSession(dir, chains + [[]], nodes + [node.value], Apply(s, Create(name)).value)
    ensures node.None? ==> Failed(dir, chains, nodes, s, Create(name), old(dir.fs.view), old(dir.chain))
    ensures node.Some? && !dir.fs.disk.faulted ==>
      !OutOfSpace(dir.fs.bpb, old(dir.fs.view), old(dir.chain), chains, s, Create(name))
  {
    hide OnlyMine, DirSlots, Live, Compact, Listing, To83, Isolated, RecordFits, FilesKept, CutListing, WfDirectory,
      Findable, Linked, NodeOk, IsChain, Tied, Opened, CreateFailed, Failed, Apply, Acceptable, HasPlace, FreeClusters;
    AcceptedIff(name);
    FirstAgrees(dir.fs.bpb, dir.fs.view, dir.chain, chains, name);
    ListedKinds(dir.fs.bpb, dir.fs.view, dir.chain, chains);
    ghost var v, ds, live := dir.fs.view, dir.chain, Live(dir.Slots());
    NotTheDirectory(dir, nodes, s.open, chains, live);
    node := CreateIn(dir, name, chains);
    if node.Some? {
      CreatedSession(dir, chains, nodes, s, live, name, node.value);
    } else {
      FailedCreate(dir, chains, nodes, s, v, ds, name);
    }
  }

  lemma CreatedSession(dir: Fat32Node, chains: seq<seq<nat>>, nodes: seq<Fat32Node>, s: Session, live: seq<Slot>,
                       name: seq<byte>, node: Fat32Node)
    requires Tied(nodes, s.open, chains, live) && |chains| == |live| == |s.files| && node !in nodes && To83(name).Some?
    requires Acceptable(name)
    requires forall k {:trigger nodes[k]} :: 0 <= k < |nodes| ==> nodes[k].fs == dir.fs
    requires Opened(dir, chains + [[]], |chains|, node) && Live(dir.Slots()) == live + [node.NewEntry(name)]
    requires Listing(dir.fs.bpb, dir.fs.view, dir.chain, chains + [[]]) == s.files + [Entry(LowerAll(name), false, [])]
    requires FirstCalled(s.files, name).None?
    ensures Apply(s, Create(name)).Some? && InSession(dir, chains + [[]], nodes + [node], Apply(s, Create(name)).value)
  {
    hide DirOk, Live, Listing, To83, Tied;
    TiedMore(nodes, s.open, chains, live, node, node.NewEntry(name));
  }

  lemma FailedCreate(dir: Fat32Node, chains: seq<seq<nat>>, nodes: seq<Fat32Node>, s: Session, v: View, ds: seq<nat>,
                     name: seq<byte>)
    requires WfDirectory(dir.fs.bpb, v, ds, chains) && CreateFailed(dir, v, ds, chains, name)
    requires dir.isDir && dir.firstCluster >= 2 && Compact(DirSlots(v.data, ds))
    requires forall i {:trigger chains[i]} :: 0 <= i < |chains| ==> dir.parentCluster !in chains[i]
    requires s.files == Listing(dir.fs.bpb, v, ds, chains) && Tied(nodes, s.open, chains, Live(DirSlots(v.data, ds)))
    requires forall k {:trigger nodes[k]} :: 0 <= k < |nodes| ==> nodes[k].fs == dir.fs
    requires
      || !Acceptable(name) || FirstCalled(s.files, name).Some? || dir.fs.disk.faulted
      || !HasPlace(v, DirSlots(v.data, ds))
    requires FirstMatch(Named(name), Live(DirSlots(v.data, ds))).None? <==> FirstCalled(s.files, name).None?
    ensures Failed(dir, chains, nodes, s, Create(name), v, ds)
  {
    hide DirSlots, Live, Listing, To83, Tied, FilesKept, CutListing, WfDirectory, Compact, Linked, NodeOk, Acceptable,
      HasPlace;
    AcceptedIff(name);
  }

  predicate SamePlace(a: Fat32Node, b: Fat32Node) {
    a.parentCluster == b.parentCluster && a.dirEntryOffset == b.dirEntryOffset
  }

  /** Two nodes have the same record exactly if they are tied to the same file. */
  lemma OnePlace(nodes: seq<Fat32Node>, open: seq<nat>, chains: seq<seq<nat>>, live: seq<Slot>, i: nat, node: Fat32Node)
    requires Tied(nodes, open, chains, live) && TiedTo(node, i, chains, live) && OwnPlaces(live)
    ensures i in open <==> exists k :: 0 <= k < |nodes| && SamePlace(nodes[k], node)
    ensures i !in open && node !in nodes ==> Tied(nodes + [node], open + [i], chains, live)
  {
    forall k | 0 <= k < |nodes| ensures SamePlace(nodes[k], node) <==> open[k] == i {
      assert TiedTo(nodes[k], open[k], chains, live);
    }
  }

  method DoOpen(dir: Fat32Node, nodes: seq<Fat32Node>, name: seq<byte>, ghost chains: seq<seq<nat>>, ghost s: Session)
    returns (node: Option<Fat32Node>)
    requires InSession(dir, chains, nodes, s)
    modifies dir.fs.disk`faulted
    ensures node.Some? ==>
      && fresh(node.value) && Apply(s, Open(name)).Some?
      && InSession(dir, chains, nodes + [node.value], Apply(s, Open(name)).value)
    ensures node.None? ==> Failed(dir, chains, nodes, s, Open(name), dir.fs.view, dir.chain)
  {
    hide DirSlots, Live, Compact, Listing, WfDirectory, Tied, SamePlace, Linked, NodeOk, Failed, Opened;
    FirstAgrees(dir.fs.bpb, dir.fs.view, dir.chain, chains, name);
    ListedKinds(dir.fs.bpb, dir.fs.view, dir.chain, chains);
    ghost var i;
    node, i := OpenFile(dir, name, chains);
    if node.Some? {
      OpenDecided(dir, chains, nodes, s, name, i, node.value);
      if exists k :: 0 <= k < |nodes| && SamePlace(nodes[k], node.value) {
        node := None;
      }
    } else {
      OpenFailed(dir, chains, nodes, s, name);
    }
  }

  /** A found file is opened unless a held node has its record. */
  lemma OpenDecided(dir: Fat32Node, chains: seq<seq<nat>>, nodes: seq<Fat32Node>, s: Session, name: seq<byte>, i: nat,
                    node: Fat32Node)
    requires InSession(dir, chains, nodes, s) && Opened(dir, chains, i, node) && node !in nodes
    requires FirstCalled(s.files, name) == Some(i) && !s.files[i].isDir
    ensures if exists k :: 0 <= k < |nodes| && SamePlace(nodes[k], node)
      then Failed(dir, chains, nodes, s, Open(name), dir.fs.view, dir.chain)
      else Apply(s, Open(name)).Some? && InSession(dir, chains, nodes + [node], Apply(s, Open(name)).value)
  {
    hide DirSlots, Live, Compact, Listing, WfDirectory, Linked, NodeOk, Tied, SamePlace;
    DirPlaces(dir, chains);
    ListedKinds(dir.fs.bpb, dir.fs.view, dir.chain, chains);
    OnePlace(nodes, s.open, chains, Live(dir.Slots()), i, node);
  }

  lemma OpenFailed(dir: Fat32Node, chains: seq<seq<nat>>, nodes: seq<Fat32Node>, s: Session, name: seq<byte>)
    requires InSession(dir, chains, nodes, s)
    requires dir.fs.disk.faulted || Apply(s, Open(name)).None?
    ensures Failed(dir, chains, nodes, s, Open(name), dir.fs.view, dir.chain)
  {
    hide DirSlots, Live, Compact, Listing, WfDirectory, Linked, NodeOk, Tied, Apply;
  }

  lemma DirPlaces(dir: Fat32Node, chains: seq<seq<nat>>)
    requires DirOk(dir, chains)
    ensures OwnPlaces(Live(dir.Slots()))
  {
    hide OnlyMine, DirSlots, Live, Compact, RecordFits;
    ListingPlaces(dir.fs.bpb, dir.fs.view, dir.chain);
  }

  /** After a write to the file of handle h, or none, all nodes are tied to their files. */
  lemma TiedAfterWrite(nodes: seq<Fat32Node>, open: seq<nat>, chains: seq<seq<nat>>, live: seq<Slot>,
                       live': seq<Slot>, h: nat)
    requires h < |nodes| == |open| && open[h] < |chains| == |live| == |live'|
    requires Apart(nodes, open) && OthersTied(nodes, open, chains, live, h)
    requires forall j :: 0 <= j < |live| && j != open[h] ==> live'[j] == live[j]
    requires !nodes[h].isDir && nodes[h].DecodedFrom(live'[open[h]])
    ensures Tied(nodes, open, chains[open[h] := nodes[h].chain], live')
  {
    forall k | 0 <= k < |nodes| ensures TiedTo(nodes[k], open[k], chains[open[h] := nodes[h].chain], live') {
      assert k == h || TiedTo(nodes[k], open[k], chains, live);
    }
  }

  lemma IsolatedLive(b: Bpb, v: View, v': View, ds: seq<nat>, chains: seq<seq<nat>>, i: nat)
    requires WfDirectory(b, v, ds, chains) && Isolated(b, v, v', ds, chains, i)
    ensures Shape(b, v') && IsChain(v'.fat[0], ds) && |Live(DirSlots(v'.data, ds))| == |chains|
    ensures forall j {:trigger Live(DirSlots(v'.data, ds))[j]} :: 0 <= j < |chains| && j != i ==>
      Live(DirSlots(v'.data, ds))[j] == Live(DirSlots(v.data, ds))[j]
  {
    hide DirSlots, Live, RecordFits, ChainBytes;
    forall j | 0 <= j < |chains| && j != i ensures Live(DirSlots(v'.data, ds))[j] == Live(DirSlots(v.data, ds))[j] {
      assert chains[j] == chains[j];
    }
  }

  /** The written file's entry changes, and all nodes are tied to their files. */
  lemma WrittenSession(dir: Fat32Node, chains: seq<seq<nat>>, nodes: seq<Fat32Node>, s: Session, v: View,
                       live: seq<Slot>, h: nat)
    requires WfDirectory(dir.fs.bpb, v, dir.chain, chains) && s.files == Listing(dir.fs.bpb, v, dir.chain, chains)
    requires h < |nodes| == |s.open| && s.open[h] < |chains|
    requires live == Live(DirSlots(v.data, dir.chain))
    requires Apart(nodes, s.open) && OthersTied(nodes, s.open, chains, live, h)
    requires forall k {:trigger nodes[k]} :: 0 <= k < |nodes| ==> nodes[k].fs == dir.fs
    requires Isolated(dir.fs.bpb, v, dir.fs.view, dir.chain, chains, s.open[h])
    requires Opened(dir, chains[s.open[h] := nodes[h].chain], s.open[h], nodes[h])
    requires FileWritten(dir.fs.bpb, v, dir.fs.view, dir.chain, chains, chains[s.open[h] := nodes[h].chain], s.open[h],
                         nodes[h].Contents())
    ensures InSession(dir, chains[s.open[h] := nodes[h].chain], nodes, Stored(s, h, nodes[h].Contents()))
  {
    hide OnlyMine, DirSlots, Live, Compact, Listing, RecordFits, WfDirectory, Linked, NodeOk, IsChain, Isolated,
      OthersTied, Tied, Apart, ChainBytes;
    ListedKinds(dir.fs.bpb, v, dir.chain, chains);
    IsolatedLive(dir.fs.bpb, v, dir.fs.view, dir.chain, chains, s.open[h]);
    TiedAfterWrite(nodes, s.open, chains, live, Live(dir.Slots()), h);
  }

  method DoWrite(dir: Fat32Node, nodes: seq<Fat32Node>, h: nat, offset: nat, data: seq<byte>,
                 ghost chains: seq<seq<nat>>, ghost s: Session)
    returns (ok: bool)
    requires InSession(dir, chains, nodes, s) && h < |nodes| && offset + |data| < 0x1_0000_0000
    modifies dir.fs.disk, dir.fs`view, nodes[h]
    ensures ok ==>
      && Apply(s, Write(h, offset, data)).Some?
      && InSession(dir, chains[s.open[h] := nodes[h].chain], nodes, Apply(s, Write(h, offset, data)).value)
    ensures !ok ==> Failed(dir, chains, nodes, s, Write(h, offset, data), old(dir.fs.view), old(dir.chain))
    ensures ok && !dir.fs.disk.faulted ==>
      !OutOfSpace(dir.fs.bpb, old(dir.fs.view), old(dir.chain), chains, s, Write(h, offset, data))
  {
    hide OnlyMine, DirSlots, Live, Compact, Listing, Splice, RecordFits, FilesKept, CutListing, WfDirectory, To83,
      Linked, NodeOk, IsChain, Isolated, ZeroPast, Truncated, ChainBytes, FileWritten, Clip, Tied, Apart, OthersTied,
      Failed;
    HeldNode(dir, chains, nodes, s, h);
    ghost var v, i, live := dir.fs.view, s.open[h], Live(dir.Slots());
    ghost var c0 := nodes[h].Contents();
    var r := WriteOpened(dir, nodes[h], offset, data, chains, i);
    ok := r.Some?;
    if ok {
      SmallSplice(c0, offset, data);
      WrittenSession(dir, chains, nodes, s, v, live, h);
    } else {
      FailedWrite(dir, chains, nodes, s, v, live, h, offset, data);
    }
  }

  lemma FailedWrite(dir: Fat32Node, chains: seq<seq<nat>>, nodes: seq<Fat32Node>, s: Session, v: View,
                    live: seq<Slot>, h: nat, offset: nat, data: seq<byte>)
    requires WfDirectory(dir.fs.bpb, v, dir.chain, chains) && s.files == Listing(dir.fs.bpb, v, dir.chain, chains)
    requires h < |nodes| == |s.open| && s.open[h] < |chains| && live == Live(DirSlots(v.data, dir.chain))
    requires Apart(nodes, s.open) && OthersTied(nodes, s.open, chains, live, h)
    requires forall k {:trigger nodes[k]} :: 0 <= k < |nodes| ==> nodes[k].fs == dir.fs
    requires dir.Valid() && Isolated(dir.fs.bpb, v, dir.fs.view, dir.chain, chains, s.open[h])
    requires
      || data == [] || dir.fs.disk.faulted
      || !FitsVolume(dir.fs.bpb, v, chains[s.open[h]], offset + |data|)
    requires data == [] ==> dir.fs.view == v && Opened(dir, chains, s.open[h], nodes[h])
    requires data != [] && !dir.fs.disk.faulted ==>
      && nodes[h].Valid() && nodes[h].Contents() == Clip(s.files[s.open[h]].contents, offset, data)
      && (nodes[h].SlackZero() ==>
            && Opened(dir, chains[s.open[h] := nodes[h].chain], s.open[h], nodes[h])
            && FileWritten(dir.fs.bpb, v, dir.fs.view, dir.chain, chains, chains[s.open[h] := nodes[h].chain],
                           s.open[h], nodes[h].Contents()))
    ensures Failed(dir, chains, nodes, s, Write(h, offset, data), v, dir.chain)
  {
    hide OnlyMine, DirSlots, Live, Compact, Listing, RecordFits, WfDirectory, Linked, NodeOk, IsChain, Isolated,
      OthersTied, Tied, Apart, ChainBytes, Clip, FileWritten, Splice, CreateFailed;
    ListedKinds(dir.fs.bpb, v, dir.chain, chains);
    IsolatedLive(dir.fs.bpb, v, dir.fs.view, dir.chain, chains, s.open[h]);
    OthersStayTied(nodes, s.open, chains, live, Live(dir.Slots()), h);
    if data == [] {
      assert chains[s.open[h] := nodes[h].chain] == chains;
      TiedAfterWrite(nodes, s.open, chains, live, live, h);
    } else if !dir.fs.disk.faulted && nodes[h].SlackZero() {
      WrittenSession(dir, chains, nodes, s, v, live, h);
    }
  }

  lemma HeldNode(dir: Fat32Node, chains: seq<seq<nat>>, nodes: seq<Fat32Node>, s: Session, h: nat)
    requires InSession(dir, chains, nodes, s) && h < |nodes|
    ensures h < |nodes| == |s.open| && s.open[h] < |chains| == |s.files|
    ensures Opened(dir, chains, s.open[h], nodes[h]) && nodes[h].size < 0x1_0000_0000
    ensures Apart(nodes, s.open) && OthersTied(nodes, s.open, chains, Live(dir.Slots()), h)
    ensures forall k {:trigger nodes[k]} :: 0 <= k < |nodes| ==>
      nodes[k].fs == dir.fs && (k != h ==> nodes[k] != nodes[h])
  {
    hide DirSlots, Live, Compact, Listing, WfDirectory, IsChain, Linked;
    ListedKinds(dir.fs.bpb, dir.fs.view, dir.chain, chains);
    assert TiedTo(nodes[h], s.open[h], chains, Live(dir.Slots()));
    BoundOpened(dir, chains, s.open[h], nodes[h]);
  }

  /** Below 2^32 nothing is cut off. */
  lemma SmallSplice(c: seq<byte>, offset: nat, data: seq<byte>)
    requires |c| < 0x1_0000_0000 && offset + |data| < 0x1_0000_0000
    ensures Truncated(Splice(c, offset, data)) == Splice(c, offset, data)
  {
  }

  lemma OthersStayTied(nodes: seq<Fat32Node>, open: seq<nat>, chains: seq<seq<nat>>, live: seq<Slot>, live': seq<Slot>,
                       h: nat)
    requires h < |nodes| == |open| && open[h] < |chains| == |live| == |live'|
    requires OthersTied(nodes, open, chains, live, h)
    requires Apart(nodes, open)
    requires forall j :: 0 <= j < |live| && j != open[h] ==> live'[j] == live[j]
    ensures OthersTied(nodes, open, chains, live', h)
  {
    forall k | 0 <= k < |nodes| && k != h ensures TiedTo(nodes[k], open[k], chains, live') {
      assert TiedTo(nodes[k], open[k], chains, live) && nodes[k] != nodes[h];
    }
  }

  method DoRead(dir: Fat32Node, nodes: seq<Fat32Node>, h: nat, at: nat, len: nat, ghost chains: seq<seq<nat>>,
                ghost s: Session)
    returns (r: Option<seq<byte>>)
    requires InSession(dir, chains, nodes, s) && h < |nodes|
    modifies dir.fs.disk`faulted
    ensures r.Some? ==>
      && Apply(s, Read(h, at, len)) == Some(s.(out := s.out + [r.value]))
      && InSession(dir, chains, nodes, s.(out := s.out + [r.value]))
    ensures r.None? ==> Failed(dir, chains, nodes, s, Read(h, at, len), dir.fs.view, dir.chain)
  {
    hide OnlyMine, DirSlots, Live, Compact, Listing, RecordFits, FilesKept, CutListing, WfDirectory, Isolated, To83;
    ListedKinds(dir.fs.bpb, dir.fs.view, dir.chain, chains);
    assert TiedTo(nodes[h], s.open[h], chains, Live(dir.Slots()));
    BoundOpened(dir, chains, s.open[h], nodes[h]);
    r := ReadOpened(dir, nodes[h], at, len, chains, s.open[h]);
  }

  lemma TiedDropped(nodes: seq<Fat32Node>, open: seq<nat>, chains: seq<seq<nat>>, live: seq<Slot>, h: nat)
    requires Tied(nodes, open, chains, live) && h < |nodes|
    ensures Tied(Dropped(nodes, h), Dropped(open, h), chains, live)
  {
    var nodes', open' := Dropped(nodes, h), Dropped(open, h);
    assert forall k :: 0 <= k < |nodes'| ==> nodes'[k] == nodes[if k < h then k else k + 1];
    assert forall k :: 0 <= k < |open'| ==> open'[k] == open[if k < h then k else k + 1];
    forall j, k | 0 <= j < k < |nodes'| ensures nodes'[j] != nodes'[k] && open'[j] != open'[k] {
      var j0, k0 := if j < h then j else j + 1, if k < h then k else k + 1;
      assert nodes[j0] != nodes[k0];
    }
  }

  /** A handle number that no node has is refused. */
  lemma NotHeld(dir: Fat32Node, chains: seq<seq<nat>>, nodes: seq<Fat32Node>, s: Session, op: Op)
    requires InSession(dir, chains, nodes, s)
    requires (op.Write? || op.Read? || op.Close?) && op.h >= |nodes|
    ensures Failed(dir, chains, nodes, s, op, dir.fs.view, dir.chain)
  {
    hide Live, Listing, WfDirectory, Compact, Isolated, Linked, NodeOk;
  }

  lemma Closed(dir: Fat32Node, chains: seq<seq<nat>>, nodes: seq<Fat32Node>, s: Session, h: nat)
    requires InSession(dir, chains, nodes, s) && h < |nodes|
    ensures Apply(s, Close(h)).Some? && InSession(dir, chains, Dropped(nodes, h), Apply(s, Close(h)).value)
  {
    hide Live, Listing, WfDirectory, Compact, Linked, NodeOk;
    ListedKinds(dir.fs.bpb, dir.fs.view, dir.chain, chains);
    assert TiedTo(nodes[h], s.open[h], chains, Live(dir.Slots()));
    TiedDropped(nodes, s.open, chains, Live(dir.Slots()), h);
  }

  /** One operation. */
  method Perform(dir: Fat32Node, nodes: seq<Fat32Node>, op: Op, out: seq<seq<byte>>, ghost chains: seq<seq<nat>>,
                 ghost s: Session)
    returns (ok: bool, nodes': seq<Fat32Node>, out': seq<seq<byte>>, ghost chains': seq<seq<nat>>, ghost s': Session)
    requires InSession(dir, chains, nodes, s) && s.out == out && Allowed(op)
    modifies dir.fs.disk, dir.fs`view, dir`chain, nodes
    ensures ok ==>
      && Apply(s, op) == Some(s') && InSession(dir, chains', nodes', s') && s'.out == out'
      && forall k {:trigger nodes'[k]} :: 0 <= k < |nodes'| ==> nodes'[k] in nodes || fresh(nodes'[k])
    ensures !ok ==>
      nodes' == nodes && out' == out && Failed(dir, chains, nodes, s, op, old(dir.fs.view), old(dir.chain))
    ensures ok && !dir.fs.disk.faulted ==>
      !OutOfSpace(dir.fs.bpb, old(dir.fs.view), old(dir.chain), chains, s, op)
  {
    hide InSession, Failed, Allowed, Listing, Live, WfDirectory, Slice, Splice, To83;
    nodes', out', chains', s' := nodes, out, chains, s;
    SessionFacts(dir, chains, nodes, s, op);
    match op {
      case Create(name) =>
        var node := DoCreate(dir, nodes, name, chains, s);
        ok := node.Some?;
        if ok {
          nodes', chains', s' := nodes + [node.value], chains + [[]], Apply(s, op).value;
        }
      case Open(name) =>
        var node := DoOpen(dir, nodes, name, chains, s);
        ok := node.Some?;
        if ok {
          nodes', s' := nodes + [node.value], Apply(s, op).value;
        }
      case Write(h, offset, data) =>
        if h >= |nodes| {
          NotHeld(dir, chains, nodes, s, op);
          return false, nodes', out', chains', s';
        }
        ok := DoWrite(dir, nodes, h, offset, data, chains, s);
        if ok {
          chains', s' := chains[s.open[h] := nodes[h].chain], Apply(s, op).value;
        }
      case Read(h, at, len) =>
        if h >= |nodes| {
          NotHeld(dir, chains, nodes, s, op);
          return false, nodes', out', chains', s';
        }
        var r := DoRead(dir, nodes, h, at, len, chains, s);
        ok := r.Some?;
        if ok {
          out', s' := out + [r.value], Apply(s, op).value;
        }
      case Close(h) =>
        if h >= |nodes| {
          NotHeld(dir, chains, nodes, s, op);
          return false, nodes', out', chains', s';
        }
        Closed(dir, chains, nodes, s, h);
        ok, nodes', s' := true, Dropped(nodes, h), Apply(s, op).value;
    }
  }

  lemma SessionFacts(dir: Fat32Node, chains: seq<seq<nat>>, nodes: seq<Fat32Node>, s: Session, op: Op)
    requires InSession(dir, chains, nodes, s) && Allowed(op)
    ensures WfDirectory(dir.fs.bpb, dir.fs.view, dir.chain, chains)
    ensures s.files == Listing(dir.fs.bpb, dir.fs.view, dir.chain, chains)
    ensures |nodes| == |s.open| && forall k {:trigger s.open[k]} :: 0 <= k < |s.open| ==> s.open[k] < |chains|
    ensures op.Create? ==> Findable(op.name)
    ensures op.Write? ==> op.offset + |op.data| < 0x1_0000_0000
  {
    hide Live, Listing, WfDirectory, Compact, Linked, NodeOk;
    forall k | 0 <= k < |nodes| ensures s.open[k] < |chains| {
      assert TiedTo(nodes[k], s.open[k], chains, Live(dir.Slots()));
    }
  }

  /** The session of a directory in which nothing is open. */
  ghost function Begin(b: Bpb, v: View, ds: seq<nat>, chains: seq<seq<nat>>): Session
    requires WfDirectory(b, v, ds, chains)
  {
    Session(Listing(b, v, ds, chains), [], [])
  }

  /** Any sequence of operations, up to the first that fails: the directory lists, the open
      nodes denote and the reads returned what the operations make of the plain list. (v, ds)
      is the state before the operation that failed, and `Failed` says what that left. */
  method RunAll(dir: Fat32Node, ops: seq<Op>, ghost chains: seq<seq<nat>>)
    returns (n: nat, out: seq<seq<byte>>, nodes: seq<Fat32Node>, ghost chains': seq<seq<nat>>, ghost s: Session,
             ghost v: View, ghost ds: seq<nat>)
    requires DirOk(dir, chains) && forall i :: 0 <= i < |ops| ==> Allowed(ops[i])
    modifies dir.fs.disk, dir.fs`view, dir`chain
    ensures n <= |ops| && s.out == out
    ensures ApplyAll(Begin(dir.fs.bpb, old(dir.fs.view), old(dir.chain), chains), ops[..n]) == Some(s)
    ensures n == |ops| ==> InSession(dir, chains', nodes, s)
    ensures n < |ops| ==>
      && WfDirectory(dir.fs.bpb, v, ds, chains') && s.files == Listing(dir.fs.bpb, v, ds, chains')
      && Failed(dir, chains', nodes, s, ops[n], v, ds)
  {
    hide InSession, Failed, Allowed, Listing, Live, WfDirectory, Apply, Compact;
    s := Begin(dir.fs.bpb, dir.fs.view, dir.chain, chains);
    n, out, nodes, chains', v, ds := 0, [], [], chains, dir.fs.view, dir.chain;
    ghost var s0 := s;
    NothingOpen(dir, chains);
    while n < |ops|
      invariant n <= |ops| && InSession(dir, chains', nodes, s) && s.out == out && ApplyAll(s0, ops[..n]) == Some(s)
      invariant forall k {:trigger nodes[k]} :: 0 <= k < |nodes| ==> fresh(nodes[k])
    {
      assert ops[..n + 1][..n] == ops[..n];
      v, ds := dir.fs.view, dir.chain;
      SessionFacts(dir, chains', nodes, s, ops[n]);
      ghost var before, chains0 := s, chains';
      var ok;
      ok, nodes, out, chains', s := Perform(dir, nodes, ops[n], out, chains', s);
      if !ok {
        chains', s := chains0, before;
        return;
      }
      n := n + 1;
    }
    assert ops[..n] == ops;
  }

  lemma NothingOpen(dir: Fat32Node, chains: seq<seq<nat>>)
    requires DirOk(dir, chains)
    ensures InSession(dir, chains, [], Begin(dir.fs.bpb, dir.fs.view, dir.chain, chains))
  {
    hide Live, Listing, WfDirectory, Compact, Linked, NodeOk;
  }
}
