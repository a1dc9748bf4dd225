/** A directory as the sequence of its 32-byte slots: which records are live, what
    enumerating them means, and what filling a free slot does to the listing. */
module DirSpec {
  import opened Bytes
  import opened FatLayout
  import opened FatChains
  import opened Fat32
  import opened FileSpec
  import opened DirRecord

  /** A record together with the place it is stored at. */
  datatype Slot = Slot(rec: seq<byte>, cluster: nat, off: nat)

  const DELETED: byte := 0xE5

  ghost predicate WfSlots(s: seq<Slot>) {
    forall i {:trigger s[i]} :: 0 <= i < |s| ==> |s[i].rec| == RECORD
  }

  predicate IsFreeSlot(rec: seq<byte>)
    requires |rec| == RECORD
  {
    rec[0] == 0 || rec[0] == DELETED
  }

  /** The live records in order; a first byte of zero ends the directory. */
  ghost function Live(s: seq<Slot>): (r: seq<Slot>)
    requires WfSlots(s)
    ensures WfSlots(r)
  {
    if s == [] || s[0].rec[0] == 0 then []
    else if s[0].rec[0] != DELETED && IsPlain(s[0].rec) then [s[0]] + Live(s[1..])
    else Live(s[1..])
  }

  /** Up to the end marker exactly those records are listed that are neither deleted nor a
      volume label nor part of a long name. */
  lemma {:induction false} ListedIff(s: seq<Slot>, i: nat)
    requires WfSlots(s) && i < |s| && forall j {:trigger s[j]} :: 0 <= j <= i ==> s[j].rec[0] != 0
    ensures s[i] in Live(s) <==> s[i].rec[0] != 0xE5 && s[i].rec[0x0B] / 8 % 2 == 0
  {
    LiveOnly(s);
    if s[i].rec[0] != 0xE5 && s[i].rec[0x0B] / 8 % 2 == 0 && i > 0 {
      assert s[1..][i - 1] == s[i] && forall j :: 0 <= j <= i - 1 ==> s[1..][j] == s[j + 1];
      ListedIff(s[1..], i - 1);
    }
  }

  lemma {:induction false} LiveOnly(s: seq<Slot>)
    requires WfSlots(s)
    ensures forall e {:trigger e in Live(s)} :: e in Live(s) ==>
      e in s && |e.rec| == RECORD && e.rec[0] != 0 && e.rec[0] != 0xE5 && e.rec[0x0B] / 8 % 2 == 0
  {
    if s != [] {
      LiveOnly(s[1..]);
    }
  }

  /** The slots of one cluster. */
  ghost function ClusterSlots(d: seq<byte>, c: nat): (r: seq<Slot>)
    ensures |r| == |d| / 32 && WfSlots(r)
    ensures forall i {:trigger r[i]} :: 0 <= i < |r| ==> r[i] == Slot(d[32 * i..32 * i + 32], c, 32 * i)
  {
    seq(|d| / 32, i requires 0 <= i < |d| / 32 => Slot(d[32 * i..32 * i + 32], c, 32 * i))
  }

  ghost function DirSlots(data: seq<seq<byte>>, ds: seq<nat>): (r: seq<Slot>)
    requires forall i {:trigger ds[i]} :: 0 <= i < |ds| ==> ds[i] < |data|
    ensures WfSlots(r)
  {
    if ds == [] then [] else ClusterSlots(data[ds[0]], ds[0]) + DirSlots(data, ds[1..])
  }

  lemma NoSlots(data: seq<seq<byte>>)
    ensures DirSlots(data, []) == [] && Live([]) == []
  {
  }

  lemma {:induction false} DirSlotsConcat(data: seq<seq<byte>>, a: seq<nat>, b: seq<nat>)
    requires forall i {:trigger a[i]} :: 0 <= i < |a| ==> a[i] < |data|
    requires forall i {:trigger b[i]} :: 0 <= i < |b| ==> b[i] < |data|
    ensures DirSlots(data, a + b) == DirSlots(data, a) + DirSlots(data, b)
  {
    if a == [] {
      assert a + b == b;
    } else {
      assert (a + b)[1..] == a[1..] + b;
      DirSlotsConcat(data, a[1..], b);
    }
  }

  lemma {:induction false} DirSlotsFrame(data: seq<seq<byte>>, data': seq<seq<byte>>, ds: seq<nat>)
    requires forall i {:trigger ds[i]} ::
      0 <= i < |ds| ==> ds[i] < |data| && ds[i] < |data'| && data'[ds[i]] == data[ds[i]]
    ensures DirSlots(data', ds) == DirSlots(data, ds)
  {
    if ds == [] {
    } else {
      DirSlotsFrame(data, data', ds[1..]);
    }
  }

  /** The slots of a directory around the cluster with index j. */
  lemma DirSlotsAround(data: seq<seq<byte>>, ds: seq<nat>, j: nat)
    requires forall i {:trigger ds[i]} :: 0 <= i < |ds| ==> ds[i] < |data|
    requires j < |ds|
    ensures DirSlots(data, ds)
         == DirSlots(data, ds[..j]) + ClusterSlots(data[ds[j]], ds[j]) + DirSlots(data, ds[j + 1..])
  {
    hide DirSlots, ClusterSlots;
    var rest := ds[j..];
    assert ds == ds[..j] + rest;
    DirSlotsConcat(data, ds[..j], rest);
    DirSlotsFront(data, ds, j);
    var a, m, b := DirSlots(data, ds[..j]), ClusterSlots(data[ds[j]], ds[j]), DirSlots(data, ds[j + 1..]);
    assert a + (m + b) == a + m + b;
  }

  lemma DirSlotsFront(data: seq<seq<byte>>, ds: seq<nat>, j: nat)
    requires forall i {:trigger ds[i]} :: 0 <= i < |ds| ==> ds[i] < |data|
    requires j < |ds|
    ensures DirSlots(data, ds[j..]) == ClusterSlots(data[ds[j]], ds[j]) + DirSlots(data, ds[j + 1..])
  {
    hide ClusterSlots;
    assert ds[j..][0] == ds[j] && ds[j..][1..] == ds[j + 1..];
  }

  lemma DirSlotsBack(data: seq<seq<byte>>, ds: seq<nat>, j: nat)
    requires forall i {:trigger ds[i]} :: 0 <= i < |ds| ==> ds[i] < |data|
    requires j < |ds|
    ensures DirSlots(data, ds[..j + 1]) == DirSlots(data, ds[..j]) + ClusterSlots(data[ds[j]], ds[j])
  {
    assert ds[..j + 1] == ds[..j] + [ds[j]];
    DirSlotsConcat(data, ds[..j], [ds[j]]);
    assert DirSlots(data, [ds[j]]) == ClusterSlots(data[ds[j]], ds[j]) + DirSlots(data, []);
  }

  /** Without an end marker in `a`, listing distributes over concatenation. */
  lemma {:induction false} LiveConcat(a: seq<Slot>, b: seq<Slot>)
    requires WfSlots(a) && WfSlots(b)
    requires forall i :: 0 <= i < |a| ==> a[i].rec[0] != 0
    ensures WfSlots(a + b) && Live(a + b) == Live(a) + Live(b)
  {
    if a == [] {
      assert a + b == b;
    } else {
      assert (a + b)[1..] == a[1..] + b;
      LiveConcat(a[1..], b);
    }
  }

  lemma {:induction false} LiveZero(s: seq<Slot>)
    requires WfSlots(s)
    requires forall i :: 0 <= i < |s| ==> s[i].rec[0] == 0
    ensures Live(s) == []
  {
  }

  // ---- enumeration ----

  /** Running a stateful visitor over records until it yields a result. */
  ghost function Visit<S, T>(f: (S, Slot) -> (S, Option<T>), s: S, live: seq<Slot>): (S, Option<T>)
  {
    if live == [] then (s, None)
    else
      var (s', r) := f(s, live[0]);
      if r.Some? then (s', r) else Visit(f, s', live[1..])
  }

  /** First record that `matches`, in listing order. */
  ghost function FirstMatch(matches: Slot -> bool, live: seq<Slot>): (r: Option<Slot>)
    ensures r.Some? ==> r.value in live && matches(r.value)
    ensures r.None? ==> forall i :: 0 <= i < |live| ==> !matches(live[i])
  {
    if live == [] then None
    else if matches(live[0]) then Some(live[0])
    else FirstMatch(matches, live[1..])
  }

  lemma {:induction false} FirstMatchConcat(matches: Slot -> bool, a: seq<Slot>, b: seq<Slot>)
    requires FirstMatch(matches, a).None?
    ensures FirstMatch(matches, a + b) == FirstMatch(matches, b)
  {
    if a == [] {
      assert a + b == b;
    } else {
      assert (a + b)[1..] == a[1..] + b;
      FirstMatchConcat(matches, a[1..], b);
    }
  }

  /** A visitor that stops at the first match, without state. */
  function Finder(matches: Slot -> bool): ((), Slot) -> ((), Option<Slot>) {
    (s: (), e: Slot) => ((), if matches(e) then Some(e) else None)
  }

  lemma {:induction false} VisitFinder(matches: Slot -> bool, live: seq<Slot>)
    ensures Visit(Finder(matches), (), live).1 == FirstMatch(matches, live)
  {
    if live == [] {
    } else {
      VisitFinder(matches, live[1..]);
    }
  }

  // ---- filling a free slot ----

  /** The slot with its first byte turned into an end marker. */
  function Ended(s: Slot): Slot
    requires |s.rec| == RECORD
  {
    s.(rec := s.rec[0 := 0])
  }

  /** `s'` is `s` with slot k filled; unless k is the last slot of its cluster, the
      slot after it has become the end marker. */
  ghost predicate Filled(s: seq<Slot>, s': seq<Slot>, k: nat, entry: Slot, lastInCluster: bool) {
    && WfSlots(s) && |entry.rec| == RECORD
    && k < |s| && IsFreeSlot(s[k].rec)
    && (forall i :: 0 <= i < k ==> !IsFreeSlot(s[i].rec))
    && (!lastInCluster ==> k + 1 < |s|)
    && s' == s[..k] + [entry] + (if lastInCluster then s[k + 1..] else [Ended(s[k + 1])] + s[k + 2..])
  }

  /** What the listing should be after filling slot k: the record takes the place of the
      deleted one, or comes last if the slot was the end of the directory. */
  ghost function WithRecord(s: seq<Slot>, k: nat, entry: Slot): seq<Slot>
    requires WfSlots(s) && k < |s|
  {
    Live(s[..k]) + [entry] + (if s[k].rec[0] == 0 then [] else Live(s[k + 1..]))
  }

  lemma FilledLive(s: seq<Slot>, s': seq<Slot>, k: nat, entry: Slot, lastInCluster: bool)
    requires Filled(s, s', k, entry, lastInCluster)
    requires !IsFreeSlot(entry.rec) && IsPlain(entry.rec)
    ensures WfSlots(s')
    ensures Live(s') == Live(s[..k]) + [entry] + (if lastInCluster then Live(s[k + 1..]) else [])
  {
    if lastInCluster {
      LiveAround(s[..k], entry, s[k + 1..]);
    } else {
      var tail := [Ended(s[k + 1])] + s[k + 2..];
      LiveAround(s[..k], entry, tail);
      assert tail[0].rec[0] == 0;
    }
  }

  lemma LiveAround(front: seq<Slot>, entry: Slot, tail: seq<Slot>)
    requires WfSlots(front) && WfSlots(tail) && |entry.rec| == RECORD && !IsFreeSlot(entry.rec) && IsPlain(entry.rec)
    requires forall i :: 0 <= i < |front| ==> front[i].rec[0] != 0
    ensures WfSlots(front + [entry] + tail)
    ensures Live(front + [entry] + tail) == Live(front) + [entry] + Live(tail)
  {
    assert front + [entry] + tail == front + ([entry] + tail);
    LiveConcat(front, [entry] + tail);
    LiveCons(entry, tail);
  }

  lemma LiveCons(entry: Slot, tail: seq<Slot>)
    requires WfSlots(tail) && |entry.rec| == RECORD && !IsFreeSlot(entry.rec) && IsPlain(entry.rec)
    ensures WfSlots([entry] + tail) && Live([entry] + tail) == [entry] + Live(tail)
  {
    assert ([entry] + tail)[1..] == tail;
  }

  lemma CancelFront(front: seq<Slot>, a: seq<Slot>, b: seq<Slot>)
    ensures front + a == front + b <==> a == b
  {
    assert (front + a)[|front|..] == a && (front + b)[|front|..] == b;
  }

  /** Filling a slot lists exactly the old records and the new one if and only if no
      live record lies behind the slot, or the slot was deleted and last in its cluster,
      or it was the end marker and not last in its cluster. */
  lemma FilledListing(s: seq<Slot>, s': seq<Slot>, k: nat, entry: Slot, lastInCluster: bool)
    requires Filled(s, s', k, entry, lastInCluster)
    requires !IsFreeSlot(entry.rec) && IsPlain(entry.rec)
    ensures WfSlots(s')
    ensures Live(s') == WithRecord(s, k, entry)
       <==> Live(s[k + 1..]) == [] || (lastInCluster <==> s[k].rec[0] == DELETED)
  {
    FilledLive(s, s', k, entry, lastInCluster);
    var behind := Live(s[k + 1..]);
    CancelFront(Live(s[..k]) + [entry], if lastInCluster then behind else [], if s[k].rec[0] == 0 then [] else behind);
  }

  /** A directory without deleted slots whose slots behind the end marker are all zero. */
  ghost predicate Compact(s: seq<Slot>) {
    && WfSlots(s)
    && (forall i {:trigger s[i]} :: 0 <= i < |s| ==> s[i].rec[0] != DELETED)
    && (forall i, j {:trigger s[i], s[j]} :: 0 <= i < j < |s| && s[i].rec[0] == 0 ==> s[j].rec == Zeros(RECORD))
  }

  /** In a compact directory filling appends the record to the listing, and the directory
      stays compact. */
  lemma FilledCompact(s: seq<Slot>, s': seq<Slot>, k: nat, entry: Slot, lastInCluster: bool)
    requires Filled(s, s', k, entry, lastInCluster) && Compact(s)
    requires !IsFreeSlot(entry.rec) && IsPlain(entry.rec)
    ensures Compact(s') && Live(s') == Live(s) + [entry]
  {
    StaysCompact(s, s', k, entry, lastInCluster);
    var rest := s[k + 1..];
    assert forall i :: 0 <= i < |rest| ==> rest[i] == s[k + 1 + i];
    LiveZero(rest);
    FilledListing(s, s', k, entry, lastInCluster);
    assert s == s[..k] + s[k..];
    LiveConcat(s[..k], s[k..]);
  }

  /** A record that begins like a free slot is not listed, nor is anything else lost. */
  lemma FilledUnseen(s: seq<Slot>, s': seq<Slot>, k: nat, entry: Slot, lastInCluster: bool)
    requires Filled(s, s', k, entry, lastInCluster) && Compact(s) && IsFreeSlot(entry.rec)
    ensures WfSlots(s') && Live(s') == Live(s)
  {
    hide Live;
    var front, rest := s[..k], if lastInCluster then s[k + 1..] else [Ended(s[k + 1])] + s[k + 2..];
    assert s == front + s[k..] && s' == front + ([entry] + rest);
    forall i | 0 <= i < |rest| ensures |rest[i].rec| == RECORD && rest[i].rec[0] == 0 {
      assert s[k + 1 + i].rec == Zeros(RECORD);
    }
    UnseenAround(front, s[k..], entry, rest);
  }

  lemma UnseenAround(front: seq<Slot>, back: seq<Slot>, entry: Slot, rest: seq<Slot>)
    requires WfSlots(front) && WfSlots(back) && WfSlots(rest) && |entry.rec| == RECORD && IsFreeSlot(entry.rec)
    requires forall i :: 0 <= i < |front| ==> front[i].rec[0] != 0
    requires back != [] && back[0].rec[0] == 0 && forall i :: 0 <= i < |rest| ==> rest[i].rec[0] == 0
    ensures Live(front + ([entry] + rest)) == Live(front + back)
  {
    assert ([entry] + rest)[1..] == rest;
    LiveConcat(front, back);
    LiveConcat(front, [entry] + rest);
    LiveZero(rest);
  }

  lemma StaysCompact(s: seq<Slot>, s': seq<Slot>, k: nat, entry: Slot, lastInCluster: bool)
    requires Filled(s, s', k, entry, lastInCluster) && Compact(s) && !IsFreeSlot(entry.rec)
    ensures Compact(s')
  {
    assert |s'| == |s|;
    forall i | 0 <= i < |s| && i != k ensures s'[i] == if i == k + 1 && !lastInCluster then Ended(s[i]) else s[i] {
    }
    forall i, j | 0 <= i < j < |s'| && s'[i].rec[0] == 0 ensures s'[j].rec == Zeros(RECORD) {
      assert i > k && s[k].rec[0] == 0 && s[j].rec == Zeros(RECORD);
    }
  }

  // ---- filling a slot of a directory cluster ----

  ghost predicate NoFree(s: seq<Slot>) {
    WfSlots(s) && forall i {:trigger s[i]} :: 0 <= i < |s| ==> !IsFreeSlot(s[i].rec)
  }

  /** A free record in one of its clusters is a free slot of the directory. */
  lemma FreeSlotSeen(data: seq<seq<byte>>, ds: seq<nat>, j: nat, off: nat)
    requires (forall i {:trigger ds[i]} :: 0 <= i < |ds| ==> ds[i] < |data|) && j < |ds|
    requires off % 32 == 0 && off + RECORD <= |data[ds[j]]| && IsFreeSlot(Record(data[ds[j]], off))
    ensures !NoFree(DirSlots(data, ds))
  {
    hide DirSlots;
    DirSlotsFront(data, ds, j);
    DirSlotsConcat(data, ds[..j], ds[j..]);
    assert ds[..j] + ds[j..] == ds;
    var a, m := DirSlots(data, ds[..j]), ClusterSlots(data[ds[j]], ds[j]);
    var k := off / 32;
    assert m[k].rec == Record(data[ds[j]], off);
    assert DirSlots(data, ds)[|a| + k] == m[k];
  }

  lemma NoFreeConcat(a: seq<Slot>, b: seq<Slot>)
    requires NoFree(a) && NoFree(b)
    ensures NoFree(a + b)
  {
  }

  /** The cluster `d` with the record at `o` filled in, and the next one ended. */
  function FilledCluster(d: seq<byte>, o: nat, rec: seq<byte>): (r: seq<byte>)
    requires |rec| == RECORD && o + 32 <= |d|
    ensures |r| == |d|
  {
    var e := Overwrite(d, o, rec);
    if o + 64 <= |d| then e[o + 32 := 0] else e
  }

  lemma FilledClusterSlots(d: seq<byte>, c: nat, i: nat, rec: seq<byte>)
    requires |rec| == RECORD && 32 * i + 32 <= |d| && |d| % 32 == 0
    ensures var s, s' := ClusterSlots(d, c), ClusterSlots(FilledCluster(d, 32 * i, rec), c);
      && i < |s|
      && (32 * i + 64 <= |d| <==> i + 1 < |s|)
      && s[i].rec == Record(d, 32 * i)
      && s' == s[..i] + [Slot(rec, c, 32 * i)] +
               (if 32 * i + 64 <= |d| then [Ended(s[i + 1])] + s[i + 2..] else s[i + 1..])
  {
    hide FilledCluster, ClusterSlots;
    var s, s' := ClusterSlots(d, c), ClusterSlots(FilledCluster(d, 32 * i, rec), c);
    var t := s[..i] + [Slot(rec, c, 32 * i)] +
             (if 32 * i + 64 <= |d| then [Ended(s[i + 1])] + s[i + 2..] else s[i + 1..]);
    assert |s'| == |t|;
    forall j | 0 <= j < |s'| ensures s'[j] == t[j] {
      FilledSlotAt(d, c, i, rec, j);
    }
  }

  lemma FilledSlotAt(d: seq<byte>, c: nat, i: nat, rec: seq<byte>, j: nat)
    requires |rec| == RECORD && 32 * i + 32 <= |d| && 32 * j + 32 <= |d|
    ensures var e, e' := d[32 * j..32 * j + 32], FilledCluster(d, 32 * i, rec)[32 * j..32 * j + 32];
      e' == if j == i then rec else if j == i + 1 then e[0 := 0] else e
  {
    var f := FilledCluster(d, 32 * i, rec);
    var e' := f[32 * j..32 * j + 32];
    var e := if j == i then rec else if j == i + 1 then d[32 * j..32 * j + 32][0 := 0] else d[32 * j..32 * j + 32];
    assert forall k :: 0 <= k < 32 ==> e'[k] == f[32 * j + k];
    assert forall k :: 0 <= k < 32 ==> e'[k] == e[k];
  }

  /** Storing the filled cluster fills the slot in the directory. */
  lemma FillSlot(data: seq<seq<byte>>, data': seq<seq<byte>>, ds: seq<nat>, j: nat, i: nat, rec: seq<byte>, k: nat)
    requires (forall x {:trigger ds[x]} :: 0 <= x < |ds| ==> ds[x] < |data|) && Distinct(ds) && j < |ds|
    requires |data[ds[j]]| % 32 == 0 && 32 * i + 32 <= |data[ds[j]]| && |rec| == RECORD
    requires data' == data[ds[j] := FilledCluster(data[ds[j]], 32 * i, rec)]
    requires NoFree(DirSlots(data, ds[..j])) && NoFree(ClusterSlots(data[ds[j]], ds[j])[..i])
    requires IsFreeSlot(Record(data[ds[j]], 32 * i))
    requires k == |DirSlots(data, ds[..j])| + i
    ensures Filled(DirSlots(data, ds), DirSlots(data', ds), k, Slot(rec, ds[j], 32 * i), 32 * i + 64 > |data[ds[j]]|)
  {
    hide *;
    var c := ds[j];
    var d' := FilledCluster(data[c], 32 * i, rec);
    ReplacedClusterSlots(data, ds, j, d');
    FilledClusterSlots(data[c], c, i, rec);
    var a, m, b := DirSlots(data, ds[..j]), ClusterSlots(data[c], c), DirSlots(data, ds[j + 1..]);
    FilledAround(DirSlots(data, ds), DirSlots(data', ds), a, m, b, ClusterSlots(d', c), i, Slot(rec, c, 32 * i),
                 32 * i + 64 > |data[c]|);
  }

  lemma ReplacedClusterSlots(data: seq<seq<byte>>, ds: seq<nat>, j: nat, d': seq<byte>)
    requires (forall i {:trigger ds[i]} :: 0 <= i < |ds| ==> ds[i] < |data|) && Distinct(ds) && j < |ds|
    ensures var data' := data[ds[j] := d']; var a, b := DirSlots(data, ds[..j]), DirSlots(data, ds[j + 1..]);
      && DirSlots(data, ds) == a + ClusterSlots(data[ds[j]], ds[j]) + b
      && DirSlots(data', ds) == a + ClusterSlots(d', ds[j]) + b
  {
    hide DirSlots, ClusterSlots;
    var data' := data[ds[j] := d'];
    DirSlotsAround(data, ds, j);
    DirSlotsAround(data', ds, j);
    DirSlotsFrame(data, data', ds[..j]);
    DirSlotsFrame(data, data', ds[j + 1..]);
  }

  lemma FilledAround(s: seq<Slot>, s': seq<Slot>, a: seq<Slot>, m: seq<Slot>, b: seq<Slot>, m': seq<Slot>,
                     i: nat, entry: Slot, last: bool)
    requires s == a + m + b && s' == a + m' + b
    requires NoFree(a) && WfSlots(m) && WfSlots(b) && |entry.rec| == RECORD
    requires i < |m| && NoFree(m[..i]) && IsFreeSlot(m[i].rec)
    requires last || i + 1 < |m|
    requires m' == m[..i] + [entry] + (if last then m[i + 1..] else [Ended(m[i + 1])] + m[i + 2..])
    ensures Filled(s, s', |a| + i, entry, last)
  {
    hide IsFreeSlot;
    var k := |a| + i;
    SplitMiddle(a, m, b, i);
    forall x | 0 <= x < k ensures !IsFreeSlot(s[x].rec) {
      assert s[x] == if x < |a| then a[x] else m[..i][x - |a|];
    }
    if last {
      Regrouped(a, m[..i], [entry], m[i + 1..], b);
    } else {
      SplitMiddle(a, m, b, i + 1);
      Regrouped(a, m[..i], [entry], [Ended(m[i + 1])] + m[i + 2..], b);
      assert [Ended(m[i + 1])] + m[i + 2..] + b == [Ended(m[i + 1])] + (m[i + 2..] + b);
    }
  }

  lemma SplitMiddle(a: seq<Slot>, m: seq<Slot>, b: seq<Slot>, i: nat)
    requires i < |m|
    ensures var s, k := a + m + b, |a| + i; s[..k] == a + m[..i] && s[k] == m[i] && s[k + 1..] == m[i + 1..] + b
  {
  }

  lemma Regrouped(a: seq<Slot>, x: seq<Slot>, e: seq<Slot>, y: seq<Slot>, b: seq<Slot>)
    ensures a + (x + e + y) + b == a + x + e + (y + b)
  {
  }

  /** A directory that was full before a zeroed cluster was appended lists the same. */
  lemma GrownDirectory(s: seq<Slot>, z: seq<Slot>)
    requires NoFree(s) && WfSlots(z)
    requires forall i {:trigger z[i]} :: 0 <= i < |z| ==> z[i].rec == Zeros(RECORD)
    ensures Live(s + z) == Live(s) && Compact(s + z)
  {
    LiveConcat(s, z);
    LiveZero(z);
    assert forall i :: 0 <= i < |s + z| ==> (s + z)[i] == if i < |s| then s[i] else z[i - |s|];
  }

  /** Appending a cluster that holds `d` to a directory appends its slots. */
  lemma AppendedSlots(data: seq<seq<byte>>, ds: seq<nat>, c: nat, d: seq<byte>)
    requires (forall x {:trigger ds[x]} :: 0 <= x < |ds| ==> ds[x] < |data|) && c < |data| && c !in ds
    ensures DirSlots(data[c := d], ds + [c]) == DirSlots(data, ds) + ClusterSlots(d, c)
    ensures DirSlots(data[c := d], ds) == DirSlots(data, ds)
  {
    hide ClusterSlots;
    var data' := data[c := d];
    DirSlotsConcat(data', ds, [c]);
    DirSlotsFrame(data, data', ds);
    NoSlots(data');
    assert [c][1..] == [];
    assert DirSlots(data', [c]) == ClusterSlots(data'[c], c) + DirSlots(data', []);
  }

  lemma ZeroClusterSlots(cb: nat, c: nat)
    ensures forall i {:trigger ClusterSlots(Zeros(cb), c)[i]} ::
      0 <= i < cb / 32 ==> ClusterSlots(Zeros(cb), c)[i].rec == Zeros(RECORD)
  {
    forall i | 0 <= i < cb / 32 ensures ClusterSlots(Zeros(cb), c)[i].rec == Zeros(RECORD) {
      assert ClusterSlots(Zeros(cb), c)[i].rec == Zeros(cb)[32 * i..32 * i + 32];
    }
  }

  /** Filling slot k of a directory whose clusters hold cb bytes. */
  ghost predicate FilledIn(s: seq<Slot>, s': seq<Slot>, k: nat, entry: Slot, cb: nat) {
    Filled(s, s', k, entry, entry.off + 64 > cb)
  }

  /** `s'` is `s`, extended by a zeroed cluster if it had no free slot, with `entry` filled
      into its first free slot. */
  ghost predicate Inserted(s: seq<Slot>, s': seq<Slot>, entry: Slot, cb: nat) {
    exists mid, k :: FilledIn(mid, s', k, entry, cb)
      && (mid == s || (NoFree(s) && mid == s + ClusterSlots(Zeros(cb), entry.cluster)))
  }

  /** Inserting into a compact directory appends to its listing, even when the directory
      has to grow, and keeps it compact. */
  lemma InsertedCompact(s: seq<Slot>, s': seq<Slot>, entry: Slot, cb: nat)
    requires Inserted(s, s', entry, cb) && Compact(s)
    requires |entry.rec| == RECORD && !IsFreeSlot(entry.rec) && IsPlain(entry.rec)
    ensures Compact(s') && Live(s') == Live(s) + [entry]
  {
    var mid, k :| FilledIn(mid, s', k, entry, cb)
      && (mid == s || (NoFree(s) && mid == s + ClusterSlots(Zeros(cb), entry.cluster)));
    if mid != s {
      ZeroClusterSlots(cb, entry.cluster);
      GrownDirectory(s, ClusterSlots(Zeros(cb), entry.cluster));
    }
    FilledCompact(mid, s', k, entry, entry.off + 64 > cb);
  }

  /** Inserting a record that begins like a free slot leaves the listing as it was. */
  lemma InsertedUnseen(s: seq<Slot>, s': seq<Slot>, entry: Slot, cb: nat)
    requires Inserted(s, s', entry, cb) && Compact(s) && |entry.rec| == RECORD && IsFreeSlot(entry.rec)
    ensures WfSlots(s') && Live(s') == Live(s)
  {
    var mid, k :| FilledIn(mid, s', k, entry, cb)
      && (mid == s || (NoFree(s) && mid == s + ClusterSlots(Zeros(cb), entry.cluster)));
    if mid != s {
      ZeroClusterSlots(cb, entry.cluster);
      GrownDirectory(s, ClusterSlots(Zeros(cb), entry.cluster));
    }
    FilledUnseen(mid, s', k, entry, entry.off + 64 > cb);
  }

  /** The record of a new empty file: packed name, archive attribute, all else zero. */
  function NewRecord(packed: seq<byte>): (r: seq<byte>)
    requires |packed| == 11
    ensures |r| == RECORD && r[..11] == packed && IsPlain(r) && r[0] == packed[0] && r[0x0B] == 0x20
    ensures FirstClusterOf(r) == 0 && EntrySize(r) == 0
  {
    var r := packed + [0x20] + Zeros(20);
    LeZero(r[0x14..0x16]);
    LeZero(r[0x1A..0x1C]);
    LeZero(r[0x1C..0x20]);
    r
  }

  /** The record of a new file is that of an empty file with the archive mark, all else
      zero. */
  lemma NewRecordIs(packed: seq<byte>)
    requires |packed| == 11
    ensures NewRecord(packed) == RecordOf(Zeros(32), packed, Attributes(false, false, false, false, false, true), 0, 0)
  {
    var a := Attributes(false, false, false, false, false, true);
    var s, l := packed + Zeros(21), RecordFields(a, 0, 0);
    assert Overwrite(Zeros(32), 0, packed) == s;
    var s1 := PutField(s, 0x0B, 0x20, 1);
    assert AttrByte(a) == 0x20 && LeEncode(0x20, 1) == [0x20] + LeEncode(0, 0);
    assert s1 == packed + [0x20] + Zeros(20);
    PutZero(s1, 0x14, 2);
    PutZero(s1, 0x1A, 2);
    PutZero(s1, 0x1C, 4);
    PutFour(s, l);
  }

  lemma PutFour(s: seq<byte>, l: seq<Store>)
    requires |l| == 4 && forall i {:trigger l[i]} :: 0 <= i < |l| ==> l[i].pos + l[i].n <= |s|
    ensures PutAll(s, l) == PutField(PutField(PutField(PutField(s, l[0].pos, l[0].v, l[0].n), l[1].pos, l[1].v, l[1].n),
                                              l[2].pos, l[2].v, l[2].n), l[3].pos, l[3].v, l[3].n)
  {
    hide PutField;
    assert l[..3][..2] == l[..2] && l[..2][..1] == l[..1] && l[..1][..0] == [];
    assert PutAll(s, []) == s;
    assert PutAll(s, l[..1]) == PutField(s, l[0].pos, l[0].v, l[0].n);
    assert PutAll(s, l[..2]) == PutField(PutAll(s, l[..1]), l[1].pos, l[1].v, l[1].n);
    assert PutAll(s, l[..3]) == PutField(PutAll(s, l[..2]), l[2].pos, l[2].v, l[2].n);
  }

  lemma PutZero(s: seq<byte>, pos: nat, n: nat)
    requires pos + n <= |s| && forall i :: pos <= i < pos + n ==> s[i] == 0
    ensures PutField(s, pos, 0, n) == s
  {
    EncodeZero(n);
    assert s[pos..pos + n] == Zeros(n);
  }

  lemma {:induction false} EncodeZero(n: nat)
    ensures LeEncode(0, n) == Zeros(n)
  {
    if n > 0 {
      EncodeZero(n - 1);
      assert [0] + Zeros(n - 1) == Zeros(n);
    }
  }

  // ---- insertions that were cut off ----

  /** d is what an allocation cut off before or during zeroing leaves in its cluster c. */
  ghost predicate Stale(v: View, c: nat, d: seq<byte>, cb: nat) {
    |v.fat| > 0 && LowestFree(v.fat[0], c) && c < |v.data| && Torn(v.data[c], Zeros(cb), d)
  }

  /** The slots after a failed attempt to grow a full directory: the cluster may be part of
      it already, with what it held before. */
  ghost predicate GrownCut(v: View, s: seq<Slot>, s': seq<Slot>, cb: nat) {
    s' == s || (NoFree(s) && exists c: nat, d :: Stale(v, c, d, cb) && s' == s + ClusterSlots(d, c))
  }

  /** The slots after a cut off attempt to fill a free slot: the record is there or it is
      not, and the next slot is ended or it is not. */
  ghost predicate FillCut(s: seq<Slot>, s': seq<Slot>, entry: Slot) {
    s' == s || exists k, last :: Filled(s, s', k, entry, last)
  }

  /** The slots after a failed insertion of `rec`. */
  ghost predicate InsertCut(v: View, s: seq<Slot>, s': seq<Slot>, rec: seq<byte>, cb: nat) {
    || GrownCut(v, s, s', cb)
    || exists mid, entry: Slot :: entry.rec == rec && FillCut(mid, s', entry)
         && (mid == s || (NoFree(s) && mid == s + ClusterSlots(Zeros(cb), entry.cluster)))
  }

  lemma NotInserted(v: View, s: seq<Slot>, rec: seq<byte>, cb: nat)
    ensures InsertCut(v, s, s, rec, cb)
  {
  }

  lemma FillNotBegun(s: seq<Slot>, entry: Slot)
    ensures FillCut(s, s, entry)
  {
  }

  /** A torn write of a filled cluster: a record lies in one sector. */
  lemma TornCluster(d: seq<byte>, o: nat, rec: seq<byte>, d': seq<byte>)
    requires |rec| == RECORD && o % 32 == 0 && o + 32 <= |d| && Torn(d, FilledCluster(d, o, rec), d')
    ensures d' == d || d' == Overwrite(d, o, rec) || d' == FilledCluster(d, o, rec)
  {
    var k: nat :| TornAt(d, FilledCluster(d, o, rec), d', k);
    WholeRecords(o, k);
    CutAt(d, o, rec, d', k * 512);
  }

  lemma WholeRecords(o: nat, k: nat)
    requires o % 32 == 0
    ensures k * 512 <= o || o + 32 <= k * 512
  {
    assert k * 512 == 32 * (16 * k) && o == 32 * (o / 32);
  }

  lemma CutAt(d: seq<byte>, o: nat, rec: seq<byte>, d': seq<byte>, n: nat)
    requires |rec| == RECORD && o + 32 <= |d| && (n <= o || o + 32 <= n <= |d|)
    requires d' == Overwrite(d, 0, FilledCluster(d, o, rec)[..n])
    ensures d' == d || d' == Overwrite(d, o, rec) || d' == FilledCluster(d, o, rec)
  {
    var f := FilledCluster(d, o, rec);
    assert forall i :: 0 <= i < |d| ==> d'[i] == if i < n then f[i] else d[i];
    if n <= o {
      assert d' == d;
    } else if n == o + 32 {
      assert d' == Overwrite(d, o, rec);
    } else {
      assert d' == f;
    }
  }

  /** The same for the slots of a directory. */
  lemma FillTorn(data: seq<seq<byte>>, data': seq<seq<byte>>, ds: seq<nat>, j: nat, i: nat, rec: seq<byte>, k: nat)
    requires (forall x {:trigger ds[x]} :: 0 <= x < |ds| ==> ds[x] < |data|) && Distinct(ds) && j < |ds|
    requires |data[ds[j]]| % 32 == 0 && 32 * i + 32 <= |data[ds[j]]| && |rec| == RECORD
    requires ds[j] < |data'| && data' == data[ds[j] := data'[ds[j]]]
    requires Torn(data[ds[j]], FilledCluster(data[ds[j]], 32 * i, rec), data'[ds[j]])
    requires NoFree(DirSlots(data, ds[..j])) && NoFree(ClusterSlots(data[ds[j]], ds[j])[..i])
    requires IsFreeSlot(Record(data[ds[j]], 32 * i))
    requires k == |DirSlots(data, ds[..j])| + i
    ensures FillCut(DirSlots(data, ds), DirSlots(data', ds), Slot(rec, ds[j], 32 * i))
  {
    hide DirSlots, ClusterSlots, Filled, NoFree, FilledCluster, Torn, Overwrite, Record;
    var c := ds[j];
    var d, d' := data[c], data'[c];
    TornCluster(d, 32 * i, rec, d');
    if d' == d {
      assert data' == data;
    } else if d' == FilledCluster(d, 32 * i, rec) {
      FillSlot(data, data', ds, j, i, rec, k);
    } else {
      RecordOnly(data, data', ds, j, i, rec, k);
    }
  }

  lemma RecordOnly(data: seq<seq<byte>>, data': seq<seq<byte>>, ds: seq<nat>, j: nat, i: nat, rec: seq<byte>, k: nat)
    requires (forall x {:trigger ds[x]} :: 0 <= x < |ds| ==> ds[x] < |data|) && Distinct(ds) && j < |ds|
    requires |data[ds[j]]| % 32 == 0 && 32 * i + 32 <= |data[ds[j]]| && |rec| == 32
    requires data' == data[ds[j] := Overwrite(data[ds[j]], 32 * i, rec)]
    requires NoFree(DirSlots(data, ds[..j])) && NoFree(ClusterSlots(data[ds[j]], ds[j])[..i])
    requires IsFreeSlot(Record(data[ds[j]], 32 * i))
    requires k == |DirSlots(data, ds[..j])| + i
    ensures Filled(DirSlots(data, ds), DirSlots(data', ds), k, Slot(rec, ds[j], 32 * i), true)
  {
    hide *;
    var c := ds[j];
    var d' := Overwrite(data[c], 32 * i, rec);
    ReplacedClusterSlots(data, ds, j, d');
    OverwrittenSlots(data[c], c, i, rec);
    var a, m, b := DirSlots(data, ds[..j]), ClusterSlots(data[c], c), DirSlots(data, ds[j + 1..]);
    FilledAround(DirSlots(data, ds), DirSlots(data', ds), a, m, b, ClusterSlots(d', c), i, Slot(rec, c, 32 * i), true);
  }

  lemma OverwrittenSlots(d: seq<byte>, c: nat, i: nat, rec: seq<byte>)
    requires |rec| == 32 && 32 * i + 32 <= |d| && |d| % 32 == 0
    ensures var s, s' := ClusterSlots(d, c), ClusterSlots(Overwrite(d, 32 * i, rec), c);
      i < |s| && s[i].rec == Record(d, 32 * i) && s' == s[..i] + [Slot(rec, c, 32 * i)] + s[i + 1..]
  {
    var e := Overwrite(d, 32 * i, rec);
    var s, s' := ClusterSlots(d, c), ClusterSlots(e, c);
    OverwriteInside(d, 32 * i, rec);
    forall j | 0 <= j < |s'| ensures s'[j] == if j == i then Slot(rec, c, 32 * i) else s[j] {
      if j != i {
        OverwriteOutside(d, 32 * i, rec, 32 * j, 32 * j + 32);
      }
    }
  }

  /** What a directory can list after a failed insertion of `rec`: the old records; these
      and the new one; or, if the directory was full, these and whatever records the
      cluster taken from the free ones still holds. */
  ghost predicate CutListing(v: View, s: seq<Slot>, l': seq<Slot>, rec: seq<byte>)
    requires WfSlots(s)
  {
    || l' == Live(s)
    || (exists e: Slot :: e.rec == rec && l' == Live(s) + [e])
    || (NoFree(s) && |v.fat| > 0 &&
        exists c: nat :: LowestFree(v.fat[0], c) && c < |v.data| && l' == Live(s) + Live(ClusterSlots(v.data[c], c)))
  }

  lemma InsertCutLive(v: View, s: seq<Slot>, s': seq<Slot>, rec: seq<byte>, cb: nat)
    requires InsertCut(v, s, s', rec, cb) && Compact(s) && WfSlots(s') && |rec| == RECORD && !IsFreeSlot(rec)
    requires IsPlain(rec)
    ensures CutListing(v, s, Live(s'), rec)
  {
    hide ClusterSlots, Filled, Live;
    if s' == s {
    } else if GrownCut(v, s, s', cb) {
      var c: nat, d :| Stale(v, c, d, cb) && s' == s + ClusterSlots(d, c);
      StaleLive(v, s, c, d, cb);
      assert LowestFree(v.fat[0], c) && c < |v.data|;
    } else {
      var mid, entry: Slot :| entry.rec == rec && FillCut(mid, s', entry)
        && (mid == s || (NoFree(s) && mid == s + ClusterSlots(Zeros(cb), entry.cluster)));
      if mid != s {
        ZeroClusterSlots(cb, entry.cluster);
        GrownDirectory(s, ClusterSlots(Zeros(cb), entry.cluster));
      }
      if s' != mid {
        var k, last :| Filled(mid, s', k, entry, last);
        FilledCompact(mid, s', k, entry, last);
      }
    }
  }

  /** As soon as one sector of the new cluster is zeroed it lists nothing. */
  lemma StaleLive(v: View, s: seq<Slot>, c: nat, d: seq<byte>, cb: nat)
    requires NoFree(s) && Stale(v, c, d, cb)
    ensures
      || Live(s + ClusterSlots(d, c)) == Live(s)
      || Live(s + ClusterSlots(d, c)) == Live(s) + Live(ClusterSlots(v.data[c], c))
  {
    var k: nat :| TornAt(v.data[c], Zeros(cb), d, k);
    LiveConcat(s, ClusterSlots(d, c));
    if k == 0 {
      assert d == v.data[c];
    } else {
      assert d[0] == 0 && |d| >= 512;
      assert ClusterSlots(d, c)[0].rec[0] == 0;
    }
  }

  /** A cluster appended to a full directory with the contents d adds no record if and only
      if it holds no live one. */
  lemma AppendedLive(s: seq<Slot>, d: seq<byte>, c: nat)
    requires NoFree(s)
    ensures Live(s + ClusterSlots(d, c)) == Live(s) <==> Live(ClusterSlots(d, c)) == []
  {
    LiveConcat(s, ClusterSlots(d, c));
  }

  // ---- filling a deleted slot ----

  /** A one-sector directory whose first record was deleted: creating a file in its place
      loses the second record, because that slot becomes the end marker. */
  lemma FillingDeletedTruncates(d: seq<byte>, c: nat, rec: seq<byte>)
    requires |d| == 512 && d[0] == DELETED && |rec| == RECORD && !IsFreeSlot(rec) && IsPlain(rec)
    requires !IsFreeSlot(Record(d, 32)) && IsPlain(Record(d, 32))
    ensures Slot(Record(d, 32), c, 32) in Live(ClusterSlots(d, c))
    ensures Live(ClusterSlots(FilledCluster(d, 0, rec), c)) == [Slot(rec, c, 0)]
  {
    hide FilledCluster, IsPlain;
    FilledClusterSlots(d, c, 0, rec);
    var s, s' := ClusterSlots(d, c), ClusterSlots(FilledCluster(d, 0, rec), c);
    assert s[0].rec[0] == DELETED && s[1] == Slot(Record(d, 32), c, 32) && s[1..][0] == s[1];
    assert Live(s) == Live(s[1..]);
    assert s'[0] == Slot(rec, c, 0) && s'[1] == Ended(s[1]) && s'[1..][0] == s'[1];
    assert Live(s'[1..]) == [];
  }
}
