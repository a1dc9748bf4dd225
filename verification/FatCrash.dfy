/** All FAT copies at once: their agreement over runs of link updates, and the forest of
    chains in each of them when an allocation is cut off. */
module FatCrash {
  import opened Bytes
  import opened FatLayout
  import opened FatChains
  import opened Fat32

  /** All copies hold the same 28-bit links. */
  ghost predicate CopiesAgree(v: View) {
    && |v.fat| > 0
    && (forall f {:trigger v.fat[f]} :: 0 <= f < |v.fat| ==>
          && |v.fat[f]| == |v.fat[0]|
          && forall c :: 0 <= c < |v.fat[0]| ==> Next(v.fat[f], c) == Next(v.fat[0], c))
  }

  lemma ForestInCopy(fat: seq<nat>, fat': seq<nat>, chains: set<seq<nat>>)
    requires Forest(fat, chains) && |fat'| == |fat|
    requires forall c :: 0 <= c < |fat| ==> Next(fat', c) == Next(fat, c)
    ensures Forest(fat', chains)
  {
    forall cs | cs in chains ensures IsChain(fat', cs) {
      forall i | 0 <= i < |cs| - 1 ensures Next(fat', cs[i]) == cs[i + 1] {
        assert Next(fat, cs[i]) == cs[i + 1];
      }
    }
  }

  /** Cutting an allocation off after any of its sector writes leaves the chains of every
      FAT copy a forest, and the bytes of every chain as they were. */
  lemma AllocCrashSafe(v: View, v': View, prev: Option<nat>, c: nat, chains: set<seq<nat>>, own: seq<nat>, f: nat)
    requires CopiesAgree(v) && |v.fat[0]| <= EOC_MIN && |v.fat[0]| <= |v.data|
    requires Forest(v.fat[0], chains) && AllocReach(v, v', prev, c)
    requires prev.Some? ==> own in chains && prev.value == own[|own| - 1]
    requires f < |v.fat|
    ensures Forest(v'.fat[f], chains) || (prev.Some? && Forest(v'.fat[f], chains - {own} + {own + [c]}))
    ensures prev.None? ==> Forest(v'.fat[f], chains)
    ensures forall cs :: cs in chains ==>
      && (forall i {:trigger cs[i]} :: 0 <= i < |cs| ==> cs[i] < |v.data|)
      && ChainBytes(v'.data, cs) == ChainBytes(v.data, cs)
  {
    ForestInCopy(v.fat[0], v.fat[f], chains);
    AllocKeepsForest(v.fat[f], v'.fat[f], prev, c, chains, own);
    forall cs | cs in chains
      ensures forall i {:trigger cs[i]} :: 0 <= i < |cs| ==> cs[i] < |v.data|
      ensures ChainBytes(v'.data, cs) == ChainBytes(v.data, cs)
    {
      FreeNotInChain(v.fat[0], cs, c);
      ChainBytesFrame(v.data, v'.data, cs);
    }
  }

  /** A completed allocation keeps the copies in agreement. */
  lemma AllocKeepsAgreement(v: View, v': View, prev: Option<nat>, c: nat, cb: nat)
    requires CopiesAgree(v) && AllocDone(v, v', prev, c, cb)
    ensures CopiesAgree(v')
  {
    forall f | 0 <= f < |v.fat|
      ensures |v'.fat[f]| == |v'.fat[0]|
      ensures forall x :: 0 <= x < |v'.fat[0]| ==> Next(v'.fat[f], x) == Next(v'.fat[0], x)
    {
      assert |v.fat[f]| == |v.fat[0]|;
      forall x | 0 <= x < |v'.fat[0]| ensures Next(v'.fat[f], x) == Next(v'.fat[0], x) {
        assert Next(v.fat[f], x) == Next(v.fat[0], x);
      }
    }
  }

  // ---- runs of set_fat_entry ----

  datatype LinkOp = LinkOp(cluster: nat, value: nat)

  /** `vs` are the states of a run of completed link updates. */
  ghost predicate LinkRun(vs: seq<View>, ops: seq<LinkOp>) {
    && |vs| == |ops| + 1
    && forall i {:trigger ops[i]} :: 0 <= i < |ops| ==> EntryDone(vs[i], vs[i + 1], ops[i].cluster, ops[i].value)
  }

  /** The value last set for c, if any. */
  function LastSet(ops: seq<LinkOp>, c: nat): Option<nat> {
    if ops == [] then None
    else if ops[|ops| - 1].cluster == c then Some(ops[|ops| - 1].value)
    else LastSet(ops[..|ops| - 1], c)
  }

  lemma LinkRunPrefix(vs: seq<View>, ops: seq<LinkOp>)
    requires LinkRun(vs, ops) && ops != []
    ensures LinkRun(vs[..|vs| - 1], ops[..|ops| - 1])
    ensures EntryDone(vs[|vs| - 2], vs[|vs| - 1], ops[|ops| - 1].cluster, ops[|ops| - 1].value)
  {
    var n := |ops| - 1;
    assert ops[n] == ops[n];
    assert forall i :: 0 <= i < n ==> ops[..n][i] == ops[i];
    assert forall i :: 0 <= i <= n ==> vs[..n + 1][i] == vs[i];
  }

  /** After any run, in every copy: the top four bits of an entry are the copy's own, an
      entry never set is unchanged, and the link of c is the value last set for it. */
  lemma {:induction false} LinkRunEntry(vs: seq<View>, ops: seq<LinkOp>, f: nat, c: nat)
    requires LinkRun(vs, ops) && f < |vs[0].fat| && c < |vs[0].fat[f]|
    ensures var last := vs[|vs| - 1];
      && |last.fat| == |vs[0].fat| && |last.fat[f]| == |vs[0].fat[f]|
      && last.fat[f][c] / LOW28 == vs[0].fat[f][c] / LOW28
      && (LastSet(ops, c).None? ==> last.fat[f][c] == vs[0].fat[f][c])
      && (LastSet(ops, c).Some? ==> Next(last.fat[f], c) == LastSet(ops, c).value % LOW28)
  {
    if ops == [] {
    } else {
      LinkRunPrefix(vs, ops);
      LinkRunEntry(vs[..|vs| - 1], ops[..|ops| - 1], f, c);
      var prev, last, op := vs[|vs| - 2], vs[|vs| - 1], ops[|ops| - 1];
      assert vs[..|vs| - 1][|vs| - 2] == prev;
      assert last.fat[f] == EntrySet(prev.fat[f], op.cluster, op.value);
    }
  }

  /** Copies that agree at the start of a run agree at its end. */
  lemma LinkRunAgrees(vs: seq<View>, ops: seq<LinkOp>)
    requires LinkRun(vs, ops) && CopiesAgree(vs[0])
    ensures CopiesAgree(vs[|vs| - 1])
  {
    var first, last := vs[0], vs[|vs| - 1];
    forall f | 0 <= f < |first.fat|
      ensures |last.fat| == |first.fat| && |last.fat[f]| == |first.fat[f]|
      ensures forall c ::
        0 <= c < |first.fat[0]| ==> |last.fat[0]| == |first.fat[0]| && Next(last.fat[f], c) == Next(last.fat[0], c)
    {
      assert |first.fat[f]| == |first.fat[0]|;
      LinkRunShape(vs, ops, f);
      LinkRunShape(vs, ops, 0);
      forall c | 0 <= c < |first.fat[0]| ensures Next(last.fat[f], c) == Next(last.fat[0], c) {
        LinkRunEntry(vs, ops, f, c);
        LinkRunEntry(vs, ops, 0, c);
        assert Next(first.fat[f], c) == Next(first.fat[0], c);
      }
    }
    LinkRunShape(vs, ops, 0);
  }

  lemma {:induction false} LinkRunShape(vs: seq<View>, ops: seq<LinkOp>, f: nat)
    requires LinkRun(vs, ops) && f < |vs[0].fat|
    ensures |vs[|vs| - 1].fat| == |vs[0].fat| && |vs[|vs| - 1].fat[f]| == |vs[0].fat[f]|
  {
    if ops == [] {
    } else {
      LinkRunPrefix(vs, ops);
      LinkRunShape(vs[..|vs| - 1], ops[..|ops| - 1], f);
      assert vs[..|vs| - 1][|vs| - 2] == vs[|vs| - 2];
    }
  }

  lemma LinkRunSnoc(vs: seq<View>, ops: seq<LinkOp>, v: View, op: LinkOp)
    requires LinkRun(vs, ops) && EntryDone(vs[|vs| - 1], v, op.cluster, op.value)
    ensures LinkRun(vs + [v], ops + [op])
  {
    hide EntryDone;
    var ops', vs' := ops + [op], vs + [v];
    forall i | 0 <= i < |ops'| ensures EntryDone(vs'[i], vs'[i + 1], ops'[i].cluster, ops'[i].value) {
      if i < |ops| {
        assert EntryDone(vs[i], vs[i + 1], ops[i].cluster, ops[i].value);
      }
    }
  }

  /** Sets links in any order and number, then reads one back: it is the value last set for
      that cluster, or the old link, and copies that agreed still agree. */
  method SetThenRead(fs: Fat32Fs, ops: seq<LinkOp>, c: nat) returns (r: Option<nat>)
    requires fs.Valid() && c < Entries(fs.bpb) && forall i :: 0 <= i < |ops| ==> ops[i].cluster < Entries(fs.bpb)
    modifies fs.disk, fs`view
    ensures fs.Valid()
    ensures r.Some? ==>
      && r.value == (if LastSet(ops, c).Some? then LastSet(ops, c).value % LOW28 else Next(old(fs.view).fat[0], c))
      && (CopiesAgree(old(fs.view)) ==> CopiesAgree(fs.view))
    ensures r.None? ==> fs.disk.faulted
  {
    hide EntryDone, EntryStages, CopiesAgree, LastSet, Linked;
    ghost var vs := [fs.view];
    ShapeOf(fs.bpb, fs.disk.bytes, fs.view);
    for i := 0 to |ops|
      invariant fs.Valid() && LinkRun(vs, ops[..i]) && vs[0] == old(fs.view) && vs[i] == fs.view
    {
      var ok := fs.SetFatEntry(ops[i].cluster, ops[i].value);
      if !ok {
        return None;
      }
      LinkRunSnoc(vs, ops[..i], fs.view, ops[i]);
      assert ops[..i] + [ops[i]] == ops[..i + 1];
      vs := vs + [fs.view];
    }
    assert ops[..|ops|] == ops;
    LinkRunEntry(vs, ops, 0, c);
    if CopiesAgree(vs[0]) {
      LinkRunAgrees(vs, ops);
    }
    r := fs.NextCluster(c);
  }

  lemma ShapeOf(b: Bpb, disk: seq<byte>, v: View)
    requires WfVolume(b, |disk|) && Linked(b, disk, v)
    ensures Shape(b, v) && |v.fat| > 0 && |v.fat[0]| == Entries(b)
  {
  }
}
