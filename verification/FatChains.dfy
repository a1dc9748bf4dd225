/** Cluster chains: what a FAT copy says about which clusters follow which, the
    forest of all chains on a volume, and the bytes a chain holds. */
module FatChains {
  import opened Bytes
  import opened FatLayout

  /** The 28-bit link stored for cluster c. */
  function Next(fat: seq<nat>, c: nat): nat
    requires c < |fat|
  {
    fat[c] % LOW28
  }

  ghost predicate IsChain(fat: seq<nat>, cs: seq<nat>) {
    && |cs| > 0
    && (forall i {:trigger cs[i]} :: 0 <= i < |cs| ==> 2 <= cs[i] < |fat|)
    && (forall i {:trigger Next(fat, cs[i])} :: 0 <= i < |cs| - 1 ==> Next(fat, cs[i]) == cs[i + 1])
    && Next(fat, cs[|cs| - 1]) >= EOC_MIN
  }

  ghost predicate Distinct(cs: seq<nat>) {
    forall i, j :: 0 <= i < j < |cs| ==> cs[i] != cs[j]
  }

  ghost predicate Disjoint(a: seq<nat>, b: seq<nat>) {
    forall x :: x in a ==> x !in b
  }

  /** A set of chains no two of which share a cluster. */
  ghost predicate Forest(fat: seq<nat>, chains: set<seq<nat>>) {
    && (forall cs :: cs in chains ==> IsChain(fat, cs))
    && (forall a, b :: a in chains && b in chains && a != b ==> Disjoint(a, b))
  }

  // ---- chains are determined by their head ----

  lemma {:induction false} ChainPrefixUnique(fat: seq<nat>, a: seq<nat>, b: seq<nat>, i: nat)
    requires |fat| <= EOC_MIN
    requires IsChain(fat, a) && IsChain(fat, b) && a[0] == b[0]
    requires i < |a|
    ensures i < |b| && a[i] == b[i]
  {
    if i == 0 {
    } else {
      ChainPrefixUnique(fat, a, b, i - 1);
      assert Next(fat, a[i - 1]) == a[i] < EOC_MIN;
      assert Next(fat, b[i - 1]) == Next(fat, a[i - 1]);
    }
  }

  /** A FAT copy assigns at most one chain to a first cluster. */
  lemma ChainUnique(fat: seq<nat>, a: seq<nat>, b: seq<nat>)
    requires |fat| <= EOC_MIN
    requires IsChain(fat, a) && IsChain(fat, b) && a[0] == b[0]
    ensures a == b
  {
    forall i | 0 <= i < |a| ensures i < |b| && a[i] == b[i] {
      ChainPrefixUnique(fat, a, b, i);
    }
    assert Next(fat, b[|a| - 1]) >= EOC_MIN;
  }

  lemma ChainSuffix(fat: seq<nat>, cs: seq<nat>, i: nat)
    requires IsChain(fat, cs) && i < |cs|
    ensures IsChain(fat, cs[i..])
  {
    var t := cs[i..];
    assert forall k :: 0 <= k < |t| ==> t[k] == cs[i + k];
  }

  /** A finite chain that ends in an end-of-chain mark never visits a cluster twice. */
  lemma ChainDistinct(fat: seq<nat>, cs: seq<nat>)
    requires |fat| <= EOC_MIN
    requires IsChain(fat, cs)
    ensures Distinct(cs)
  {
    forall i, j | 0 <= i < j < |cs| ensures cs[i] != cs[j] {
      if cs[i] == cs[j] {
        ChainSuffix(fat, cs, i);
        ChainSuffix(fat, cs, j);
        ChainUnique(fat, cs[i..], cs[j..]);
        assert false;
      }
    }
  }

  lemma ChainFrame(fat: seq<nat>, fat': seq<nat>, cs: seq<nat>)
    requires IsChain(fat, cs) && |fat'| == |fat|
    requires forall i :: 0 <= i < |cs| ==> fat'[cs[i]] == fat[cs[i]]
    ensures IsChain(fat', cs)
  {
    forall i | 0 <= i < |cs| - 1 ensures Next(fat', cs[i]) == cs[i + 1] {
      assert Next(fat, cs[i]) == cs[i + 1];
    }
  }

  // ---- allocation ----

  /** The entry `e` with its low 28 bits replaced; the top four are kept. */
  function SetLow(e: nat, value: nat): (r: nat)
    ensures r % LOW28 == value % LOW28
    ensures r / LOW28 == e / LOW28
  {
    e - e % LOW28 + value % LOW28
  }

  function Marked(fat: seq<nat>, c: nat): seq<nat>
    requires c < |fat|
  {
    fat[c := SetLow(fat[c], EOC)]
  }

  function LinkedAfter(fat: seq<nat>, p: nat, c: nat): seq<nat>
    requires c < |fat| && p < |fat|
  {
    Marked(fat, c)[p := SetLow(Marked(fat, c)[p], c)]
  }

  /** The states one FAT copy goes through while c is allocated behind `prev`. */
  ghost predicate AllocStage(fat: seq<nat>, fat': seq<nat>, prev: Option<nat>, c: nat)
    requires c < |fat|
    requires prev.Some? ==> prev.value < |fat|
  {
    fat' == fat || fat' == Marked(fat, c) || (prev.Some? && fat' == LinkedAfter(fat, prev.value, c))
  }

  predicate IsFree(fat: seq<nat>, c: nat) {
    2 <= c < |fat| && Next(fat, c) == 0
  }

  /** A chain as any system stores it: each entry links to the next cluster, the last one
      holds one of the eight end marks, and the top four bits of all are arbitrary. */
  lemma StoredChain(fat: seq<nat>, cs: seq<nat>, tops: seq<nat>, mark: nat)
    requires cs != [] && |tops| == |cs| && 0x0FFF_FFF8 <= mark <= 0x0FFF_FFFF && |fat| <= 0x0FFF_FFF8
    requires forall i {:trigger cs[i]} :: 0 <= i < |cs| ==>
      && 2 <= cs[i] < |fat|
      && fat[cs[i]] == tops[i] * 0x1000_0000 + if i < |cs| - 1 then cs[i + 1] else mark
    ensures IsChain(fat, cs)
  {
    forall i | 0 <= i < |cs| ensures Next(fat, cs[i]) == if i < |cs| - 1 then cs[i + 1] else mark {
      assert i < |cs| - 1 ==> cs[i + 1] < |fat|;
      LowBits(tops[i], if i < |cs| - 1 then cs[i + 1] else mark);
    }
  }

  lemma LowBits(top: nat, low: nat)
    requires low < 0x1000_0000
    ensures (top * 0x1000_0000 + low) % 0x1000_0000 == low
  {
  }

  /** The clusters that can still be allocated. */
  ghost function FreeClusters(fat: seq<nat>): set<nat> { set c: nat | c < |fat| && IsFree(fat, c) }

  /** A completed allocation takes one free cluster. */
  lemma FreeTaken(fat: seq<nat>, fat': seq<nat>, prev: Option<nat>, c: nat)
    requires IsFree(fat, c) && |fat| <= EOC_MIN && (prev.Some? ==> prev.value < |fat| && !IsFree(fat, prev.value))
    requires fat' == if prev.Some? then LinkedAfter(fat, prev.value, c) else Marked(fat, c)
    ensures |FreeClusters(fat')| + 1 == |FreeClusters(fat)|
  {
    forall x: nat | x < |fat| ensures IsFree(fat', x) <==> IsFree(fat, x) && x != c {
    }
    assert FreeClusters(fat') == FreeClusters(fat) - {c};
  }

  lemma ChainExtend(fat: seq<nat>, cs: seq<nat>, c: nat)
    requires IsChain(fat, cs) && IsFree(fat, c)
    requires |fat| <= EOC_MIN
    ensures c !in cs
    ensures IsChain(LinkedAfter(fat, cs[|cs| - 1], c), cs + [c])
  {
    FreeNotInChain(fat, cs, c);
    var p := cs[|cs| - 1];
    var fat' := LinkedAfter(fat, p, c);
    var cs' := cs + [c];
    ChainDistinct(fat, cs);
    assert Next(fat', c) == EOC;
    assert Next(fat', p) == c;
    forall i | 0 <= i < |cs'| - 1 ensures Next(fat', cs'[i]) == cs'[i + 1] {
      if i < |cs| - 1 {
        assert Next(fat, cs[i]) == cs[i + 1];
        assert cs[i] != p && cs[i] != c;
      }
    }
  }

  /** A free cluster is on no chain. */
  lemma FreeNotInChain(fat: seq<nat>, cs: seq<nat>, c: nat)
    requires IsChain(fat, cs) && IsFree(fat, c)
    ensures c !in cs
  {
    forall i | 0 <= i < |cs| ensures cs[i] != c {
      assert i == |cs| - 1 || Next(fat, cs[i]) == cs[i + 1] >= 2;
    }
  }

  /** Whatever stage of an allocation a FAT copy is left in, its chains still form
      a forest: the old one, or the old one with the grown chain one cluster longer. */
  lemma AllocKeepsForest(fat: seq<nat>, fat': seq<nat>, prev: Option<nat>, c: nat,
                         chains: set<seq<nat>>, own: seq<nat>)
    requires |fat| <= EOC_MIN
    requires Forest(fat, chains) && IsFree(fat, c)
    requires prev.Some? ==> own in chains && prev.value == own[|own| - 1]
    requires prev.Some? ==> prev.value < |fat|
    requires AllocStage(fat, fat', prev, c)
    ensures Forest(fat', chains) || (prev.Some? && Forest(fat', chains - {own} + {own + [c]}))
    ensures prev.None? ==> Forest(fat', chains)
  {
    forall cs | cs in chains ensures c !in cs {
      FreeNotInChain(fat, cs, c);
    }
    if fat' == fat {
    } else if fat' == Marked(fat, c) {
      forall cs | cs in chains ensures IsChain(fat', cs) {
        ChainFrame(fat, fat', cs);
      }
    } else {
      var grown := own + [c];
      var chains' := chains - {own} + {grown};
      ChainExtend(fat, own, c);
      forall cs | cs in chains' ensures IsChain(fat', cs) {
        if cs != grown {
          assert prev.value in own && Disjoint(own, cs);
          ChainFrame(fat, fat', cs);
        }
      }
      forall a, b | a in chains' && b in chains' && a != b ensures Disjoint(a, b) {
        if a == grown {
          assert Disjoint(own, b);
        } else if b == grown {
          assert Disjoint(a, own);
        }
      }
    }
  }

  // ---- the bytes of a chain ----

  ghost predicate Holds(data: seq<seq<byte>>, cs: seq<nat>, cb: nat) {
    forall i {:trigger cs[i]} :: 0 <= i < |cs| ==> cs[i] < |data| && |data[cs[i]]| == cb
  }

  function ChainBytes(data: seq<seq<byte>>, cs: seq<nat>): seq<byte>
    requires forall i {:trigger cs[i]} :: 0 <= i < |cs| ==> cs[i] < |data|
  {
    if cs == [] then [] else data[cs[0]] + ChainBytes(data, cs[1..])
  }

  lemma {:induction false} ChainBytesLength(data: seq<seq<byte>>, cs: seq<nat>, cb: nat)
    requires Holds(data, cs, cb)
    ensures |ChainBytes(data, cs)| == |cs| * cb
  {
    if cs == [] {
    } else {
      ChainBytesLength(data, cs[1..], cb);
      assert |cs| * cb == cb + (|cs| - 1) * cb;
    }
  }

  lemma {:induction false} ChainBytesConcat(data: seq<seq<byte>>, a: seq<nat>, b: seq<nat>)
    requires forall i {:trigger a[i]} :: 0 <= i < |a| ==> a[i] < |data|
    requires forall i {:trigger b[i]} :: 0 <= i < |b| ==> b[i] < |data|
    ensures ChainBytes(data, a + b) == ChainBytes(data, a) + ChainBytes(data, b)
  {
    if a == [] {
      assert a + b == b;
    } else {
      ChainBytesConcat(data, a[1..], b);
      assert (a + b)[1..] == a[1..] + b;
    }
  }

  lemma {:induction false} ChainBytesFrame(data: seq<seq<byte>>, data': seq<seq<byte>>, cs: seq<nat>)
    requires forall i {:trigger cs[i]} ::
      0 <= i < |cs| ==> cs[i] < |data| && cs[i] < |data'| && data'[cs[i]] == data[cs[i]]
    ensures ChainBytes(data', cs) == ChainBytes(data, cs)
  {
    if cs == [] {
    } else {
      ChainBytesFrame(data, data', cs[1..]);
    }
  }

  /** The i-th cluster of a chain holds the i-th block of its bytes. */
  lemma {:induction false} ChainBytesBlock(data: seq<seq<byte>>, cs: seq<nat>, cb: nat, i: nat)
    requires Holds(data, cs, cb) && i < |cs|
    ensures |ChainBytes(data, cs)| == |cs| * cb && i * cb + cb <= |cs| * cb
    ensures ChainBytes(data, cs)[i * cb..i * cb + cb] == data[cs[i]]
  {
    ChainBytesLength(data, cs, cb);
    MulStep(i, |cs|, cb);
    if i == 0 {
    } else {
      ChainBytesBlock(data, cs[1..], cb, i - 1);
      assert i * cb == cb + (i - 1) * cb;
    }
  }

  /** Replacing the i-th cluster replaces the i-th block. */
  lemma {:induction false} ChainBytesUpdate(data: seq<seq<byte>>, cs: seq<nat>, cb: nat, i: nat, d: seq<byte>)
    requires Holds(data, cs, cb) && i < |cs| && |d| == cb && Distinct(cs)
    ensures |ChainBytes(data, cs)| == |cs| * cb && i * cb + cb <= |cs| * cb
    ensures ChainBytes(data[cs[i] := d], cs) == Overwrite(ChainBytes(data, cs), i * cb, d)
  {
    hide Overwrite;
    var data' := data[cs[i] := d];
    ChainBytesLength(data, cs, cb);
    ChainBytesLength(data, cs[1..], cb);
    MulStep(i, |cs|, cb);
    if i == 0 {
      ChainBytesFrame(data, data', cs[1..]);
      OverwriteFront(data[cs[0]], ChainBytes(data, cs[1..]), d);
    } else {
      ChainBytesUpdate(data, cs[1..], cb, i - 1, d);
      assert i * cb == cb + (i - 1) * cb;
      assert cs[1..][i - 1] == cs[i];
      OverwriteRight(data[cs[0]], ChainBytes(data, cs[1..]), (i - 1) * cb, d);
    }
  }

  function Min(a: nat, b: nat): (r: nat)
    ensures r <= a && r <= b && (r == a || r == b)
  {
    if a < b then a else b
  }

  /** Reading one more block of a chain, cut off at `max` bytes. */
  lemma ReadStep(data: seq<seq<byte>>, cs: seq<nat>, cb: nat, i: nat, max: nat)
    requires Holds(data, cs, cb) && i < |cs| && i * cb < max <= |cs| * cb
    ensures |ChainBytes(data, cs)| == |cs| * cb && (i + 1) * cb <= |cs| * cb
    ensures ChainBytes(data, cs)[..i * cb] + data[cs[i]][..Min(cb, max - i * cb)]
         == ChainBytes(data, cs)[..Min((i + 1) * cb, max)]
  {
    hide ChainBytes;
    ChainBytesBlock(data, cs, cb, i);
    var s, lo := ChainBytes(data, cs), i * cb;
    assert (i + 1) * cb == lo + cb;
    var t := Min(cb, max - lo);
    SubSlice(s, lo, lo + cb, 0, t);
    assert s[..lo] + s[lo..lo + t] == s[..lo + t];
  }
}
