/** Files as byte strings: what a write at an offset means, and which parts of a
    volume a write to one file may change. */
module FileSpec {
  import opened Bytes
  import opened FatLayout
  import opened FatChains
  import opened Fat32

  function Max(a: nat, b: nat): nat { if a < b then b else a }

  /** Conversion to a 32-bit unsigned integer. */
  function AsU32(n: nat): (r: nat)
    ensures r < 0x1_0000_0000 && r <= n
    ensures n < 0x1_0000_0000 ==> r == n
  {
    n % 0x1_0000_0000
  }

  /** `s` extended with zeros to at least n bytes. */
  function Pad(s: seq<byte>, n: nat): (r: seq<byte>)
    ensures |r| == Max(|s|, n)
  {
    if |s| < n then s + Zeros(n - |s|) else s
  }

  /** Contents after writing `d` at `off`: a gap before `off` reads as zeros. */
  function Splice(s: seq<byte>, off: nat, d: seq<byte>): (r: seq<byte>)
    ensures |r| == Max(|s|, off + |d|)
  {
    Overwrite(Pad(s, off + |d|), off, d)
  }

  /** What remains of contents whose length is recorded in 32 bits. */
  function Truncated(s: seq<byte>): (r: seq<byte>)
    ensures r == s <==> |s| < 0x1_0000_0000
  {
    s[..AsU32(|s|)]
  }

  ghost predicate AllZero(s: seq<byte>) {
    forall i :: 0 <= i < |s| ==> s[i] == 0
  }

  lemma PadTwice(s: seq<byte>, n: nat, m: nat)
    requires n <= m
    ensures Pad(Pad(s, n), m) == Pad(s, m)
  {
  }

  /** Growing a chain after part of the data was stored. */
  lemma PadStored(s: seq<byte>, n: nat, m: nat, off: nat, d: seq<byte>)
    requires |s| <= n <= m && off + |d| <= n
    ensures Pad(Overwrite(Pad(s, n), off, d), m) == Overwrite(Pad(s, m), off, d)
  {
  }

  /** Storing the next piece of the data. */
  lemma NextPiece(s: seq<byte>, off: nat, data: seq<byte>, w: nat, take: nat)
    requires w + take <= |data| && off + w + take <= |s|
    ensures Overwrite(Overwrite(s, off, data[..w]), off + w, data[w..w + take]) == Overwrite(s, off, data[..w + take])
  {
    OverwriteTwice(s, off, data[..w], data[w..w + take]);
    assert data[..w] + data[w..w + take] == data[..w + take];
  }

  /** Truncating the written chain bytes to the new size gives the spliced contents,
      and what lies beyond is still zero. */
  lemma WrittenContents(b0: seq<byte>, size: nat, n: nat, off: nat, d: seq<byte>)
    requires size <= |b0| <= n && off + |d| <= n
    requires AllZero(b0[size..])
    ensures var end := Max(off + |d|, size); var b := Overwrite(Pad(b0, n), off, d);
      b[..end] == Splice(b0[..size], off, d) && AllZero(b[end..])
  {
    var end := Max(off + |d|, size);
    var b := Overwrite(Pad(b0, n), off, d);
    var s := Splice(b0[..size], off, d);
    forall i | 0 <= i < n ensures b[i] == if i < end then s[i] else 0 {
      WrittenByte(b0, size, n, off, d, i);
    }
    assert b[..end] == s;
  }

  lemma WrittenByte(b0: seq<byte>, size: nat, n: nat, off: nat, d: seq<byte>, i: nat)
    requires size <= |b0| <= n && off + |d| <= n && AllZero(b0[size..]) && i < n
    ensures var end := Max(off + |d|, size);
      Overwrite(Pad(b0, n), off, d)[i] == if i < end then Splice(b0[..size], off, d)[i] else 0
  {
    if size <= i < |b0| {
      assert b0[i] == b0[size..][i - size] == 0;
    }
  }

  lemma CutContents(b: seq<byte>, end: nat, size: nat)
    requires end <= |b| && size == AsU32(end)
    ensures b[..size] == Truncated(b[..end])
  {
  }

  // ---- writes that stop midway ----

  /** x is what writing `data` at `offset` puts at position i. */
  predicate IsWritten(offset: nat, data: seq<byte>, i: nat, x: byte) {
    offset <= i < offset + |data| && x == data[i - offset]
  }

  /** Every byte of b0 is still there or is the one written at its place. */
  ghost predicate KeptOrWritten(b0: seq<byte>, b: seq<byte>, offset: nat, data: seq<byte>) {
    |b0| <= |b| && forall i {:trigger b[i]} :: 0 <= i < |b0| ==> b[i] == b0[i] || IsWritten(offset, data, i, b[i])
  }

  /** b is b0, extended with zeros, with as much of `data` at `offset` as fits. */
  ghost predicate StoredClipped(b0: seq<byte>, b: seq<byte>, offset: nat, data: seq<byte>) {
    && |b0| <= |b|
    && forall i {:trigger b[i]} :: 0 <= i < |b| ==>
         b[i] == if offset <= i < offset + |data| then data[i - offset] else if i < |b0| then b0[i] else 0
  }

  ghost predicate Mixed(b: seq<byte>, b1: seq<byte>, b2: seq<byte>) {
    |b| == |b1| == |b2| && forall i {:trigger b[i]} :: 0 <= i < |b| ==> b[i] == b1[i] || b[i] == b2[i]
  }

  lemma ClippedKept(b0: seq<byte>, b: seq<byte>, offset: nat, data: seq<byte>)
    requires StoredClipped(b0, b, offset, data)
    ensures KeptOrWritten(b0, b, offset, data)
  {
  }

  /** The whole data, or all of it that fits. */
  lemma StoredIsClipped(b0: seq<byte>, n: nat, offset: nat, data: seq<byte>, w: nat)
    requires |b0| <= n && offset + w <= n && w <= |data| && (w == |data| || offset + w == n)
    ensures StoredClipped(b0, Overwrite(Pad(b0, n), offset, data[..w]), offset, data)
  {
  }

  lemma PadIsClipped(b0: seq<byte>, n: nat, offset: nat, data: seq<byte>)
    requires |b0| <= n <= offset
    ensures StoredClipped(b0, Pad(b0, n), offset, data)
  {
  }

  lemma StoredKept(b0: seq<byte>, n: nat, offset: nat, data: seq<byte>, w: nat)
    requires |b0| <= n && offset + w <= n && w <= |data|
    ensures KeptOrWritten(b0, Overwrite(Pad(b0, n), offset, data[..w]), offset, data)
  {
  }

  /** A piece that was stored in part. */
  lemma TornPieceKept(b0: seq<byte>, n: nat, offset: nat, data: seq<byte>, w: nat, take: nat, b: seq<byte>)
    requires |b0| <= n && offset + w + take <= n && w + take <= |data|
    requires Mixed(b, Overwrite(Pad(b0, n), offset, data[..w]), Overwrite(Pad(b0, n), offset, data[..w + take]))
    ensures KeptOrWritten(b0, b, offset, data)
  {
    StoredKept(b0, n, offset, data, w);
    StoredKept(b0, n, offset, data, w + take);
  }

  lemma LongerKept(b0: seq<byte>, b: seq<byte>, b': seq<byte>, offset: nat, data: seq<byte>)
    requires KeptOrWritten(b0, b, offset, data) && b <= b'
    ensures KeptOrWritten(b0, b', offset, data)
  {
    assert forall i :: 0 <= i < |b| ==> b'[i] == b[i];
  }

  lemma NothingWritten(b: seq<byte>, offset: nat, data: seq<byte>)
    ensures KeptOrWritten(b, b, offset, data)
  {
  }

  lemma NoBytes(data: seq<seq<byte>>, b0: seq<byte>, offset: nat, d: seq<byte>)
    requires b0 <= ChainBytes(data, [])
    ensures StoredClipped(b0, ChainBytes(data, []), offset, d)
  {
  }

  lemma PadLonger(b: seq<byte>, n: nat)
    ensures b <= Pad(b, n)
  {
  }

  /** The data that falls between `size` and the end n of the chain is all zero. */
  ghost predicate ZeroPast(offset: nat, data: seq<byte>, size: nat, n: nat) {
    forall k {:trigger data[k]} :: 0 <= k < |data| && size <= offset + k < n ==> data[k] == 0
  }

  /** A write that ran out of space, seen through the old size; the bytes behind it are
      still zero exactly if the data stored there is. */
  lemma ClippedContents(b0: seq<byte>, b: seq<byte>, size: nat, offset: nat, data: seq<byte>)
    requires StoredClipped(b0, b, offset, data) && size <= |b0|
    ensures b[..size] == Splice(b0[..size], offset, data)[..size]
    ensures AllZero(b0[size..]) ==> (AllZero(b[size..]) <==> ZeroPast(offset, data, size, |b|))
  {
    var s := Splice(b0[..size], offset, data);
    assert forall i :: 0 <= i < size ==> b[i] == s[i];
    if AllZero(b0[size..]) {
      forall i | size <= i < |b0| ensures b0[i] == 0 {
        assert b0[size..][i - size] == 0;
      }
      if AllZero(b[size..]) {
        forall k | 0 <= k < |data| && size <= offset + k < |b| ensures data[k] == 0 {
          assert b[size..][offset + k - size] == b[offset + k] == data[k];
        }
      }
      if ZeroPast(offset, data, size, |b|) {
        forall i | 0 <= i < |b| - size ensures b[size..][i] == 0 {
          assert b[size..][i] == b[size + i];
        }
      }
    }
  }

  /** A write inside the file leaves the bytes behind it alone. */
  lemma InsideContents(b0: seq<byte>, b: seq<byte>, size: nat, offset: nat, data: seq<byte>)
    requires KeptOrWritten(b0, b, offset, data) && |b| == |b0| && offset + |data| <= size <= |b0| && AllZero(b0[size..])
    ensures AllZero(b[size..])
  {
    forall i | 0 <= i < |b| - size ensures b[size..][i] == 0 {
      assert b[size..][i] == b[size + i] && b0[size..][i] == b0[size + i];
    }
  }

  /** A cluster written in part leaves the bytes of the chain a mixture. */
  lemma ChainMixed(data: seq<seq<byte>>, cs: seq<nat>, cb: nat, i: nat, bo: nat, piece: seq<byte>, d: seq<byte>)
    requires Holds(data, cs, cb) && Distinct(cs) && i < |cs| && bo + |piece| <= cb
    requires Mixed(d, data[cs[i]], Overwrite(data[cs[i]], bo, piece))
    ensures |ChainBytes(data, cs)| == |cs| * cb && i * cb + cb <= |cs| * cb
    ensures Mixed(ChainBytes(data[cs[i] := d], cs), ChainBytes(data, cs),
                  Overwrite(ChainBytes(data, cs), i * cb + bo, piece))
  {
    hide ChainBytes;
    ChainBytesBlock(data, cs, cb, i);
    ChainBytesUpdate(data, cs, cb, i, d);
    OverwriteNested(ChainBytes(data, cs), i * cb, cb, bo, piece);
    MixedWindow(ChainBytes(data, cs), i * cb, cb, d, Overwrite(data[cs[i]], bo, piece));
  }

  lemma MixedWindow(s: seq<byte>, lo: nat, n: nat, d: seq<byte>, e: seq<byte>)
    requires lo + n <= |s| && |d| == n && Mixed(d, s[lo..lo + n], e)
    ensures Mixed(Overwrite(s, lo, d), s, Overwrite(s, lo, e))
  {
    forall i | 0 <= i < |s| ensures Overwrite(s, lo, d)[i] == s[i] || Overwrite(s, lo, d)[i] == Overwrite(s, lo, e)[i] {
      if lo <= i < lo + n {
        assert d[i - lo] == s[lo..lo + n][i - lo] || d[i - lo] == e[i - lo];
      }
    }
  }

  // ---- what a write may touch ----

  /** Clusters a write to the file with chain `own` may use: its own and free ones. */
  ghost predicate Mine(v: View, own: seq<nat>, c: nat) {
    c in own || (|v.fat| > 0 && IsFree(v.fat[0], c))
  }

  /** Byte i of a directory cluster belongs to the first-cluster or size field of the
      record at `off`. */
  predicate InNodeFields(off: nat, i: int) {
    i == off + 0x14 || i == off + 0x15 || off + 0x1A <= i < off + 0x20
  }

  ghost predicate RecordFrame(d: seq<byte>, d': seq<byte>, off: nat) {
    |d'| == |d| && forall i :: 0 <= i < |d| && !InNodeFields(off, i) ==> d'[i] == d[i]
  }

  /** Going from v to v' changed no link and no cluster outside the file's own and the
      free ones, except the node fields of its record at `off` in cluster `par`. */
  ghost predicate OnlyMine(v: View, v': View, own: seq<nat>, par: nat, off: nat) {
    && |v'.fat| == |v.fat| && |v'.data| == |v.data| && v'.boot == v.boot
    && (forall f {:trigger v'.fat[f]} :: 0 <= f < |v.fat| ==>
          && |v'.fat[f]| == |v.fat[f]|
          && forall c {:trigger v'.fat[f][c]} ::
            0 <= c < |v.fat[f]| && !Mine(v, own, c) ==> v'.fat[f][c] == v.fat[f][c])
    && (forall c {:trigger v'.data[c]} :: 0 <= c < |v.data| && c != par && !Mine(v, own, c) ==> v'.data[c] == v.data[c])
    && (0 != par < |v.data| ==> RecordFrame(v.data[par], v'.data[par], off))
  }

  lemma OnlyMineRefl(v: View, own: seq<nat>, par: nat, off: nat)
    ensures OnlyMine(v, v, own, par, off)
  {
  }

  /** A cluster that is free now was free, or the file's own, at the start. */
  lemma FreeIsMine(v0: View, v: View, own: seq<nat>, par: nat, off: nat, c: nat)
    requires OnlyMine(v0, v, own, par, off) && |v0.fat| > 0
    requires IsFree(v.fat[0], c)
    ensures Mine(v0, own, c)
  {
    assert |v.fat[0]| == |v0.fat[0]|;
    assert v.fat[0][c] == v.fat[0][c];
  }

  lemma AllocMine(v0: View, v: View, v': View, own: seq<nat>, par: nat, off: nat, prev: Option<nat>, c: nat)
    requires OnlyMine(v0, v, own, par, off) && |v0.fat| > 0
    requires AllocReach(v, v', prev, c)
    requires prev.Some? ==> Mine(v0, own, prev.value)
    requires par != 0 ==> !Mine(v0, own, par)
    ensures Mine(v0, own, c)
    ensures OnlyMine(v0, v', own, par, off)
  {
    FreeIsMine(v0, v, own, par, off, c);
    forall f | 0 <= f < |v0.fat|
      ensures |v'.fat[f]| == |v0.fat[f]|
      ensures forall x {:trigger v'.fat[f][x]} ::
        0 <= x < |v0.fat[f]| && !Mine(v0, own, x) ==> v'.fat[f][x] == v0.fat[f][x]
    {
      assert |v.fat[f]| == |v0.fat[f]|;
      assert AllocStage(v.fat[f], v'.fat[f], prev, c);
      forall x | 0 <= x < |v0.fat[f]| && !Mine(v0, own, x) ensures v'.fat[f][x] == v0.fat[f][x] {
        assert v.fat[f][x] == v0.fat[f][x];
      }
    }
    forall x | 0 <= x < |v0.data| && x != par && !Mine(v0, own, x) ensures v'.data[x] == v0.data[x] {
      assert v.data[x] == v0.data[x];
    }
  }

  lemma ClusterMine(v0: View, v: View, own: seq<nat>, par: nat, off: nat, c: nat, d: seq<byte>)
    requires OnlyMine(v0, v, own, par, off)
    requires c < |v.data| && Mine(v0, own, c)
    requires par != 0 ==> !Mine(v0, own, par)
    ensures OnlyMine(v0, WithCluster(v, c, d), own, par, off)
  {
    var v' := WithCluster(v, c, d);
    forall x | 0 <= x < |v0.data| && x != par && !Mine(v0, own, x) ensures v'.data[x] == v0.data[x] {
      assert v.data[x] == v0.data[x];
    }
    forall f | 0 <= f < |v0.fat|
      ensures |v'.fat[f]| == |v0.fat[f]|
      ensures forall x {:trigger v'.fat[f][x]} ::
        0 <= x < |v0.fat[f]| && !Mine(v0, own, x) ==> v'.fat[f][x] == v0.fat[f][x]
    {
      assert v'.fat[f] == v.fat[f];
    }
  }

  lemma RecordMine(v0: View, v: View, own: seq<nat>, par: nat, off: nat, d: seq<byte>)
    requires OnlyMine(v0, v, own, par, off)
    requires 0 != par < |v.data| && RecordFrame(v.data[par], d, off)
    ensures OnlyMine(v0, WithCluster(v, par, d), own, par, off)
  {
    var v' := WithCluster(v, par, d);
    forall x | 0 <= x < |v0.data| && x != par && !Mine(v0, own, x) ensures v'.data[x] == v0.data[x] {
      assert v.data[x] == v0.data[x];
    }
    forall f | 0 <= f < |v0.fat|
      ensures |v'.fat[f]| == |v0.fat[f]|
      ensures forall x {:trigger v'.fat[f][x]} ::
        0 <= x < |v0.fat[f]| && !Mine(v0, own, x) ==> v'.fat[f][x] == v0.fat[f][x]
    {
      assert v'.fat[f] == v.fat[f];
    }
  }

  lemma DoneIsReach(v: View, v': View, prev: Option<nat>, c: nat, cb: nat)
    requires AllocDone(v, v', prev, c, cb)
    ensures AllocReach(v, v', prev, c)
  {
  }

  lemma AppendBytes(data: seq<seq<byte>>, cs: seq<nat>, c: nat, d: seq<byte>)
    requires c !in cs && c < |data| && Holds(data, cs, |d|)
    ensures Holds(data[c := d], cs + [c], |d|)
    ensures ChainBytes(data[c := d], cs + [c]) == ChainBytes(data, cs) + d
  {
    var data' := data[c := d];
    ChainBytesConcat(data', cs, [c]);
    ChainBytesFrame(data, data', cs);
    assert ChainBytes(data', [c]) == d + ChainBytes(data', []);
  }

  lemma PadOneCluster(data: seq<seq<byte>>, cs: seq<nat>, cb: nat)
    requires Holds(data, cs, cb)
    ensures Pad(ChainBytes(data, cs), (|cs| + 1) * cb) == ChainBytes(data, cs) + Zeros(cb)
  {
    ChainBytesLength(data, cs, cb);
    assert (|cs| + 1) * cb == |cs| * cb + cb;
  }

  /** Storing a piece inside the i-th cluster stores it in the bytes of the chain. */
  lemma ChainPiece(data: seq<seq<byte>>, cs: seq<nat>, cb: nat, i: nat, bo: nat, piece: seq<byte>)
    requires Holds(data, cs, cb) && Distinct(cs) && i < |cs| && bo + |piece| <= cb
    ensures |ChainBytes(data, cs)| == |cs| * cb && i * cb + cb <= |cs| * cb
    ensures ChainBytes(data[cs[i] := Overwrite(data[cs[i]], bo, piece)], cs)
         == Overwrite(ChainBytes(data, cs), i * cb + bo, piece)
  {
    ChainBytesBlock(data, cs, cb, i);
    ChainBytesUpdate(data, cs, cb, i, Overwrite(data[cs[i]], bo, piece));
    OverwriteNested(ChainBytes(data, cs), i * cb, cb, bo, piece);
  }

  /** A completed allocation behind the end of a chain appends one zeroed cluster. */
  lemma AppendZeroed(v: View, v': View, cs: seq<nat>, c: nat, cb: nat)
    requires |v.fat| > 0 && |v.fat[0]| <= EOC_MIN
    requires IsChain(v.fat[0], cs) && Holds(v.data, cs, cb)
    requires AllocDone(v, v', Some(cs[|cs| - 1]), c, cb)
    ensures c !in cs && IsChain(v'.fat[0], cs + [c]) && Holds(v'.data, cs + [c], cb)
    ensures ChainBytes(v'.data, cs + [c]) == Pad(ChainBytes(v.data, cs), (|cs| + 1) * cb)
  {
    ChainExtend(v.fat[0], cs, c);
    AppendBytes(v.data, cs, c, Zeros(cb));
    PadOneCluster(v.data, cs, cb);
    assert v'.fat[0] == LinkedAfter(v.fat[0], cs[|cs| - 1], c);
  }

  /** The chain after an allocation was cut off somewhere: the old one, or one longer. */
  lemma CutOffChain(v: View, v': View, cs: seq<nat>, c: nat)
    requires |v.fat| > 0 && |v.fat[0]| <= EOC_MIN
    requires IsChain(v.fat[0], cs)
    requires AllocReach(v, v', Some(cs[|cs| - 1]), c)
    ensures IsChain(v'.fat[0], cs) || IsChain(v'.fat[0], cs + [c])
  {
    assert AllocStage(v.fat[0], v'.fat[0], Some(cs[|cs| - 1]), c);
    FreeNotInChain(v.fat[0], cs, c);
    if v'.fat[0] == LinkedAfter(v.fat[0], cs[|cs| - 1], c) {
      ChainExtend(v.fat[0], cs, c);
    } else {
      ChainFrame(v.fat[0], v'.fat[0], cs);
    }
  }
}
