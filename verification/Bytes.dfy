/** Byte strings: little-endian fields, in-place overwriting, zero padding.
    Disk sectors, directory records, page frames and file contents are all
    `seq<byte>` values built from these. */
module Bytes {

  type byte = n: int | 0 <= n < 256

  datatype Option<+T> = None | Some(value: T)

  /** The number of values an n-byte field can hold. */
  function Pow256(n: nat): (r: nat)
    ensures r > 0
  {
    if n == 0 then 1 else 256 * Pow256(n - 1)
  }

  function LeDecode(bs: seq<byte>): (r: nat)
  {
    if bs == [] then 0 else bs[0] + 256 * LeDecode(bs[1..])
  }

  function LeEncode(v: nat, n: nat): (r: seq<byte>)
    ensures |r| == n
  {
    if n == 0 then [] else [v % 256] + LeEncode(v / 256, n - 1)
  }

  lemma {:induction false} LeRoundTrip(v: nat, n: nat)
    requires v < Pow256(n)
    ensures LeDecode(LeEncode(v, n)) == v
  {
    if n == 0 {
    } else {
      LeRoundTrip(v / 256, n - 1);
      var e := LeEncode(v, n);
      assert e[0] == v % 256 && e[1..] == LeEncode(v / 256, n - 1);
    }
  }

  lemma {:induction false} LeBound(bs: seq<byte>)
    ensures LeDecode(bs) < Pow256(|bs|)
  {
    if bs == [] {
    } else {
      LeBound(bs[1..]);
    }
  }

  lemma {:induction false} LeZero(bs: seq<byte>)
    requires forall i :: 0 <= i < |bs| ==> bs[i] == 0
    ensures LeDecode(bs) == 0
  {
    if bs == [] {
    } else {
      LeZero(bs[1..]);
    }
  }

  lemma Pow256Values()
    ensures Pow256(2) == 0x1_0000
    ensures Pow256(4) == 0x1_0000_0000
    ensures Pow256(8) == 0x1_0000_0000_0000_0000
  {
    assert Pow256(1) == 256;
    assert Pow256(3) == 256 * Pow256(2);
    assert Pow256(5) == 256 * Pow256(4);
    assert Pow256(7) == 256 * Pow256(6);
  }

  /** `s` with `d` stored at `off`. */
  function Overwrite(s: seq<byte>, off: nat, d: seq<byte>): (r: seq<byte>)
    requires off + |d| <= |s|
    ensures |r| == |s|
  {
    s[..off] + d + s[off + |d|..]
  }

  function Zeros(n: nat): (r: seq<byte>)
    ensures |r| == n
    ensures forall i :: 0 <= i < n ==> r[i] == 0
  {
    seq(n, _ => 0)
  }

  /** The n-byte little-endian field at `pos`. */
  function Field(s: seq<byte>, pos: nat, n: nat): (r: nat)
    requires pos + n <= |s|
  {
    LeDecode(s[pos..pos + n])
  }

  lemma OverwriteAt(s: seq<byte>, off: nat, d: seq<byte>, i: nat)
    requires off + |d| <= |s| && i < |s|
    ensures Overwrite(s, off, d)[i] == if off <= i < off + |d| then d[i - off] else s[i]
  {
  }

  lemma OverwriteInside(s: seq<byte>, off: nat, d: seq<byte>)
    requires off + |d| <= |s|
    ensures Overwrite(s, off, d)[off..off + |d|] == d
  {
  }

  lemma OverwriteOutside(s: seq<byte>, off: nat, d: seq<byte>, lo: nat, hi: nat)
    requires off + |d| <= |s| && lo <= hi <= |s|
    requires hi <= off || off + |d| <= lo
    ensures Overwrite(s, off, d)[lo..hi] == s[lo..hi]
  {
  }

  /** Storing inside a larger window changes that window in the same way. */
  lemma OverwriteWindow(s: seq<byte>, off: nat, d: seq<byte>, lo: nat, hi: nat)
    requires lo <= off && off + |d| <= hi <= |s|
    ensures Overwrite(s, off, d)[lo..hi] == Overwrite(s[lo..hi], off - lo, d)
  {
  }

  /** Storing a changed window stores the change. */
  lemma OverwriteNested(s: seq<byte>, lo: nat, n: nat, off: nat, d: seq<byte>)
    requires lo + n <= |s| && off + |d| <= n
    ensures Overwrite(s, lo, Overwrite(s[lo..lo + n], off, d)) == Overwrite(s, lo + off, d)
  {
    var l, r := Overwrite(s, lo, Overwrite(s[lo..lo + n], off, d)), Overwrite(s, lo + off, d);
    forall i | 0 <= i < |s| ensures l[i] == r[i] {
    }
  }

  lemma OverwriteTwice(s: seq<byte>, off: nat, d: seq<byte>, e: seq<byte>)
    requires off + |d| + |e| <= |s|
    ensures Overwrite(Overwrite(s, off, d), off + |d|, e) == Overwrite(s, off, d + e)
  {
  }

  lemma OverwriteNothing(s: seq<byte>, off: nat, d: seq<byte>)
    requires off <= |s|
    ensures Overwrite(s, off, d[..0]) == s
  {
  }

  lemma OverwriteFront(a: seq<byte>, s: seq<byte>, d: seq<byte>)
    requires |d| == |a|
    ensures Overwrite(a + s, 0, d) == d + s
  {
  }

  lemma OverwriteRight(a: seq<byte>, s: seq<byte>, off: nat, d: seq<byte>)
    requires off + |d| <= |s|
    ensures a + Overwrite(s, off, d) == Overwrite(a + s, |a| + off, d)
  {
  }

  /** Storing a buffer piecewise, front to back. */
  lemma OverwriteNext(s: seq<byte>, off: nat, buf: seq<byte>, a: nat, n: nat)
    requires off + |buf| <= |s| && a + n <= |buf|
    ensures Overwrite(Overwrite(s, off, buf[..a]), off + a, buf[a..][..n]) == Overwrite(s, off, buf[..a + n])
  {
    OverwriteTwice(s, off, buf[..a], buf[a..][..n]);
    assert buf[..a] + buf[a..][..n] == buf[..a + n];
  }

  lemma SubSlice(s: seq<byte>, lo: nat, hi: nat, p: nat, q: nat)
    requires lo <= hi <= |s| && p <= q <= hi - lo
    ensures s[lo..hi][p..q] == s[lo + p..lo + q]
  {
    var a, b := s[lo..hi][p..q], s[lo + p..lo + q];
    assert forall k :: 0 <= k < |a| ==> a[k] == b[k];
  }

  function PutField(s: seq<byte>, pos: nat, v: nat, n: nat): (r: seq<byte>)
    requires pos + n <= |s|
    ensures |r| == |s|
  {
    Overwrite(s, pos, LeEncode(v, n))
  }

  lemma FieldOfPut(s: seq<byte>, pos: nat, v: nat, n: nat)
    requires pos + n <= |s| && v < Pow256(n)
    ensures Field(PutField(s, pos, v, n), pos, n) == v
  {
    OverwriteInside(s, pos, LeEncode(v, n));
    LeRoundTrip(v, n);
  }

  lemma FieldApart(s: seq<byte>, pos: nat, v: nat, n: nat, pos': nat, n': nat)
    requires pos + n <= |s| && pos' + n' <= |s|
    requires pos' + n' <= pos || pos + n <= pos'
    ensures Field(PutField(s, pos, v, n), pos', n') == Field(s, pos', n')
  {
    OverwriteOutside(s, pos, LeEncode(v, n), pos', pos' + n');
  }

  lemma {:induction false} LeRebuilt(bs: seq<byte>)
    ensures LeEncode(LeDecode(bs), |bs|) == bs
  {
    if bs != [] {
      LeRebuilt(bs[1..]);
      LowByte(bs[0], LeDecode(bs[1..]));
      assert bs == [bs[0]] + bs[1..];
    }
  }

  lemma LowByte(b: byte, rest: nat)
    ensures (b + 256 * rest) % 256 == b && (b + 256 * rest) / 256 == rest
  {
  }

  // ---- headers: several fields stored in one byte string ----

  /** The value v in the n bytes from `pos` on. */
  datatype Store = Store(pos: nat, n: nat, v: nat)

  /** The fields lie one behind the other in a string of `len` bytes and hold their values. */
  ghost predicate LaidOut(fields: seq<Store>, len: nat) {
    && (forall i {:trigger fields[i]} :: 0 <= i < |fields| ==>
          fields[i].pos + fields[i].n <= len && fields[i].v < Pow256(fields[i].n))
    && (forall i, j {:trigger fields[i], fields[j]} ::
          0 <= i < j < |fields| ==> fields[i].pos + fields[i].n <= fields[j].pos)
  }

  ghost function PutAll(s: seq<byte>, fields: seq<Store>): (r: seq<byte>)
    requires forall i {:trigger fields[i]} :: 0 <= i < |fields| ==> fields[i].pos + fields[i].n <= |s|
    ensures |r| == |s|
  {
    if fields == [] then s
    else
      var last := fields[|fields| - 1];
      PutField(PutAll(s, fields[..|fields| - 1]), last.pos, last.v, last.n)
  }

  /** All fields read back. */
  lemma {:induction false} PutAllRead(s: seq<byte>, fields: seq<Store>, i: nat)
    requires LaidOut(fields, |s|) && i < |fields|
    ensures Field(PutAll(s, fields), fields[i].pos, fields[i].n) == fields[i].v
  {
    var n := |fields| - 1;
    var before, last := PutAll(s, fields[..n]), fields[n];
    if i == n {
      FieldOfPut(before, last.pos, last.v, last.n);
    } else {
      PutAllRead(s, fields[..n], i);
      assert fields[..n][i] == fields[i];
      FieldApart(before, last.pos, last.v, last.n, fields[i].pos, fields[i].n);
    }
  }

  /** Bytes outside the fields stay. */
  lemma {:induction false} PutAllOutside(s: seq<byte>, fields: seq<Store>, lo: nat, hi: nat)
    requires forall i {:trigger fields[i]} :: 0 <= i < |fields| ==> fields[i].pos + fields[i].n <= |s|
    requires lo <= hi <= |s|
    requires forall i {:trigger fields[i]} :: 0 <= i < |fields| ==>
      hi <= fields[i].pos || fields[i].pos + fields[i].n <= lo
    ensures PutAll(s, fields)[lo..hi] == s[lo..hi]
  {
    hide Overwrite, LeEncode;
    if fields != [] {
      var n := |fields| - 1;
      assert forall i :: 0 <= i < n ==> fields[..n][i] == fields[i];
      PutAllOutside(s, fields[..n], lo, hi);
      OverwriteOutside(PutAll(s, fields[..n]), fields[n].pos, LeEncode(fields[n].v, fields[n].n), lo, hi);
    }
  }

  /** Storing what is there already changes nothing. */
  lemma {:induction false} PutAllSame(s: seq<byte>, fields: seq<Store>)
    requires forall i {:trigger fields[i]} :: 0 <= i < |fields| ==>
      fields[i].pos + fields[i].n <= |s| && Field(s, fields[i].pos, fields[i].n) == fields[i].v
    ensures PutAll(s, fields) == s
  {
    hide LeEncode, LeDecode, Overwrite;
    if fields != [] {
      var n := |fields| - 1;
      assert forall i :: 0 <= i < n ==> fields[..n][i] == fields[i];
      PutAllSame(s, fields[..n]);
      LeRebuilt(s[fields[n].pos..fields[n].pos + fields[n].n]);
      OverwriteSame(s, fields[n].pos, fields[n].n);
    }
  }

  lemma OverwriteSame(s: seq<byte>, pos: nat, n: nat)
    requires pos + n <= |s|
    ensures Overwrite(s, pos, s[pos..pos + n]) == s
  {
  }

  lemma ByteField(s: seq<byte>, pos: nat)
    requires pos < |s|
    ensures Field(s, pos, 1) == s[pos] < Pow256(1)
  {
    var w := s[pos..pos + 1];
    assert w == [s[pos]] && w[1..] == [] && LeDecode(w[1..]) == 0;
    assert Pow256(1) == 256 * Pow256(0);
  }
}
