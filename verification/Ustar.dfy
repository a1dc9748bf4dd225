/** The initial ram disk: a ustar archive read into a flat list of files. Names are UTF-8
    byte sequences. */
module Ustar {
  import opened Bytes

  datatype TarFile = TarFile(name: seq<byte>, data: seq<byte>)

  // ---- text ----

  /** Length of the UTF-8 sequence at the front, 0 if there is no valid one. */
  function SequenceLength(bs: seq<byte>): (n: nat)
    requires bs != []
    ensures n <= |bs| && n <= 4
  {
    var b := bs[0];
    if b <= 0x7F then 1
    else if 0xC2 <= b <= 0xDF then if |bs| >= 2 && Cont(bs[1]) then 2 else 0
    else if 0xE0 <= b <= 0xEF then
      if |bs| >= 3 && Cont(bs[1]) && Cont(bs[2]) && (b == 0xE0 ==> bs[1] >= 0xA0) && (b == 0xED ==> bs[1] <= 0x9F)
      then 3 else 0
    else if 0xF0 <= b <= 0xF4 then
      if |bs| >= 4 && Cont(bs[1]) && Cont(bs[2]) && Cont(bs[3]) &&
         (b == 0xF0 ==> bs[1] >= 0x90) && (b == 0xF4 ==> bs[1] <= 0x8F)
      then 4 else 0
    else 0
  }

  predicate Cont(b: byte) { 0x80 <= b <= 0xBF }

  predicate ValidUtf8(bs: seq<byte>)
    decreases |bs|
  {
    bs == [] || (SequenceLength(bs) > 0 && ValidUtf8(bs[SequenceLength(bs)..]))
  }

  // ---- valid text is encoded text ----

  /** Unicode scalar values. */
  predicate Scalar(c: nat) { c < 0xD800 || 0xE000 <= c < 0x11_0000 }

  /** The UTF-8 encoding of a scalar value (table 3-6 of the Unicode Standard). */
  function Utf8(c: nat): (r: seq<byte>)
    requires Scalar(c)
    ensures 1 <= |r| <= 4
  {
    if c < 0x80 then [c]
    else if c < 0x800 then [0xC0 + c / 64, 0x80 + c % 64]
    else if c < 0x1_0000 then [0xE0 + c / 64 / 64, 0x80 + c / 64 % 64, 0x80 + c % 64]
    else [0xF0 + c / 64 / 64 / 64, 0x80 + c / 64 / 64 % 64, 0x80 + c / 64 % 64, 0x80 + c % 64]
  }

  function Utf8All(cs: seq<nat>): seq<byte>
    requires forall i :: 0 <= i < |cs| ==> Scalar(cs[i])
  {
    if cs == [] then [] else Utf8(cs[0]) + Utf8All(cs[1..])
  }

  lemma EncodedSequence(c: nat, rest: seq<byte>)
    requires Scalar(c)
    ensures SequenceLength(Utf8(c) + rest) == |Utf8(c)|
  {
    var b := Utf8(c) + rest;
    assert forall i :: 0 <= i < |Utf8(c)| ==> b[i] == Utf8(c)[i];
  }

  /** The scalar value a valid sequence encodes. */
  lemma DecodedSequence(bs: seq<byte>) returns (c: nat)
    requires bs != [] && SequenceLength(bs) > 0
    ensures Scalar(c) && Utf8(c) == bs[..SequenceLength(bs)]
  {
    var n := SequenceLength(bs);
    if n == 1 {
      c := bs[0];
    } else if n == 2 {
      var hi, lo: nat := bs[0] - 0xC0, bs[1] - 0x80;
      Digits64(hi, lo);
      c := hi * 64 + lo;
    } else if n == 3 {
      var hi, a, lo: nat := bs[0] - 0xE0, bs[1] - 0x80, bs[2] - 0x80;
      Digits64(hi, a);
      Digits64(hi * 64 + a, lo);
      c := (hi * 64 + a) * 64 + lo;
    } else {
      var hi, a, b, lo: nat := bs[0] - 0xF0, bs[1] - 0x80, bs[2] - 0x80, bs[3] - 0x80;
      Digits64(hi, a);
      Digits64(hi * 64 + a, b);
      Digits64((hi * 64 + a) * 64 + b, lo);
      c := ((hi * 64 + a) * 64 + b) * 64 + lo;
    }
  }

  lemma Digits64(hi: nat, lo: nat)
    requires lo < 64
    ensures (hi * 64 + lo) / 64 == hi && (hi * 64 + lo) % 64 == lo
  {
  }

  /** Exactly the encodings of strings are valid. */
  lemma ValidIsEncoded(bs: seq<byte>)
    ensures ValidUtf8(bs) <==>
      exists cs: seq<nat> :: (forall i :: 0 <= i < |cs| ==> Scalar(cs[i])) && bs == Utf8All(cs)
  {
    if ValidUtf8(bs) {
      var cs := DecodeAll(bs);
    }
    forall cs: seq<nat> | (forall i :: 0 <= i < |cs| ==> Scalar(cs[i])) && bs == Utf8All(cs) ensures ValidUtf8(bs) {
      EncodedValid(cs);
    }
  }

  lemma {:induction false} DecodeAll(bs: seq<byte>) returns (cs: seq<nat>)
    requires ValidUtf8(bs)
    ensures (forall i :: 0 <= i < |cs| ==> Scalar(cs[i])) && bs == Utf8All(cs)
    decreases |bs|
  {
    hide SequenceLength, Utf8;
    if bs == [] {
      cs := [];
    } else {
      var c := DecodedSequence(bs);
      var rest := DecodeAll(bs[SequenceLength(bs)..]);
      cs := [c] + rest;
      assert cs[1..] == rest;
    }
  }

  lemma {:induction false} EncodedValid(cs: seq<nat>)
    requires forall i :: 0 <= i < |cs| ==> Scalar(cs[i])
    ensures ValidUtf8(Utf8All(cs))
  {
    hide SequenceLength, Utf8;
    if cs != [] {
      EncodedValid(cs[1..]);
      EncodedSequence(cs[0], Utf8All(cs[1..]));
      assert (Utf8(cs[0]) + Utf8All(cs[1..]))[|Utf8(cs[0])|..] == Utf8All(cs[1..]);
    }
  }

  // ---- trimming ----

  function TrimFront(bs: seq<byte>): seq<byte> { if bs != [] && bs[0] == 0 then TrimFront(bs[1..]) else bs }

  function TrimBack(bs: seq<byte>): seq<byte> {
    if bs != [] && bs[|bs| - 1] == 0 then TrimBack(bs[..|bs| - 1]) else bs
  }

  /** Without NUL bytes at either end. */
  function TrimNul(bs: seq<byte>): seq<byte> { TrimBack(TrimFront(bs)) }

  /** Unicode white space, encoded. */
  predicate IsSpace(c: seq<byte>) {
    || (|c| == 1 && (9 <= c[0] <= 13 || c[0] == 32))
    || c == [0xC2, 0x85] || c == [0xC2, 0xA0] || c == [0xE1, 0x9A, 0x80]
    || (|c| == 3 && c[0] == 0xE2 && c[1] == 0x80 &&
        (0x80 <= c[2] <= 0x8A || c[2] == 0xA8 || c[2] == 0xA9 || c[2] == 0xAF))
    || c == [0xE2, 0x81, 0x9F] || c == [0xE3, 0x80, 0x80]
  }

  /** Length of the white-space character at the front, 0 if there is none. */
  function SpaceFront(bs: seq<byte>): (n: nat)
    ensures n <= |bs|
  {
    if |bs| >= 1 && IsSpace(bs[..1]) then 1
    else if |bs| >= 2 && IsSpace(bs[..2]) then 2
    else if |bs| >= 3 && IsSpace(bs[..3]) then 3 else 0
  }

  function SpaceBack(bs: seq<byte>): (n: nat)
    ensures n <= |bs|
  {
    if |bs| >= 1 && IsSpace(bs[|bs| - 1..]) then 1
    else if |bs| >= 2 && IsSpace(bs[|bs| - 2..]) then 2
    else if |bs| >= 3 && IsSpace(bs[|bs| - 3..]) then 3 else 0
  }

  /** Without white space at either end. */
  function Trim(bs: seq<byte>): seq<byte>
    decreases |bs|
  {
    if SpaceFront(bs) > 0 then Trim(bs[SpaceFront(bs)..])
    else if SpaceBack(bs) > 0 then Trim(bs[..|bs| - SpaceBack(bs)])
    else bs
  }

  predicate OctalDigits(bs: seq<byte>) { forall i :: 0 <= i < |bs| ==> 0x30 <= bs[i] <= 0x37 }

  function OctalValue(bs: seq<byte>): nat
    requires OctalDigits(bs)
  {
    if bs == [] then 0 else OctalValue(bs[..|bs| - 1]) * 8 + (bs[|bs| - 1] - 0x30)
  }

  /** An unsigned octal number with an optional plus sign; 0 for anything else. Twelve
      digits always fit. */
  function OctalOr0(bs: seq<byte>): nat {
    var digits := if bs != [] && bs[0] == 0x2B then bs[1..] else bs;
    if digits != [] && OctalDigits(digits) then OctalValue(digits) else 0
  }

  // ---- the reader ----

  const MAGIC: seq<byte> := [0x75, 0x73, 0x74, 0x61, 0x72] // "ustar"
  const DOT: byte := 0x2E
  const SLASH: byte := 0x2F

  function StripDot(name: seq<byte>): seq<byte> {
    if |name| >= 2 && name[0] == DOT && name[1] == SLASH then name[2..] else name
  }

  function NameOf(header: seq<byte>): seq<byte>
    requires |header| >= 512
  {
    StripDot(if ValidUtf8(header[..100]) then TrimNul(header[..100]) else [])
  }

  function SizeOf(header: seq<byte>): nat
    requires |header| >= 512
  {
    if ValidUtf8(header[124..136]) then OctalOr0(Trim(TrimNul(header[124..136]))) else 0
  }

  predicate Skipped(name: seq<byte>) { name == [] || name == [DOT] }

  /** Up to whole blocks: the least multiple of 512 that is not below n. */
  function Blocks(n: nat): (r: nat)
    ensures r % 512 == 0 && n <= r < n + 512
  {
    (n + 511) / 512 * 512
  }

  function After(rest: seq<byte>, n: nat): seq<byte> { if n <= |rest| then rest[n..] else [] }

  /** The files of an archive; None where reading past its end would panic. */
  function Files(rest: seq<byte>): Option<seq<TarFile>>
    decreases |rest|
  {
    if |rest| < 512 || rest[257..262] != MAGIC then Some([])
    else
      var name, size := NameOf(rest), SizeOf(rest);
      var next := After(rest, 512 + Blocks(size));
      if Skipped(name) then Files(next)
      else if 512 + size > |rest| then None
      else
        var others := Files(next);
        if others.None? then None else Some([TarFile(name, rest[512..512 + size])] + others.value)
  }

  /** Reading one member and then the rest. */
  lemma FilesNext(rest: seq<byte>, next: seq<byte>)
    requires |rest| >= 512 && rest[257..262] == MAGIC && next == After(rest, 512 + Blocks(SizeOf(rest)))
    ensures Skipped(NameOf(rest)) ==> Files(rest) == Files(next)
    ensures !Skipped(NameOf(rest)) && 512 + SizeOf(rest) > |rest| ==> Files(rest) == None
    ensures !Skipped(NameOf(rest)) && 512 + SizeOf(rest) <= |rest| ==>
      Files(rest) == Prepend([TarFile(NameOf(rest), rest[512..512 + SizeOf(rest)])], Files(next))
  {
    hide NameOf, SizeOf, Blocks;
  }

  lemma FilesEnd(rest: seq<byte>)
    requires |rest| < 512 || rest[257..262] != MAGIC
    ensures Files(rest) == Some([])
  {
  }

  lemma PrependTwice(a: seq<TarFile>, b: seq<TarFile>, r: Option<seq<TarFile>>)
    ensures Prepend(a, Prepend(b, r)) == Prepend(a + b, r)
  {
    if r.Some? {
      assert a + (b + r.value) == (a + b) + r.value;
    }
  }

  lemma PrependNothing(r: Option<seq<TarFile>>)
    ensures Prepend([], r) == r
  {
    if r.Some? {
      assert [] + r.value == r.value;
    }
  }

  lemma AfterAfter(data: seq<byte>, m: nat, n: nat)
    requires m <= |data|
    ensures After(After(data, m), n) == After(data, m + n)
  {
  }

  /** `first` and then what is read from the rest. */
  function Prepend(first: seq<TarFile>, r: Option<seq<TarFile>>): Option<seq<TarFile>> {
    if r.None? then None else Some(first + r.value)
  }

  method ReadArchive(data: seq<byte>) returns (r: Option<seq<TarFile>>)
    ensures r == Files(data)
  {
    hide Files, NameOf, SizeOf, Blocks, Skipped;
    var files, offset := [], 0;
    assert After(data, 0) == data;
    PrependNothing(Files(data));
    while offset + 512 <= |data|
      invariant Files(data) == Prepend(files, Files(After(data, offset)))
      decreases |data| + 512 - offset
    {
      var header := data[offset..];
      if header[257..262] != MAGIC {
        break;
      }
      var name, size := NameOf(header), SizeOf(header);
      AfterAfter(data, offset, 512 + Blocks(size));
      FilesNext(header, After(data, offset + (512 + Blocks(size))));
      if Skipped(name) {
        offset := offset + (512 + Blocks(size));
        continue;
      }
      if offset + 512 + size > |data| {
        return None;
      }
      var file := TarFile(name, data[offset + 512..offset + 512 + size]);
      assert header[512..512 + size] == file.data;
      PrependTwice(files, [file], Files(After(data, offset + (512 + Blocks(size)))));
      files := files + [file];
      offset := offset + (512 + Blocks(size));
    }
    FilesEnd(After(data, offset));
    assert files + [] == files;
    r := Some(files);
  }

  // ---- a writer ----

  const SPACE: byte := 0x20

  /** How a size is laid out in its field of twelve bytes: spaces, octal digits, spaces, and
      NULs up to the end. */
  datatype Layout = Layout(front: nat, digits: nat, back: nat)

  /** An archive member with the header fields the reader does not look at left open. */
  datatype Member = Member(name: seq<byte>, data: seq<byte>, template: seq<byte>, layout: Layout)

  function Octal(n: nat, digits: nat): (r: seq<byte>)
    ensures |r| == digits && OctalDigits(r)
  {
    if digits == 0 then [] else Octal(n / 8, digits - 1) + [0x30 + n % 8]
  }

  function Spaces(n: nat): (r: seq<byte>)
    ensures |r| == n && forall i :: 0 <= i < n ==> r[i] == SPACE
  {
    seq(n, _ => SPACE)
  }

  predicate FitsIn(n: nat, l: Layout) { l.front + l.digits + l.back <= 12 && l.digits >= 1 && n < Pow8(l.digits) }

  function SizeText(n: nat, l: Layout): (r: seq<byte>)
    requires FitsIn(n, l)
    ensures |r| == 12
  {
    Spaces(l.front) + Octal(n, l.digits) + Spaces(l.back) + Zeros(12 - l.front - l.digits - l.back)
  }

  /** Names that fit and that padding with NULs does not blur, sizes that fit. */
  predicate Storable(m: Member) {
    && |m.name| <= 100 && ValidUtf8(m.name) && |m.template| == 512 && FitsIn(|m.data|, m.layout)
    && (m.name != [] ==> m.name[0] != 0 && m.name[|m.name| - 1] != 0)
  }

  function Header(m: Member): (r: seq<byte>)
    requires Storable(m)
    ensures |r| == 512
  {
    var named := Overwrite(m.template, 0, m.name + Zeros(100 - |m.name|));
    Overwrite(Overwrite(named, 124, SizeText(|m.data|, m.layout)), 257, MAGIC)
  }

  /** The contents, padded to whole blocks. */
  function Body(data: seq<byte>): (r: seq<byte>)
    ensures |r| == Blocks(|data|)
  {
    data + Zeros(Blocks(|data|) - |data|)
  }

  function Encode(ms: seq<Member>): seq<byte>
    requires forall i :: 0 <= i < |ms| ==> Storable(ms[i])
  {
    if ms == [] then Zeros(1024)
    else Header(ms[0]) + Body(ms[0].data) + Encode(ms[1..])
  }

  /** The file a member stands for: none if it is nameless or the root, whether written ".",
      "./" or "./."; otherwise one under its name, from which a leading "./" is dropped. */
  function FileOf(m: Member): seq<TarFile> {
    if m.name in {[], [DOT], [DOT, SLASH], [DOT, SLASH, DOT]} then []
    else [TarFile(if [DOT, SLASH] <= m.name then m.name[2..] else m.name, m.data)]
  }

  /** What an archive is meant to hold. */
  function Meant(ms: seq<Member>): seq<TarFile> {
    if ms == [] then [] else FileOf(ms[0]) + Meant(ms[1..])
  }

  // ---- reading what was written ----

  lemma {:induction false} TrimFrontZeros(n: nat)
    ensures TrimFront(Zeros(n)) == []
  {
    if n > 0 {
      assert Zeros(n)[1..] == Zeros(n - 1);
      TrimFrontZeros(n - 1);
    }
  }

  lemma {:induction false} TrimBackPadded(bs: seq<byte>, n: nat)
    requires bs != [] && bs[|bs| - 1] != 0
    ensures TrimBack(bs + Zeros(n)) == bs
  {
    if n > 0 {
      assert (bs + Zeros(n))[..|bs| + n - 1] == bs + Zeros(n - 1);
      TrimBackPadded(bs, n - 1);
    } else {
      assert bs + Zeros(0) == bs;
    }
  }

  lemma TrimPadded(bs: seq<byte>, n: nat)
    requires bs != [] ==> bs[0] != 0 && bs[|bs| - 1] != 0
    ensures TrimNul(bs + Zeros(n)) == bs
  {
    if bs == [] {
      assert bs + Zeros(n) == Zeros(n);
      TrimFrontZeros(n);
    } else {
      TrimBackPadded(bs, n);
    }
  }

  lemma SequenceKept(a: seq<byte>, b: seq<byte>)
    requires a != [] && SequenceLength(a) > 0
    ensures SequenceLength(a + b) == SequenceLength(a)
  {
  }

  lemma {:induction false} Utf8Append(a: seq<byte>, b: seq<byte>)
    requires ValidUtf8(a) && ValidUtf8(b)
    ensures ValidUtf8(a + b)
    decreases |a|
  {
    hide SequenceLength;
    if a == [] {
      assert a + b == b;
    } else {
      var n := SequenceLength(a);
      SequenceKept(a, b);
      Utf8Append(a[n..], b);
      assert (a + b)[n..] == a[n..] + b;
    }
  }

  lemma {:induction false} AsciiValid(bs: seq<byte>)
    requires forall i :: 0 <= i < |bs| ==> bs[i] <= 0x7F
    ensures ValidUtf8(bs)
  {
    if bs != [] {
      AsciiValid(bs[1..]);
    }
  }

  function Pow8(n: nat): nat { if n == 0 then 1 else 8 * Pow8(n - 1) }

  lemma {:induction false} OctalRoundTrip(n: nat, digits: nat)
    requires n < Pow8(digits)
    ensures OctalValue(Octal(n, digits)) == n
  {
    if digits > 0 {
      OctalRoundTrip(n / 8, digits - 1);
      var r := Octal(n, digits);
      assert r[..digits - 1] == Octal(n / 8, digits - 1);
    }
  }

  lemma SpaceEnds(c: seq<byte>)
    requires IsSpace(c)
    ensures c != [] && (c[0] <= 32 || c[0] >= 0xC2) && (c[|c| - 1] <= 32 || c[|c| - 1] >= 0x80)
  {
  }

  lemma DigitsTrimmed(d: seq<byte>)
    requires OctalDigits(d) && d != []
    ensures Trim(d) == d && OctalOr0(d) == OctalValue(d)
  {
    hide IsSpace, OctalValue;
    forall k | 0 <= k <= |d| ensures !IsSpace(d[..k]) && !IsSpace(d[|d| - k..]) {
      if IsSpace(d[..k]) {
        SpaceEnds(d[..k]);
      }
      if IsSpace(d[|d| - k..]) {
        SpaceEnds(d[|d| - k..]);
      }
    }
  }

  lemma {:induction false} TrimSpaces(front: nat, d: seq<byte>, back: nat)
    requires OctalDigits(d) && d != []
    ensures Trim(Spaces(front) + d + Spaces(back)) == d
    decreases front + back
  {
    hide Trim;
    if front > 0 {
      TrimOneFront(Spaces(front - 1) + d + Spaces(back));
      assert Spaces(front) + d + Spaces(back) == [SPACE] + (Spaces(front - 1) + d + Spaces(back));
      TrimSpaces(front - 1, d, back);
    } else if back > 0 {
      TrimOneBack(d, back);
      TrimSpaces(0, d, back - 1);
      assert Spaces(0) + d + Spaces(back) == d + Spaces(back);
      assert Spaces(0) + d + Spaces(back - 1) == d + Spaces(back - 1);
    } else {
      DigitsTrimmed(d);
      assert Spaces(front) + d + Spaces(back) == d;
    }
  }

  lemma TrimOneFront(rest: seq<byte>)
    ensures Trim([SPACE] + rest) == Trim(rest)
  {
    hide IsSpace;
    OneSpace();
    assert ([SPACE] + rest)[..1] == [SPACE] && ([SPACE] + rest)[1..] == rest;
  }

  lemma TrimOneBack(d: seq<byte>, back: nat)
    requires OctalDigits(d) && d != [] && back > 0
    ensures Trim(d + Spaces(back)) == Trim(d + Spaces(back - 1))
  {
    hide IsSpace;
    var all := d + Spaces(back);
    forall k | 1 <= k <= |all| ensures !IsSpace(all[..k]) {
      if IsSpace(all[..k]) {
        SpaceEnds(all[..k]);
      }
    }
    assert all[|all| - 1..] == [SPACE];
    OneSpace();
    assert all[..|all| - 1] == d + Spaces(back - 1);
  }

  lemma OneSpace()
    ensures IsSpace([SPACE])
  {
  }

  /** A plus sign in front of the digits changes nothing; anything else in place of a digit
      makes the size 0. */
  lemma SignedSize(d: seq<byte>, x: byte, e: seq<byte>)
    requires OctalDigits(d) && d != []
    ensures OctalOr0([0x2B] + d) == OctalValue(d)
    ensures !(0x30 <= x <= 0x37) ==> OctalOr0(d + [x] + e) == 0
  {
    assert ([0x2B] + d)[1..] == d && d[0] != 0x2B;
    assert (d + [x] + e)[|d|] == x && (d + [x] + e)[0] == d[0];
  }

  /** A size reads back from its field, however it is laid out. */
  lemma SizeField(n: nat, l: Layout)
    requires FitsIn(n, l)
    ensures ValidUtf8(SizeText(n, l)) && OctalOr0(Trim(TrimNul(SizeText(n, l)))) == n
  {
    hide Trim, OctalOr0, OctalValue;
    var d := Octal(n, l.digits);
    var text := Spaces(l.front) + d + Spaces(l.back);
    AsciiValid(SizeText(n, l));
    TrimPadded(text, 12 - |text|);
    TrimSpaces(l.front, d, l.back);
    DigitsTrimmed(d);
    OctalRoundTrip(n, l.digits);
  }

  lemma HeaderFields(m: Member, rest: seq<byte>)
    requires Storable(m)
    ensures var h := Header(m) + rest;
      && h[257..262] == MAGIC && h[..100] == m.name + Zeros(100 - |m.name|)
      && h[124..136] == SizeText(|m.data|, m.layout)
  {
    var named := Overwrite(m.template, 0, m.name + Zeros(100 - |m.name|));
    var sized := Overwrite(named, 124, SizeText(|m.data|, m.layout));
    OverwriteInside(m.template, 0, m.name + Zeros(100 - |m.name|));
    OverwriteInside(named, 124, SizeText(|m.data|, m.layout));
    OverwriteOutside(named, 124, SizeText(|m.data|, m.layout), 0, 100);
    OverwriteInside(sized, 257, MAGIC);
    OverwriteOutside(sized, 257, MAGIC, 0, 100);
    OverwriteOutside(sized, 257, MAGIC, 124, 136);
    assert forall a, b :: 0 <= a <= b <= 512 ==> (Header(m) + rest)[a..b] == Header(m)[a..b];
  }

  lemma HeaderRead(m: Member, rest: seq<byte>)
    requires Storable(m)
    ensures var h := Header(m) + rest; NameOf(h) == StripDot(m.name) && SizeOf(h) == |m.data|
  {
    hide ValidUtf8, OctalOr0, Trim, TrimNul, Header, SizeText, FitsIn;
    HeaderFields(m, rest);
    AsciiValid(Zeros(100 - |m.name|));
    Utf8Append(m.name, Zeros(100 - |m.name|));
    TrimPadded(m.name, 100 - |m.name|);
    SizeField(|m.data|, m.layout);
  }

  lemma MemberRead(m: Member, tail: seq<byte>)
    requires Storable(m)
    ensures Files(Header(m) + Body(m.data) + tail) ==
      Prepend(FileOf(m), Files(tail))
  {
    hide Files, NameOf, SizeOf, Blocks, Header, Storable, FileOf, Skipped, StripDot;
    var rest := Body(m.data) + tail;
    var all := Header(m) + rest;
    assert Header(m) + Body(m.data) + tail == all;
    HeaderFields(m, rest);
    HeaderRead(m, rest);
    assert After(all, 512 + Blocks(|m.data|)) == tail;
    assert all[512..512 + |m.data|] == m.data;
    FilesNext(all, tail);
    ReadAsFile(m);
    PrependNothing(Files(tail));
  }

  /** A member whose name field is not text is passed over, whatever its contents. */
  lemma GarbledSkipped(header: seq<byte>, data: seq<byte>, layout: Layout, tail: seq<byte>)
    requires |header| == 512 && header[257..262] == MAGIC && !ValidUtf8(header[..100])
    requires FitsIn(|data|, layout) && header[124..136] == SizeText(|data|, layout)
    ensures Files(header + Body(data) + tail) == Files(tail)
  {
    hide Files, Blocks, ValidUtf8, OctalOr0, Trim, TrimNul, SizeText;
    var all := header + (Body(data) + tail);
    assert header + Body(data) + tail == all;
    assert all[..100] == header[..100] && all[124..136] == header[124..136] && all[257..262] == header[257..262];
    SizeField(|data|, layout);
    assert NameOf(all) == [] && SizeOf(all) == |data|;
    assert After(all, 512 + Blocks(|data|)) == tail;
    FilesNext(all, tail);
  }

  /** What the reader makes of a name is what the member stands for. */
  lemma ReadAsFile(m: Member)
    ensures FileOf(m) == if Skipped(StripDot(m.name)) then [] else [TarFile(StripDot(m.name), m.data)]
  {
    assert [DOT, SLASH] <= m.name <==> |m.name| >= 2 && m.name[0] == DOT && m.name[1] == SLASH;
    if [DOT, SLASH] <= m.name {
      assert m.name == [DOT, SLASH] + m.name[2..];
      assert m.name[2..] == [] <==> m.name == [DOT, SLASH];
      assert m.name[2..] == [DOT] <==> m.name == [DOT, SLASH, DOT];
    }
  }

  /** Reading an archive gives back every member, in order, with its contents. */
  lemma {:induction false} ReadsWhatWasWritten(ms: seq<Member>)
    requires forall i :: 0 <= i < |ms| ==> Storable(ms[i])
    ensures Files(Encode(ms)) == Some(Meant(ms))
  {
    hide Files, FileOf, Header, Storable, Body;
    if ms == [] {
      assert Zeros(1024)[257..262][0] == 0 && MAGIC[0] != 0;
      FilesEnd(Zeros(1024));
    } else {
      ReadsWhatWasWritten(ms[1..]);
      MemberRead(ms[0], Encode(ms[1..]));
    }
  }

  /** The names a member list must have to come back unchanged. */
  predicate Plain(name: seq<byte>) {
    name != [] && name != [DOT] && !(|name| >= 2 && name[0] == DOT && name[1] == SLASH)
  }

  function AsFiles(ms: seq<Member>): seq<TarFile> {
    seq(|ms|, i requires 0 <= i < |ms| => TarFile(ms[i].name, ms[i].data))
  }

  /** The round trip is exact if and only if no name is empty, "." or starts with "./". */
  lemma {:induction false} RoundTripIffPlain(ms: seq<Member>)
    requires forall i :: 0 <= i < |ms| ==> Storable(ms[i])
    ensures Files(Encode(ms)) == Some(AsFiles(ms)) <==> forall i :: 0 <= i < |ms| ==> Plain(ms[i].name)
  {
    ReadsWhatWasWritten(ms);
    MeantIffPlain(ms);
  }

  lemma {:induction false} MeantIffPlain(ms: seq<Member>)
    ensures |Meant(ms)| <= |ms|
    ensures Meant(ms) == AsFiles(ms) <==> forall i :: 0 <= i < |ms| ==> Plain(ms[i].name)
  {
    if ms != [] {
      MeantIffPlain(ms[1..]);
      assert AsFiles(ms) == [TarFile(ms[0].name, ms[0].data)] + AsFiles(ms[1..]);
      assert (forall i :: 0 <= i < |ms| ==> Plain(ms[i].name)) <==>
        Plain(ms[0].name) && forall i :: 0 <= i < |ms[1..]| ==> Plain(ms[1..][i].name);
      if FileOf(ms[0]) == [] {
        assert |Meant(ms)| < |ms|;
      } else {
        assert Meant(ms)[0] == FileOf(ms[0])[0] && Meant(ms)[1..] == Meant(ms[1..]);
        assert AsFiles(ms)[0] == TarFile(ms[0].name, ms[0].data) && AsFiles(ms)[1..] == AsFiles(ms[1..]);
      }
    }
  }

  /** A leading "./" is dropped, the rest of the name is kept; "./" itself and "./." are
      not listed. */
  lemma DotSlashDropped(n: seq<byte>, data: seq<byte>, template: seq<byte>, layout: Layout)
    requires Storable(Member([DOT, SLASH] + n, data, template, layout))
    ensures Files(Encode([Member([DOT, SLASH] + n, data, template, layout)])) ==
      Some(if n == [] || n == [DOT] then [] else [TarFile(n, data)])
  {
    hide Files, Encode, ValidUtf8, FitsIn;
    var m := Member([DOT, SLASH] + n, data, template, layout);
    ReadsWhatWasWritten([m]);
    assert [m][1..] == [] && Meant([]) == [] && Meant([m]) == FileOf(m) + Meant([m][1..]) == FileOf(m);
    assert [DOT, SLASH] <= m.name;
    assert m.name[2..] == n;
    assert n == [] <==> m.name == [DOT, SLASH];
    assert n == [DOT] <==> m.name == [DOT, SLASH, DOT];
  }

  /** "./a" comes back as "a". */
  lemma DotSlashLost(data: seq<byte>, template: seq<byte>)
    requires |template| == 512 && |data| < Pow8(11)
    ensures var m := Member([DOT, SLASH, 0x61], data, template, Layout(0, 11, 0));
      Storable(m) && Files(Encode([m])) == Some([TarFile([0x61], data)])
  {
    hide Files, Encode, ValidUtf8;
    AsciiValid([DOT, SLASH, 0x61]);
    assert [DOT, SLASH] + [0x61] == [DOT, SLASH, 0x61];
    DotSlashDropped([0x61], data, template, Layout(0, 11, 0));
  }

  // ---- the files ----

  /** Copies as much of the file from `offset` on as there is and fits. */
  method ReadFile(f: TarFile, offset: nat, buffer: array<byte>) returns (n: nat)
    modifies buffer
    ensures n <= buffer.Length && buffer[n..] == old(buffer[n..])
    ensures buffer[..n] <= After(f.data, offset)
    ensures n < buffer.Length ==> buffer[..n] == After(f.data, offset)
  {
    if offset >= |f.data| {
      return 0;
    }
    var available := |f.data| - offset;
    n := if available <= buffer.Length then available else buffer.Length;
    for i := 0 to n
      invariant buffer[..i] == f.data[offset..offset + i] && buffer[n..] == old(buffer[n..])
    {
      buffer[i] := f.data[offset + i];
    }
  }

  /** The first file of that name. */
  method FindFile(files: seq<TarFile>, name: seq<byte>) returns (r: Option<TarFile>)
    ensures r.Some? ==> r.value in files && r.value.name == name
    ensures r.Some? ==> exists i :: 0 <= i < |files| && files[i] == r.value && forall j ::
      0 <= j < i ==> files[j].name != name
    ensures r.None? ==> forall f :: f in files ==> f.name != name
  {
    for i := 0 to |files|
      invariant forall j :: 0 <= j < i ==> files[j].name != name
    {
      if files[i].name == name {
        return Some(files[i]);
      }
    }
    r := None;
  }
}
