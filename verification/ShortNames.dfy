/** 8.3 names. A name is its UTF-8 byte string; a packed name is eleven bytes, base and
    extension in upper case padded with spaces. */
module ShortNames {
  import opened Bytes

  const SPACE: byte := 0x20
  const DOT: byte := 0x2E

  function Upper(b: byte): byte { if 97 <= b <= 122 then b - 32 else b }

  function Lower(b: byte): byte { if 65 <= b <= 90 then b + 32 else b }

  function UpperAll(s: seq<byte>): (r: seq<byte>)
    ensures |r| == |s| && forall i :: 0 <= i < |s| ==> r[i] == Upper(s[i])
  {
    seq(|s|, i requires 0 <= i < |s| => Upper(s[i]))
  }

  function LowerAll(s: seq<byte>): (r: seq<byte>)
    ensures |r| == |s| && forall i :: 0 <= i < |s| ==> r[i] == Lower(s[i])
  {
    seq(|s|, i requires 0 <= i < |s| => Lower(s[i]))
  }

  function Spaces(n: nat): (r: seq<byte>)
    ensures |r| == n && forall i :: 0 <= i < n ==> r[i] == SPACE
  {
    seq(n, _ => SPACE)
  }

  /** Position of the last dot. */
  function LastDot(s: seq<byte>): (r: Option<nat>)
    ensures r.None? ==> forall i :: 0 <= i < |s| ==> s[i] != DOT
    ensures r.Some? ==> r.value < |s| && s[r.value] == DOT
    ensures r.Some? ==> forall i :: r.value < i < |s| ==> s[i] != DOT
  {
    if s == [] then None
    else if s[|s| - 1] == DOT then Some(|s| - 1)
    else LastDot(s[..|s| - 1])
  }

  function BaseOf(name: seq<byte>): seq<byte> {
    var dot := LastDot(name);
    if dot.Some? then name[..dot.value] else name
  }

  function ExtOf(name: seq<byte>): seq<byte> {
    var dot := LastDot(name);
    if dot.Some? then name[dot.value + 1..] else []
  }

  /** One half of a packed name: upper case, padded with spaces. */
  function Half(part: seq<byte>, width: nat): (r: seq<byte>)
    requires |part| <= width
    ensures |r| == width
  {
    UpperAll(part) + Spaces(width - |part|)
  }

  function To83(name: seq<byte>): (r: Option<seq<byte>>)
    ensures r.Some? ==> |r.value| == 11
  {
    var base, ext := BaseOf(name), ExtOf(name);
    if |base| == 0 || |base| > 8 || |ext| > 3 then None
    else Some(Half(base, 8) + Half(ext, 3))
  }

  // ---- which names are accepted ----

  predicate NoDot(s: seq<byte>) { forall i :: 0 <= i < |s| ==> s[i] != DOT }

  /** A base of one to eight bytes without a dot; or a base of one to eight bytes, a dot and
      an extension of at most three without one. */
  ghost predicate Acceptable(name: seq<byte>) {
    || (NoDot(name) && 1 <= |name| <= 8)
    || exists base, ext :: name == WithExt(base, ext) && NoDot(ext) && 1 <= |base| <= 8 && |ext| <= 3
  }

  function WithExt(base: seq<byte>, ext: seq<byte>): seq<byte> { base + [DOT] + ext }

  /** The packed form of part: its bytes in upper case, then spaces. */
  ghost predicate Padded(half: seq<byte>, part: seq<byte>) {
    && |part| <= |half|
    && forall i :: 0 <= i < |half| ==> half[i] == if i < |part| then Upper(part[i]) else SPACE
  }

  lemma PartsOf(base: seq<byte>, ext: seq<byte>)
    requires NoDot(ext)
    ensures BaseOf(WithExt(base, ext)) == base && ExtOf(WithExt(base, ext)) == ext
  {
    var name := WithExt(base, ext);
    assert name[|base|] == DOT;
    assert forall i :: |base| < i < |name| ==> name[i] == ext[i - |base| - 1];
    assert LastDot(name) == Some(|base|);
  }

  lemma HasDot(base: seq<byte>, ext: seq<byte>)
    ensures !NoDot(WithExt(base, ext))
  {
    assert WithExt(base, ext)[|base|] == DOT;
  }

  lemma NoParts(name: seq<byte>)
    requires NoDot(name)
    ensures BaseOf(name) == name && ExtOf(name) == []
  {
  }

  /** A name with an extension is accepted if and only if base and extension fit, and packs
      into them. The base may contain further dots. */
  lemma AcceptedWithExt(base: seq<byte>, ext: seq<byte>)
    requires NoDot(ext)
    ensures To83(WithExt(base, ext)).Some? <==> 1 <= |base| <= 8 && |ext| <= 3
    ensures To83(WithExt(base, ext)).Some? ==>
      var p := To83(WithExt(base, ext)).value; Padded(p[..8], base) && Padded(p[8..], ext)
  {
    PartsOf(base, ext);
  }

  /** A name without a dot is accepted if and only if it fits the base. */
  lemma AcceptedPlain(name: seq<byte>)
    requires NoDot(name)
    ensures To83(name).Some? <==> 1 <= |name| <= 8
    ensures To83(name).Some? ==> var p := To83(name).value; Padded(p[..8], name) && Padded(p[8..], [])
  {
    NoParts(name);
  }

  /** Exactly the acceptable names are accepted. */
  lemma AcceptedIff(name: seq<byte>)
    ensures To83(name).Some? <==> Acceptable(name)
  {
    hide To83;
    if NoDot(name) {
      AcceptedPlain(name);
      forall base, ext ensures name != WithExt(base, ext) {
        HasDot(base, ext);
      }
    } else {
      var base, ext := BaseOf(name), ExtOf(name);
      assert LastDot(name).Some?;
      assert name == WithExt(base, ext) && NoDot(ext);
      AcceptedWithExt(base, ext);
      forall b, e | name == WithExt(b, e) && NoDot(e) ensures b == base && e == ext {
        PartsOf(b, e);
      }
    }
  }

  /** Length without trailing spaces. */
  function TrimLen(s: seq<byte>): (r: nat)
    ensures r <= |s|
    ensures r > 0 ==> s[r - 1] != SPACE
    ensures forall i :: r <= i < |s| ==> s[i] == SPACE
  {
    if s == [] then 0 else if s[|s| - 1] != SPACE then |s| else TrimLen(s[..|s| - 1])
  }

  /** UTF-8 of a string whose characters have the given codes below 256. */
  function Latin1(s: seq<byte>): seq<byte> {
    if s == [] then []
    else (if s[0] < 128 then [s[0]] else [0xC0 + s[0] / 64, 0x80 + s[0] % 64]) + Latin1(s[1..])
  }

  function DecodeHalf(half: seq<byte>): seq<byte> { Latin1(LowerAll(half[..TrimLen(half)])) }

  /** The lower-case name a packed name stands for. */
  function Decode(packed: seq<byte>): seq<byte>
    requires |packed| == 11
  {
    var name, ext := packed[..8], packed[8..];
    DecodeHalf(name) + if TrimLen(ext) > 0 then [DOT] + DecodeHalf(ext) else []
  }

  predicate EqIgnoreCase(a: seq<byte>, b: seq<byte>) { LowerAll(a) == LowerAll(b) }

  predicate NameMatches(packed: seq<byte>, target: seq<byte>)
    requires |packed| == 11
  {
    EqIgnoreCase(Decode(packed), target)
  }

  /** ASCII, no trailing dot, no space at the end of base or extension. */
  predicate Clean(name: seq<byte>) {
    var base, ext := BaseOf(name), ExtOf(name);
    && (forall i :: 0 <= i < |name| ==> name[i] < 128)
    && |name| > 0 && name[|name| - 1] != DOT
    && |base| > 0 && base[|base| - 1] != SPACE
    && (|ext| > 0 ==> ext[|ext| - 1] != SPACE)
  }

  // ---- counting non-ASCII bytes ----

  function High(s: seq<byte>): nat {
    if s == [] then 0 else (if s[0] < 128 then 0 else 1) + High(s[1..])
  }

  lemma {:induction false} HighConcat(a: seq<byte>, b: seq<byte>)
    ensures High(a + b) == High(a) + High(b)
  {
    if a == [] {
      assert a + b == b;
    } else {
      assert (a + b)[1..] == a[1..] + b;
      HighConcat(a[1..], b);
    }
  }

  lemma {:induction false} HighLower(s: seq<byte>)
    ensures High(LowerAll(s)) == High(s)
  {
    if s == [] {
    } else {
      assert LowerAll(s)[1..] == LowerAll(s[1..]);
      HighLower(s[1..]);
    }
  }

  lemma {:induction false} HighUpper(s: seq<byte>)
    ensures High(UpperAll(s)) == High(s)
  {
    if s == [] {
    } else {
      assert UpperAll(s)[1..] == UpperAll(s[1..]);
      HighUpper(s[1..]);
    }
  }

  lemma {:induction false} HighLatin1(s: seq<byte>)
    ensures High(Latin1(s)) == 2 * High(s)
  {
    if s == [] {
    } else {
      var head: seq<byte> := if s[0] < 128 then [s[0]] else [0xC0 + s[0] / 64, 0x80 + s[0] % 64];
      HighLatin1(s[1..]);
      HighConcat(head, Latin1(s[1..]));
      assert head[1..] == [] || (head[1..] == [head[1]] && head[1..][1..] == []);
    }
  }

  lemma {:induction false} HighZero(s: seq<byte>)
    ensures High(s) == 0 <==> forall i :: 0 <= i < |s| ==> s[i] < 128
  {
    if s == [] {
    } else {
      HighZero(s[1..]);
      assert forall i :: 0 < i < |s| ==> s[i] == s[1..][i - 1];
    }
  }

  lemma {:induction false} Latin1Ascii(s: seq<byte>)
    requires forall i :: 0 <= i < |s| ==> s[i] < 128
    ensures Latin1(s) == s
  {
    if s == [] {
    } else {
      Latin1Ascii(s[1..]);
    }
  }

  /** Dropping trailing spaces drops no non-ASCII byte. */
  lemma HighTrim(s: seq<byte>)
    ensures High(s[..TrimLen(s)]) == High(s)
  {
    var n := TrimLen(s);
    HighConcat(s[..n], s[n..]);
    assert s == s[..n] + s[n..];
    HighZero(s[n..]);
  }

  lemma HighSpaces(n: nat)
    ensures High(Spaces(n)) == 0
  {
    HighZero(Spaces(n));
  }

  // ---- round trip ----

  lemma LowerUpper(s: seq<byte>)
    ensures LowerAll(UpperAll(s)) == LowerAll(s)
    ensures LowerAll(LowerAll(s)) == LowerAll(s)
  {
  }

  lemma LowerConcat(a: seq<byte>, b: seq<byte>)
    ensures LowerAll(a + b) == LowerAll(a) + LowerAll(b)
  {
  }

  lemma PackedHalves(name: seq<byte>)
    requires To83(name).Some?
    ensures var p := To83(name).value;
      p[..8] == Half(BaseOf(name), 8) && p[8..] == Half(ExtOf(name), 3)
  {
  }

  lemma HighTrimmedHalf(part: seq<byte>, width: nat)
    requires |part| <= width
    ensures var half := Half(part, width); High(half[..TrimLen(half)]) == High(part)
  {
    HighTrim(Half(part, width));
    HighConcat(UpperAll(part), Spaces(width - |part|));
    HighUpper(part);
    HighSpaces(width - |part|);
  }

  lemma DecodedParts(name: seq<byte>)
    requires To83(name).Some?
    ensures var base, ext := Half(BaseOf(name), 8), Half(ExtOf(name), 3);
      Decode(To83(name).value) == DecodeHalf(base) + if TrimLen(ext) > 0 then [DOT] + DecodeHalf(ext) else []
  {
    PackedHalves(name);
  }

  /** Every non-ASCII byte of a part comes back as two. */
  lemma HighHalf(part: seq<byte>, width: nat)
    requires |part| <= width
    ensures High(DecodeHalf(Half(part, width))) == 2 * High(part)
    ensures High(part) > 0 ==> TrimLen(Half(part, width)) > 0
  {
    var half := Half(part, width);
    var t := half[..TrimLen(half)];
    HighTrimmedHalf(part, width);
    HighLatin1(LowerAll(t));
    HighLower(t);
  }

  /** Trimming a padded half gives back the part exactly when it ends in no space. */
  lemma TrimHalf(part: seq<byte>, width: nat)
    requires |part| <= width
    ensures TrimLen(Half(part, width)) <= |part|
    ensures TrimLen(Half(part, width)) == |part| <==> part == [] || part[|part| - 1] != SPACE
  {
    var half := Half(part, width);
    assert forall i :: |part| <= i < width ==> half[i] == SPACE;
    if part != [] {
      assert half[|part| - 1] == Upper(part[|part| - 1]);
    }
  }

  lemma AsciiHalf(part: seq<byte>, width: nat)
    requires |part| <= width && High(part) == 0
    ensures |DecodeHalf(Half(part, width))| == TrimLen(Half(part, width))
    ensures TrimLen(Half(part, width)) == |part| ==> DecodeHalf(Half(part, width)) == LowerAll(part)
  {
    var half := Half(part, width);
    var n := TrimLen(half);
    TrimHalf(part, width);
    HighZero(part);
    assert half[..n] == UpperAll(part)[..n];
    Latin1Ascii(LowerAll(half[..n]));
    LowerUpper(part);
  }

  lemma SplitName(name: seq<byte>)
    ensures LastDot(name).Some? ==> name == BaseOf(name) + ([DOT] + ExtOf(name))
    ensures LastDot(name).None? ==> name == BaseOf(name) && ExtOf(name) == []
  {
  }

  lemma HighName(name: seq<byte>)
    ensures High(name) == High(BaseOf(name)) + High(ExtOf(name))
  {
    SplitName(name);
    HighConcat(BaseOf(name), [DOT] + ExtOf(name));
    HighConcat([DOT], ExtOf(name));
    assert High([DOT]) == 0;
  }

  /** The decoded name has twice as many non-ASCII bytes as the original. */
  lemma HighDecoded(name: seq<byte>)
    requires To83(name).Some?
    ensures High(Decode(To83(name).value)) == 2 * High(name)
  {
    var base, ext := Half(BaseOf(name), 8), Half(ExtOf(name), 3);
    DecodedParts(name);
    HighHalf(BaseOf(name), 8);
    HighHalf(ExtOf(name), 3);
    HighConcat(DecodeHalf(base), if TrimLen(ext) > 0 then [DOT] + DecodeHalf(ext) else []);
    HighConcat([DOT], DecodeHalf(ext));
    assert High([DOT]) == 0;
    HighName(name);
  }

  /** Length of the decoded form of an ASCII name. */
  lemma AsciiDecoded(name: seq<byte>)
    requires To83(name).Some? && High(name) == 0
    ensures var n, e := TrimLen(Half(BaseOf(name), 8)), TrimLen(Half(ExtOf(name), 3));
      |Decode(To83(name).value)| == n + (if e > 0 then 1 + e else 0)
  {
    HighName(name);
    DecodedParts(name);
    AsciiHalf(BaseOf(name), 8);
    AsciiHalf(ExtOf(name), 3);
  }

  lemma LowerName(name: seq<byte>)
    ensures LowerAll(name) == LowerAll(BaseOf(name)) +
      if LastDot(name).Some? then [DOT] + LowerAll(ExtOf(name)) else []
  {
    SplitName(name);
    LowerConcat(BaseOf(name), [DOT] + ExtOf(name));
    LowerConcat([DOT], ExtOf(name));
    assert LowerAll([DOT]) == [DOT];
  }

  /** The UTF-8 form of one byte taken as a character code. */
  function OfCode(b: byte): seq<byte> {
    if b < 0x80 then [b] else if b < 0xC0 then [0xC2, b] else [0xC3, b - 0x40]
  }

  function OfCodes(s: seq<byte>): seq<byte> { if s == [] then [] else OfCode(s[0]) + OfCodes(s[1..]) }

  lemma {:induction false} Latin1IsCodes(s: seq<byte>)
    ensures Latin1(s) == OfCodes(s)
  {
    if s != [] {
      Latin1IsCodes(s[1..]);
    }
  }

  /** The name of a record any system wrote: base and extension, each padded with spaces,
      their bytes taken as character codes, ASCII letters in lower case. */
  lemma PackedDecodes(base: seq<byte>, ext: seq<byte>)
    requires |base| <= 8 && |ext| <= 3 && (base != [] ==> base[|base| - 1] != SPACE)
    requires ext != [] ==> ext[|ext| - 1] != SPACE
    ensures Decode(base + Spaces(8 - |base|) + (ext + Spaces(3 - |ext|))) ==
      OfCodes(LowerAll(base)) + if ext == [] then [] else [DOT] + OfCodes(LowerAll(ext))
  {
    hide DecodeHalf;
    var a, b := base + Spaces(8 - |base|), ext + Spaces(3 - |ext|);
    assert (a + b)[..8] == a && (a + b)[8..] == b;
    PaddedDecodes(base, 8 - |base|);
    PaddedDecodes(ext, 3 - |ext|);
  }

  lemma PaddedDecodes(part: seq<byte>, n: nat)
    requires part != [] ==> part[|part| - 1] != SPACE
    ensures TrimLen(part + Spaces(n)) == |part| && DecodeHalf(part + Spaces(n)) == OfCodes(LowerAll(part))
  {
    hide TrimLen, Latin1;
    TrimPart(part, n);
    assert (part + Spaces(n))[..|part|] == part;
    Latin1IsCodes(LowerAll(part));
  }

  lemma TrimPart(part: seq<byte>, n: nat)
    requires part != [] ==> part[|part| - 1] != SPACE
    ensures TrimLen(part + Spaces(n)) == |part|
  {
    hide TrimLen;
    var half := part + Spaces(n);
    assert forall i :: |part| <= i < |half| ==> half[i] == SPACE;
    assert part != [] ==> half[|part| - 1] == part[|part| - 1];
  }

  lemma CleanDecodes(name: seq<byte>)
    requires To83(name).Some? && Clean(name)
    ensures Decode(To83(name).value) == LowerAll(name)
  {
    CleanHalves(name);
    DecodedParts(name);
    LowerName(name);
  }

  lemma CleanHalves(name: seq<byte>)
    requires To83(name).Some? && Clean(name)
    ensures var base, ext := BaseOf(name), ExtOf(name);
      && DecodeHalf(Half(base, 8)) == LowerAll(base) && DecodeHalf(Half(ext, 3)) == LowerAll(ext)
      && TrimLen(Half(ext, 3)) == |ext| && (LastDot(name).Some? <==> |ext| > 0)
  {
    HighZero(name);
    HighName(name);
    SplitName(name);
    TrimHalf(BaseOf(name), 8);
    TrimHalf(ExtOf(name), 3);
    AsciiHalf(BaseOf(name), 8);
    AsciiHalf(ExtOf(name), 3);
  }

  /** An ASCII name that loses no byte in packing is clean. */
  lemma NothingTrimmed(name: seq<byte>)
    requires To83(name).Some? && High(name) == 0 && |Decode(To83(name).value)| == |name|
    ensures Clean(name)
  {
    AsciiDecoded(name);
    TrimHalf(BaseOf(name), 8);
    TrimHalf(ExtOf(name), 3);
    SplitName(name);
    HighZero(name);
  }

  lemma MatchIsClean(name: seq<byte>)
    requires To83(name).Some? && NameMatches(To83(name).value, name)
    ensures Clean(name)
  {
    var d := Decode(To83(name).value);
    HighDecoded(name);
    HighLower(d);
    HighLower(name);
    assert |LowerAll(d)| == |d| && |LowerAll(name)| == |name|;
    NothingTrimmed(name);
  }

  /** A packed name matches the name it was made from exactly when that name is clean. */
  lemma MatchesItself(name: seq<byte>)
    requires To83(name).Some?
    ensures NameMatches(To83(name).value, name) <==> Clean(name)
  {
    if Clean(name) {
      CleanDecodes(name);
      LowerUpper(name);
    }
    if NameMatches(To83(name).value, name) {
      MatchIsClean(name);
    }
  }

  /** "a." is accepted and packed like "a", but is not found under its own name. */
  lemma TrailingDotLost()
    ensures var name: seq<byte> := [0x61, DOT];
      To83(name).Some? && To83(name) == To83([0x61]) && !NameMatches(To83(name).value, name)
  {
    var name: seq<byte> := [0x61, DOT];
    assert BaseOf(name) == [0x61] && ExtOf(name) == [];
    MatchesItself(name);
  }

  /** Two clean names pack to the same bytes exactly when they are equal ignoring case. */
  lemma PackedEqual(a: seq<byte>, b: seq<byte>)
    requires To83(a).Some? && To83(b).Some? && Clean(a) && Clean(b)
    ensures To83(a) == To83(b) <==> EqIgnoreCase(a, b)
  {
    if EqIgnoreCase(a, b) {
      SameParts(a, b);
      SameHalves(a, b);
    } else {
      CleanDecodes(a);
      CleanDecodes(b);
    }
  }

  lemma SameHalves(a: seq<byte>, b: seq<byte>)
    requires UpperAll(BaseOf(a)) == UpperAll(BaseOf(b)) && UpperAll(ExtOf(a)) == UpperAll(ExtOf(b))
    ensures To83(a) == To83(b)
  {
    assert |UpperAll(BaseOf(a))| == |BaseOf(a)| && |UpperAll(ExtOf(a))| == |ExtOf(a)|;
    assert |UpperAll(BaseOf(b))| == |BaseOf(b)| && |UpperAll(ExtOf(b))| == |ExtOf(b)|;
  }

  lemma SameBytes(a: seq<byte>, b: seq<byte>)
    requires EqIgnoreCase(a, b)
    ensures |a| == |b|
    ensures forall i :: 0 <= i < |a| ==> Upper(a[i]) == Upper(b[i]) && (a[i] == DOT <==> b[i] == DOT)
  {
    assert |LowerAll(a)| == |LowerAll(b)|;
    forall i | 0 <= i < |a| ensures Upper(a[i]) == Upper(b[i]) && (a[i] == DOT <==> b[i] == DOT) {
      assert LowerAll(a)[i] == LowerAll(b)[i];
    }
  }

  lemma SameParts(a: seq<byte>, b: seq<byte>)
    requires EqIgnoreCase(a, b)
    ensures LastDot(a) == LastDot(b)
    ensures UpperAll(BaseOf(a)) == UpperAll(BaseOf(b)) && UpperAll(ExtOf(a)) == UpperAll(ExtOf(b))
  {
    hide LastDot, EqIgnoreCase, LowerAll, Upper;
    SameBytes(a, b);
  }
}
