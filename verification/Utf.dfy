/**
  The text conversions of efi/efimisc.c between UTF-8 (section 3 of RFC 3629)
  and UTF-16 (section 2.1 of RFC 2781).
 */
module Utf {
  import opened Wrappers

  type CodePoint = bv32

  // ----- the encodings

  predicate Scalar(cp: CodePoint) {
    cp <= 0x10ffff && !(0xd800 <= cp <= 0xdfff)
  }

  /** A byte that continues a character: its six low bits. */
  function Continuation(x: bv32): bv8 {
    ((x & 0x3f) | 0x80) as bv8
  }

  function LeadOfTwo(x: bv32): bv8
    requires x <= 0x7ff
  {
    ((x >> 6) | 0xc0) as bv8
  }

  function Utf8(cp: CodePoint): (s: seq<bv8>)
    requires cp <= 0x10ffff
    ensures 1 <= |s| <= 4
  {
    if cp <= 0x7f then [cp as bv8]
    else if cp <= 0x7ff then [LeadOfTwo(cp), Continuation(cp)]
    else if cp <= 0xffff then [((cp >> 12) | 0xe0) as bv8, Continuation(cp >> 6), Continuation(cp)]
    else [((cp >> 18) | 0xf0) as bv8, Continuation(cp >> 12), Continuation(cp >> 6), Continuation(cp)]
  }

  function HighSurrogate(x: bv32): bv16
    requires x <= 0xfffff
  {
    ((x >> 10) + 0xd800) as bv16
  }

  function LowSurrogate(x: bv32): bv16 {
    ((x & 0x3ff) + 0xdc00) as bv16
  }

  function Utf16(cp: CodePoint): (s: seq<bv16>)
    requires cp <= 0x10ffff
    ensures 1 <= |s| <= 2
  {
    if cp <= 0xffff then [cp as bv16] else [HighSurrogate(cp - 0x10000), LowSurrogate(cp - 0x10000)]
  }

  ghost predicate Text(cps: seq<CodePoint>) {
    forall i :: 0 <= i < |cps| ==> Scalar(cps[i])
  }

  ghost function Utf8Text(cps: seq<CodePoint>): seq<bv8>
    requires Text(cps)
  {
    if cps == [] then [] else Utf8(cps[0]) + Utf8Text(cps[1..])
  }

  ghost function Utf16Text(cps: seq<CodePoint>): seq<bv16>
    requires Text(cps)
  {
    if cps == [] then [] else Utf16(cps[0]) + Utf16Text(cps[1..])
  }

  function TenBitsEach(h: bv16, l: bv16): CodePoint {
    0x10000 + ((((h & 0x3ff) as bv32) << 10) | ((l & 0x3ff) as bv32))
  }

  /** UTF-16 read by its definition: a unit that is no surrogate is a character, and so is a high surrogate followed
      by a low one, with ten bits of it in each. */
  function ReadUtf16(s: seq<bv16>): Option<seq<CodePoint>> {
    if s == [] then Some([])
    else if s[0] < 0xd800 || s[0] > 0xdfff then
      var r := ReadUtf16(s[1..]);
      if r.Some? then Some([s[0] as bv32] + r.value) else None
    else if |s| >= 2 && s[0] <= 0xdbff && 0xdc00 <= s[1] <= 0xdfff then
      var r := ReadUtf16(s[2..]);
      if r.Some? then Some([TenBitsEach(s[0], s[1])] + r.value) else None
    else None
  }

  lemma HighBits(a: bv32)
    requires a <= 0x3ff
    ensures var h := (a + 0xd800) as bv16; 0xd800 <= h <= 0xdbff && (h & 0x3ff) as bv32 == a
  {
  }

  lemma LowBits(a: bv32)
    requires a <= 0x3ff
    ensures var l := (a + 0xdc00) as bv16; 0xdc00 <= l <= 0xdfff && (l & 0x3ff) as bv32 == a
  {
  }

  lemma TwentyBits(x: bv32)
    requires x <= 0xfffff
    ensures x >> 10 <= 0x3ff && x & 0x3ff <= 0x3ff && ((x >> 10) << 10) | (x & 0x3ff) == x
  {
  }

  lemma SurrogatesMean(cp: CodePoint)
    requires 0xffff < cp <= 0x10ffff
    ensures cp - 0x10000 <= 0xfffff
    ensures var h, l := HighSurrogate(cp - 0x10000), LowSurrogate(cp - 0x10000);
      0xd800 <= h <= 0xdbff && 0xdc00 <= l <= 0xdfff && TenBitsEach(h, l) == cp
  {
    var x := cp - 0x10000;
    assert x <= 0xfffff;
    TwentyBits(x);
    HighBits(x >> 10);
    LowBits(x & 0x3ff);
  }

  /** Every text is read back from its UTF-16 encoding. */
  lemma {:induction false} Utf16ReadsBack(cps: seq<CodePoint>)
    requires Text(cps)
    ensures ReadUtf16(Utf16Text(cps)) == Some(cps)
  {
    if cps != [] {
      var cp, rest := cps[0], Utf16Text(cps[1..]);
      Utf16ReadsBack(cps[1..]);
      OneReadsBack(cp, rest);
      assert [cp] + cps[1..] == cps;
    }
  }

  lemma OneReadsBack(cp: CodePoint, rest: seq<bv16>)
    requires Scalar(cp)
    ensures ReadUtf16(Utf16(cp) + rest) ==
              if ReadUtf16(rest).Some? then Some([cp] + ReadUtf16(rest).value) else None
  {
    if cp > 0xffff {
      PairReadsBack(cp, rest);
    } else {
      hide Utf16, ReadUtf16, Scalar;
      var u := UnitOf(cp);
      UnitReadsBack(u, rest);
    }
  }

  lemma UnitReadsBack(u: bv16, rest: seq<bv16>)
    requires u < 0xd800 || u > 0xdfff
    ensures ReadUtf16(Utf16(u as bv32) + rest) ==
              if ReadUtf16(rest).Some? then Some([u as bv32] + ReadUtf16(rest).value) else None
  {
    hide ReadUtf16, HighSurrogate, LowSurrogate;
    ReadsUnit(u, rest);
  }

  lemma PairReadsBack(cp: CodePoint, rest: seq<bv16>)
    requires 0xffff < cp <= 0x10ffff
    ensures ReadUtf16(Utf16(cp) + rest) ==
              if ReadUtf16(rest).Some? then Some([cp] + ReadUtf16(rest).value) else None
  {
    hide ReadUtf16, HighSurrogate, LowSurrogate, TenBitsEach;
    SurrogatesMean(cp);
    ReadsPair(HighSurrogate(cp - 0x10000), LowSurrogate(cp - 0x10000), rest);
  }

  lemma ReadsUnit(u: bv16, rest: seq<bv16>)
    requires u < 0xd800 || u > 0xdfff
    ensures ReadUtf16([u] + rest) ==
              if ReadUtf16(rest).Some? then Some([u as bv32] + ReadUtf16(rest).value) else None
  {
    assert ([u] + rest)[1..] == rest;
  }

  lemma ReadsPair(h: bv16, l: bv16, rest: seq<bv16>)
    requires 0xd800 <= h <= 0xdbff && 0xdc00 <= l <= 0xdfff
    ensures ReadUtf16([h, l] + rest) ==
              if ReadUtf16(rest).Some? then Some([TenBitsEach(h, l)] + ReadUtf16(rest).value) else None
  {
    hide TenBitsEach;
    assert ([h, l] + rest)[2..] == rest;
  }

  lemma UnitOf(cp: CodePoint) returns (u: bv16)
    requires Scalar(cp) && cp <= 0xffff
    ensures (u < 0xd800 || u > 0xdfff) && u as bv32 == cp
  {
    u := cp as bv16;
  }

  // ----- the code's reading of one character

  /** `grub_utf8_char_len`: a table of two-bit entries packed into a constant. */
  function CharLen(ch: bv8): (n: nat)
    ensures 1 <= n <= 4
  {
    var c := ch as bv32;
    ((((0xe5000000 as bv32) >> ((c >> 3) & 0x1e)) & 3) + 1) as int
  }

  /** UTF8_SHIFT_AND_MASK */
  function ShiftIn(unicode: bv32, byte: bv8): bv32 {
    (unicode << 6) | ((byte & 0x3f) as bv32)
  }

  /** `grub_utf8_to_utf32` */
  function ToUtf32(s: seq<bv8>): CodePoint {
    if |s| == 1 then s[0] as bv32
    else if |s| == 2 then ShiftIn((s[0] & 0x1f) as bv32, s[1])
    else if |s| == 3 then ShiftIn(ShiftIn((s[0] & 0x0f) as bv32, s[1]), s[2])
    else if |s| == 4 then ShiftIn(ShiftIn(ShiftIn((s[0] & 0x07) as bv32, s[1]), s[2]), s[3])
    else 0xffff
  }

  lemma CharLenMeans(ch: bv8)
    ensures CharLen(ch) == if ch < 0xc0 then 1 else if ch < 0xe0 then 2 else if ch < 0xf0 then 3 else 4
  {
  }

  /** A continuation byte puts back the six bits it took. */
  lemma Rejoin(x: bv32)
    ensures ShiftIn(x >> 6, Continuation(x)) == x
  {
  }

  lemma LeadBits(cp: CodePoint)
    ensures 0x7f < cp <= 0x7ff ==>
              var a := ((cp >> 6) | 0xc0) as bv8; 0xc0 <= a < 0xe0 && (a & 0x1f) as bv32 == cp >> 6
    ensures 0x7ff < cp <= 0xffff ==>
              var a := ((cp >> 12) | 0xe0) as bv8; 0xe0 <= a < 0xf0 && (a & 0x0f) as bv32 == (cp >> 6) >> 6
    ensures 0xffff < cp <= 0x10ffff ==>
              var a := ((cp >> 18) | 0xf0) as bv8; 0xf0 <= a && (a & 0x07) as bv32 == ((cp >> 6) >> 6) >> 6
    ensures cp >> 12 == (cp >> 6) >> 6
  {
  }

  lemma ReadsBack1(cp: CodePoint)
    requires cp <= 0x7f
    ensures CharLen(Utf8(cp)[0]) == |Utf8(cp)| && ToUtf32(Utf8(cp)) == cp
  {
    CharLenMeans(Utf8(cp)[0]);
    hide CharLen;
  }

  lemma ReadsBack2(cp: CodePoint, s: seq<bv8>)
    requires 0x7f < cp <= 0x7ff && s == Utf8(cp)
    ensures CharLen(s[0]) == |s| && ToUtf32(s) == cp
  {
    LeadBits(cp);
    CharLenMeans(s[0]);
    Rejoin(cp);
    hide CharLen, ShiftIn, Continuation;
  }

  lemma Joined3(a: bv8, b: bv8, c: bv8, x: bv32, y: bv32, z: bv32)
    requires 0xe0 <= a < 0xf0 && (a & 0x0f) as bv32 == z && ShiftIn(z, b) == y && ShiftIn(y, c) == x
    ensures CharLen(a) == 3 && ToUtf32([a, b, c]) == x
  {
    CharLenMeans(a);
    hide CharLen, ShiftIn;
  }

  lemma Joined4(a: bv8, b: bv8, c: bv8, d: bv8, x: bv32, y: bv32, z: bv32, w: bv32)
    requires 0xf0 <= a && (a & 0x07) as bv32 == w && ShiftIn(w, b) == z && ShiftIn(z, c) == y && ShiftIn(y, d) == x
    ensures CharLen(a) == 4 && ToUtf32([a, b, c, d]) == x
  {
    CharLenMeans(a);
    hide CharLen, ShiftIn;
  }

  /** The code reads back what the encoding writes. */
  lemma DecodeOne(cp: CodePoint)
    requires cp <= 0x10ffff
    ensures CharLen(Utf8(cp)[0]) == |Utf8(cp)| && ToUtf32(Utf8(cp)) == cp
  {
    hide CharLen, ShiftIn, Continuation, ToUtf32;
    if cp <= 0x7f {
      ReadsBack1(cp);
    } else if cp <= 0x7ff {
      ReadsBack2(cp, Utf8(cp));
    } else {
      LeadBits(cp);
      Rejoin(cp);
      Rejoin(cp >> 6);
      if cp <= 0xffff {
        Joined3(((cp >> 12) | 0xe0) as bv8, Continuation(cp >> 6), Continuation(cp), cp, cp >> 6, (cp >> 6) >> 6);
      } else {
        Rejoin((cp >> 6) >> 6);
        Joined4(((cp >> 18) | 0xf0) as bv8, Continuation(cp >> 12), Continuation(cp >> 6), Continuation(cp),
                cp, cp >> 6, (cp >> 6) >> 6, ((cp >> 6) >> 6) >> 6);
      }
    }
  }

  /** Reads the character at `i`, which is the first of the text `rest`. */
  method ReadChar(src: seq<bv8>, i: nat, ghost rest: seq<CodePoint>) returns (codepoint: CodePoint, len: nat)
    requires i < |src| && Text(rest) && src[i..] == Utf8Text(rest)
    ensures rest != [] && codepoint == rest[0] && i + len <= |src| && src[i + len..] == Utf8Text(rest[1..])
  {
    hide CharLen, ToUtf32, Utf8;
    DecodeOne(rest[0]);
    assert src[i] == src[i..][0] == Utf8(rest[0])[0];
    len := CharLen(src[i]);
    assert src[i..i + len] == src[i..][..len] == Utf8(rest[0]);
    codepoint := ToUtf32(src[i..i + len]);
    assert src[i + len..] == src[i..][len..];
  }

  /** Writes one character from `j` on, as one unit or as a surrogate pair. */
  method WriteUnits(dst: array<bv16>, j: nat, cp: CodePoint) returns (k: nat)
    requires cp <= 0x10ffff && j + |Utf16(cp)| <= dst.Length
    modifies dst
    ensures k == j + |Utf16(cp)| && dst[..k] == old(dst[..j]) + Utf16(cp)
    ensures forall i :: k <= i < dst.Length ==> dst[i] == old(dst[i])
  {
    hide HighSurrogate, LowSurrogate;
    k := j;
    if cp <= 0xffff {
      dst[k] := cp as bv16;
      k := k + 1;
    } else {
      var codepoint := cp - 0x10000;
      dst[k] := HighSurrogate(codepoint);
      k := k + 1;
      dst[k] := LowSurrogate(codepoint);
      k := k + 1;
    }
  }

  /** `grub_utf8_to_utf16`: any well-formed text is converted, if the destination has room for it, and closed by
      a zero unit if there is room for that too. `cps` is the text that `src` encodes. */
  method Utf8ToUtf16(src: seq<bv8>, dst: array<bv16>, ghost cps: seq<CodePoint>)
    requires Text(cps) && src == Utf8Text(cps) && |Utf16Text(cps)| <= dst.Length
    modifies dst
    ensures dst[..|Utf16Text(cps)|] == Utf16Text(cps)
    ensures |Utf16Text(cps)| < dst.Length ==> dst[|Utf16Text(cps)|] == 0
    ensures forall i :: |Utf16Text(cps)| < i < dst.Length ==> dst[i] == old(dst[i])
  {
    hide Utf8, Utf16;
    ghost var target, rest := Utf16Text(cps), cps;
    var i: nat, j: nat := 0, 0;
    while i < |src| && j < dst.Length
      invariant i <= |src| && j <= |target| && Text(rest) && src[i..] == Utf8Text(rest)
      invariant target == dst[..j] + Utf16Text(rest)
      invariant forall k :: j <= k < dst.Length ==> dst[k] == old(dst[k])
      decreases |rest|
    {
      var codepoint, len := ReadChar(src, i, rest);
      ghost var tail := Utf16Text(rest[1..]);
      ghost var front := dst[..j];
      j := WriteUnits(dst, j, codepoint);
      assert front + (Utf16(codepoint) + tail) == (front + Utf16(codepoint)) + tail;
      rest := rest[1..];
      i := i + len;
    }
    assert rest == [];
    if j < dst.Length {
      dst[j] := 0;
    }
  }

  // ----- the other way

  predicate Surrogate(u: bv16) {
    0xd800 <= u <= 0xdfff
  }

  /** The code's first byte of three: the shift by 16 leaves nothing of a 16-bit unit. */
  function LeadOfThree(x: bv32): bv8
    requires x <= 0xffff
  {
    ((x >> 16) | 0xe0) as bv8
  }

  /** What `grub_utf16_to_utf8` writes for a unit that is no surrogate. */
  function UnitBytes(u: bv16): (s: seq<bv8>)
    ensures 1 <= |s| <= 3
  {
    var code := u as bv32;
    if code <= 0x7f then [code as bv8]
    else if code <= 0x7ff then [LeadOfTwo(code), Continuation(code)]
    else [LeadOfThree(code), Continuation(code >> 12), Continuation(code)]
  }

  /** That is the UTF-8 encoding of the unit if and only if it is at most 0x7FF. */
  lemma UnitBytesIff(u: bv16)
    ensures UnitBytes(u) == Utf8(u as CodePoint) <==> u <= 0x7ff
  {
    var code := u as bv32;
    if u > 0x7ff {
      assert UnitBytes(u)[0] == 0xe0;
      assert Utf8(code)[0] == 0xe0 ==> code <= 0xfff && Utf8(code)[1] != UnitBytes(u)[1];
    }
  }

  /** The euro sign comes out as E0 82 AC, and not as E2 82 AC. */
  lemma EuroSign()
    ensures UnitBytes(0x20ac) == [0xe0, 0x82, 0xac] && Utf8(0x20ac) == [0xe2, 0x82, 0xac]
  {
  }

  /** The units as code points. */
  ghost function Wide(us: seq<bv16>): (cps: seq<CodePoint>)
    ensures |cps| == |us|
  {
    if us == [] then [] else [us[0] as CodePoint] + Wide(us[1..])
  }

  ghost function AllBytes(us: seq<bv16>): seq<bv8> {
    if us == [] then [] else UnitBytes(us[0]) + AllBytes(us[1..])
  }

  lemma AllBytesFirst(us: seq<bv16>)
    requires us != []
    ensures AllBytes(us) == UnitBytes(us[0]) + AllBytes(us[1..])
  {
  }

  lemma NoBytes(us: seq<bv16>)
    requires us == []
    ensures AllBytes(us) == []
  {
  }

  lemma {:induction false} AllBytesConcat(us: seq<bv16>, vs: seq<bv16>)
    ensures AllBytes(us + vs) == AllBytes(us) + AllBytes(vs)
  {
    hide *;
    if us == [] {
      NoBytes(us);
      assert us + vs == vs;
    } else {
      AllBytesConcat(us[1..], vs);
      assert (us + vs)[1..] == us[1..] + vs;
      AllBytesFirst(us);
      AllBytesFirst(us + vs);
      Regrouped(UnitBytes(us[0]), AllBytes(us[1..]), AllBytes(vs));
    }
  }

  lemma Regrouped(a: seq<bv8>, b: seq<bv8>, c: seq<bv8>)
    ensures a + (b + c) == (a + b) + c
  {
  }

  /** What is written for a unit behind the high surrogate `high`. */
  method EncodePair(u: bv16, high: bv32) returns (out: seq<bv8>)
    ensures 1 <= |out| <= 4
  {
    hide *;
    var code := u as bv32;
    if 0xdc00 <= code <= 0xdfff {
      code := ((high - 0xd800) << 12) + (code - 0xdc00) + 0x10000;
      out := [Low(code >> 18) | 0xf0, Continuation(code >> 12), Continuation(code >> 6), Continuation(code)];
    } else {
      out := ['?' as bv8];
    }
  }

  /** What is written for any other unit; a high surrogate is kept for the next turn. */
  method EncodeSingle(u: bv16) returns (out: seq<bv8>, high: bv32)
    ensures |out| <= 3 && (high != 0 ==> out == [] && Surrogate(u))
    ensures !Surrogate(u) ==> out == UnitBytes(u) && high == 0
  {
    hide LeadOfTwo, LeadOfThree, Continuation;
    var code := u as bv32;
    high := 0;
    if code <= 0x7f {
      out := [code as bv8];
    } else if code <= 0x7ff {
      out := [LeadOfTwo(code), Continuation(code)];
    } else if 0xd800 <= code <= 0xdbff {
      out, high := [], code;
    } else if 0xdc00 <= code <= 0xdfff {
      out := ['?' as bv8];
    } else {
      out := [LeadOfThree(code), Continuation(code >> 12), Continuation(code)];
    }
  }

  /** `grub_utf16_to_utf8`; the result is what is written from `dest` on. */
  method Utf16ToUtf8(src: seq<bv16>) returns (dest: seq<bv8>)
    ensures |dest| <= 3 * |src|
    ensures (forall i :: 0 <= i < |src| ==> !Surrogate(src[i])) ==> dest == AllBytes(src)
  {
    hide Surrogate, UnitBytes;
    dest := [];
    var high: bv32 := 0;
    var i := 0;
    while i < |src|
      invariant i <= |src| && |dest| + (if high != 0 then 3 else 0) <= 3 * i
      invariant high != 0 ==> i > 0 && Surrogate(src[i - 1])
      invariant (forall k :: 0 <= k < i ==> !Surrogate(src[k])) ==> dest == AllBytes(src[..i])
    {
      AllBytesConcat(src[..i], [src[i]]);
      assert src[..i + 1] == src[..i] + [src[i]] && AllBytes([src[i]]) == UnitBytes(src[i]);
      var out;
      if high != 0 {
        out := EncodePair(src[i], high);
        high := 0;
      } else {
        out, high := EncodeSingle(src[i]);
      }
      dest := dest + out;
      i := i + 1;
    }
    assert src[..i] == src;
  }

  /** Storing a 32-bit value in a byte keeps its low eight bits. */
  function Low(x: bv32): bv8 {
    (x & 0xff) as bv8
  }

  /** The text of a file path node of `len` bytes, in the buffer that is set aside for it: its bytes fit, and so
      does the zero behind them. */
  method NodeText(units: seq<bv16>, len: nat) returns (buf: array<bv8>, n: nat)
    requires len >= 4 && |units| == (len - 4) / 2
    ensures buf.Length == (len - 4) * 2 + 2 && n < buf.Length && buf[n] == 0
    ensures (forall i :: 0 <= i < |units| ==> !Surrogate(units[i])) ==> buf[..n] == AllBytes(units)
  {
    buf := new bv8[(len - 4) * 2 + 2](_ => 0);
    var bytes := Utf16ToUtf8(units);
    n := 0;
    while n < |bytes|
      invariant n <= |bytes| && buf[..n] == bytes[..n]
    {
      buf[n] := bytes[n];
      n := n + 1;
    }
    buf[n] := 0;
    assert bytes[..n] == bytes;
  }

  // ----- round trips

  lemma {:induction false} LowUnitsAreText(us: seq<bv16>)
    requires forall i :: 0 <= i < |us| ==> us[i] <= 0x7ff
    ensures Text(Wide(us)) && AllBytes(us) == Utf8Text(Wide(us)) && Utf16Text(Wide(us)) == us
  {
    if us != [] {
      LowUnitsAreText(us[1..]);
      UnitBytesIff(us[0]);
      var cp := us[0] as CodePoint;
      assert Utf16(cp) == [us[0]] && Scalar(cp);
      hide UnitBytes, Utf8, Utf16, Scalar;
      assert Wide(us)[1..] == Wide(us[1..]);
      assert us == [us[0]] + us[1..];
    }
  }

  /** Units up to 0x7FF come back unchanged from UTF-8. */
  method ThereAndBack(us: seq<bv16>, dst: array<bv16>)
    requires (forall i :: 0 <= i < |us| ==> us[i] <= 0x7ff) && |us| <= dst.Length
    modifies dst
    ensures dst[..|us|] == us
  {
    LowUnitsAreText(us);
    var bytes := Utf16ToUtf8(us);
    Utf8ToUtf16(bytes, dst, Wide(us));
  }

  /** Text up to 0x7FF comes back unchanged from UTF-16. */
  method BackAndThere(bytes: seq<bv8>, us: array<bv16>, n: nat, ghost cps: seq<CodePoint>) returns (back: seq<bv8>)
    requires Text(cps) && (forall i :: 0 <= i < |cps| ==> cps[i] <= 0x7ff) && bytes == Utf8Text(cps)
    requires n == |Utf16Text(cps)| <= us.Length
    modifies us
    ensures back == bytes
  {
    Utf8ToUtf16(bytes, us, cps);
    LowTextIsUnits(cps);
    ghost var units := Utf16Text(cps);
    LowUnitsAreText(units);
    back := Utf16ToUtf8(us[..n]);
  }

  lemma LowIsOneUnit(cp: CodePoint)
    requires cp <= 0x7ff
    ensures |Utf16(cp)| == 1 && Utf16(cp)[0] <= 0x7ff && Utf16(cp)[0] as CodePoint == cp
  {
  }

  lemma WideOfOneMore(u: bv16, us: seq<bv16>)
    ensures Wide([u] + us) == [u as CodePoint] + Wide(us)
  {
    assert ([u] + us)[1..] == us;
  }

  lemma {:induction false} LowTextIsUnits(cps: seq<CodePoint>)
    requires Text(cps) && forall i :: 0 <= i < |cps| ==> cps[i] <= 0x7ff
    ensures var us := Utf16Text(cps);
      |us| == |cps| && (forall i :: 0 <= i < |us| ==> us[i] <= 0x7ff) && Wide(us) == cps
  {
    if cps != [] {
      LowTextIsUnits(cps[1..]);
      LowIsOneUnit(cps[0]);
      var u, us := Utf16(cps[0])[0], Utf16Text(cps[1..]);
      assert Utf16Text(cps) == [u] + us;
      WideOfOneMore(u, us);
      hide *;
      assert cps == [cps[0]] + cps[1..];
    }
  }
}
