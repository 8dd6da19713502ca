/** `unicodeToUtf8` and `utf8ToUnicodeCodePoints`: the byte layout of
    section 3 of RFC 3629, without its surrogate and upper-bound checks. */
module Utf8 {
  import opened Bytes
  import Slices

  /** The values the decoder can produce: at most 21 significant bits. */
  type CodePoint = x: int | 0 <= x <= 0x1F_FFFF

  /** Number of bytes `unicodeToUtf8` emits for one code point. */
  function EncodedLength(cp: CodePoint): nat
  {
    if cp <= 0x7F then 1 else if cp <= 0x7FF then 2 else if cp <= 0xFFFF then 3 else 4
  }

  /** The bytes of one code point: a lead byte carrying the high bits and
      continuation bytes `10xxxxxx` carrying six bits each. */
  function EncodeOne(cp: CodePoint): (r: seq<Byte>)
    ensures |r| == EncodedLength(cp)
    ensures forall i :: 1 <= i < |r| ==> 0x80 <= r[i] < 0xC0
  {
    if cp <= 0x7F then [cp]
    else if cp <= 0x7FF then [0xC0 + cp / 0x40, 0x80 + cp % 0x40]
    else if cp <= 0xFFFF then [0xE0 + cp / 0x1000, 0x80 + (cp / 0x40) % 0x40, 0x80 + cp % 0x40]
    else [0xF0 + cp / 0x4_0000, 0x80 + (cp / 0x1000) % 0x40, 0x80 + (cp / 0x40) % 0x40, 0x80 + cp % 0x40]
  }

  /** The whole encoding: the code points' bytes one after the other. */
  function Encode(cps: seq<CodePoint>): seq<Byte>
  {
    if cps == [] then [] else EncodeOne(cps[0]) + Encode(cps[1..])
  }

  /** How many bytes the decoder consumes for lead byte `c`; 0 for the bytes
      none of its branches accepts (continuation bytes and 0xF8..0xFF), after
      which the source pushes an uninitialised value. */
  function LeadLength(c: Byte): nat
  {
    if c < 0x80 then 1
    else if 0xC0 <= c < 0xE0 then 2
    else if 0xE0 <= c < 0xF0 then 3
    else if 0xF0 <= c < 0xF8 then 4
    else 0
  }

  /** Input the decoder handles without reading past the string: every lead
      byte is accepted and is followed by all of its continuation bytes. */
  predicate Decodable(b: seq<Byte>)
  {
    b == [] || (0 < LeadLength(b[0]) <= |b| && Decodable(b[LeadLength(b[0])..]))
  }

  /** The low bits `c & (m - 1)` of a byte, for a power of two `m`. */
  function Payload(c: Byte, m: nat): nat
    requires m > 0
  {
    c as int % m
  }

  /** The code point of the sequence starting at `b[0]`: the lead byte's
      payload bits followed by six bits of each continuation byte (the
      continuation bytes' tags are masked off, not checked). */
  function DecodeOne(b: seq<Byte>): CodePoint
    requires |b| > 0 && 0 < LeadLength(b[0]) <= |b|
  {
    match LeadLength(b[0])
    case 1 => b[0]
    case 2 => Payload(b[0], 0x20) * 0x40 + Payload(b[1], 0x40)
    case 3 => Payload(b[0], 0x10) * 0x1000 + Payload(b[1], 0x40) * 0x40 + Payload(b[2], 0x40)
    case 4 => Payload(b[0], 0x08) * 0x4_0000 + Payload(b[1], 0x40) * 0x1000 + Payload(b[2], 0x40) * 0x40 + Payload(b[3], 0x40)
  }

  function Decode(b: seq<Byte>): seq<CodePoint>
    requires Decodable(b)
  {
    if b == [] then [] else [DecodeOne(b)] + Decode(b[LeadLength(b[0])..])
  }

  /** `unicodeToUtf8`. */
  method UnicodeToUtf8(cps: seq<CodePoint>) returns (result: seq<Byte>)
    ensures result == Encode(cps)
    ensures Decodable(result) && Decode(result) == cps
  {
    result := [];
    for i := 0 to |cps|
      invariant result + Encode(cps[i..]) == Encode(cps)
    {
      EncodeFrom(cps, i);
      Slices.AppendAssoc(result, EncodeOne(cps[i]), Encode(cps[i + 1..]));
      result := result + EncodeOne(cps[i]);
    }
    assert cps[|cps|..] == [];
    DecodeEncode(cps);
  }

  /** `utf8ToUnicodeCodePoints` on input it handles. */
  method Utf8ToUnicodeCodePoints(b: seq<Byte>) returns (codePoints: seq<CodePoint>)
    requires Decodable(b)
    ensures codePoints == Decode(b)
  {
    codePoints := [];
    var i := 0;
    while i < |b|
      invariant 0 <= i <= |b|
      invariant Decodable(b[i..])
      invariant codePoints + Decode(b[i..]) == Decode(b)
      decreases |b| - i
    {
      var n := LeadLength(b[i]);
      ghost var t := b[i..];
      DecodeFirst(t);
      assert t[0] == b[i] && t[n..] == b[i + n..];
      var cp := DecodeOne(b[i..]);
      Slices.AppendAssoc(codePoints, [cp], Decode(t[n..]));
      codePoints := codePoints + [cp];
      i := i + n;
    }
  }

  /** The encoding from index `i` on: the bytes of `cps[i]`, then the rest. */
  lemma {:induction false} EncodeFrom(cps: seq<CodePoint>, i: nat)
    requires i < |cps|
    ensures Encode(cps[i..]) == EncodeOne(cps[i]) + Encode(cps[i + 1..])
  {
    assert cps[i..][1..] == cps[i + 1..];
  }

  /** Decoding non-empty input: one code point, then the bytes after it. */
  lemma {:induction false} DecodeFirst(t: seq<Byte>)
    requires t != [] && Decodable(t)
    ensures 0 < LeadLength(t[0]) <= |t| && Decodable(t[LeadLength(t[0])..])
    ensures Decode(t) == [DecodeOne(t)] + Decode(t[LeadLength(t[0])..])
  {
  }

  /** Decoding the bytes of one code point, whatever follows them, gives
      that code point back and consumes exactly its bytes. */
  lemma DecodeEncodeOne(cp: CodePoint, rest: seq<Byte>)
    ensures var b := EncodeOne(cp) + rest;
      LeadLength(b[0]) == EncodedLength(cp) && DecodeOne(b) == cp
  {
    var b := EncodeOne(cp) + rest;
    if cp <= 0x7F {
    } else if cp <= 0x7FF {
      DecodeTwo(cp, b);
    } else if cp <= 0xFFFF {
      DecodeThree(cp, b);
    } else {
      DecodeFour(cp, b);
    }
  }

  lemma DecodeTwo(cp: CodePoint, b: seq<Byte>)
    requires 0x7F < cp <= 0x7FF
    requires |b| >= 2 && b[0] == 0xC0 + cp / 0x40 && b[1] == 0x80 + cp % 0x40
    ensures LeadLength(b[0]) == 2 && DecodeOne(b) == cp
  {
    assert Payload(b[0], 0x20) == cp / 0x40;
    assert Payload(b[1], 0x40) == cp % 0x40;
  }

  lemma DecodeThree(cp: CodePoint, b: seq<Byte>)
    requires 0x7FF < cp <= 0xFFFF
    requires |b| >= 3 && b[0] == 0xE0 + cp / 0x1000
    requires b[1] == 0x80 + (cp / 0x40) % 0x40 && b[2] == 0x80 + cp % 0x40
    ensures LeadLength(b[0]) == 3 && DecodeOne(b) == cp
  {
    DigitsOf(cp);
    assert Payload(b[0], 0x10) == cp / 0x1000;
    assert Payload(b[1], 0x40) == (cp / 0x40) % 0x40;
    assert Payload(b[2], 0x40) == cp % 0x40;
  }

  lemma DecodeFour(cp: CodePoint, b: seq<Byte>)
    requires 0xFFFF < cp
    requires |b| >= 4 && b[0] == 0xF0 + cp / 0x4_0000 && b[1] == 0x80 + (cp / 0x1000) % 0x40
    requires b[2] == 0x80 + (cp / 0x40) % 0x40 && b[3] == 0x80 + cp % 0x40
    ensures LeadLength(b[0]) == 4 && DecodeOne(b) == cp
  {
    DigitsOf(cp);
    assert Payload(b[0], 0x08) == cp / 0x4_0000;
    assert Payload(b[1], 0x40) == (cp / 0x1000) % 0x40;
    assert Payload(b[2], 0x40) == (cp / 0x40) % 0x40;
    assert Payload(b[3], 0x40) == cp % 0x40;
  }

  /** A code point split into six-bit groups. */
  lemma DigitsOf(cp: nat)
    ensures cp / 0x40 == (cp / 0x1000) * 0x40 + (cp / 0x40) % 0x40
    ensures cp / 0x1000 == (cp / 0x4_0000) * 0x40 + (cp / 0x1000) % 0x40
    ensures cp == (cp / 0x40) * 0x40 + cp % 0x40
  {
    var q := cp / 0x40;
    assert q / 0x40 == cp / 0x1000;
    var r := cp / 0x1000;
    assert r / 0x40 == cp / 0x4_0000;
  }

  /** Round trip: `utf8ToUnicodeCodePoints(unicodeToUtf8(cps)) == cps`. */
  lemma {:induction false} DecodeEncode(cps: seq<CodePoint>)
    ensures Decodable(Encode(cps)) && Decode(Encode(cps)) == cps
  {
    if cps != [] {
      var b := Encode(cps);
      DecodeEncodeOne(cps[0], Encode(cps[1..]));
      DecodeEncode(cps[1..]);
      assert b[LeadLength(b[0])..] == Encode(cps[1..]);
    }
  }

  /** ASCII text is its own encoding. */
  lemma {:induction false} AsciiEncodesToItself(cps: seq<CodePoint>)
    requires forall i :: 0 <= i < |cps| ==> cps[i] <= 0x7F
    ensures Encode(cps) == cps
  {
    if cps != [] {
      AsciiEncodesToItself(cps[1..]);
    }
  }

  /** The encoding of a concatenation is the concatenation of encodings, so
      every code point's bytes stay together and in order. */
  lemma {:induction false} EncodeAppend(a: seq<CodePoint>, b: seq<CodePoint>)
    ensures Encode(a + b) == Encode(a) + Encode(b)
  {
    if a == [] {
      assert a + b == b;
    } else {
      assert (a + b)[0] == a[0];
      assert (a + b)[1..] == a[1..] + b;
      EncodeAppend(a[1..], b);
    }
  }
}
