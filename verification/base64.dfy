/** `to_base64` and `base64_decode`: the alphabet and '=' padding of
    section 4 of RFC 4648. */
module Base64 {
  import opened Bytes
  import opened Results
  import opened StdMath
  import opened Slices

  /** `base64_chars`, "A".."Z" "a".."z" "0".."9" "+" "/", listed by `CharOf`. */
  const Alphabet: string := seq(64, v requires 0 <= v < 64 => CharOf(v))
  const Pad: char := '='

  /** Six bits, one character of output. */
  type Sextet = x: int | 0 <= x < 64

  /** The character at position `v` of `Alphabet`. */
  function CharOf(v: Sextet): char
  {
    if v < 26 then ('A' as int + v) as char
    else if v < 52 then ('a' as int + (v - 26)) as char
    else if v < 62 then ('0' as int + (v - 52)) as char
    else if v == 62 then '+'
    else '/'
  }

  /** `c` is one of the 64 characters of `Alphabet`. */
  predicate InAlphabet(c: char)
  {
    'A' <= c <= 'Z' || 'a' <= c <= 'z' || '0' <= c <= '9' || c == '+' || c == '/'
  }

  /** `base64_chars.find(c)`: the position of `c` in the alphabet. */
  function IndexOf(c: char): (v: Sextet)
    requires InAlphabet(c)
    ensures CharOf(v) == c
  {
    if 'A' <= c <= 'Z' then c as int - 'A' as int
    else if 'a' <= c <= 'z' then 26 + (c as int - 'a' as int)
    else if '0' <= c <= '9' then 52 + (c as int - '0' as int)
    else if c == '+' then 62
    else 63
  }

  /** The alphabet holds no character twice, so `find` undoes `CharOf`. */
  lemma IndexOfCharOf(v: Sextet)
    ensures InAlphabet(CharOf(v)) && IndexOf(CharOf(v)) == v
  {
  }

  // ---------------------------------------------------------------------
  // Encoding, group by group as RFC 4648 describes it.

  /** Three bytes become four characters. */
  function Group(b0: Byte, b1: Byte, b2: Byte): seq<char>
  {
    [CharOf(b0 / 4), CharOf((b0 % 4) * 16 + b1 / 16), CharOf((b1 % 16) * 4 + b2 / 64), CharOf(b2 % 64)]
  }

  /** The first `g` full groups of `d`, four characters each. */
  function EncodeGroups(d: seq<Byte>, g: nat): (r: seq<char>)
    requires 3 * g <= |d|
    ensures |r| == 4 * g
  {
    if g == 0 then [] else EncodeGroups(d, g - 1) + GroupOf(d, g - 1)
  }

  /** The characters of the full group `h` of `d`. */
  function GroupOf(d: seq<Byte>, h: nat): seq<char>
    requires 3 * h + 3 <= |d|
  {
    Group(d[3 * h], d[3 * h + 1], d[3 * h + 2])
  }

  /** The characters a loop has emitted for the one or two bytes of an
      unfinished group. */
  function Partial(t: seq<Byte>): seq<char>
    requires |t| < 3
  {
    if |t| == 0 then []
    else if |t| == 1 then [CharOf(t[0] / 4)]
    else [CharOf(t[0] / 4), CharOf((t[0] % 4) * 16 + t[1] / 16)]
  }

  /** The last, padded group for one or two remaining bytes. */
  function Tail(t: seq<Byte>): (r: seq<char>)
    requires |t| < 3
    ensures |r| == if |t| == 0 then 0 else 4
  {
    if |t| == 0 then []
    else if |t| == 1 then [CharOf(t[0] / 4), CharOf((t[0] % 4) * 16), Pad, Pad]
    else [CharOf(t[0] / 4), CharOf((t[0] % 4) * 16 + t[1] / 16), CharOf((t[1] % 16) * 4), Pad]
  }

  /** Base64 of `d`: the full groups, then the padded last group. */
  function Encode(d: seq<Byte>): seq<char>
  {
    var g := |d| / 3;
    EncodeGroups(d, g) + Tail(d[3 * g..])
  }

  /** The output is four characters for every started group of three
      bytes: `4 * ceil(|d| / 3)`, a multiple of four. */
  lemma EncodeLength(d: seq<Byte>)
    ensures |Encode(d)| == 4 * ((|d| + 2) / 3) && |Encode(d)| % 4 == 0
  {
    var g, k := |d| / 3, |d| % 3;
    DivModBy(|d|, 3, g, k);
    if k == 0 {
      DivModBy(|d| + 2, 3, g, 2);
      DivModBy(4 * g, 4, g, 0);
    } else {
      DivModBy(|d| + 2, 3, g + 1, k - 1);
      DivModBy(4 * g + 4, 4, g + 1, 0);
    }
  }

  /** Every output character is from the alphabet or is padding, and the
      padding sits only in the last two places. */
  lemma EncodeCharacters(d: seq<Byte>)
    ensures forall i :: 0 <= i < |Encode(d)| ==> InAlphabet(Encode(d)[i]) || Encode(d)[i] == Pad
    ensures forall i :: 0 <= i < |Encode(d)| - 2 ==> InAlphabet(Encode(d)[i])
  {
    var g := |d| / 3;
    var front, last := EncodeGroups(d, g), Tail(d[3 * g..]);
    GroupsInAlphabet(d, g);
    TailCharacters(d[3 * g..]);
    assert Encode(d) == front + last;
    assert forall i :: 0 <= i < |last| ==> (front + last)[|front| + i] == last[i];
  }

  lemma {:induction false} GroupsInAlphabet(d: seq<Byte>, g: nat)
    requires 3 * g <= |d|
    ensures forall i :: 0 <= i < 4 * g ==> InAlphabet(EncodeGroups(d, g)[i])
  {
    if g != 0 {
      var h := g - 1;
      GroupsInAlphabet(d, h);
      var b0, b1, b2 := d[3 * h], d[3 * h + 1], d[3 * h + 2];
      assert EncodeGroups(d, g) == EncodeGroups(d, h) + Group(b0, b1, b2);
      IndexOfCharOf(b0 / 4);
      IndexOfCharOf((b0 % 4) * 16 + b1 / 16);
      IndexOfCharOf((b1 % 16) * 4 + b2 / 64);
      IndexOfCharOf(b2 % 64);
    }
  }

  /** The padded group: alphabet characters, then '=' only in its last two
      places. */
  lemma TailCharacters(t: seq<Byte>)
    requires |t| < 3
    ensures forall i :: 0 <= i < |Tail(t)| ==> InAlphabet(Tail(t)[i]) || Tail(t)[i] == Pad
    ensures forall i :: 0 <= i < |Tail(t)| - 2 ==> InAlphabet(Tail(t)[i])
  {
    if |t| > 0 {
      IndexOfCharOf(t[0] / 4);
      IndexOfCharOf((t[0] % 4) * 16);
      if |t| == 2 {
        IndexOfCharOf((t[0] % 4) * 16 + t[1] / 16);
        IndexOfCharOf((t[1] % 16) * 4);
      }
    }
  }

  // ---------------------------------------------------------------------
  // The encoder's bit accumulator.

  /** The characters the inner `while (valb >= 0)` loop emits from `val`
      when it starts at `v0` and runs `e` times. */
  function Emits(val: nat, v0: int, e: nat): seq<char>
    requires e == 0 || v0 - 6 * (e - 1) >= 0
  {
    if e == 0 then [] else Emits(val, v0, e - 1) + [CharOf((val / Pow2(v0 - 6 * (e - 1))) % 64)]
  }

  /** The characters a byte `c` completes when it is byte `k` of its
      group and `p` is the byte before it. */
  function Completed(p: Byte, c: Byte, k: nat): seq<char>
  {
    if k == 0 then [CharOf(c / 4)]
    else if k == 1 then [CharOf((p % 4) * 16 + c / 16)]
    else [CharOf((p % 16) * 4 + c / 64), CharOf(c % 64)]
  }

  /** The low bits of `val` that the next characters still need, after
      `k` bytes of the current group, the last of which is `p`. */
  predicate Pending(val: nat, p: Byte, k: nat)
  {
    && (k == 1 ==> val % 4 == p % 4)
    && (k == 2 ==> val % 16 == p % 16)
  }

  /** The state of `to_base64`'s loop after `i` bytes, `g` full groups and
      `k` bytes of the next one: the characters of the full groups and of
      the unfinished group are out, and `valb` counts the pending bits. */
  predicate EncoderState(d: seq<Byte>, i: nat, g: nat, k: nat, ret: seq<char>, val: nat, valb: int)
    requires i <= |d|
  {
    && i == 3 * g + k && k < 3 && valb == -6 + 2 * k
    && ret == EncodeGroups(d, g) + Partial(d[3 * g..i])
    && (k > 0 ==> Pending(val, d[i - 1], k))
  }

  /** `to_base64`. */
  method ToBase64(data: seq<Byte>) returns (ret: seq<char>)
    ensures ret == Encode(data)
  {
    ret := [];
    var val: nat, valb: int := 0, -6;
    ghost var g, k := 0, 0;
    for i := 0 to |data|
      invariant EncoderState(data, i, g, k, ret, val, valb)
    {
      ret, val, valb, g, k := PushByte(data, i, g, k, ret, val, valb);
    }
    ret := Finish(data, g, k, ret, val, valb);
  }

  /** The body of the `for (unsigned char c : data)` loop: shift the byte
      into `val` and emit every complete sextet. */
  method PushByte(data: seq<Byte>, i: nat, ghost g: nat, ghost k: nat, ret0: seq<char>, val0: nat, valb0: int)
    returns (ret: seq<char>, val: nat, valb: int, ghost g': nat, ghost k': nat)
    requires i < |data| && EncoderState(data, i, g, k, ret0, val0, valb0)
    ensures EncoderState(data, i + 1, g', k', ret, val, valb)
  {
    val := val0 * 256 + data[i];
    ghost var e;
    ret, valb, e := EmitSextets(ret0, val, valb0 + 8);
    g', k' := if k == 2 then g + 1 else g, if k == 2 then 0 else k + 1;
    EncoderStep(data, i, g, k, ret0, val0, valb0, e, g', k', ret, val, valb);
  }

  /** After the loop: the character for the bits still pending, then the
      padding. */
  method Finish(data: seq<Byte>, ghost g: nat, ghost k: nat, ret0: seq<char>, val: nat, valb: int) returns (ret: seq<char>)
    requires EncoderState(data, |data|, g, k, ret0, val, valb)
    ensures ret == Encode(data)
  {
    ret := ret0;
    if valb > -6 {
      ret := ret + [Alphabet[((val * 256) / Pow2(valb + 8)) % 64]];
    }
    FinalCharacter(data, g, k, ret0, val, valb, ret);
    ret := AppendPadding(ret, Encode(data));
  }

  /** `enc`, a multiple of four characters long, is `s` followed by fewer
      than four '='. */
  ghost predicate PaddedFrom(enc: seq<char>, s: seq<char>)
  {
    |enc| % 4 == 0 && |s| <= |enc| && |enc| - |s| < 4 && enc == s + Pads(|enc| - |s|)
  }

  /** The closing `while (ret.size() % 4)` loop: '=' up to a multiple of
      four characters. */
  method AppendPadding(s: seq<char>, ghost enc: seq<char>) returns (ret: seq<char>)
    requires PaddedFrom(enc, s)
    ensures ret == enc
  {
    ret := s;
    while |ret| % 4 != 0
      invariant |ret| <= |enc| && |enc| - |ret| < 4 && enc == ret + Pads(|enc| - |ret|)
      decreases |enc| - |ret|
    {
      PadCount(|enc|, |enc| - |ret|);
      ghost var m := |enc| - |ret|;
      assert (ret + [Pad]) + Pads(m - 1) == ret + Pads(m);
      ret := ret + [Pad];
    }
    PadCount(|enc|, |enc| - |ret|);
    assert Pads(0) == [];
  }

  /** The inner `while (valb >= 0)` loop: one character per six bits of
      `val` above position `valb`. */
  method EmitSextets(ret0: seq<char>, val: nat, v0: int) returns (ret: seq<char>, valb: int, ghost e: nat)
    requires -6 <= v0
    ensures valb == v0 - 6 * e && -6 <= valb < 0 && (e == 0 || v0 - 6 * (e - 1) >= 0)
    ensures ret == ret0 + Emits(val, v0, e)
  {
    ret, valb, e := ret0, v0, 0;
    while valb >= 0
      invariant valb == v0 - 6 * e && valb >= -6
      invariant e == 0 || v0 - 6 * (e - 1) >= 0
      invariant ret == ret0 + Emits(val, v0, e)
      decreases valb
    {
      ret := ret + [Alphabet[(val / Pow2(valb)) % 64]];
      valb := valb - 6;
      e := e + 1;
    }
  }

  /** One byte of the outer loop keeps `EncoderState`, moving to the next
      group after its third byte. */
  lemma EncoderStep(d: seq<Byte>, i: nat, g: nat, k: nat, ret0: seq<char>, val0: nat, valb0: int, e: nat,
                    g': nat, k': nat, ret: seq<char>, val: nat, valb: int)
    requires i < |d| && EncoderState(d, i, g, k, ret0, val0, valb0) && val == val0 * 256 + d[i]
    requires valb == valb0 + 8 - 6 * e && -6 <= valb < 0 && (e == 0 || valb0 + 8 - 6 * (e - 1) >= 0)
    requires ret == ret0 + Emits(val, valb0 + 8, e)
    requires g' == (if k == 2 then g + 1 else g) && k' == (if k == 2 then 0 else k + 1)
    ensures EncoderState(d, i + 1, g', k', ret, val, valb)
  {
    var c := d[i];
    assert i + 1 - 1 == i;
    if k == 0 {
      FirstByte(c, val0, val, valb0 + 8, e);
      EmittedFirst(d, i, g);
    } else if k == 1 {
      SecondByte(d[i - 1], c, val0, val, valb0 + 8, e);
      EmittedSecond(d, i, g);
    } else {
      ThirdByte(d[i - 1], c, val0, val, valb0 + 8, e);
      EmittedThird(d, i, g);
    }
  }

  /** The arithmetic of a step, by the byte's place in its group: the
      characters the inner loop takes from `val` are the ones the byte
      completes, and the bits it leaves are the ones still pending. */
  lemma FirstByte(c: Byte, val0: nat, val: nat, v0: int, e: nat)
    requires val == val0 * 256 + c && v0 == 2 && v0 - 6 * e < 0 && v0 - 6 * e >= -6
    ensures e == 1 && Emits(val, v0, e) == Completed(0, c, 0) && Pending(val, c, 1)
  {
    FirstSextet(val0, c);
    EmitsOne(val, 2);
  }

  lemma SecondByte(p: Byte, c: Byte, val0: nat, val: nat, v0: int, e: nat)
    requires Pending(val0, p, 1) && val == val0 * 256 + c && v0 == 4 && v0 - 6 * e < 0 && v0 - 6 * e >= -6
    ensures e == 1 && Emits(val, v0, e) == Completed(p, c, 1) && Pending(val, c, 2)
  {
    SecondSextet(val0, c, p);
    EmitsOne(val, 4);
  }

  lemma ThirdByte(p: Byte, c: Byte, val0: nat, val: nat, v0: int, e: nat)
    requires Pending(val0, p, 2) && val == val0 * 256 + c && v0 == 6 && v0 - 6 * e < 0 && v0 - 6 * e >= -6
    ensures e == 2 && Emits(val, v0, e) == Completed(p, c, 2)
  {
    ThirdAndFourthSextets(val0, c, p);
    EmitsTwo(val);
  }

  lemma EmitsOne(val: nat, v0: int)
    requires v0 == 2 || v0 == 4
    ensures Emits(val, v0, 1) == [CharOf((val / Pow2(v0)) % 64)]
    ensures v0 == 2 ==> Pow2(v0) == 4
    ensures v0 == 4 ==> Pow2(v0) == 16
  {
  }

  lemma EmitsTwo(val: nat)
    ensures Emits(val, 6, 2) == [CharOf((val / 64) % 64), CharOf(val % 64)]
  {
    assert Pow2(6) == 64 && Pow2(0) == 1;
    assert val / Pow2(0) == val;
    assert Emits(val, 6, 1) == [CharOf((val / 64) % 64)];
  }

  /** The sequence half of a step, by the byte's place in its group: the
      byte appends what it completes to the emitted characters. */
  lemma EmittedFirst(d: seq<Byte>, i: nat, g: nat)
    requires i < |d| && i == 3 * g
    ensures EncodeGroups(d, g) + Partial(d[i..i + 1]) == EncodeGroups(d, g) + Partial(d[i..i]) + Completed(0, d[i], 0)
  {
    SliceOne(d, i, i + 1);
  }

  lemma EmittedSecond(d: seq<Byte>, i: nat, g: nat)
    requires i < |d| && i == 3 * g + 1
    ensures EncodeGroups(d, g) + Partial(d[3 * g..i + 1]) == EncodeGroups(d, g) + Partial(d[3 * g..i]) + Completed(d[i - 1], d[i], 1)
  {
    assert 3 * g == i - 1 && i - 1 + 1 == i;
    SliceOne(d, i - 1, i);
    SliceTwo(d, i - 1, i + 1);
  }

  lemma EmittedThird(d: seq<Byte>, i: nat, g: nat)
    requires i < |d| && i == 3 * g + 2
    ensures EncodeGroups(d, g + 1) + Partial(d[i + 1..i + 1]) == EncodeGroups(d, g) + Partial(d[3 * g..i]) + Completed(d[i - 1], d[i], 2)
  {
    var b0, b1, b2 := d[i - 2], d[i - 1], d[i];
    var front, before, done := EncodeGroups(d, g), Partial(d[3 * g..i]), Completed(b1, b2, 2);
    assert before == Partial([b0, b1]) by {
      assert 3 * g == i - 2 && i - 2 + 1 == i - 1;
      SliceTwo(d, i - 2, i);
    }
    assert EncodeGroups(d, g + 1) == front + Group(b0, b1, b2) by {
      assert 3 * g == i - 2 && 3 * g + 1 == i - 1 && 3 * g + 2 == i;
      EncodeGroupsLast(d, g + 1, g);
      assert GroupOf(d, g) == Group(d[3 * g], d[3 * g + 1], d[3 * g + 2]);
    }
    GroupSplit(b0, b1, b2);
    assert d[i + 1..i + 1] == [];
    AppendAssoc(front, before, done);
  }

  /** A group is the two characters emitted before its third byte and the
      two that byte completes. */
  lemma GroupSplit(b0: Byte, b1: Byte, b2: Byte)
    ensures Group(b0, b1, b2) == Partial([b0, b1]) + Completed(b1, b2, 2)
  {
  }

  /** Quotient and remainder by a constant divisor, from a decomposition. */
  lemma DivModBy(x: int, k: int, y: int, rem: int)
    requires k == 3 || k == 4 || k == 16 || k == 64
    requires x == k * y + rem && 0 <= rem < k
    ensures x / k == y && x % k == rem
  {
    if k == 3 {
      assert x == 3 * y + rem;
    } else if k == 4 {
      assert x == 4 * y + rem;
    } else if k == 16 {
      assert x == 16 * y + rem;
    } else {
      assert x == 64 * y + rem;
    }
  }

  /** After the first byte of a group: `(val >> 2) & 0x3F` is its top six
      bits and two bits stay pending. */
  lemma FirstSextet(val0: nat, c: Byte)
    ensures ((val0 * 256 + c) / 4) % 64 == c / 4
    ensures (val0 * 256 + c) % 4 == c % 4
  {
    var x := val0 * 256 + c;
    var y := val0 * 64 + c / 4;
    assert c == 4 * (c / 4) + c % 4;
    DivModBy(x, 4, y, c % 4);
    DivModBy(y, 64, val0, c / 4);
  }

  /** After the second byte: the two pending bits of `p` and the top four
      bits of `c`; four bits stay pending. */
  lemma SecondSextet(val0: nat, c: Byte, p: Byte)
    requires val0 % 4 == p % 4
    ensures ((val0 * 256 + c) / 16) % 64 == (p % 4) * 16 + c / 16
    ensures (val0 * 256 + c) % 16 == c % 16
  {
    var x := val0 * 256 + c;
    var q, r := val0 / 4, val0 % 4;
    assert val0 == 4 * q + r;
    assert c == 16 * (c / 16) + c % 16;
    var y := 64 * q + (16 * r + c / 16);
    DivModBy(x, 16, y, c % 16);
    DivModBy(y, 64, q, 16 * r + c / 16);
  }

  /** After the third byte: the four pending bits of `p` with the top two
      bits of `c`, then the low six bits of `c`. */
  lemma ThirdAndFourthSextets(val0: nat, c: Byte, p: Byte)
    requires val0 % 16 == p % 16
    ensures ((val0 * 256 + c) / 64) % 64 == (p % 16) * 4 + c / 64
    ensures (val0 * 256 + c) % 64 == c % 64
  {
    var x := val0 * 256 + c;
    var q, r := val0 / 16, val0 % 16;
    assert val0 == 16 * q + r;
    assert c == 64 * (c / 64) + c % 64;
    var y := 64 * q + (4 * r + c / 64);
    DivModBy(x, 64, y, c % 64);
    DivModBy(y, 64, q, 4 * r + c / 64);
  }

  /** `m` padding characters. */
  function Pads(m: nat): (r: seq<char>)
    ensures |r| == m
  {
    if m == 0 then [] else [Pad] + Pads(m - 1)
  }

  /** The character `if (valb > -6)` adds completes the partial group, and
      what `Encode` has beyond it is padding, fewer than four characters. */
  lemma FinalCharacter(d: seq<Byte>, g: nat, k: nat, ret0: seq<char>, val: nat, valb: int, ret: seq<char>)
    requires EncoderState(d, |d|, g, k, ret0, val, valb)
    requires ret == if valb > -6 then ret0 + [Alphabet[((val * 256) / Pow2(valb + 8)) % 64]] else ret0
    ensures PaddedFrom(Encode(d), ret)
  {
    EncodeLength(d);
    var n := |d|;
    DivModBy(n, 3, g, k);
    var front, rest := EncodeGroups(d, g), d[3 * g..];
    assert Encode(d) == front + Tail(rest);
    assert rest == d[3 * g..n];
    if k == 0 {
      assert rest == [] && Pads(0) == [];
    } else if k == 1 {
      assert n - 1 == 3 * g;
      SliceOne(d, 3 * g, n);
      FinalOne(d[3 * g], val, valb, front, ret0, ret);
      assert |Encode(d)| - |ret| == 2;
    } else {
      assert n - 1 == 3 * g + 1 && 3 * g + 2 == n;
      SliceTwo(d, 3 * g, n);
      FinalTwo(d[3 * g], d[3 * g + 1], val, valb, front, ret0, ret);
      assert |Encode(d)| - |ret| == 1;
    }
  }

  /** One byte in the last group: its pending two bits make the second
      character, and two '=' follow. */
  lemma FinalOne(b: Byte, val: nat, valb: int, front: seq<char>, ret0: seq<char>, ret: seq<char>)
    requires valb == -4 && val % 4 == b % 4 && ret0 == front + Partial([b])
    requires ret == ret0 + [Alphabet[((val * 256) / Pow2(valb + 8)) % 64]]
    ensures front + Tail([b]) == ret + Pads(2)
  {
    LastSextet(val, valb, b);
    assert Pads(2) == [Pad, Pad];
  }

  /** Two bytes in the last group: the pending four bits of the second make
      the third character, and one '=' follows. */
  lemma FinalTwo(b0: Byte, b1: Byte, val: nat, valb: int, front: seq<char>, ret0: seq<char>, ret: seq<char>)
    requires valb == -2 && val % 16 == b1 % 16 && ret0 == front + Partial([b0, b1])
    requires ret == ret0 + [Alphabet[((val * 256) / Pow2(valb + 8)) % 64]]
    ensures front + Tail([b0, b1]) == ret + Pads(1)
  {
    LastSextet(val, valb, b1);
    assert Pads(1) == [Pad];
  }

  /** `((val << 8) >> (valb + 8)) & 0x3F` is the pending bits of the last
      byte `p` followed by zeros. */
  lemma LastSextet(val: nat, valb: int, p: Byte)
    requires valb == -4 || valb == -2
    requires valb == -4 ==> val % 4 == p % 4
    requires valb == -2 ==> val % 16 == p % 16
    ensures valb == -4 ==> ((val * 256) / Pow2(valb + 8)) % 64 == (p % 4) * 16
    ensures valb == -2 ==> ((val * 256) / Pow2(valb + 8)) % 64 == (p % 16) * 4
  {
    if valb == -4 {
      assert Pow2(4) == 16;
      LowBitsShifted(val, 4, 16);
    } else {
      assert Pow2(6) == 64;
      LowBitsShifted(val, 16, 4);
    }
  }

  /** Shifting `val` left so that its low bits become the top of a sextet. */
  lemma LowBitsShifted(val: nat, m: nat, f: nat)
    requires (m == 4 && f == 16) || (m == 16 && f == 4)
    ensures ((val * 256) / (256 / f)) % 64 == (val % m) * f
  {
    var q, r := val / m, val % m;
    assert val == q * m + r;
    var x := q * 64 + r * f;
    assert val * f == x;
    assert val * 256 == x * (256 / f);
    assert (val * 256) / (256 / f) == x;
    assert x % 64 == r * f;
  }

  /** Fewer than four characters short of a multiple of four. */
  lemma PadCount(n: nat, m: nat)
    requires n % 4 == 0 && m < 4 && m <= n
    ensures (n - m) % 4 == 0 <==> m == 0
  {
  }

  // ---------------------------------------------------------------------
  // Decoding.

  /** What the decoder reads for one character: its alphabet position, or
      0 for '='. Other characters are outside `WellFormed` input, which
      `Decode` requires; they are given 0 only to keep this total. */
  function SextetOf(c: char): Sextet
  {
    if c == Pad || !InAlphabet(c) then 0 else IndexOf(c)
  }

  predicate WellFormed(s: string)
  {
    forall i :: 0 <= i < |s| ==> InAlphabet(s[i]) || s[i] == Pad
  }

  /** The three bytes of the 24-bit `triple` of one group of four. */
  function Triple(s0: Sextet, s1: Sextet, s2: Sextet, s3: Sextet): seq<Byte>
  {
    var t := s0 * 0x4_0000 + s1 * 0x1000 + s2 * 0x40 + s3;
    [t / 0x1_0000, (t / 0x100) % 0x100, t % 0x100]
  }

  /** The bytes of the group of four characters starting at `s[i]`. */
  function GroupAt(s: string, i: nat): (r: seq<Byte>)
    requires i + 4 <= |s|
    ensures |r| == 3
  {
    Triple(SextetOf(s[i]), SextetOf(s[i + 1]), SextetOf(s[i + 2]), SextetOf(s[i + 3]))
  }

  /** The first `g` groups of four decoded to three bytes each, before
      truncation. */
  function DecodeGroups(s: string, g: nat): (r: seq<Byte>)
    requires 4 * g <= |s|
    ensures |r| == 3 * g
  {
    if g == 0 then [] else DecodeGroups(s, g - 1) + GroupAt(s, 4 * g - 4)
  }

  /** How many '=' `base64_decode` counts: the last two characters only. */
  function Padding(s: string): nat
    requires |s| >= 2
  {
    (if s[|s| - 1] == Pad then 1 else 0) + (if s[|s| - 2] == Pad then 1 else 0)
  }

  /** `base64_decode`: an error for a length that is not a multiple of four,
      otherwise the groups' bytes cut to `3 * len / 4 - padding`. */
  function Decode(s: string): (r: Result<seq<Byte>, string>)
    requires s != [] && WellFormed(s)
    ensures r.Err? <==> |s| % 4 != 0
    ensures r.Ok? ==> 4 * (|r.value| + Padding(s)) == 3 * |s|
  {
    if |s| % 4 != 0 then Err("Input base64 string has incorrect length")
    else
      var n := |s| / 4;
      Ok(DecodeGroups(s, n)[..3 * n - Padding(s)])
  }

  /** For a length that is a multiple of four, `(len * 3) / 4` is three
      bytes per group. */
  lemma QuarterOf(len: nat)
    requires len % 4 == 0
    ensures len == 4 * (len / 4) && (len * 3) / 4 == 3 * (len / 4)
  {
    var n := len / 4;
    DivModBy(len, 4, n, 0);
    DivModBy(len * 3, 4, 3 * n, 0);
  }

  /** `base64_decode`: fills a buffer of `decoded_len` bytes group by
      group, writing the second and third byte of a group only while there
      is room. */
  method Base64Decode(input: string) returns (r: Result<seq<Byte>, string>)
    requires input != [] && WellFormed(input)
    ensures r == Decode(input)
  {
    var len := |input|;
    if len % 4 != 0 {
      return Err("Input base64 string has incorrect length");
    }
    var padding := 0;
    if input[len - 1] == Pad {
      padding := padding + 1;
    }
    if input[len - 2] == Pad {
      padding := padding + 1;
    }
    assert padding == Padding(input);
    QuarterOf(len);
    var decodedLen := (len * 3) / 4 - padding;
    var decoded := new Byte[decodedLen];
    DecodeAllGroups(input, len / 4, decoded);
    return Ok(decoded[..]);
  }

  /** The `while (i < len)` loop of `base64_decode`: group after group
      into a buffer that holds all bytes but at most two of the last
      group. */
  method DecodeAllGroups(input: string, ghost n: nat, decoded: array<Byte>)
    requires |input| == 4 * n && 3 * n - 2 <= decoded.Length <= 3 * n
    modifies decoded
    ensures decoded[..] == DecodeGroups(input, n)[..decoded.Length]
  {
    var len := |input|;
    var i, j := 0, 0;
    ghost var g := 0;
    while i < len
      invariant i == 4 * g && g <= n
      invariant g < n ==> j == 3 * g
      invariant g == n ==> j == decoded.Length
      invariant decoded[..j] == DecodeGroups(input, g)[..j]
      decreases len - i
    {
      ghost var before, j0 := decoded[..j], j;
      j := DecodeGroupInto(input, i, decoded, j);
      assert DecodeGroups(input, g + 1) == before + GroupAt(input, i);
      i, g := i + 4, g + 1;
    }
    assert decoded[..] == decoded[..j];
  }

  /** The body of the decoding loop: the four characters' `triple`, of
      which the first byte is written always and the other two while
      `j < decoded_len`. */
  method DecodeGroupInto(input: string, i: nat, decoded: array<Byte>, j0: nat) returns (j: nat)
    requires i + 4 <= |input| && j0 < decoded.Length
    modifies decoded
    ensures j == if j0 + 3 <= decoded.Length then j0 + 3 else decoded.Length
    ensures decoded[..j] == old(decoded[..j0]) + GroupAt(input, i)[..j - j0]
  {
    var a := SextetOf(input[i]);
    var b := SextetOf(input[i + 1]);
    var c := SextetOf(input[i + 2]);
    var d := SextetOf(input[i + 3]);
    var triple := Triple(a, b, c, d);
    decoded[j0] := triple[0];
    j := j0 + 1;
    if j < decoded.Length {
      decoded[j] := triple[1];
      j := j + 1;
    }
    if j < decoded.Length {
      decoded[j] := triple[2];
      j := j + 1;
    }
    assert decoded[..j] == old(decoded[..j0]) + triple[..j - j0];
  }

  // ---------------------------------------------------------------------
  // The round trip.

  /** A full group decodes to its three bytes. */
  lemma GroupRoundTrip(b0: Byte, b1: Byte, b2: Byte)
    ensures GroupAt(Group(b0, b1, b2), 0) == [b0, b1, b2]
  {
    var s0, s1, s2, s3 := b0 / 4, (b0 % 4) * 16 + b1 / 16, (b1 % 16) * 4 + b2 / 64, b2 % 64;
    IndexOfCharOf(s0);
    IndexOfCharOf(s1);
    IndexOfCharOf(s2);
    IndexOfCharOf(s3);
    ThreeByteGroup(b0, b1, b2, s0, s1, s2, s3);
  }

  lemma ThreeByteGroup(x0: Byte, x1: Byte, x2: Byte, s0: Sextet, s1: Sextet, s2: Sextet, s3: Sextet)
    requires s0 == x0 / 4 && s1 == (x0 % 4) * 16 + x1 / 16
    requires s2 == (x1 % 16) * 4 + x2 / 64 && s3 == x2 % 64
    ensures Triple(s0, s1, s2, s3) == [x0, x1, x2]
  {
    var q0, r0 := x0 / 4, x0 % 4;
    var q1, r1 := x1 / 16, x1 % 16;
    var q2, r2 := x2 / 64, x2 % 64;
    assert x0 == 4 * q0 + r0 && x1 == 16 * q1 + r1 && x2 == 64 * q2 + r2;
    var t: int := s0 * 0x4_0000 + s1 * 0x1000 + s2 * 0x40 + s3;
    assert t == x0 * 0x1_0000 + x1 * 0x100 + x2;
    assert t / 0x1_0000 == x0;
    assert t / 0x100 == x0 * 0x100 + x1;
    assert (x0 * 0x100 + x1) % 0x100 == x1;
    assert t % 0x100 == x2;
  }

  /** The group at the end of `a` is the first group of what follows. */
  lemma GroupAtShift(a: string, b: string)
    requires |b| >= 4
    ensures GroupAt(a + b, |a|) == GroupAt(b, 0)
  {
    var s := a + b;
    assert s[|a|] == b[0] && s[|a| + 1] == b[1] && s[|a| + 2] == b[2] && s[|a| + 3] == b[3];
  }

  /** Decoding `g` groups reads only the first `4 * g` characters. */
  lemma {:induction false} DecodeGroupsAppend(a: string, b: string, g: nat)
    requires 4 * g <= |a|
    ensures DecodeGroups(a + b, g) == DecodeGroups(a, g)
  {
    if g != 0 {
      DecodeGroupsAppend(a, b, g - 1);
      var i := 4 * g - 4;
      assert (a + b)[i] == a[i] && (a + b)[i + 1] == a[i + 1];
      assert (a + b)[i + 2] == a[i + 2] && (a + b)[i + 3] == a[i + 3];
    }
  }

  /** The last of `g = h + 1` groups, split off. */
  lemma DecodeGroupsLast(s: string, g: nat, h: nat)
    requires g == h + 1 && 4 * g <= |s|
    ensures DecodeGroups(s, g) == DecodeGroups(s, h) + GroupAt(s, 4 * h)
  {
    assert g - 1 == h && 4 * g - 4 == 4 * h;
  }

  /** `g = h + 1` full groups: those of `h` and one more. */
  lemma EncodeGroupsLast(d: seq<Byte>, g: nat, h: nat)
    requires g == h + 1 && 3 * g <= |d|
    ensures EncodeGroups(d, g) == EncodeGroups(d, h) + GroupOf(d, h)
  {
    assert g - 1 == h;
  }

  /** The full groups decode to their bytes. */
  lemma {:induction false} GroupsRoundTrip(d: seq<Byte>, g: nat)
    requires 3 * g <= |d|
    ensures DecodeGroups(EncodeGroups(d, g), g) == d[..3 * g]
  {
    if g != 0 {
      var h := g - 1;
      GroupsRoundTrip(d, h);
      RoundTripStep(d, g, h);
    }
  }

  /** The round trip for `h` groups extends to `g = h + 1`. */
  lemma RoundTripStep(d: seq<Byte>, g: nat, h: nat)
    requires g == h + 1 && 3 * g <= |d|
    requires DecodeGroups(EncodeGroups(d, h), h) == d[..3 * h]
    ensures DecodeGroups(EncodeGroups(d, g), g) == d[..3 * g]
  {
    var e := EncodeGroups(d, g);
    DecodeGroupsLast(e, g, h);
    RoundTripFront(d, g, h);
    RoundTripLast(d, g, h);
    PrefixThree(d, 3 * h, 3 * g);
  }

  /** Given the round trip for `h` groups, the first `h` of `g = h + 1`
      groups decode to their bytes. */
  lemma RoundTripFront(d: seq<Byte>, g: nat, h: nat)
    requires g == h + 1 && 3 * g <= |d|
    requires DecodeGroups(EncodeGroups(d, h), h) == d[..3 * h]
    ensures DecodeGroups(EncodeGroups(d, g), h) == d[..3 * h]
  {
    var front := EncodeGroups(d, h);
    var grp := GroupOf(d, h);
    EncodeGroupsLast(d, g, h);
    DecodeGroupsAppend(front, grp, h);
  }

  /** The last of `g = h + 1` groups decodes to its three bytes. */
  lemma RoundTripLast(d: seq<Byte>, g: nat, h: nat)
    requires g == h + 1 && 3 * g <= |d|
    ensures GroupAt(EncodeGroups(d, g), 4 * h) == [d[3 * h], d[3 * h + 1], d[3 * h + 2]]
  {
    var front := EncodeGroups(d, h);
    var b0, b1, b2 := d[3 * h], d[3 * h + 1], d[3 * h + 2];
    var grp := Group(b0, b1, b2);
    EncodeGroupsLast(d, g, h);
    assert GroupOf(d, h) == grp;
    GroupAtShift(front, grp);
    GroupRoundTrip(b0, b1, b2);
  }

  /** The padded last group decodes to its bytes followed by zeros, and the
      '=' count is exactly the number of missing bytes. */
  lemma TailRoundTrip(t: seq<Byte>)
    requires 0 < |t| < 3
    ensures GroupAt(Tail(t), 0)[..|t|] == t
    ensures Padding(Tail(t)) == 3 - |t|
  {
    assert !InAlphabet(Pad);
    var x0: int := t[0];
    var s0: int := x0 / 4;
    IndexOfCharOf(s0);
    if |t| == 1 {
      var s1: int := (x0 % 4) * 16;
      IndexOfCharOf(s1);
      OneByteGroup(x0, s0, s1);
    } else {
      var x1: int := t[1];
      var s1, s2: int := (x0 % 4) * 16 + x1 / 16, (x1 % 16) * 4;
      IndexOfCharOf(s1);
      IndexOfCharOf(s2);
      TwoByteGroup(x0, x1, s0, s1, s2);
    }
  }

  lemma OneByteGroup(x0: Byte, s0: Sextet, s1: Sextet)
    requires s0 == x0 / 4 && s1 == (x0 % 4) * 16
    ensures Triple(s0, s1, 0, 0)[0] == x0
  {
    var v := s0 * 0x4_0000 + s1 * 0x1000;
    assert v == x0 * 0x1_0000;
  }

  lemma TwoByteGroup(x0: Byte, x1: Byte, s0: Sextet, s1: Sextet, s2: Sextet)
    requires s0 == x0 / 4 && s1 == (x0 % 4) * 16 + x1 / 16 && s2 == (x1 % 16) * 4
    ensures Triple(s0, s1, s2, 0)[..2] == [x0, x1]
  {
    var q0, r0 := x0 / 4, x0 % 4;
    var q1, r1 := x1 / 16, x1 % 16;
    assert x0 == 4 * q0 + r0 && x1 == 16 * q1 + r1;
    var v: int := s0 * 0x4_0000 + s1 * 0x1000 + s2 * 0x40;
    assert v == x0 * 0x1_0000 + x1 * 0x100;
    assert v / 0x1_0000 == x0;
    assert v / 0x100 == x0 * 0x100 + x1;
    assert (x0 * 0x100 + x1) % 0x100 == x1;
  }

  /** `base64_decode(to_base64(d)) == d` for non-empty `d`. */
  lemma DecodeEncode(d: seq<Byte>)
    requires d != []
    ensures Encode(d) != [] && WellFormed(Encode(d))
    ensures Decode(Encode(d)) == Ok(d)
  {
    var e := Encode(d);
    var g, k := |d| / 3, |d| % 3;
    DivModBy(|d|, 3, g, k);
    assert WellFormed(e) by {
      EncodeCharacters(d);
    }
    if k == 0 {
      DecodeFullGroups(d, g, e);
    } else {
      DecodeLastGroup(d, g, d[3 * g..], e);
    }
  }

  /** `Decode` on well-formed input of `n` groups: the decoded groups cut
      by the padding. */
  lemma DecodeOk(e: string, n: nat, m: nat, x: seq<Byte>)
    requires e != [] && WellFormed(e) && |e| == 4 * n
    requires m == 3 * n - Padding(e) && x == DecodeGroups(e, n)[..m]
    ensures Decode(e) == Ok(x)
  {
    DivModBy(|e|, 4, n, 0);
  }

  lemma DecodeFullGroups(d: seq<Byte>, g: nat, e: string)
    requires |d| == 3 * g && g > 0 && e == EncodeGroups(d, g) + Tail(d[3 * g..]) && WellFormed(e)
    ensures e != [] && Decode(e) == Ok(d)
  {
    assert d[3 * g..] == [];
    assert e == EncodeGroups(d, g);
    assert Padding(e) == 0 by {
      GroupsInAlphabet(d, g);
      assert !InAlphabet(Pad);
    }
    var x := DecodeGroups(e, g);
    assert x == d by {
      GroupsRoundTrip(d, g);
      assert d[..3 * g] == d;
    }
    assert x[..3 * g - Padding(e)] == x;
    DecodeOk(e, g, 3 * g, d);
  }

  /** `base64_decode` counts '=' in the last two characters only. */
  lemma PaddingAppend(a: string, b: string)
    requires |b| >= 2
    ensures Padding(a + b) == Padding(b)
  {
    var s := a + b;
    assert s[|s| - 1] == b[|b| - 1] && s[|s| - 2] == b[|b| - 2];
  }

  lemma DecodeLastGroup(d: seq<Byte>, g: nat, t: seq<Byte>, e: string)
    requires 3 * g <= |d| && t == d[3 * g..] && 0 < |t| < 3 && e == EncodeGroups(d, g) + Tail(t) && WellFormed(e)
    ensures e != [] && Decode(e) == Ok(d)
  {
    var n, m := g + 1, 3 * g + |t|;
    TailPadding(EncodeGroups(d, g), t, e);
    assert |e| == 4 * n && m == 3 * n - Padding(e);
    DecodedWithTail(d, g, t, e);
    DecodeOk(e, n, m, d);
  }

  /** The padding of an encoding ending in a partial group. */
  lemma TailPadding(front: string, t: seq<Byte>, e: string)
    requires 0 < |t| < 3 && e == front + Tail(t)
    ensures Padding(e) == 3 - |t|
  {
    TailRoundTrip(t);
    PaddingAppend(front, Tail(t));
  }

  /** Decoding the full groups and the partial one, cut to the data's length. */
  lemma DecodedWithTail(d: seq<Byte>, g: nat, t: seq<Byte>, e: string)
    requires 3 * g <= |d| && t == d[3 * g..] && 0 < |t| < 3 && e == EncodeGroups(d, g) + Tail(t)
    ensures |d| == 3 * g + |t| && 3 * g + |t| <= |DecodeGroups(e, g + 1)|
    ensures DecodeGroups(e, g + 1)[..3 * g + |t|] == d
  {
    var front, last := EncodeGroups(d, g), Tail(t);
    var y := GroupAt(e, 4 * g);
    var x := DecodeGroups(e, g + 1);
    assert x == d[..3 * g] + y by {
      DecodeGroupsLast(e, g + 1, g);
      DecodeGroupsAppend(front, last, g);
      GroupsRoundTrip(d, g);
    }
    assert y[..|t|] == t by {
      GroupAtShift(front, last);
      TailRoundTrip(t);
    }
    TakeAppend(d[..3 * g], y, |t|);
    SplitAt(d, 3 * g);
  }
}
