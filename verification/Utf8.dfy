/** JavaScript strings (sequences of 16-bit code units) as UTF-8, with lone surrogates encoded like any
  * other three-byte character. Bit masks and shifts on disjoint bits are written as arithmetic. */
module Utf8 {
  import opened Views

  type Unit = u: int | 0 <= u < 0x1_0000 witness 0

  predicate High(c: int) { 0xD800 <= c < 0xDC00 }
  predicate Low(c: int) { 0xDC00 <= c < 0xE000 }

  // ---------- encoding ----------

  /** A code point: x, y and z are its low, middle and high byte, each still in place. */
  function EncodePoint(c: int): (s: seq<Byte>)
    requires 0 <= c < 0x11_0000
    ensures 1 <= |s| <= 4
  {
    if c < 0x80 then [c]
    else
      var x, y, z := c % 0x100, c / 0x100 % 0x100 * 0x100, c / 0x1_0000 * 0x1_0000;
      if c <= 0x7ff then [0xc0 + y / 64 + x / 64, 0x80 + x % 64]
      else if c <= 0xffff then [0xe0 + y / 4096, 0x80 + y / 64 % 64 + x / 64, 0x80 + x % 64]
      else [0xf0 + z / 0x4_0000, 0x80 + z / 4096 % 64 + y / 4096, 0x80 + y / 64 % 64 + x / 64, 0x80 + x % 64]
  }

  function Combine(c: int, nextc: int): int {
    c % 0x400 * 0x400 + nextc % 0x400 + 0x1_0000
  }

  /** A high surrogate directly followed by a low one is one code point. */
  predicate Paired(str: seq<Unit>) {
    |str| >= 2 && High(str[0]) && Low(str[1])
  }

  function Encode(str: seq<Unit>): seq<Byte> {
    if str == [] then []
    else if Paired(str) then EncodePoint(Combine(str[0], str[1])) + Encode(str[2..])
    else EncodePoint(str[0]) + Encode(str[1..])
  }

  lemma EncodeAt(str: seq<Unit>, i: nat, u8: seq<Byte>)
    requires i < |str|
    ensures
      if High(str[i]) && i + 1 < |str| && Low(str[i + 1])
      then u8 + Encode(str[i..]) == u8 + EncodePoint(Combine(str[i], str[i + 1])) + Encode(str[i + 2..])
      else u8 + Encode(str[i..]) == u8 + EncodePoint(str[i]) + Encode(str[i + 1..])
  {
    hide EncodePoint, Combine;
    var rest := str[i..];
    assert rest[1..] == str[i + 1..];
    if Paired(rest) { assert rest[2..] == str[i + 2..]; }
  }

  method EncodeUTF8(str: seq<Unit>) returns (u8: seq<Byte>)
    ensures u8 == Encode(str)
  {
    hide Encode, Combine;
    u8 := [];
    var i := 0;
    assert str[0..] == str;
    while i < |str|
      invariant 0 <= i <= |str|
      invariant Encode(str) == u8 + Encode(str[i..])
    {
      EncodeAt(str, i, u8);
      var c: int := str[i];
      if c < 0x80 {
        u8 := u8 + [c];
      } else {
        if High(c) && i + 1 < |str| && Low(str[i + 1]) {
          CombineRange(str[i], str[i + 1]);
          c := Combine(c, str[i + 1]);
          i := i + 1;
        }
        u8 := u8 + EncodePoint(c);
      }
      i := i + 1;
    }
    assert str[i..] == [];
    EncodeNone();
  }

  lemma EncodeNone()
    ensures Encode([]) == []
  {
  }

  lemma CombineRange(a: Unit, b: Unit)
    requires High(a) && Low(b)
    ensures 0x1_0000 <= Combine(a, b) <= 0x10_ffff
  {
  }

  // ---------- decoding ----------

  function At(u8: seq<Byte>, i: nat): int {
    if i < |u8| then u8[i] else -1
  }

  /** A byte 10xxxxxx; what lies past the end of the array is none. */
  predicate Continuation(b: int) {
    0x80 <= b < 0xC0
  }

  /** The units of a decoded number: one, a surrogate pair, or nothing past U+10FFFF. */
  function Units(c: int): seq<Unit>
    requires 0 <= c < 0x20_0000
  {
    if c <= 0xffff then [c]
    else if c <= 0x10ffff then [0xD800 + (c - 0x1_0000) / 0x400, 0xDC00 + (c - 0x1_0000) % 0x400]
    else []
  }

  /** One round of the decoder at the head of u8: the units it appends and the bytes it uses up. A lead
    * byte without its continuation bytes is skipped alone. */
  function DecodeStep(u8: seq<Byte>): (r: (seq<Unit>, nat))
    requires u8 != []
    ensures 1 <= r.1 <= |u8|
  {
    var c, b2, b3, b4 := u8[0], At(u8, 1), At(u8, 2), At(u8, 3);
    if c < 0x80 then ([c], 1)
    else if 0xF0 <= c < 0xF8 then
      if Continuation(b2) && Continuation(b3) && Continuation(b4)
      then (Units(c % 8 * 0x4_0000 + b2 % 64 * 4096 + b3 % 64 * 64 + b4 % 64), 4)
      else ([], 1)
    else if 0xE0 <= c < 0xF0 then
      if Continuation(b2) && Continuation(b3) then (Units(c % 16 * 4096 + b2 % 64 * 64 + b3 % 64), 3)
      else ([], 1)
    else if 0xC0 <= c < 0xE0 then
      if Continuation(b2) then (Units(c % 32 * 64 + b2 % 64), 2) else ([], 1)
    else ([], 1)
  }

  function Decode(u8: seq<Byte>): seq<Unit> {
    if u8 == [] then []
    else
      var (units, n) := DecodeStep(u8);
      units + Decode(u8[n..])
  }

  method DecodeUTF8(u8: seq<Byte>) returns (str: seq<Unit>)
    ensures str == Decode(u8)
  {
    str := [];
    var i := 0;
    while i < |u8|
      invariant 0 <= i <= |u8|
      invariant Decode(u8) == str + Decode(u8[i..])
      decreases |u8| - i
    {
      ghost var rest := u8[i..];
      var (units, n) := DecodeStep(u8[i..]);
      str := str + units;
      i := i + n;
      assert rest[n..] == u8[i..];
    }
  }

  /** What a decoder may meet besides encoded strings: a byte that starts nothing is skipped, so is a lead byte
    * whose continuation is missing. */
  lemma StrayBytes(b: Byte, rest: seq<Byte>)
    ensures 0x80 <= b < 0xC0 || b >= 0xF8 ==> Decode([b] + rest) == Decode(rest)
    ensures 0xC0 <= b < 0xE0 && (rest == [] || !Continuation(rest[0])) ==> Decode([b] + rest) == Decode(rest)
    ensures 0xE0 <= b < 0xF0 && (|rest| < 2 || !Continuation(rest[0]) || !Continuation(rest[1])) ==>
      Decode([b] + rest) == Decode(rest)
    ensures 0xF0 <= b < 0xF8 ==>
      |rest| < 3 || !Continuation(rest[0]) || !Continuation(rest[1]) || !Continuation(rest[2]) ==>
      Decode([b] + rest) == Decode(rest)
  {
    var all := [b] + rest;
    assert all[1..] == rest && all[0] == b;
    assert forall i :: 0 < i < 4 ==> At(all, i) == if i <= |rest| then rest[i - 1] else -1;
    assert Decode(all) == DecodeStep(all).0 + Decode(all[DecodeStep(all).1..]);
    hide Decode;
  }

  /** Two bytes may stand for a character that needs one; a number past the last code point is dropped. */
  lemma OddNumbers(rest: seq<Byte>)
    ensures Decode([0xC0, 0x80] + rest) == [0] + Decode(rest)
    ensures Decode([0xF4, 0x90, 0x80, 0x80] + rest) == Decode(rest)
  {
    var two, four := [0xC0, 0x80] + rest, [0xF4, 0x90, 0x80, 0x80] + rest;
    assert two[2..] == rest && four[4..] == rest;
    assert DecodeStep(two) == ([0], 2);
    assert DecodeStep(four) == ([], 4);
    assert Decode(two) == DecodeStep(two).0 + Decode(two[2..]);
    assert Decode(four) == DecodeStep(four).0 + Decode(four[4..]);
  }

  /** A single unit is its own code point, a lone surrogate included; a pair is U+10000 and up, ten bits each. */
  lemma EncodeSingle(c: Unit)
    ensures Encode([c]) == EncodePoint(c)
  {
    assert [c][1..] == [] && EncodePoint(c) + [] == EncodePoint(c);
  }

  lemma EncodePair(c: Unit, d: Unit)
    requires High(c) && Low(d)
    ensures Combine(c, d) == 0x1_0000 + (c - 0xD800) * 0x400 + (d - 0xDC00)
    ensures Combine(c, d) <= 0x10_FFFF && Encode([c, d]) == EncodePoint(Combine(c, d))
  {
    TenBitsEach(c, d);
    hide EncodePoint, Combine;
    var pair: seq<Unit> := [c, d];
    assert pair[2..] == [] && EncodePoint(Combine(c, d)) + Encode([]) == EncodePoint(Combine(c, d));
  }

  lemma TenBitsEach(c: Unit, d: Unit)
    requires High(c) && Low(d)
    ensures Combine(c, d) == 0x1_0000 + (c - 0xD800) * 0x400 + (d - 0xDC00)
    ensures 0x1_0000 <= Combine(c, d) <= 0x10_FFFF
  {
  }

  // ---------- round trip ----------

  /** The same bytes written by groups of six bits. */
  function SixBitForm(c: int): (s: seq<Byte>)
    requires 0 <= c < 0x11_0000
  {
    if c < 0x80 then [c]
    else if c <= 0x7ff then [0xc0 + c / 64, 0x80 + c % 64]
    else if c <= 0xffff then [0xe0 + c / 4096, 0x80 + c / 64 % 64, 0x80 + c % 64]
    else [0xf0 + c / 0x4_0000, 0x80 + c / 4096 % 64, 0x80 + c / 64 % 64, 0x80 + c % 64]
  }

  /** c in mixed digits: six-bit groups, the two middle ones split where byte boundaries cut them. */
  ghost predicate Digits(c: int, d3: int, e2: int, f2: int, e1: int, f1: int, d0: int) {
    && 0 <= d3 < 8 && 0 <= e2 < 4 && 0 <= f2 < 16 && 0 <= e1 < 16 && 0 <= f1 < 4 && 0 <= d0 < 64
    && c == d3 * 0x4_0000 + e2 * 0x1_0000 + f2 * 0x1000 + e1 * 0x100 + f1 * 0x40 + d0
  }

  lemma SplitDigits(c: int) returns (d3: int, e2: int, f2: int, e1: int, f1: int, d0: int)
    requires 0 <= c < 0x20_0000
    ensures Digits(c, d3, e2, f2, e1, f1, d0)
  {
    d3 := c / 0x4_0000;
    var r := c % 0x4_0000;
    e2, r := r / 0x1_0000, r % 0x1_0000;
    f2, r := r / 0x1000, r % 0x1000;
    e1, r := r / 0x100, r % 0x100;
    f1, d0 := r / 0x40, r % 0x40;
  }

  lemma ByByte(c: int, d3: int, e2: int, f2: int, e1: int, f1: int, d0: int)
    requires Digits(c, d3, e2, f2, e1, f1, d0)
    ensures c % 0x100 == f1 * 64 + d0
    ensures c / 0x100 % 0x100 == f2 * 16 + e1
    ensures c / 0x1_0000 == d3 * 4 + e2
  {
    var h := d3 * 4 + e2;
    assert c / 0x100 == h * 0x100 + (f2 * 16 + e1);
  }

  lemma BySixBits(c: int, d3: int, e2: int, f2: int, e1: int, f1: int, d0: int)
    requires Digits(c, d3, e2, f2, e1, f1, d0)
    ensures c % 64 == d0 && c / 64 == d3 * 4096 + e2 * 1024 + f2 * 64 + e1 * 4 + f1
    ensures c / 64 % 64 == e1 * 4 + f1
    ensures c / 4096 == d3 * 64 + e2 * 16 + f2 && c / 4096 % 64 == e2 * 16 + f2
    ensures c / 0x4_0000 == d3
  {
  }

  lemma Shifts(d3: int, e2: int, f2: int, e1: int, f1: int, d0: int)
    requires 0 <= d3 < 8 && 0 <= e2 < 4 && 0 <= f2 < 16 && 0 <= e1 < 16 && 0 <= f1 < 4 && 0 <= d0 < 64
    ensures var x := f1 * 64 + d0; x % 64 == d0 && x / 64 == f1
    ensures var y := (f2 * 16 + e1) * 0x100; y / 64 == f2 * 64 + e1 * 4 && y / 64 % 64 == e1 * 4 && y / 4096 == f2
    ensures var z := (d3 * 4 + e2) * 0x1_0000; z / 4096 % 64 == e2 * 16 && z / 0x4_0000 == d3
  {
    assert (d3 * 4 + e2) * 0x1_0000 / 4096 == d3 * 64 + e2 * 16;
  }

  lemma SixBitFormSame(c: int)
    requires 0 <= c < 0x11_0000
    ensures EncodePoint(c) == SixBitForm(c)
  {
    var d3, e2, f2, e1, f1, d0 := SplitDigits(c);
    hide Digits;
    ByByte(c, d3, e2, f2, e1, f1, d0);
    BySixBits(c, d3, e2, f2, e1, f1, d0);
    DigitsBound(c, d3, e2, f2, e1, f1, d0);
    Shifts(d3, e2, f2, e1, f1, d0);
  }

  lemma DigitsBound(c: int, d3: int, e2: int, f2: int, e1: int, f1: int, d0: int)
    requires Digits(c, d3, e2, f2, e1, f1, d0)
    ensures 0 <= d3 < 8 && 0 <= e2 < 4 && 0 <= f2 < 16 && 0 <= e1 < 16 && 0 <= f1 < 4 && 0 <= d0 < 64
    ensures c <= 0xffff ==> d3 == e2 == 0
    ensures c <= 0x7ff ==> f2 == 0
  {
  }

  lemma FromSixBits(c: nat)
    requires c < 0x20_0000
    ensures c == c / 64 * 64 + c % 64
    ensures c == c / 4096 * 4096 + c / 64 % 64 * 64 + c % 64
    ensures c == c / 0x4_0000 * 0x4_0000 + c / 4096 % 64 * 4096 + c / 64 % 64 * 64 + c % 64
  {
    var d3, e2, f2, e1, f1, d0 := SplitDigits(c);
    BySixBits(c, d3, e2, f2, e1, f1, d0);
  }

  lemma DecodeOne(c: int, t: seq<Byte>)
    requires 0 <= c < 0x80
    ensures DecodeStep([c] + t) == (Units(c), 1)
  {
  }

  lemma DecodeTwo(h: int, a: int, t: seq<Byte>)
    requires 0 <= h < 32 && 0 <= a < 64
    ensures DecodeStep([0xc0 + h, 0x80 + a] + t) == (Units(h * 64 + a), 2)
  {
    hide Units;
  }

  lemma DecodeThree(h: int, a: int, b: int, t: seq<Byte>)
    requires 0 <= h < 16 && 0 <= a < 64 && 0 <= b < 64
    ensures DecodeStep([0xe0 + h, 0x80 + a, 0x80 + b] + t) == (Units(h * 4096 + a * 64 + b), 3)
  {
    hide Units;
  }

  lemma DecodeFour(h: int, a: int, b: int, d: int, t: seq<Byte>)
    requires 0 <= h < 8 && 0 <= a < 64 && 0 <= b < 64 && 0 <= d < 64
    ensures DecodeStep([0xf0 + h, 0x80 + a, 0x80 + b, 0x80 + d] + t)
            == (Units(h * 0x4_0000 + a * 4096 + b * 64 + d), 4)
  {
    hide Units;
  }

  /** Decoding the encoding of one code point, whatever follows it. */
  lemma DecodePoint(c: int, t: seq<Byte>)
    requires 0 <= c < 0x11_0000
    ensures DecodeStep(EncodePoint(c) + t) == (Units(c), |EncodePoint(c)|)
  {
    hide EncodePoint, Units;
    SixBitFormSame(c);
    FromSixBits(c);
    if c < 0x80 {
      DecodeOne(c, t);
    } else if c <= 0x7ff {
      DecodeTwo(c / 64, c % 64, t);
    } else if c <= 0xffff {
      DecodeThree(c / 4096, c / 64 % 64, c % 64, t);
    } else {
      DecodeFour(c / 0x4_0000, c / 4096 % 64, c / 64 % 64, c % 64, t);
    }
  }

  lemma PairSplits(a: Unit, b: Unit)
    requires High(a) && Low(b)
    ensures 0x1_0000 <= Combine(a, b) <= 0x10_ffff && Units(Combine(a, b)) == [a, b]
  {
  }

  /** Every sequence of code units, lone surrogates included, survives. */
  lemma {:induction false} DecodeEncode(str: seq<Unit>)
    ensures Decode(Encode(str)) == str
  {
    if str != [] {
      var n, c := 1, str[0] as int;
      if Paired(str) {
        PairSplits(str[0], str[1]);
        n, c := 2, Combine(str[0], str[1]);
      }
      var t := Encode(str[n..]);
      DecodePoint(c, t);
      assert (EncodePoint(c) + t)[|EncodePoint(c)|..] == t;
      DecodeEncode(str[n..]);
      assert str == Units(c) + str[n..];
    }
  }

  // ---------- well-formedness ----------

  /** A byte sequence of one character in the syntax of section 4 of RFC 3629, and its length. */
  ghost function CharLength(u8: seq<Byte>): nat
    requires u8 != []
  {
    var c, b2, b3, b4 := u8[0], At(u8, 1), At(u8, 2), At(u8, 3);
    if c <= 0x7F then 1
    else if 0xC2 <= c <= 0xDF && Continuation(b2) then 2
    else if Continuation(b2) && Continuation(b3) && (
        || (c == 0xE0 && b2 >= 0xA0)
        || 0xE1 <= c <= 0xEC
        || (c == 0xED && b2 <= 0x9F)
        || 0xEE <= c <= 0xEF) then 3
    else if Continuation(b2) && Continuation(b3) && Continuation(b4) && (
        || (c == 0xF0 && b2 >= 0x90)
        || 0xF1 <= c <= 0xF3
        || (c == 0xF4 && b2 <= 0x8F)) then 4
    else 0
  }

  ghost predicate WellFormed8(u8: seq<Byte>) {
    u8 == [] || (0 < CharLength(u8) <= |u8| && WellFormed8(u8[CharLength(u8)..]))
  }

  /** Surrogates occur in pairs only. */
  ghost predicate WellFormed16(str: seq<Unit>) {
    if str == [] then true
    else if Paired(str) then WellFormed16(str[2..])
    else !High(str[0]) && !Low(str[0]) && WellFormed16(str[1..])
  }

  lemma PointLength(c: int, t: seq<Byte>)
    requires 0 <= c < 0x11_0000
    ensures CharLength(EncodePoint(c) + t) == if High(c) || Low(c) then 0 else |EncodePoint(c)|
  {
    hide EncodePoint;
    SixBitFormSame(c);
    FromSixBits(c);
  }

  /** The output is well-formed UTF-8 exactly if the string is well-formed UTF-16. */
  lemma {:induction false} WellFormedness(str: seq<Unit>)
    ensures WellFormed8(Encode(str)) <==> WellFormed16(str)
  {
    if str != [] {
      var n, c := 1, str[0] as int;
      if Paired(str) {
        PairSplits(str[0], str[1]);
        n, c := 2, Combine(str[0], str[1]);
      }
      var t := Encode(str[n..]);
      PointLength(c, t);
      assert (EncodePoint(c) + t)[|EncodePoint(c)|..] == t;
      WellFormedness(str[n..]);
    }
  }
}
