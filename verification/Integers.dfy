/** The numeric field types: how each value is written, read back and converted. */
module Integers {
  import opened Views
  import opened Int64
  import opened Streams
  import opened Varint

  // ---------- base-128 encodings are read back exactly ----------

  /** A reader with room for all groups consumes the encoding of u and nothing else. */
  lemma {:induction false} CollectVar(u: nat, t: seq<Byte>, v: View, k: nat)
    requires v.rest == Var128(u) + t && k >= |Var128(u)|
    ensures
      var g := Collect(v, k);
      && !g.nan && g.after == v.(rest := t)
      && Sum128(g.digits) == u && |g.digits| == |Var128(u)|
    decreases u
  {
    if u < 128 {
      assert Sum128([u]) == u + 128 * Sum128([]);
    } else {
      var w := v.(rest := Var128(u / 128) + t);
      assert v.rest[0] == u % 128 + 128 && v.rest[1..] == w.rest;
      CollectVar(u / 128, t, w, k - 1);
      var ds := Collect(w, k - 1).digits;
      assert ([u % 128] + ds)[1..] == ds;
    }
  }

  lemma {:induction false} VarLength(u: nat, k: nat)
    requires k > 0 && u < Pow128(k)
    ensures |Var128(u)| <= k
    decreases k
  {
    if u >= 128 { VarLength(u / 128, k - 1); }
  }

  lemma WordLengths(u: nat)
    ensures u < W64 ==> |Var128(u)| <= 10
    ensures u < W ==> |Var128(u)| <= 5
  {
    Pow5();
    if u < W { VarLength(u, 5); }
    if u < W64 {
      assert Pow128(8) == 0x100_0000_0000_0000 by { assert Pow128(6) == 0x400_0000_0000; }
      VarLength(u, 10);
    }
  }

  /** The bits of a complete base-128 number: only its last byte is below 128. */
  ghost function Meaning(s: seq<Byte>): nat {
    if s == [] then 0 else s[0] % 128 + 128 * Meaning(s[1..])
  }

  ghost predicate Complete(s: seq<Byte>) {
    && s != [] && s[|s| - 1] < 128
    && forall i :: 0 <= i < |s| - 1 ==> s[i] >= 128
  }

  /** No complete base-128 number with the same meaning is shorter than the one written. */
  lemma {:induction false} Shortest(s: seq<Byte>)
    requires Complete(s)
    ensures |Var128(Meaning(s))| <= |s|
  {
    if |s| > 1 {
      Shortest(s[1..]);
      assert Meaning(s) / 128 == Meaning(s[1..]);
    } else {
      assert Meaning(s[1..]) == 0;
    }
  }

  lemma CompleteStep(b: Byte, s: seq<Byte>)
    requires b >= 128 && Complete(s)
    ensures Complete([b] + s) && Meaning([b] + s) == b % 128 + 128 * Meaning(s)
  {
    assert ([b] + s)[1..] == s;
  }

  lemma {:induction false} VarComplete(u: nat)
    ensures Complete(Var128(u)) && Meaning(Var128(u)) == u
  {
    if u >= 128 {
      VarComplete(u / 128);
      CompleteStep(u % 128 + 128, Var128(u / 128));
    } else {
      assert Meaning([u]) == u + 128 * Meaning([]);
    }
  }

  /** Over the whole 64-bit range the parser returns the number and stops right after it. */
  lemma ParseVarInverts(u: nat, t: seq<Byte>, v: View)
    requires u < W64 && v.rest == Var128(u) + t
    ensures ParseVar(v) == (Some(u), v.(rest := t))
  {
    hide Collect, Var128;
    WordLengths(u);
    CollectVar(u, t, v, 10);
  }

  // ---------- writing base-128 numbers ----------

  function Window(i: nat): nat {
    if i == 0 then 0x1_0000_0000 else if i == 1 then 0x200_0000 else if i == 2 then 0x4_0000
    else if i == 3 then 0x800 else 16
  }

  /** The number whose low part is temp and whose high part msw sits above window i. */
  ghost function Above(temp: nat, msw: nat, i: nat): nat {
    temp + msw * Window(i)
  }

  lemma AboveEnds(temp: nat, msw: nat)
    ensures Above(temp, msw, 0) == msw * W + temp && Above(temp, msw, 4) == temp + msw * 16
  {
  }

  /** One group out of a number whose low part is temp and whose high part msw sits above w. */
  lemma EncodeStep(temp: nat, msw: nat, i: nat)
    requires i < 4 && temp < Window(i)
    ensures
      var u, rest := Above(temp, msw, i), Above(temp / 128, msw, i + 1);
      && temp / 128 < Window(i + 1)
      && Var128(u) == (if temp / 128 == 0 && msw == 0 then [temp % 128] else [temp % 128 + 128] + Var128(rest))
  {
    var w := Window(i + 1);
    var high := msw * w;
    assert Window(i) == 128 * w;
    assert msw * Window(i) == 128 * high;
    assert (temp + 128 * high) % 128 == temp % 128 && (temp + 128 * high) / 128 == temp / 128 + high;
    if msw > 0 { assert high >= w; }
  }

  function HighWindow(i: nat): nat {
    if i <= 5 then 0x2000_0000 else if i == 6 then 0x40_0000 else if i == 7 then 0x8000
    else if i == 8 then 0x100 else 2
  }

  lemma LastGroup(arr: seq<Byte>, temp: nat)
    requires temp < 128
    ensures Var128(temp) == [temp]
  {
  }

  lemma MoreGroups(arr: seq<Byte>, temp: nat)
    requires temp >= 128
    ensures arr + Var128(temp) == arr + [temp % 128 + 128] + Var128(temp / 128)
  {
  }

  /** The group with four bits of the low word and three of the high one. */
  lemma MixedGroup(temp: nat, msw: nat)
    requires temp < 16
    ensures
      var u, mixed := temp + msw * 16, temp % 16 + msw % 8 * 16;
      mixed == u % 128 && msw / 8 == u / 128
  {
  }

  method SerializeToLEVar128(x: I64) returns (arr: seq<Byte>)
    requires x.Words()
    ensures arr == Var128(x.Magnitude())
  {
    hide Var128, Window, Above;
    arr := [];
    var temp := x.lsw;
    WindowEnds();
    AboveEnds(temp, x.msw);
    for i := 0 to 4
      invariant 0 <= temp < Window(i)
      invariant Var128(x.Magnitude()) == arr + Var128(Above(temp, x.msw, i))
    {
      EncodeStep(temp, x.msw, i);
      var low := temp % 128;
      temp := temp / 128;
      if temp == 0 && x.msw == 0 {
        return arr + [low];
      }
      ghost var rest := Var128(Above(temp, x.msw, i + 1));
      assert arr + ([low + 128] + rest) == arr + [low + 128] + rest;
      arr := arr + [low + 128];
    }
    AboveEnds(temp, x.msw);
    ghost var u := temp + x.msw * 16;
    MixedGroup(temp, x.msw);
    var mixed := temp % 16 + x.msw % 8 * 16;
    temp := x.msw / 8;
    if temp == 0 {
      LastGroup(arr, u);
      return arr + [mixed];
    }
    MoreGroups(arr, u);
    arr := arr + [mixed + 128];
    arr := SerializeHigh(temp, arr);
  }

  /** The last loop: what is left of the high word, seven bits at a time. */
  method SerializeHigh(high: int, start: seq<Byte>) returns (arr: seq<Byte>)
    requires 0 < high < HighWindow(5)
    ensures arr == start + Var128(high)
  {
    hide Var128;
    arr := start;
    var temp := high;
    for i := 5 to 10
      invariant i < 10 ==> 0 < temp < HighWindow(i) && start + Var128(high) == arr + Var128(temp)
      invariant i == 10 ==> arr == start + Var128(high)
    {
      var low := temp % 128;
      if temp < 128 { LastGroup(arr, temp); } else { MoreGroups(arr, temp); }
      temp := temp / 128;
      if temp == 0 {
        return arr + [low];
      }
      arr := arr + [low + 128];
    }
  }

  lemma WindowEnds()
    ensures Window(0) == W && Window(4) == 16
  {
  }

  // ---------- values and types ----------

  /** Numbers of the 32-bit types (a boolean is 0 or 1), and two-word numbers of the 64-bit types. */
  datatype Scalar = Num(n: int) | Wide(w: I64)

  datatype NumType =
    | Int32 | SInt32 | UInt32 | Bool | Enum | Int64 | SInt64 | UInt64
    | Fixed32 | SFixed32 | Fixed64 | SFixed64
  {
    function WireType(): int {
      match this
      case Fixed32 => 5
      case SFixed32 => 5
      case Fixed64 => 1
      case SFixed64 => 1
      case _ => 0
    }

    function Zero(): Scalar {
      if Int64? || SInt64? || UInt64? || Fixed64? || SFixed64? then Wide(I64(0, 0, 1)) else Num(0)
    }

    /** The values `Convert` lets into a message. */
    ghost predicate Holds(x: Scalar) {
      match this
      case UInt32 => x.Num? && 0 <= x.n < W
      case Fixed32 => x.Num? && 0 <= x.n < W
      case Bool => x.Num? && 0 <= x.n <= 1
      case Int64 => x.Wide? && x.w.Signed()
      case SInt64 => x.Wide? && x.w.Signed()
      case SFixed64 => x.Wide? && x.w.Signed()
      case UInt64 => x.Wide? && x.w.Unsigned()
      case Fixed64 => x.Wide? && x.w.Unsigned()
      case _ => x.Num? && -W / 2 <= x.n < W / 2
    }
  }

  /** `Convert` on what a parser returned; None stands for the exception it throws. */
  function Convert(ty: NumType, x: Scalar): Option<Scalar> {
    if x.Wide? then Some(x)
    else match ty
      case Bool => Some(Num(if x.n != 0 then 1 else 0))
      case Enum => Some(x)
      case UInt32 => if 0 <= x.n <= 4294967295 then Some(x) else None
      case Fixed32 => if 0 <= x.n <= 4294967295 then Some(x) else None
      case _ => if -2147483648 <= x.n <= 2147483647 then Some(x) else None
  }

  // ---------- encodings ----------

  function Base256(u: nat, k: nat): (s: seq<Byte>)
    ensures |s| == k
    decreases k
  {
    if k == 0 then [] else [u % 256] + Base256(u / 256, k - 1)
  }

  function Zigzag32(n: int): int {
    if n < 0 then -n * 2 - 1 else n * 2
  }

  /** The number each variable-length type puts on the wire. */
  ghost function WireNumber(ty: NumType, x: Scalar): (u: nat)
    requires ty.Holds(x)
    ensures u < W64
  {
    match ty
    case SInt32 => Zigzag32(x.n)
    case SInt64 => x.w.ConvertFromUnsigned().ConvertToZigzag().Value()
    case Int64 => x.w.ConvertToUnsigned().Value()
    case UInt64 => x.w.ConvertToUnsigned().Value()
    case SFixed64 => x.w.ConvertToUnsigned().Value()
    case Fixed64 => x.w.Value()
    case _ => if x.n < 0 then (if ty.WireType() == 5 then x.n + W else x.n + W64) else x.n
  }

  ghost function Encode(ty: NumType, x: Scalar): (s: seq<Byte>)
    requires ty.Holds(x)
    ensures |s| >= 1
  {
    var u := WireNumber(ty, x);
    if ty.WireType() == 5 then Base256(u, 4) else if ty.WireType() == 1 then Base256(u, 8) else Var128(u)
  }

  /** The same number in a 32-bit type and in its 64-bit counterpart is the same on the wire. */
  lemma WidthsAgree(n: int)
    requires -W / 2 <= n < W / 2
    ensures WireNumber(Int32, Num(n)) == WireNumber(Int64, Wide(FromNumber(n))) == WireNumber(Enum, Num(n))
    ensures WireNumber(SInt32, Num(n)) == WireNumber(SInt64, Wide(FromNumber(n)))
    ensures n >= 0 ==> WireNumber(UInt32, Num(n)) == WireNumber(UInt64, Wide(FromNumber(n))) == n
    ensures WireNumber(SFixed64, Wide(FromNumber(n))) % W == WireNumber(SFixed32, Num(n)) == n % W
  {
    hide FromNumber;
    assert FromNumber(n).Signed() && FromNumber(n).Value() == n;
    if n >= 0 { assert FromNumber(n).Unsigned(); }
  }

  /** Zigzag: 0, -1, 1, -2, ... are 0, 1, 2, 3, ... */
  lemma ZigzagCounts(n: int)
    requires 0 <= n < W / 2
    ensures WireNumber(SInt32, Num(n)) == 2 * n && WireNumber(SInt32, Num(-n - 1)) == 2 * n + 1
  {
  }

  /** A word as four bytes, the least significant first. */
  lemma BytesOfWord(a: Byte, b: Byte, c: Byte, d: Byte)
    ensures Base256(a + b * 0x100 + c * 0x1_0000 + d * 0x100_0000, 4) == [a, b, c, d]
  {
    FirstByte(a, b + 0x100 * (c + 0x100 * d), 3);
    FirstByte(b, c + 0x100 * d, 2);
    FirstByte(c, d, 1);
    FirstByte(d, 0, 0);
    hide Base256;
    assert [a] + ([b] + ([c] + [d])) == [a, b, c, d];
  }

  lemma FirstByte(a: Byte, q: nat, k: nat)
    ensures Base256(a + 0x100 * q, k + 1) == [a] + Base256(q, k)
  {
    var u: nat := a + 0x100 * q;
    assert u % 256 == a && u / 256 == q;
  }

  lemma Pow256Of4()
    ensures Pow256(4) == W
  {
    assert Pow256(2) == 65536;
  }

  /** Eight bytes are those of the low word and then those of the high one. */
  lemma BytesOfWords(low: nat, high: nat)
    requires low < W && high < W
    ensures Base256(high * W + low, 8) == Base256(low, 4) + Base256(high, 4)
  {
    hide Base256, Pow256;
    Base256Split(high * W + low, 4, 4);
    Pow256Of4();
    var p := Pow256(4);
    assert high * W == high * p;
    Base256Low(low, high, high * W, 4);
    ShiftedOut(low);
  }

  /** Fixed types take 4 and 8 bytes and say so in their wire type; all others are varints. */
  lemma FixedLengths(ty: NumType, x: Scalar)
    requires ty.Holds(x)
    ensures ty.Fixed32? || ty.SFixed32? ==> ty.WireType() == 5 && |Encode(ty, x)| == 4
    ensures ty.Fixed64? || ty.SFixed64? ==> ty.WireType() == 1 && |Encode(ty, x)| == 8
    ensures !ty.Fixed32? && !ty.SFixed32? && !ty.Fixed64? && !ty.SFixed64? ==>
      ty.WireType() == 0 && Encode(ty, x) == Var128(WireNumber(ty, x))
  {
  }

  /** `Convert` throws exactly on numbers outside the type's range; anything is a truth value or an enum. */
  lemma ConvertExactly(ty: NumType, n: int)
    requires !ty.Zero().Wide?
    ensures Convert(ty, Num(n)).Some? <==> ty.Bool? || ty.Enum? || ty.Holds(Num(n))
    ensures ty.Bool? ==> Convert(ty, Num(n)) == Some(Num(if n == 0 then 0 else 1))
    ensures !ty.Bool? && Convert(ty, Num(n)).Some? ==> Convert(ty, Num(n)).value == Num(n)
  {
  }

  // ---------- parsers ----------

  function Sum256(ds: seq<int>): int {
    if ds == [] then 0 else ds[0] + 256 * Sum256(ds[1..])
  }

  /** k bytes read one by one: `null` counts as 0 and `undefined` makes the sum NaN. */
  function CollectBytes(v: View, k: nat): (g: Groups)
    ensures forall d :: d in g.digits ==> 0 <= d < 256
    ensures |g.digits| == k
    ensures g.after.Size() <= v.Size() && g.after.ArrayView? == v.ArrayView?
    decreases k
  {
    if k == 0 then Groups([], v, false)
    else
      var (r, w) := v.ReadByte();
      var g := CollectBytes(w, k - 1);
      Groups([if r.Got? then r.b else 0] + g.digits, g.after, g.nan || r == Undefined)
  }

  /** Of a fifth group only four bits fit the 32-bit word. */
  function Masked(ds: seq<int>): (m: seq<int>)
    ensures |m| == |ds|
  {
    if |ds| == 5 then ds[..4] + [ds[4] % 16] else ds
  }

  /** The sum of at most five groups, of the fifth only four bits; the loop stops at `undefined`. */
  function ParseUInt32(v: View): (r: (int, View))
    ensures r.1.Size() <= v.Size() && r.1.ArrayView? == v.ArrayView?
    ensures v.Valid() ==> r.1.Size() < v.Size()
  {
    var g := Collect(v, 5);
    (Sum128(Masked(g.digits)), g.after)
  }

  /** What the parser of a type returns; None stands for NaN. */
  function Parse(ty: NumType, v: View): (r: (Option<Scalar>, View))
    ensures r.1.Size() <= v.Size() && r.1.ArrayView? == v.ArrayView?
  {
    match ty
    case UInt32 => var (n, w) := ParseUInt32(v); (Some(Num(n)), w)
    case Bool => var (n, w) := ParseUInt32(v); (Some(Num(n)), w)
    case SInt32 =>
      var (n, w) := ParseUInt32(v);
      (Some(Num(if n % 2 == 1 then -((n + 1) / 2) else n / 2)), w)
    case Fixed32 =>
      var g := CollectBytes(v, 4);
      var n := Sum256(g.digits);
      (if g.nan then None else Some(Num(if n > 2147483647 then n - W else n)), g.after)
    case SFixed32 =>
      var g := CollectBytes(v, 4);
      (if g.nan then None else Some(Num(Sum256(g.digits))), g.after)
    case Fixed64 =>
      var g := CollectBytes(v, 8);
      (if g.nan then None else Some(Wide(Words256(g.digits))), g.after)
    case SFixed64 =>
      var g := CollectBytes(v, 8);
      (if g.nan then None else Some(Wide(Words256(g.digits).ConvertFromUnsigned())), g.after)
    case Int64 =>
      var (u, w) := ParseVar(v);
      (if u.None? then None else Some(Wide(OfValue(u.value).ConvertFromUnsigned())), w)
    case SInt64 =>
      var (u, w) := ParseVar(v);
      (if u.None? then None else Some(Wide(OfValue(u.value).ConvertFromZigzag())), w)
    case UInt64 =>
      var (u, w) := ParseVar(v);
      (if u.None? then None else Some(Wide(OfValue(u.value))), w)
    case _ => ParseInt32(v)
  }

  function ParseInt32(v: View): (r: (Option<Scalar>, View))
    ensures r.1.Size() <= v.Size() && r.1.ArrayView? == v.ArrayView?
    ensures v.Valid() ==> r.1.Size() < v.Size()
    ensures r.0.Some? ==> r.0.value.Num? && -W / 2 <= r.0.value.n < W / 2
  {
    var (u, w) := ParseVar(v);
    if u.None? then (None, w)
    else
      var lsw := OfValue(u.value).lsw;
      (Some(Num(if lsw > 2147483647 then lsw - 2147483647 - 2147483647 - 2 else lsw)), w)
  }

  function Words256(ds: seq<int>): I64
    requires |ds| == 8
  {
    I64(Sum256(ds[4..]), Sum256(ds[..4]), 1)
  }

  // ---------- every type reads back what it wrote ----------

  lemma {:induction false} CollectBase256(u: nat, k: nat, t: seq<Byte>, v: View)
    requires v.rest == Base256(u, k) + t
    ensures var g := CollectBytes(v, k); !g.nan && g.after == v.(rest := t) && g.digits == Base256(u, k)
    decreases k
  {
    if k > 0 {
      var w := v.(rest := Base256(u / 256, k - 1) + t);
      assert v.rest[0] == u % 256 && v.rest[1..] == w.rest;
      CollectBase256(u / 256, k - 1, t, w);
    }
  }

  lemma Base256Sum4(u: nat)
    requires u < W
    ensures Sum256(Base256(u, 4)) == u
  {
    var a, b, c := u / 256, u / 256 / 256, u / 256 / 256 / 256;
    assert Base256(b, 2) == [b % 256, c % 256];
    assert Base256(u, 4) == [u % 256, a % 256] + Base256(b, 2);
    assert Base256(u, 4) == [u % 256, a % 256, b % 256, c];
    SumOf4(u % 256, a % 256, b % 256, c);
  }

  lemma SumOf4(a: int, b: int, c: int, d: int)
    ensures Sum256([a, b, c, d]) == a + 256 * (b + 256 * (c + 256 * d))
  {
    assert [a, b, c, d][1..] == [b, c, d] && [b, c, d][1..] == [c, d] && [c, d][1..] == [d] && [d][1..] == [];
    assert Sum256([c, d]) == c + 256 * Sum256([d]) && Sum256([d]) == d + 256 * Sum256([]);
  }

  lemma {:induction false} Base256Split(u: nat, j: nat, k: nat)
    ensures Base256(u, j + k) == Base256(u, j) + Base256(Shifted(u, j), k)
    decreases j
  {
    if j > 0 { Base256Split(u / 256, j - 1, k); }
  }

  function Shifted(u: nat, j: nat): nat {
    if j == 0 then u else Shifted(u / 256, j - 1)
  }

  lemma {:induction false} Base256Low(u: nat, m: nat, p: nat, k: nat)
    requires p == m * Pow256(k)
    ensures Base256(u + p, k) == Base256(u, k)
    ensures Shifted(u + p, k) == Shifted(u, k) + m
    decreases k
  {
    if k > 0 {
      var q := m * Pow256(k - 1);
      assert p == 256 * q;
      assert (u + 256 * q) % 256 == u % 256 && (u + 256 * q) / 256 == u / 256 + q;
      Base256Low(u / 256, m, q, k - 1);
    }
  }

  function Pow256(k: nat): nat {
    if k == 0 then 1 else 256 * Pow256(k - 1)
  }

  lemma ShiftedOut(u: nat)
    requires u < W
    ensures Shifted(u, 4) == 0
  {
    assert Shifted(u, 4) == Shifted(u / 256, 3);
    assert Shifted(u / 256, 3) == Shifted(u / 256 / 256, 2);
    var y := u / 256 / 256;
    assert Shifted(y, 2) == Shifted(y / 256, 1);
    assert Shifted(y / 256, 1) == Shifted(y / 256 / 256, 0);
  }

  lemma WordsRead(x: I64)
    requires x.Unsigned()
    ensures Words256(Base256(x.Value(), 8)) == x
  {
    Base256Split(x.Value(), 4, 4);
    assert Pow256(4) == W by { assert Pow256(2) == 65536; }
    Base256Low(x.lsw, x.msw, x.msw * W, 4);
    Base256Sum4(x.lsw);
    Base256Sum4(x.msw);
    var s := Base256(x.Value(), 8);
    ShiftedOut(x.lsw);
    assert s[..4] == Base256(x.lsw, 4) && s[4..] == Base256(x.msw, 4);
  }

  lemma ParseUInt32Inverts(u: nat, t: seq<Byte>, v: View)
    requires u < W && v.rest == Var128(u) + t
    ensures ParseUInt32(v) == (u, v.(rest := t))
  {
    hide Collect, Var128, Sum128, Pow128;
    WordLengths(u);
    CollectVar(u, t, v, 5);
    var ds := Collect(v, 5).digits;
    if |ds| == 5 {
      var low, high := ds[..4], ds[4];
      assert ds == low + [high];
      SumAppend(low, high);
      Pow4();
      assert forall d :: d in low ==> d in ds;
      SumSmall(low);
      assert |low| == 4 && u == Sum128(low) + 268435456 * high;
      assert high in ds && high < 16;
      assert low + [high % 16] == ds;
    }
  }

  /** What the parsers make of numbers too large for them: those of up to five groups are read modulo 2^32, those
    * of up to ten modulo 2^64, and the signed one takes the low word. */
  lemma ParsedModulo(u: nat, t: seq<Byte>, v: View)
    requires v.rest == Var128(u) + t
    ensures |Var128(u)| <= 5 ==> ParseUInt32(v) == (u % W, v.(rest := t))
    ensures |Var128(u)| <= 10 ==> ParseVar(v) == (Some(u % W64), v.(rest := t))
    ensures |Var128(u)| <= 10 ==>
      var low := u % W64 % W;
      ParseInt32(v) == (Some(Num(if low < W / 2 then low else low - W)), v.(rest := t))
  {
    hide Var128, Collect;
    if |Var128(u)| <= 5 {
      CollectVar(u, t, v, 5);
      MaskedModulo(Collect(v, 5).digits);
    }
    if |Var128(u)| <= 10 { CollectVar(u, t, v, 10); }
  }

  lemma MaskedModulo(ds: seq<int>)
    requires |ds| <= 5 && forall d :: d in ds ==> 0 <= d < 128
    ensures Sum128(Masked(ds)) == Sum128(ds) % W
  {
    if |ds| == 5 {
      assert ds == ds[..4] + [ds[4]] && ds[4] in ds && forall d :: d in ds[..4] ==> d in ds;
      MaskedTop(ds[..4], ds[4]);
    } else {
      SumBelow(ds);
      PowBelow(|ds|);
      hide Sum128, Pow128;
    }
  }

  lemma MaskedTop(front: seq<int>, d: int)
    requires |front| == 4 && 0 <= d < 128 && forall e :: e in front ==> 0 <= e < 128
    ensures Sum128(front + [d % 16]) == Sum128(front + [d]) % W
  {
    hide Sum128, Pow128;
    SumAppend(front, d);
    SumAppend(front, d % 16);
    Pow4();
    SumBelow(front);
    TopGroup(Sum128(front), d);
  }

  lemma TopGroup(low: int, d: int)
    requires 0 <= low < 268435456 && 0 <= d < 128
    ensures low + 268435456 * (d % 16) == (low + 268435456 * d) % W
  {
    var q, r := d / 16, d % 16;
    assert low + 268435456 * d == q * W + (low + 268435456 * r);
  }

  lemma PowBelow(k: nat)
    requires k <= 4
    ensures Pow128(k) <= W
  {
    Pow4();
    assert Pow128(0) == 1 && Pow128(1) == 128 && Pow128(2) == 16384 && Pow128(3) == 2097152;
  }

  lemma {:induction false} SumBelow(ds: seq<int>)
    requires forall d :: d in ds ==> 0 <= d < 128
    ensures 0 <= Sum128(ds) < Pow128(|ds|)
  {
    if ds != [] {
      assert ds[0] in ds && forall d :: d in ds[1..] ==> d in ds;
      SumBelow(ds[1..]);
    }
  }

  lemma Pow4()
    ensures Pow128(4) == 268435456
  {
    assert Pow128(2) == 16384;
  }

  lemma {:induction false} SumSmall(ds: seq<int>)
    requires forall d :: d in ds ==> 0 <= d < 128
    ensures Sum128(ds) >= 0
  {
    if ds != [] {
      assert ds[0] in ds;
      assert forall d :: d in ds[1..] ==> d in ds;
      SumSmall(ds[1..]);
    }
  }

  /** The values whose 4-byte types survive: the two parsers are crossed, so that each reads the other's
    * half of the range. */
  ghost predicate Survives(ty: NumType, x: Scalar)
    requires ty.Holds(x)
  {
    match ty
    case Fixed32 => x.n <= 2147483647
    case SFixed32 => x.n >= 0
    case _ => true
  }

  /** For every type and every value of it: the parser consumes exactly the encoding, and after `Convert`
    * the value is back; for the two crossed types exactly on the half where signs agree, and otherwise
    * `Convert` throws. */
  lemma ParseInverts(ty: NumType, x: Scalar, t: seq<Byte>, v: View)
    requires ty.Holds(x) && v.rest == Encode(ty, x) + t
    ensures
      var (r, w) := Parse(ty, v);
      && w == v.(rest := t) && r.Some?
      && Convert(ty, r.value) == (if Survives(ty, x) then Some(x) else None)
  {
    hide Var128, Base256, ParseVar, ParseUInt32, CollectBytes, OfValue, Words256, ParseInt32;
    match ty {
      case Fixed32 => FixedRead(WireNumber(ty, x), t, v);
      case SFixed32 => FixedRead(WireNumber(ty, x), t, v);
      case UInt32 => ParseUInt32Inverts(x.n, t, v);
      case Bool => ParseUInt32Inverts(x.n, t, v);
      case SInt32 => ParseUInt32Inverts(Zigzag32(x.n), t, v);
      case Fixed64 => ParseWideInverts(ty, x, t, v);
      case SFixed64 => ParseWideInverts(ty, x, t, v);
      case Int64 => ParseWideInverts(ty, x, t, v);
      case UInt64 => ParseWideInverts(ty, x, t, v);
      case SInt64 => ParseWideInverts(ty, x, t, v);
      case _ => Int32Read(x.n, t, v);
    }
  }

  /** The part of `ParseInverts` for the 64-bit types. */
  lemma ParseWideInverts(ty: NumType, x: Scalar, t: seq<Byte>, v: View)
    requires ty.Holds(x) && v.rest == Encode(ty, x) + t && x.Wide?
    ensures Parse(ty, v) == (Some(x), v.(rest := t)) && Convert(ty, x) == Some(x)
  {
    hide Var128, Base256, ParseVar, CollectBytes, OfValue, Words256;
    match ty {
      case Fixed64 => WideFixedRead(x.w, t, v);
      case SFixed64 =>
        WideFixedRead(x.w.ConvertToUnsigned(), t, v);
        TwosComplementRoundTrip(x.w);
      case Int64 =>
        WordsParsed(x.w.ConvertToUnsigned(), t, v);
        TwosComplementRoundTrip(x.w);
      case UInt64 => WordsParsed(x.w, t, v);
      case SInt64 =>
        WordsParsed(x.w.ConvertFromUnsigned().ConvertToZigzag(), t, v);
        ZigzagRoundTrip(x.w);
    }
  }

  lemma FixedRead(u: nat, t: seq<Byte>, v: View)
    requires u < W && v.rest == Base256(u, 4) + t
    ensures var g := CollectBytes(v, 4); !g.nan && g.after == v.(rest := t) && Sum256(g.digits) == u
  {
    CollectBase256(u, 4, t, v);
    Base256Sum4(u);
  }

  lemma WideFixedRead(x: I64, t: seq<Byte>, v: View)
    requires x.Unsigned() && v.rest == Base256(x.Value(), 8) + t
    ensures var g := CollectBytes(v, 8); !g.nan && g.after == v.(rest := t) && Words256(g.digits) == x
  {
    CollectBase256(x.Value(), 8, t, v);
    WordsRead(x);
  }

  lemma WordsParsed(x: I64, t: seq<Byte>, v: View)
    requires x.Unsigned() && v.rest == Var128(x.Value()) + t
    ensures ParseVar(v) == (Some(x.Value()), v.(rest := t)) && OfValue(x.Value()) == x
  {
    ParseVarInverts(x.Value(), t, v);
    ValueDetermines(OfValue(x.Value()), x);
  }

  lemma Int32Read(n: int, t: seq<Byte>, v: View)
    requires -W / 2 <= n < W / 2 && v.rest == Var128(if n < 0 then n + W64 else n) + t
    ensures ParseInt32(v) == (Some(Num(n)), v.(rest := t))
  {
    hide ParseVar;
    var u := if n < 0 then n + W64 else n;
    ParseVarInverts(u, t, v);
    LowWord(n);
  }

  lemma LowWord(n: int)
    requires -W / 2 <= n < W / 2
    ensures (if n < 0 then n + W64 else n) % W == if n < 0 then n + W else n
  {
    if n < 0 { assert n + W64 == (W - 1) * W + (n + W); }
  }
}
