/** The loops that write and read the numeric types on a stream. */
module IntegerCodec {
  import opened Views
  import opened Int64
  import opened Streams
  import opened Varint
  import opened Integers

  // ---------- writing ----------

  ghost function EncodeInt32(n: int): seq<Byte>
    requires -W / 2 <= n < W
  {
    Var128(if n < 0 then n + W64 else n)
  }

  function Bound32(i: nat): nat {
    if i == 0 then 0x1_0000_0000 else if i == 1 then 0x200_0000 else if i == 2 then 0x4_0000
    else if i == 3 then 0x800 else if i == 4 then 16 else 1
  }

  lemma NegativeWire(n: int)
    requires -W / 2 <= n < W
    ensures var x := FromNumber(n); x.Words() && !x.NegativeZero() && (n < 0 ==> x.Value() % W64 == n + W64)
  {
    hide FromNumber;
  }

  method SerializeInt32(n: int, stream: Stream, ghost bs: seq<Byte>)
    requires -W / 2 <= n < W && stream.Wrote(bs)
    modifies stream.Obj()
    ensures stream.Wrote(bs + EncodeInt32(n))
    ensures stream.Text? ==> stream.b.urlSafe == old(stream.b.urlSafe)
  {
    hide Var128, Stream.Wrote, FromNumber;
    NegativeWire(n);
    if n < 0 {
      SerializeInt64(FromNumber(n), stream, bs);
      return;
    }
    SerializeGroups(n, stream, bs);
  }

  /** The loop of the 32-bit serializer: it runs once even for 0. */
  method SerializeGroups(n0: nat, stream: Stream, ghost bs: seq<Byte>)
    requires n0 < W && stream.Wrote(bs)
    modifies stream.Obj()
    ensures stream.Wrote(bs + Var128(n0))
    ensures stream.Text? ==> stream.b.urlSafe == old(stream.b.urlSafe)
  {
    hide Var128, Stream.Wrote;
    var n, i := n0, 0;
    ghost var done := bs;
    while i == 0 || (n != 0 && i < 5)
      invariant 0 <= i <= 5 && 0 <= n < Bound32(i)
      invariant stream.Wrote(done)
      invariant stream.Text? ==> stream.b.urlSafe == old(stream.b.urlSafe)
      invariant bs + Var128(n0) == if i > 0 && n == 0 then done else done + Var128(n)
      decreases 5 - i
    {
      if n < 128 { LastGroup(done, n); } else { MoreGroups(done, n); }
      var byt: Byte := n % 128;
      n := n / 128;
      if n != 0 {
        byt := byt + 128;
      }
      stream.WriteByte(byt, done);
      done := done + [byt];
      i := i + 1;
    }
  }

  method SerializeInt64(x: I64, stream: Stream, ghost bs: seq<Byte>)
    requires x.Words() && !x.NegativeZero() && stream.Wrote(bs)
    modifies stream.Obj()
    ensures stream.Wrote(bs + Var128(x.Value() % W64))
    ensures stream.Text? ==> stream.b.urlSafe == old(stream.b.urlSafe)
  {
    var arr := SerializeToLEVar128(x.ConvertToUnsigned());
    stream.Write(arr, bs);
  }

  method SerializeToLEBase256(x: I64) returns (arr: seq<Byte>)
    requires x.Unsigned()
    ensures arr == Base256(x.Value(), 8)
  {
    hide Base256, Pow256;
    var low := Bytes4(x.lsw);
    var high := Bytes4(x.msw);
    arr := low + high;
    BytesOfWords(x.lsw, x.msw);
  }

  /** Four bytes of a word, least significant first. */
  method Bytes4(word: int) returns (arr: seq<Byte>)
    requires 0 <= word < W
    ensures arr == Base256(word, 4)
  {
    hide Base256;
    arr := [];
    var temp := word;
    for i := 0 to 4
      invariant temp >= 0
      invariant Base256(word, 4) == arr + Base256(temp, 4 - i)
    {
      Base256Next(temp, 3 - i);
      ghost var rest := Base256(temp / 256, 3 - i);
      assert arr + ([temp % 256] + rest) == arr + [temp % 256] + rest;
      arr := arr + [temp % 256];
      temp := temp / 256;
    }
    Base256None(arr, temp);
  }

  lemma Base256Next(x: nat, k: nat)
    ensures Base256(x, k + 1) == [x % 256] + Base256(x / 256, k)
  {
  }

  lemma Base256None(arr: seq<Byte>, x: nat)
    ensures arr + Base256(x, 0) == arr
  {
  }

  method SerializeFixed32(n0: int, stream: Stream, ghost bs: seq<Byte>)
    requires -W / 2 <= n0 < W && stream.Wrote(bs)
    modifies stream.Obj()
    ensures stream.Wrote(bs + Base256(if n0 < 0 then n0 + W else n0, 4))
    ensures stream.Text? ==> stream.b.urlSafe == old(stream.b.urlSafe)
  {
    var n := n0;
    if n < 0 {
      n := n + W;
    }
    var arr := Bytes4(n);
    stream.Write(arr, bs);
  }

  /** What each type's serializer is to write. */
  lemma EncodedAs(ty: NumType, x: Scalar)
    requires ty.Holds(x)
    ensures
      match ty
      case Fixed32 => Encode(ty, x) == Base256(x.n, 4)
      case SFixed32 => Encode(ty, x) == Base256(if x.n < 0 then x.n + W else x.n, 4)
      case Fixed64 => Encode(ty, x) == Base256(x.w.Value(), 8)
      case SFixed64 => Encode(ty, x) == Base256(x.w.ConvertToUnsigned().Value(), 8)
      case SInt32 => Encode(ty, x) == EncodeInt32(Zigzag32(x.n))
      case Int64 => Encode(ty, x) == Var128(x.w.Value() % W64)
      case UInt64 => Encode(ty, x) == Var128(x.w.Value() % W64)
      case SInt64 =>
        var z := x.w.ConvertFromUnsigned().ConvertToZigzag();
        z.Words() && Encode(ty, x) == Var128(z.Magnitude())
      case _ => Encode(ty, x) == EncodeInt32(x.n)
  {
    hide Var128, Base256;
  }

  method Serialize(ty: NumType, x: Scalar, stream: Stream, ghost bs: seq<Byte>)
    requires ty.Holds(x) && stream.Wrote(bs)
    modifies stream.Obj()
    ensures stream.Wrote(bs + Encode(ty, x))
    ensures stream.Text? ==> stream.b.urlSafe == old(stream.b.urlSafe)
  {
    hide Var128, Base256, Stream.Wrote, EncodeInt32;
    EncodedAs(ty, x);
    hide Encode;
    match ty {
      case Fixed32 => SerializeFixed32(x.n, stream, bs);
      case SFixed32 => SerializeFixed32(x.n, stream, bs);
      case Fixed64 =>
        var arr := SerializeToLEBase256(x.w);
        stream.Write(arr, bs);
      case SFixed64 =>
        var arr := SerializeToLEBase256(x.w.ConvertToUnsigned());
        stream.Write(arr, bs);
      case SInt32 => SerializeInt32(Zigzag32(x.n), stream, bs);
      case Int64 => SerializeInt64(x.w, stream, bs);
      case UInt64 => SerializeInt64(x.w, stream, bs);
      case SInt64 =>
        var arr := SerializeToLEVar128(x.w.ConvertFromUnsigned().ConvertToZigzag());
        stream.Write(arr, bs);
      case _ => SerializeInt32(x.n, stream, bs);
    }
  }

  // ---------- reading ----------

  lemma MaskedShort(ds: seq<int>)
    requires |ds| < 5
    ensures Masked(ds) == ds
  {
  }

  lemma MaskedGrows(ds: seq<int>, bits: int)
    requires |ds| < 5
    ensures
      var d := if |ds| == 4 then bits % 16 else bits;
      Sum128(Masked(ds + [bits])) == Sum128(Masked(ds)) + Pow128(|ds|) * d
    ensures Pow128(|ds| + 1) == Pow128(|ds|) * 128
  {
    hide Sum128, Pow128;
    var d := if |ds| == 4 then bits % 16 else bits;
    assert (ds + [bits])[..|ds|] == ds;
    assert Masked(ds + [bits]) == ds + [d];
    SumAppend(ds, d);
    PowStep(|ds|);
  }

  method ReadUInt32(stream: Stream) returns (n: int)
    requires stream.Readable()
    modifies stream.Obj()
    ensures stream.Readable() && (n, stream.View()) == old(ParseUInt32(stream.View()))
  {
    hide Sum128, Pow128, Collect, ReadGroup, Outlook, Masked, Stream.Readable, Stream.View;
    ghost var all := Collect(stream.View(), 5);
    ghost var ds: seq<int> := [];
    assert Masked([]) == [] by { MaskedShort([]); }
    var endloop, offset, i := false, 1, 0;
    n := 0;
    OutlookStart(stream.View(), 5);
    SumOfNone();
    PowStep(0);
    while !endloop && i < 5
      invariant 0 <= i <= 5 && stream.Readable()
      invariant |ds| <= i && (!endloop ==> |ds| == i)
      invariant n == Sum128(Masked(ds)) && offset == Pow128(i)
      invariant Outlook(ds, endloop, false, stream.View(), 5 - i) == all
    {
      OutlookStep(ds, stream.View(), 5 - i);
      var bits, last := NextGroup(stream);
      if bits.None? {
        OutlookEnd(ds, true, true, stream.View(), 4 - i);
        return;
      }
      endloop := last;
      MaskedGrows(ds, bits.value);
      var d := if i == 4 then bits.value % 16 else bits.value;
      n := n + offset * d;
      ds := ds + [bits.value];
      offset := offset * 128;
      i := i + 1;
    }
    OutlookEnd(ds, endloop, false, stream.View(), 5 - i);
  }

  /** The 32-bit parser has its number filled into the shared one, and returns a plain number. */
  method ReadInt32(stream: Stream, temp: Num64) returns (r: Option<int>)
    requires stream.Readable()
    modifies stream.Obj(), temp
    ensures stream.Readable()
    ensures
      var p := old(ParseInt32(stream.View()));
      stream.View() == p.1 && r == if p.0.None? then None else Some(p.0.value.n)
  {
    hide ParseVar, Stream.Readable, Stream.View;
    var num, nan := ParseLEVar128(stream, Some(temp));
    if nan {
      return None;
    }
    assert num.lsw == num.Get().lsw;
    var lsw := num.lsw;
    if lsw > 2147483647 {
      lsw := lsw - 2147483647;
      lsw := lsw - 2147483647;
      lsw := lsw - 2;
    }
    r := Some(lsw);
  }

  /** A sum of k bytes, least significant first; None stands for NaN. */
  method ReadBytes(stream: Stream, k: nat) returns (r: Option<int>)
    requires stream.Readable()
    modifies stream.Obj()
    ensures stream.Readable()
    ensures
      var g := old(CollectBytes(stream.View(), k));
      stream.View() == g.after && r == if g.nan then None else Some(Sum256(g.digits))
  {
    hide Sum256, Pow256, CollectBytes, AndThen, Stream.Readable, Stream.View;
    ghost var all := CollectBytes(stream.View(), k);
    ghost var ds: seq<int> := [];
    var n, nan, offset := 0, false, 1;
    BytesStart(stream.View(), k);
    for i := 0 to k
      invariant stream.Readable()
      invariant |ds| == i && n == Sum256(ds) && offset == Pow256(i)
      invariant AndThen(ds, nan, CollectBytes(stream.View(), k - i)) == all
    {
      BytesStep(ds, nan, stream.View(), k - i);
      var byt := stream.ReadByte();
      var d := if byt.Got? then byt.b else 0;
      if byt == Undefined {
        nan := true;
      }
      Sum256Append(ds, d);
      n := n + offset * d;
      ds := ds + [d];
      offset := offset * 256;
    }
    BytesEnd(ds, nan, stream.View());
    r := if nan then None else Some(n);
  }

  ghost function AndThen(ds: seq<int>, nan: bool, g: Groups): Groups {
    Groups(ds + g.digits, g.after, nan || g.nan)
  }

  lemma BytesStart(v: View, k: nat)
    ensures AndThen([], false, CollectBytes(v, k)) == CollectBytes(v, k)
    ensures Sum256([]) == 0 && Pow256(0) == 1
  {
    assert [] + CollectBytes(v, k).digits == CollectBytes(v, k).digits;
  }

  lemma BytesStep(ds: seq<int>, nan: bool, v: View, k: nat)
    requires k > 0
    ensures
      var (r, w) := v.ReadByte();
      AndThen(ds, nan, CollectBytes(v, k))
      == AndThen(ds + [if r.Got? then r.b else 0], nan || r == Undefined, CollectBytes(w, k - 1))
    ensures Pow256(|ds| + 1) == Pow256(|ds|) * 256
  {
    var (r, w) := v.ReadByte();
    var d, rest := if r.Got? then r.b else 0, CollectBytes(w, k - 1).digits;
    assert ds + ([d] + rest) == ds + [d] + rest;
  }

  lemma BytesEnd(ds: seq<int>, nan: bool, v: View)
    ensures AndThen(ds, nan, CollectBytes(v, 0)) == Groups(ds, v, nan)
  {
    assert ds + [] == ds;
  }

  lemma {:induction false} Sum256Append(ds: seq<int>, d: int)
    ensures Sum256(ds + [d]) == Sum256(ds) + Pow256(|ds|) * d
  {
    if ds != [] {
      assert (ds + [d])[1..] == ds[1..] + [d];
      Sum256Append(ds[1..], d);
      var p, q := Pow256(|ds| - 1), Pow256(|ds|);
      assert q * d == 256 * (p * d);
    }
  }

  /** The 64-bit parser adds up each word on its own. */
  method ParseLEBase256(stream: Stream, target: Option<Num64>) returns (retval: Num64, nan: bool)
    requires stream.Readable()
    modifies stream.Obj(), if target.Some? then {target.value} else {}
    ensures stream.Readable()
    ensures if target.Some? then retval == target.value else fresh(retval)
    ensures
      var g := old(CollectBytes(stream.View(), 8));
      stream.View() == g.after && nan == g.nan && (!nan ==> retval.Get() == Words256(g.digits))
  {
    hide CollectBytes, Stream.Readable, Stream.View;
    if target.Some? {
      retval := target.value;
    } else {
      retval := new Num64(I64(0, 0, 1));
    }
    CollectHalves(stream.View());
    var lsw := ReadBytes(stream, 4);
    var msw := ReadBytes(stream, 4);
    nan := lsw.None? || msw.None?;
    if !nan {
      retval.Fill(msw.value, lsw.value);
    }
  }

  lemma CollectHalves(v: View)
    ensures
      var g, a := CollectBytes(v, 8), CollectBytes(v, 4);
      var b := CollectBytes(a.after, 4);
      && g == Groups(a.digits + b.digits, b.after, a.nan || b.nan)
      && g.digits[..4] == a.digits && g.digits[4..] == b.digits
  {
    CollectPlus(v, 4, 4);
  }

  lemma CollectNext(v: View, k: nat)
    ensures
      if k == 0 then CollectBytes(v, k) == Groups([], v, false)
      else
        var (r, w) := v.ReadByte();
        var g := CollectBytes(w, k - 1);
        CollectBytes(v, k) == Groups([if r.Got? then r.b else 0] + g.digits, g.after, g.nan || r == Undefined)
  {
  }

  lemma {:induction false} CollectPlus(v: View, j: nat, k: nat)
    ensures
      var g, a := CollectBytes(v, j + k), CollectBytes(v, j);
      var b := CollectBytes(a.after, k);
      g == Groups(a.digits + b.digits, b.after, a.nan || b.nan)
    decreases j
  {
    hide CollectBytes;
    CollectNext(v, j);
    CollectNext(v, j + k);
    if j == 0 {
      assert [] + CollectBytes(v, k).digits == CollectBytes(v, k).digits;
    } else {
      var (r, w) := v.ReadByte();
      CollectPlus(w, j - 1, k);
      var d, a := if r.Got? then r.b else 0, CollectBytes(w, j - 1);
      var b := CollectBytes(a.after, k);
      assert [d] + (a.digits + b.digits) == [d] + a.digits + b.digits;
    }
  }

  /** What a parser hands out: a plain number, or a 64-bit object. */
  datatype Parsed = Figure(n: int) | Object(o: Num64) {
    function Now(): Scalar
      reads if Object? then {o} else {}
    {
      if Figure? then Num(n) else Wide(o.Get())
    }
  }

  /** An object handed out is a new one, never the shared one: later parses leave it alone. */
  method ParseScalar(ty: NumType, stream: Stream, temp: Num64) returns (r: Option<Parsed>)
    requires stream.Readable()
    modifies stream.Obj(), temp
    ensures stream.Readable()
    ensures r.Some? && r.value.Object? ==> fresh(r.value.o)
    ensures
      var p := old(Parse(ty, stream.View()));
      stream.View() == p.1 && (r.None? <==> p.0.None?) && (r.Some? ==> r.value.Now() == p.0.value)
  {
    hide ParseVar, ParseUInt32, CollectBytes, ParseInt32, Stream.Readable, Stream.View;
    match ty {
      case UInt32 =>
        var n := ReadUInt32(stream);
        r := Some(Figure(n));
      case Bool =>
        var n := ReadUInt32(stream);
        r := Some(Figure(n));
      case SInt32 =>
        var n := ReadUInt32(stream);
        r := Some(Figure(if n % 2 == 1 then -((n + 1) / 2) else n / 2));
      case Fixed32 =>
        var n := ReadBytes(stream, 4);
        if n.None? {
          return None;
        }
        r := Some(Figure(if n.value > 2147483647 then n.value - W else n.value));
      case SFixed32 =>
        var n := ReadBytes(stream, 4);
        r := if n.None? then None else Some(Figure(n.value));
      case Fixed64 =>
        var x, nan := ParseLEBase256(stream, None);
        r := if nan then None else Some(Object(x));
      case SFixed64 =>
        var x, nan := ParseLEBase256(stream, Some(temp));
        if nan {
          return None;
        }
        var y := new Num64(x.Get().ConvertFromUnsigned());
        r := Some(Object(y));
      case Int64 =>
        var x, nan := ParseLEVar128(stream, Some(temp));
        if nan {
          return None;
        }
        var y := new Num64(x.Get().ConvertFromUnsigned());
        r := Some(Object(y));
      case SInt64 =>
        var x, nan := ParseLEVar128(stream, Some(temp));
        if nan {
          return None;
        }
        var y := new Num64(x.Get().ConvertFromZigzag());
        r := Some(Object(y));
      case UInt64 =>
        var x, nan := ParseLEVar128(stream, None);
        r := if nan then None else Some(Object(x));
      case _ =>
        ParseInt32IsNum(stream.View());
        var n := ReadInt32(stream, temp);
        r := if n.None? then None else Some(Figure(n.value));
    }
  }

  lemma ParseInt32IsNum(v: View)
    ensures ParseInt32(v).0.Some? ==> ParseInt32(v).0.value.Num?
  {
  }
}
