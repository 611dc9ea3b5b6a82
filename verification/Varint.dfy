/** Base-128 numbers, least significant group first, and the integer codecs built on them. */
module Varint {
  import opened Views
  import opened Int64
  import opened Streams

  // ---------- the encoding ----------

  /** The shortest base-128 form: seven bits a byte, the high bit set on all bytes but the last. */
  function Var128(u: nat): (s: seq<Byte>)
    ensures |s| >= 1
  {
    if u < 128 then [u] else [u % 128 + 128] + Var128(u / 128)
  }

  function Sum128(ds: seq<int>): int {
    if ds == [] then 0 else ds[0] + 128 * Sum128(ds[1..])
  }

  function Pow128(n: nat): (p: nat)
    ensures p > 0
  {
    if n == 0 then 1 else 128 * Pow128(n - 1)
  }

  lemma {:induction false} SumAppend(ds: seq<int>, d: int)
    ensures Sum128(ds + [d]) == Sum128(ds) + Pow128(|ds|) * d
  {
    if ds != [] {
      assert (ds + [d])[1..] == ds[1..] + [d];
      SumAppend(ds[1..], d);
      var p, q := Pow128(|ds| - 1), Pow128(|ds|);
      assert q * d == 128 * (p * d);
    }
  }

  lemma {:induction false} SumSplit(ds: seq<int>, es: seq<int>)
    ensures Sum128(ds + es) == Sum128(ds) + Pow128(|ds|) * Sum128(es)
  {
    if ds == [] {
      assert ds + es == es;
    } else {
      assert (ds + es)[1..] == ds[1..] + es;
      SumSplit(ds[1..], es);
      var p, q, t := Pow128(|ds| - 1), Pow128(|ds|), Sum128(es);
      assert q * t == 128 * (p * t);
    }
  }

  lemma PowStep(n: nat)
    ensures Pow128(0) == 1 && Pow128(n + 1) == 128 * Pow128(n)
  {
  }

  lemma Pow5()
    ensures Pow128(5) == 0x8_0000_0000
  {
    assert Pow128(2) == 16384 && Pow128(3) == 2097152 && Pow128(4) == 268435456;
  }

  // ---------- reading groups ----------

  /** One byte read in a loop: its seven bits (none for `undefined`, which makes the number NaN), and
    * whether the loop ends. `null` is not at least 128 and counts as 0. */
  datatype Group = Group(bits: Option<int>, last: bool, after: View)

  function ReadGroup(v: View): (g: Group)
    ensures g.bits.Some? ==> 0 <= g.bits.value < 128
    ensures g.bits.None? ==> g.last
    ensures g.after.Size() <= v.Size() && (v.Valid() ==> g.after.Size() < v.Size())
    ensures !g.last ==> g.after.Size() < v.Size()
    ensures g.after.ArrayView? == v.ArrayView?
  {
    match v.ReadByte()
    case (Got(b), w) => if b >= 128 then Group(Some(b - 128), false, w) else Group(Some(b), true, w)
    case (Null, w) => Group(Some(0), true, w)
    case (Undefined, w) => Group(None, true, w)
  }

  /** The groups a reader collects, and whether the number is NaN. */
  datatype Groups = Groups(digits: seq<int>, after: View, nan: bool)

  function Prepend(ds: seq<int>, g: Groups): Groups {
    Groups(ds + g.digits, g.after, g.nan)
  }

  /** At most k groups, up to the first byte below 128. */
  function Collect(v: View, k: nat): (g: Groups)
    ensures |g.digits| <= k
    ensures forall d :: d in g.digits ==> 0 <= d < 128
    ensures g.after.Size() <= v.Size()
    ensures k > 0 && v.Valid() ==> g.after.Size() < v.Size()
    ensures g.after.ArrayView? == v.ArrayView?
    decreases k
  {
    if k == 0 then Groups([], v, false)
    else
      var g := ReadGroup(v);
      if g.bits.None? then Groups([], g.after, true)
      else if g.last then Groups([g.bits.value], g.after, false)
      else Prepend([g.bits.value], Collect(g.after, k - 1))
  }

  /** A reading loop that has collected ds: what it will have collected in the end does not change. */
  ghost function Outlook(ds: seq<int>, done: bool, nan: bool, v: View, k: nat): Groups {
    if done then Groups(ds, v, nan) else Prepend(ds, Collect(v, k))
  }

  lemma OutlookStep(ds: seq<int>, v: View, k: nat)
    requires k > 0
    ensures
      var g := ReadGroup(v);
      var more := if g.bits.None? then ds else ds + [g.bits.value];
      Outlook(ds, false, false, v, k) == Outlook(more, g.last, g.bits.None?, g.after, k - 1)
  {
    var g := ReadGroup(v);
    if g.bits.None? {
      assert ds + [] == ds;
    } else if !g.last {
      var rest := Collect(g.after, k - 1).digits;
      assert ds + ([g.bits.value] + rest) == ds + [g.bits.value] + rest;
    }
  }

  lemma OutlookStart(v: View, k: nat)
    ensures Outlook([], false, false, v, k) == Collect(v, k)
  {
    assert [] + Collect(v, k).digits == Collect(v, k).digits;
  }

  lemma OutlookEnd(ds: seq<int>, done: bool, nan: bool, v: View, k: int)
    requires k >= 0 && (done || (k == 0 && !nan))
    ensures Outlook(ds, done, nan, v, k) == Groups(ds, v, nan)
  {
    assert ds + [] == ds;
  }

  method NextGroup(stream: Stream) returns (bits: Option<int>, last: bool)
    requires stream.Readable()
    modifies stream.Obj()
    ensures stream.Readable()
    ensures Group(bits, last, stream.View()) == old(ReadGroup(stream.View()))
  {
    var byt := stream.ReadByte();
    match byt {
      case Got(b) =>
        if b >= 128 { bits, last := Some(b - 128), false; } else { bits, last := Some(b), true; }
      case Null => bits, last := Some(0), true;
      case Undefined => bits, last := None, true;
    }
  }

  /** What parsing a 64-bit number yields: the sum of the groups modulo 2^64, or nothing for NaN. */
  function ParseVar(v: View): (r: (Option<int>, View))
    ensures r.0.Some? ==> 0 <= r.0.value < W64
    ensures r.1.Size() <= v.Size()
    ensures v.Valid() ==> r.1.Size() < v.Size()
    ensures r.1.ArrayView? == v.ArrayView?
  {
    var g := Collect(v, 10);
    (if g.nan then None else Some(Sum128(g.digits) % W64), g.after)
  }

  /** The first loop: up to five groups, added up from offset 1. */
  method ParseLow(stream: Stream) returns (n: int, endloop: bool, nan: bool, ghost low: seq<int>)
    requires stream.Readable()
    modifies stream.Obj()
    ensures stream.Readable()
    ensures n == Sum128(low) && (!endloop ==> |low| == 5 && !nan)
    ensures Outlook(low, endloop, nan, stream.View(), 5) == old(Collect(stream.View(), 10))
  {
    hide Sum128, Pow128, Collect, ReadGroup, Outlook, Stream.Readable, Stream.View;
    ghost var all := Collect(stream.View(), 10);
    low := [];
    n, endloop, nan := 0, false, false;
    var offset, i := 1, 0;
    OutlookStart(stream.View(), 10);
    SumOfNone();
    PowStep(0);
    while !endloop && i < 5
      invariant 0 <= i <= 5 && stream.Readable()
      invariant n == Sum128(low) && offset == Pow128(i) && (!endloop ==> |low| == i && !nan)
      invariant Outlook(low, endloop, nan, stream.View(), 10 - i) == all
    {
      OutlookStep(low, stream.View(), 10 - i);
      var bits, last := NextGroup(stream);
      endloop := last;
      if bits.None? {
        nan := true;
      } else {
        SumAppend(low, bits.value);
        low := low + [bits.value];
        n := n + offset * bits.value;
      }
      PowStep(i);
      offset := offset * 128;
      i := i + 1;
    }
    if endloop {
      OutlookEnd(low, true, nan, stream.View(), 10 - i);
      OutlookEnd(low, true, nan, stream.View(), 5);
    }
  }

  /** The second loop: up to five more groups, added to the high word from offset 8. */
  method ParseHigh(stream: Stream, msw0: int, endloop0: bool, nan0: bool, ghost low: seq<int>)
    returns (msw: int, nan: bool, ghost high: seq<int>)
    requires stream.Readable() && (!endloop0 ==> |low| == 5 && !nan0)
    modifies stream.Obj()
    ensures stream.Readable()
    ensures msw == msw0 + 8 * Sum128(high) && (high != [] ==> |low| == 5)
    ensures Groups(low + high, stream.View(), nan) == old(Outlook(low, endloop0, nan0, stream.View(), 5))
  {
    hide Sum128, Pow128, Collect, ReadGroup, Outlook, Stream.Readable, Stream.View;
    ghost var all := Outlook(low, endloop0, nan0, stream.View(), 5);
    high := [];
    msw, nan := msw0, nan0;
    var endloop, offset, i := endloop0, 8, 0;
    assert low + high == low;
    SumOfNone();
    PowStep(0);
    while !endloop && i < 5
      invariant 0 <= i <= 5 && stream.Readable()
      invariant msw == msw0 + 8 * Sum128(high) && offset == 8 * Pow128(i)
      invariant (high != [] ==> |low| == 5) && (!endloop ==> |low| == 5 && |high| == i && !nan)
      invariant Outlook(low + high, endloop, nan, stream.View(), 5 - i) == all
    {
      OutlookStep(low + high, stream.View(), 5 - i);
      var bits, last := NextGroup(stream);
      endloop := last;
      if bits.None? {
        nan := true;
      } else {
        SumAppend(high, bits.value);
        Scale(offset, Pow128(i), bits.value);
        msw := msw + offset * bits.value;
        assert low + high + [bits.value] == low + (high + [bits.value]);
        high := high + [bits.value];
      }
      PowStep(i);
      offset := offset * 128;
      i := i + 1;
    }
    OutlookEnd(low + high, endloop, nan, stream.View(), 5 - i);
  }

  /** Fills the object it is handed, or a new one. NaN leaves no number in it. */
  method ParseLEVar128(stream: Stream, target: Option<Num64>) returns (retval: Num64, nan: bool)
    requires stream.Readable()
    modifies stream.Obj(), if target.Some? then {target.value} else {}
    ensures stream.Readable()
    ensures if target.Some? then retval == target.value else fresh(retval)
    ensures
      var r := old(ParseVar(stream.View()));
      && stream.View() == r.1 && nan == r.0.None?
      && (!nan ==> retval.Get() == OfValue(r.0.value))
  {
    hide Sum128, Collect, Outlook, OfValue;
    if target.Some? {
      retval := target.value;
    } else {
      retval := new Num64(I64(0, 0, 1));
    }
    var n, endloop;
    ghost var low, high;
    n, endloop, nan, low := ParseLow(stream);
    var lsw := n % W;
    var msw := (n - lsw) / W;
    msw, nan, high := ParseHigh(stream, msw, endloop, nan, low);
    if !nan {
      WordsOfSum(low, high, lsw);
    }
    retval.Fill(msw % W, lsw);
  }

  lemma SumOfNone()
    ensures Sum128([]) == 0
  {
  }

  lemma Scale(o: int, p: int, d: int)
    requires o == 8 * p
    ensures o * d == 8 * (p * d)
  {
  }

  /** Five groups fill 35 bits, three more than the low word holds. */
  lemma WordsOfSum(low: seq<int>, high: seq<int>, lsw: int)
    requires high != [] ==> |low| == 5
    requires lsw == Sum128(low) % W
    requires forall d :: d in low + high ==> 0 <= d < 128
    ensures OfValue(Sum128(low + high) % W64) == I64(((Sum128(low) - lsw) / W + 8 * Sum128(high)) % W, lsw, 1)
  {
    hide Sum128, Pow128;
    SumSplit(low, high);
    var n, h := Sum128(low), Sum128(high);
    if high == [] {
      SumOfNone();
      assert Pow128(|low|) * h == 0;
    } else {
      Pow5();
    }
    assert Sum128(low + high) == n + 0x8_0000_0000 * h;
    var m := (n - lsw) / W + 8 * h;
    assert Sum128(low + high) == m * W + lsw;
    WordsModulo(m, lsw);
  }

  lemma WordsModulo(m: int, l: int)
    requires 0 <= l < W
    ensures OfValue((m * W + l) % W64) == I64(m % W, l, 1)
  {
    var q, r := m / W, m % W;
    var t := r * W + l;
    assert 0 <= t < W64;
    assert m * W + l == q * W64 + t;
    Remainder(m * W + l, q, t);
    assert t / W == r && t % W == l;
  }

  lemma Remainder(x: int, q: int, t: int)
    requires x == q * W64 + t && 0 <= t < W64
    ensures x % W64 == t
  {
  }
}
