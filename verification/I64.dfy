/** 64-bit integers as the browser code holds them: a sign and two 32-bit words.
  * JavaScript numbers are doubles; every intermediate result below stays under 2^53, so the
  * arithmetic is exact and is written over unbounded integers. */
module Int64 {

  const W: int := 0x1_0000_0000
  const W64: int := 0x1_0000_0000_0000_0000

  datatype I64 = I64(msw: int, lsw: int, sign: int) {

    /** Both words fit in 32 bits and the sign is one of the two the constructor stores. */
    ghost predicate Words() {
      0 <= msw < W && 0 <= lsw < W && (sign == 1 || sign == -1)
    }

    /** Normalised low word; unsigned addition may carry out of the high word. */
    ghost predicate LowWord() {
      0 <= msw && 0 <= lsw < W && (sign == 1 || sign == -1)
    }

    ghost predicate NegativeZero() {
      sign == -1 && msw == 0 && lsw == 0
    }

    ghost function Magnitude(): int {
      msw * W + lsw
    }

    ghost function Value(): int {
      if sign < 0 then -Magnitude() else Magnitude()
    }

    /** The sign-magnitude forms an int64 or sint64 field may hold. */
    ghost predicate Signed() {
      Words() && !NegativeZero() && -W64 / 2 <= Value() < W64 / 2
    }

    /** The forms a uint64 field may hold. */
    ghost predicate Unsigned() {
      Words() && sign == 1
    }

    function ConvertToUnsigned(): (r: I64)
      ensures Words() && !NegativeZero() ==> r.Unsigned() && r.Value() == Value() % W64
    {
      if sign < 0 then
        var localMsw := 2147483647 - msw + 2147483647 + 1;
        var localLsw := 2147483647 - lsw + 2147483647 + 2;
        if localLsw == W then I64(localMsw + 1, 0, 1) else I64(localMsw, localLsw, 1)
      else
        I64(msw, lsw, 1)
    }

    function ConvertFromUnsigned(): (r: I64)
      ensures Unsigned() ==>
                r.Signed() && r.Value() == if Value() < W64 / 2 then Value() else Value() - W64
      ensures Signed() ==> r == this
    {
      if msw >= 2147483648 then
        var localMsw := 4294967295 - msw;
        var localLsw := 4294967295 - lsw + 1;
        if localLsw > 4294967295 then I64(localMsw + 1, localLsw - W, -1) else I64(localMsw, localLsw, -1)
      else
        I64(msw, lsw, sign)
    }

    function ConvertToZigzag(): (r: I64)
      ensures Signed() ==>
                r.Unsigned() && r.Value() == if Value() < 0 then -2 * Value() - 1 else 2 * Value()
    {
      var doubled := if sign < 0 then lsw * 2 - 1 else lsw * 2;
      var (carriedMsw, carriedLsw) :=
        if doubled > 4294967295 then (msw * 2 + 1, doubled - W) else (msw * 2, doubled);
      if carriedLsw < 0 then I64(carriedMsw - 1, carriedLsw + W, 1) else I64(carriedMsw, carriedLsw, 1)
    }

    /** `>>> 1` halves and `& 1` is the parity, since both words are unsigned here. */
    function ConvertFromZigzag(): (r: I64)
      ensures Unsigned() ==>
                r.Signed() && r.Value() == if Value() % 2 == 1 then -((Value() + 1) / 2) else Value() / 2
    {
      var half := if msw % 2 == 1 then 2147483648 + lsw / 2 else lsw / 2;
      if lsw % 2 == 1 then
        if half + 1 > 4294967295 then I64(msw / 2 + 1, half + 1 - W, -1) else I64(msw / 2, half + 1, -1)
      else
        I64(msw / 2, half, 1)
    }

    function UnsignedAdd(other: I64): (r: I64)
      ensures LowWord() && other.LowWord() ==>
                r.LowWord() && r.sign == sign && r.Magnitude() == Magnitude() + other.Magnitude()
    {
      var temp := lsw + other.lsw;
      var localLsw := temp % W;
      I64(msw + other.msw + (temp - localLsw) / W, localLsw, sign)
    }

    ghost predicate Outweighs(other: I64) {
      msw > other.msw || (msw == other.msw && lsw > other.lsw)
    }

    /** The self-call swaps the operands, after which the first one is not outweighed: it recurs once. */
    function Sub(other: I64): (r: I64)
      ensures LowWord() && other.LowWord() ==> r.LowWord() && r.Value() == Value() - other.Value()
      decreases if other.sign == sign && other.Outweighs(this) then 1 else 0
    {
      if other.sign != sign then
        UnsignedAdd(other)
      else if other.msw > msw || (other.msw == msw && other.lsw > lsw) then
        other.Sub(this).(sign := -sign)
      else
        var localLsw := lsw - other.lsw;
        if localLsw < 0 then I64(msw - other.msw - 1, localLsw + W, sign)
        else I64(msw - other.msw, localLsw, sign)
    }

    function Add(other: I64): (r: I64)
      ensures LowWord() && other.LowWord() ==> r.LowWord() && r.Value() == Value() + other.Value()
    {
      if other.sign < 0 && sign >= 0 then Sub(I64(other.msw, other.lsw, -other.sign))
      else if other.sign >= 0 && sign < 0 then other.Sub(I64(msw, lsw, -sign))
      else UnsignedAdd(other)
    }

    /** The integer order, except that negative zero comes before zero. */
    predicate Less(other: I64)
      ensures LowWord() && other.LowWord() ==>
                (Less(other) <==>
                  Value() < other.Value() || (NegativeZero() && other.Value() == 0 && !other.NegativeZero()))
    {
      if other.sign != sign then
        sign < 0
      else
        var (a, b) := if sign < 0 then (other, this) else (this, other);
        if a.msw == b.msw then a.lsw < b.lsw else a.msw < b.msw
    }
  }

  /** The object itself, whose words a parser overwrites when it is handed one to fill. */
  class Num64 {
    var msw: int
    var lsw: int
    var sign: int

    constructor (x: I64)
      ensures Get() == x
    {
      msw, lsw, sign := x.msw, x.lsw, x.sign;
    }

    function Get(): I64
      reads this
    {
      I64(msw, lsw, sign)
    }

    method Fill(newMsw: int, newLsw: int)
      modifies this
      ensures Get() == I64(newMsw, newLsw, 1)
    {
      msw, lsw, sign := newMsw, newLsw, 1;
    }
  }

  /** Splits a number into sign and words. */
  function FromNumber(n: int): (r: I64)
    ensures -W64 < n < W64 ==> r.Words() && !r.NegativeZero() && r.Value() == n
  {
    var sign := if n < 0 then -1 else 1;
    var m := if n < 0 then -n else n;
    var lsw := m % W;
    I64((m - lsw) / W, lsw, sign)
  }

  /** Splits an unsigned quantity; the words are a function of the value. */
  function OfValue(u: int): (r: I64)
    requires 0 <= u < W64
    ensures r.Unsigned() && r.Value() == u
  {
    I64(u / W, u % W, 1)
  }

  lemma ValueDetermines(a: I64, b: I64)
    requires a.Words() && b.Words() && !a.NegativeZero() && !b.NegativeZero()
    requires a.Value() == b.Value()
    ensures a == b
  {
  }

  /** Two's complement and back: the pair of conversions behind the int64 codec. */
  lemma TwosComplementRoundTrip(x: I64)
    requires x.Signed()
    ensures x.ConvertToUnsigned().ConvertFromUnsigned() == x
  {
    ValueDetermines(x.ConvertToUnsigned().ConvertFromUnsigned(), x);
  }

  /** Zigzag and back, as the sint64 codec composes them. */
  lemma ZigzagRoundTrip(x: I64)
    requires x.Signed()
    ensures x.ConvertFromUnsigned().ConvertToZigzag().ConvertFromZigzag() == x
  {
    ValueDetermines(x.ConvertToZigzag().ConvertFromZigzag(), x);
  }

  /** Negative zero leaves the 64-bit range: its high word becomes 2^32. */
  lemma NegativeZeroEscapes()
    ensures I64(0, 0, -1).ConvertToUnsigned() == I64(W, 0, 1)
  {
  }
}
