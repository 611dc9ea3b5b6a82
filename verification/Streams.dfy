/** The two stream objects the codec runs on, and the dispatch between them. */
module Streams {
  import opened Views
  import B64 = Base64

  class ByteArrayStream {
    var bytes: seq<Byte>
    var readPos: nat
    var writePos: nat

    constructor (arr: seq<Byte>)
      ensures bytes == arr && readPos == 0 && View() == ArrayView(arr, false)
    {
      bytes := arr;
      readPos := 0;
      writePos := |arr|;
    }

    ghost function View(): View
      reads this
    {
      if readPos <= |bytes| then ArrayView(bytes[readPos..], false) else ArrayView([], true)
    }

    method ReadBlock(amt: nat) returns (r: Option<seq<Byte>>)
      modifies this
      ensures bytes == old(bytes)
      ensures (r, View()) == old(View().ReadBlock(amt))
    {
      if readPos + amt > |bytes| {
        return None;
      }
      r := Some(bytes[readPos..readPos + amt]);
      assert bytes[readPos..][..amt] == bytes[readPos..readPos + amt];
      readPos := readPos + amt;
    }

    method ReadByte() returns (r: Read)
      modifies this
      ensures bytes == old(bytes)
      ensures (r, View()) == old(View().ReadByte())
    {
      r := if readPos < |bytes| then Got(bytes[readPos]) else Undefined;
      readPos := readPos + 1;
    }

    method Write(arr: seq<Byte>)
      modifies this
      ensures bytes == old(bytes) + arr && readPos == old(readPos)
    {
      bytes := bytes + arr;
      writePos := |bytes|;
    }

    method WriteByte(byt: Byte)
      modifies this
      ensures bytes == old(bytes) + [byt] && readPos == old(readPos)
    {
      bytes := bytes + [byt];
      writePos := |bytes|;
    }

    method IsValid() returns (v: bool)
      ensures v == View().Valid()
    {
      v := readPos < |bytes|;
    }
  }

  class Base64Stream {
    var urlSafe: bool
    var chars: string
    var readPos: nat
    var readIncompleteValue: int
    var readNeededBits: int
    var writeExtraBits: int
    var writeIncompleteValue: int

    ghost predicate Consistent()
      reads this
    {
      B64.Fits(chars, writeExtraBits, writeIncompleteValue)
    }

    /** The read cursor holds what decoding up to it leaves; past the end, the partial sextet was used. */
    ghost predicate Readable()
      reads this
    {
      && Consistent()
      && (readPos <= |chars| ==>
            var d := B64.Run(chars[..readPos]);
            d.need == readNeededBits && d.held == readIncompleteValue)
      && (readPos > |chars| ==> readPos == |chars| + 1 && writeExtraBits > 0)
    }

    ghost function View(): (v: View)
      requires Consistent()
      reads this
      ensures v.Base64View?
    {
      Base64View(
        B64.Unread(chars, readPos, writeExtraBits, writeIncompleteValue),
        B64.Idle(chars, readPos, writeExtraBits))
    }

    /** The string and the partial bits are those of bs in the given alphabet. */
    ghost predicate Holds(bs: seq<Byte>, alphabet: bool)
      reads this`chars, this`writeExtraBits, this`writeIncompleteValue
    {
      && chars == B64.Body(bs, alphabet)
      && writeExtraBits == B64.ExtraBits(|bs|)
      && writeIncompleteValue == B64.ExtraValue(bs)
    }

    /** The writer is where writing bs, from an empty stream, leaves it. */
    ghost predicate Wrote(bs: seq<Byte>)
      reads this
    {
      Holds(bs, urlSafe)
    }

    constructor (text: string)
      ensures (chars, writeExtraBits, writeIncompleteValue) == B64.Strip(text)
      ensures !urlSafe && readPos == 0
      ensures B64.WellPadded(text) ==> Readable() && View() == B64.Opened(text)
      ensures forall bs, u :: text == B64.Text(bs, u) ==> Holds(bs, u)
    {
      urlSafe := false;
      chars := text;
      readPos := 0;
      readIncompleteValue := 0;
      readNeededBits := 8;
      writeExtraBits := 0;
      writeIncompleteValue := 0;
      new;
      FixString();
      assert chars[..0] == "";
      forall bs, u | text == B64.Text(bs, u)
        ensures Holds(bs, u)
      {
        B64.StripText(bs, u);
      }
    }

    method SetURLSafe()
      modifies this`urlSafe
      ensures urlSafe
    {
      urlSafe := true;
    }

    method FixString()
      requires writeExtraBits == 0 && writeIncompleteValue == 0
      modifies this`chars, this`writeExtraBits, this`writeIncompleteValue
      ensures (chars, writeExtraBits, writeIncompleteValue) == B64.Strip(old(chars))
      ensures old(B64.WellPadded(chars)) ==> Consistent()
    {
      var len := |chars|;
      if len > 0 && chars[len - 1] == '=' {
        var n, cutoff := 4, 2;
        if len >= cutoff && chars[len - cutoff] == '=' {
          n, cutoff := 2, 3;
        }
        writeExtraBits := n;
        writeIncompleteValue := B64.PartialEntry(chars, cutoff);
        writeIncompleteValue := B64.Shr(writeIncompleteValue, 6 - n);
        chars := B64.CutOff(chars, cutoff);
      }
    }

    /** The loop of readByte: characters are consumed until one carries a sextet; at the end of the
      * string the partial sextet serves once. */
    method NextSextet(n: int) returns (next6bits: int)
      requires Readable() && n == readNeededBits
      modifies this`readPos
      ensures next6bits == -1 ==>
                && Readable() && View() == Base64View([], false)
                && old(View().rest) == []
      ensures next6bits != -1 && readPos <= |chars| ==>
                && 0 <= next6bits < 64
                && old(readPos) < readPos
                && B64.Run(chars[..readPos - 1]) == B64.Run(chars[..old(readPos)])
                && B64.Run(chars[..readPos]) == B64.Accept(B64.Run(chars[..old(readPos)]), next6bits)
      ensures next6bits != -1 && readPos > |chars| ==>
                && writeExtraBits == n && old(readPos) <= |chars| && readPos == |chars| + 1
                && B64.Run(chars) == B64.Run(chars[..old(readPos)])
                && next6bits == B64.Shl(writeIncompleteValue, 6 - n)
    {
      hide B64.Run;
      next6bits := -1;
      while next6bits == -1
        invariant old(readPos) <= readPos
        invariant next6bits == -1 ==>
          && Readable()
          && (readPos <= |chars| ==> B64.Run(chars[..readPos]) == B64.Run(chars[..old(readPos)]))
          && (readPos > |chars| ==> readPos == old(readPos))
        invariant next6bits != -1 ==>
          && 0 <= next6bits < 64 && old(readPos) < readPos <= |chars|
          && B64.Run(chars[..readPos - 1]) == B64.Run(chars[..old(readPos)])
          && B64.Run(chars[..readPos]) == B64.Accept(B64.Run(chars[..old(readPos)]), next6bits)
        decreases |chars| - readPos, next6bits == -1
      {
        if readPos >= |chars| {
          var more := IsValid();
          if more {
            assert chars[..readPos] == chars;
            next6bits := B64.Shl(writeIncompleteValue, 6 - n);
            readPos := readPos + 1;
            return;
          } else {
            B64.CursorValid(chars, readPos, writeExtraBits, writeIncompleteValue);
            return -1;
          }
        }
        B64.RunStep(chars, readPos);
        next6bits := B64.FromAlphabet(chars[readPos]);
        readPos := readPos + 1;
      }
    }

    method ReadByte() returns (r: Read)
      requires Readable()
      modifies this`readPos, this`readIncompleteValue, this`readNeededBits
      ensures Readable()
      ensures (r, View()) == old(View().ReadByte())
      decreases readNeededBits == 8
    {
      hide B64.Run, B64.Shl, B64.Shr, B64.LowBits, B64.Unread;
      var n := readNeededBits;
      ghost var p := readPos;
      var next6bits := NextSextet(n);
      if next6bits == -1 {
        return Null;
      }
      if n == 8 {
        B64.CursorHolds(chars, p, readPos - 1, next6bits, writeExtraBits, writeIncompleteValue);
        readIncompleteValue := next6bits;
        readNeededBits := 2;
        r := ReadByte();
        return;
      }
      if readPos <= |chars| {
        B64.CursorDelivers(chars, p, readPos - 1, next6bits, writeExtraBits, writeIncompleteValue);
      } else {
        B64.CursorFinishes(chars, p, writeExtraBits, writeIncompleteValue);
        B64.CursorValid(chars, readPos, writeExtraBits, writeIncompleteValue);
      }
      var ret := B64.Shl(readIncompleteValue, n);
      ret := ret + B64.Shr(next6bits, 6 - n);
      readIncompleteValue := B64.LowBits(next6bits, 6 - n);
      readNeededBits := readNeededBits + 2;
      assert old(View().rest) == [ret] + View().rest && old(View().rest)[0] == ret;
      r := Got(ret);
    }

    /** The inherited block read: bytes one at a time, up to the first null. */
    method ReadBlock(amt: nat) returns (r: Option<seq<Byte>>)
      requires Readable()
      modifies this`readPos, this`readIncompleteValue, this`readNeededBits
      ensures Readable()
      ensures (r, View()) == old(View().ReadBlock(amt))
    {
      hide View, B64.Run;
      var result: seq<Byte> := [];
      ghost var start := View();
      for i := 0 to amt
        invariant Readable()
        invariant |result| == i <= |start.rest|
        invariant result == start.rest[..i]
        invariant View() == start.(rest := start.rest[i..])
      {
        var byt := ReadByte();
        if byt == Null {
          assert result == start.rest;
          return Some(result);
        }
        result := result + [byt.b];
      }
      r := Some(result);
    }

    method WriteByte(byt: Byte, ghost bs: seq<Byte>)
      requires Wrote(bs)
      modifies this`chars, this`writeExtraBits, this`writeIncompleteValue
      ensures Wrote(bs + [byt])
    {
      hide B64.Alphabet, B64.SextetAt, B64.FullSextets, B64.WithBreaks, B64.ExtraValue;
      writeExtraBits := writeExtraBits + 2;
      var n := writeExtraBits;
      B64.WriterSextets(bs, byt);
      B64.BodyGrows(bs, byt, urlSafe);
      B64.BreakRule(|bs|);
      chars := chars + [B64.Alphabet(B64.Shr(byt, n) + B64.Shl(writeIncompleteValue, 8 - n), urlSafe)];
      writeIncompleteValue := B64.LowBits(byt, n);
      if n == 6 {
        chars := chars + [B64.Alphabet(writeIncompleteValue, urlSafe)];
        writeExtraBits := 0;
        writeIncompleteValue := 0;
      }
      if |chars| % 77 == 76 {
        chars := chars + "\n";
      }
    }

    method GetString(ghost bs: seq<Byte>) returns (retstr: string)
      requires Wrote(bs)
      ensures retstr == B64.Text(bs, urlSafe)
    {
      hide B64.Alphabet, B64.SextetAt, B64.FullSextets, B64.ExtraValue;
      if |bs| % 3 != 0 { B64.PartialSextet(bs); }
      retstr := chars;
      var n := writeExtraBits;
      if n > 0 {
        retstr := retstr + [B64.Alphabet(B64.Shl(writeIncompleteValue, 6 - n), urlSafe)];
        if n == 2 {
          retstr := retstr + "==";
        } else if n == 4 {
          retstr := retstr + "=";
        }
      }
    }

    method IsValid() returns (v: bool)
      requires Consistent()
      ensures v == (readPos < |chars| || (readPos == |chars| && writeExtraBits != 0))
      ensures v == View().Valid()
    {
      v := readPos < |chars| || (readPos == |chars| && writeExtraBits != 0);
      B64.CursorValid(chars, readPos, writeExtraBits, writeIncompleteValue);
    }
  }

  /** Calls on a stream reach the methods of its prototype. */
  datatype Stream = Bytes(a: ByteArrayStream) | Text(b: Base64Stream) {

    ghost function Obj(): object {
      match this
      case Bytes(a) => a
      case Text(b) => b
    }

    ghost predicate Readable()
      reads Obj()
    {
      Text? ==> b.Readable()
    }

    ghost function View(): View
      requires Readable()
      reads Obj()
    {
      match this
      case Bytes(a) => a.View()
      case Text(b) => b.View()
    }

    ghost predicate Wrote(bs: seq<Byte>)
      reads Obj()
    {
      match this
      case Bytes(a) => a.bytes == bs
      case Text(b) => b.Wrote(bs)
    }

    method ReadByte() returns (r: Read)
      requires Readable()
      modifies Obj()
      ensures Readable() && (r, View()) == old(View().ReadByte())
    {
      match this
      case Bytes(a) => r := a.ReadByte();
      case Text(b) => r := b.ReadByte();
    }

    method ReadBlock(amt: nat) returns (r: Option<seq<Byte>>)
      requires Readable()
      modifies Obj()
      ensures Readable() && (r, View()) == old(View().ReadBlock(amt))
    {
      match this
      case Bytes(a) => r := a.ReadBlock(amt);
      case Text(b) => r := b.ReadBlock(amt);
    }

    method IsValid() returns (v: bool)
      requires Readable()
      ensures v == View().Valid()
    {
      match this
      case Bytes(a) => v := a.IsValid();
      case Text(b) => v := b.IsValid();
    }

    method WriteByte(byt: Byte, ghost bs: seq<Byte>)
      requires Wrote(bs)
      modifies Obj()
      ensures Wrote(bs + [byt])
      ensures Text? ==> b.urlSafe == old(b.urlSafe)
    {
      match this
      case Bytes(a) => a.WriteByte(byt);
      case Text(b) => b.WriteByte(byt, bs);
    }

    /** A byte array appends the block; a base64 stream writes it a byte at a time. */
    method Write(arr: seq<Byte>, ghost bs: seq<Byte>)
      requires Wrote(bs)
      modifies Obj()
      ensures Wrote(bs + arr)
      ensures Text? ==> b.urlSafe == old(b.urlSafe)
    {
      match this
      case Bytes(a) => a.Write(arr);
      case Text(b) =>
        assert bs + arr[..0] == bs;
        for i := 0 to |arr|
          invariant b.Wrote(bs + arr[..i])
          invariant b.urlSafe == old(b.urlSafe)
        {
          b.WriteByte(arr[i], bs + arr[..i]);
          assert bs + arr[..i + 1] == bs + arr[..i] + [arr[i]];
        }
        assert arr[..|arr|] == arr;
    }
  }
}
