/** Framing on a BaseX connection: zero-terminated data in which 0x00 and 0xFF are escaped by 0xFF. */
module BaseX {
  import opened Views

  function Escape(bs: seq<Byte>): seq<Byte> {
    if bs == [] then []
    else (if bs[0] == 0x00 || bs[0] == 0xFF then [0xFF, bs[0]] else [bs[0]]) + Escape(bs[1..])
  }

  /** What is received from the head of a stream, and the rest of the stream. The end of the stream ends
    * the data too; cut off inside an escape, it is stored as the low eight bits of -1. */
  function Unescape(input: seq<Byte>): (r: (seq<Byte>, seq<Byte>))
    ensures |r.1| <= |input|
    ensures input != [] ==> |r.1| < |input|
  {
    if input == [] then ([], [])
    else if input[0] == 0 then ([], input[1..])
    else if input[0] != 0xFF then
      var (out, rest) := Unescape(input[1..]);
      ([input[0]] + out, rest)
    else if |input| == 1 then ([0xFF], [])
    else
      var (out, rest) := Unescape(input[2..]);
      ([input[1]] + out, rest)
  }

  class InputStream {
    var rest: seq<Byte>

    constructor (bs: seq<Byte>)
      ensures rest == bs
    {
      rest := bs;
    }

    /** The next byte, or -1 at the end. */
    method Read() returns (b: int)
      modifies this
      ensures if old(rest) == [] then b == -1 && rest == [] else b == old(rest)[0] && rest == old(rest)[1..]
    {
      if rest == [] {
        return -1;
      }
      b := rest[0];
      rest := rest[1..];
    }
  }

  /** The escaping loop of `send`, up to the terminator. */
  method SendData(input: seq<Byte>) returns (out: seq<Byte>)
    ensures out == Escape(input) + [0]
  {
    out := [];
    for i := 0 to |input|
      invariant Escape(input) == out + Escape(input[i..])
    {
      var b := input[i];
      EscapeStep(out, input, i);
      if b == 0x00 || b == 0xFF {
        out := out + [0xFF];
      }
      out := out + [b];
    }
    assert out + Escape(input[|input|..]) == out;
    out := out + [0];
  }

  lemma EscapeStep(out: seq<Byte>, input: seq<Byte>, i: nat)
    requires i < |input|
    ensures
      var b := input[i];
      out + Escape(input[i..])
      == (if b == 0x00 || b == 0xFF then out + [0xFF] + [b] else out + [b]) + Escape(input[i + 1..])
  {
    assert input[i..][1..] == input[i + 1..];
  }

  method Receive(input: InputStream) returns (os: seq<Byte>)
    modifies input
    ensures (os, input.rest) == Unescape(old(input.rest))
  {
    hide Unescape;
    os := [];
    ghost var all := Unescape(input.rest);
    ghost var ahead := input.rest;
    var b := input.Read();
    assert all.0 == os + all.0;
    while b > 0
      invariant if b == -1 then ahead == input.rest == [] else ahead != [] && b == ahead[0] && input.rest == ahead[1..]
      invariant all.0 == os + Unescape(ahead).0 && all.1 == Unescape(ahead).1
      decreases |ahead|
    {
      UnescapeStep(os, ahead);
      if b == 0xFF {
        var c := input.Read();
        var low: Byte := if c == -1 then 0xFF else c;
        os := os + [low];
      } else {
        os := os + [b];
      }
      ahead := input.rest;
      b := input.Read();
    }
    UnescapeEnds(os, ahead);
  }

  lemma UnescapeStep(os: seq<Byte>, ahead: seq<Byte>)
    requires ahead != [] && ahead[0] != 0
    ensures
      var low := if ahead[0] != 0xFF then ahead[0] else if |ahead| == 1 then 0xFF else ahead[1];
      var next := if ahead[0] != 0xFF then ahead[1..] else if |ahead| == 1 then [] else ahead[1..][1..];
      && os + Unescape(ahead).0 == os + [low] + Unescape(next).0
      && Unescape(ahead).1 == Unescape(next).1
  {
    if |ahead| > 1 { assert ahead[1..][1..] == ahead[2..]; }
  }

  lemma UnescapeEnds(os: seq<Byte>, ahead: seq<Byte>)
    requires ahead == [] || ahead[0] == 0
    ensures os + Unescape(ahead).0 == os && Unescape(ahead).1 == if ahead == [] then [] else ahead[1..]
  {
  }

  /** For all data and whatever follows: it is received as sent, and reading stops right after it. */
  lemma {:induction false} UnescapeEscape(bs: seq<Byte>, t: seq<Byte>)
    ensures Unescape(Escape(bs) + [0] + t) == (bs, t)
  {
    if bs == [] {
      assert Escape(bs) + [0] + t == [0] + t && ([0] + t)[1..] == t;
    } else {
      UnescapeEscape(bs[1..], t);
      var tail := Escape(bs[1..]) + [0] + t;
      assert [bs[0]] + bs[1..] == bs;
      if bs[0] == 0x00 || bs[0] == 0xFF {
        assert Escape(bs) + [0] + t == [0xFF, bs[0]] + tail;
        assert ([0xFF, bs[0]] + tail)[2..] == tail;
      } else {
        assert Escape(bs) + [0] + t == [bs[0]] + tail;
        assert ([bs[0]] + tail)[1..] == tail;
      }
    }
  }

  /** Only the two bytes that mean something are escaped. */
  lemma {:induction false} EscapeAdds(bs: seq<Byte>)
    ensures |Escape(bs)| == |bs| + multiset(bs)[0x00] + multiset(bs)[0xFF]
  {
    if bs != [] {
      EscapeAdds(bs[1..]);
      assert bs == [bs[0]] + bs[1..];
    }
  }

  /** Without a terminator the end of the stream ends the data; an escape that is cut off there leaves 0xFF. */
  lemma {:induction false} UnescapeCutOff(bs: seq<Byte>)
    ensures Unescape(Escape(bs)) == (bs, []) && Unescape(Escape(bs) + [0xFF]) == (bs + [0xFF], [])
  {
    if bs != [] {
      UnescapeCutOff(bs[1..]);
      var tail := Escape(bs[1..]);
      assert [bs[0]] + bs[1..] == bs && [bs[0]] + (bs[1..] + [0xFF]) == bs + [0xFF];
      if bs[0] == 0x00 || bs[0] == 0xFF {
        assert Escape(bs) == [0xFF, bs[0]] + tail && Escape(bs) + [0xFF] == [0xFF, bs[0]] + (tail + [0xFF]);
        assert ([0xFF, bs[0]] + tail)[2..] == tail && ([0xFF, bs[0]] + (tail + [0xFF]))[2..] == tail + [0xFF];
      } else {
        assert Escape(bs) + [0xFF] == [bs[0]] + (tail + [0xFF]);
        assert ([bs[0]] + tail)[1..] == tail && ([bs[0]] + (tail + [0xFF]))[1..] == tail + [0xFF];
      }
    } else {
      assert Escape(bs) + [0xFF] == [0xFF] && bs + [0xFF] == [0xFF];
    }
  }

  // ---------- query results ----------

  datatype Item = Item(kind: Byte, data: seq<Byte>)

  /** Items, each behind a non-zero type byte, closed by a zero byte. */
  function Results(items: seq<Item>): seq<Byte> {
    if items == [] then [0]
    else [items[0].kind] + Escape(items[0].data) + [0] + Results(items[1..])
  }

  /** The loop of `more`: the items up to a zero byte or the end, and what follows. */
  function Items(input: seq<Byte>): (r: (seq<seq<Byte>>, seq<Byte>))
    decreases |input|
  {
    if input == [] || input[0] == 0 then ([], if input == [] then [] else input[1..])
    else
      var (data, rest) := Unescape(input[1..]);
      var (more, after) := Items(rest);
      ([data] + more, after)
  }

  method ReadItems(input: InputStream) returns (cache: seq<seq<Byte>>)
    modifies input
    ensures (cache, input.rest) == Items(old(input.rest))
  {
    cache := [];
    ghost var all := Items(input.rest);
    while true
      invariant all.0 == cache + Items(input.rest).0 && all.1 == Items(input.rest).1
      decreases |input.rest|
    {
      ghost var before := input.rest;
      var kind := input.Read();
      if kind <= 0 {
        assert cache + [] == cache;
        return;
      }
      var data := Receive(input);
      assert cache + ([data] + Items(input.rest).0) == cache + [data] + Items(input.rest).0;
      cache := cache + [data];
    }
  }

  function Datas(items: seq<Item>): seq<seq<Byte>> {
    if items == [] then [] else [items[0].data] + Datas(items[1..])
  }

  /** Any list of items is recovered, whatever bytes they hold, and the stream left right behind it. */
  lemma {:induction false} ItemsRecovered(items: seq<Item>, t: seq<Byte>)
    requires forall i :: 0 <= i < |items| ==> items[i].kind != 0
    ensures Items(Results(items) + t) == (Datas(items), t)
  {
    if items != [] {
      var rest := Results(items[1..]) + t;
      var body := Escape(items[0].data) + [0] + rest;
      assert Results(items) + t == [items[0].kind] + body;
      assert ([items[0].kind] + body)[1..] == body;
      UnescapeEscape(items[0].data, rest);
      ItemsRecovered(items[1..], t);
    }
  }
}
