/** The serializer and the parsing loop, as they run on streams. */
module MessageCodec {
  import opened Views
  import opened Int64
  import opened Streams
  import opened Varint
  import opened Integers
  import opened IntegerCodec
  import opened Schema
  import opened Merge
  import Utf8

  // ---------- serializing ----------

  method SerializeBytes(arr: seq<Byte>, stream: Stream, ghost bs: seq<Byte>)
    requires |arr| < MAXLENGTH && stream.Wrote(bs)
    modifies stream.Obj()
    ensures stream.Wrote(bs + Delimited(arr))
    ensures stream.Text? ==> stream.b.urlSafe == old(stream.b.urlSafe)
  {
    hide Var128, Stream.Wrote;
    SerializeInt32(|arr|, stream, bs);
    stream.Write(arr, bs + Var128(|arr|));
    assert bs + Var128(|arr|) + arr == bs + Delimited(arr);
  }

  method SerializeValue(env: Env, ty: Type, v: Value, stream: Stream, ghost bs: seq<Byte>)
    requires WellFormed(env) && HasType(env, ty, v) && Sendable(env, ty, v) && stream.Wrote(bs)
    modifies stream.Obj()
    ensures stream.Wrote(bs + EncodeValue(env, ty, v))
    ensures stream.Text? ==> stream.b.urlSafe == old(stream.b.urlSafe)
    decreases v, 0
  {
    hide Stream.Wrote, Delimited, Integers.Encode, EncodeSlots;
    match ty {
      case Number(num) => IntegerCodec.Serialize(num, v.x, stream, bs);
      case Str =>
        var arr := Utf8.EncodeUTF8(v.s);
        SerializeBytes(arr, stream, bs);
      case Blob => SerializeBytes(v.bs, stream, bs);
      case Msg(n) =>
        assert Payload(env, ty, v) == EncodeSlots(env, env[n], v.m.slots);
        var bas := new ByteArrayStream([]);
        WroteNothing(bas);
        SerializeSlots(env, env[n], v.m.slots, Bytes(bas), []);
        WroteArray(bas, EncodeSlots(env, env[n], v.m.slots));
        SerializeBytes(bas.bytes, stream, bs);
    }
  }

  lemma WroteNothing(bas: ByteArrayStream)
    requires bas.bytes == []
    ensures Bytes(bas).Wrote([])
  {
  }

  lemma WroteArray(bas: ByteArrayStream, bs: seq<Byte>)
    requires Bytes(bas).Wrote([] + bs)
    ensures bas.bytes == bs
  {
    assert [] + bs == bs;
  }

  /** Values one after the other, each behind its tag when there is one. */
  lemma OneMore(env: Env, ty: Type, tag: seq<Byte>, vs: seq<Value>, i: nat, done: seq<Byte>)
    requires i < |vs| && forall j :: 0 <= j < |vs| ==> HasType(env, ty, vs[j])
    ensures done + EncodeValues(env, ty, tag, vs[i..])
      == done + tag + EncodeValue(env, ty, vs[i]) + EncodeValues(env, ty, tag, vs[i + 1..])
  {
    hide EncodeValue, HasType;
    var e, rest := EncodeValue(env, ty, vs[i]), EncodeValues(env, ty, tag, vs[i + 1..]);
    assert vs[i..][1..] == vs[i + 1..];
    assert done + (tag + e + rest) == done + tag + e + rest;
  }

  lemma NoMore(env: Env, ty: Type, tag: seq<Byte>, vs: seq<Value>, done: seq<Byte>)
    ensures done + EncodeValues(env, ty, tag, vs[|vs|..]) == done
  {
    assert vs[|vs|..] == [];
    assert done + [] == done;
  }

  method SerializeValues(env: Env, ty: Type, tagged: bool, wireId: nat, vs: seq<Value>, stream: Stream,
      ghost bs: seq<Byte>)
    requires WellFormed(env) && wireId < MAXLENGTH && stream.Wrote(bs)
    requires forall i :: 0 <= i < |vs| ==> HasType(env, ty, vs[i]) && Sendable(env, ty, vs[i])
    modifies stream.Obj()
    ensures stream.Wrote(bs + EncodeValues(env, ty, if tagged then Var128(wireId) else [], vs))
    ensures stream.Text? ==> stream.b.urlSafe == old(stream.b.urlSafe)
    decreases vs, 0
  {
    hide Stream.Wrote, EncodeValue, HasType, Sendable, Var128, EncodeValues;
    ghost var tag := if tagged then Var128(wireId) else [];
    ghost var done := bs;
    for i := 0 to |vs|
      invariant stream.Wrote(done)
      invariant bs + EncodeValues(env, ty, tag, vs) == done + EncodeValues(env, ty, tag, vs[i..])
      invariant stream.Text? ==> stream.b.urlSafe == old(stream.b.urlSafe)
    {
      if tagged {
        SerializeInt32(wireId, stream, done);
      } else {
        assert done + [] == done;
      }
      SerializeValue(env, ty, vs[i], stream, done + tag);
      OneMore(env, ty, tag, vs, i, done);
      done := done + tag + EncodeValue(env, ty, vs[i]);
    }
    NoMore(env, ty, tag, vs, done);
  }

  method SerializeProperty(env: Env, f: Field, s: Slot, stream: Stream, ghost bs: seq<Byte>)
    requires WellFormed(env) && 1 <= f.id <= MAXID && HasField(env, f, s)
    requires SlotTyped(env, f, s) && SlotSendable(env, f, s) && stream.Wrote(bs)
    modifies stream.Obj()
    ensures stream.Wrote(bs + EncodeSlot(env, f, s))
    ensures stream.Text? ==> stream.b.urlSafe == old(stream.b.urlSafe)
    decreases s, 0
  {
    hide Stream.Wrote, EncodeValue, EncodeValues, HasType, Sendable, Var128, Delimited, HasField;
    var wiretype := f.ty.WireType();
    var wireId := f.id * 8 + wiretype;
    if f.repeated {
      if wiretype != 2 && f.packed {
        var bas := new ByteArrayStream([]);
        WroteNothing(bas);
        SerializeValues(env, f.ty, false, 0, s.vs, Bytes(bas), []);
        WroteArray(bas, EncodeValues(env, f.ty, [], s.vs));
        wireId := f.id * 8 + 2;
        SerializeInt32(wireId, stream, bs);
        SerializeBytes(bas.bytes, stream, bs + Var128(wireId));
        assert bs + Var128(wireId) + Delimited(bas.bytes) == bs + (Tag(f, 2) + Delimited(bas.bytes));
      } else {
        SerializeValues(env, f.ty, true, wireId, s.vs, stream, bs);
      }
    } else {
      PresentOne(env, f, s);
      SerializeInt32(wireId, stream, bs);
      SerializeValue(env, f.ty, s.v, stream, bs + Var128(wireId));
      assert bs + Var128(wireId) + EncodeValue(env, f.ty, s.v) == bs + (Tag(f, wiretype) + EncodeValue(env, f.ty, s.v));
    }
  }

  lemma PresentOne(env: Env, f: Field, s: Slot)
    requires SlotTyped(env, f, s) && HasField(env, f, s) && !f.repeated
    ensures s.One?
  {
  }

  /** `SerializeToStream` of a message: the fields that are present, in declaration order. */
  method SerializeSlots(env: Env, fs: seq<Field>, ss: seq<Slot>, stream: Stream, ghost bs: seq<Byte>)
    requires WellFormed(env) && WellFormedFields(env, fs) && WellTyped(env, fs, ss)
        && SlotsSendable(env, fs, ss) && stream.Wrote(bs)
    modifies stream.Obj()
    ensures stream.Wrote(bs + EncodeSlots(env, fs, ss))
    ensures stream.Text? ==> stream.b.urlSafe == old(stream.b.urlSafe)
    decreases ss, 0
  {
    hide Stream.Wrote, SlotTyped, SlotSendable, HasField;
    ghost var done := bs;
    for i := 0 to |ss|
      invariant stream.Wrote(done)
      invariant bs + EncodeSlots(env, fs, ss) == done + EncodeSlots(env, fs[i..], ss[i..])
      invariant stream.Text? ==> stream.b.urlSafe == old(stream.b.urlSafe)
    {
      ghost var e, rest := EncodeSlot(env, fs[i], ss[i]), EncodeSlots(env, fs[i..][1..], ss[i..][1..]);
      assert fs[i..][1..] == fs[i + 1..] && ss[i..][1..] == ss[i + 1..];
      assert done + (e + rest) == done + e + rest;
      if HasField(env, fs[i], ss[i]) {
        SerializeProperty(env, fs[i], ss[i], stream, done);
      } else {
        assert done + [] == done;
      }
      done := done + e;
    }
    assert done + EncodeSlots(env, fs[|ss|..], ss[|ss|..]) == done;
  }

  // ---------- parsing ----------

  /** `fidToProp`: a later field overrides an earlier one of the same id. */
  method FidToProp(fs: seq<Field>) returns (props: map<int, int>)
    ensures forall id :: id in props <==> FindField(fs, id) >= 0
    ensures forall id :: id in props ==> props[id] == FindField(fs, id)
  {
    props := map[];
    for k := 0 to |fs|
      invariant forall id :: id in props <==> FindField(fs[..k], id) >= 0
      invariant forall id :: id in props ==> props[id] == FindField(fs[..k], id)
    {
      props := props[fs[k].id := k];
      assert fs[..k + 1][..k] == fs[..k];
    }
    assert fs[..|fs|] == fs;
  }

  /** How a parse ends: `true`, `false`, an exception, or beyond what the model follows. */
  datatype Verdict = True | False | Thrown | Unclear

  ghost function VerdictOf(o: Outcome): Verdict {
    match o
    case Done(_, _) => True
    case Refused(_) => False
    case Raised => Thrown
    case Garbled => Unclear
  }

  datatype Progress = Goes(m: Message) | Stops(v: Verdict) | Descends(i: int, payload: seq<Byte>)

  ghost predicate Follows(p: Progress, s: Step) {
    match s
    case Next(m, _) => p == Goes(m)
    case Stop(o) => p == Stops(VerdictOf(o))
    case Nested(i, payload, _) => p == Descends(i, payload)
  }

  ghost function After(s: Step, v: View): View {
    match s
    case Next(_, w) => w
    case Nested(_, _, w) => w
    case Stop(_) => v
  }

  /** `Convert` returns an object as it is. */
  function Converted(num: NumType, p: Parsed): (r: Option<Parsed>)
    reads if p.Object? then {p.o} else {}
    ensures r.Some? == Convert(num, p.Now()).Some?
    ensures r.Some? ==> r.value.Object? == p.Object? && (p.Object? ==> r.value == p)
    ensures r.Some? ==> r.value.Now() == Convert(num, p.Now()).value
  {
    if p.Object? then Some(p)
    else
      var y := Convert(num, Num(p.n));
      if y.None? then None else Some(Figure(y.value.n))
  }

  ghost function Objects(ps: seq<Parsed>): set<object> {
    set i | 0 <= i < |ps| && ps[i].Object? :: ps[i].o
  }

  /** The elements are kept as they are parsed, and looked at after all of them are. */
  method UnpackAll(num: NumType, bytearr: seq<Byte>, temp: Num64) returns (r: Unpacked)
    modifies temp
    ensures r == Unpack(num, ArrayView(bytearr, false), |bytearr|)
  {
    hide Parse, Convert, Unpack, Extend;
    var bas := new ByteArrayStream(bytearr);
    var stream := Bytes(bas);
    var kept: seq<Parsed> := [];
    ghost var vs: seq<Value> := [];
    ghost var all := Unpack(num, ArrayView(bytearr, false), |bytearr|);
    ReadableArray(bas);
    UnpackMore([], all);
    var j := 0;
    while j < |bytearr|
      invariant 0 <= j <= |bytearr| && stream.Readable()
      invariant all == Extend(vs, Unpack(num, stream.View(), |bytearr| - j))
      invariant forall p :: p in kept && p.Object? ==> fresh(p.o)
      invariant |vs| == |kept| && forall i :: 0 <= i < |vs| ==> vs[i] == Single(kept[i].Now())
    {
      var more := stream.IsValid();
      if !more {
        break;
      }
      ghost var v, before := stream.View(), vs;
      UnpackNext(num, v, |bytearr| - j);
      ExtendFails(vs);
      var x := ParseScalar(num, stream, temp);
      if x.None? {
        return NaN;
      }
      assert forall i :: 0 <= i < |before| ==> before[i] == Single(kept[i].Now());
      var y := Converted(num, x.value);
      if y.None? {
        return Throws;
      }
      ExtendMore(vs, Single(y.value.Now()), Unpack(num, stream.View(), |bytearr| - j - 1));
      vs := vs + [Single(y.value.Now())];
      kept := kept + [y.value];
      j := j + 1;
    }
    UnpackDone(num, vs, stream.View(), |bytearr| - j);
    r := Values(seq(|kept|, i requires 0 <= i < |kept| reads Objects(kept) => Single(kept[i].Now())));
    assert r.vs == vs;
  }

  lemma UnpackNext(num: NumType, v: View, k: nat)
    requires k > 0 && v.Valid()
    ensures
      var (x, w) := Parse(num, v);
      Unpack(num, v, k) ==
        if x.None? then NaN
        else
          var y := Convert(num, x.value);
          if y.None? then Throws else Extend([Single(y.value)], Unpack(num, w, k - 1))
  {
    hide Parse, Convert;
  }

  lemma UnpackDone(num: NumType, vs: seq<Value>, v: View, k: nat)
    requires k == 0 || !v.Valid()
    ensures Extend(vs, Unpack(num, v, k)) == Values(vs)
  {
    assert vs + [] == vs;
  }

  lemma ReadableArray(bas: ByteArrayStream)
    ensures Bytes(bas).Readable() && Bytes(bas).View() == bas.View()
  {
  }

  ghost function Extend(vs: seq<Value>, u: Unpacked): Unpacked {
    if u.Values? then Values(vs + u.vs) else u
  }

  lemma UnpackMore(vs: seq<Value>, u: Unpacked)
    ensures Extend([], u) == u
  {
    if u.Values? { assert [] + u.vs == u.vs; }
  }

  lemma ExtendFails(vs: seq<Value>)
    ensures Extend(vs, NaN) == NaN && Extend(vs, Throws) == Throws
  {
  }

  lemma ExtendMore(vs: seq<Value>, x: Value, u: Unpacked)
    ensures Extend(vs + [x], u) == Extend(vs, Extend([x], u))
  {
    if u.Values? { assert vs + [x] + u.vs == vs + ([x] + u.vs); }
  }

  method ParseNumber(fs: seq<Field>, i: int, num: NumType, m: Message, stream: Stream, temp: Num64)
    returns (p: Progress)
    requires 0 <= i < |fs| && Shaped(fs, m) && stream.Readable()
    modifies stream.Obj(), temp
    ensures stream.Readable()
    ensures
      var s := old(ReadNumber(fs, i, num, m, stream.View()));
      Follows(p, s) && (s.Next? ==> stream.View() == s.after)
  {
    hide Parse, Convert, Put;
    var x := ParseScalar(num, stream, temp);
    if x.None? {
      return Stops(Unclear);
    }
    var y := Converted(num, x.value);
    p := if y.None? then Stops(Thrown) else Goes(Put(fs, m, i, [Single(y.value.Now())]));
  }

  /** A sub-message out of the zeros of a fresh array. */
  method ZerosParsed(fs: seq<Field>) returns (m: Message)
    ensures m == ZeroFields(fs, Empty(fs), 2048)
  {
    m := Empty(fs);
    for k := 0 to 2048
      invariant Shaped(fs, m) && ZeroFields(fs, Empty(fs), 2048) == ZeroFields(fs, m, 2048 - k)
    {
      m := ZeroField(fs, m);
    }
  }

  method HandlePayload(fs: seq<Field>, i: int, payload: Option<seq<Byte>>, m: Message, env: Env, temp: Num64,
      ghost w: View)
    returns (p: Progress)
    requires 0 <= i < |fs| && Shaped(fs, m) && (fs[i].ty.Msg? ==> fs[i].ty.name in env)
    modifies temp
    ensures Follows(p, TakePayload(fs, i, payload, m, env, w))
  {
    hide Unpack, Put, Utf8.Decode, ZeroFields;
    match fs[i].ty {
      case Number(num) =>
        if payload.None? {
          return Stops(Thrown);
        }
        if !fs[i].repeated {
          return if payload.value == [] then Goes(m) else Stops(Thrown);
        }
        var r := UnpackAll(num, payload.value, temp);
        match r {
          case Values(vs) => p := Goes(Put(fs, m, i, vs));
          case Throws => p := Stops(Thrown);
          case NaN => p := Stops(Unclear);
        }
      case Str =>
        if payload.None? {
          return Stops(Thrown);
        }
        var str := Utf8.DecodeUTF8(payload.value);
        p := Goes(Put(fs, m, i, [Chars(str)]));
      case Blob =>
        p := if payload.None? then Stops(False) else Goes(Put(fs, m, i, [Octets(payload.value)]));
      case Msg(n) =>
        if payload.None? {
          var sub := ZerosParsed(env[n]);
          p := Goes(Put(fs, m, i, [Sub(sub)]));
        } else {
          p := Descends(i, payload.value);
        }
    }
  }

  /** One round of the loop after the tag: `nextval` is read or skipped according to its wire type. */
  method ParseField(env: Env, fs: seq<Field>, props: map<int, int>, tag: int, m: Message, stream: Stream, temp: Num64)
    returns (p: Progress)
    requires Shaped(fs, m) && stream.Readable()
    requires forall i :: 0 <= i < |fs| && fs[i].ty.Msg? ==> fs[i].ty.name in env
    requires forall id :: id in props <==> FindField(fs, id) >= 0
    requires forall id :: id in props ==> props[id] == FindField(fs, id)
    modifies stream.Obj(), temp
    ensures stream.Readable()
    ensures
      var s := old(ReadField(env, fs, tag, m, stream.View()));
      && Follows(p, s)
      && (!s.Stop? ==> stream.View() == After(s, stream.View()))
  {
    hide ReadNumber, TakePayload, ParseVar, CollectBytes, ParseInt32, FindField;
    var nexttype, nextfid := WireOf(tag), IdOf(tag);
    var i := if nextfid in props then props[nextfid] else -1;
    if nexttype == 0 {
      if i >= 0 && fs[i].ty.Number? && fs[i].ty.WireType() == 0 {
        p := ParseNumber(fs, i, fs[i].ty.num, m, stream, temp);
      } else {
        var skipped, nan := ParseLEVar128(stream, Some(temp));
        p := Goes(m);
      }
    } else if nexttype == 1 {
      if i >= 0 && fs[i].ty.Number? && fs[i].ty.WireType() == 1 {
        p := ParseNumber(fs, i, fs[i].ty.num, m, stream, temp);
      } else {
        var skipped, nan := ParseLEBase256(stream, None);
        p := Goes(m);
      }
    } else if nexttype == 2 {
      ghost var v := stream.View();
      var len := ReadInt32(stream, temp);
      LengthIsNum(v);
      if len.None? || (len.value < 0 && stream.Bytes?) {
        return Stops(Unclear);
      }
      var payload := stream.ReadBlock(if len.value < 0 then 0 else len.value);
      if i < 0 {
        p := Goes(m);
      } else {
        p := HandlePayload(fs, i, payload, m, env, temp, stream.View());
      }
    } else if nexttype == 5 {
      if i >= 0 && fs[i].ty.Number? && fs[i].ty.WireType() == 5 {
        p := ParseNumber(fs, i, fs[i].ty.num, m, stream, temp);
      } else {
        var skipped := ReadBytes(stream, 4);
        p := Goes(m);
      }
    } else {
      p := Goes(m);
    }
  }

  lemma LengthIsNum(v: View)
    ensures ParseInt32(v).0.Some? ==> ParseInt32(v).0.value.Num?
    ensures ParseInt32(v).1.ArrayView? == v.ArrayView?
  {
  }

  /** `mergeProperties`: the loop over the fields of a stream; sub-messages are parsed from their own array. */
  method MergeProperties(env: Env, n: string, stream: Stream, temp: Num64, m0: Message)
    returns (r: Verdict, m: Message)
    requires Resolvable(env) && n in env && Shaped(env[n], m0) && stream.Readable()
    modifies stream.Obj(), temp
    ensures stream.Readable()
    ensures
      var o := old(MergeAll(env, n, stream.View(), m0));
      && r == VerdictOf(o)
      && (o.Done? ==> m == o.m && stream.View() == o.after)
      && (o.Refused? ==> m == o.m)
    decreases stream.View().Size()
  {
    hide ReadField, ParseInt32, Put, FindField, Stream.Readable, Stream.View;
    m := m0;
    var fs := env[n];
    var props := FidToProp(fs);
    ghost var all := MergeAll(env, n, stream.View(), m0);
    while true
      invariant stream.Readable() && Shaped(fs, m)
      invariant stream.View().Size() <= old(stream.View().Size())
      invariant MergeAll(env, n, stream.View(), m) == all
      decreases stream.View().Size()
    {
      var more := stream.IsValid();
      if !more {
        return True, m;
      }
      LengthIsNum(stream.View());
      var tag := ReadInt32(stream, temp);
      if tag.None? {
        return Unclear, m;
      }
      var p := ParseField(env, fs, props, tag.value, m, stream, temp);
      match p {
        case Stops(v) => return v, m;
        case Goes(m1) => m := m1;
        case Descends(i, payload) =>
          var sub := fs[i].ty.name;
          var bas := new ByteArrayStream(payload);
          ReadableArray(bas);
          var r1, m1 := MergeProperties(env, sub, Bytes(bas), temp, Empty(env[sub]));
          if r1 == Thrown || r1 == Unclear {
            return r1, m;
          }
          m := Put(fs, m, i, [Sub(m1)]);
      }
    }
  }
}
