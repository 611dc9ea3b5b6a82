/** The schema-driven parser: fields in any order, unknown ones skipped, known ones merged into a message. */
module Merge {
  import opened Views
  import opened Int64
  import opened Streams
  import opened Varint
  import opened Integers
  import opened Schema
  import Utf8

  /** How a merge ends: all of the stream consumed, `false` returned on a truncated bytes field, an
    * exception, or a NaN or a negative length, after which the model does not follow the parser. */
  datatype Outcome = Done(m: Message, after: View) | Refused(m: Message) | Raised | Garbled

  /** `fidToProp`: of fields with the same id the last one counts; -1 for an unknown id. */
  function FindField(fs: seq<Field>, id: int): (i: int)
    ensures -1 <= i < |fs|
    ensures i >= 0 ==> fs[i].id == id
    ensures i < 0 ==> forall j :: 0 <= j < |fs| ==> fs[j].id != id
  {
    if fs == [] then -1
    else if fs[|fs| - 1].id == id then |fs| - 1
    else FindField(fs[..|fs| - 1], id)
  }

  /** `nextfid % 8`, whose sign is that of the tag. */
  function WireOf(tag: int): int {
    if tag >= 0 then tag % 8 else -(-tag % 8)
  }

  /** `nextfid >>> 3`, on the tag as an unsigned word. */
  function IdOf(tag: int): int {
    tag % W / 8
  }

  /** Slots agree with their fields on being repeated. */
  predicate Shaped(fs: seq<Field>, m: Message) {
    |m.slots| == |fs| && forall i :: 0 <= i < |fs| ==> (m.slots[i].Many? <==> fs[i].repeated)
  }

  function Empty(fs: seq<Field>): (m: Message)
    ensures Shaped(fs, m)
  {
    Message(EmptySlots(fs))
  }

  /** A parsed value: pushed onto a repeated field, otherwise it replaces the old one. */
  function Put(fs: seq<Field>, m: Message, i: int, vs: seq<Value>): (r: Message)
    requires 0 <= i < |fs| && Shaped(fs, m)
    requires !fs[i].repeated ==> |vs| == 1
    ensures Shaped(fs, r)
  {
    Message(m.slots[i := if fs[i].repeated then Many(m.slots[i].vs + vs) else One(vs[0])])
  }

  /** What one field does: go on, stop, or parse a payload as a sub-message for field i first. */
  datatype Step =
    | Next(m: Message, after: View)
    | Stop(o: Outcome)
    | Nested(i: int, payload: seq<Byte>, after: View)

  datatype Unpacked = Values(vs: seq<Value>) | Throws | NaN

  /** The elements of a packed field; at most as many as the payload has bytes. */
  function Unpack(num: NumType, v: View, budget: nat): Unpacked
    decreases budget
  {
    if budget == 0 || !v.Valid() then Values([])
    else
      var (x, w) := Parse(num, v);
      if x.None? then NaN
      else
        var y := Convert(num, x.value);
        if y.None? then Throws
        else
          var r := Unpack(num, w, budget - 1);
          if r.Values? then Values([Single(y.value)] + r.vs) else r
  }

  function ReadNumber(fs: seq<Field>, i: int, num: NumType, m: Message, v: View): (s: Step)
    requires 0 <= i < |fs| && Shaped(fs, m)
    ensures s.Next? ==> s.after.Size() <= v.Size() && Shaped(fs, s.m)
    ensures !s.Nested? && (s.Stop? ==> s.o == Raised || s.o == Garbled)
  {
    var (x, w) := Parse(num, v);
    if x.None? then Stop(Garbled)
    else
      var y := Convert(num, x.value);
      if y.None? then Stop(Raised) else Next(Put(fs, m, i, [Single(y.value)]), w)
  }

  /** One field out of two zero bytes: tag 0 means a varint for field 0. */
  function ZeroField(fs: seq<Field>, m: Message): (r: Message)
    requires Shaped(fs, m)
    ensures Shaped(fs, r)
  {
    var i := FindField(fs, 0);
    if i >= 0 && fs[i].ty.Number? && fs[i].ty.WireType() == 0 then Put(fs, m, i, [Single(fs[i].ty.num.Zero())])
    else m
  }

  function ZeroFields(fs: seq<Field>, m: Message, k: nat): (r: Message)
    requires Shaped(fs, m)
    ensures Shaped(fs, r)
    decreases k
  {
    if k == 0 then m else ZeroFields(fs, ZeroField(fs, m), k - 1)
  }

  /** A payload for field i; None when a byte array holds fewer bytes than announced. A sub-message is
    * then parsed from a fresh array of 4096 zeros, in which only a field 0 would find anything. */
  function TakePayload(fs: seq<Field>, i: int, payload: Option<seq<Byte>>, m: Message, env: Env, w: View): (s: Step)
    requires 0 <= i < |fs| && Shaped(fs, m)
    requires fs[i].ty.Msg? ==> fs[i].ty.name in env
    ensures s.Next? ==> s.after == w && Shaped(fs, s.m)
    ensures s.Nested? ==> payload == Some(s.payload) && s.i == i && s.after == w && fs[i].ty.Msg?
    ensures s.Stop? ==> !s.o.Done? && (s.o.Refused? ==> s.o.m == m)
  {
    match fs[i].ty
    case Number(num) =>
      if payload.None? then Stop(Raised)
      else if !fs[i].repeated then (if payload.value == [] then Next(m, w) else Stop(Raised))
      else (
        match Unpack(num, ArrayView(payload.value, false), |payload.value|)
        case Values(vs) => Next(Put(fs, m, i, vs), w)
        case Throws => Stop(Raised)
        case NaN => Stop(Garbled))
    case Str => if payload.None? then Stop(Raised) else Next(Put(fs, m, i, [Chars(Utf8.Decode(payload.value))]), w)
    case Blob => if payload.None? then Stop(Refused(m)) else Next(Put(fs, m, i, [Octets(payload.value)]), w)
    case Msg(n) =>
      if payload.None? then Next(Put(fs, m, i, [Sub(ZeroFields(env[n], Empty(env[n]), 2048))]), w)
      else Nested(i, payload.value, w)
  }

  /** The body of the loop once the tag is read. */
  function ReadField(env: Env, fs: seq<Field>, tag: int, m: Message, v: View): (s: Step)
    requires Shaped(fs, m)
    requires forall i :: 0 <= i < |fs| && fs[i].ty.Msg? ==> fs[i].ty.name in env
    ensures s.Next? ==> s.after.Size() <= v.Size() && Shaped(fs, s.m)
    ensures s.Nested? ==> |s.payload| <= v.Size() && s.after.Size() <= v.Size()
    ensures s.Nested? ==> 0 <= s.i < |fs| && fs[s.i].ty.Msg?
    ensures s.Stop? ==> !s.o.Done? && (s.o.Refused? ==> s.o.m == m)
  {
    var i, wire := FindField(fs, IdOf(tag)), WireOf(tag);
    if wire == 0 then
      if i >= 0 && fs[i].ty.Number? && fs[i].ty.WireType() == 0 then ReadNumber(fs, i, fs[i].ty.num, m, v)
      else Next(m, ParseVar(v).1)
    else if wire == 1 then
      if i >= 0 && fs[i].ty.Number? && fs[i].ty.WireType() == 1 then ReadNumber(fs, i, fs[i].ty.num, m, v)
      else Next(m, CollectBytes(v, 8).after)
    else if wire == 2 then
      var (len, w) := ParseInt32(v);
      if len.None? || (len.value.n < 0 && w.ArrayView?) then Stop(Garbled)
      else
        var (payload, after) := w.ReadBlock(if len.value.n < 0 then 0 else len.value.n);
        if i < 0 then Next(m, after) else TakePayload(fs, i, payload, m, env, after)
    else if wire == 5 then
      if i >= 0 && fs[i].ty.Number? && fs[i].ty.WireType() == 5 then ReadNumber(fs, i, fs[i].ty.num, m, v)
      else Next(m, CollectBytes(v, 4).after)
    else
      Next(m, v)
  }

  ghost predicate Resolvable(env: Env) {
    forall n, i :: n in env && 0 <= i < |env[n]| && env[n][i].ty.Msg? ==> env[n][i].ty.name in env
  }

  /** The whole loop, on a message of type n. */
  ghost function MergeAll(env: Env, n: string, v: View, m: Message): (o: Outcome)
    requires Resolvable(env) && n in env && Shaped(env[n], m)
    ensures o.Done? || o.Refused? ==> Shaped(env[n], o.m)
    decreases v.Size()
  {
    if !v.Valid() then Done(m, v)
    else
      var (t, w) := ParseInt32(v);
      if t.None? then Garbled
      else
        match ReadField(env, env[n], t.value.n, m, w)
        case Next(m', w') => MergeAll(env, n, w', m')
        case Stop(o) => o
        case Nested(i, payload, w') =>
          var sub := env[n][i].ty.name;
          match MergeAll(env, sub, ArrayView(payload, false), Empty(env[sub]))
          case Done(m2, _) => MergeAll(env, n, w', Put(env[n], m, i, [Sub(m2)]))
          case Refused(m2) => MergeAll(env, n, w', Put(env[n], m, i, [Sub(m2)]))
          case o => o
  }
}
