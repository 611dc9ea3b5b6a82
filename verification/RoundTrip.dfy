/** Parsing what was serialized: under the writer's own message types, under any compatible ones, and
  * when several encodings follow each other. */
module RoundTrip {
  import opened Views
  import opened Int64
  import opened Streams
  import opened Varint
  import opened Integers
  import opened Schema
  import opened Merge
  import Utf8

  // ---------- what a reader with other message types gets to see ----------

  /** Fields are removed, added or moved freely; an id known to both sides keeps its type and label. */
  ghost predicate Compatible(ws: Env, rs: Env) {
    && WellFormed(ws) && WellFormed(rs)
    && forall n :: n in ws ==> n in rs && FieldsAgree(ws[n], rs[n])
  }

  ghost predicate FieldsAgree(fs: seq<Field>, gs: seq<Field>) {
    forall i, j :: 0 <= i < |fs| && 0 <= j < |gs| && fs[i].id == gs[j].id ==>
      fs[i].ty == gs[j].ty && fs[i].repeated == gs[j].repeated
  }

  /** A value as the reader's types see it: fields it does not know are gone, at every depth. */
  ghost function Project(ws: Env, rs: Env, ty: Type, v: Value): Value
    requires Compatible(ws, rs) && HasType(ws, ty, v)
    decreases v, 1
  {
    if ty.Msg? then Sub(Overlay(ws, rs, ty.name, ws[ty.name], v.m.slots, Empty(rs[ty.name]))) else v
  }

  ghost function ProjectAll(ws: Env, rs: Env, ty: Type, vs: seq<Value>): (r: seq<Value>)
    requires Compatible(ws, rs) && forall i :: 0 <= i < |vs| ==> HasType(ws, ty, vs[i])
    ensures |r| == |vs|
    decreases vs, 0
  {
    if vs == [] then [] else [Project(ws, rs, ty, vs[0])] + ProjectAll(ws, rs, ty, vs[1..])
  }

  /** One writer field laid over a reader message: present singular values replace, repeated ones append. */
  ghost function OverlaySlot(ws: Env, rs: Env, n: string, f: Field, s: Slot, acc: Message): (r: Message)
    requires Compatible(ws, rs) && n in rs && Shaped(rs[n], acc)
    requires SlotTyped(ws, f, s) && FieldsAgree([f], rs[n])
    ensures Shaped(rs[n], r)
    decreases s, 1
  {
    var i := FindField(rs[n], f.id);
    if i < 0 || !HasField(ws, f, s) then acc
    else
      assert [f][0].id == rs[n][i].id;
      if s.One? then Put(rs[n], acc, i, [Project(ws, rs, f.ty, s.v)])
      else Put(rs[n], acc, i, ProjectAll(ws, rs, f.ty, s.vs))
  }

  ghost function Overlay(ws: Env, rs: Env, n: string, fs: seq<Field>, ss: seq<Slot>, acc: Message): (r: Message)
    requires Compatible(ws, rs) && n in rs && Shaped(rs[n], acc)
    requires WellTyped(ws, fs, ss) && FieldsAgree(fs, rs[n])
    ensures Shaped(rs[n], r)
    decreases ss, 0
  {
    if ss == [] then acc
    else
      assert FieldsAgree([fs[0]], rs[n]) && FieldsAgree(fs[1..], rs[n]);
      Overlay(ws, rs, n, fs[1..], ss[1..], OverlaySlot(ws, rs, n, fs[0], ss[0], acc))
  }

  // ---------- one tag, one length ----------

  lemma TagRead(f: Field, wire: int, t: seq<Byte>, v: View)
    requires 1 <= f.id <= MAXID && 0 <= wire < 8
    requires v.rest == Tag(f, wire) + t
    ensures ParseInt32(v) == (Some(Num(f.id * 8 + wire)), v.(rest := t))
    ensures WireOf(f.id * 8 + wire) == wire && IdOf(f.id * 8 + wire) == f.id
    ensures v.Valid()
  {
    hide ParseInt32;
    Int32Read(f.id * 8 + wire, t, v);
    assert v.rest[0] == Tag(f, wire)[0];
  }

  lemma PayloadRead(p: seq<Byte>, t: seq<Byte>, v: View)
    requires |p| < MAXLENGTH && v.rest == Delimited(p) + t && (v.ArrayView? ==> !v.overrun)
    ensures
      var (len, w) := ParseInt32(v);
      && len == Some(Num(|p|)) && w.ArrayView? == v.ArrayView?
      && w.ReadBlock(|p|) == (Some(p), v.(rest := t))
  {
    hide ParseInt32;
    assert v.rest == Var128(|p|) + (p + t);
    Int32Read(|p|, p + t, v);
    assert (p + t)[..|p|] == p && (p + t)[|p|..] == t;
  }

  // ---------- packed fields ----------

  lemma {:induction false} UnpackInverts(ws: Env, num: NumType, vs: seq<Value>, v: View, budget: nat)
    requires forall i :: 0 <= i < |vs| ==> HasType(ws, Number(num), vs[i]) && Sendable(ws, Number(num), vs[i])
    requires v.ArrayView? && v.rest == EncodeValues(ws, Number(num), [], vs) && budget >= |v.rest|
    ensures Unpack(num, v, budget) == Values(vs)
    decreases vs
  {
    hide Integers.Encode, Parse, Convert, Survives;
    if vs != [] {
      var x, t := vs[0].x, EncodeValues(ws, Number(num), [], vs[1..]);
      assert v.rest == Integers.Encode(num, x) + t;
      ParseInverts(num, x, t, v);
      UnpackInverts(ws, num, vs[1..], ArrayView(t, v.overrun), budget - 1);
    }
  }

  // ---------- one field ----------

  /** The situation in which a reader of type n meets a writer's field f. */
  ghost predicate Meets(ws: Env, rs: Env, n: string, f: Field, acc: Message, v: View) {
    && Compatible(ws, rs) && n in rs && Shaped(rs[n], acc)
    && 1 <= f.id <= MAXID && (f.ty.Msg? ==> f.ty.name in ws)
    && FieldsAgree([f], rs[n])
    && (v.ArrayView? ==> !v.overrun)
  }

  /** The reader's message after its field for f, if it has one, got the values vs. */
  ghost function Receive(rs: Env, n: string, f: Field, acc: Message, vs: seq<Value>): (r: Message)
    requires n in rs && Shaped(rs[n], acc) && FieldsAgree([f], rs[n])
    requires !f.repeated ==> |vs| == 1
    ensures Shaped(rs[n], r)
  {
    var i := FindField(rs[n], f.id);
    if i < 0 then acc
    else
      assert [f][0].id == rs[n][i].id;
      Put(rs[n], acc, i, vs)
  }

  lemma Known(f: Field, fs: seq<Field>)
    requires FieldsAgree([f], fs)
    ensures var i := FindField(fs, f.id); i >= 0 ==> fs[i].ty == f.ty && fs[i].repeated == f.repeated
  {
    var i := FindField(fs, f.id);
    if i >= 0 { assert [f][0].id == fs[i].id; }
  }

  lemma NumberRead(ws: Env, rs: Env, n: string, f: Field, x: Value, acc: Message, t: seq<Byte>, w: View)
    requires Meets(ws, rs, n, f, acc, w) && f.ty.Number? && HasType(ws, f.ty, x) && Sendable(ws, f.ty, x)
    requires w.rest == EncodeValue(ws, f.ty, x) + t
    ensures ReadField(rs, rs[n], f.id * 8 + f.ty.WireType(), acc, w) == Next(Receive(rs, n, f, acc, [x]), w.(rest := t))
  {
    hide Integers.Encode, Parse, Convert, CollectBytes, ParseVar, Put, FindField, Survives;
    Known(f, rs[n]);
    WireAndId(f, f.ty.WireType());
    if FindField(rs[n], f.id) >= 0 {
      ParseInverts(f.ty.num, x.x, t, w);
    } else {
      NumberSkipped(f.ty.num, x.x, t, w);
    }
  }

  lemma WireAndId(f: Field, wire: int)
    requires 1 <= f.id <= MAXID && 0 <= wire < 8
    ensures WireOf(f.id * 8 + wire) == wire && IdOf(f.id * 8 + wire) == f.id
  {
  }

  lemma NumberSkipped(num: NumType, x: Scalar, t: seq<Byte>, w: View)
    requires num.Holds(x) && w.rest == Integers.Encode(num, x) + t
    ensures num.WireType() == 0 ==> ParseVar(w).1 == w.(rest := t)
    ensures num.WireType() == 1 ==> CollectBytes(w, 8).after == w.(rest := t)
    ensures num.WireType() == 5 ==> CollectBytes(w, 4).after == w.(rest := t)
  {
    hide WireNumber;
    var u := WireNumber(num, x);
    if num.WireType() == 0 { ParseVarInverts(u, t, w); }
    else if num.WireType() == 1 { CollectBase256(u, 8, t, w); }
    else { CollectBase256(u, 4, t, w); }
  }

  /** A length-delimited payload reaches the field's handler whole, or is skipped whole. */
  lemma PayloadDelivered(ws: Env, rs: Env, n: string, f: Field, p: seq<Byte>, acc: Message, t: seq<Byte>, w: View)
    requires Meets(ws, rs, n, f, acc, w) && |p| < MAXLENGTH
    requires w.rest == Delimited(p) + t
    ensures
      var i := FindField(rs[n], f.id);
      ReadField(rs, rs[n], f.id * 8 + 2, acc, w)
      == if i < 0 then Next(acc, w.(rest := t)) else TakePayload(rs[n], i, Some(p), acc, rs, w.(rest := t))
  {
    hide Put, FindField, ParseInt32, TakePayload, Delimited;
    WireAndId(f, 2);
    PayloadRead(p, t, w);
  }

  // ---------- the loop, one field at a time ----------

  lemma LoopNext(env: Env, n: string, tag: int, v: View, w: View, m: Message)
    requires Resolvable(env) && n in env && Shaped(env[n], m)
    requires v.Valid() && ParseInt32(v) == (Some(Num(tag)), w)
    requires ReadField(env, env[n], tag, m, w).Next?
    ensures
      var s := ReadField(env, env[n], tag, m, w);
      MergeAll(env, n, v, m) == MergeAll(env, n, s.after, s.m)
  {
    hide ReadField, ParseInt32;
  }

  lemma LoopNested(env: Env, n: string, tag: int, v: View, w: View, m: Message)
    requires Resolvable(env) && n in env && Shaped(env[n], m)
    requires v.Valid() && ParseInt32(v) == (Some(Num(tag)), w)
    requires ReadField(env, env[n], tag, m, w).Nested?
    requires
      var s := ReadField(env, env[n], tag, m, w);
      var sub := env[n][s.i].ty.name;
      MergeAll(env, sub, ArrayView(s.payload, false), Empty(env[sub])).Done?
    ensures
      var s := ReadField(env, env[n], tag, m, w);
      var sub := env[n][s.i].ty.name;
      var m2 := MergeAll(env, sub, ArrayView(s.payload, false), Empty(env[sub])).m;
      MergeAll(env, n, v, m) == MergeAll(env, n, s.after, Put(env[n], m, s.i, [Sub(m2)]))
  {
    hide ReadField, ParseInt32, Put;
  }

  lemma CompatibleResolves(ws: Env, rs: Env)
    requires Compatible(ws, rs)
    ensures Resolvable(rs)
  {
  }

  lemma MergeValue(ws: Env, rs: Env, n: string, f: Field, x: Value, acc: Message, t: seq<Byte>, v: View)
    requires Meets(ws, rs, n, f, acc, v) && HasType(ws, f.ty, x) && Sendable(ws, f.ty, x)
    requires v.rest == Tag(f, f.ty.WireType()) + EncodeValue(ws, f.ty, x) + t
    ensures Resolvable(rs)
    ensures
      MergeAll(rs, n, v, acc) == MergeAll(rs, n, v.(rest := t), Receive(rs, n, f, acc, [Project(ws, rs, f.ty, x)]))
    decreases x, 2
  {
    hide ReadField, Tag, Integers.Encode, Sendable, HasType, Project, EncodeValue, Receive, MergeAll, ParseInt32;
    CompatibleResolves(ws, rs);
    var w := v.(rest := EncodeValue(ws, f.ty, x) + t);
    assert v.rest == Tag(f, f.ty.WireType()) + w.rest;
    TagRead(f, f.ty.WireType(), w.rest, v);
    if f.ty.Number? {
      NumberValue(ws, rs, n, f, x, acc, t, v, w);
    } else {
      PayloadValue(ws, rs, n, f, x, acc, t, v, w);
    }
  }

  lemma NumberValue(ws: Env, rs: Env, n: string, f: Field, x: Value, acc: Message, t: seq<Byte>, v: View, w: View)
    requires Meets(ws, rs, n, f, acc, v) && HasType(ws, f.ty, x) && Sendable(ws, f.ty, x) && f.ty.Number?
    requires v.Valid() && ParseInt32(v) == (Some(Num(f.id * 8 + f.ty.WireType())), w)
    requires w == v.(rest := EncodeValue(ws, f.ty, x) + t)
    ensures Resolvable(rs)
    ensures
      MergeAll(rs, n, v, acc) == MergeAll(rs, n, v.(rest := t), Receive(rs, n, f, acc, [Project(ws, rs, f.ty, x)]))
  {
    hide ReadField, Tag, Integers.Encode, Sendable, HasType, Project, EncodeValue, Receive, MergeAll, ParseInt32;
    CompatibleResolves(ws, rs);
    NumberRead(ws, rs, n, f, x, acc, t, w);
    ProjectPlain(ws, rs, f.ty, x);
    LoopNext(rs, n, f.id * 8 + f.ty.WireType(), v, w, acc);
  }

  lemma ProjectPlain(ws: Env, rs: Env, ty: Type, x: Value)
    requires Compatible(ws, rs) && HasType(ws, ty, x) && !ty.Msg?
    ensures Project(ws, rs, ty, x) == x
  {
  }

  lemma PayloadValue(ws: Env, rs: Env, n: string, f: Field, x: Value, acc: Message, t: seq<Byte>, v: View, w: View)
    requires Meets(ws, rs, n, f, acc, v) && HasType(ws, f.ty, x) && Sendable(ws, f.ty, x) && !f.ty.Number?
    requires v.Valid() && ParseInt32(v) == (Some(Num(f.id * 8 + 2)), w)
    requires w == v.(rest := EncodeValue(ws, f.ty, x) + t)
    ensures Resolvable(rs)
    ensures
      MergeAll(rs, n, v, acc) == MergeAll(rs, n, v.(rest := t), Receive(rs, n, f, acc, [Project(ws, rs, f.ty, x)]))
    decreases x, 1
  {
    hide ReadField, MergeAll, Receive, FindField, EncodeValue, Project, HasType, Sendable;
    CompatibleResolves(ws, rs);
    if FindField(rs[n], f.id) >= 0 && f.ty.Msg? {
      PayloadNested(ws, rs, n, f, x, acc, t, v, w);
    } else {
      PayloadTaken(ws, rs, n, f, x, acc, t, w);
      LoopNext(rs, n, f.id * 8 + 2, v, w, acc);
    }
  }

  lemma PayloadTaken(ws: Env, rs: Env, n: string, f: Field, x: Value, acc: Message, t: seq<Byte>, w: View)
    requires Meets(ws, rs, n, f, acc, w) && HasType(ws, f.ty, x) && Sendable(ws, f.ty, x) && !f.ty.Number?
    requires FindField(rs[n], f.id) < 0 || !f.ty.Msg?
    requires w.rest == EncodeValue(ws, f.ty, x) + t
    ensures ReadField(rs, rs[n], f.id * 8 + 2, acc, w)
        == Next(Receive(rs, n, f, acc, [Project(ws, rs, f.ty, x)]), w.(rest := t))
  {
    hide ReadField, Delimited, FindField, Put, Utf8.Decode, Utf8.Encode;
    Known(f, rs[n]);
    PayloadDelivered(ws, rs, n, f, Payload(ws, f.ty, x), acc, t, w);
    if f.ty.Str? { Utf8.DecodeEncode(x.s); }
  }

  lemma NestedRead(ws: Env, rs: Env, n: string, f: Field, p: seq<Byte>, acc: Message, t: seq<Byte>, w: View)
    requires Meets(ws, rs, n, f, acc, w) && f.ty.Msg? && FindField(rs[n], f.id) >= 0
    requires |p| < MAXLENGTH && w.rest == Delimited(p) + t
    ensures ReadField(rs, rs[n], f.id * 8 + 2, acc, w) == Nested(FindField(rs[n], f.id), p, w.(rest := t))
  {
    hide ReadField, Delimited, FindField, Put;
    Known(f, rs[n]);
    PayloadDelivered(ws, rs, n, f, p, acc, t, w);
  }

  lemma PayloadNested(ws: Env, rs: Env, n: string, f: Field, x: Value, acc: Message, t: seq<Byte>, v: View, w: View)
    requires Meets(ws, rs, n, f, acc, v) && HasType(ws, f.ty, x) && Sendable(ws, f.ty, x) && f.ty.Msg?
    requires FindField(rs[n], f.id) >= 0
    requires v.Valid() && ParseInt32(v) == (Some(Num(f.id * 8 + 2)), w)
    requires w == v.(rest := EncodeValue(ws, f.ty, x) + t)
    ensures Resolvable(rs)
    ensures
      MergeAll(rs, n, v, acc) == MergeAll(rs, n, v.(rest := t), Receive(rs, n, f, acc, [Project(ws, rs, f.ty, x)]))
    decreases x, 0
  {
    hide ReadField, Delimited, MergeAll, FindField, Put, TakePayload;
    CompatibleResolves(ws, rs);
    Known(f, rs[n]);
    var p, sub := Payload(ws, f.ty, x), f.ty.name;
    NestedRead(ws, rs, n, f, p, acc, t, w);
    assert ArrayView(p, false).rest == EncodeSlots(ws, ws[sub], x.m.slots) + [];
    MergeSlots(ws, rs, sub, ws[sub], x.m.slots, Empty(rs[sub]), [], ArrayView(p, false));
    LoopEnd(rs, sub, Overlay(ws, rs, sub, ws[sub], x.m.slots, Empty(rs[sub])));
    LoopNested(rs, n, f.id * 8 + 2, v, w, acc);
  }

  lemma LoopEnd(env: Env, n: string, m: Message)
    requires Resolvable(env) && n in env && Shaped(env[n], m)
    ensures MergeAll(env, n, ArrayView([], false), m) == Done(m, ArrayView([], false))
  {
  }

  /** The fields of a message, in any reader that agrees on the ids it knows, with anything following. */
  lemma MergeSlots(ws: Env, rs: Env, n: string, fs: seq<Field>, ss: seq<Slot>, acc: Message, t: seq<Byte>, v: View)
    requires Compatible(ws, rs) && n in rs && Shaped(rs[n], acc)
    requires WellTyped(ws, fs, ss) && SlotsSendable(ws, fs, ss) && WellFormedFields(ws, fs) && FieldsAgree(fs, rs[n])
    requires v.rest == EncodeSlots(ws, fs, ss) + t && (v.ArrayView? ==> !v.overrun)
    ensures Resolvable(rs)
    ensures MergeAll(rs, n, v, acc) == MergeAll(rs, n, v.(rest := t), Overlay(ws, rs, n, fs, ss, acc))
    decreases ss, 1
  {
    CompatibleResolves(ws, rs);
    if ss == [] {
      assert v.rest == t;
    } else {
      assert FieldsAgree([fs[0]], rs[n]) && FieldsAgree(fs[1..], rs[n]);
      var t1 := EncodeSlots(ws, fs[1..], ss[1..]) + t;
      assert v.rest == EncodeSlot(ws, fs[0], ss[0]) + t1;
      MergeSlot(ws, rs, n, fs[0], ss[0], acc, t1, v);
      MergeSlots(ws, rs, n, fs[1..], ss[1..], OverlaySlot(ws, rs, n, fs[0], ss[0], acc), t, v.(rest := t1));
    }
  }

  lemma MergeSlot(ws: Env, rs: Env, n: string, f: Field, s: Slot, acc: Message, t: seq<Byte>, v: View)
    requires Meets(ws, rs, n, f, acc, v) && SlotTyped(ws, f, s) && SlotSendable(ws, f, s)
    requires v.rest == EncodeSlot(ws, f, s) + t
    ensures Resolvable(rs)
    ensures MergeAll(rs, n, v, acc) == MergeAll(rs, n, v.(rest := t), OverlaySlot(ws, rs, n, f, s, acc))
    decreases s, 1
  {
    hide MergeAll, Tag, EncodeValue, Project;
    CompatibleResolves(ws, rs);
    Known(f, rs[n]);
    if !HasField(ws, f, s) {
      assert v.rest == t;
    } else if s.One? {
      MergeValue(ws, rs, n, f, s.v, acc, t, v);
    } else if PackedForm(f) {
      MergePacked(ws, rs, n, f, s.vs, acc, t, v);
    } else {
      MergeValues(ws, rs, n, f, s.vs, acc, t, v);
    }
  }

  lemma MergeValues(ws: Env, rs: Env, n: string, f: Field, vs: seq<Value>, acc: Message, t: seq<Byte>, v: View)
    requires Meets(ws, rs, n, f, acc, v) && f.repeated
    requires forall i :: 0 <= i < |vs| ==> HasType(ws, f.ty, vs[i]) && Sendable(ws, f.ty, vs[i])
    requires v.rest == EncodeValues(ws, f.ty, Tag(f, f.ty.WireType()), vs) + t
    ensures Resolvable(rs)
    ensures
      MergeAll(rs, n, v, acc) == MergeAll(rs, n, v.(rest := t), Receive(rs, n, f, acc, ProjectAll(ws, rs, f.ty, vs)))
    decreases vs, 0
  {
    hide MergeAll, Tag, EncodeValue, Project, Sendable, HasType;
    CompatibleResolves(ws, rs);
    if vs == [] {
      assert v.rest == t;
      ReceiveNone(rs, n, f, acc);
    } else {
      var tag := Tag(f, f.ty.WireType());
      var t1 := EncodeValues(ws, f.ty, tag, vs[1..]) + t;
      assert v.rest == tag + EncodeValue(ws, f.ty, vs[0]) + t1;
      MergeValue(ws, rs, n, f, vs[0], acc, t1, v);
      var head := [Project(ws, rs, f.ty, vs[0])];
      MergeValues(ws, rs, n, f, vs[1..], Receive(rs, n, f, acc, head), t, v.(rest := t1));
      ReceiveMore(rs, n, f, acc, head, ProjectAll(ws, rs, f.ty, vs[1..]));
    }
  }

  lemma ReceiveNone(rs: Env, n: string, f: Field, acc: Message)
    requires n in rs && Shaped(rs[n], acc) && FieldsAgree([f], rs[n]) && f.repeated
    ensures Receive(rs, n, f, acc, []) == acc
  {
    Known(f, rs[n]);
    var i := FindField(rs[n], f.id);
    if i >= 0 {
      assert acc.slots[i].vs + [] == acc.slots[i].vs;
      assert acc.slots[i := acc.slots[i]] == acc.slots;
    }
  }

  lemma ReceiveMore(rs: Env, n: string, f: Field, acc: Message, a: seq<Value>, b: seq<Value>)
    requires n in rs && Shaped(rs[n], acc) && FieldsAgree([f], rs[n]) && f.repeated
    ensures Receive(rs, n, f, Receive(rs, n, f, acc, a), b) == Receive(rs, n, f, acc, a + b)
  {
    Known(f, rs[n]);
    var i := FindField(rs[n], f.id);
    if i >= 0 { assert acc.slots[i].vs + a + b == acc.slots[i].vs + (a + b); }
  }

  lemma MergePacked(ws: Env, rs: Env, n: string, f: Field, vs: seq<Value>, acc: Message, t: seq<Byte>, v: View)
    requires Meets(ws, rs, n, f, acc, v) && PackedForm(f)
    requires forall i :: 0 <= i < |vs| ==> HasType(ws, f.ty, vs[i]) && Sendable(ws, f.ty, vs[i])
    requires |EncodeValues(ws, f.ty, [], vs)| < MAXLENGTH
    requires v.rest == Tag(f, 2) + Delimited(EncodeValues(ws, f.ty, [], vs)) + t
    ensures Resolvable(rs)
    ensures
      MergeAll(rs, n, v, acc) == MergeAll(rs, n, v.(rest := t), Receive(rs, n, f, acc, ProjectAll(ws, rs, f.ty, vs)))
  {
    hide MergeAll, Tag, EncodeValue, Project, Sendable, HasType, Delimited, ReadField, EncodeValues,
      Receive, Unpack, ProjectAll, ParseInt32;
    CompatibleResolves(ws, rs);
    var w := v.(rest := Delimited(EncodeValues(ws, f.ty, [], vs)) + t);
    assert v.rest == Tag(f, 2) + w.rest;
    TagRead(f, 2, w.rest, v);
    PackedRead(ws, rs, n, f, vs, acc, t, w);
    ProjectAllPlain(ws, rs, f.ty, vs);
    LoopNext(rs, n, f.id * 8 + 2, v, w, acc);
  }

  lemma PackedRead(ws: Env, rs: Env, n: string, f: Field, vs: seq<Value>, acc: Message, t: seq<Byte>, w: View)
    requires Meets(ws, rs, n, f, acc, w) && PackedForm(f)
    requires forall i :: 0 <= i < |vs| ==> HasType(ws, f.ty, vs[i]) && Sendable(ws, f.ty, vs[i])
    requires |EncodeValues(ws, f.ty, [], vs)| < MAXLENGTH
    requires w.rest == Delimited(EncodeValues(ws, f.ty, [], vs)) + t
    ensures ReadField(rs, rs[n], f.id * 8 + 2, acc, w) == Next(Receive(rs, n, f, acc, vs), w.(rest := t))
  {
    hide Sendable, HasType, Delimited, ReadField, EncodeValues, FindField, Put, Unpack, Compatible;
    Known(f, rs[n]);
    var p := EncodeValues(ws, f.ty, [], vs);
    PayloadDelivered(ws, rs, n, f, p, acc, t, w);
    UnpackInverts(ws, f.ty.num, vs, ArrayView(p, false), |p|);
  }

  lemma {:induction false} ProjectAllPlain(ws: Env, rs: Env, ty: Type, vs: seq<Value>)
    requires Compatible(ws, rs) && !ty.Msg? && forall i :: 0 <= i < |vs| ==> HasType(ws, ty, vs[i])
    ensures ProjectAll(ws, rs, ty, vs) == vs
    decreases |vs|
  {
    if vs != [] { ProjectAllPlain(ws, rs, ty, vs[1..]); }
  }

  /** A fresh message is written as no bytes at all. */
  lemma {:induction false} EmptyEncodesNothing(env: Env, fs: seq<Field>)
    requires WellFormedFields(env, fs)
    ensures WellTyped(env, fs, EmptySlots(fs)) && EncodeSlots(env, fs, EmptySlots(fs)) == []
    decreases |fs|
  {
    EmptyHasNothing(env, fs);
    if fs != [] {
      EmptyEncodesNothing(env, fs[1..]);
      assert EmptySlots(fs)[1..] == EmptySlots(fs[1..]);
    }
  }

  // ---------- zeros instead of a payload that is cut off ----------

  function Zeros(k: nat): (z: seq<Byte>)
    ensures |z| == k
  {
    seq(k, i => 0)
  }

  lemma ZeroEncoded(num: NumType)
    requires num.WireType() == 0
    ensures num.Holds(num.Zero()) && Survives(num, num.Zero()) && Integers.Encode(num, num.Zero()) == [0]
  {
  }

  lemma ZeroRead(env: Env, n: string, m: Message, v: View, t: seq<Byte>)
    requires Resolvable(env) && n in env && Shaped(env[n], m) && v.rest == [0] + t
    ensures ReadField(env, env[n], 0, m, v) == Next(ZeroField(env[n], m), v.(rest := t))
  {
    hide Parse, Convert, Integers.Encode, Put, FindField, ParseVar, Survives;
    var i := FindField(env[n], 0);
    if i >= 0 && env[n][i].ty.Number? && env[n][i].ty.WireType() == 0 {
      var num := env[n][i].ty.num;
      ZeroEncoded(num);
      ParseInverts(num, num.Zero(), t, v);
    } else {
      assert Var128(0) == [0];
      ParseVarInverts(0, t, v);
    }
  }

  /** Parsing an array of zeros is what stands in for a sub-message that is cut off. */
  lemma {:induction false} ZerosMerged(env: Env, n: string, m: Message, k: nat)
    requires Resolvable(env) && n in env && Shaped(env[n], m)
    ensures MergeAll(env, n, ArrayView(Zeros(2 * k), false), m) == Done(ZeroFields(env[n], m, k), ArrayView([], false))
    decreases k
  {
    hide ReadField, ParseInt32, ZeroField, MergeAll;
    var v := ArrayView(Zeros(2 * k), false);
    if k == 0 {
      LoopEnd(env, n, m);
      assert v.rest == [];
    } else {
      var t := Zeros(2 * (k - 1));
      var w := ArrayView([0] + t, false);
      assert v.rest == [0] + w.rest && Var128(0) == [0];
      Int32Read(0, w.rest, v);
      ZeroRead(env, n, m, w, t);
      LoopNext(env, n, 0, v, w, m);
      ZerosMerged(env, n, ZeroField(env[n], m), k - 1);
    }
  }

  /** A byte array that ends before an announced payload does: numbers and strings raise an exception, bytes
    * refuse the message as it is so far, and a sub-message is made of zeros. */
  lemma {:induction false} CutOff(env: Env, fs: seq<Field>, i: nat, len: nat, p: seq<Byte>, m: Message)
    requires Shaped(fs, m) && i < |fs| && FindField(fs, fs[i].id) == i && 1 <= fs[i].id <= MAXID
    requires forall k :: 0 <= k < |fs| && fs[k].ty.Msg? ==> fs[k].ty.name in env
    requires |p| < len < MAXLENGTH
    ensures
      var v, left := ArrayView(Var128(len) + p, false), ArrayView(p, false);
      var step := ReadField(env, fs, fs[i].id * 8 + 2, m, v);
      && (fs[i].ty.Number? || fs[i].ty.Str? ==> step == Stop(Raised))
      && (fs[i].ty.Blob? ==> step == Stop(Refused(m)))
      && (fs[i].ty.Msg? ==>
            var sub := env[fs[i].ty.name];
            step == Next(Put(fs, m, i, [Sub(ZeroFields(sub, Empty(sub), 2048))]), left))
  {
    hide Put, FindField, ParseInt32, ZeroFields, Var128;
    WireAndId(fs[i], 2);
    Int32Read(len, p, ArrayView(Var128(len) + p, false));
  }

  /** So the loop of `mergeProperties` on such a field and the one on the zeros agree. */
  lemma CutOffSubMessage(env: Env, n: string, i: int, m: Message, w: View)
    requires Resolvable(env) && n in env && Shaped(env[n], m) && 0 <= i < |env[n]| && env[n][i].ty.Msg?
    ensures
      var sub := env[n][i].ty.name;
      var o := MergeAll(env, sub, ArrayView(Zeros(4096), false), Empty(env[sub]));
      && o.Done?
      && TakePayload(env[n], i, None, m, env, w) == Next(Put(env[n], m, i, [Sub(o.m)]), w)
  {
    hide MergeAll, ZeroFields;
    var sub := env[n][i].ty.name;
    ZerosMerged(env, sub, Empty(env[sub]), 2048);
  }

  // ---------- whole messages ----------

  /** A stream that idles after its last byte makes the loop read one field more: tag 0, which is an
    * unknown varint field, and changes nothing. */
  lemma PhantomField(env: Env, n: string, m: Message)
    requires WellFormed(env) && n in env && Shaped(env[n], m)
    ensures Resolvable(env)
    ensures MergeAll(env, n, Base64View([], true), m) == Done(m, Base64View([], false))
  {
    var none := Base64View([], false);
    assert Collect(Base64View([], true), 10) == Groups([0], none, false);
    assert Collect(none, 10) == Groups([0], none, false);
    assert Sum128([0]) == 0 + 128 * Sum128([]);
    assert ParseInt32(Base64View([], true)) == (Some(Num(0)), none);
    assert ReadField(env, env[n], 0, m, none) == Next(m, none);
    assert MergeAll(env, n, none, m) == Done(m, none);
  }

  lemma StreamEnds(env: Env, n: string, v: View, m: Message)
    requires WellFormed(env) && n in env && Shaped(env[n], m) && v.rest == [] && (v.ArrayView? ==> !v.overrun)
    ensures Resolvable(env)
    ensures MergeAll(env, n, v, m) == Done(m, if v.ArrayView? then v else Base64View([], false))
  {
    if v.Base64View? && v.phantom { PhantomField(env, n, m); }
  }

  /** The encoding of a message, read under compatible types into a message that already has contents. */
  lemma MergeMessage(ws: Env, rs: Env, n: string, m: Message, acc: Message, t: seq<Byte>, v: View)
    requires Compatible(ws, rs) && n in ws && Shaped(rs[n], acc)
    requires WellTyped(ws, ws[n], m.slots) && SlotsSendable(ws, ws[n], m.slots)
    requires v.rest == EncodeMessage(ws, n, m) + t && (v.ArrayView? ==> !v.overrun)
    ensures Resolvable(rs)
    ensures MergeAll(rs, n, v, acc)
            == MergeAll(rs, n, v.(rest := t), Overlay(ws, rs, n, ws[n], m.slots, acc))
  {
    MergeSlots(ws, rs, n, ws[n], m.slots, acc, t, v);
  }

  /** Two encodings one after the other: the second message is laid over the first. */
  lemma MergeTwo(ws: Env, rs: Env, n: string, m1: Message, m2: Message, v: View)
    requires Compatible(ws, rs) && n in ws
    requires WellTyped(ws, ws[n], m1.slots) && SlotsSendable(ws, ws[n], m1.slots)
    requires WellTyped(ws, ws[n], m2.slots) && SlotsSendable(ws, ws[n], m2.slots)
    requires v.rest == EncodeMessage(ws, n, m1) + EncodeMessage(ws, n, m2) && (v.ArrayView? ==> !v.overrun)
    ensures Resolvable(rs)
    ensures
      var first := Overlay(ws, rs, n, ws[n], m1.slots, Empty(rs[n]));
      var o := MergeAll(rs, n, v, Empty(rs[n]));
      o.Done? && o.m == Overlay(ws, rs, n, ws[n], m2.slots, first)
  {
    hide MergeAll, Overlay, EncodeSlots;
    var first := Overlay(ws, rs, n, ws[n], m1.slots, Empty(rs[n]));
    var t := EncodeMessage(ws, n, m2);
    MergeMessage(ws, rs, n, m1, Empty(rs[n]), t, v);
    assert t == t + [];
    MergeMessage(ws, rs, n, m2, first, [], v.(rest := t));
    StreamEnds(rs, n, v.(rest := []), Overlay(ws, rs, n, ws[n], m2.slots, first));
  }

  // ---------- what an overlay is, slot by slot ----------

  /** The reader's slot i after the overlay: untouched unless the writer has a field of the same id and
    * something in it; a singular value is replaced by the last one present, a repeated field extended. */
  ghost function SlotAfter(ws: Env, rs: Env, n: string, fs: seq<Field>, ss: seq<Slot>, before: Slot, id: nat): Slot
    requires Compatible(ws, rs) && WellTyped(ws, fs, ss)
  {
    var j := FindField(fs, id);
    assert j >= 0 ==> SlotTyped(ws, fs[j], ss[j]);
    if j < 0 || !HasField(ws, fs[j], ss[j]) then before
    else if ss[j].One? then One(Project(ws, rs, fs[j].ty, ss[j].v))
    else Many((if before.Many? then before.vs else []) + ProjectAll(ws, rs, fs[j].ty, ss[j].vs))
  }

  lemma FindUnique(fs: seq<Field>, j: nat)
    requires j < |fs| && forall k, l :: 0 <= k < l < |fs| ==> fs[k].id != fs[l].id
    ensures FindField(fs, fs[j].id) == j
  {
  }

  lemma FindTail(fs: seq<Field>, id: nat)
    requires fs != [] && forall k, l :: 0 <= k < l < |fs| ==> fs[k].id != fs[l].id
    ensures
      var j := FindField(fs[1..], id);
      FindField(fs, id) == if fs[0].id == id then 0 else if j < 0 then -1 else j + 1
  {
    var j := FindField(fs, id);
    assert j > 0 ==> fs[1..][j - 1].id == id;
    if fs[0].id == id {
      FindUnique(fs, 0);
    } else if FindField(fs[1..], id) >= 0 {
      FindUnique(fs, FindField(fs[1..], id) + 1);
    }
  }

  lemma {:induction false} OverlayAt(ws: Env, rs: Env, n: string, fs: seq<Field>, ss: seq<Slot>, acc: Message, i: nat)
    requires Compatible(ws, rs) && n in rs && Shaped(rs[n], acc) && i < |rs[n]|
    requires WellTyped(ws, fs, ss) && WellFormedFields(ws, fs) && FieldsAgree(fs, rs[n])
    ensures Overlay(ws, rs, n, fs, ss, acc).slots[i] == SlotAfter(ws, rs, n, fs, ss, acc.slots[i], rs[n][i].id)
    decreases |ss|
  {
    hide OverlaySlot, Compatible;
    if ss != [] {
      assert FieldsAgree([fs[0]], rs[n]) && FieldsAgree(fs[1..], rs[n]);
      var next := OverlaySlot(ws, rs, n, fs[0], ss[0], acc);
      OverlayAt(ws, rs, n, fs[1..], ss[1..], next, i);
      FindTail(fs, rs[n][i].id);
      OverlaySlotAt(ws, rs, n, fs[0], ss[0], acc, i);
    }
  }

  lemma PutAt(fs: seq<Field>, m: Message, i: int, vs: seq<Value>, k: nat)
    requires 0 <= i < |fs| && Shaped(fs, m) && k < |fs|
    requires !fs[i].repeated ==> |vs| == 1
    ensures fs[i].repeated ==> m.slots[i].Many?
    ensures Put(fs, m, i, vs).slots[k] ==
            if k != i then m.slots[k] else if fs[i].repeated then Many(m.slots[i].vs + vs) else One(vs[0])
  {
  }

  lemma PresentIsSet(env: Env, f: Field, s: Slot)
    ensures HasField(env, f, s) ==> s.One? || s.Many?
  {
  }

  lemma OverlaySlotAt(ws: Env, rs: Env, n: string, f: Field, s: Slot, acc: Message, i: nat)
    requires Compatible(ws, rs) && n in rs && Shaped(rs[n], acc) && i < |rs[n]|
    requires SlotTyped(ws, f, s) && FieldsAgree([f], rs[n])
    ensures
      var before, now := acc.slots[i], OverlaySlot(ws, rs, n, f, s, acc).slots[i];
      if rs[n][i].id != f.id || !HasField(ws, f, s) then now == before
      else if s.One? then now == One(Project(ws, rs, f.ty, s.v))
      else now == Many((if before.Many? then before.vs else []) + ProjectAll(ws, rs, f.ty, s.vs))
  {
    hide HasField, Project, HasType, ProjectAll, FindField, Put;
    Known(f, rs[n]);
    if rs[n][i].id == f.id { FindUnique(rs[n], i); }
    PresentIsSet(ws, f, s);
    var k := FindField(rs[n], f.id);
    if k >= 0 && HasField(ws, f, s) {
      PutAt(rs[n], acc, k, if s.One? then [Project(ws, rs, f.ty, s.v)] else ProjectAll(ws, rs, f.ty, s.vs), i);
    }
  }

  // ---------- the writer's own types ----------

  /** What survives a round trip: a singular sub-message that is present but not initialised is dropped. */
  ghost function Normal(env: Env, ty: Type, v: Value): Value
    requires HasType(env, ty, v)
    decreases v, 0
  {
    if ty.Msg? then Sub(Message(NormalSlots(env, env[ty.name], v.m.slots))) else v
  }

  ghost function NormalSlot(env: Env, f: Field, s: Slot): Slot
    requires SlotTyped(env, f, s)
    decreases s, 0
  {
    match s
    case Unset => Unset
    case One(v) => if HasField(env, f, s) then One(Normal(env, f.ty, v)) else Unset
    case Many(vs) => Many(seq(|vs|, k requires 0 <= k < |vs| => Normal(env, f.ty, vs[k])))
  }

  ghost function NormalSlots(env: Env, fs: seq<Field>, ss: seq<Slot>): (r: seq<Slot>)
    requires WellTyped(env, fs, ss)
    ensures |r| == |ss|
    decreases ss, 0
  {
    seq(|ss|, k requires 0 <= k < |ss| => NormalSlot(env, fs[k], ss[k]))
  }

  /** Every singular sub-message that is present is initialised, at every depth. */
  ghost predicate IsNormal(env: Env, ty: Type, v: Value)
    requires HasType(env, ty, v)
    decreases v, 0
  {
    ty.Msg? ==> AllNormal(env, env[ty.name], v.m.slots)
  }

  ghost predicate SlotIsNormal(env: Env, f: Field, s: Slot)
    requires SlotTyped(env, f, s)
    decreases s, 0
  {
    match s
    case Unset => true
    case One(v) => HasField(env, f, s) && IsNormal(env, f.ty, v)
    case Many(vs) => forall k :: 0 <= k < |vs| ==> IsNormal(env, f.ty, vs[k])
  }

  ghost predicate AllNormal(env: Env, fs: seq<Field>, ss: seq<Slot>)
    requires WellTyped(env, fs, ss)
    decreases ss, 0
  {
    forall k :: 0 <= k < |ss| ==> SlotIsNormal(env, fs[k], ss[k])
  }

  lemma NormalIffSlots(env: Env, fs: seq<Field>, ss: seq<Slot>)
    requires WellTyped(env, fs, ss)
    ensures NormalSlots(env, fs, ss) == ss <==> AllNormal(env, fs, ss)
    decreases ss
  {
    forall k | 0 <= k < |ss|
      ensures NormalSlot(env, fs[k], ss[k]) == ss[k] <==> SlotIsNormal(env, fs[k], ss[k])
    {
      NormalIffSlot(env, fs[k], ss[k]);
    }
    var r := NormalSlots(env, fs, ss);
    if r == ss {
      forall k | 0 <= k < |ss| ensures SlotIsNormal(env, fs[k], ss[k]) { assert r[k] == ss[k]; }
    }
  }

  lemma NormalIffSlot(env: Env, f: Field, s: Slot)
    requires SlotTyped(env, f, s)
    ensures NormalSlot(env, f, s) == s <==> SlotIsNormal(env, f, s)
    decreases s
  {
    match s {
      case Unset =>
      case One(v) => NormalIff(env, f.ty, v);
      case Many(vs) =>
        var r := NormalSlot(env, f, s).vs;
        forall k | 0 <= k < |vs|
          ensures r[k] == vs[k] <==> IsNormal(env, f.ty, vs[k])
        {
          NormalIff(env, f.ty, vs[k]);
        }
        assert r == vs <==> forall k :: 0 <= k < |vs| ==> r[k] == vs[k];
    }
  }

  lemma NormalIff(env: Env, ty: Type, v: Value)
    requires HasType(env, ty, v)
    ensures Normal(env, ty, v) == v <==> IsNormal(env, ty, v)
    decreases v
  {
    if ty.Msg? { NormalIffSlots(env, env[ty.name], v.m.slots); }
  }

  // ---------- encodings one can look up ----------

  lemma KnownVarints()
    ensures Var128(1) == [1] && Var128(3) == [3] && Var128(5) == [5] && Var128(6) == [6] && Var128(7) == [7]
    ensures Var128(8) == [0x08] && Var128(18) == [0x12] && Var128(26) == [0x1A] && Var128(34) == [0x22]
    ensures Var128(150) == [0x96, 0x01] && Var128(270) == [0x8E, 0x02] && Var128(86942) == [0x9E, 0xA7, 0x05]
  {
    assert Var128(2) == [2] && Var128(679) == [0xA7, 0x05];
  }

  /** The field 1 of 150 and the field 2 of "testing", as the description of the format gives them. */
  lemma KnownFields(env: Env)
    ensures EncodeSlot(env, Field(1, Number(Int32), false, false), One(Single(Num(150)))) == [0x08, 0x96, 0x01]
    ensures EncodeSlot(env, Field(2, Blob, false, false), One(Octets([0x74, 0x65, 0x73, 0x74, 0x69, 0x6E, 0x67])))
      == [0x12, 0x07, 0x74, 0x65, 0x73, 0x74, 0x69, 0x6E, 0x67]
  {
    KnownVarints();
    hide Var128;
  }

  /** The packed field 4 of three numbers, and the same numbers in a field 1 that is not packed. */
  lemma KnownRepeated(env: Env)
    ensures
      var numbers := [Single(Num(3)), Single(Num(270)), Single(Num(86942))];
      && EncodeSlot(env, Field(4, Number(Int32), true, true), Many(numbers))
         == [0x22, 0x06, 0x03, 0x8E, 0x02, 0x9E, 0xA7, 0x05]
      && EncodeSlot(env, Field(1, Number(Int32), true, false), Many(numbers))
         == [0x08, 0x03, 0x08, 0x8E, 0x02, 0x08, 0x9E, 0xA7, 0x05]
  {
    KnownVarints();
    hide Var128;
    var a, b, c := Single(Num(3)), Single(Num(270)), Single(Num(86942));
    var ty := Number(Int32);
    assert [a, b, c][1..] == [b, c] && [b, c][1..] == [c] && [c][1..] == [];
    forall tag: seq<Byte>
      ensures EncodeValues(env, ty, tag, [a, b, c])
        == tag + [0x03] + (tag + [0x8E, 0x02] + (tag + [0x9E, 0xA7, 0x05]))
    {
      assert EncodeValues(env, ty, tag, []) == [];
      assert EncodeValues(env, ty, tag, [c]) == tag + [0x9E, 0xA7, 0x05];
      assert EncodeValues(env, ty, tag, [b, c]) == tag + [0x8E, 0x02] + (tag + [0x9E, 0xA7, 0x05]);
    }
  }

  /** The field 3 that holds a message with 150 in its field 1. */
  lemma KnownNested(env: Env, n: string)
    requires n in env && env[n] == [Field(1, Number(Int32), false, false)]
    ensures
      var m := Message([One(Single(Num(150)))]);
      EncodeSlot(env, Field(3, Msg(n), false, false), One(Sub(m))) == [0x1A, 0x03, 0x08, 0x96, 0x01]
  {
    KnownVarints();
    KnownFields(env);
    var fs, ss := env[n], [One(Single(Num(150)))];
    assert fs[1..] == [] && ss[1..] == [];
    assert EncodeSlots(env, fs, ss) == [0x08, 0x96, 0x01] + EncodeSlots(env, [], []);
    FilledIsWritten(env, Field(3, Msg(n), false, false), Message(ss), 0);
  }

  /** Tags of the wire types no field of this library has are passed over with nothing behind them. */
  lemma UnknownWireType(env: Env, fs: seq<Field>, tag: int, m: Message, v: View)
    requires Shaped(fs, m) && forall i :: 0 <= i < |fs| && fs[i].ty.Msg? ==> fs[i].ty.name in env
    requires WireOf(tag) in {3, 4, 6, 7}
    ensures ReadField(env, fs, tag, m, v) == Next(m, v)
  {
  }

  /** A number whose wire type is not that of its field is passed over as a whole, as are those of fields the
    * reader does not know: up to ten groups, eight bytes, or four. */
  lemma {:induction false} OtherWireType(env: Env, fs: seq<Field>, f: Field, wire: int, u: nat, m: Message,
                                         t: seq<Byte>, v: View)
    requires Shaped(fs, m) && forall i :: 0 <= i < |fs| && fs[i].ty.Msg? ==> fs[i].ty.name in env
    requires 1 <= f.id <= MAXID && wire in {0, 1, 5}
    requires forall i :: 0 <= i < |fs| && fs[i].id == f.id ==> fs[i].ty.WireType() != wire
    requires wire == 0 ==> u < W64 && v.rest == Var128(u) + t
    requires wire == 1 ==> u < W64 && v.rest == Base256(u, 8) + t
    requires wire == 5 ==> u < W && v.rest == Base256(u, 4) + t
    ensures ReadField(env, fs, f.id * 8 + wire, m, v) == Next(m, v.(rest := t))
  {
    hide Put, FindField, Parse, Convert, ParseVar, CollectBytes, Base256, Var128;
    WireAndId(f, wire);
    if wire == 0 { ParseVarInverts(u, t, v); }
    else if wire == 1 { CollectBase256(u, 8, t, v); }
    else { CollectBase256(u, 4, t, v); }
  }

  // ---------- messages that are surely normal ----------

  /** No singular field holds a sub-message, at any depth. */
  ghost predicate FlatValue(env: Env, ty: Type, v: Value)
    requires HasType(env, ty, v)
    decreases v, 0
  {
    ty.Msg? ==> Flat(env, env[ty.name], v.m.slots)
  }

  ghost predicate FlatSlot(env: Env, f: Field, s: Slot)
    requires SlotTyped(env, f, s)
    decreases s, 0
  {
    match s
    case Unset => true
    case One(v) => !f.ty.Msg?
    case Many(vs) => forall k :: 0 <= k < |vs| ==> FlatValue(env, f.ty, vs[k])
  }

  ghost predicate Flat(env: Env, fs: seq<Field>, ss: seq<Slot>)
    requires WellTyped(env, fs, ss)
    decreases ss, 0
  {
    forall k :: 0 <= k < |ss| ==> FlatSlot(env, fs[k], ss[k])
  }

  lemma FlatIsNormal(env: Env, fs: seq<Field>, ss: seq<Slot>)
    requires WellTyped(env, fs, ss) && Flat(env, fs, ss)
    ensures AllNormal(env, fs, ss)
    decreases ss, 1
  {
    forall k | 0 <= k < |ss| ensures SlotIsNormal(env, fs[k], ss[k]) {
      assert SlotTyped(env, fs[k], ss[k]) && FlatSlot(env, fs[k], ss[k]);
      if ss[k].Many? {
        var vs := ss[k].vs;
        forall i | 0 <= i < |vs| ensures IsNormal(env, fs[k].ty, vs[i]) {
          assert HasType(env, fs[k].ty, vs[i]) && FlatValue(env, fs[k].ty, vs[i]);
          if fs[k].ty.Msg? { FlatIsNormal(env, env[fs[k].ty.name], vs[i].m.slots); }
        }
      }
    }
  }

  /** A set number, string or bytes field, or a repeated field that is not empty. */
  predicate Filled(f: Field, s: Slot) {
    match s
    case Unset => false
    case One(_) => !f.ty.Msg?
    case Many(vs) => vs != []
  }

  /** A singular sub-message with such a field is written, tag and all. */
  lemma FilledIsWritten(env: Env, f: Field, sub: Message, j: nat)
    requires f.ty.Msg? && f.ty.name in env && WellTyped(env, env[f.ty.name], sub.slots)
    requires SlotTyped(env, f, One(Sub(sub)))
    requires j < |sub.slots| && Filled(env[f.ty.name][j], sub.slots[j])
    ensures EncodeSlot(env, f, One(Sub(sub))) == Tag(f, 2) + Delimited(EncodeSlots(env, env[f.ty.name], sub.slots))
  {
    FilledIsThere(env, env[f.ty.name], sub.slots, j);
    var v := Sub(sub);
    assert Payload(env, f.ty, v) == EncodeSlots(env, env[f.ty.name], sub.slots);
    assert EncodeValue(env, f.ty, v) == Delimited(Payload(env, f.ty, v));
    assert HasField(env, f, One(v));
  }

  /** And it is part of the normal form, with the field in it. */
  lemma FilledSurvives(env: Env, f: Field, sub: Message, j: nat)
    requires f.ty.Msg? && f.ty.name in env && WellTyped(env, env[f.ty.name], sub.slots)
    requires SlotTyped(env, f, One(Sub(sub)))
    requires j < |sub.slots| && Filled(env[f.ty.name][j], sub.slots[j])
    ensures
      var normal, sent := NormalSlots(env, env[f.ty.name], sub.slots), sub.slots[j];
      && NormalSlot(env, f, One(Sub(sub))) == One(Sub(Message(normal)))
      && (sent.One? ==> normal[j] == sent)
      && (sent.Many? ==> normal[j].Many? && |normal[j].vs| == |sent.vs|)
  {
    var fs := env[f.ty.name];
    FilledIsThere(env, fs, sub.slots, j);
    assert Normal(env, f.ty, Sub(sub)) == Sub(Message(NormalSlots(env, fs, sub.slots)));
    assert SlotTyped(env, fs[j], sub.slots[j]);
    assert NormalSlots(env, fs, sub.slots)[j] == NormalSlot(env, fs[j], sub.slots[j]);
  }

  lemma FilledIsThere(env: Env, fs: seq<Field>, ss: seq<Slot>, j: nat)
    requires WellTyped(env, fs, ss) && j < |ss| && Filled(fs[j], ss[j])
    ensures HasField(env, fs[j], ss[j]) && Initialised(env, fs, ss)
  {
    assert HasField(env, fs[j], ss[j]);
  }

  lemma SelfCompatible(env: Env)
    requires WellFormed(env)
    ensures Compatible(env, env)
  {
    forall n | n in env ensures FieldsAgree(env[n], env[n]) {
      forall i, j | 0 <= i < |env[n]| && 0 <= j < |env[n]| && env[n][i].id == env[n][j].id ensures i == j {
        FindUnique(env[n], i);
        FindUnique(env[n], j);
      }
    }
  }

  lemma ProjectSame(env: Env, ty: Type, v: Value)
    requires WellFormed(env) && HasType(env, ty, v)
    ensures Compatible(env, env) && Project(env, env, ty, v) == Normal(env, ty, v)
    decreases v, 1
  {
    SelfCompatible(env);
    if ty.Msg? { OverlaySame(env, ty.name, v.m.slots); }
  }

  lemma OverlaySame(env: Env, n: string, ss: seq<Slot>)
    requires WellFormed(env) && n in env && WellTyped(env, env[n], ss)
    ensures Compatible(env, env)
    ensures Overlay(env, env, n, env[n], ss, Empty(env[n])) == Message(NormalSlots(env, env[n], ss))
    decreases ss, 0
  {
    SelfCompatible(env);
    var fs, r := env[n], Overlay(env, env, n, env[n], ss, Empty(env[n]));
    forall i | 0 <= i < |fs|
      ensures r.slots[i] == NormalSlot(env, fs[i], ss[i])
    {
      OverlayAt(env, env, n, fs, ss, Empty(fs), i);
      FindUnique(fs, i);
      SlotSame(env, fs[i], ss[i]);
    }
    assert r.slots == NormalSlots(env, fs, ss);
  }

  lemma SlotSame(env: Env, f: Field, s: Slot)
    requires WellFormed(env) && SlotTyped(env, f, s)
    ensures Compatible(env, env)
    ensures s.One? ==> Project(env, env, f.ty, s.v) == Normal(env, f.ty, s.v)
    ensures s.Many? ==> Many(ProjectAll(env, env, f.ty, s.vs)) == NormalSlot(env, f, s)
    decreases s, 0
  {
    SelfCompatible(env);
    if s.One? {
      ProjectSame(env, f.ty, s.v);
    } else if s.Many? {
      ProjectAllSame(env, f, s.vs);
    }
  }

  lemma {:induction false} ProjectAllSame(env: Env, f: Field, vs: seq<Value>)
    requires WellFormed(env) && Compatible(env, env)
    requires forall i :: 0 <= i < |vs| ==> HasType(env, f.ty, vs[i])
    ensures ProjectAll(env, env, f.ty, vs) == seq(|vs|, k requires 0 <= k < |vs| => Normal(env, f.ty, vs[k]))
    decreases vs, 0
  {
    if vs != [] {
      ProjectSame(env, f.ty, vs[0]);
      ProjectAllSame(env, f, vs[1..]);
    }
  }

  /** For all message types and every message of them that can be sent: parsing its encoding, from a byte
    * array or from base64 with or without the phantom field, gives the message back up to uninitialised
    * sub-messages, so exactly the normal ones unchanged. */
  lemma ParseSerialized(env: Env, n: string, m: Message, v: View)
    requires WellFormed(env) && n in env
    requires WellTyped(env, env[n], m.slots) && SlotsSendable(env, env[n], m.slots)
    requires v.rest == EncodeMessage(env, n, m) && (v.ArrayView? ==> !v.overrun)
    ensures Resolvable(env)
    ensures
      var o := MergeAll(env, n, v, Empty(env[n]));
      && o.Done? && !o.after.Valid()
      && o.m == Message(NormalSlots(env, env[n], m.slots))
      && (o.m == m <==> AllNormal(env, env[n], m.slots))
  {
    hide MergeAll, Overlay, EncodeSlots;
    SelfCompatible(env);
    assert v.rest == EncodeMessage(env, n, m) + [];
    MergeMessage(env, env, n, m, Empty(env[n]), [], v);
    OverlaySame(env, n, m.slots);
    StreamEnds(env, n, v.(rest := []), Message(NormalSlots(env, env[n], m.slots)));
    NormalIffSlots(env, env[n], m.slots);
  }
}
