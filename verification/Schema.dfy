/** Message types, message values, and the bytes a value is written as. */
module Schema {
  import opened Views
  import opened Int64
  import opened Varint
  import opened Integers
  import opened Utf8

  datatype Type = Number(num: NumType) | Str | Blob | Msg(name: string) {
    function WireType(): int {
      if Number? then num.WireType() else 2
    }
  }

  datatype Field = Field(id: nat, ty: Type, repeated: bool, packed: bool)

  /** The message types by name; types may refer to each other and to themselves. */
  type Env = map<string, seq<Field>>

  datatype Value = Single(x: Scalar) | Chars(s: seq<Unit>) | Octets(bs: seq<Byte>) | Sub(m: Message)

  /** What a message holds for one field. */
  datatype Slot = Unset | One(v: Value) | Many(vs: seq<Value>)

  /** A message: one slot for each field of its type, in declaration order. */
  datatype Message = Message(slots: seq<Slot>)

  const MAXID := 0xFFF_FFFF

  ghost predicate WellFormedFields(env: Env, fs: seq<Field>) {
    && (forall i :: 0 <= i < |fs| ==> 1 <= fs[i].id <= MAXID && (fs[i].ty.Msg? ==> fs[i].ty.name in env))
    && (forall i, j :: 0 <= i < j < |fs| ==> fs[i].id != fs[j].id)
  }

  ghost predicate WellFormed(env: Env) {
    forall n :: n in env ==> WellFormedFields(env, env[n])
  }

  // ---------- typing ----------

  ghost predicate HasType(env: Env, ty: Type, v: Value)
    decreases v
  {
    match ty
    case Number(num) => v.Single? && num.Holds(v.x)
    case Str => v.Chars?
    case Blob => v.Octets?
    case Msg(n) => v.Sub? && n in env && WellTyped(env, env[n], v.m.slots)
  }

  ghost predicate SlotTyped(env: Env, f: Field, s: Slot)
    decreases s
  {
    match s
    case Unset => !f.repeated
    case One(v) => !f.repeated && HasType(env, f.ty, v)
    case Many(vs) => f.repeated && forall i :: 0 <= i < |vs| ==> HasType(env, f.ty, vs[i])
  }

  ghost predicate WellTyped(env: Env, fs: seq<Field>, ss: seq<Slot>)
    decreases ss
  {
    |fs| == |ss| && forall i :: 0 <= i < |ss| ==> SlotTyped(env, fs[i], ss[i])
  }

  /** `Clear`: repeated fields become empty arrays, the others are deleted. */
  function EmptySlots(fs: seq<Field>): (ss: seq<Slot>)
    ensures |ss| == |fs|
  {
    seq(|fs|, i requires 0 <= i < |fs| => if fs[i].repeated then Many([]) else Unset)
  }

  /** `HasField`: repeated fields when non-empty, sub-messages when initialised, others when set. */
  predicate HasField(env: Env, f: Field, s: Slot)
    decreases s
  {
    match s
    case Unset => false
    case Many(vs) => vs != []
    case One(v) => if f.ty.Msg? && v.Sub? && f.ty.name in env then Initialised(env, env[f.ty.name], v.m.slots) else true
  }

  /** `IsInitialized`: some field is there, or the type has none. */
  predicate Initialised(env: Env, fs: seq<Field>, ss: seq<Slot>)
    decreases ss
  {
    fs == [] || exists i :: 0 <= i < |fs| && i < |ss| && HasField(env, fs[i], ss[i])
  }

  /** A fresh message: no field is there, so it is initialised only if its type has no fields. */
  lemma EmptyHasNothing(env: Env, fs: seq<Field>)
    ensures WellTyped(env, fs, EmptySlots(fs))
    ensures forall i :: 0 <= i < |fs| ==> !HasField(env, fs[i], EmptySlots(fs)[i])
    ensures Initialised(env, fs, EmptySlots(fs)) <==> fs == []
  {
  }

  // ---------- encoding ----------

  ghost function Delimited(bs: seq<Byte>): seq<Byte> {
    Var128(|bs|) + bs
  }

  ghost function Tag(f: Field, wire: int): seq<Byte>
    requires wire >= 0
  {
    Var128(f.id * 8 + wire)
  }

  /** The payload of a length-delimited value. */
  ghost function Payload(env: Env, ty: Type, v: Value): seq<Byte>
    requires HasType(env, ty, v) && !ty.Number?
    decreases v, 0
  {
    match ty
    case Str => Utf8.Encode(v.s)
    case Blob => v.bs
    case Msg(n) => EncodeSlots(env, env[n], v.m.slots)
  }

  ghost function EncodeValue(env: Env, ty: Type, v: Value): seq<Byte>
    requires HasType(env, ty, v)
    decreases v, 1
  {
    if ty.Number? then Integers.Encode(ty.num, v.x) else Delimited(Payload(env, ty, v))
  }

  /** Values one after the other, each behind the given tag (the empty one inside a packed field). */
  ghost function EncodeValues(env: Env, ty: Type, tag: seq<Byte>, vs: seq<Value>): seq<Byte>
    requires forall i :: 0 <= i < |vs| ==> HasType(env, ty, vs[i])
    decreases vs, 0
  {
    if vs == [] then [] else tag + EncodeValue(env, ty, vs[0]) + EncodeValues(env, ty, tag, vs[1..])
  }

  ghost predicate PackedForm(f: Field) {
    f.repeated && f.packed && f.ty.Number?
  }

  ghost function EncodeSlot(env: Env, f: Field, s: Slot): seq<Byte>
    requires SlotTyped(env, f, s)
    decreases s, 0
  {
    if !HasField(env, f, s) then []
    else if s.One? then Tag(f, f.ty.WireType()) + EncodeValue(env, f.ty, s.v)
    else if PackedForm(f) then Tag(f, 2) + Delimited(EncodeValues(env, f.ty, [], s.vs))
    else EncodeValues(env, f.ty, Tag(f, f.ty.WireType()), s.vs)
  }

  ghost function EncodeSlots(env: Env, fs: seq<Field>, ss: seq<Slot>): seq<Byte>
    requires WellTyped(env, fs, ss)
    decreases ss, 0
  {
    if ss == [] then []
    else EncodeSlot(env, fs[0], ss[0]) + EncodeSlots(env, fs[1..], ss[1..])
  }

  /** The bytes of a message of type n. */
  ghost function EncodeMessage(env: Env, n: string, m: Message): seq<Byte>
    requires n in env && WellTyped(env, env[n], m.slots)
  {
    EncodeSlots(env, env[n], m.slots)
  }

  // ---------- what can be sent ----------

  const MAXLENGTH := 0x8000_0000

  /** Every length fits a non-negative int32, and no fixed32/sfixed32 value lies in the half of its range
    * that the crossed parsers of those two types cannot give back. */
  ghost predicate Sendable(env: Env, ty: Type, v: Value)
    requires HasType(env, ty, v)
    decreases v
  {
    match ty
    case Number(num) => Survives(num, v.x)
    case Msg(n) => |Payload(env, ty, v)| < MAXLENGTH && SlotsSendable(env, env[n], v.m.slots)
    case _ => |Payload(env, ty, v)| < MAXLENGTH
  }

  ghost predicate SlotSendable(env: Env, f: Field, s: Slot)
    requires SlotTyped(env, f, s)
    decreases s
  {
    match s
    case Unset => true
    case One(v) => Sendable(env, f.ty, v)
    case Many(vs) =>
      && (forall i :: 0 <= i < |vs| ==> Sendable(env, f.ty, vs[i]))
      && (PackedForm(f) ==> |EncodeValues(env, f.ty, [], vs)| < MAXLENGTH)
  }

  ghost predicate SlotsSendable(env: Env, fs: seq<Field>, ss: seq<Slot>)
    requires WellTyped(env, fs, ss)
    decreases ss
  {
    forall i :: 0 <= i < |ss| ==> SlotSendable(env, fs[i], ss[i])
  }
}
