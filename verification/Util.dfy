/** What a page sends and receives: a message as base64 text beside the name of its type. */
module Util {
  import opened Views
  import opened Int64
  import opened Streams
  import B64 = Base64
  import opened Schema
  import opened Merge
  import opened RoundTrip
  import opened MessageCodec

  /** `{"type": ..., "s": ...}` */
  datatype Wire = Wire(typeName: string, s: string)

  /** `null` for a class string that is not letters and dots, the message, an exception (an unknown class or
    * one raised while parsing), or what the model of the parser does not follow. */
  datatype Received = Null | Received(m: Message) | Exception | Lost

  predicate LettersAndDots(s: string) {
    s != "" && forall i :: 0 <= i < |s| ==> 'a' <= s[i] <= 'z' || 'A' <= s[i] <= 'Z' || s[i] == '.'
  }

  /** The class strings are those made of the letters of the alphabet and dots. */
  lemma ClassStrings(s: string)
    ensures LettersAndDots(s) <==> s != "" && forall i :: 0 <= i < |s| ==> s[i] in B64.UPPER + B64.LOWER + "."
  {
    hide B64.UPPER, B64.LOWER;
    forall i | 0 <= i < |s|
      ensures s[i] in B64.UPPER <==> 'A' <= s[i] <= 'Z'
      ensures s[i] in B64.LOWER <==> 'a' <= s[i] <= 'z'
    {
      Letter(s[i]);
    }
  }

  lemma Letter(c: char)
    ensures c in B64.UPPER <==> 'A' <= c <= 'Z'
    ensures c in B64.LOWER <==> 'a' <= c <= 'z'
  {
    hide B64.UPPER, B64.LOWER;
    B64.Upper(0);
    B64.Lower(0);
    if 'A' <= c <= 'Z' { B64.Upper(c as int - 'A' as int); }
    if 'a' <= c <= 'z' { B64.Lower(c as int - 'a' as int); }
    forall i | 0 <= i < 26 ensures 'A' <= B64.UPPER[i] <= 'Z' && 'a' <= B64.LOWER[i] <= 'z' {
      B64.Upper(i);
      B64.Lower(i);
    }
  }

  ghost predicate MessageSendable(env: Env, n: string, m: Message) {
    && WellFormed(env) && n in env
    && WellTyped(env, env[n], m.slots) && SlotsSendable(env, env[n], m.slots)
  }

  ghost function WireOf(env: Env, n: string, m: Message): Wire
    requires MessageSendable(env, n, m)
  {
    Wire(n, B64.Text(EncodeMessage(env, n, m), false))
  }

  /** `ParseFromStream` fills the message and its result is not looked at. */
  ghost function ReceivedFrom(env: Env, w: Wire): Received
    requires Resolvable(env)
  {
    if !LettersAndDots(w.typeName) then Received.Null
    else if w.typeName !in env then Exception
    else if !B64.WellPadded(w.s) then Lost
    else
      match MergeAll(env, w.typeName, B64.Opened(w.s), Empty(env[w.typeName]))
      case Done(m, _) => Received(m)
      case Refused(m) => Received(m)
      case Raised => Exception
      case Garbled => Lost
  }

  method Serialize(env: Env, n: string, m: Message) returns (w: Wire)
    requires MessageSendable(env, n, m)
    ensures w == WireOf(env, n, m)
  {
    hide EncodeSlots, SlotsSendable, WellTyped, B64.Text, Base64Stream.Wrote;
    var stream := NewStream();
    SerializeSlots(env, env[n], m.slots, Stream.Text(stream), []);
    assert [] + EncodeMessage(env, n, m) == EncodeMessage(env, n, m);
    var s := stream.GetString(EncodeMessage(env, n, m));
    w := Wire(n, s);
  }

  /** A base64 stream without a string to start from. */
  method NewStream() returns (stream: Base64Stream)
    ensures fresh(stream) && stream.Wrote([]) && !stream.urlSafe
  {
    hide B64.Text, B64.Body;
    EmptyText();
    stream := new Base64Stream("");
  }

  lemma EmptyText()
    ensures B64.Text([], false) == "" && B64.WellPadded("")
  {
  }

  method Unserialize(env: Env, w: Wire, temp: Num64) returns (r: Received)
    requires Resolvable(env)
    modifies temp
    ensures r == ReceivedFrom(env, w)
  {
    hide MergeAll;
    if !LettersAndDots(w.typeName) {
      return Received.Null;
    }
    var stream := new Base64Stream(w.s);
    if w.typeName !in env {
      return Exception;
    }
    if !B64.WellPadded(w.s) {
      return Lost;
    }
    var verdict, m := MergeProperties(env, w.typeName, Stream.Text(stream), temp, Empty(env[w.typeName]));
    match verdict {
      case True => r := Received(m);
      case False => r := Received(m);
      case Thrown => r := Exception;
      case Unclear => r := Lost;
    }
  }

  /** An unknown class raises an exception, whatever the text; of a text without bytes the message is empty. */
  lemma ReceivedOtherwise(env: Env, w: Wire)
    requires Resolvable(env)
    ensures LettersAndDots(w.typeName) && w.typeName !in env ==> ReceivedFrom(env, w) == Exception
    ensures LettersAndDots(w.typeName) && w.typeName in env && w.s == "" ==>
      ReceivedFrom(env, w) == Received(Empty(env[w.typeName]))
  {
    EmptyText();
    B64.OpenText([], false);
    hide B64.Text, B64.Opened, B64.WellPadded, Resolvable, LettersAndDots;
    if w.typeName in env { NothingToMerge(env, w.typeName); }
    hide MergeAll;
  }

  lemma NothingToMerge(env: Env, n: string)
    requires Resolvable(env) && n in env
    ensures MergeAll(env, n, Base64View([], false), Empty(env[n])) == Done(Empty(env[n]), Base64View([], false))
  {
  }

  /** The law of the wire format: for all message types of the two sides that agree on shared field ids,
    * every message that can be sent arrives as what the reader's types can see of it, whatever its size
    * (the phantom field after a multiple of 57 bytes included); a type name with other characters than
    * letters and dots is refused instead. */
  lemma Delivered(ws: Env, rs: Env, n: string, m: Message)
    requires Compatible(ws, rs) && MessageSendable(ws, n, m)
    ensures Resolvable(rs)
    ensures
      ReceivedFrom(rs, WireOf(ws, n, m))
      == if LettersAndDots(n) then Received(Overlay(ws, rs, n, ws[n], m.slots, Empty(rs[n]))) else Received.Null
  {
    hide MergeAll, Overlay, EncodeSlots;
    var bs := EncodeMessage(ws, n, m);
    B64.OpenText(bs, false);
    CompatibleResolves(ws, rs);
    var phantom := |bs| > 0 && |bs| % 57 == 0;
    assert bs == bs + [];
    MergeMessage(ws, rs, n, m, Empty(rs[n]), [], Base64View(bs, phantom));
    StreamEnds(rs, n, Base64View([], phantom), Overlay(ws, rs, n, ws[n], m.slots, Empty(rs[n])));
  }

  /** Every message that can be sent and holds no singular sub-message at any depth arrives as itself. */
  lemma ArrivesWithoutSubMessages(env: Env, n: string, m: Message)
    requires MessageSendable(env, n, m) && LettersAndDots(n) && Flat(env, env[n], m.slots)
    ensures Resolvable(env) && ReceivedFrom(env, WireOf(env, n, m)) == Received(m)
  {
    hide ReceivedFrom, WireOf;
    FlatIsNormal(env, env[n], m.slots);
    ArrivesUnchanged(env, n, m);
  }

  /** A singular sub-message with a set number, string or bytes field, or with elements in a repeated field,
    * arrives, and that field in it: as it is, the repeated one with as many elements. */
  lemma FilledSubMessageArrives(env: Env, n: string, m: Message, i: nat, j: nat)
    requires MessageSendable(env, n, m) && LettersAndDots(n)
    requires i < |m.slots| && m.slots[i].One? && env[n][i].ty.Msg? && m.slots[i].v.Sub?
    requires
      var sub := m.slots[i].v.m;
      && env[n][i].ty.name in env && |env[env[n][i].ty.name]| == |sub.slots|
      && j < |sub.slots| && Filled(env[env[n][i].ty.name][j], sub.slots[j])
    ensures Resolvable(env)
    ensures
      var sent, r := m.slots[i].v.m.slots[j], ReceivedFrom(env, WireOf(env, n, m));
      && r.Received? && |r.m.slots| == |m.slots| && r.m.slots[i].One? && r.m.slots[i].v.Sub?
      && var arrived := r.m.slots[i].v.m.slots;
        && j < |arrived|
        && (sent.One? ==> arrived[j] == sent)
        && (sent.Many? ==> arrived[j].Many? && |arrived[j].vs| == |sent.vs|)
  {
    hide Overlay, ReceivedFrom, WireOf;
    SelfCompatible(env);
    Delivered(env, env, n, m);
    OverlaySame(env, n, m.slots);
    assert SlotTyped(env, env[n][i], m.slots[i]);
    assert HasType(env, env[n][i].ty, m.slots[i].v);
    FilledSurvives(env, env[n][i], m.slots[i].v.m, j);
    hide NormalSlot;
    assert NormalSlots(env, env[n], m.slots)[i] == NormalSlot(env, env[n][i], m.slots[i]);
  }

  /** Between two sides with the same types a message arrives unchanged exactly if its type name is one
    * the receiver accepts and it has no uninitialised sub-message in a singular field. */
  lemma ArrivesUnchanged(env: Env, n: string, m: Message)
    requires MessageSendable(env, n, m)
    ensures Resolvable(env)
    ensures
      ReceivedFrom(env, WireOf(env, n, m)) == Received(m)
      <==> LettersAndDots(n) && AllNormal(env, env[n], m.slots)
  {
    hide Overlay, AllNormal, NormalSlots, ReceivedFrom, WireOf;
    SelfCompatible(env);
    Delivered(env, env, n, m);
    OverlaySame(env, n, m.slots);
    NormalIffSlots(env, env[n], m.slots);
  }
}
