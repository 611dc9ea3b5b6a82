/** The WebSocket transport's books: envelopes by the ids still unanswered, and a timeout for each id. */
module WebSocket {
  import opened Views

  /** The ids of an envelope's messages joined with commas name it; here the list of ids itself. */
  type Key = seq<nat>

  datatype Envelope = Envelope(eid: nat, ids: Key, metaConnect: bool)

  type Envelopes = map<Key, Envelope>

  datatype Channel = Connect | Disconnect | OtherMeta | Application

  /** A message of the server: the reply to one of ours if its channel is a meta channel or it has no data. */
  datatype Incoming = Incoming(id: Option<nat>, channel: Channel, hasData: bool)

  predicate Answers(message: Incoming) {
    message.id.Some? && (message.channel != Application || !message.hasData)
  }

  /** A reply to `/meta/disconnect` comes while no `/meta/connect` is held, before or because of this frame. */
  ghost predicate AsksToClose(messages: seq<Incoming>, held: bool) {
    exists i :: 0 <= i < |messages| && messages[i].channel == Disconnect
      && (!held || exists j :: 0 <= j < i && messages[j].channel == Connect)
  }

  /** Frames of one and two replies. */
  lemma WhatCloses(d: Incoming, c: Incoming, held: bool)
    requires d.channel == Disconnect && c.channel == Connect
    ensures AsksToClose([d], held) <==> !held
    ensures AsksToClose([c, d], held) && (AsksToClose([d, c], held) <==> !held)
    ensures !AsksToClose([c], held) && !AsksToClose([], held)
  {
    assert [c, d][0] == c && [c, d][1] == d && [d, c][0] == d;
  }

  ghost function Answered(messages: seq<Incoming>): (r: set<nat>)
    ensures forall id :: id in r <==>
      exists i :: 0 <= i < |messages| && Answers(messages[i]) && messages[i].id.value == id
  {
    set i | 0 <= i < |messages| && Answers(messages[i]) :: messages[i].id.value
  }

  /** A reply to a meta message answers it with data and without, a reply to a published one only without: with
    * data it is a message of somebody else, whatever its id. */
  lemma AnsweredByKind(messages: seq<Incoming>)
    ensures forall m :: m in messages && m.id.Some? && m.channel != Application ==> m.id.value in Answered(messages)
    ensures forall m :: m in messages && m.id.Some? && m.channel == Application && !m.hasData ==>
      m.id.value in Answered(messages)
    ensures forall id :: (forall m :: m in messages && m.id == Some(id) ==> m.channel == Application && m.hasData) ==>
      id !in Answered(messages)
  {
  }

  lemma AnsweredGrows(messages: seq<Incoming>, i: nat)
    requires i < |messages|
    ensures Answered(messages[..i + 1])
      == Answered(messages[..i]) + (if Answers(messages[i]) then {messages[i].id.value} else {})
  {
    var now, before := messages[..i + 1], messages[..i];
    forall id
      ensures id in Answered(now) <==> id in Answered(before) || (Answers(messages[i]) && id == messages[i].id.value)
    {
      if id in Answered(before) {
        var j :| 0 <= j < i && Answers(before[j]) && before[j].id.value == id;
        assert now[j] == before[j];
      }
      if id in Answered(now) {
        var j :| 0 <= j < i + 1 && Answers(now[j]) && now[j].id.value == id;
        if j < i { assert before[j] == now[j]; }
      }
      assert now[i] == messages[i];
    }
  }

  lemma AsksGrows(messages: seq<Incoming>, i: nat, held: bool)
    requires i < |messages|
    ensures AsksToClose(messages[..i + 1], held) <==>
      || AsksToClose(messages[..i], held)
      || (messages[i].channel == Disconnect && (!held || exists j :: 0 <= j < i && messages[j].channel == Connect))
  {
    var now, before := messages[..i + 1], messages[..i];
    assert now == before + [messages[i]];
    assert forall j :: 0 <= j < i ==> now[j] == before[j] == messages[j];
    if AsksToClose(before, held) {
      var k :| 0 <= k < i && before[k].channel == Disconnect
        && (!held || exists j :: 0 <= j < k && before[j].channel == Connect);
      assert now[k].channel == Disconnect;
    }
  }

  // ---------- keys ----------

  predicate NoDuplicates(k: Key) {
    forall i, j :: 0 <= i < j < |k| ==> k[i] != k[j]
  }

  /** The keys in use are lists without duplicates, and no id is in two of them. */
  ghost predicate Disjoint(envelopes: Envelopes) {
    && (forall k :: k in envelopes ==> NoDuplicates(k))
    && (forall k, l, id :: k in envelopes && l in envelopes && id in k && id in l ==> k == l)
  }

  ghost predicate Covers(envelopes: Envelopes, ids: set<nat>) {
    && (forall k, id :: k in envelopes && id in k ==> id in ids)
    && (forall id :: id in ids ==> exists k :: k in envelopes && id in k)
  }

  lemma NothingLeft()
    ensures Disjoint(map[]) && Covers(map[], {})
  {
  }

  /** What is left of a list of ids once some of them are answered. */
  function Left(k: Key, answered: set<nat>): (r: Key)
    ensures forall id :: id in r <==> id in k && id !in answered
    ensures NoDuplicates(k) ==> NoDuplicates(r)
  {
    if k == [] then []
    else
      var rest := Left(k[1..], answered);
      assert k == [k[0]] + k[1..];
      if k[0] in answered then rest else [k[0]] + rest
  }

  /** An envelope goes when its last id is answered; one without ids, under the empty key, waits for none. */
  predicate Stays(k: Key, answered: set<nat>) {
    k == [] || Left(k, answered) != []
  }

  /** The envelopes after some ids were answered: each under what is left of its key, gone if nothing is. */
  ghost predicate Pruned(before: Envelopes, answered: set<nat>, after: Envelopes) {
    && (forall k :: k in before && Stays(k, answered) ==>
          Left(k, answered) in after && after[Left(k, answered)] == before[k])
    && (forall l :: l in after ==> exists k :: k in before && Left(k, answered) == l && Stays(k, answered))
  }

  lemma LeftOfNone(k: Key)
    ensures Left(k, {}) == k
  {
    if k != [] { LeftOfNone(k[1..]); }
  }

  lemma {:induction false} LeftTwice(k: Key, a: set<nat>, b: set<nat>)
    ensures Left(Left(k, a), b) == Left(k, a + b)
  {
    if k != [] {
      LeftTwice(k[1..], a, b);
      var rest := Left(k[1..], a);
      if k[0] !in a { assert ([k[0]] + rest)[1..] == rest; }
    }
  }

  lemma {:induction false} LeftUntouched(k: Key, a: set<nat>)
    requires forall id :: id in k ==> id !in a
    ensures Left(k, a) == k
  {
    if k != [] {
      assert k[0] in k;
      forall id | id in k[1..] ensures id !in a { assert id in k; }
      LeftUntouched(k[1..], a);
    }
  }

  /** One id out of a list without duplicates: what `splice` at its index leaves. */
  lemma {:induction false} LeftIsSplice(k: Key, index: nat)
    requires index < |k| && NoDuplicates(k)
    ensures Left(k, {k[index]}) == k[..index] + k[index + 1..]
  {
    if index == 0 {
      LeftUntouched(k[1..], {k[0]});
    } else {
      assert k[1..][index - 1] == k[index];
      LeftIsSplice(k[1..], index - 1);
      assert k[..index] + k[index + 1..] == [k[0]] + (k[1..][..index - 1] + k[1..][index..]);
    }
  }

  lemma PrunedNone(e: Envelopes)
    requires Disjoint(e)
    ensures Pruned(e, {}, e)
  {
    forall k | k in e ensures Left(k, {}) == k { LeftOfNone(k); }
  }

  /** Answering first some ids and then others is answering all of them. */
  lemma PrunedTwice(e: Envelopes, a: set<nat>, f: Envelopes, b: set<nat>, g: Envelopes)
    requires Pruned(e, a, f) && Pruned(f, b, g)
    ensures Pruned(e, a + b, g)
  {
    forall k | k in e && Stays(k, a + b)
      ensures Left(k, a + b) in g && g[Left(k, a + b)] == e[k]
    {
      LeftTwice(k, a, b);
      assert Left(k, a) == [] ==> Left(Left(k, a), b) == [];
    }
    forall l | l in g
      ensures exists k :: k in e && Left(k, a + b) == l && Stays(k, a + b)
    {
      var m :| m in f && Left(m, b) == l && Stays(m, b);
      var k :| k in e && Left(k, a) == m && Stays(k, a);
      LeftTwice(k, a, b);
    }
  }

  lemma NoneAnswered(e: Envelopes, id: nat)
    requires forall k :: k in e ==> id !in k
    ensures Pruned(e, {id}, e)
  {
    forall k | k in e ensures Left(k, {id}) == k { LeftUntouched(k, {id}); }
  }

  lemma OneAnswered(e: Envelopes, key: Key, id: nat, ids: Key, f: Envelopes)
    requires Disjoint(e) && key in e && id in key && ids == Left(key, {id})
    requires f == if ids == [] then e - {key} else (e - {key})[ids := e[key]]
    ensures Pruned(e, {id}, f)
  {
    if ids != [] { assert ids[0] in Left(key, {id}) && ids[0] in key; }
    forall k | k in e && k != key ensures Left(k, {id}) == k && (k == [] || k != ids) {
      LeftUntouched(k, {id});
    }
    hide Left, NoDuplicates;
    forall k | k in e && Stays(k, {id}) ensures Left(k, {id}) in f && f[Left(k, {id})] == e[k] {
      assert k == key ==> ids != [];
    }
    forall l | l in f ensures exists k :: k in e && Left(k, {id}) == l && Stays(k, {id}) {
      var k := if ids != [] && l == ids then key else l;
      assert k in e && Left(k, {id}) == l && Stays(k, {id});
    }
  }

  /** Pruning keeps keys apart and covers what is not answered. */
  lemma PrunedKeeps(e: Envelopes, answered: set<nat>, f: Envelopes, ids: set<nat>)
    requires Disjoint(e) && Covers(e, ids) && Pruned(e, answered, f)
    ensures Disjoint(f) && Covers(f, ids - answered)
  {
    forall k, l, id | k in f && l in f && id in k && id in l
      ensures k == l
    {
      var k0 :| k0 in e && Left(k0, answered) == k && Stays(k0, answered);
      var l0 :| l0 in e && Left(l0, answered) == l && Stays(l0, answered);
      assert id in k0 && id in l0;
    }
    forall k | k in f ensures NoDuplicates(k) {
      var k0 :| k0 in e && Left(k0, answered) == k && Stays(k0, answered);
    }
    forall id | id in ids - answered
      ensures exists k :: k in f && id in k
    {
      var k :| k in e && id in k;
      assert id in Left(k, answered);
    }
    forall k, id | k in f && id in k ensures id in ids - answered {
      var k0 :| k0 in e && Left(k0, answered) == k && Stays(k0, answered);
      assert id in k0;
    }
  }

  /** An envelope is still there, and under the ids it still waits for, exactly if one of its ids is not
    * answered; what is under the empty key stays as it is. */
  lemma LeavesWithLastId(e: Envelopes, answered: set<nat>, f: Envelopes, k: Key)
    requires Disjoint(e) && Pruned(e, answered, f) && k in e
    ensures (exists l, id :: l in f && id in l && id in k) <==> exists id :: id in k && id !in answered
    ensures forall l, id :: l in f && id in l && id in k ==> l == Left(k, answered) && f[l] == e[k]
    ensures [] in f <==> [] in e
  {
    if id :| id in k && id !in answered {
      assert id in Left(k, answered);
    }
    forall l, id | l in f && id in l && id in k
      ensures l == Left(k, answered) && f[l] == e[k] && id !in answered
    {
      var m :| m in e && Left(m, answered) == l && Stays(m, answered);
      assert id in m;
    }
  }

  class Transport {
    var envelopes: Envelopes
    var timeouts: set<nat>
    var isOpen: bool
    /** A `/meta/connect` was sent and not answered. */
    var connected: bool
    /** Envelopes whose onFailure was called, in order. */
    var failed: seq<Envelope>
    /** Ids sent and not answered. */
    ghost var unanswered: set<nat>

    ghost predicate Valid()
      reads this
    {
      && Disjoint(envelopes) && Covers(envelopes, unanswered)
      && timeouts == (if isOpen then unanswered else {})
    }

    constructor ()
      ensures Valid() && envelopes == map[] && !isOpen && unanswered == {} && failed == []
    {
      envelopes, timeouts, isOpen, connected, failed, unanswered := map[], {}, false, false, [], {};
    }

    /** Messages get an id each before they are sent, and ids are never used again. */
    method Send(envelope: Envelope)
      requires Valid()
      requires NoDuplicates(envelope.ids)
      requires forall id :: id in envelope.ids ==> id !in unanswered
      modifies this`envelopes, this`timeouts, this`connected, this`unanswered
      ensures Valid()
      ensures connected == (old(connected) || (isOpen && envelope.metaConnect))
      ensures envelopes == old(envelopes)[envelope.ids := envelope]
      ensures unanswered == old(unanswered) + set id | id in envelope.ids
    {
      envelopes := envelopes[envelope.ids := envelope];
      unanswered := unanswered + set id | id in envelope.ids;
      assert Covers(envelopes, unanswered) by {
        forall id | id in unanswered
          ensures exists k :: k in envelopes && id in k
        {
          if id in old(unanswered) {
            var k :| k in old(envelopes) && id in k;
            assert k in envelopes;
          } else {
            assert envelope.ids in envelopes && id in envelope.ids;
          }
        }
      }
      if isOpen {
        WebSocketSend(envelope.ids, envelope.metaConnect);
      }
    }

    method WebSocketSend(ids: Key, metaConnect: bool)
      modifies this`timeouts, this`connected
      ensures timeouts == old(timeouts) + set id | id in ids
      ensures connected == (old(connected) || metaConnect)
    {
      if metaConnect { connected := true; }
      for i := 0 to |ids|
        invariant timeouts == old(timeouts) + set id | id in ids[..i]
        invariant connected == (old(connected) || metaConnect)
      {
        timeouts := timeouts + {ids[i]};
        assert ids[..i + 1] == ids[..i] + [ids[i]];
      }
      assert ids[..|ids|] == ids;
    }

    /** Everything stored while connecting is sent. */
    method OnOpen()
      requires Valid() && !isOpen
      modifies this`isOpen, this`timeouts, this`connected
      ensures Valid() && isOpen
      ensures connected <==> old(connected) || exists k :: k in envelopes && envelopes[k].metaConnect
    {
      isOpen := true;
      var keys := envelopes.Keys;
      while keys != {}
        invariant isOpen && keys <= envelopes.Keys
        invariant connected <==> old(connected) || exists k :: k in envelopes && k !in keys && envelopes[k].metaConnect
        invariant forall id :: id in timeouts <==> exists k :: k in envelopes.Keys - keys && id in k
        decreases |keys|
      {
        var key :| key in keys;
        ghost var before, was := keys, timeouts;
        WebSocketSend(key, envelopes[key].metaConnect);
        keys := keys - {key};
        forall id
          ensures id in timeouts <==> exists k :: k in envelopes.Keys - keys && id in k
        {
          if id in key { assert key in envelopes.Keys - keys; }
          if id in was {
            var k :| k in envelopes.Keys - before && id in k;
            assert k in envelopes.Keys - keys;
          }
        }
      }
    }

    method IndexOf(id: nat, ids: Key) returns (index: nat)
      requires id in ids
      ensures index < |ids| && ids[index] == id
    {
      index := 0;
      while ids[index] != id
        invariant index < |ids| && id in ids[index..]
        decreases |ids| - index
      {
        index := index + 1;
      }
    }

    /** A frame of the server may answer several ids; ids it repeats or that are not ours change nothing. */
    method OnMessage(messages: seq<Incoming>) returns (close: bool)
      requires Valid() && isOpen
      modifies this`envelopes, this`timeouts, this`connected, this`unanswered
      ensures Valid()
      ensures Pruned(old(envelopes), Answered(messages), envelopes)
      ensures unanswered == old(unanswered) - Answered(messages)
      ensures forall m :: m in messages && m.id.Some? && (m.channel != Application || !m.hasData) ==>
        m.id.value !in unanswered
      ensures forall id :: id in old(unanswered) ==>
        (forall m :: m in messages && m.id == Some(id) ==> m.channel == Application && m.hasData) ==> id in unanswered
      ensures connected <==> old(connected) && forall i :: 0 <= i < |messages| ==> messages[i].channel != Connect
      ensures close <==> AsksToClose(messages, old(connected))
    {
      hide Pruned, Left;
      var messageIds: seq<nat> := [];
      close := false;
      for i := 0 to |messages|
        invariant forall id :: id in messageIds <==> id in Answered(messages[..i])
        invariant timeouts == old(timeouts) - Answered(messages[..i])
        invariant envelopes == old(envelopes) && unanswered == old(unanswered)
        invariant connected <==> old(connected) && forall j :: 0 <= j < i ==> messages[j].channel != Connect
        invariant close <==> AsksToClose(messages[..i], old(connected))
      {
        hide Disjoint, Covers, Answered, AsksToClose;
        var message := messages[i];
        AnsweredGrows(messages, i);
        AsksGrows(messages, i, old(connected));
        if Answers(message) {
          messageIds := messageIds + [message.id.value];
          timeouts := timeouts - {message.id.value};
        }
        if message.channel == Connect { connected := false; }
        if message.channel == Disconnect && !connected { close := true; }
      }
      assert messages[..|messages|] == messages;
      RemoveAnswered(messageIds, Answered(messages));
      AnsweredByKind(messages);
    }

    method RemoveAnswered(messageIds: seq<nat>, ghost answered: set<nat>)
      requires Disjoint(envelopes) && Covers(envelopes, unanswered)
      requires forall id :: id in messageIds <==> id in answered
      modifies this`envelopes, this`unanswered
      ensures Disjoint(envelopes) && Covers(envelopes, unanswered)
      ensures Pruned(old(envelopes), answered, envelopes) && unanswered == old(unanswered) - answered
    {
      hide Pruned, Disjoint, Covers, Left;
      ghost var done: set<nat> := {};
      PrunedNone(envelopes);
      for j := 0 to |messageIds|
        invariant Disjoint(envelopes) && Covers(envelopes, unanswered)
        invariant forall id :: id in done <==> id in messageIds[..j]
        invariant unanswered == old(unanswered) - done
        invariant Pruned(old(envelopes), done, envelopes)
      {
        ghost var before := envelopes;
        var id := messageIds[j];
        AnswerOne(id);
        PrunedTwice(old(envelopes), done, before, {id}, envelopes);
        PrunedKeeps(before, {id}, envelopes, unanswered);
        assert messageIds[..j + 1] == messageIds[..j] + [id];
        done := done + {id};
        unanswered := unanswered - {id};
      }
      assert messageIds[..|messageIds|] == messageIds;
      assert done == answered;
    }

    /** The inner loop of onMessage for one id: the envelope that waits for it, if any, moves to its
      * remaining ids or leaves. */
    method AnswerOne(id: nat)
      requires Disjoint(envelopes)
      modifies this`envelopes
      ensures Pruned(old(envelopes), {id}, envelopes)
    {
      if key :| key in envelopes && id in key {
        var index := IndexOf(id, key);
        var ids := key[..index] + key[index + 1..];
        LeftIsSplice(key, index);
        var envelope := envelopes[key];
        envelopes := envelopes - {key};
        if |ids| > 0 {
          envelopes := envelopes[ids := envelope];
        }
        OneAnswered(old(envelopes), key, id, ids, envelopes);
      } else {
        NoneAnswered(envelopes, id);
      }
    }

    /** Each remaining envelope is failed once, in the order of the keys, and nothing is waited for any more. */
    method OnClose() returns (ghost order: seq<Key>)
      requires Valid()
      modifies this
      ensures Valid() && envelopes == map[] && timeouts == {} && !isOpen && unanswered == {}
      ensures |order| == |old(envelopes)| && forall k :: k in order <==> k in old(envelopes)
      ensures |failed| == |old(failed)| + |order| && old(failed) <= failed
      ensures forall i :: 0 <= i < |order| ==> failed[|old(failed)| + i] == old(envelopes)[order[i]]
      ensures connected <==> old(connected) && forall k :: k in old(envelopes) ==> !old(envelopes)[k].metaConnect
    {
      hide Disjoint, Covers;
      timeouts := {};
      order := [];
      var keys := envelopes.Keys;
      while keys != {}
        invariant keys <= envelopes.Keys && envelopes == old(envelopes) && timeouts == {}
        invariant |order| == |envelopes.Keys| - |keys|
        invariant forall k :: k in order <==> k in envelopes && k !in keys
        invariant |failed| == |old(failed)| + |order| && old(failed) <= failed
        invariant forall i :: 0 <= i < |order| ==> failed[|old(failed)| + i] == envelopes[order[i]]
        invariant connected <==> old(connected) && forall k :: k in envelopes && k !in keys ==>
            !envelopes[k].metaConnect
        decreases |keys|
      {
        var key :| key in keys;
        if envelopes[key].metaConnect { connected := false; }
        failed := failed + [envelopes[key]];
        order := order + [key];
        keys := keys - {key};
      }
      envelopes := map[];
      isOpen := false;
      unanswered := {};
      NothingLeft();
    }
  }
}
