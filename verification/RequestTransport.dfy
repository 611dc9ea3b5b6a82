/** The request transport object: its methods update its fields as the transport's state machine says. */
module RequestTransport {
  import opened Views
  import opened Transport

  class LongPolling {
    const config: Config
    var requestIds: nat
    var metaConnectRequest: Option<Request>
    var requests: seq<Request>
    var envelopes: seq<Pending>
    // Held by the browser: exchanges with their callbacks, and timers.
    var flights: seq<Flight>
    var cascades: seq<Pending>
    // What has happened.
    var wire: seq<Wired>
    var merged: seq<nat>
    var called: seq<Callback>

    ghost function Model(): State
      reads this
    {
      State(requestIds, metaConnectRequest, requests, envelopes, flights, cascades, wire, merged, called)
    }

    /** The books agree, and what expired was called back. */
    ghost predicate Valid()
      reads this
    {
      Inv(config, Model()) && Notified(Model())
    }

    constructor (config: Config)
      ensures Valid() && Model() == INITIAL && this.config == config
    {
      this.config := config;
      requestIds, metaConnectRequest, requests, envelopes := 0, None, [], [];
      flights, cascades, wire, merged, called := [], [], [], [], [];
    }

    /** The loop takes envelopes to the same place off the head of the queue. */
    method CoalesceEnvelopes(envelope: Envelope) returns (result: Envelope)
      modifies this
      ensures
        var (e, rest, ids) := Coalesce(old(envelopes), envelope);
        && result == e
        && Model() == old(Model()).(envelopes := rest, merged := old(merged) + ids)
      ensures SamePlace(old(envelopes), envelope, envelopes)
      ensures result.eid == envelope.eid && result.url == envelope.url && result.sync == envelope.sync
    {
      hide SamePlace, Coalesce;
      CoalesceTakes(envelopes, envelope);
      result := envelope;
      ghost var all := Coalesce(envelopes, envelope);
      ghost var taken: seq<nat> := [];
      assert [] + all.2 == all.2;
      while |envelopes| > 0
        invariant merged == old(merged) + taken
        invariant Model() == old(Model()).(envelopes := envelopes, merged := merged)
        invariant
          var (e, rest, ids) := Coalesce(envelopes, result);
          all == (e, rest, taken + ids)
        decreases |envelopes|
      {
        CoalesceNext(envelopes, result);
        var newEnvelope := envelopes[0].envelope;
        if newEnvelope.url == result.url && newEnvelope.sync == result.sync {
          ghost var ids := Coalesce(envelopes[1..], result.(messages := result.messages + newEnvelope.messages)).2;
          assert taken + ([newEnvelope.eid] + ids) == taken + [newEnvelope.eid] + ids;
          envelopes := envelopes[1..];
          result := result.(messages := result.messages + newEnvelope.messages);
          merged := merged + [newEnvelope.eid];
          taken := taken + [newEnvelope.eid];
        } else {
          break;
        }
      }
      CoalesceNext(envelopes, result);
      assert taken + [] == taken;
    }

    method TransportSend(envelope: Envelope, request: Request)
      modifies this
      ensures Model() == Transmit(old(Model()), envelope, request)
    {
      flights := flights + [Flight(Pending(envelope, request), false)];
      if !request.metaConnect {
        wire := wire + Addressed(envelope);
      }
    }

    method QueueSend(envelope: Envelope)
      modifies this
      ensures Model() == Transport.QueueSend(config, old(Model()), envelope)
    {
      requestIds := requestIds + 1;
      var request := Request(requestIds, false);
      if |requests| < config.slots {
        requests := requests + [request];
        TransportSend(envelope, request);
      } else {
        envelopes := envelopes + [Pending(envelope, request)];
      }
    }

    /** `inArray` and `splice`. */
    method RemoveRequest(request: Request)
      modifies this
      ensures Model() == old(Model()).(requests := Without(old(requests), request))
    {
      var index := 0;
      while index < |requests| && requests[index] != request
        invariant 0 <= index <= |requests|
        invariant Without(requests, request) == requests[..index] + Without(requests[index..], request)
      {
        assert requests[index..][1..] == requests[index + 1..];
        index := index + 1;
      }
      if index < |requests| {
        assert requests[index..][1..] == requests[index + 1..];
        requests := requests[..index] + requests[index + 1..];
      }
    }

    method CompleteRequest(request: Request, success: bool)
      modifies this
      ensures Model() == Transport.Complete(config, old(Model()), request, success)
    {
      RemoveRequest(request);
      if |envelopes| > 0 {
        var next := envelopes[0];
        envelopes := envelopes[1..];
        if success {
          var nextEnvelope := next.envelope;
          if config.autoBatch {
            nextEnvelope := CoalesceEnvelopes(nextEnvelope);
          }
          QueueSend(nextEnvelope);
        } else {
          cascades := cascades + [next];
        }
      }
    }

    method Complete(request: Request, success: bool) returns (threw: bool)
      modifies this
      ensures Result(Model(), threw) == CompleteAny(config, old(Model()), request, success)
    {
      hide Transport.Complete;
      threw := false;
      if request.metaConnect {
        if metaConnectRequest.Some? && metaConnectRequest.value.id != request.id {
          return true;
        }
        metaConnectRequest := None;
      } else {
        CompleteRequest(request, success);
      }
    }

    /** Throws exactly if a long poll is sent while one is outstanding; otherwise the envelope is taken on. */
    method Send(envelope: Envelope, metaConnect: bool) returns (threw: bool)
      requires Valid()
      modifies this
      ensures Valid() && Result(Model(), threw) == Apply(config, old(Model()), Event.Send(envelope, metaConnect))
      ensures threw <==> metaConnect && old(metaConnectRequest).Some?
      ensures Owned(Model()) == Owned(old(Model())) + if threw then multiset{} else multiset{envelope.eid}
    {
      hide Inv, Notified, Owned, Transport.QueueSend;
      KeepsValid(Event.Send(envelope, metaConnect));
      threw := false;
      if !metaConnect {
        QueueSend(envelope);
        return;
      }
      if metaConnectRequest.Some? {
        return true;
      }
      requestIds := requestIds + 1;
      var request := Request(requestIds, true);
      TransportSend(envelope, request);
      metaConnectRequest := Some(request);
    }

    /** `transportSuccess`: of an expired request it changes nothing; otherwise fewer envelopes are unresolved,
      * none is lost, and this one's callback is the newest. */
    method TransportSuccess(k: nat) returns (threw: bool)
      requires Valid() && k < |flights|
      modifies this
      ensures Valid() && Result(Model(), threw) == Apply(config, old(Model()), Success(k)) && !threw
      ensures Owned(Model()) == Owned(old(Model()))
      ensures
        if old(flights[k].expired) then Model() == old(Model()).(flights := flights)
        else
          && Unresolved(Model()) < Unresolved(old(Model()))
          && called == old(called) + [Callback(old(flights[k].p.envelope.eid), true)]
    {
      threw := EndExchange(k, true);
    }

    /** `transportFailure`, likewise. */
    method TransportFailure(k: nat) returns (threw: bool)
      requires Valid() && k < |flights|
      modifies this
      ensures Valid() && Result(Model(), threw) == Apply(config, old(Model()), Failure(k)) && !threw
      ensures Owned(Model()) == Owned(old(Model()))
      ensures
        if old(flights[k].expired) then Model() == old(Model()).(flights := flights)
        else
          && Unresolved(Model()) < Unresolved(old(Model()))
          && called == old(called) + [Callback(old(flights[k].p.envelope.eid), false)]
    {
      threw := EndExchange(k, false);
    }

    method EndExchange(k: nat, success: bool) returns (threw: bool)
      requires Valid() && k < |flights|
      modifies this
      ensures
        var ev := if success then Success(k) else Failure(k);
        && Valid() && Result(Model(), threw) == Apply(config, old(Model()), ev) && !threw
      ensures Owned(Model()) == Owned(old(Model()))
      ensures
        if old(flights[k].expired) then Model() == old(Model()).(flights := flights)
        else
          && Unresolved(Model()) < Unresolved(old(Model()))
          && called == old(called) + [Callback(old(flights[k].p.envelope.eid), success)]
    {
      hide Inv, Notified, Owned, Unresolved, CompleteAny;
      var ev := if success then Success(k) else Failure(k);
      KeepsValid(ev);
      var flight := flights[k];
      flights := RemoveAt(flights, k);
      CompleteAnyCalls(config, Model(), flight.p.request, success);
      threw := false;
      if !flight.expired {
        threw := SettleExchange(flight.p, success);
      }
    }

    /** The timeout: the request is flagged before it is completed and its envelope failed. */
    method Expires(k: nat) returns (threw: bool)
      requires Valid() && k < |flights| && !flights[k].expired && !flights[k].p.envelope.sync
      modifies this
      ensures Valid() && Result(Model(), threw) == Apply(config, old(Model()), Expire(k)) && !threw
      ensures Owned(Model()) == Owned(old(Model())) && Unresolved(Model()) < Unresolved(old(Model()))
      ensures called == old(called) + [Callback(old(flights[k].p.envelope.eid), false)]
    {
      hide Inv, Notified, Owned, Unresolved, CompleteAny;
      KeepsValid(Expire(k));
      var flight := flights[k];
      flights := flights[k := flight.(expired := true)];
      CompleteAnyCalls(config, Model(), flight.p.request, false);
      threw := SettleExchange(flight.p, false);
    }

    /** The k-th failure timer goes off. */
    method Cascades(k: nat) returns (threw: bool)
      requires Valid() && k < |cascades|
      modifies this
      ensures Valid() && Result(Model(), threw) == Apply(config, old(Model()), Cascade(k)) && !threw
      ensures Owned(Model()) == Owned(old(Model())) && Unresolved(Model()) < Unresolved(old(Model()))
      ensures called == old(called) + [Callback(old(cascades[k].envelope.eid), false)]
    {
      hide Inv, Notified, Owned, Unresolved, CompleteAny;
      KeepsValid(Cascade(k));
      var p := cascades[k];
      cascades := RemoveAt(cascades, k);
      CompleteAnyCalls(config, Model(), p.request, false);
      threw := SettleExchange(p, false);
    }

    /** Completion comes before the callback, which an exception in it prevents. */
    method SettleExchange(p: Pending, success: bool) returns (threw: bool)
      modifies this
      ensures
        var r := CompleteAny(config, old(Model()), p.request, success);
        Result(Model(), threw) == if r.threw then r else Result(Call(r.s, p.envelope, success), false)
    {
      threw := Complete(p.request, success);
      if !threw {
        called := called + [Callback(p.envelope.eid, success)];
      }
    }

    lemma KeepsValid(ev: Event)
      requires Valid() && Possible(Model(), ev)
      ensures
        var s, r := Model(), Apply(config, Model(), ev);
        && Inv(config, r.s) && Notified(r.s)
        && Owned(r.s) == Owned(s) + Brought(config, s, ev)
        && (r.threw <==> ev.Send? && ev.metaConnect && s.metaConnectRequest.Some?)
      ensures
        var s := Model();
        var late := (ev.Success? || ev.Failure?) && s.flights[ev.k].expired;
        !ev.Send? && !late ==> Unresolved(Apply(config, s, ev).s) < Unresolved(s)
    {
      hide Apply, Inv;
      var s := Model();
      ApplyKeeps(config, s, ev);
      NotifiedKeeps(config, s, ev);
      ApplyConserves(config, s, ev);
      if !ev.Send? { EachCompletionResolves(config, s, ev); }
    }
  }
}
