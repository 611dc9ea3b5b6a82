/** A session on its request transport: what the one sends the other carries, and answers come back through it.
  * Here it shows that no connect is sent while another is outstanding, so the transport never has to refuse. */
module Joint {
  import opened Views
  import S = Session
  import T = Transport

  datatype State = State(live: S.Live, t: T.State)

  datatype Result = Result(s: State, threw: bool)

  /** A step of the session other than an answer to a connect, and the envelope for what it sends; the end of a
    * long poll, which brings the session the one answer to its connect; a step of ordinary exchanges, of
    * failure timers, or of what has expired. */
  datatype Event =
    | Step(e: S.Event, env: T.Envelope)
    | Polled(ev: T.Event, e: S.Event, env: T.Envelope)
    | Ordinary(ev: T.Event)

  predicate Polling(t: T.State, k: nat) {
    k < |t.flights| && !t.flights[k].expired && t.flights[k].p.request.metaConnect
  }

  ghost predicate Possible(s: State, ev: Event) {
    match ev
    case Step(e, _) => S.Possible(s.live, e) && S.Answers(e, S.MetaConnect) == 0
    case Polled(x, e, _) =>
      && !x.Send? && !x.Cascade? && T.Possible(s.t, x) && Polling(s.t, x.k)
      && S.Answers(e, S.MetaConnect) == 1 && (x.Success? <==> e.Replied?)
    case Ordinary(x) => !x.Send? && T.Possible(s.t, x) && (x.Cascade? || !Polling(s.t, x.k))
  }

  /** `reset` and `abort` forget what is in flight, and the browser's exchanges go on. */
  function Reset(t: T.State): T.State {
    t.(requests := [], envelopes := [], metaConnectRequest := None)
  }

  /** A handshake after a disconnection, a connect that fails with the advice to handshake, and a disconnect
    * that fails do so. */
  function Resets(config: S.Config, s: S.State, e: S.Event): bool {
    match e
    case Fire => s.scheduledSend == S.ThenHandshake && s.IsDisconnected()
    case Failed(c) => c == S.MetaDisconnect || (c == S.MetaConnect && S.ActionOf(s) == S.Handshake)
    case Replied(r) =>
      || (r.channel == S.MetaDisconnect && !r.successful)
      || (r.channel == S.MetaConnect && !r.successful && S.ActionOf(S.UpdateAdvice(config, s, r.advice)) == S.Handshake)
    case _ => false
  }

  /** The session hands what it sends to the transport in one envelope. */
  function Carry(c: T.Config, t: T.State, s: S.State, s1: S.State, env: T.Envelope): T.Result {
    if S.Count(s1.sent, S.MetaConnect) > S.Count(s.sent, S.MetaConnect) then T.Apply(c, t, T.Send(env, true))
    else if |s1.sent| > |s.sent| then T.Apply(c, t, T.Send(env, false))
    else T.Result(t, false)
  }

  function Advance(config: S.Config, c: T.Config, s: State, e: S.Event, env: T.Envelope): Result {
    var live := S.Next(config, s.live, e);
    var r := Carry(c, if Resets(config, s.live.s, e) then Reset(s.t) else s.t, s.live.s, live.s, env);
    Result(State(live, r.s), r.threw)
  }

  /** An exception of the transport is one of the step. */
  function Apply(config: S.Config, c: T.Config, s: State, ev: Event): Result
    requires Possible(s, ev)
  {
    match ev
    case Step(e, env) => Advance(config, c, s, e, env)
    case Polled(x, e, env) =>
      var r := T.Apply(c, s.t, x);
      if r.threw then Result(s.(t := r.s), true) else Advance(config, c, s.(t := r.s), e, env)
    case Ordinary(x) =>
      var r := T.Apply(c, s.t, x);
      Result(s.(t := r.s), r.threw)
  }

  function Started(config: S.Config, c: T.Config, env: T.Envelope): State {
    State(S.Started(config), T.Apply(c, T.INITIAL, T.Send(env, false)).s)
  }

  ghost predicate Legal(config: S.Config, c: T.Config, env: T.Envelope, es: seq<Event>)
    decreases |es|, 0
  {
    es == [] ||
    (Legal(config, c, env, es[..|es| - 1]) && Possible(Follow(config, c, env, es[..|es| - 1]), es[|es| - 1]))
  }

  ghost function Follow(config: S.Config, c: T.Config, env: T.Envelope, es: seq<Event>): State
    requires Legal(config, c, env, es)
    decreases |es|, 1
  {
    if es == [] then Started(config, c, env)
    else Apply(config, c, Follow(config, c, env, es[..|es| - 1]), es[|es| - 1]).s
  }

  // ---------- the long poll and the connect ----------

  ghost function Polls(t: T.State): seq<T.Request> {
    T.Metas(T.Live(t.flights))
  }

  ghost predicate Plain(ps: seq<T.Pending>) {
    forall i :: 0 <= i < |ps| ==> !ps[i].request.metaConnect
  }

  /** A long poll is on the wire for each connect in flight, and the transport knows of no other. */
  ghost predicate Together(s: State) {
    && S.Orderly(s.live) && |Polls(s.t)| == s.live.connects
    && (s.t.metaConnectRequest.Some? ==> Polls(s.t) == [s.t.metaConnectRequest.value])
    && Plain(s.t.envelopes) && Plain(s.t.cascades)
  }

  /** What a step of the transport leaves alone unless it is about the long poll. */
  ghost predicate SamePolls(t: T.State, u: T.State) {
    && Polls(u) == Polls(t) && u.metaConnectRequest == t.metaConnectRequest
    && (Plain(t.envelopes) && Plain(t.cascades) ==> Plain(u.envelopes) && Plain(u.cascades))
  }

  lemma QueueSendPolls(c: T.Config, t: T.State, e: T.Envelope)
    ensures SamePolls(t, T.QueueSend(c, t, e))
  {
    hide T.Live, T.Metas;
    var p := T.Pending(e, T.Request(t.requestIds + 1, false));
    T.LiveAppend(t.flights, p);
    T.TrackedAppend(T.Live(t.flights), p);
  }

  lemma CompletePolls(c: T.Config, t: T.State, r: T.Request, success: bool)
    requires Plain(t.envelopes) && Plain(t.cascades)
    ensures SamePolls(t, T.Complete(c, t, r, success))
  {
    hide T.QueueSend, T.Coalesce, T.Without, T.Live, T.Metas;
    var t1 := t.(requests := T.Without(t.requests, r));
    if t.envelopes != [] {
      var next, rest := t.envelopes[0], t.envelopes[1..];
      T.CoalesceKeeps(rest, next.envelope);
      var (e, rest1, ids) := T.Coalesce(rest, next.envelope);
      QueueSendPolls(c, t1.(envelopes := rest), next.envelope);
      QueueSendPolls(c, t1.(envelopes := rest1, merged := t1.merged + ids), e);
    }
  }

  lemma {:induction false} PollsWithout(ps: seq<T.Pending>, k: nat)
    requires k < |ps|
    ensures var left := T.Metas(T.RemoveAt(ps, k));
      if ps[k].request.metaConnect then |left| == |T.Metas(ps)| - 1 && ps[k].request in T.Metas(ps)
      else left == T.Metas(ps)
  {
    if k == 0 {
      assert T.RemoveAt(ps, 0) == ps[1..];
    } else {
      assert T.RemoveAt(ps, k) == [ps[0]] + T.RemoveAt(ps[1..], k - 1);
      PollsWithout(ps[1..], k - 1);
    }
  }

  lemma OrdinaryKeeps(c: T.Config, t: T.State, ev: T.Event)
    requires !ev.Send? && T.Possible(t, ev) && (ev.Cascade? || !Polling(t, ev.k))
    requires Plain(t.envelopes) && Plain(t.cascades)
    ensures var r := T.Apply(c, t, ev); !r.threw && SamePolls(t, r.s)
  {
    hide T.Complete, T.Live, T.Metas;
    if ev.Cascade? {
      CompletePolls(c, t.(cascades := T.RemoveAt(t.cascades, ev.k)), t.cascades[ev.k].request, false);
    } else {
      var j := T.LiveWithout(t.flights, ev.k);
      if !t.flights[ev.k].expired {
        PollsWithout(T.Live(t.flights), j);
        var left := if ev.Expire? then T.Lapsed(t.flights, ev.k) else T.RemoveAt(t.flights, ev.k);
        CompletePolls(c, t.(flights := left), t.flights[ev.k].p.request, ev.Success?);
      }
    }
  }

  /** The long poll ends: it was the only one, so the transport does not complain of a mismatch. */
  lemma PollEnds(c: T.Config, t: T.State, ev: T.Event)
    requires !ev.Send? && !ev.Cascade? && T.Possible(t, ev) && Polling(t, ev.k)
    requires |Polls(t)| <= 1 && (t.metaConnectRequest.Some? ==> Polls(t) == [t.metaConnectRequest.value])
    ensures var r := T.Apply(c, t, ev);
      && !r.threw && |Polls(t)| == 1 && Polls(r.s) == [] && r.s.metaConnectRequest == None
      && r.s.envelopes == t.envelopes && r.s.cascades == t.cascades
  {
    hide T.Live, T.Metas;
    var j := T.LiveWithout(t.flights, ev.k);
    PollsWithout(T.Live(t.flights), j);
  }

  // ---------- steps ----------

  lemma CarryKeeps(c: T.Config, t: T.State, s: S.State, s1: S.State, env: T.Envelope, connects: int)
    requires |Polls(t)| == connects && (t.metaConnectRequest.Some? ==> Polls(t) == [t.metaConnectRequest.value])
    requires Plain(t.envelopes) && Plain(t.cascades)
    requires var more := S.Count(s1.sent, S.MetaConnect) - S.Count(s.sent, S.MetaConnect);
      more == 0 || (more == 1 && connects == 0)
    ensures
      var more, r := S.Count(s1.sent, S.MetaConnect) - S.Count(s.sent, S.MetaConnect), Carry(c, t, s, s1, env);
      && !r.threw && |Polls(r.s)| == connects + more
      && (r.s.metaConnectRequest.Some? ==> Polls(r.s) == [r.s.metaConnectRequest.value])
      && Plain(r.s.envelopes) && Plain(r.s.cascades)
  {
    hide T.QueueSend, T.Live, T.Metas, S.Count;
    QueueSendPolls(c, t, env);
    var p := T.Pending(env, T.Request(t.requestIds + 1, true));
    T.LiveAppend(t.flights, p);
    T.TrackedAppend(T.Live(t.flights), p);
  }

  lemma AdvanceKeeps(config: S.Config, c: T.Config, s: State, e: S.Event, env: T.Envelope)
    requires S.Orderly(s.live) && S.Possible(s.live, e)
    requires |Polls(s.t)| == s.live.connects - S.Answers(e, S.MetaConnect)
    requires s.t.metaConnectRequest.Some? ==> Polls(s.t) == [s.t.metaConnectRequest.value]
    requires Plain(s.t.envelopes) && Plain(s.t.cascades)
    ensures var r := Advance(config, c, s, e, env); !r.threw && Together(r.s)
  {
    hide S.Count, S.Apply, Carry, Resets, T.Metas, T.Live;
    S.NextIsOrderly(config, s.live, e);
    S.MetaSends(config, s.live.s, e);
    var t := if Resets(config, s.live.s, e) then Reset(s.t) else s.t;
    CarryKeeps(c, t, s.live.s, S.Next(config, s.live, e).s, env, s.live.connects - S.Answers(e, S.MetaConnect));
  }

  lemma StepKeeps(config: S.Config, c: T.Config, s: State, ev: Event)
    requires Together(s) && Possible(s, ev)
    ensures var r := Apply(config, c, s, ev); !r.threw && Together(r.s)
  {
    hide T.Apply, T.Metas, T.Live, Advance, S.Next;
    match ev {
      case Step(e, env) => AdvanceKeeps(config, c, s, e, env);
      case Polled(x, e, env) =>
        PollEnds(c, s.t, x);
        AdvanceKeeps(config, c, s.(t := T.Apply(c, s.t, x).s), e, env);
      case Ordinary(x) => OrdinaryKeeps(c, s.t, x);
    }
  }

  /** A handshake of a session that was off starts on a transport that has forgotten what was in flight: it
    * knows of no long poll and of no request or envelope but this one. */
  lemma StartsAfresh(config: S.Config, c: T.Config, s: State, env: T.Envelope)
    requires s.live.s.scheduledSend == S.ThenHandshake && s.live.s.IsDisconnected()
    ensures
      var t := Advance(config, c, s, S.Fire, env).s.t;
      t.metaConnectRequest.None? && |t.requests| + |t.envelopes| == 1
  {
    hide S.Count, S.Apply, T.Live, T.Metas;
    S.MetaSends(config, s.live.s, S.Fire);
    S.HandshakeStartsOver(config, s.live.s, S.Fire);
  }

  /** A connect that fails with the advice to handshake, and a disconnect that fails, make it forget as well. */
  lemma ForgetsInFlight(config: S.Config, c: T.Config, s: State, e: S.Event, env: T.Envelope)
    requires e.Failed? && !s.live.s.IsDisconnected()
    requires e.on == S.MetaDisconnect || (e.on == S.MetaConnect && s.live.s.advice.reconnect == S.Handshake)
    ensures
      var t := Advance(config, c, s, e, env).s.t;
      t.metaConnectRequest.None? && t.requests == [] && t.envelopes == [] && t.flights == s.t.flights
  {
    hide S.Count, T.Live, T.Metas;
  }

  /** In every run of a session over its transport, disconnect(), resets and aborts included: no step ends in an
    * exception of the transport, so neither "Concurrent metaConnect requests not allowed" nor "Longpoll request
    * mismatch" is ever thrown, and the transport holds a long poll only while the session has a connect in
    * flight. */
  lemma {:induction false} NeverConcurrent(config: S.Config, c: T.Config, env: T.Envelope, es: seq<Event>)
    requires Legal(config, c, env, es)
    ensures Together(Follow(config, c, env, es))
    ensures es != [] ==> !Apply(config, c, Follow(config, c, env, es[..|es| - 1]), es[|es| - 1]).threw
    ensures var s := Follow(config, c, env, es); s.t.metaConnectRequest.Some? ==> s.live.connects == 1
    decreases |es|
  {
    hide Apply, Polls;
    if es == [] {
      StartsTogether(config, c, env);
    } else {
      NeverConcurrent(config, c, env, es[..|es| - 1]);
      StepKeeps(config, c, Follow(config, c, env, es[..|es| - 1]), es[|es| - 1]);
    }
  }

  lemma StartsTogether(config: S.Config, c: T.Config, env: T.Envelope)
    ensures Together(Started(config, c, env))
  {
    hide S.Apply, S.Count;
    S.StartIsOrderly(config);
    S.MetaSends(config, S.INITIAL, S.AppHandshake);
    S.NoMetaIn(S.INITIAL.sent, S.MetaConnect);
    QueueSendPolls(c, T.INITIAL, env);
  }
}
