/** The Bayeux session as a state machine: what each handler of the client does to the session's state
  * and which messages it hands to the transport. Listeners and extensions neither change messages nor
  * call back into the client. */
module Session {
  import opened Views

  datatype Status = Disconnected | Handshaking | Connecting | Connected | Disconnecting

  /** `advice.reconnect`; anything the handlers do not know is Other. */
  datatype Reconnect = Retry | Handshake | Never | Other

  datatype Advice = Advice(reconnect: Reconnect, interval: int, timeout: int)

  /** Advice in a reply; what it leaves out is taken from the configuration. */
  datatype NewAdvice = NewAdvice(reconnect: Option<Reconnect>, interval: Option<int>, timeout: Option<int>)

  datatype Channel =
    | MetaHandshake | MetaConnect | MetaDisconnect | MetaSubscribe | MetaUnsubscribe | Topic(name: string)

  /** What the application queues or sends: subscribe, unsubscribe and publish messages. */
  type AppChannel = c: Channel | c.MetaSubscribe? || c.MetaUnsubscribe? || c.Topic? witness MetaSubscribe

  datatype Sent = Sent(channel: Channel, id: nat, clientId: Option<string>, longpoll: bool)

  /** The delayed operation that is armed, if any. */
  datatype Timer = Off | ThenHandshake | ThenConnect

  datatype State = State(
    status: Status, messageId: nat, clientId: Option<string>, batch: int, messageQueue: seq<AppChannel>,
    internalBatch: bool, backoff: int, scheduledSend: Timer, advice: Advice, reestablish: bool, connected: bool,
    sent: seq<Sent>)
  {
    predicate IsDisconnected() {
      status == Disconnecting || status == Disconnected
    }
  }

  /** Settings that stay fixed during a session. */
  datatype Config = Config(advice: Advice, backoffIncrement: int, maxBackoff: int)

  const INITIAL := State(Disconnected, 0, None, 0, [], false, 0, Off, Advice(Other, 0, 0), false, false, [])

  /** A reply: for a handshake it may lack a client id, and name transports of which this client has none. */
  datatype Reply =
    Reply(channel: Channel, successful: bool, clientId: Option<string>, negotiable: bool, advice: Option<NewAdvice>)

  /** State after a handler, and whether it ended in an exception. */
  datatype Result = Result(s: State, threw: bool)

  function Fine(s: State): Result { Result(s, false) }

  // ---------- sending ----------

  /** The test `if (_clientId)`: a missing id and an empty one fail it alike. */
  predicate Truthy(id: Option<string>) {
    id.Some? && id.value != ""
  }

  function Attached(id: Option<string>): (r: Option<string>)
    ensures r == id <==> id.None? || Truthy(id)
  {
    if Truthy(id) then id else None
  }

  function Number(s: State, cs: seq<Channel>, longpoll: bool): (r: seq<Sent>)
    ensures |r| == |cs|
  {
    seq(|cs|, i requires 0 <= i < |cs| => Sent(cs[i], s.messageId + i + 1, Attached(s.clientId), longpoll))
  }

  /** `_send`: messages get ids and the client id if one is known now; nothing else of the session changes. */
  function Send(s: State, cs: seq<Channel>, longpoll: bool): (r: State)
    ensures r == s.(messageId := r.messageId, sent := r.sent)
    ensures s.sent <= r.sent && |r.sent| == |s.sent| + |cs|
  {
    s.(messageId := s.messageId + |cs|, sent := s.sent + Number(s, cs, longpoll))
  }

  lemma SendNothing(s: State, longpoll: bool)
    ensures Send(s, [], longpoll) == s
  {
    assert s.sent + Number(s, [], longpoll) == s.sent;
  }

  lemma SendOneMore(s: State, cs: seq<Channel>, i: nat, longpoll: bool)
    requires i < |cs|
    ensures
      var t := Send(s, cs[..i], longpoll);
      Send(s, cs[..i + 1], longpoll)
      == t.(messageId := t.messageId + 1,
            sent := t.sent + [Sent(cs[i], t.messageId + 1, Attached(t.clientId), longpoll)])
  {
    var t := Send(s, cs[..i], longpoll);
    assert Number(s, cs[..i + 1], longpoll)
        == Number(s, cs[..i], longpoll) + [Sent(cs[i], t.messageId + 1, Attached(t.clientId), longpoll)];
  }

  function QueueSend(s: State, c: AppChannel): State {
    if s.batch > 0 || s.internalBatch then s.(messageQueue := s.messageQueue + [c]) else Send(s, [c], false)
  }

  function FlushBatch(s: State): (r: State)
    ensures r == s.(messageQueue := [], messageId := r.messageId, sent := r.sent)
  {
    Send(s.(messageQueue := []), s.messageQueue, false)
  }

  function EndBatch(s: State): Result {
    var s1 := s.(batch := s.batch - 1);
    if s1.batch < 0 then Result(s1, true)
    else if s1.batch == 0 && !s1.IsDisconnected() && !s1.internalBatch then Fine(FlushBatch(s1))
    else Fine(s1)
  }

  // ---------- connecting and disconnecting ----------

  function Connect(s: State): State {
    if s.IsDisconnected() then s
    else Send(s.(status := Connecting), [MetaConnect], true).(status := Connected)
  }

  function DelayedConnect(s: State): State {
    s.(status := Connecting, scheduledSend := ThenConnect)
  }

  function Mixed(config: Config, a: NewAdvice): Advice {
    Advice(
      if a.reconnect.Some? then a.reconnect.value else config.advice.reconnect,
      if a.interval.Some? then a.interval.value else config.advice.interval,
      if a.timeout.Some? then a.timeout.value else config.advice.timeout)
  }

  function UpdateAdvice(config: Config, s: State, a: Option<NewAdvice>): State {
    if a.Some? then s.(advice := Mixed(config, a.value)) else s
  }

  /** Messages still queued are failed, which only notifies listeners. */
  function Disconnect(s: State): State {
    s.(scheduledSend := Off, clientId := None, status := Disconnected, batch := 0, backoff := 0, messageQueue := [])
  }

  function HandshakeNow(config: Config, s: State): State {
    var advice := if s.IsDisconnected() then config.advice else s.advice.(reconnect := Retry);
    var s1 := s.(clientId := None, advice := advice, batch := 0, internalBatch := true, status := Handshaking);
    Send(s1, [MetaHandshake], false)
  }

  function DelayedHandshake(s: State): State {
    s.(status := Handshaking, internalBatch := true, scheduledSend := ThenHandshake)
  }

  function IncreaseBackoff(config: Config, s: State): State {
    if s.backoff < config.maxBackoff then s.(backoff := s.backoff + config.backoffIncrement) else s
  }

  function FailHandshake(config: Config, s: State): State {
    if !s.IsDisconnected() && s.advice.reconnect != Never then DelayedHandshake(IncreaseBackoff(config, s))
    else Disconnect(s)
  }

  /** The action after a reply: nothing to be retried once disconnected. */
  function ActionOf(s: State): Reconnect {
    if s.IsDisconnected() then Never else s.advice.reconnect
  }

  function HandshakeResponse(config: Config, s: State, r: Reply): Result {
    if !r.successful then Fine(FailHandshake(config, s))
    else
      var s1 := s.(clientId := r.clientId);
      if !r.negotiable then Result(s1, true)
      else
        var s2 := FlushBatch(s1.(internalBatch := false)).(reestablish := true);
        match ActionOf(s2)
        case Retry => Fine(DelayedConnect(s2.(backoff := 0)))
        case Never => Fine(Disconnect(s2))
        case _ => Result(s2, true)
  }

  function FailConnect(config: Config, s: State): Result {
    match ActionOf(s)
    case Retry => Fine(IncreaseBackoff(config, DelayedConnect(s)))
    case Handshake => Fine(DelayedHandshake(s.(backoff := 0)))
    case Never => Fine(Disconnect(s))
    case Other => Result(s, true)
  }

  function ConnectResponse(config: Config, s: State, r: Reply): Result {
    var s1 := s.(connected := r.successful);
    if !r.successful then FailConnect(config, s1)
    else
      match ActionOf(s1)
      case Retry => Fine(DelayedConnect(s1.(backoff := 0)))
      case Never => Fine(Disconnect(s1))
      case _ => Result(s1, true)
  }

  /** `_receive`: the advice of any reply is taken over first. */
  function Receive(config: Config, s: State, r: Reply): Result {
    var s1 := UpdateAdvice(config, s, r.advice);
    match r.channel
    case MetaHandshake => HandshakeResponse(config, s1, r)
    case MetaConnect => ConnectResponse(config, s1, r)
    case MetaDisconnect => Fine(Disconnect(s1))
    case _ => Fine(s1)
  }

  /** `_handleFailure` for one message. */
  function Fail(config: Config, s: State, c: Channel): Result {
    match c
    case MetaHandshake => Fine(FailHandshake(config, s))
    case MetaConnect => FailConnect(config, s.(connected := false))
    case MetaDisconnect => Fine(Disconnect(s))
    case _ => Fine(s)
  }

  // ---------- events ----------

  /** Calls of the application, the armed timer going off, a reply, a network failure. `RawSend` is the
    * public `send`, which does not check the status as `publish` and `subscribe` (Post) do. */
  datatype Event =
    | AppHandshake | AppDisconnect | Post(c: AppChannel) | RawSend(c: AppChannel) | StartBatch | CloseBatch
    | Fire | Replied(r: Reply) | Failed(on: Channel)

  function Apply(config: Config, s: State, e: Event): Result {
    match e
    case AppHandshake => Fine(HandshakeNow(config, s.(status := Disconnected, reestablish := false)))
    case AppDisconnect =>
      if s.IsDisconnected() then Fine(s) else Fine(Send(s.(status := Disconnecting), [MetaDisconnect], false))
    case Post(c) => if s.IsDisconnected() then Result(s, true) else Fine(QueueSend(s, c))
    case RawSend(c) => Fine(QueueSend(s, c))
    case StartBatch => Fine(s.(batch := s.batch + 1))
    case CloseBatch => EndBatch(s)
    case Fire =>
      var s1 := s.(scheduledSend := Off);
      Fine(match s.scheduledSend
           case Off => s
           case ThenHandshake => HandshakeNow(config, s1)
           case ThenConnect => Connect(s1))
    case Replied(r) => Receive(config, s, r)
    case Failed(on) => Fail(config, s, on)
  }

  function Run(config: Config, s: State, es: seq<Event>): State
  {
    if es == [] then s else Apply(config, Run(config, s, es[..|es| - 1]), es[|es| - 1]).s
  }

  // ---------- client ids and the message queue ----------

  ghost predicate Numbered(s: State) {
    |s.sent| == s.messageId && forall i :: 0 <= i < |s.sent| ==> s.sent[i].id == i + 1
  }

  /** Queued messages wait for an open batch, for the internal one, or for nothing any more. */
  ghost predicate Waiting(s: State) {
    s.messageQueue != [] ==> s.batch > 0 || s.internalBatch || s.IsDisconnected()
  }

  /** Ids on the wire are 1, 2, 3, ..., and no message is forgotten in the queue. */
  ghost predicate Sound(s: State) {
    Numbered(s) && Waiting(s)
  }

  lemma SendNumbers(s: State, cs: seq<Channel>, longpoll: bool)
    requires Numbered(s)
    ensures Numbered(Send(s, cs, longpoll))
  {
  }

  lemma ApplyNumbers(config: Config, s: State, e: Event)
    requires Numbered(s)
    ensures Numbered(Apply(config, s, e).s)
  {
    hide Send, Numbered, Receive, HandshakeNow;
    match e {
      case AppHandshake =>
        SameNumbers(s, s.(status := Disconnected, reestablish := false));
        HandshakeNumbers(config, s.(status := Disconnected, reestablish := false));
      case AppDisconnect =>
        SameNumbers(s, s.(status := Disconnecting));
        SendNumbers(s.(status := Disconnecting), [MetaDisconnect], false);
      case Post(c) => QueueNumbers(s, c);
      case RawSend(c) => QueueNumbers(s, c);
      case StartBatch => SameNumbers(s, s.(batch := s.batch + 1));
      case CloseBatch => EndBatchNumbers(s);
      case Fire => FireNumbers(config, s);
      case Replied(r) => ReceiveNumbers(config, s, r);
      case Failed(on) => SameNumbers(s, Fail(config, s, on).s);
    }
  }

  lemma SameNumbers(s: State, t: State)
    requires Numbered(s) && t.sent == s.sent && t.messageId == s.messageId
    ensures Numbered(t)
  {
  }

  lemma QueueNumbers(s: State, c: AppChannel)
    requires Numbered(s)
    ensures Numbered(QueueSend(s, c))
  {
    hide Send;
    SendNumbers(s, [c], false);
  }

  lemma EndBatchNumbers(s: State)
    requires Numbered(s)
    ensures Numbered(EndBatch(s).s)
  {
    hide Send;
    SendNumbers(s.(batch := s.batch - 1, messageQueue := []), s.messageQueue, false);
  }

  lemma FireNumbers(config: Config, s: State)
    requires Numbered(s)
    ensures Numbered(Apply(config, s, Fire).s)
  {
    hide Send, HandshakeNow;
    HandshakeNumbers(config, s.(scheduledSend := Off));
    SendNumbers(s.(scheduledSend := Off, status := Connecting), [MetaConnect], true);
  }

  lemma ReceiveNumbers(config: Config, s: State, r: Reply)
    requires Numbered(s)
    ensures Numbered(Receive(config, s, r).s)
  {
    hide Send, HandshakeResponse, ConnectResponse;
    var s1 := UpdateAdvice(config, s, r.advice);
    HandshakeResponseNumbers(config, s1, r);
    ConnectResponseNumbers(config, s1, r);
  }

  lemma HandshakeResponseNumbers(config: Config, s: State, r: Reply)
    requires Numbered(s)
    ensures Numbered(HandshakeResponse(config, s, r).s)
  {
    hide Send;
    var s1 := s.(clientId := r.clientId, internalBatch := false);
    SendNumbers(s1.(messageQueue := []), s1.messageQueue, false);
  }

  lemma ConnectResponseNumbers(config: Config, s: State, r: Reply)
    requires Numbered(s)
    ensures Numbered(ConnectResponse(config, s, r).s)
  {
  }

  lemma HandshakeNumbers(config: Config, s: State)
    requires Numbered(s)
    ensures Numbered(HandshakeNow(config, s))
  {
    hide Send;
    var advice := if s.IsDisconnected() then config.advice else s.advice.(reconnect := Retry);
    var s1 := s.(clientId := None, advice := advice, batch := 0, internalBatch := true, status := Handshaking);
    SendNumbers(s1, [MetaHandshake], false);
  }

  lemma HandshakeResponseWaits(config: Config, s: State, r: Reply)
    requires Waiting(s)
    ensures Waiting(HandshakeResponse(config, s, r).s)
  {
    hide Send;
  }

  lemma ConnectResponseWaits(config: Config, s: State, r: Reply)
    requires Waiting(s)
    ensures Waiting(ConnectResponse(config, s, r).s)
  {
  }

  lemma FailWaits(config: Config, s: State, c: Channel)
    requires Waiting(s)
    ensures Waiting(Fail(config, s, c).s)
  {
  }

  lemma CallWaits(config: Config, s: State, e: Event)
    requires Waiting(s) && !e.Replied? && !e.Failed?
    ensures Waiting(Apply(config, s, e).s)
  {
    hide Send;
  }

  /** Any event, replies that nobody asked for and repeated handshakes included, keeps the state sound. */
  lemma ApplyKeepsSound(config: Config, s: State, e: Event)
    requires Sound(s)
    ensures Sound(Apply(config, s, e).s)
  {
    hide Send, Numbered, Waiting, HandshakeResponse, ConnectResponse, Fail;
    ApplyNumbers(config, s, e);
    match e {
      case Replied(r) => ReceiveWaits(config, s, r);
      case Failed(on) => FailWaits(config, s, on);
      case _ => CallWaits(config, s, e);
    }
  }

  lemma ReceiveWaits(config: Config, s: State, r: Reply)
    requires Waiting(s)
    ensures Waiting(Receive(config, s, r).s)
  {
    hide HandshakeResponse, ConnectResponse;
    var s1 := UpdateAdvice(config, s, r.advice);
    HandshakeResponseWaits(config, s1, r);
    ConnectResponseWaits(config, s1, r);
  }

  lemma {:induction false} AlwaysSound(config: Config, es: seq<Event>)
    ensures Sound(Run(config, INITIAL, es))
  {
    if es != [] {
      AlwaysSound(config, es[..|es| - 1]);
      ApplyKeepsSound(config, Run(config, INITIAL, es[..|es| - 1]), es[|es| - 1]);
    }
  }

  // ---------- client ids ----------

  /** Where messages may leave freely, the client id is known. */
  ghost predicate Identified(s: State) {
    !s.IsDisconnected() && !s.internalBatch ==> Truthy(s.clientId)
  }

  /** A successful handshake reply without a client id, after which messages may leave freely: because it
    * ends the internal batch and the session goes on, or because it comes late and only replaces the id. */
  ghost predicate Anonymous(config: Config, s: State, e: Event) {
    && e.Replied? && e.r.channel == MetaHandshake && e.r.successful && !Truthy(e.r.clientId)
    && !s.IsDisconnected()
    && if e.r.negotiable then UpdateAdvice(config, s, e.r.advice).advice.reconnect != Never else !s.internalBatch
  }

  /** The run up to each event, and no event of it anonymous. */
  ghost predicate NeverAnonymous(config: Config, es: seq<Event>) {
    forall i :: 0 <= i < |es| ==> !Anonymous(config, Run(config, INITIAL, es[..i]), es[i])
  }

  lemma ApplyIdentifies(config: Config, s: State, e: Event)
    requires Identified(s)
    ensures Identified(Apply(config, s, e).s) <==> !Anonymous(config, s, e)
  {
    hide Send;
    match e {
      case Replied(r) =>
        hide HandshakeResponse, ConnectResponse;
        var s1 := UpdateAdvice(config, s, r.advice);
        HandshakeIdentifies(config, s1, r);
        ConnectIdentifies(config, s1, r);
      case _ =>
    }
  }

  lemma HandshakeIdentifies(config: Config, s: State, r: Reply)
    requires Identified(s)
    ensures
      Identified(HandshakeResponse(config, s, r).s)
      <==> !(r.successful && !Truthy(r.clientId) && !s.IsDisconnected()
             && if r.negotiable then s.advice.reconnect != Never else !s.internalBatch)
  {
    hide Send;
  }

  lemma ConnectIdentifies(config: Config, s: State, r: Reply)
    requires Identified(s)
    ensures Identified(ConnectResponse(config, s, r).s)
  {
  }

  /** What the application does with batches, publish, subscribe and unsubscribe. */
  ghost predicate IsCall(e: Event) {
    e.Post? || e.StartBatch? || e.CloseBatch?
  }

  /** Everything sent since then carries the client id of then. */
  ghost predicate AllCarry(s: State, t: State) {
    && |s.sent| <= |t.sent|
    && forall k :: |s.sent| <= k < |t.sent| ==> t.sent[k].clientId == s.clientId && Truthy(s.clientId)
  }

  /** Whatever the application goes on to call, nothing leaves without the session's client id. */
  ghost predicate SafeForCalls(config: Config, s: State) {
    forall cs: seq<Event> :: (forall i :: 0 <= i < |cs| ==> IsCall(cs[i])) ==> AllCarry(s, Run(config, s, cs))
  }

  lemma {:induction false} CallsCarry(config: Config, s: State, cs: seq<Event>)
    requires Identified(s) && forall i :: 0 <= i < |cs| ==> IsCall(cs[i])
    ensures var t := Run(config, s, cs);
      AllCarry(s, t) && Identified(t) && t.clientId == s.clientId
  {
    if cs != [] {
      var before, e := cs[..|cs| - 1], cs[|cs| - 1];
      CallsCarry(config, s, before);
      var t := Run(config, s, before);
      CallCarries(config, t, e);
      CarryOn(s, t, Apply(config, t, e).s);
    }
  }

  lemma CarryOn(s: State, t: State, u: State)
    requires AllCarry(s, t) && AllCarry(t, u) && t.sent <= u.sent && t.clientId == s.clientId
    ensures AllCarry(s, u)
  {
    var head := u.sent[..|t.sent|];
    assert head == t.sent;
    forall k | |s.sent| <= k < |u.sent| ensures u.sent[k].clientId == s.clientId && Truthy(s.clientId) {
      if k < |t.sent| { assert u.sent[k] == head[k] == t.sent[k]; }
    }
  }

  lemma CallCarries(config: Config, s: State, e: Event)
    requires Identified(s) && IsCall(e)
    ensures var t := Apply(config, s, e).s;
      AllCarry(s, t) && s.sent <= t.sent && Identified(t) && t.clientId == s.clientId
  {
    match e {
      case Post(c) => SendCarries(s, [c]);
      case CloseBatch =>
        var s1 := s.(batch := s.batch - 1);
        SendCarries(s1.(messageQueue := []), s1.messageQueue);
        hide Send;
      case _ =>
    }
  }

  lemma SendCarries(s: State, cs: seq<Channel>)
    ensures var t := Send(s, cs, false); s.sent <= t.sent && (Truthy(s.clientId) ==> AllCarry(s, t))
  {
    var t, n := Send(s, cs, false), Number(s, cs, false);
    assert t.sent == s.sent + n;
    forall k | |s.sent| <= k < |t.sent| ensures t.sent[k].clientId == Attached(s.clientId) {
      assert t.sent[k] == n[k - |s.sent|];
    }
  }

  /** Closing a batch as often as it was opened. */
  lemma {:induction false} Unwind(config: Config, s: State, n: nat) returns (cs: seq<Event>)
    requires n <= s.batch || n == 0
    ensures |cs| == n && forall i :: 0 <= i < n ==> cs[i] == CloseBatch
    ensures var t := Run(config, s, cs);
      && t.status == s.status && t.internalBatch == s.internalBatch && t.clientId == s.clientId
      && t.batch == s.batch - n && |t.sent| >= |s.sent|
  {
    hide Send;
    cs := [];
    if n > 0 {
      var before := Unwind(config, s, n - 1);
      cs := before + [CloseBatch];
      assert cs[..n - 1] == before;
    }
  }

  /** Otherwise a publish, once open batches are closed, does leave without one. */
  lemma CallsLeak(config: Config, s: State)
    requires !Identified(s)
    ensures !SafeForCalls(config, s)
  {
    hide Apply, Send, AllCarry, SafeForCalls;
    var close := Unwind(config, s, if s.batch > 0 then s.batch else 0);
    var cs := close + [Post(MetaSubscribe)];
    assert cs[..|cs| - 1] == close;
    var t := Run(config, s, close);
    assert Run(config, s, cs) == Apply(config, t, Post(MetaSubscribe)).s;
    hide Run;
    PostLeaks(config, t, MetaSubscribe);
    assert forall i :: 0 <= i < |cs| ==> IsCall(cs[i]);
    NotCarried(s, Run(config, s, cs), |t.sent|);
    Unsafe(config, s, cs);
  }

  lemma Unsafe(config: Config, s: State, cs: seq<Event>)
    requires (forall i :: 0 <= i < |cs| ==> IsCall(cs[i])) && !AllCarry(s, Run(config, s, cs))
    ensures !SafeForCalls(config, s)
  {
    hide Run, AllCarry, IsCall;
  }

  lemma NotCarried(s: State, u: State, k: nat)
    requires |s.sent| <= k < |u.sent| && u.sent[k].clientId == None
    ensures !AllCarry(s, u)
  {
  }

  lemma PostLeaks(config: Config, s: State, c: AppChannel)
    requires !Identified(s) && s.batch <= 0
    ensures var t := Apply(config, s, Post(c)).s;
      t.sent == s.sent + [Sent(c, s.messageId + 1, None, false)]
  {
    assert Number(s, [c], false)[0] == Sent(c, s.messageId + 1, Attached(s.clientId), false);
  }

  /** In all states of a run nothing can be made to leave without the session's client id, in exactly those
    * runs in which no handshake reply was anonymous. */
  lemma ClientIdSafety(config: Config, es: seq<Event>)
    ensures
      (forall i :: 0 <= i <= |es| ==> SafeForCalls(config, Run(config, INITIAL, es[..i])))
      <==> NeverAnonymous(config, es)
  {
    hide Identified, Anonymous, SafeForCalls, Run, NeverAnonymous;
    IdentifiedExactlyIf(config, es);
    forall i | 0 <= i <= |es|
      ensures SafeForCalls(config, Run(config, INITIAL, es[..i])) <==> Identified(Run(config, INITIAL, es[..i]))
    {
      SafeExactlyIfIdentified(config, Run(config, INITIAL, es[..i]));
    }
  }

  lemma SafeExactlyIfIdentified(config: Config, s: State)
    ensures SafeForCalls(config, s) <==> Identified(s)
  {
    hide Identified, AllCarry, Run;
    if Identified(s) {
      forall cs: seq<Event> | forall i :: 0 <= i < |cs| ==> IsCall(cs[i])
        ensures AllCarry(s, Run(config, s, cs))
      {
        CallsCarry(config, s, cs);
      }
    } else {
      CallsLeak(config, s);
    }
  }

  ghost predicate IdentifiedUpTo(config: Config, es: seq<Event>, n: nat)
    requires n <= |es|
  {
    forall i :: 0 <= i <= n ==> Identified(Run(config, INITIAL, es[..i]))
  }

  lemma IdentifiedExactlyIf(config: Config, es: seq<Event>)
    ensures IdentifiedUpTo(config, es, |es|) <==> NeverAnonymous(config, es)
  {
    IdentifiedSoFar(config, es, |es|);
  }

  lemma {:induction false} IdentifiedSoFar(config: Config, es: seq<Event>, n: nat)
    requires n <= |es|
    ensures
      IdentifiedUpTo(config, es, n)
      <==> forall i :: 0 <= i < n ==> !Anonymous(config, Run(config, INITIAL, es[..i]), es[i])
  {
    hide Identified, Anonymous, Apply, Run;
    if n == 0 {
      StartsIdentified(config);
      assert es[..0] == [];
    } else {
      IdentifiedSoFar(config, es, n - 1);
      RunGrows(config, INITIAL, es, n - 1);
      var s := Run(config, INITIAL, es[..n - 1]);
      if Identified(s) { ApplyIdentifies(config, s, es[n - 1]); }
    }
  }

  lemma RunGrows(config: Config, s: State, es: seq<Event>, n: nat)
    requires n < |es|
    ensures Run(config, s, es[..n + 1]) == Apply(config, Run(config, s, es[..n]), es[n]).s
  {
    assert es[..n + 1][..n] == es[..n];
  }

  lemma StartsIdentified(config: Config)
    ensures Identified(Run(config, INITIAL, []))
  {
  }

  /** In the runs without anonymous replies: what publish, subscribe, unsubscribe or the end of a batch puts
    * on the wire carries the client id of the session. */
  lemma NothingWithoutClientId(config: Config, es: seq<Event>, e: Event, k: nat)
    requires NeverAnonymous(config, es) && (e.Post? || e.CloseBatch?)
    requires var s := Run(config, INITIAL, es); |s.sent| <= k < |Apply(config, s, e).s.sent|
    ensures
      var s := Run(config, INITIAL, es);
      Apply(config, s, e).s.sent[k].clientId == s.clientId && Truthy(s.clientId)
  {
    hide NeverAnonymous, Apply, Run;
    IdentifiedExactlyIf(config, es);
    assert es[..|es|] == es;
    CallCarries(config, Run(config, INITIAL, es), e);
  }

  /** A successful handshake reply releases the queue under the id it brings, if it brings one. */
  lemma ReplyReleases(config: Config, s: State, r: Reply)
    requires r.channel == MetaHandshake && r.successful && r.negotiable
    ensures
      var t := Receive(config, s, r).s;
      && |t.sent| == |s.sent| + |s.messageQueue|
      && forall k :: 0 <= k < |s.messageQueue| ==>
           t.sent[|s.sent| + k].channel == s.messageQueue[k] && t.sent[|s.sent| + k].clientId == Attached(r.clientId)
  {
    var s1 := UpdateAdvice(config, s, r.advice).(clientId := r.clientId, internalBatch := false);
    var released := Number(s1.(messageQueue := []), s.messageQueue, false);
    assert FlushBatch(s1).sent == s.sent + released;
    hide Send, FlushBatch, Attached;
    var t := Receive(config, s, r).s;
    assert t.sent == s.sent + released;
    hide Receive, HandshakeResponse;
    forall k | 0 <= k < |s.messageQueue|
      ensures t.sent[|s.sent| + k] == Sent(s.messageQueue[k], s.messageId + k + 1, Attached(r.clientId), false)
    {
      assert t.sent[|s.sent| + k] == released[k];
    }
  }

  /** The failing input: the server's handshake reply has no client id (or an empty one), and the next
    * message published leaves without one. */
  lemma PublishedWithoutClientId(config: Config, id: Option<string>)
    requires config.advice.reconnect == Retry && !Truthy(id)
    ensures
      var es := [AppHandshake, Replied(Reply(MetaHandshake, true, id, true, None))];
      var s := Run(config, INITIAL, es);
      && !NeverAnonymous(config, es) && !s.IsDisconnected()
      && var t := Apply(config, s, Post(Topic("/sally")));
         !t.threw && |t.s.sent| == 2 && t.s.sent[1] == Sent(Topic("/sally"), 2, None, false)
  {
    var es := [AppHandshake, Replied(Reply(MetaHandshake, true, id, true, None))];
    assert es[..1] == [AppHandshake] && es[..1][..0] == [];
    var s1 := Run(config, INITIAL, es[..1]);
    assert s1 == Apply(config, Run(config, INITIAL, []), AppHandshake).s;
    assert Anonymous(config, s1, es[1]);
    var s := Run(config, INITIAL, es);
    assert s == Apply(config, s1, es[1]).s;
    hide Run;
    assert |s1.sent| == 1 && s1.messageId == 1 && s1.messageQueue == [];
    assert s.batch == 0 && !Identified(s) && s.messageId == 1 && |s.sent| == 1;
    PostLeaks(config, s, Topic("/sally"));
  }

  // ---------- nothing is lost or doubled on the way out ----------

  predicate IsApp(c: Channel) {
    c.MetaSubscribe? || c.MetaUnsubscribe? || c.Topic?
  }

  /** The application's messages among those sent. */
  function AppOf(sent: seq<Sent>): seq<Channel> {
    if sent == [] then []
    else AppOf(sent[..|sent| - 1]) + if IsApp(sent[|sent| - 1].channel) then [sent[|sent| - 1].channel] else []
  }

  /** The application's messages that were sent, and behind them those that wait. */
  function Ledger(s: State): seq<Channel> {
    AppOf(s.sent) + s.messageQueue
  }

  /** What an event brings in: a message posted while the session is on, or sent unchecked. */
  function Taken(s: State, e: Event): seq<Channel> {
    if e.RawSend? || (e.Post? && !s.IsDisconnected()) then [e.c] else []
  }

  function Accepted(config: Config, s: State, es: seq<Event>): seq<Channel> {
    if es == [] then []
    else
      var before := es[..|es| - 1];
      Accepted(config, s, before) + Taken(Run(config, s, before), es[|es| - 1])
  }

  /** A reply or failure of a meta message after which the session is off. */
  ghost predicate Ends(config: Config, s: State, e: Event) {
    && Answers(e, MetaHandshake) + Answers(e, MetaConnect) + Answers(e, MetaDisconnect) > 0
    && Apply(config, s, e).s.status == Disconnected
  }

  /** A message sent unchecked, with no batch open, goes out before what waits: that waits then for a session
    * that is off. */
  ghost predicate Overtakes(s: State, e: Event) {
    e.RawSend? && s.batch <= 0 && !s.internalBatch && exists c :: c in s.messageQueue && c != e.c
  }

  lemma {:induction false} AppOfAppend(a: seq<Sent>, b: seq<Sent>)
    ensures AppOf(a + b) == AppOf(a) + AppOf(b)
  {
    if b == [] {
      assert a + b == a;
    } else {
      assert (a + b)[..|a + b| - 1] == a + b[..|b| - 1];
      AppOfAppend(a, b[..|b| - 1]);
    }
  }

  lemma {:induction false} AppOfNumber(s: State, cs: seq<Channel>, longpoll: bool)
    ensures (forall c :: c in cs ==> IsApp(c)) ==> AppOf(Number(s, cs, longpoll)) == cs
    ensures (forall c :: c in cs ==> !IsApp(c)) ==> AppOf(Number(s, cs, longpoll)) == []
  {
    if cs != [] {
      var front, c := cs[..|cs| - 1], cs[|cs| - 1];
      hide Number, AppOf, Attached, IsApp;
      assert c in cs && cs == front + [c] && forall d :: d in front ==> d in cs;
      AppOfNumber(s, front, longpoll);
      AppOfMore(s, front, c, longpoll);
    }
  }

  lemma AppOfMore(s: State, cs: seq<Channel>, c: Channel, longpoll: bool)
    ensures AppOf(Number(s, cs + [c], longpoll)) == AppOf(Number(s, cs, longpoll)) + if IsApp(c) then [c] else []
  {
    var n := Number(s, cs + [c], longpoll);
    assert n[..|cs|] == Number(s, cs, longpoll) && n[|cs|].channel == c;
  }

  lemma SentApp(s: State, cs: seq<AppChannel>)
    ensures AppOf(Send(s, cs, false).sent) == AppOf(s.sent) + cs
  {
    AppOfAppend(s.sent, Number(s, cs, false));
    AppOfNumber(s, cs, false);
  }

  lemma SentMeta(s: State, c: Channel, longpoll: bool)
    requires !IsApp(c)
    ensures AppOf(Send(s, [c], longpoll).sent) == AppOf(s.sent)
  {
    AppOfAppend(s.sent, Number(s, [c], longpoll));
    AppOfNumber(s, [c], longpoll);
    assert AppOf(s.sent) + [] == AppOf(s.sent);
  }

  lemma FlushLedger(s: State)
    ensures Ledger(FlushBatch(s)) == Ledger(s) && FlushBatch(s).messageQueue == []
  {
    hide Send, AppOf;
    SentApp(s.(messageQueue := []), s.messageQueue);
    assert AppOf(s.sent) + s.messageQueue + [] == AppOf(s.sent) + s.messageQueue;
  }

  lemma PostLedger(s: State, c: AppChannel)
    requires Waiting(s)
    ensures multiset(Ledger(QueueSend(s, c))) == multiset(Ledger(s)) + multiset{c}
    ensures Ledger(QueueSend(s, c)) == Ledger(s) + [c] <==> !Overtakes(s, RawSend(c))
    ensures !s.IsDisconnected() ==> !Overtakes(s, RawSend(c))
  {
    hide Send, AppOf;
    SentApp(s, [c]);
    PutBefore<Channel>(AppOf(s.sent), s.messageQueue, c);
  }

  lemma PutBefore<T>(out: seq<T>, q: seq<T>, c: T)
    ensures out + (q + [c]) == out + q + [c]
    ensures multiset(out + [c] + q) == multiset(out + q) + multiset{c}
    ensures out + [c] + q == out + q + [c] <==> forall x :: x in q ==> x == c
  {
    Rotated(q, c);
    var a, b := out + [c] + q, out + q + [c];
    assert a[|out|..] == [c] + q && b[|out|..] == q + [c] && a == out + ([c] + q) && b == out + (q + [c]);
  }

  /** A message put before others makes the same sequence as one put behind them only if all are alike. */
  lemma {:induction false} Rotated<T>(q: seq<T>, c: T)
    ensures [c] + q == q + [c] <==> forall x :: x in q ==> x == c
  {
    if q != [] {
      var rest := q[1..];
      Rotated(rest, c);
      assert q == [q[0]] + rest && q[0] in q && forall x :: x in rest ==> x in q;
      if [c] + q == q + [c] {
        assert c == ([c] + q)[0] == (q + [c])[0] == q[0];
        assert [c] + rest == ([c] + q)[1..] == (q + [c])[1..] == rest + [c];
        assert forall x :: x in q ==> x == q[0] || x in rest;
      }
    }
  }

  lemma HandshakeLedger(config: Config, s: State)
    ensures Ledger(HandshakeNow(config, s)) == Ledger(s)
  {
    hide Send, AppOf;
    var advice := if s.IsDisconnected() then config.advice else s.advice.(reconnect := Retry);
    var s1 := s.(clientId := None, advice := advice, batch := 0, internalBatch := true, status := Handshaking);
    SentMeta(s1, MetaHandshake, false);
  }

  lemma FireLedger(config: Config, s: State)
    ensures Ledger(Apply(config, s, Fire).s) == Ledger(s)
  {
    hide Send, AppOf, HandshakeNow;
    HandshakeLedger(config, s.(scheduledSend := Off));
    SentMeta(s.(scheduledSend := Off, status := Connecting), MetaConnect, true);
  }

  /** A reply or failure leaves the ledger alone, or ends the session and drops what still waits. */
  ghost predicate KeptOrDropped(s: State, t: State) {
    Ledger(t) == Ledger(s) || (t.status == Disconnected && AppOf(t.sent) <= Ledger(s) && t.messageQueue == [])
  }

  lemma HandshakeReplyLedger(config: Config, s: State, r: Reply)
    ensures KeptOrDropped(s, HandshakeResponse(config, s, r).s)
  {
    hide Send, AppOf, FlushBatch;
    FlushLedger(s.(clientId := r.clientId, internalBatch := false));
  }

  lemma ConnectReplyLedger(config: Config, s: State, r: Reply)
    ensures KeptOrDropped(s, ConnectResponse(config, s, r).s)
  {
    hide AppOf;
  }

  lemma AnswerLedger(config: Config, s: State, e: Event)
    requires e.Replied? || e.Failed?
    ensures KeptOrDropped(s, Apply(config, s, e).s)
    ensures !Ends(config, s, e) ==> Ledger(Apply(config, s, e).s) == Ledger(s)
  {
    hide Ledger, AppOf, HandshakeResponse, ConnectResponse, FailHandshake, FailConnect;
    if e.Replied? {
      var s1 := UpdateAdvice(config, s, e.r.advice);
      SameLedger(s, s1);
      HandshakeReplyLedger(config, s1, e.r);
      ConnectReplyLedger(config, s1, e.r);
      EndLedger(s1);
    } else {
      FailureLedger(config, s);
      EndLedger(s);
    }
  }

  lemma EndLedger(s: State)
    ensures KeptOrDropped(s, Disconnect(s))
  {
    hide AppOf;
  }

  lemma FailureLedger(config: Config, s: State)
    ensures KeptOrDropped(s, FailHandshake(config, s))
    ensures KeptOrDropped(s, FailConnect(config, s.(connected := false)).s)
  {
    hide AppOf;
  }

  lemma CallLedger(config: Config, s: State, e: Event)
    requires Waiting(s) && !e.Replied? && !e.Failed?
    ensures var t := Apply(config, s, e).s;
      && multiset(Ledger(t)) == multiset(Ledger(s)) + multiset(Taken(s, e))
      && (!Overtakes(s, e) <==> Ledger(t) == Ledger(s) + Taken(s, e))
  {
    hide Ledger, AppOf, QueueSend;
    if e.RawSend? || (e.Post? && !s.IsDisconnected()) {
      PostLedger(s, e.c);
      hide Waiting;
    } else {
      assert Taken(s, e) == [] && Ledger(s) + [] == Ledger(s);
      hide Apply;
      OtherCalls(config, s, e);
    }
  }

  lemma OtherCalls(config: Config, s: State, e: Event)
    requires !e.Replied? && !e.Failed? && !e.RawSend? && (e.Post? ==> s.IsDisconnected())
    ensures Ledger(Apply(config, s, e).s) == Ledger(s)
  {
    hide Ledger, AppOf, Send, HandshakeNow, FlushBatch, QueueSend;
    match e {
      case AppHandshake =>
        SameLedger(s, s.(status := Disconnected, reestablish := false));
        HandshakeLedger(config, s.(status := Disconnected, reestablish := false));
      case AppDisconnect => DisconnectLedger(s);
      case StartBatch => SameLedger(s, s.(batch := s.batch + 1));
      case CloseBatch =>
        SameLedger(s, s.(batch := s.batch - 1));
        FlushLedger(s.(batch := s.batch - 1));
      case Fire => FireLedger(config, s);
      case Post(c) =>
    }
  }

  lemma SameLedger(s: State, t: State)
    requires t.sent == s.sent && t.messageQueue == s.messageQueue
    ensures Ledger(t) == Ledger(s)
  {
  }

  lemma DisconnectLedger(s: State)
    ensures Ledger(Send(s.(status := Disconnecting), [MetaDisconnect], false)) == Ledger(s)
  {
    hide Send, AppOf;
    SentMeta(s.(status := Disconnecting), MetaDisconnect, false);
    SendKeepsQueue(s.(status := Disconnecting), MetaDisconnect);
  }

  lemma SendKeepsQueue(s: State, c: Channel)
    ensures Send(s, [c], false).messageQueue == s.messageQueue
  {
  }

  lemma LedgerStep(config: Config, s: State, e: Event)
    requires Waiting(s)
    ensures var t := Apply(config, s, e).s;
      && multiset(Ledger(t)) <= multiset(Ledger(s)) + multiset(Taken(s, e))
      && (!Ends(config, s, e) ==> multiset(Ledger(t)) == multiset(Ledger(s)) + multiset(Taken(s, e)))
      && (!Ends(config, s, e) ==> (Ledger(t) == Ledger(s) + Taken(s, e) <==> !Overtakes(s, e)))
  {
    hide Apply, AppOf, Ends;
    if e.Replied? || e.Failed? {
      AnswerLedger(config, s, e);
      var t := Apply(config, s, e).s;
      assert Ledger(s) + [] == Ledger(s);
      if Ledger(t) != Ledger(s) {
        var sent := AppOf(t.sent);
        assert Ledger(t) == sent && Ledger(s) == sent + Ledger(s)[|sent|..];
      }
    } else {
      CallLedger(config, s, e);
    }
  }

  /** From any sound state on: what was accepted is sent once, in order, or waits behind that, until the
    * session ends, when what still waits is dropped. A message sent unchecked may come out of order while
    * the session is off, but is not lost either; and nothing is ever doubled or made up. */
  lemma NothingLost(config: Config, s: State, es: seq<Event>)
    requires Sound(s)
    ensures Sound(Run(config, s, es))
    ensures multiset(Ledger(Run(config, s, es))) <= multiset(Ledger(s) + Accepted(config, s, es))
    ensures (forall i :: 0 <= i < |es| ==> !Ends(config, Run(config, s, es[..i]), es[i])) ==>
      multiset(Ledger(Run(config, s, es))) == multiset(Ledger(s) + Accepted(config, s, es))
    ensures
      (forall i :: 0 <= i < |es| ==>
        !Ends(config, Run(config, s, es[..i]), es[i]) && !Overtakes(Run(config, s, es[..i]), es[i])) ==>
      Ledger(Run(config, s, es)) == Ledger(s) + Accepted(config, s, es)
  {
    hide Ledger, Ends, Overtakes, Accepted, Run, Sound;
    NothingLostSoFar(config, s, es, |es|);
    assert es[..|es|] == es;
  }

  /** How the order is lost: a message waits in a batch, the session is ended, the batch is closed, and another
    * message is sent unchecked. */
  lemma SentOutOfOrder(config: Config, s: State, a: AppChannel, b: AppChannel)
    requires Waiting(s) && !s.IsDisconnected() && s.batch == 0 && !s.internalBatch && a != b
    ensures
      var waiting := Apply(config, Apply(config, s, StartBatch).s, Post(a)).s;
      var t := Apply(config, Apply(config, waiting, AppDisconnect).s, CloseBatch).s;
      && Ledger(t) == Ledger(s) + [a] && Overtakes(t, RawSend(b))
      && Ledger(Apply(config, t, RawSend(b)).s) == Ledger(s) + [b, a]
  {
    hide AppOf, Send;
    LeftWaiting(config, s, a);
    var u := s.(batch := 1, messageQueue := [a], status := Disconnecting);
    var t := Send(u, [MetaDisconnect], false).(batch := 0);
    assert t.messageQueue == [a] && a in t.messageQueue;
    SentMeta(u, MetaDisconnect, false);
    SentApp(t, [b]);
    hide Apply;
    assert AppOf(s.sent) + [b] + [a] == AppOf(s.sent) + [] + [b, a];
  }

  lemma LeftWaiting(config: Config, s: State, a: AppChannel)
    requires Waiting(s) && !s.IsDisconnected() && s.batch == 0 && !s.internalBatch
    ensures
      var waiting := Apply(config, Apply(config, s, StartBatch).s, Post(a)).s;
      Apply(config, Apply(config, waiting, AppDisconnect).s, CloseBatch).s
      == Send(s.(batch := 1, messageQueue := [a], status := Disconnecting), [MetaDisconnect], false).(batch := 0)
  {
    hide Send;
    assert s.messageQueue + [a] == [a];
  }

  /** None of the first n events ends the session. */
  ghost predicate GoesOn(config: Config, s: State, es: seq<Event>, n: nat)
    requires n <= |es|
  {
    forall i :: 0 <= i < n ==> !Ends(config, Run(config, s, es[..i]), es[i])
  }

  ghost predicate KeepsOrder(config: Config, s: State, es: seq<Event>, n: nat)
    requires n <= |es|
  {
    forall i :: 0 <= i < n ==> !Overtakes(Run(config, s, es[..i]), es[i])
  }

  lemma {:induction false} NothingLostSoFar(config: Config, s: State, es: seq<Event>, n: nat)
    requires Sound(s) && n <= |es|
    ensures
      var t, a := Run(config, s, es[..n]), Ledger(s) + Accepted(config, s, es[..n]);
      && Sound(t)
      && multiset(Ledger(t)) <= multiset(a)
      && (GoesOn(config, s, es, n) ==> multiset(Ledger(t)) == multiset(a))
      && (GoesOn(config, s, es, n) && KeepsOrder(config, s, es, n) ==> Ledger(t) == a)
  {
    hide Apply, AppOf, Ends, Ledger, Sound, Taken, Overtakes, Run, Accepted;
    if n == 0 {
      NothingYet(config, s);
      assert es[..0] == [];
    } else {
      NothingLostSoFar(config, s, es, n - 1);
      RunGrows(config, s, es, n - 1);
      AcceptedGrows(config, s, es, n - 1);
      var t, e := Run(config, s, es[..n - 1]), es[n - 1];
      ApplyKeepsSound(config, t, e);
      SoundWaits(t);
      LedgerStep(config, t, e);
      var a, b := Accepted(config, s, es[..n - 1]), Taken(t, e);
      assert Ledger(s) + (a + b) == Ledger(s) + a + b;
    }
  }

  lemma NothingYet(config: Config, s: State)
    ensures Run(config, s, []) == s && Ledger(s) + Accepted(config, s, []) == Ledger(s)
  {
  }

  lemma AcceptedGrows(config: Config, s: State, es: seq<Event>, n: nat)
    requires n < |es|
    ensures Accepted(config, s, es[..n + 1]) == Accepted(config, s, es[..n]) + Taken(Run(config, s, es[..n]), es[n])
  {
    hide Taken, Run;
    assert es[..n + 1][..n] == es[..n];
  }

  lemma SoundWaits(s: State)
    requires Sound(s)
    ensures Waiting(s)
  {
  }

  /** While a batch is open, the internal one included, the application's calls put nothing on the wire; once
    * no batch is open and the session is on, nothing waits. */
  lemma HeldInBatch(config: Config, s: State, e: Event)
    requires Waiting(s) && (IsCall(e) || e.RawSend?)
    ensures var t := Apply(config, s, e).s;
      && (t.batch > 0 || t.internalBatch ==> t.sent == s.sent)
      && (t.batch <= 0 && !t.internalBatch && !t.IsDisconnected() ==> t.messageQueue == [])
      && t.batch == s.batch + (if e.StartBatch? then 1 else if e.CloseBatch? then -1 else 0)
      && t.internalBatch == s.internalBatch
  {
    hide Send;
    CallWaits(config, s, e);
  }

  // ---------- the session never forks and never stalls ----------

  function Count(sent: seq<Sent>, c: Channel): nat {
    if sent == [] then 0 else Count(sent[..|sent| - 1], c) + if sent[|sent| - 1].channel == c then 1 else 0
  }

  /** The session with the handshakes and connects that are on the wire and not answered yet. */
  datatype Live = Live(s: State, handshakes: int, connects: int, stalled: bool)

  /** Armed delayed send, handshakes in flight, connects in flight. */
  ghost function Tokens(l: Live): int {
    (if l.s.scheduledSend == Off then 0 else 1) + l.handshakes + l.connects
  }

  /** One reply or failure for each message: only what is in flight is answered, and the application does
    * not start a second handshake. */
  ghost predicate Possible(l: Live, e: Event) {
    match e
    case AppHandshake => false
    case Replied(r) => (r.channel == MetaHandshake ==> l.handshakes > 0)
        && (r.channel == MetaConnect ==> l.connects > 0)
    case Failed(on) => (on == MetaHandshake ==> l.handshakes > 0) && (on == MetaConnect ==> l.connects > 0)
    case _ => true
  }

  function Answers(e: Event, c: Channel): int {
    if (e.Replied? && e.r.channel == c) || (e.Failed? && e.on == c) then 1 else 0
  }

  function Next(config: Config, l: Live, e: Event): Live {
    var r := Apply(config, l.s, e);
    Live(
      r.s,
      l.handshakes - Answers(e, MetaHandshake) + Count(r.s.sent, MetaHandshake) - Count(l.s.sent, MetaHandshake),
      l.connects - Answers(e, MetaConnect) + Count(r.s.sent, MetaConnect) - Count(l.s.sent, MetaConnect),
      l.stalled || (r.threw && Answers(e, MetaHandshake) + Answers(e, MetaConnect) > 0))
  }

  /** The session an application starts with its one handshake. */
  function Started(config: Config): Live {
    var s := Apply(config, INITIAL, AppHandshake).s;
    Live(s, Count(s.sent, MetaHandshake), Count(s.sent, MetaConnect), false)
  }

  ghost predicate AllPossible(config: Config, es: seq<Event>) {
    if es == [] then true
    else AllPossible(config, es[..|es| - 1]) && Possible(Follow(config, es[..|es| - 1]), es[|es| - 1])
  }

  function Follow(config: Config, es: seq<Event>): Live {
    if es == [] then Started(config) else Next(config, Follow(config, es[..|es| - 1]), es[|es| - 1])
  }

  lemma {:induction false} CountMore(a: seq<Sent>, b: seq<Sent>, c: Channel)
    ensures Count(a + b, c) == Count(a, c) + Count(b, c)
  {
    if b == [] {
      assert a + b == a;
    } else {
      assert (a + b)[..|a + b| - 1] == a + b[..|b| - 1];
      CountMore(a, b[..|b| - 1], c);
    }
  }

  lemma {:induction false} NoMetaAmong(s: State, cs: seq<AppChannel>, c: Channel)
    requires c == MetaHandshake || c == MetaConnect || c == MetaDisconnect
    ensures Count(Send(s, cs, false).sent, c) == Count(s.sent, c)
  {
    CountMore(s.sent, Number(s, cs, false), c);
    NoMetaIn(Number(s, cs, false), c);
  }

  lemma {:induction false} NoMetaIn(sent: seq<Sent>, c: Channel)
    requires forall i :: 0 <= i < |sent| ==> sent[i].channel != c
    ensures Count(sent, c) == 0
  {
    if sent != [] { NoMetaIn(sent[..|sent| - 1], c); }
  }

  lemma OneSent(s: State, d: Channel, longpoll: bool, c: Channel)
    ensures Count(Send(s, [d], longpoll).sent, c) == Count(s.sent, c) + if d == c then 1 else 0
  {
    var n := Number(s, [d], longpoll);
    CountMore(s.sent, n, c);
    assert Count(n[..0], c) == 0;
  }

  /** Handshakes leave only when the application or the timer says so, connects only with the timer, and a
    * disconnect only when the application ends a session that is on. */
  lemma MetaSends(config: Config, s: State, e: Event)
    ensures
      var t := Apply(config, s, e).s;
      && Count(t.sent, MetaHandshake) - Count(s.sent, MetaHandshake)
         == (if e.AppHandshake? || (e.Fire? && s.scheduledSend == ThenHandshake) then 1 else 0)
      && Count(t.sent, MetaConnect) - Count(s.sent, MetaConnect)
         == (if e.Fire? && s.scheduledSend == ThenConnect && !s.IsDisconnected() then 1 else 0)
      && Count(t.sent, MetaDisconnect) - Count(s.sent, MetaDisconnect)
         == (if e.AppDisconnect? && !s.IsDisconnected() then 1 else 0)
  {
    hide Send, Count, Receive, HandshakeNow;
    match e {
      case AppHandshake => HandshakeSends(config, s.(status := Disconnected, reestablish := false));
      case Fire => FireSends(config, s);
      case Replied(r) => ReplySends(config, s, r);
      case Failed(_) =>
      case _ => CallSends(config, s, e);
    }
  }

  lemma CallSends(config: Config, s: State, e: Event)
    requires e.AppDisconnect? || e.Post? || e.RawSend? || e.StartBatch? || e.CloseBatch?
    ensures
      var t := Apply(config, s, e).s;
      && Count(t.sent, MetaHandshake) == Count(s.sent, MetaHandshake)
      && Count(t.sent, MetaConnect) == Count(s.sent, MetaConnect)
      && Count(t.sent, MetaDisconnect) - Count(s.sent, MetaDisconnect)
         == (if e.AppDisconnect? && !s.IsDisconnected() then 1 else 0)
  {
    hide Send, Count;
    if e.AppDisconnect? {
      OneSent(s.(status := Disconnecting), MetaDisconnect, false, MetaHandshake);
      OneSent(s.(status := Disconnecting), MetaDisconnect, false, MetaConnect);
      OneSent(s.(status := Disconnecting), MetaDisconnect, false, MetaDisconnect);
    } else if e.Post? || e.RawSend? {
      OneSent(s, e.c, false, MetaHandshake);
      OneSent(s, e.c, false, MetaConnect);
      OneSent(s, e.c, false, MetaDisconnect);
    } else if e.CloseBatch? {
      FlushSends(s.(batch := s.batch - 1));
    }
  }

  lemma FireSends(config: Config, s: State)
    ensures
      var t := Apply(config, s, Fire).s;
      && Count(t.sent, MetaHandshake) - Count(s.sent, MetaHandshake)
          == (if s.scheduledSend == ThenHandshake then 1 else 0)
      && Count(t.sent, MetaConnect) - Count(s.sent, MetaConnect)
         == (if s.scheduledSend == ThenConnect && !s.IsDisconnected() then 1 else 0)
      && Count(t.sent, MetaDisconnect) == Count(s.sent, MetaDisconnect)
  {
    hide Send, Count, HandshakeNow;
    HandshakeSends(config, s.(scheduledSend := Off));
    var s1 := s.(scheduledSend := Off, status := Connecting);
    OneSent(s1, MetaConnect, true, MetaHandshake);
    OneSent(s1, MetaConnect, true, MetaConnect);
    OneSent(s1, MetaConnect, true, MetaDisconnect);
  }

  lemma ReplySends(config: Config, s: State, r: Reply)
    ensures
      var t := Receive(config, s, r).s;
      && Count(t.sent, MetaHandshake) == Count(s.sent, MetaHandshake)
      && Count(t.sent, MetaConnect) == Count(s.sent, MetaConnect)
      && Count(t.sent, MetaDisconnect) == Count(s.sent, MetaDisconnect)
  {
    hide Count, HandshakeResponse, ConnectResponse;
    HandshakeReplySends(config, UpdateAdvice(config, s, r.advice), r);
    ConnectReplySends(config, UpdateAdvice(config, s, r.advice), r);
  }

  lemma HandshakeReplySends(config: Config, s: State, r: Reply)
    ensures
      var t := HandshakeResponse(config, s, r).s;
      && Count(t.sent, MetaHandshake) == Count(s.sent, MetaHandshake)
      && Count(t.sent, MetaConnect) == Count(s.sent, MetaConnect)
      && Count(t.sent, MetaDisconnect) == Count(s.sent, MetaDisconnect)
  {
    hide Send, Count, FlushBatch;
    FlushSends(s.(clientId := r.clientId, internalBatch := false));
  }

  lemma ConnectReplySends(config: Config, s: State, r: Reply)
    ensures ConnectResponse(config, s, r).s.sent == s.sent
  {
  }

  lemma HandshakeSends(config: Config, s: State)
    ensures var t := HandshakeNow(config, s);
      && Count(t.sent, MetaHandshake) == Count(s.sent, MetaHandshake) + 1
      && Count(t.sent, MetaConnect) == Count(s.sent, MetaConnect)
      && Count(t.sent, MetaDisconnect) == Count(s.sent, MetaDisconnect)
  {
    hide Send, Count;
    var advice := if s.IsDisconnected() then config.advice else s.advice.(reconnect := Retry);
    var s1 := s.(clientId := None, advice := advice, batch := 0, internalBatch := true, status := Handshaking);
    OneSent(s1, MetaHandshake, false, MetaHandshake);
    OneSent(s1, MetaHandshake, false, MetaConnect);
    OneSent(s1, MetaHandshake, false, MetaDisconnect);
  }

  lemma FlushSends(s: State)
    ensures var t := FlushBatch(s);
      && Count(t.sent, MetaHandshake) == Count(s.sent, MetaHandshake)
      && Count(t.sent, MetaConnect) == Count(s.sent, MetaConnect)
      && Count(t.sent, MetaDisconnect) == Count(s.sent, MetaDisconnect)
  {
    NoMetaAmong(s.(messageQueue := []), s.messageQueue, MetaHandshake);
    NoMetaAmong(s.(messageQueue := []), s.messageQueue, MetaConnect);
    NoMetaAmong(s.(messageQueue := []), s.messageQueue, MetaDisconnect);
  }

  /** What answering a handshake or connect does to the timer: an exception leaves it and the status alone,
    * otherwise the next step is armed, or the session is over. */
  ghost predicate Answered(s: State, r: Result) {
    if r.threw then r.s.scheduledSend == s.scheduledSend && r.s.status == s.status
    else if r.s.scheduledSend == Off then r.s.status == Disconnected
    else !r.s.IsDisconnected()
  }

  lemma HandshakeEffect(config: Config, s: State, r: Reply)
    ensures Answered(s, HandshakeResponse(config, s, r)) && Answered(s, Fine(FailHandshake(config, s)))
  {
    hide Send;
  }

  lemma ConnectEffect(config: Config, s: State, r: Reply)
    ensures Answered(s, ConnectResponse(config, s, r)) && Answered(s, FailConnect(config, s))
  {
  }

  lemma AnswerEffect(config: Config, s: State, e: Event)
    requires Answers(e, MetaHandshake) + Answers(e, MetaConnect) > 0
    ensures Answered(s, Apply(config, s, e))
  {
    hide HandshakeResponse, ConnectResponse, FailHandshake, FailConnect;
    var none := Reply(MetaConnect, false, None, false, None);
    if e.Replied? {
      HandshakeEffect(config, UpdateAdvice(config, s, e.r.advice), e.r);
      ConnectEffect(config, UpdateAdvice(config, s, e.r.advice), e.r);
    } else {
      HandshakeEffect(config, s, none);
      ConnectEffect(config, s.(connected := false), none);
    }
  }

  /** All other events leave timer and status alone, except that the timer goes off when it fires, that
    * disconnecting and handshaking change the status, and that a reply to a disconnect ends the session. */
  lemma OtherEffect(config: Config, s: State, e: Event)
    requires Answers(e, MetaHandshake) + Answers(e, MetaConnect) == 0
    ensures
      var t := Apply(config, s, e).s;
      && (Answers(e, MetaDisconnect) > 0 ==> t.scheduledSend == Off && t.status == Disconnected)
      && (e.Fire? ==> t.scheduledSend == Off)
      && (e.Fire? && s.scheduledSend != Off ==>
            t.status == if s.scheduledSend == ThenHandshake then Handshaking
                        else if s.IsDisconnected() then s.status else Connected)
      && (e.Fire? && s.scheduledSend == Off ==> t == s)
      && (e.AppDisconnect? ==> t.scheduledSend == s.scheduledSend)
      && (e.AppDisconnect? ==> t.status == s.status || t.status == Disconnecting)
      && (e.AppHandshake? ==> t.scheduledSend == s.scheduledSend && t.status == Handshaking)
      && (Answers(e, MetaDisconnect) == 0 && !e.Fire? && !e.AppDisconnect? && !e.AppHandshake? ==>
            t.scheduledSend == s.scheduledSend && t.status == s.status)
  {
    hide Send;
  }

  ghost predicate Orderly(l: Live) {
    && l.handshakes >= 0 && l.connects >= 0 && Tokens(l) <= 1
    && (l.s.scheduledSend != Off ==> l.s.status != Disconnected)
  }

  lemma NextIsOrderly(config: Config, l: Live, e: Event)
    requires Orderly(l) && Possible(l, e)
    ensures Orderly(Next(config, l, e))
  {
    hide Count, Apply;
    MetaSends(config, l.s, e);
    if Answers(e, MetaHandshake) + Answers(e, MetaConnect) > 0 {
      AnswerEffect(config, l.s, e);
    } else {
      OtherEffect(config, l.s, e);
    }
  }

  lemma StartIsOrderly(config: Config)
    ensures Orderly(Started(config)) && Tokens(Started(config)) == 1
    ensures Started(config).s.status == Handshaking
  {
    hide Count, Apply;
    MetaSends(config, INITIAL, AppHandshake);
    OtherEffect(config, INITIAL, AppHandshake);
    NoMetaIn(INITIAL.sent, MetaHandshake);
    NoMetaIn(INITIAL.sent, MetaConnect);
  }

  /** In every run, disconnect() included: at most one of armed delayed send, handshake in flight and
    * connect in flight. So a connect is never sent while another one is outstanding, which is what the
    * transport answers with "Concurrent metaConnect requests not allowed". */
  lemma {:induction false} NeverForks(config: Config, es: seq<Event>)
    requires AllPossible(config, es)
    ensures Orderly(Follow(config, es))
    ensures Follow(config, es).s.scheduledSend == ThenConnect ==> Follow(config, es).connects == 0
  {
    if es == [] {
      StartIsOrderly(config);
    } else {
      NeverForks(config, es[..|es| - 1]);
      NextIsOrderly(config, Follow(config, es[..|es| - 1]), es[|es| - 1]);
    }
  }

  /** disconnect() was not called, and nothing was received for it. */
  ghost predicate StaysOn(e: Event) {
    !e.AppDisconnect? && Answers(e, MetaDisconnect) == 0
  }

  /** Going on: exactly one token, or the session is over. */
  ghost predicate Alive(l: Live) {
    l.s.status == Disconnected || Tokens(l) == 1
  }

  /** The replies the handlers have no action for. */
  ghost predicate Unhandled(config: Config, s: State, e: Event) {
    match e
    case Replied(r) =>
      var reconnect := UpdateAdvice(config, s, r.advice).advice.reconnect;
      if r.channel == MetaHandshake then
        r.successful && (!r.negotiable || (!s.IsDisconnected() && (reconnect == Handshake || reconnect == Other)))
      else if r.channel == MetaConnect then
        !s.IsDisconnected() && (reconnect == Other || (r.successful && reconnect == Handshake))
      else false
    case Failed(on) => on == MetaConnect && !s.IsDisconnected() && s.advice.reconnect == Other
    case _ => false
  }

  lemma ThrowsExactlyIfUnhandled(config: Config, s: State, e: Event)
    requires Answers(e, MetaHandshake) + Answers(e, MetaConnect) > 0
    ensures Apply(config, s, e).threw <==> Unhandled(config, s, e)
  {
  }

  ghost predicate Steady(l: Live) {
    && Orderly(l) && l.s.status != Disconnecting
    && (l.stalled ==> Tokens(l) == 0 && l.s.status != Disconnected)
    && (!l.stalled ==> Alive(l))
  }

  lemma NextIsSteady(config: Config, l: Live, e: Event)
    requires Steady(l) && Possible(l, e) && StaysOn(e)
    requires l.s.status == Disconnected ==> Tokens(l) == 0
    ensures Steady(Next(config, l, e))
    ensures Next(config, l, e).s.status == Disconnected ==> Tokens(Next(config, l, e)) == 0
  {
    hide Count, Apply;
    MetaSends(config, l.s, e);
    if Answers(e, MetaHandshake) + Answers(e, MetaConnect) > 0 {
      AnswerEffect(config, l.s, e);
    } else {
      OtherEffect(config, l.s, e);
    }
  }

  /** No reply or failure of a handshake or connect was one the handlers have no action for. */
  ghost predicate AllHandled(config: Config, es: seq<Event>) {
    forall i :: 0 <= i < |es| ==> !Fatal(config, Follow(config, es[..i]).s, es[i])
  }

  ghost predicate Fatal(config: Config, s: State, e: Event) {
    Answers(e, MetaHandshake) + Answers(e, MetaConnect) > 0 && Unhandled(config, s, e)
  }

  lemma StalledUnlessHandled(config: Config, es: seq<Event>)
    ensures Follow(config, es).stalled <==> !AllHandled(config, es)
  {
    StalledSoFar(config, es, |es|);
    assert es[..|es|] == es;
  }

  lemma {:induction false} StalledSoFar(config: Config, es: seq<Event>, n: nat)
    requires n <= |es|
    ensures
      !Follow(config, es[..n]).stalled <==> forall i :: 0 <= i < n ==> !Fatal(config, Follow(config, es[..i]).s, es[i])
  {
    hide Follow, Next, Fatal;
    if n == 0 {
      StartsUnstalled(config);
      assert es[..0] == [];
    } else {
      StalledSoFar(config, es, n - 1);
      FollowGrows(config, es, n - 1);
      StallsIfFatal(config, Follow(config, es[..n - 1]), es[n - 1]);
    }
  }

  lemma StartsUnstalled(config: Config)
    ensures !Follow(config, []).stalled
  {
  }

  lemma FollowGrows(config: Config, es: seq<Event>, n: nat)
    requires n < |es|
    ensures Follow(config, es[..n + 1]) == Next(config, Follow(config, es[..n]), es[n])
  {
    hide Next;
    assert es[..n + 1][..n] == es[..n];
  }

  lemma StallsIfFatal(config: Config, l: Live, e: Event)
    ensures Next(config, l, e).stalled <==> l.stalled || Fatal(config, l.s, e)
  {
    hide Apply, Unhandled, Count;
    if Answers(e, MetaHandshake) + Answers(e, MetaConnect) > 0 { ThrowsExactlyIfUnhandled(config, l.s, e); }
  }

  /** Without disconnect(): exactly one token until the session is over, in exactly those runs in which every
    * handshake and connect was answered with something the handlers have an action for. */
  lemma AliveExactlyIfHandled(config: Config, es: seq<Event>)
    requires AllPossible(config, es) && forall i :: 0 <= i < |es| ==> StaysOn(es[i])
    ensures var l := Follow(config, es);
      && Orderly(l) && (Alive(l) <==> AllHandled(config, es))
      && (l.s.status == Disconnected ==> Tokens(l) == 0)
  {
    RunIsSteady(config, es);
    StalledUnlessHandled(config, es);
  }

  lemma {:induction false} RunIsSteady(config: Config, es: seq<Event>)
    requires AllPossible(config, es) && forall i :: 0 <= i < |es| ==> StaysOn(es[i])
    ensures var l := Follow(config, es);
      Steady(l) && (l.s.status == Disconnected ==> Tokens(l) == 0)
  {
    if es == [] {
      StartIsOrderly(config);
    } else {
      RunIsSteady(config, es[..|es| - 1]);
      NextIsSteady(config, Follow(config, es[..|es| - 1]), es[|es| - 1]);
    }
  }

  // ---------- when disconnect() is the end ----------

  /** After disconnect() the session stays off, whatever happens but another handshake() of the application,
    * if and only if no delayed handshake was armed when it was called. */
  lemma DisconnectEnds(config: Config, s: State)
    requires !s.IsDisconnected()
    ensures
      var t := Apply(config, s, AppDisconnect).s;
      (forall es :: AppHandshake !in es ==> Run(config, t, es).IsDisconnected()) <==> s.scheduledSend != ThenHandshake
  {
    hide Apply;
    DisconnectOff(config, s);
    var t := Apply(config, s, AppDisconnect).s;
    if s.scheduledSend != ThenHandshake {
      forall es | AppHandshake !in es ensures Run(config, t, es).IsDisconnected() {
        StaysOff(config, t, es);
      }
    } else {
      FiresAgain(config, t);
      assert [Fire][..|[Fire]| - 1] == [] && AppHandshake !in [Fire];
      assert Run(config, t, [Fire]) == Apply(config, t, Fire).s;
    }
  }

  lemma DisconnectOff(config: Config, s: State)
    ensures var t := Apply(config, s, AppDisconnect).s; t.IsDisconnected() && t.scheduledSend == s.scheduledSend
  {
  }

  lemma FiresAgain(config: Config, s: State)
    requires s.scheduledSend == ThenHandshake
    ensures !Apply(config, s, Fire).s.IsDisconnected()
  {
  }

  lemma {:induction false} StaysOff(config: Config, s: State, es: seq<Event>)
    requires s.IsDisconnected() && s.scheduledSend != ThenHandshake && AppHandshake !in es
    ensures var t := Run(config, s, es); t.IsDisconnected() && t.scheduledSend != ThenHandshake
  {
    if es != [] {
      var before := es[..|es| - 1];
      assert forall e :: e in before ==> e in es;
      StaysOff(config, s, before);
      OffStep(config, Run(config, s, before), es[|es| - 1]);
    }
  }

  lemma OffStep(config: Config, s: State, e: Event)
    requires s.IsDisconnected() && s.scheduledSend != ThenHandshake && e != AppHandshake
    ensures var t := Apply(config, s, e).s; t.IsDisconnected() && t.scheduledSend != ThenHandshake
  {
    hide Send, HandshakeResponse, ConnectResponse, FailHandshake, FailConnect;
    match e {
      case Replied(r) => ReplyOff(config, UpdateAdvice(config, s, r.advice), r);
      case Failed(_) => ReplyOff(config, s, Reply(MetaConnect, false, None, false, None));
      case _ =>
    }
  }

  lemma ReplyOff(config: Config, s: State, r: Reply)
    requires s.IsDisconnected() && s.scheduledSend != ThenHandshake
    ensures
      forall t :: t in {HandshakeResponse(config, s, r).s, ConnectResponse(config, s, r).s,
                        FailHandshake(config, s), FailConnect(config, s.(connected := false)).s} ==>
        t.IsDisconnected() && t.scheduledSend != ThenHandshake
  {
    hide Send;
  }

  // ---------- what the handlers arm and set ----------

  /** The operation that is armed once a handshake or connect was answered, by the advice in force. */
  ghost function NextOperation(reconnect: Reconnect, ofHandshake: bool, successful: bool): Timer {
    if reconnect == Never then Off
    else if successful then ThenConnect
    else if ofHandshake || reconnect == Handshake then ThenHandshake
    else ThenConnect
  }

  /** What a handler leaves: after disconnect() the session is over; otherwise the advice decides what is armed,
    * the status says so, and the backoff starts again or grows up to its maximum. */
  ghost predicate Arms(config: Config, s: State, t: State, ofHandshake: bool, successful: bool) {
    var reconnect := s.advice.reconnect;
    && t.scheduledSend == (if s.IsDisconnected() then Off else NextOperation(reconnect, ofHandshake, successful))
    && t.status == (match t.scheduledSend
                    case Off => Disconnected case ThenConnect => Connecting case ThenHandshake => Handshaking)
    && (t.scheduledSend == ThenHandshake ==> t.internalBatch)
    && (successful || t.scheduledSend == Off ==> t.backoff == 0)
    && (!successful && t.scheduledSend != Off ==>
          t.backoff == if !ofHandshake && reconnect == Handshake then 0
                       else if s.backoff < config.maxBackoff then s.backoff + config.backoffIncrement
                       else s.backoff)
  }

  lemma HandshakeArms(config: Config, s: State, r: Reply)
    ensures
      var u := HandshakeResponse(config, s, r);
      !u.threw ==> Arms(config, s, u.s, true, r.successful)
    ensures Arms(config, s, FailHandshake(config, s), true, false)
  {
    hide Send;
  }

  lemma ConnectArms(config: Config, s: State, r: Reply)
    ensures
      var u := ConnectResponse(config, s, r);
      !u.threw ==> Arms(config, s, u.s, false, r.successful)
  {
  }

  lemma FailureArms(config: Config, s: State)
    ensures
      var u := FailConnect(config, s.(connected := false));
      !u.threw ==> Arms(config, s, u.s, false, false)
  {
  }

  /** Every answer the handlers have an action for does this, under the advice it brings. */
  lemma AnswerArms(config: Config, s: State, e: Event)
    requires Answers(e, MetaHandshake) + Answers(e, MetaConnect) > 0 && !Apply(config, s, e).threw
    ensures
      var s1 := if e.Replied? then UpdateAdvice(config, s, e.r.advice) else s;
      Arms(config, s1, Apply(config, s, e).s, Answers(e, MetaHandshake) > 0, e.Replied? && e.r.successful)
  {
    hide Arms, HandshakeResponse, ConnectResponse, FailHandshake, FailConnect;
    if e.Replied? {
      var s1 := UpdateAdvice(config, s, e.r.advice);
      HandshakeArms(config, s1, e.r);
      ConnectArms(config, s1, e.r);
    } else {
      HandshakeArms(config, s, Reply(MetaConnect, false, None, false, None));
      FailureArms(config, s);
    }
  }

  /** The end of a session forgets the client id, what was armed and all batches. */
  lemma EndForgets(config: Config, s: State, e: Event)
    requires Answers(e, MetaDisconnect) > 0
    ensures var t := Apply(config, s, e).s;
      && t.status == Disconnected && t.clientId == None && t.scheduledSend == Off
      && t.batch == 0 && t.backoff == 0 && t.messageQueue == []
  {
  }

  /** Each part of an advice wins over the configuration, which fills in what is missing; without an advice
    * the one before stays. */
  lemma AdviceTaken(config: Config, s: State, r: Reply)
    ensures
      var a := Apply(config, s, Replied(r)).s.advice;
      if r.advice.None? then a == s.advice
      else
        var n := r.advice.value;
        && (n.reconnect.Some? ==> a.reconnect == n.reconnect.value)
        && (n.interval.Some? ==> a.interval == n.interval.value)
        && (n.timeout.Some? ==> a.timeout == n.timeout.value)
        && (n.reconnect.None? ==> a.reconnect == config.advice.reconnect)
        && (n.interval.None? ==> a.interval == config.advice.interval)
        && (n.timeout.None? ==> a.timeout == config.advice.timeout)
  {
    hide HandshakeResponse, ConnectResponse;
    HandlersKeepAdvice(config, UpdateAdvice(config, s, r.advice), r);
  }

  lemma HandlersKeepAdvice(config: Config, s: State, r: Reply)
    ensures HandshakeResponse(config, s, r).s.advice == s.advice
    ensures ConnectResponse(config, s, r).s.advice == s.advice
  {
    hide Send;
  }

  /** A handshake that is tried again while the session is on is never stalled by the advice that led to it:
    * a successful reply without an advice of its own connects. */
  lemma RehandshakeConnects(config: Config, s: State, r: Reply)
    requires s.scheduledSend == ThenHandshake && !s.IsDisconnected()
    requires r.channel == MetaHandshake && r.successful && r.negotiable && r.advice.None?
    ensures
      var t := Apply(config, s, Fire).s;
      var u := Apply(config, t, Replied(r));
      && t.advice.interval == s.advice.interval && t.advice.timeout == s.advice.timeout
      && !u.threw && u.s.scheduledSend == ThenConnect
  {
    hide Send;
  }

  /** A handshake from a session that is off starts with the configured advice. */
  lemma FreshAdvice(config: Config, s: State, e: Event)
    requires e.AppHandshake? || (e.Fire? && s.scheduledSend == ThenHandshake && s.IsDisconnected())
    ensures Apply(config, s, e).s.advice == config.advice
  {
    hide Send;
  }

  /** A handshake starts over: no client id, no batch but the internal one, and one message, without an id. */
  lemma HandshakeStartsOver(config: Config, s: State, e: Event)
    requires e.AppHandshake? || (e.Fire? && s.scheduledSend == ThenHandshake)
    ensures var t := Apply(config, s, e).s;
      && t.status == Handshaking && t.clientId == None && t.batch == 0 && t.internalBatch
      && t.messageQueue == s.messageQueue
      && t.sent == s.sent + [Sent(MetaHandshake, s.messageId + 1, None, false)]
      && (e.AppHandshake? ==> !t.reestablish)
  {
    OneHandshake(s);
    OneHandshake(s.(status := Disconnected, reestablish := false));
    OneHandshake(s.(scheduledSend := Off));
  }

  lemma OneHandshake(s: State)
    ensures
      forall status, advice ::
        var s1 := s.(clientId := None, advice := advice, batch := 0, internalBatch := true, status := status);
        Number(s1, [MetaHandshake], false) == [Sent(MetaHandshake, s.messageId + 1, None, false)]
  {
    forall status, advice
      ensures
        var s1 := s.(clientId := None, advice := advice, batch := 0, internalBatch := true, status := status);
        Number(s1, [MetaHandshake], false) == [Sent(MetaHandshake, s.messageId + 1, None, false)]
    {
      var s1 := s.(clientId := None, advice := advice, batch := 0, internalBatch := true, status := status);
      assert Number(s1, [MetaHandshake], false)[0]
          == Sent(MetaHandshake, s.messageId + 1, Attached(s1.clientId), false);
    }
  }

  /** `reestablish`: whether a handshake succeeded since the application called handshake(). */
  lemma ReestablishTells(config: Config, s: State, e: Event)
    ensures
      var succeeds := e.Replied? && e.r.channel == MetaHandshake && e.r.successful && e.r.negotiable;
      Apply(config, s, e).s.reestablish == (if succeeds then true else !e.AppHandshake? && s.reestablish)
  {
    hide Send, HandshakeResponse, ConnectResponse;
    if e.Replied? { ReestablishedByReply(config, UpdateAdvice(config, s, e.r.advice), e.r); }
  }

  lemma ReestablishedByReply(config: Config, s: State, r: Reply)
    ensures HandshakeResponse(config, s, r).s.reestablish == (s.reestablish || (r.successful && r.negotiable))
    ensures ConnectResponse(config, s, r).s.reestablish == s.reestablish
  {
    hide Send;
  }

  /** Only connects are sent as long polls, in every run. */
  ghost predicate PollsAreConnects(s: State) {
    forall i :: 0 <= i < |s.sent| ==> (s.sent[i].longpoll <==> s.sent[i].channel == MetaConnect)
  }

  lemma SendPolls(s: State, cs: seq<Channel>, longpoll: bool)
    requires PollsAreConnects(s) && forall c :: c in cs ==> (longpoll <==> c == MetaConnect)
    ensures PollsAreConnects(Send(s, cs, longpoll))
  {
    var t, n := Send(s, cs, longpoll), Number(s, cs, longpoll);
    forall i | 0 <= i < |t.sent| ensures t.sent[i].longpoll <==> t.sent[i].channel == MetaConnect {
      if i < |s.sent| {
        assert t.sent[i] == s.sent[i];
      } else {
        assert t.sent[i] == n[i - |s.sent|] && cs[i - |s.sent|] in cs;
      }
    }
  }

  lemma ApplyPolls(config: Config, s: State, e: Event)
    requires PollsAreConnects(s)
    ensures PollsAreConnects(Apply(config, s, e).s)
  {
    hide Send, PollsAreConnects, HandshakeResponse, ConnectResponse, UpdateAdvice, HandshakeNow;
    match e {
      case AppHandshake =>
        SamePolls(s, s.(status := Disconnected, reestablish := false));
        HandshakePolls(config, s.(status := Disconnected, reestablish := false));
      case AppDisconnect =>
        SamePolls(s, s.(status := Disconnecting));
        SendPolls(s.(status := Disconnecting), [MetaDisconnect], false);
      case Post(c) =>
        SamePolls(s, s.(messageQueue := s.messageQueue + [c]));
        SendPolls(s, [c], false);
      case RawSend(c) =>
        SamePolls(s, s.(messageQueue := s.messageQueue + [c]));
        SendPolls(s, [c], false);
      case StartBatch => SamePolls(s, Apply(config, s, e).s);
      case CloseBatch => FlushPolls(s, s.(batch := s.batch - 1));
      case Fire =>
        var s1 := s.(scheduledSend := Off);
        SamePolls(s, s1);
        HandshakePolls(config, s1);
        SamePolls(s, s1.(status := Connecting));
        SendPolls(s1.(status := Connecting), [MetaConnect], true);
        SamePolls(Send(s1.(status := Connecting), [MetaConnect], true), Connect(s1));
      case Replied(r) => ReplyPolls(config, s, r);
      case Failed(on) => SamePolls(s, Fail(config, s, on).s);
    }
  }

  lemma SamePolls(s: State, t: State)
    requires PollsAreConnects(s)
    ensures t.sent == s.sent ==> PollsAreConnects(t)
  {
  }

  lemma HandshakePolls(config: Config, s: State)
    requires PollsAreConnects(s)
    ensures PollsAreConnects(HandshakeNow(config, s))
  {
    hide Send;
    var advice := if s.IsDisconnected() then config.advice else s.advice.(reconnect := Retry);
    SendPolls(s.(clientId := None, advice := advice, batch := 0, internalBatch := true, status := Handshaking),
      [MetaHandshake], false);
  }

  lemma FlushPolls(s: State, s1: State)
    requires PollsAreConnects(s) && s1.sent == s.sent
    ensures PollsAreConnects(s1) && PollsAreConnects(FlushBatch(s1))
  {
    hide Send;
    SendPolls(s1.(messageQueue := []), s1.messageQueue, false);
  }

  lemma ReplyPolls(config: Config, s: State, r: Reply)
    requires PollsAreConnects(s)
    ensures PollsAreConnects(Receive(config, s, r).s)
  {
    hide Send, FlushBatch, PollsAreConnects;
    var s1 := UpdateAdvice(config, s, r.advice);
    SamePolls(s, s1);
    SamePolls(s1, ConnectResponse(config, s1, r).s);
    SamePolls(s1, FailHandshake(config, s1));
    var s2 := s1.(clientId := r.clientId, internalBatch := false);
    FlushPolls(s1, s2);
    SamePolls(s1, s1.(clientId := r.clientId));
    SamePolls(FlushBatch(s2), HandshakeResponse(config, s1, r).s);
    SamePolls(s1, Receive(config, s, r).s);
  }

  lemma {:induction false} AlwaysPolls(config: Config, es: seq<Event>)
    ensures PollsAreConnects(Run(config, INITIAL, es))
  {
    if es != [] {
      AlwaysPolls(config, es[..|es| - 1]);
      ApplyPolls(config, Run(config, INITIAL, es[..|es| - 1]), es[|es| - 1]);
    }
  }

  /** `connected` is whether the last answer to a connect was a successful reply. */
  lemma ConnectedIsLastAnswer(config: Config, s: State, e: Event)
    ensures
      Apply(config, s, e).s.connected
      == if Answers(e, MetaConnect) > 0 then e.Replied? && e.r.successful else s.connected
  {
    hide Send, HandshakeResponse, ConnectResponse;
    if e.Replied? {
      ConnectedByReply(config, UpdateAdvice(config, s, e.r.advice), e.r);
    }
  }

  lemma ConnectedByReply(config: Config, s: State, r: Reply)
    ensures HandshakeResponse(config, s, r).s.connected == s.connected
    ensures ConnectResponse(config, s, r).s.connected == r.successful
  {
    hide Send;
  }

  // ---------- several replies in one response ----------

  /** The replies of one response in order; an exception in one loses those after it. */
  function ReceiveAll(config: Config, s: State, rs: seq<Reply>): Result
    decreases |rs|
  {
    if rs == [] then Fine(s)
    else
      var first := Receive(config, s, rs[0]);
      if first.threw then first else ReceiveAll(config, first.s, rs[1..])
  }

  function FailAll(config: Config, s: State, cs: seq<Channel>): Result
    decreases |cs|
  {
    if cs == [] then Fine(s)
    else
      var first := Fail(config, s, cs[0]);
      if first.threw then first else FailAll(config, first.s, cs[1..])
  }

  /** Runs one after the other are one run. */
  lemma {:induction false} RunAppend(config: Config, s: State, a: seq<Event>, b: seq<Event>)
    ensures Run(config, s, a + b) == Run(config, Run(config, s, a), b)
  {
    if b == [] {
      assert a + b == a;
    } else {
      assert (a + b)[..|a + b| - 1] == a + b[..|b| - 1];
      RunAppend(config, s, a, b[..|b| - 1]);
    }
  }

  /** The live session is the run that starts with the application's handshake. */
  lemma {:induction false} FollowIsRun(config: Config, es: seq<Event>)
    ensures Follow(config, es).s == Run(config, INITIAL, [AppHandshake] + es)
  {
    var all := [AppHandshake] + es;
    if es == [] {
      assert all[..0] == [];
    } else {
      assert all[..|all| - 1] == [AppHandshake] + es[..|es| - 1];
      FollowIsRun(config, es[..|es| - 1]);
    }
  }

  /** A response is a run of single replies, up to the first that throws. */
  lemma {:induction false} ResponseIsRun(config: Config, s: State, rs: seq<Reply>) returns (es: seq<Event>)
    ensures |es| <= |rs| && forall i :: 0 <= i < |es| ==> es[i] == Replied(rs[i])
    ensures Run(config, s, es) == ReceiveAll(config, s, rs).s
    ensures |es| < |rs| ==> ReceiveAll(config, s, rs).threw
    decreases |rs|
  {
    hide Receive;
    es := [];
    if rs != [] {
      var first := Receive(config, s, rs[0]);
      var rest: seq<Event> := [];
      if !first.threw {
        rest := ResponseIsRun(config, first.s, rs[1..]);
      }
      es := [Replied(rs[0])] + rest;
      OneThenRest(config, s, Replied(rs[0]), rest);
    }
  }

  /** So is the failure of a request with several messages. */
  lemma {:induction false} FailureIsRun(config: Config, s: State, cs: seq<Channel>) returns (es: seq<Event>)
    ensures |es| <= |cs| && forall i :: 0 <= i < |es| ==> es[i] == Failed(cs[i])
    ensures Run(config, s, es) == FailAll(config, s, cs).s
    ensures |es| < |cs| ==> FailAll(config, s, cs).threw
    decreases |cs|
  {
    hide Fail;
    es := [];
    if cs != [] {
      var first := Fail(config, s, cs[0]);
      var rest: seq<Event> := [];
      if !first.threw {
        rest := FailureIsRun(config, first.s, cs[1..]);
      }
      es := [Failed(cs[0])] + rest;
      OneThenRest(config, s, Failed(cs[0]), rest);
    }
  }

  lemma OneThenRest(config: Config, s: State, e: Event, rest: seq<Event>)
    ensures Run(config, s, [e] + rest) == Run(config, Apply(config, s, e).s, rest)
  {
    RunAppend(config, s, [e], rest);
    assert [e][..|[e]| - 1] == [];
    assert Run(config, s, []) == s;
  }
}
