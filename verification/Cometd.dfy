/** The Bayeux client object: its handlers update its fields as the session's state machine says. */
module Cometd {
  import opened Views
  import opened Session

  class Client {
    const config: Config
    var status: Status
    var messageId: nat
    var clientId: Option<string>
    var batch: int
    var messageQueue: seq<AppChannel>
    var internalBatch: bool
    var backoff: int
    var scheduledSend: Timer
    var advice: Advice
    var reestablish: bool
    var connected: bool
    var sent: seq<Sent>

    ghost function Model(): State
      reads this
    {
      State(status, messageId, clientId, batch, messageQueue, internalBatch, backoff, scheduledSend, advice,
            reestablish, connected, sent)
    }

    /** Message ids count up, and no message is forgotten in the queue. */
    ghost predicate Valid()
      reads this
    {
      Sound(Model())
    }

    constructor (config: Config)
      ensures Valid() && Identified(Model()) && Model() == INITIAL && this.config == config
    {
      this.config := config;
      status, messageId, clientId, batch, messageQueue := Disconnected, 0, None, 0, [];
      internalBatch, backoff, scheduledSend, advice := false, 0, Off, Advice(Other, 0, 0);
      reestablish, connected, sent := false, false, [];
    }

    predicate IsDisconnected()
      reads this
    {
      status == Disconnecting || status == Disconnected
    }

    method SendAll(messages: seq<Channel>, longpoll: bool)
      modifies this
      ensures Model() == Send(old(Model()), messages, longpoll)
    {
      ghost var before := Model();
      SendNothing(before, longpoll);
      hide Send, Number;
      for i := 0 to |messages|
        invariant Model() == Send(before, messages[..i], longpoll)
      {
        ghost var state := Model();
        SendOneMore(before, messages, i, longpoll);
        messageId := messageId + 1;
        var id: Option<string> := None;
        if Truthy(clientId) {
          id := clientId;
        }
        sent := sent + [Sent(messages[i], messageId, id, longpoll)];
      }
      assert messages[..|messages|] == messages;
    }

    method QueueSend(message: AppChannel)
      modifies this
      ensures Model() == Session.QueueSend(old(Model()), message)
    {
      if batch > 0 || internalBatch {
        messageQueue := messageQueue + [message];
      } else {
        SendAll([message], false);
      }
    }

    method FlushBatch()
      modifies this
      ensures Model() == Session.FlushBatch(old(Model()))
    {
      var messages := messageQueue;
      messageQueue := [];
      if |messages| > 0 {
        SendAll(messages, false);
      } else {
        assert sent + Number(Model(), [], false) == sent;
      }
    }

    /** Whatever the end of a batch sends carries the client id. */
    method EndBatch() returns (threw: bool)
      requires Valid()
      modifies this
      ensures Valid() && Result(Model(), threw) == Session.EndBatch(old(Model()))
      ensures old(Identified(Model())) ==> Identified(Model()) && AllCarry(old(Model()), Model())
      ensures threw <==> old(batch) <= 0
      ensures Ledger(Model()) == Ledger(old(Model()))
      ensures batch > 0 || internalBatch ==> sent == old(sent)
      ensures batch == 0 && !internalBatch && !IsDisconnected() ==> messageQueue == []
    {
      KeepsValid(CloseBatch);
      KeepsLedger(CloseBatch);
      batch := batch - 1;
      if batch < 0 {
        return true;
      }
      if batch == 0 && !IsDisconnected() && !internalBatch {
        FlushBatch();
      }
      threw := false;
    }

    method Connect()
      modifies this
      ensures Model() == Session.Connect(old(Model()))
    {
      if !IsDisconnected() {
        status := Connecting;
        SendAll([MetaConnect], true);
        status := Connected;
      }
    }

    method DelayedConnect()
      modifies this
      ensures Model() == Session.DelayedConnect(old(Model()))
    {
      status := Connecting;
      scheduledSend := ThenConnect;
    }

    method UpdateAdvice(newAdvice: Option<NewAdvice>)
      modifies this
      ensures Model() == Session.UpdateAdvice(config, old(Model()), newAdvice)
    {
      if newAdvice.Some? {
        advice := Mixed(config, newAdvice.value);
      }
    }

    method EndSession()
      modifies this
      ensures Model() == Session.Disconnect(old(Model()))
    {
      scheduledSend := Off;
      clientId := None;
      status := Disconnected;
      batch := 0;
      backoff := 0;
      messageQueue := [];
    }

    method SendHandshake()
      modifies this
      ensures Model() == HandshakeNow(config, old(Model()))
    {
      clientId := None;
      if IsDisconnected() {
        advice := config.advice;
      } else {
        advice := advice.(reconnect := Retry);
      }
      batch := 0;
      internalBatch := true;
      status := Handshaking;
      SendAll([MetaHandshake], false);
    }

    method DelayedHandshake()
      modifies this
      ensures Model() == Session.DelayedHandshake(old(Model()))
    {
      status := Handshaking;
      internalBatch := true;
      scheduledSend := ThenHandshake;
    }

    method IncreaseBackoff()
      modifies this
      ensures Model() == Session.IncreaseBackoff(config, old(Model()))
    {
      if backoff < config.maxBackoff {
        backoff := backoff + config.backoffIncrement;
      }
    }

    method FailHandshake()
      modifies this
      ensures Model() == Session.FailHandshake(config, old(Model()))
    {
      var retry := !IsDisconnected() && advice.reconnect != Never;
      if retry {
        IncreaseBackoff();
        DelayedHandshake();
      } else {
        EndSession();
      }
    }

    method HandshakeResponse(r: Reply) returns (threw: bool)
      modifies this
      ensures Result(Model(), threw) == Session.HandshakeResponse(config, old(Model()), r)
    {
      if !r.successful {
        FailHandshake();
        return false;
      }
      clientId := r.clientId;
      if !r.negotiable {
        return true;
      }
      internalBatch := false;
      FlushBatch();
      reestablish := true;
      var action := if IsDisconnected() then Never else advice.reconnect;
      match action {
        case Retry =>
          backoff := 0;
          DelayedConnect();
          threw := false;
        case Never =>
          EndSession();
          threw := false;
        case _ =>
          threw := true;
      }
    }

    method FailConnect() returns (threw: bool)
      modifies this
      ensures Result(Model(), threw) == Session.FailConnect(config, old(Model()))
    {
      var action := if IsDisconnected() then Never else advice.reconnect;
      threw := false;
      match action {
        case Retry =>
          DelayedConnect();
          IncreaseBackoff();
        case Handshake =>
          backoff := 0;
          DelayedHandshake();
        case Never =>
          EndSession();
        case Other =>
          threw := true;
      }
    }

    method ConnectResponse(r: Reply) returns (threw: bool)
      modifies this
      ensures Result(Model(), threw) == Session.ConnectResponse(config, old(Model()), r)
    {
      connected := r.successful;
      if !connected {
        threw := FailConnect();
        return;
      }
      var action := if IsDisconnected() then Never else advice.reconnect;
      match action {
        case Retry =>
          backoff := 0;
          DelayedConnect();
          threw := false;
        case Never =>
          EndSession();
          threw := false;
        case _ =>
          threw := true;
      }
    }

    /** The client id stays known, unless the reply is an anonymous one. */
    method Receive(r: Reply) returns (threw: bool)
      requires Valid()
      modifies this
      ensures Valid() && Result(Model(), threw) == Session.Receive(config, old(Model()), r)
      ensures old(Identified(Model())) ==> (Identified(Model()) <==> !Anonymous(config, old(Model()), Replied(r)))
    {
      hide Sound, Identified, Anonymous, Session.UpdateAdvice;
      KeepsValid(Replied(r));
      hide Session.HandshakeResponse, Session.ConnectResponse;
      UpdateAdvice(r.advice);
      threw := false;
      match r.channel {
        case MetaHandshake => threw := HandshakeResponse(r);
        case MetaConnect => threw := ConnectResponse(r);
        case MetaDisconnect => EndSession();
        case _ =>
      }
    }

    method Fail(c: Channel) returns (threw: bool)
      requires Valid()
      modifies this
      ensures Valid() && Result(Model(), threw) == Session.Fail(config, old(Model()), c)
      ensures old(Identified(Model())) ==> Identified(Model())
    {
      hide Sound, Identified;
      KeepsValid(Failed(c));
      threw := false;
      match c {
        case MetaHandshake => FailHandshake();
        case MetaConnect =>
          connected := false;
          threw := FailConnect();
        case MetaDisconnect => EndSession();
        case _ =>
      }
    }

    method HandleMessages(rs: seq<Reply>) returns (threw: bool)
      requires Valid()
      modifies this
      ensures Valid() && Result(Model(), threw) == ReceiveAll(config, old(Model()), rs)
      ensures old(Identified(Model())) && (forall r :: r in rs && r.successful ==> Truthy(r.clientId)) ==>
          Identified(Model())
    {
      hide Session.Receive, Sound, Identified;
      ghost var all := ReceiveAll(config, Model(), rs);
      threw := false;
      for i := 0 to |rs|
        invariant Valid() && ReceiveAll(config, Model(), rs[i..]) == all
        invariant old(Identified(Model())) && (forall r :: r in rs && r.successful ==> Truthy(r.clientId)) ==>
            Identified(Model())
      {
        assert rs[i..][1..] == rs[i + 1..];
        threw := Receive(rs[i]);
        if threw {
          return;
        }
      }
      threw := false;
    }

    method HandleFailure(cs: seq<Channel>) returns (threw: bool)
      requires Valid()
      modifies this
      ensures Valid() && Result(Model(), threw) == FailAll(config, old(Model()), cs)
      ensures old(Identified(Model())) ==> Identified(Model())
    {
      hide Session.Fail, Sound, Identified;
      ghost var all := FailAll(config, Model(), cs);
      threw := false;
      for i := 0 to |cs|
        invariant Valid() && FailAll(config, Model(), cs[i..]) == all
        invariant old(Identified(Model())) ==> Identified(Model())
      {
        assert cs[i..][1..] == cs[i + 1..];
        threw := Fail(cs[i]);
        if threw {
          return;
        }
      }
      threw := false;
    }

    /** The application calls handshake(). */
    method AppHandshakes()
      requires Valid()
      modifies this
      ensures Valid() && Identified(Model())
      ensures Fine(Model()) == Apply(config, old(Model()), AppHandshake)
    {
      KeepsValid(AppHandshake);
      status := Disconnected;
      reestablish := false;
      SendHandshake();
    }

    /** The application calls disconnect(): from then on nothing it publishes leaves. */
    method AppDisconnects()
      requires Valid()
      modifies this
      ensures Valid() && Identified(Model()) && IsDisconnected()
      ensures Fine(Model()) == Apply(config, old(Model()), AppDisconnect)
    {
      KeepsValid(AppDisconnect);
      if IsDisconnected() {
        return;
      }
      status := Disconnecting;
      SendAll([MetaDisconnect], false);
    }

    /** publish(), subscribe() and unsubscribe(), once they decide to send: refused exactly while
      * disconnected, and what leaves carries the client id. */
    method AppPosts(c: AppChannel) returns (threw: bool)
      requires Valid()
      modifies this
      ensures Valid() && Result(Model(), threw) == Apply(config, old(Model()), Post(c))
      ensures threw <==> old(IsDisconnected())
      ensures Ledger(Model()) == Ledger(old(Model())) + if threw then [] else [c]
      ensures batch > 0 || internalBatch ==> sent == old(sent)
      ensures old(Identified(Model())) ==> Identified(Model()) && AllCarry(old(Model()), Model())
    {
      KeepsValid(Post(c));
      KeepsLedger(Post(c));
      if IsDisconnected() {
        return true;
      }
      QueueSend(c);
      threw := false;
    }

    method AppStartsBatch()
      requires Valid()
      modifies this
      ensures Valid() && (old(Identified(Model())) ==> Identified(Model()))
      ensures batch == old(batch) + 1 && sent == old(sent) && messageQueue == old(messageQueue)
      ensures Fine(Model()) == Apply(config, old(Model()), StartBatch)
    {
      KeepsValid(StartBatch);
      batch := batch + 1;
    }

    /** The armed delayed operation runs. */
    method TimerFires()
      requires Valid() && scheduledSend != Off
      modifies this
      ensures Valid() && (old(Identified(Model())) ==> Identified(Model()))
      ensures Fine(Model()) == Apply(config, old(Model()), Fire)
    {
      KeepsValid(Fire);
      var operation := scheduledSend;
      scheduledSend := Off;
      if operation == ThenHandshake {
        SendHandshake();
      } else {
        Connect();
      }
    }

    lemma KeepsLedger(e: Event)
      requires Valid() && IsCall(e)
      ensures
        var s, t := Model(), Apply(config, Model(), e).s;
        && Ledger(t) == Ledger(s) + Taken(s, e)
        && (t.batch > 0 || t.internalBatch ==> t.sent == s.sent)
        && (t.batch <= 0 && !t.internalBatch && !t.IsDisconnected() ==> t.messageQueue == [])
    {
      hide Apply, Ledger;
      CallLedger(config, Model(), e);
      HeldInBatch(config, Model(), e);
    }

    lemma KeepsValid(e: Event)
      requires Valid()
      ensures
        var s, t := Model(), Apply(config, Model(), e).s;
        && Sound(t)
        && (Identified(s) ==> (Identified(t) <==> !Anonymous(config, s, e)))
        && (Identified(s) && IsCall(e) ==> AllCarry(s, t))
    {
      hide Sound, Identified, Anonymous, Apply;
      ApplyKeepsSound(config, Model(), e);
      if Identified(Model()) {
        ApplyIdentifies(config, Model(), e);
        if IsCall(e) { CallCarries(config, Model(), e); }
      }
    }
  }
}
