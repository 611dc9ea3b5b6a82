/** The request transport as a state machine: a bounded number of requests in flight, a queue behind them,
  * coalescing after a success and a cascade of failures after a failure. */
module Transport {
  import opened Views

  datatype Request = Request(id: nat, metaConnect: bool)

  /** The number eid names the envelope; the transport itself does not look at it. */
  datatype Envelope = Envelope(eid: nat, url: string, sync: bool, messages: seq<string>)

  /** An envelope with the request made for it: on the wire, in the queue, or in a failure timer. */
  datatype Pending = Pending(envelope: Envelope, request: Request)

  /** An exchange the browser carries out, and the `expired` flag of its request. */
  datatype Flight = Flight(p: Pending, expired: bool)

  datatype Callback = Callback(eid: nat, success: bool)

  /** A message on the wire, and where and how it went. */
  datatype Wired = Wired(message: string, url: string, sync: bool)

  function Addressed(e: Envelope): (r: seq<Wired>)
    ensures |r| == |e.messages|
  {
    seq(|e.messages|, i requires 0 <= i < |e.messages| => Wired(e.messages[i], e.url, e.sync))
  }

  /** `maxConnections - 1` and `autoBatch`. */
  datatype Config = Config(slots: nat, autoBatch: bool)

  /** The fields of the transport (`requestIds` to `envelopes`), the closures the browser holds for it
    * (exchanges on the wire, failure timers), and what has happened so far. */
  datatype State = State(
    requestIds: nat, metaConnectRequest: Option<Request>, requests: seq<Request>, envelopes: seq<Pending>,
    flights: seq<Flight>, cascades: seq<Pending>,
    wire: seq<Wired>, merged: seq<nat>, called: seq<Callback>)

  const INITIAL := State(0, None, [], [], [], [], [], [], [])

  function RemoveAt<T>(s: seq<T>, k: nat): (r: seq<T>)
    requires k < |s|
    ensures |r| == |s| - 1
  {
    s[..k] + s[k + 1..]
  }

  /** `splice` at `inArray`: the request leaves if it is there. */
  function Without(rs: seq<Request>, r: Request): seq<Request> {
    if rs == [] then []
    else if rs[0] == r then rs[1..]
    else [rs[0]] + Without(rs[1..], r)
  }

  /** Queued envelopes to the same place are appended while they stand at the head of the queue. */
  function Coalesce(queue: seq<Pending>, e: Envelope): (r: (Envelope, seq<Pending>, seq<nat>))
    ensures r.0.eid == e.eid && r.0.url == e.url && r.0.sync == e.sync
  {
    if queue != [] && queue[0].envelope.url == e.url && queue[0].envelope.sync == e.sync then
      var (e1, rest, ids) := Coalesce(queue[1..], e.(messages := e.messages + queue[0].envelope.messages));
      (e1, rest, [queue[0].envelope.eid] + ids)
    else
      (e, queue, [])
  }

  function Lapsed(fs: seq<Flight>, k: nat): seq<Flight>
    requires k < |fs|
  {
    fs[k := fs[k].(expired := true)]
  }

  /** The exchanges that have not expired. */
  function Live(fs: seq<Flight>): seq<Pending> {
    if fs == [] then []
    else if fs[|fs| - 1].expired then Live(fs[..|fs| - 1])
    else Live(fs[..|fs| - 1]) + [fs[|fs| - 1].p]
  }

  function Transmit(s: State, e: Envelope, r: Request): State {
    s.(flights := s.flights + [Flight(Pending(e, r), false)],
        wire := if r.metaConnect then s.wire else s.wire + Addressed(e))
  }

  function QueueSend(c: Config, s: State, e: Envelope): State {
    var r := Request(s.requestIds + 1, false);
    var s1 := s.(requestIds := s.requestIds + 1);
    if |s.requests| < c.slots then Transmit(s1.(requests := s.requests + [r]), e, r)
    else s1.(envelopes := s.envelopes + [Pending(e, r)])
  }

  /** `_complete`: after a success the next envelope is sent, after a failure it is failed by a timer. */
  function Complete(c: Config, s: State, r: Request, success: bool): State {
    var s1 := s.(requests := Without(s.requests, r));
    if s1.envelopes == [] then s1
    else
      var next, rest := s1.envelopes[0], s1.envelopes[1..];
      if !success then s1.(envelopes := rest, cascades := s1.cascades + [next])
      else if !c.autoBatch then QueueSend(c, s1.(envelopes := rest), next.envelope)
      else
        var (e, rest1, ids) := Coalesce(rest, next.envelope);
        QueueSend(c, s1.(envelopes := rest1, merged := s1.merged + ids), e)
  }

  /** The state after a call, and whether it threw. */
  datatype Result = Result(s: State, threw: bool)

  function CompleteAny(c: Config, s: State, r: Request, success: bool): Result {
    if !r.metaConnect then Result(Complete(c, s, r, success), false)
    else if s.metaConnectRequest.Some? && s.metaConnectRequest.value.id != r.id then Result(s, true)
    else Result(s.(metaConnectRequest := None), false)
  }

  function Call(s: State, e: Envelope, success: bool): State {
    s.(called := s.called + [Callback(e.eid, success)])
  }

  /** An envelope given to the transport; an answer to, or a failure of, the k-th exchange of the browser,
    * which may come after the exchange expired; its timeout; the k-th failure timer going off. */
  datatype Event =
    | Send(e: Envelope, metaConnect: bool)
    | Success(k: nat) | Failure(k: nat) | Expire(k: nat) | Cascade(k: nat)

  ghost predicate Possible(s: State, ev: Event) {
    match ev
    case Send(_, _) => true
    case Success(k) => k < |s.flights|
    case Failure(k) => k < |s.flights|
    case Expire(k) => k < |s.flights| && !s.flights[k].expired && !s.flights[k].p.envelope.sync
    case Cascade(k) => k < |s.cascades|
  }

  /** The k-th exchange is completed and its envelope called back; `left` is what the browser goes on with. */
  function Settle(c: Config, s: State, k: nat, success: bool, left: seq<Flight>): Result
    requires k < |s.flights|
  {
    var p := s.flights[k].p;
    var r := CompleteAny(c, s.(flights := left), p.request, success);
    if r.threw then r else Result(Call(r.s, p.envelope, success), false)
  }

  /** `transportSuccess` and `transportFailure`: only what has not expired is completed and called back. */
  function Ended(c: Config, s: State, k: nat, success: bool): Result
    requires k < |s.flights|
  {
    var left := RemoveAt(s.flights, k);
    if !s.flights[k].expired then Settle(c, s, k, success, left) else Result(s.(flights := left), false)
  }

  function Apply(c: Config, s: State, ev: Event): Result
    requires Possible(s, ev)
  {
    match ev
    case Send(e, metaConnect) =>
      if !metaConnect then Result(QueueSend(c, s, e), false)
      else if s.metaConnectRequest.Some? then Result(s, true)
      else
        var r := Request(s.requestIds + 1, true);
        Result(Transmit(s.(requestIds := s.requestIds + 1), e, r).(metaConnectRequest := Some(r)), false)
    case Success(k) => Ended(c, s, k, true)
    case Failure(k) => Ended(c, s, k, false)
    case Expire(k) => Settle(c, s, k, false, Lapsed(s.flights, k))
    case Cascade(k) =>
      var p := s.cascades[k];
      var r := CompleteAny(c, s.(cascades := RemoveAt(s.cascades, k)), p.request, false);
      if r.threw then r else Result(Call(r.s, p.envelope, false), false)
  }

  // ---------- what every step keeps ----------

  function Tracked(flights: seq<Pending>): seq<Request> {
    if flights == [] then []
    else if flights[0].request.metaConnect then Tracked(flights[1..])
    else [flights[0].request] + Tracked(flights[1..])
  }

  function Metas(flights: seq<Pending>): seq<Request> {
    if flights == [] then []
    else if flights[0].request.metaConnect then [flights[0].request] + Metas(flights[1..])
    else Metas(flights[1..])
  }

  /** An exchange that ends or expires leaves the live ones; one that ends after it expired does not. */
  lemma {:induction false} LiveWithout(fs: seq<Flight>, k: nat) returns (j: nat)
    requires k < |fs|
    ensures fs[k].expired ==> Live(RemoveAt(fs, k)) == Live(fs)
    ensures !fs[k].expired ==>
      && j < |Live(fs)| && Live(fs)[j] == fs[k].p
      && Live(RemoveAt(fs, k)) == Live(Lapsed(fs, k)) == RemoveAt(Live(fs), j)
    decreases |fs|
  {
    var n := |fs| - 1;
    var front, last := fs[..n], fs[n];
    hide Live, RemoveAt, Lapsed;
    assert front + [last] == fs;
    LiveMore(front, last);
    RemoveAtMore(front, last, k);
    LapsedMore(front, last, k);
    if k == n {
      j := |Live(front)|;
      LiveMore(front, last.(expired := true));
      if !last.expired { RemoveAtMore(Live(front), last.p, j); }
    } else {
      j := LiveWithout(front, k);
      LiveMore(RemoveAt(front, k), last);
      LiveMore(Lapsed(front, k), last);
      if !fs[k].expired && !last.expired { RemoveAtMore(Live(front), last.p, j); }
    }
  }

  lemma RemoveAtMore<T>(s: seq<T>, x: T, k: nat)
    requires k <= |s|
    ensures RemoveAt(s + [x], k) == if k == |s| then s else RemoveAt(s, k) + [x]
  {
  }

  lemma LapsedMore(fs: seq<Flight>, f: Flight, k: nat)
    requires k <= |fs|
    ensures Lapsed(fs + [f], k) == if k == |fs| then fs + [f.(expired := true)] else Lapsed(fs, k) + [f]
  {
  }

  lemma LiveMore(fs: seq<Flight>, f: Flight)
    ensures Live(fs + [f]) == Live(fs) + if f.expired then [] else [f.p]
  {
    assert (fs + [f])[..|fs|] == fs;
  }

  lemma LiveAppend(fs: seq<Flight>, p: Pending)
    ensures Live(fs + [Flight(p, false)]) == Live(fs) + [p]
  {
    assert (fs + [Flight(p, false)])[..|fs|] == fs;
  }

  /** Request ids: distinct on the wire, and queued or failing envelopes have requests of their own. */
  ghost predicate Numbered(s: State) {
    var live := Live(s.flights);
    && (forall i :: 0 <= i < |live| ==> live[i].request.id <= s.requestIds)
    && (forall i, j :: 0 <= i < j < |live| ==> live[i].request.id != live[j].request.id)
    && Apart(s.requestIds, live, s.envelopes) && Apart(s.requestIds, live, s.cascades)
  }

  ghost predicate Apart(ids: nat, live: seq<Pending>, ps: seq<Pending>) {
    forall i :: 0 <= i < |ps| ==>
      && !ps[i].request.metaConnect && ps[i].request.id <= ids
      && forall j :: 0 <= j < |live| ==> live[j].request.id != ps[i].request.id
  }

  /** The metaConnect request is that of the one long poll on the wire. */
  ghost predicate Polling(s: State) {
    Metas(Live(s.flights)) == if s.metaConnectRequest.None? then [] else [s.metaConnectRequest.value]
  }

  /** What expired was called back when it did. */
  ghost predicate Notified(s: State) {
    forall f :: f in s.flights && f.expired ==> Callback(f.p.envelope.eid, false) in s.called
  }

  /** The tracked requests are those of the ordinary exchanges on the wire; at most `slots` are tracked; and
    * a queue forms only behind full slots or while a failure timer is pending. */
  ghost predicate Inv(c: Config, s: State) {
    && Numbered(s) && Polling(s)
    && s.requests == Tracked(Live(s.flights))
    && |s.requests| <= c.slots
    && (s.envelopes != [] ==> |s.requests| == c.slots || s.cascades != [])
  }

  lemma {:induction false} TrackedAppend(fs: seq<Pending>, p: Pending)
    ensures Tracked(fs + [p]) == Tracked(fs) + (if p.request.metaConnect then [] else [p.request])
    ensures Metas(fs + [p]) == Metas(fs) + (if p.request.metaConnect then [p.request] else [])
  {
    if fs != [] {
      assert (fs + [p])[1..] == fs[1..] + [p];
      TrackedAppend(fs[1..], p);
    }
  }

  lemma {:induction false} NotTracked(fs: seq<Pending>, r: Request)
    requires forall i :: 0 <= i < |fs| ==> fs[i].request.id != r.id
    ensures Without(Tracked(fs), r) == Tracked(fs)
  {
    if fs != [] { NotTracked(fs[1..], r); }
  }

  lemma {:induction false} MetaFound(fs: seq<Pending>, k: nat)
    requires k < |fs| && fs[k].request.metaConnect
    ensures fs[k].request in Metas(fs)
  {
    if k > 0 { MetaFound(fs[1..], k - 1); }
  }

  /** Taking one exchange off the wire takes exactly its request out of the books. */
  lemma {:induction false} TrackedRemove(fs: seq<Pending>, k: nat)
    requires k < |fs| && forall i, j :: 0 <= i < j < |fs| ==> fs[i].request.id != fs[j].request.id
    ensures
      var r, gs := fs[k].request, RemoveAt(fs, k);
      if r.metaConnect then Tracked(gs) == Tracked(fs) && |Metas(gs)| == |Metas(fs)| - 1
      else Tracked(gs) == Without(Tracked(fs), r) && |Tracked(gs)| == |Tracked(fs)| - 1 && Metas(gs) == Metas(fs)
  {
    if k == 0 {
      assert RemoveAt(fs, 0) == fs[1..];
    } else {
      assert RemoveAt(fs, k) == [fs[0]] + RemoveAt(fs[1..], k - 1);
      TrackedRemove(fs[1..], k - 1);
    }
  }

  // ---------- steps keep the invariant ----------

  lemma QueueSendKeeps(c: Config, s: State, e: Envelope)
    requires Numbered(s) && Polling(s) && s.requests == Tracked(Live(s.flights)) && |s.requests| <= c.slots
    ensures var t := QueueSend(c, s, e);
      && Numbered(t) && Polling(t) && t.requests == Tracked(Live(t.flights)) && |t.requests| <= c.slots
      && (t.envelopes != s.envelopes ==> |t.requests| == c.slots)
      && (|s.requests| < c.slots ==> |t.requests| == |s.requests| + 1 && t.envelopes == s.envelopes)
      && t.cascades == s.cascades
  {
    hide Tracked, Metas, Live;
    var p := Pending(e, Request(s.requestIds + 1, false));
    LiveAppend(s.flights, p);
    TrackedAppend(Live(s.flights), p);
  }

  lemma FullQueueGrows(c: Config, s: State, e: Envelope)
    requires |s.requests| >= c.slots
    ensures |QueueSend(c, s, e).envelopes| == |s.envelopes| + 1
  {
  }

  lemma {:induction false} CoalesceKeeps(q: seq<Pending>, e: Envelope)
    ensures var (e1, rest, ids) := Coalesce(q, e);
      && |rest| <= |q| && rest == q[|q| - |rest|..]
  {
    if q != [] { CoalesceKeeps(q[1..], e.(messages := e.messages + q[0].envelope.messages)); }
  }

  lemma CompleteKeeps(c: Config, s: State, r: Request, success: bool)
    requires Numbered(s) && Polling(s)
    requires Without(s.requests, r) == Tracked(Live(s.flights)) && |Tracked(Live(s.flights))| <= c.slots
    requires s.envelopes != [] ==> !success || |Tracked(Live(s.flights))| + 1 == c.slots || s.cascades != []
    requires success ==> |Tracked(Live(s.flights))| < c.slots
    ensures Inv(c, Complete(c, s, r, success))
  {
    hide Tracked, Metas, QueueSend, Coalesce, Live;
    var s1 := s.(requests := Without(s.requests, r));
    if s1.envelopes != [] {
      var next, rest := s1.envelopes[0], s1.envelopes[1..];
      if success {
        CoalesceKeeps(rest, next.envelope);
        var (e, rest1, ids) := Coalesce(rest, next.envelope);
        QueueSendKeeps(c, s1.(envelopes := rest), next.envelope);
        QueueSendKeeps(c, s1.(envelopes := rest1, merged := s1.merged + ids), e);
      }
    }
  }

  /** The k-th exchange, the j-th live one, leaves the live ones. */
  ghost predicate Leaves(s: State, k: nat, j: nat, left: seq<Flight>) {
    && k < |s.flights| && j < |Live(s.flights)| && Live(s.flights)[j] == s.flights[k].p
    && Live(left) == RemoveAt(Live(s.flights), j)
  }

  lemma SettleKeeps(c: Config, s: State, k: nat, j: nat, success: bool, left: seq<Flight>)
    requires Inv(c, s) && Leaves(s, k, j, left)
    ensures var r := Settle(c, s, k, success, left); !r.threw && Inv(c, r.s)
  {
    hide Tracked, Metas, Complete, Without, RemoveAt, Live;
    var p, s1, live := s.flights[k].p, s.(flights := left), Live(s.flights);
    TrackedRemove(live, j);
    RemovedNumbered(s, j, s1);
    if p.request.metaConnect {
      MetaFound(live, j);
    } else {
      assert !Settle(c, s, k, success, left).threw;
      CompleteKeeps(c, s1, p.request, success);
      CallKeeps(c, Complete(c, s1, p.request, success), p.envelope, success);
    }
  }

  lemma CallKeeps(c: Config, s: State, e: Envelope, success: bool)
    requires Inv(c, s)
    ensures Inv(c, Call(s, e, success))
  {
  }

  lemma RemovedNumbered(s: State, j: nat, s1: State)
    requires Numbered(s) && j < |Live(s.flights)|
    requires s1 == s.(flights := s1.flights) && Live(s1.flights) == RemoveAt(Live(s.flights), j)
    ensures Numbered(s1)
  {
    hide Live;
  }

  lemma CascadeKeeps(c: Config, s: State, k: nat)
    requires Inv(c, s) && k < |s.cascades|
    ensures !Apply(c, s, Cascade(k)).threw && Inv(c, Apply(c, s, Cascade(k)).s)
  {
    hide Tracked, Metas, Complete, Without, Live;
    var p := s.cascades[k];
    var s1 := s.(cascades := RemoveAt(s.cascades, k));
    NotTracked(Live(s.flights), p.request);
    CompleteKeeps(c, s1, p.request, false);
    CallKeeps(c, Complete(c, s1, p.request, false), p.envelope, false);
  }

  /** Any step keeps the books, and the only exception is a long poll sent while one is outstanding. */
  lemma ApplyKeeps(c: Config, s: State, ev: Event)
    requires Inv(c, s) && Possible(s, ev)
    ensures Inv(c, Apply(c, s, ev).s)
    ensures Apply(c, s, ev).threw <==> ev.Send? && ev.metaConnect && s.metaConnectRequest.Some?
  {
    hide Settle, QueueSend, Tracked, Metas, Live;
    match ev {
      case Send(e, metaConnect) =>
        if metaConnect {
          var p := Pending(e, Request(s.requestIds + 1, true));
          LiveAppend(s.flights, p);
          TrackedAppend(Live(s.flights), p);
        } else {
          QueueSendKeeps(c, s, e);
          if |s.requests| == c.slots { FullQueueGrows(c, s, e); }
        }
      case Success(k) => EndedKeeps(c, s, k, true);
      case Failure(k) => EndedKeeps(c, s, k, false);
      case Expire(k) =>
        var j := LiveWithout(s.flights, k);
        SettleKeeps(c, s, k, j, false, Lapsed(s.flights, k));
      case Cascade(k) => CascadeKeeps(c, s, k);
    }
  }

  lemma EndedKeeps(c: Config, s: State, k: nat, success: bool)
    requires Inv(c, s) && k < |s.flights|
    ensures var r := Ended(c, s, k, success); !r.threw && Inv(c, r.s)
  {
    hide Settle, Tracked, Metas, Live;
    var j := LiveWithout(s.flights, k);
    if !s.flights[k].expired { SettleKeeps(c, s, k, j, success, RemoveAt(s.flights, k)); }
  }

  // ---------- answers after the timeout ----------

  lemma CompleteTransmits(c: Config, s: State, r: Request, success: bool)
    ensures var t := Complete(c, s, r, success);
      && t.called == s.called
      && (t.flights == s.flights || exists f: Flight :: !f.expired && t.flights == s.flights + [f])
  {
    hide Without, Coalesce;
  }

  lemma CompleteAnyCalls(c: Config, s: State, r: Request, success: bool)
    ensures CompleteAny(c, s, r, success).s.called == s.called
  {
    CompleteTransmits(c, s, r, success);
  }

  /** The exchange that expires is called back in the same step. */
  lemma NotifiedKeeps(c: Config, s: State, ev: Event)
    requires Inv(c, s) && Notified(s) && Possible(s, ev)
    ensures Notified(Apply(c, s, ev).s)
  {
    hide Complete, Inv, Notified, CompleteAny, RemoveAt, Lapsed;
    ApplyKeeps(c, s, ev);
    match ev {
      case Send(e, metaConnect) => SendNotifies(c, s, ev);
      case Cascade(k) =>
        var p := s.cascades[k];
        SettledNotified(c, s, s.(cascades := RemoveAt(s.cascades, k)), p.request, false, p.envelope);
      case Success(k) => EndedNotified(c, s, k, true);
      case Failure(k) => EndedNotified(c, s, k, false);
      case Expire(k) =>
        LeftNotified(s, k, Lapsed(s.flights, k), false);
        var p := s.flights[k].p;
        SettledNotified(c, s, s.(flights := Lapsed(s.flights, k)), p.request, false, p.envelope);
    }
  }

  lemma SendNotifies(c: Config, s: State, ev: Event)
    requires Notified(s) && ev.Send?
    ensures Notified(Apply(c, s, ev).s)
  {
  }

  /** Only what was expired before, or is called back now, is expired in what is left. */
  ghost predicate Accounted(s: State, left: seq<Flight>, eid: nat, success: bool) {
    forall f :: f in left && f.expired ==> f in s.flights || (!success && f.p.envelope.eid == eid)
  }

  lemma LeftNotified(s: State, k: nat, left: seq<Flight>, success: bool)
    requires k < |s.flights|
    requires left == RemoveAt(s.flights, k) || (!success && left == Lapsed(s.flights, k))
    ensures Accounted(s, left, s.flights[k].p.envelope.eid, success)
  {
  }

  lemma EndedNotified(c: Config, s: State, k: nat, success: bool)
    requires Notified(s) && k < |s.flights| && !Ended(c, s, k, success).threw
    ensures Notified(Ended(c, s, k, success).s)
  {
    hide CompleteAny, RemoveAt;
    var left := RemoveAt(s.flights, k);
    LeftNotified(s, k, left, success);
    if s.flights[k].expired {
      LateNotified(s, k);
    } else {
      SettledNotified(c, s, s.(flights := left), s.flights[k].p.request, success, s.flights[k].p.envelope);
    }
  }

  lemma LateNotified(s: State, k: nat)
    requires Notified(s) && k < |s.flights|
    ensures Notified(s.(flights := RemoveAt(s.flights, k)))
  {
  }

  lemma SettledNotified(c: Config, s: State, s1: State, r: Request, success: bool, e: Envelope)
    requires Notified(s) && s1.called == s.called && Accounted(s, s1.flights, e.eid, success)
    ensures Notified(Call(CompleteAny(c, s1, r, success).s, e, success))
  {
    hide Complete;
    CompleteTransmits(c, s1, r, success);
    var t := CompleteAny(c, s1, r, success).s;
    assert forall f :: f in t.flights && f.expired ==> f in s1.flights;
    assert forall x :: x in s.called ==> x in t.called + [Callback(e.eid, success)];
  }

  // ---------- every envelope is somewhere exactly once ----------

  function Eids(ps: seq<Pending>): multiset<nat> {
    if ps == [] then multiset{} else multiset{ps[0].envelope.eid} + Eids(ps[1..])
  }

  function CalledIds(cs: seq<Callback>): multiset<nat> {
    if cs == [] then multiset{} else CalledIds(cs[..|cs| - 1]) + multiset{cs[|cs| - 1].eid}
  }

  /** On the wire, queued, in a failure timer, merged into an earlier envelope, or called back. */
  function Owned(s: State): multiset<nat> {
    Eids(Live(s.flights)) + Eids(s.envelopes) + Eids(s.cascades) + multiset(s.merged) + CalledIds(s.called)
  }

  lemma {:induction false} EidsAppend(ps: seq<Pending>, p: Pending)
    ensures Eids(ps + [p]) == Eids(ps) + multiset{p.envelope.eid}
  {
    if ps != [] {
      assert (ps + [p])[1..] == ps[1..] + [p];
      EidsAppend(ps[1..], p);
    }
  }

  lemma {:induction false} EidsRemove(ps: seq<Pending>, k: nat)
    requires k < |ps|
    ensures Eids(ps) == Eids(RemoveAt(ps, k)) + multiset{ps[k].envelope.eid}
  {
    if k == 0 {
      assert RemoveAt(ps, 0) == ps[1..];
    } else {
      assert RemoveAt(ps, k) == [ps[0]] + RemoveAt(ps[1..], k - 1);
      EidsRemove(ps[1..], k - 1);
    }
  }

  lemma {:induction false} EidsCoalesce(q: seq<Pending>, e: Envelope)
    ensures var (e1, rest, ids) := Coalesce(q, e); Eids(q) == Eids(rest) + multiset(ids)
  {
    if q != [] && q[0].envelope.url == e.url && q[0].envelope.sync == e.sync {
      var e2 := e.(messages := e.messages + q[0].envelope.messages);
      EidsCoalesce(q[1..], e2);
      var (e1, rest, ids) := Coalesce(q[1..], e2);
      assert multiset([q[0].envelope.eid] + ids) == multiset{q[0].envelope.eid} + multiset(ids);
    }
  }

  lemma OwnedQueueSend(c: Config, s: State, e: Envelope)
    ensures Owned(QueueSend(c, s, e)) == Owned(s) + multiset{e.eid}
  {
    hide Eids, CalledIds, Live;
    var p := Pending(e, Request(s.requestIds + 1, false));
    LiveAppend(s.flights, p);
    EidsAppend(Live(s.flights), p);
    EidsAppend(s.envelopes, p);
  }

  /** The head of the queue leaves it, and takes the merged ones along. */
  lemma OwnedDequeue(s: State, e: Envelope, rest: seq<Pending>, ids: seq<nat>)
    requires Eids(s.envelopes) == multiset{e.eid} + (Eids(rest) + multiset(ids))
    ensures Owned(s.(envelopes := rest, merged := s.merged + ids)) + multiset{e.eid} == Owned(s)
  {
    hide Eids, CalledIds, Live;
    assert multiset(s.merged + ids) == multiset(s.merged) + multiset(ids);
  }

  lemma OwnedComplete(c: Config, s: State, r: Request, success: bool)
    ensures Owned(Complete(c, s, r, success)) == Owned(s)
  {
    hide CalledIds, Coalesce, QueueSend, Without, Live;
    var s1 := s.(requests := Without(s.requests, r));
    assert Owned(s1) == Owned(s);
    if s.envelopes == [] {
      assert Complete(c, s, r, success) == s1;
    } else {
      var next, rest := s.envelopes[0], s.envelopes[1..];
      assert Eids(s.envelopes) == multiset{next.envelope.eid} + Eids(rest);
      hide Eids;
      var t := s1.(envelopes := rest);
      if !success {
        EidsAppend(s.cascades, next);
      } else if !c.autoBatch {
        hide Owned;
        OwnedDequeue(s1, next.envelope, rest, []);
        assert s1.merged + [] == s1.merged;
        OwnedQueueSend(c, t, next.envelope);
      } else {
        hide Owned;
        EidsCoalesce(rest, next.envelope);
        var (e, rest1, ids) := Coalesce(rest, next.envelope);
        OwnedDequeue(s1, next.envelope, rest1, ids);
        OwnedQueueSend(c, s1.(envelopes := rest1, merged := s1.merged + ids), e);
      }
    }
  }

  lemma OwnedCall(s: State, e: Envelope, success: bool)
    ensures Owned(Call(s, e, success)) == Owned(s) + multiset{e.eid}
  {
    var cs := s.called + [Callback(e.eid, success)];
    assert cs[..|cs| - 1] == s.called;
  }

  /** The envelopes a step brings in: the one it sends, unless the call throws. */
  ghost function Brought(c: Config, s: State, ev: Event): multiset<nat>
    requires Possible(s, ev)
  {
    if ev.Send? && !Apply(c, s, ev).threw then multiset{ev.e.eid} else multiset{}
  }

  lemma ApplyConserves(c: Config, s: State, ev: Event)
    requires Inv(c, s) && Possible(s, ev)
    ensures Owned(Apply(c, s, ev).s) == Owned(s) + Brought(c, s, ev)
  {
    hide Owned, Complete, QueueSend, Settle, Live;
    ApplyKeeps(c, s, ev);
    match ev {
      case Send(e, metaConnect) =>
        OwnedQueueSend(c, s, e);
        if metaConnect && s.metaConnectRequest.None? { OwnedPoll(c, s, e); }
      case Success(k) => OwnedEnded(c, s, k, true);
      case Failure(k) => OwnedEnded(c, s, k, false);
      case Expire(k) =>
        var j := LiveWithout(s.flights, k);
        OwnedSettle(c, s, k, j, false, Lapsed(s.flights, k));
      case Cascade(k) => OwnedCascade(c, s, k);
    }
  }

  lemma OwnedPoll(c: Config, s: State, e: Envelope)
    requires s.metaConnectRequest.None?
    ensures Owned(Apply(c, s, Send(e, true)).s) == Owned(s) + multiset{e.eid}
  {
    hide Eids, CalledIds, Live;
    var p := Pending(e, Request(s.requestIds + 1, true));
    LiveAppend(s.flights, p);
    EidsAppend(Live(s.flights), p);
  }

  lemma OwnedCascade(c: Config, s: State, k: nat)
    requires k < |s.cascades| && !Apply(c, s, Cascade(k)).threw
    ensures Owned(Apply(c, s, Cascade(k)).s) == Owned(s)
  {
    hide Eids, CalledIds, Complete, Live;
    var p, s1 := s.cascades[k], s.(cascades := RemoveAt(s.cascades, k));
    EidsRemove(s.cascades, k);
    OwnedComplete(c, s1, p.request, false);
    OwnedCall(CompleteAny(c, s1, p.request, false).s, p.envelope, false);
  }

  lemma OwnedEnded(c: Config, s: State, k: nat, success: bool)
    requires k < |s.flights| && !Ended(c, s, k, success).threw
    ensures Owned(Ended(c, s, k, success).s) == Owned(s)
  {
    hide Eids, CalledIds, Settle, Live;
    var j := LiveWithout(s.flights, k);
    if !s.flights[k].expired { OwnedSettle(c, s, k, j, success, RemoveAt(s.flights, k)); }
  }

  lemma OwnedSettle(c: Config, s: State, k: nat, j: nat, success: bool, left: seq<Flight>)
    requires Leaves(s, k, j, left) && !Settle(c, s, k, success, left).threw
    ensures Owned(Settle(c, s, k, success, left).s) == Owned(s)
  {
    hide Eids, CalledIds, Complete, Live;
    var p, s1 := s.flights[k].p, s.(flights := left);
    EidsRemove(Live(s.flights), j);
    OwnedComplete(c, s1, p.request, success);
    OwnedCall(CompleteAny(c, s1, p.request, success).s, p.envelope, success);
  }

  // ---------- runs ----------

  /** A run of possible events, and the state it leads to. */
  ghost predicate Legal(c: Config, es: seq<Event>)
    decreases |es|, 0
  {
    es == [] || (Legal(c, es[..|es| - 1]) && Possible(Follow(c, es[..|es| - 1]), es[|es| - 1]))
  }

  ghost function Follow(c: Config, es: seq<Event>): State
    requires Legal(c, es)
    decreases |es|, 1
  {
    if es == [] then INITIAL else Apply(c, Follow(c, es[..|es| - 1]), es[|es| - 1]).s
  }

  /** The envelopes the transport has taken on. */
  ghost function Accepted(c: Config, es: seq<Event>): multiset<nat>
    requires Legal(c, es)
    decreases |es|
  {
    if es == [] then multiset{}
    else Accepted(c, es[..|es| - 1]) + Brought(c, Follow(c, es[..|es| - 1]), es[|es| - 1])
  }

  /** In every run without reset or abort: the books agree, and what was taken on is exactly what is on
    * the wire, queued, failing, merged or called back. */
  lemma {:induction false} Conserved(c: Config, es: seq<Event>)
    requires Legal(c, es)
    ensures Inv(c, Follow(c, es)) && Notified(Follow(c, es)) && Owned(Follow(c, es)) == Accepted(c, es)
    decreases |es|
  {
    if es != [] {
      var before := es[..|es| - 1];
      Conserved(c, before);
      ApplyKeeps(c, Follow(c, before), es[|es| - 1]);
      NotifiedKeeps(c, Follow(c, before), es[|es| - 1]);
      ApplyConserves(c, Follow(c, before), es[|es| - 1]);
    }
  }

  /** So an envelope accepted once is in one place only, and called back at most once. */
  lemma ExactlyOnePlace(c: Config, es: seq<Event>, eid: nat)
    requires Legal(c, es) && Accepted(c, es)[eid] == 1
    ensures var s := Follow(c, es);
      Eids(Live(s.flights))[eid] + Eids(s.envelopes)[eid] + Eids(s.cascades)[eid]
      + multiset(s.merged)[eid] + CalledIds(s.called)[eid] == 1
  {
    Conserved(c, es);
  }

  /** In every run: an answer to an exchange that has expired, be it a success or a failure, changes nothing
    * but that the browser is done with it. Its envelope was called back when it expired, and is not again. */
  lemma LateAnswerChangesNothing(c: Config, es: seq<Event>, k: nat, success: bool)
    requires Legal(c, es) && k < |Follow(c, es).flights| && Follow(c, es).flights[k].expired
    ensures
      var s := Follow(c, es);
      var ev := if success then Success(k) else Failure(k);
      && Possible(s, ev)
      && Apply(c, s, ev) == Result(s.(flights := RemoveAt(s.flights, k)), false)
      && Live(RemoveAt(s.flights, k)) == Live(s.flights)
      && Callback(s.flights[k].p.envelope.eid, false) in s.called
  {
    hide Settle, Live;
    Conserved(c, es);
    var j := LiveWithout(Follow(c, es).flights, k);
  }

  function Unresolved(s: State): nat {
    |Live(s.flights)| + |s.envelopes| + |s.cascades|
  }

  lemma CompleteCount(c: Config, s: State, r: Request, success: bool)
    ensures Unresolved(Complete(c, s, r, success)) <= Unresolved(s)
  {
    hide Live, Without;
    if s.envelopes != [] {
      var next, rest := s.envelopes[0], s.envelopes[1..];
      CoalesceKeeps(rest, next.envelope);
      LiveAppend(s.flights, Pending(next.envelope, Request(s.requestIds + 1, false)));
      var (e, rest1, ids) := Coalesce(rest, next.envelope);
      LiveAppend(s.flights, Pending(e, Request(s.requestIds + 1, false)));
    }
  }

  /** Every answer, failure, timeout and failure timer leaves strictly fewer envelopes unresolved, except the
    * answers that come too late. */
  lemma EachCompletionResolves(c: Config, s: State, ev: Event)
    requires Inv(c, s) && Possible(s, ev) && !ev.Send?
    ensures
      if (ev.Success? || ev.Failure?) && s.flights[ev.k].expired then Unresolved(Apply(c, s, ev).s) == Unresolved(s)
      else Unresolved(Apply(c, s, ev).s) < Unresolved(s)
  {
    hide Complete, Live;
    ApplyKeeps(c, s, ev);
    if ev.Cascade? {
      CompleteCount(c, s.(cascades := RemoveAt(s.cascades, ev.k)), s.cascades[ev.k].request, false);
    } else {
      var j := LiveWithout(s.flights, ev.k);
      var left := if ev.Expire? then Lapsed(s.flights, ev.k) else RemoveAt(s.flights, ev.k);
      CompleteCount(c, s.(flights := left), s.flights[ev.k].p.request, ev.Success?);
    }
  }

  /** With room for a request at all, unresolved envelopes always have an exchange or a timer to wait for. */
  lemma NeverStuck(c: Config, es: seq<Event>)
    requires Legal(c, es) && c.slots > 0
    ensures var s := Follow(c, es); Unresolved(s) > 0 ==> Live(s.flights) != [] || s.cascades != []
  {
    Conserved(c, es);
  }

  // ---------- order on the wire ----------

  function Messages(ps: seq<Pending>): seq<Wired> {
    if ps == [] then [] else Addressed(ps[0].envelope) + Messages(ps[1..])
  }

  lemma {:induction false} MessagesAppend(ps: seq<Pending>, p: Pending)
    ensures Messages(ps + [p]) == Messages(ps) + Addressed(p.envelope)
  {
    if ps == [] {
      assert Addressed(p.envelope) + Messages([]) == Addressed(p.envelope);
    } else {
      assert (ps + [p])[1..] == ps[1..] + [p];
      MessagesAppend(ps[1..], p);
    }
  }

  /** What was taken off the head of the queue went to the place of e anyway, and what is left does not start
    * with more of that. */
  ghost predicate SamePlace(q: seq<Pending>, e: Envelope, rest: seq<Pending>) {
    && |rest| <= |q| && rest == q[|q| - |rest|..]
    && (forall i :: 0 <= i < |q| - |rest| ==> q[i].envelope.url == e.url && q[i].envelope.sync == e.sync)
    && (rest != [] ==> rest[0].envelope.url != e.url || rest[0].envelope.sync != e.sync)
  }

  /** Exactly those are merged, in order, into one envelope for that place. */
  lemma {:induction false} CoalesceTakes(q: seq<Pending>, e: Envelope)
    ensures
      var (e1, rest, ids) := Coalesce(q, e);
      && SamePlace(q, e, rest)
      && e1.eid == e.eid && e1.url == e.url && e1.sync == e.sync
      && |ids| == |q| - |rest| && (forall i :: 0 <= i < |ids| ==> ids[i] == q[i].envelope.eid)
  {
    if q != [] {
      var e2 := e.(messages := e.messages + q[0].envelope.messages);
      CoalesceTakes(q[1..], e2);
      var rest := Coalesce(q[1..], e2).1;
      assert |rest| <= |q[1..]| ==> q[1..][|q[1..]| - |rest|..] == q[|q| - |rest|..];
    }
  }

  lemma CoalesceNext(q: seq<Pending>, e: Envelope)
    ensures
      if q != [] && q[0].envelope.url == e.url && q[0].envelope.sync == e.sync then
        var (e1, rest, ids) := Coalesce(q[1..], e.(messages := e.messages + q[0].envelope.messages));
        Coalesce(q, e) == (e1, rest, [q[0].envelope.eid] + ids)
      else Coalesce(q, e) == (e, q, [])
  {
  }

  lemma AddressedMore(e: Envelope, ms: seq<string>)
    ensures Addressed(e.(messages := e.messages + ms)) == Addressed(e) + Addressed(e.(messages := ms))
  {
  }

  lemma {:induction false} MessagesCoalesce(q: seq<Pending>, e: Envelope)
    ensures var (e1, rest, ids) := Coalesce(q, e); Addressed(e1) + Messages(rest) == Addressed(e) + Messages(q)
  {
    hide Addressed;
    if q != [] && q[0].envelope.url == e.url && q[0].envelope.sync == e.sync {
      var e2 := e.(messages := e.messages + q[0].envelope.messages);
      MessagesCoalesce(q[1..], e2);
      AddressedMore(e, q[0].envelope.messages);
      SameAddress(q[0].envelope, e.(messages := q[0].envelope.messages));
      assert Addressed(e) + (Addressed(q[0].envelope) + Messages(q[1..]))
          == Addressed(e) + Addressed(q[0].envelope) + Messages(q[1..]);
    }
  }

  lemma SameAddress(a: Envelope, b: Envelope)
    requires a.messages == b.messages && a.url == b.url && a.sync == b.sync
    ensures Addressed(a) == Addressed(b)
  {
  }

  /** What has gone out, and what is still to go, in order. */
  function InOrder(s: State): seq<Wired> {
    s.wire + Messages(s.envelopes)
  }

  lemma QueueSendInOrder(c: Config, s: State, e: Envelope)
    requires s.envelopes != [] ==> |s.requests| >= c.slots
    ensures InOrder(QueueSend(c, s, e)) == InOrder(s) + Addressed(e)
  {
    hide Addressed;
    var p := Pending(e, Request(s.requestIds + 1, false));
    MessagesAppend(s.envelopes, p);
    if |s.requests| < c.slots { assert s.wire + Addressed(e) + [] == s.wire + [] + Addressed(e); }
  }

  /** After a success the queue moves up without changing the order, with autoBatch and without. */
  lemma CompleteInOrder(c: Config, s: State, r: Request)
    requires |Without(s.requests, r)| < c.slots
    ensures InOrder(Complete(c, s, r, true)) == InOrder(s)
  {
    hide Without, Coalesce, Addressed;
    if s.envelopes != [] {
      var next, rest := s.envelopes[0], s.envelopes[1..];
      MessagesCoalesce(rest, next.envelope);
      var (e, rest1, ids) := Coalesce(rest, next.envelope);
      assert s.wire + Addressed(next.envelope) + Messages(rest) == s.wire + Messages(s.envelopes);
      assert s.wire + Addressed(e) + Messages(rest1) == s.wire + (Addressed(e) + Messages(rest1));
    }
  }

  /** The queue moves up by one envelope, or, with autoBatch, by as many as go to the same place: they leave it
    * together and are one exchange. Without autoBatch nothing is ever merged. */
  ghost predicate MovedUp(c: Config, s: State, t: State) {
    var n := |s.envelopes| - |t.envelopes|;
    && t.cascades == s.cascades && n >= 0 && t.envelopes == s.envelopes[n..]
    && (n == 0 <==> s.envelopes == [])
    && (n == 0 ==> t.flights == s.flights && t.merged == s.merged)
    && (n > 0 ==>
          && |t.flights| == |s.flights| + 1 && !t.flights[|s.flights|].expired
          && t.flights[|s.flights|].p.envelope.eid == s.envelopes[0].envelope.eid
          && |t.merged| == |s.merged| + n - 1)
    && (!c.autoBatch ==> n <= 1)
  }

  lemma CompleteMovesUp(c: Config, s: State, r: Request)
    requires |Without(s.requests, r)| < c.slots
    ensures MovedUp(c, s, Complete(c, s, r, true))
  {
    hide Coalesce, Without, QueueSend;
    var s1 := s.(requests := Without(s.requests, r));
    if s.envelopes != [] {
      var next, rest := s.envelopes[0].envelope, s.envelopes[1..];
      if c.autoBatch {
        CoalesceTakes(rest, next);
        var (e, left, ids) := Coalesce(rest, next);
        assert left == rest[|rest| - |left|..] == s.envelopes[|s.envelopes| - |left|..];
        hide SamePlace;
        SentAtOnce(c, s1.(envelopes := left, merged := s.merged + ids), e);
      } else {
        SentAtOnce(c, s1.(envelopes := rest), next);
      }
    }
  }

  lemma SentAtOnce(c: Config, s: State, e: Envelope)
    requires |s.requests| < c.slots
    ensures
      var t := QueueSend(c, s, e);
      && t.flights == s.flights + [Flight(Pending(e, Request(s.requestIds + 1, false)), false)]
      && t.envelopes == s.envelopes && t.cascades == s.cascades && t.merged == s.merged
  {
  }

  /** So it does when an ordinary exchange is answered. */
  lemma SuccessMovesUp(c: Config, s: State, k: nat)
    requires Inv(c, s) && k < |s.flights| && !s.flights[k].expired && !s.flights[k].p.request.metaConnect
    ensures MovedUp(c, s.(flights := RemoveAt(s.flights, k)), Apply(c, s, Success(k)).s)
  {
    hide Inv, Complete, Without, RemoveAt;
    MovesUp(c, s, k);
    CompleteMovesUp(c, s.(flights := RemoveAt(s.flights, k)), s.flights[k].p.request);
  }

  /** There is room for what moves up: the answered exchange was tracked. */
  lemma MovesUp(c: Config, s: State, k: nat)
    requires Inv(c, s) && k < |s.flights| && !s.flights[k].expired && !s.flights[k].p.request.metaConnect
    ensures |Without(s.requests, s.flights[k].p.request)| < c.slots
  {
    hide Live, Tracked, Metas;
    var j := LiveWithout(s.flights, k);
    TrackedRemove(Live(s.flights), j);
  }

  /** A failure or timeout sends nothing: the head of the queue is given to a timer that fails it. */
  lemma FailureSendsNothing(c: Config, s: State, ev: Event)
    requires Inv(c, s) && Possible(s, ev) && (ev.Failure? || ev.Expire? || ev.Cascade?)
    ensures
      var t := Apply(c, s, ev).s;
      && t.wire == s.wire && t.requestIds == s.requestIds && t.merged == s.merged
      && (t.called == s.called || (|t.called| == |s.called| + 1 && !t.called[|s.called|].success))
    ensures
      var t := Apply(c, s, ev).s;
      var ordinary := if ev.Cascade? then true else !s.flights[ev.k].expired && !s.flights[ev.k].p.request.metaConnect;
      var waiting := if ev.Cascade? then RemoveAt(s.cascades, ev.k) else s.cascades;
      if ordinary && s.envelopes != [] then
        t.envelopes == s.envelopes[1..] && t.cascades == waiting + [s.envelopes[0]]
      else t.envelopes == s.envelopes && t.cascades == waiting
  {
    hide Without, Inv;
    ApplyKeeps(c, s, ev);
    if ev.Cascade? { CascadesAreOrdinary(c, s, ev.k); }
  }

  lemma CascadesAreOrdinary(c: Config, s: State, k: nat)
    requires Inv(c, s) && k < |s.cascades|
    ensures !s.cascades[k].request.metaConnect
  {
  }

  ghost predicate NoFailure(ev: Event) {
    ev.Send? || ev.Success?
  }

  /** The ordinary messages accepted by send, in order. */
  ghost function AcceptedMessages(es: seq<Event>): seq<Wired>
    decreases |es|
  {
    if es == [] then []
    else
      var ev := es[|es| - 1];
      AcceptedMessages(es[..|es| - 1]) + if ev.Send? && !ev.metaConnect then Addressed(ev.e) else []
  }

  lemma ApplyInOrder(c: Config, s: State, ev: Event)
    requires Inv(c, s) && Possible(s, ev) && NoFailure(ev) && s.cascades == []
    ensures Apply(c, s, ev).s.cascades == []
    ensures InOrder(Apply(c, s, ev).s)
            == InOrder(s) + if ev.Send? && !ev.metaConnect then Addressed(ev.e) else []
  {
    hide Messages, Without, Tracked, Metas, Live, Addressed;
    match ev {
      case Send(e, metaConnect) => if !metaConnect { QueueSendInOrder(c, s, e); }
      case Success(k) =>
        var p := s.flights[k].p;
        var j := LiveWithout(s.flights, k);
        ApplyKeeps(c, s, ev);
        if !s.flights[k].expired && !p.request.metaConnect {
          TrackedRemove(Live(s.flights), j);
          CompleteInOrder(c, s.(flights := RemoveAt(s.flights, k)), p.request);
        }
    }
  }

  /** In runs without failures, the messages put on the wire followed by those still queued are exactly the
    * messages accepted by send, in their order, each to the URL and of the kind it was accepted for. */
  lemma {:induction false} WireOrder(c: Config, es: seq<Event>)
    requires Legal(c, es) && forall i :: 0 <= i < |es| ==> NoFailure(es[i])
    ensures Follow(c, es).cascades == [] && InOrder(Follow(c, es)) == AcceptedMessages(es)
    decreases |es|
  {
    if es != [] {
      var before := es[..|es| - 1];
      WireOrder(c, before);
      Conserved(c, before);
      ApplyInOrder(c, Follow(c, before), es[|es| - 1]);
    }
  }
}
