/**
 * The client side of a JSON-RPC 2.0 connection over a byte stream
 * (`StreamJsonRpcConnection`): requests get fresh numeric ids and wait in a
 * pending table until a response or the close event settles them;
 * notifications from the peer go to the registered callbacks.
 */
module Streams {
  import opened Wrappers
  import opened Json
  import opened Framing
  import Stdio

  /** How the promise returned by `request` settled. */
  datatype Outcome =
    | Resolved(result: Json)
      // `new Error(message)` with the remote `code` and `data` attached; absent ones stay undefined
    | Rejected(message: Json, code: Option<Json>, data: Option<Json>)

  const ClosedOutcome: Outcome := Rejected(JStr("JSON-RPC stream closed"), None, None)

  /**
   * The connection's state: `started`, `nextId`, the pending ids, how each
   * settled promise settled, the notification callbacks, the messages written
   * and the notification callbacks run.
   */
  datatype Client = Client(
    started: bool,
    nextId: nat,
    pending: set<int>,
    settled: map<int, Outcome>,
    handlers: map<string, Stdio.HandlerId>,
    sent: seq<Json>,
    calls: seq<Stdio.Call>)

  function InitClient(): Client {
    Client(false, 1, {}, map[], map[], [], [])
  }

  /**
   * Every id handed out so far, 1 up to `nextId - 1`, is either pending or settled,
   * never both, and no other id is either.
   */
  ghost predicate Inv(c: Client) {
    && c.nextId >= 1
    && (forall i :: i in c.pending ==> 1 <= i < c.nextId && i !in c.settled)
    && (forall i :: i in c.settled ==> 1 <= i < c.nextId)
    && (forall i :: 1 <= i < c.nextId ==> i in c.pending || i in c.settled)
  }

  function MarkStarted(c: Client): (r: Client)
    ensures r.started
    ensures r.nextId == c.nextId && r.pending == c.pending && r.settled == c.settled
    ensures r.handlers == c.handlers && r.sent == c.sent && r.calls == c.calls
  {
    c.(started := true)
  }

  function AddNotificationHandler(c: Client, name: string, h: Stdio.HandlerId): (r: Client)
    ensures name in r.handlers && r.handlers[name] == h
    ensures forall other :: other != name ==> (other in r.handlers <==> other in c.handlers)
    ensures forall other :: other != name && other in c.handlers ==> r.handlers[other] == c.handlers[other]
    ensures r.started == c.started && r.nextId == c.nextId && r.pending == c.pending
    ensures r.settled == c.settled && r.sent == c.sent && r.calls == c.calls
  {
    c.(handlers := c.handlers[name := h])
  }

  /** `request`: the next id, one request frame carrying it, one new pending entry. */
  function SendRequest(c: Client, name: string, params: Option<Json>): (r: (Client, int))
    ensures r.1 == c.nextId && r.0.nextId == c.nextId + 1
  {
    var id := c.nextId;
    (c.(nextId := id + 1, pending := c.pending + {id}, sent := c.sent + [Stdio.RequestMessage(JNum(id), name, params)]), id)
  }

  /** `notify`: one frame without an id; no pending entry. */
  function SendNotification(c: Client, name: string, params: Option<Json>): (r: Client)
    ensures |r.sent| == |c.sent| + 1 && !Has(r.sent[|c.sent|], "id")
  {
    c.(sent := c.sent + [Stdio.NotificationMessage(name, params)])
  }

  /** A peer notification: a string `method` and no `id` member. */
  predicate IsNotification(m: Json) {
    Stdio.HasStringMethod(m) && !Has(m, "id")
  }

  /** A response: an `id` member and a `result` or an `error` member. */
  predicate IsResponse(m: Json) {
    Has(m, "id") && (Has(m, "result") || Has(m, "error"))
  }

  /** The pending id a response refers to: Map lookups only match numeric ids. */
  function ResponseId(m: Json): Option<int>
    requires IsResponse(m)
  {
    var id := m.fields["id"];
    if id.JNum? then Some(id.n) else None
  }

  /** `error` takes precedence over `result`; a missing error message reads "JSON-RPC error". */
  function ResponseOutcome(m: Json): (o: Outcome)
    requires IsResponse(m)
    ensures o.Rejected? <==> Has(m, "error")
  {
    if Has(m, "error") then
      var e := m.fields["error"];
      Rejected(Coalesce(Field(e, "message"), Some(JStr("JSON-RPC error"))).value, Field(e, "code"), Field(e, "data"))
    else
      Resolved(m.fields["result"])
  }

  /** `handleIncoming`: what one parsed message does to the connection. */
  function Receive(c: Client, m: Json): Client {
    if !Stdio.IsJsonRpc(m) then c
    else if IsNotification(m) then
      var name := m.fields["method"].s;
      if name in c.handlers then c.(calls := c.calls + [Stdio.Call(c.handlers[name], Field(m, "params"))]) else c
    else if IsResponse(m) then
      var id := ResponseId(m);
      if id.Some? && id.value in c.pending then
        c.(pending := c.pending - {id.value}, settled := c.settled[id.value := ResponseOutcome(m)])
      else c
    else c
  }

  function HandleAll(c: Client, ms: seq<Json>): Client
    decreases |ms|
  {
    if ms == [] then c else HandleAll(Receive(c, ms[0]), ms[1..])
  }

  /** The `close` listener (attached by `start`): every pending promise is rejected and the table cleared. */
  function Close(c: Client): Client {
    if !c.started then c
    else c.(pending := {}, settled := c.settled + map i | i in c.pending :: ClosedOutcome)
  }

  // ---------------------------------------------------------------------------
  // Properties

  lemma InitInv()
    ensures Inv(InitClient()) && InitClient().nextId == 1
  {
  }

  /** A request takes a fresh id, one above the previous one, and the invariant is kept. */
  lemma RequestFresh(c: Client, name: string, params: Option<Json>)
    requires Inv(c)
    ensures var (r, id) := SendRequest(c, name, params);
            && id !in c.pending && id !in c.settled
            && r.pending == c.pending + {id} && r.settled == c.settled
            && r.sent == c.sent + [Stdio.RequestMessage(JNum(id), name, params)]
            && Inv(r)
  {
  }

  /** A response to a pending id settles that id, for the first time, and removes it from the table. */
  lemma ResponseSettlesOnce(c: Client, m: Json)
    requires Inv(c) && Stdio.IsJsonRpc(m) && Has(m, "id") && IsResponse(m) && !IsNotification(m)
    requires ResponseId(m).Some? && ResponseId(m).value in c.pending
    ensures var id := ResponseId(m).value;
            var r := Receive(c, m);
            && id !in c.settled
            && r.settled == c.settled[id := ResponseOutcome(m)]
            && r.pending == c.pending - {id}
            && r.calls == c.calls && r.sent == c.sent
            && Inv(r)
  {
  }

  /** A response whose id is not pending (unknown, non-numeric, duplicate or stale) changes nothing. */
  lemma StaleResponseIgnored(c: Client, m: Json)
    requires IsResponse(m) && !IsNotification(m)
    requires ResponseId(m).None? || ResponseId(m).value !in c.pending
    ensures Receive(c, m) == c
  {
  }

  /** The same response delivered twice settles its call once. */
  lemma DuplicateResponseIgnored(c: Client, m: Json)
    requires IsResponse(m)
    ensures Receive(Receive(c, m), m) == Receive(c, m)
  {
    assert !IsNotification(m);
  }

  /** A message whose `jsonrpc` member is not "2.0" is ignored. */
  lemma ForeignMessageIgnored(c: Client, m: Json)
    requires !Stdio.IsJsonRpc(m)
    ensures Receive(c, m) == c
  {
  }

  /** With both `error` and `result`, the call is rejected with the error's message, code and data. */
  lemma ErrorTakesPrecedence(m: Json)
    requires IsResponse(m) && Has(m, "error") && Has(m, "result")
    ensures var e := m.fields["error"];
            ResponseOutcome(m) == Rejected(Coalesce(Field(e, "message"), Some(JStr("JSON-RPC error"))).value, Field(e, "code"), Field(e, "data"))
  {
  }

  /** A peer notification runs its method's callback, if any, with its params, and touches nothing else. */
  lemma NotificationDispatched(c: Client, name: string, params: Option<Json>)
    ensures var r := Receive(c, Stdio.NotificationMessage(name, params));
            && r.pending == c.pending && r.settled == c.settled && r.sent == c.sent
            && r.calls == c.calls + (if name in c.handlers then [Stdio.Call(c.handlers[name], params)] else [])
  {
    var m := Stdio.NotificationMessage(name, params);
    assert "id" !in map["jsonrpc" := Stdio.Version, "method" := JStr(name)];
    assert Stdio.IsJsonRpc(m) && IsNotification(m) && m.fields["method"].s == name;
    assert Field(m, "params") == params;
  }

  /** Registering a callback for a method replaces the earlier one. */
  lemma LastHandlerWins(c: Client, name: string, h1: Stdio.HandlerId, h2: Stdio.HandlerId)
    ensures AddNotificationHandler(AddNotificationHandler(c, name, h1), name, h2) == AddNotificationHandler(c, name, h2)
  {
  }

  /** Closing rejects every pending call exactly once, leaves settled calls alone and empties the table. */
  lemma CloseRejectsAll(c: Client)
    requires Inv(c) && c.started
    ensures var r := Close(c);
            && r.pending == {}
            && (forall i :: i in c.pending ==> i in r.settled && r.settled[i] == ClosedOutcome)
            && (forall i :: i in c.settled ==> i in r.settled && r.settled[i] == c.settled[i])
            && r.settled.Keys == c.settled.Keys + c.pending
            && Inv(r)
  {
  }

  lemma StartIdempotent(c: Client)
    ensures MarkStarted(MarkStarted(c)) == MarkStarted(c)
  {
  }

  lemma NotifyCreatesNoPending(c: Client, name: string, params: Option<Json>)
    requires Inv(c)
    ensures var r := SendNotification(c, name, params);
            r.pending == c.pending && r.settled == c.settled && r.nextId == c.nextId && Inv(r)
  {
  }

  lemma ReceiveKeepsInv(c: Client, m: Json)
    requires Inv(c)
    ensures Inv(Receive(c, m)) && Receive(c, m).nextId == c.nextId
    ensures Receive(c, m).settled.Keys >= c.settled.Keys
    ensures forall i :: i in c.settled ==> Receive(c, m).settled[i] == c.settled[i]
  {
  }

  lemma {:induction false} HandleAllKeepsInv(c: Client, ms: seq<Json>)
    requires Inv(c)
    decreases |ms|
    ensures Inv(HandleAll(c, ms)) && HandleAll(c, ms).started == c.started
  {
    if ms != [] {
      ReceiveKeepsInv(c, ms[0]);
      HandleAllKeepsInv(Receive(c, ms[0]), ms[1..]);
    }
  }

  /** Everything the connection can be asked to do, or be told by its streams. */
  datatype Event =
    | StartEv
    | OnNotificationEv(name: string, h: Stdio.HandlerId)
    | RequestEv(name: string, params: Option<Json>)
    | NotifyEv(name: string, params: Option<Json>)
    | IncomingEv(m: Json)
    | CloseEv

  function Step(c: Client, e: Event): Client {
    match e
    case StartEv => MarkStarted(c)
    case OnNotificationEv(name, h) => AddNotificationHandler(c, name, h)
    case RequestEv(name, params) => SendRequest(c, name, params).0
    case NotifyEv(name, params) => SendNotification(c, name, params)
    case IncomingEv(m) => Receive(c, m)
    case CloseEv => Close(c)
  }

  function Run(c: Client, es: seq<Event>): Client
    decreases |es|
  {
    if es == [] then c else Run(Step(c, es[0]), es[1..])
  }

  lemma StepKeepsInv(c: Client, e: Event)
    requires Inv(c)
    ensures Inv(Step(c, e))
    ensures forall i :: i in c.settled ==> i in Step(c, e).settled && Step(c, e).settled[i] == c.settled[i]
  {
    match e
    case IncomingEv(m) => ReceiveKeepsInv(c, m);
    case _ =>
  }

  /**
   * Along any run from a fresh connection, ids 1 .. nextId-1 are exactly the ids
   * handed out, each pending or settled, and a settled call never changes outcome.
   */
  lemma {:induction false} RunKeepsInv(c: Client, es: seq<Event>)
    requires Inv(c)
    decreases |es|
    ensures Inv(Run(c, es))
    ensures forall i :: i in c.settled ==> i in Run(c, es).settled && Run(c, es).settled[i] == c.settled[i]
  {
    if es != [] {
      StepKeepsInv(c, es[0]);
      RunKeepsInv(Step(c, es[0]), es[1..]);
    }
  }

  /** `StreamJsonRpcConnection`, with the writable stream as the log of written messages. */
  class StreamJsonRpcConnection {
    const decoder: FramedMessageDecoder
    var started: bool
    var nextId: nat
    var pending: set<int>
    var settled: map<int, Outcome>
    var notificationHandlers: map<string, Stdio.HandlerId>
    var sent: seq<Json>
    var calls: seq<Stdio.Call>

    ghost function State(): Client
      reads this
    {
      Client(started, nextId, pending, settled, notificationHandlers, sent, calls)
    }

    ghost predicate Valid()
      reads this, decoder
    {
      decoder.Valid() && Inv(State())
    }

    constructor (parse: Bytes -> Option<Json>)
      ensures Valid() && State() == InitClient()
      ensures fresh(decoder) && decoder.Window() == [] && decoder.lengthOf == HeaderLength && decoder.parse == parse
    {
      decoder := new FramedMessageDecoder(parse);
      started, nextId, pending, settled := false, 1, {}, map[];
      notificationHandlers, sent, calls := map[], [], [];
    }

    method Start()
      modifies this
      ensures State() == MarkStarted(old(State()))
    {
      if started {
        return;
      }
      started := true;
    }

    method OnNotification(name: string, h: Stdio.HandlerId)
      modifies this
      ensures State() == AddNotificationHandler(old(State()), name, h)
    {
      notificationHandlers := notificationHandlers[name := h];
    }

    method Request(name: string, params: Option<Json>) returns (id: int)
      modifies this
      ensures (State(), id) == SendRequest(old(State()), name, params)
    {
      id := nextId;
      nextId := nextId + 1;
      sent := sent + [Stdio.RequestMessage(JNum(id), name, params)];
      pending := pending + {id};
    }

    method Notify(name: string, params: Option<Json>)
      modifies this
      ensures State() == SendNotification(old(State()), name, params)
    {
      sent := sent + [Stdio.NotificationMessage(name, params)];
    }

    method HandleIncoming(m: Json)
      modifies this
      ensures State() == Receive(old(State()), m)
    {
      if !Stdio.IsJsonRpc(m) {
        return;
      }
      if Stdio.HasStringMethod(m) && !Has(m, "id") {
        var name := m.fields["method"].s;
        if name in notificationHandlers {
          calls := calls + [Stdio.Call(notificationHandlers[name], Field(m, "params"))];
        }
        return;
      }
      if IsResponse(m) {
        var id := ResponseId(m);
        if id.None? || id.value !in pending {
          return;
        }
        pending := pending - {id.value};
        settled := settled[id.value := ResponseOutcome(m)];
      }
    }

    /** The `close` listener: reject every pending call, then clear the table. */
    method OnClose()
      modifies this
      ensures State() == Close(old(State()))
    {
      if !started {
        return;
      }
      settled := settled + map i | i in pending :: ClosedOutcome;
      pending := {};
    }

    /** The `data` listener: decode the chunk, then handle every message in order (nothing before `start`). */
    method OnData(chunk: Bytes)
      requires Valid()
      modifies this, decoder, decoder.buffer
      ensures Valid()
      ensures !old(started) ==> State() == old(State()) && decoder.Window() == old(decoder.Window())
      ensures old(started) ==>
                var d := Drain(old(decoder.Window()) + chunk, decoder.lengthOf, decoder.parse);
                decoder.Window() == d.rest && State() == HandleAll(old(State()), d.msgs)
    {
      if !started {
        return;
      }
      var messages := decoder.Push(chunk);
      ghost var c0 := State();
      ghost var rest := decoder.Window();
      for i := 0 to |messages|
        invariant HandleAll(c0, messages) == HandleAll(State(), messages[i..])
        invariant decoder.Valid() && decoder.Window() == rest
        invariant Inv(State())
      {
        ReceiveKeepsInv(State(), messages[i]);
        HandleIncoming(messages[i]);
        assert messages[i..][1..] == messages[i + 1..];
      }
      assert messages[|messages|..] == [];
    }
  }
}
