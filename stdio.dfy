/**
 * JSON-RPC 2.0 message shapes and the server side of a connection over
 * standard input and output (`StdioJsonRpcConnection`): requests are
 * dispatched to registered handlers and answered exactly once; notifications
 * are dispatched and never answered.
 */
module Stdio {
  import opened Wrappers
  import opened Json
  import opened Framing

  /** A member that is present only when defined: `JSON.stringify` drops undefined members. */
  function Optional(key: string, v: Option<Json>): (m: map<string, Json>)
    ensures key in m <==> v.Some?
    ensures v.Some? ==> m[key] == v.value
    ensures m.Keys <= {key}
  {
    if v.Some? then map[key := v.value] else map[]
  }

  const Version: Json := JStr("2.0")

  /** `{ jsonrpc: "2.0", id, method, params }`. */
  function RequestMessage(id: Json, name: string, params: Option<Json>): Json {
    JObj(map["jsonrpc" := Version, "id" := id, "method" := JStr(name)] + Optional("params", params))
  }

  /** `{ jsonrpc: "2.0", method, params }`: a notification has no `id` member. */
  function NotificationMessage(name: string, params: Option<Json>): Json {
    JObj(map["jsonrpc" := Version, "method" := JStr(name)] + Optional("params", params))
  }

  /** `{ jsonrpc: "2.0", id, result }`; an undefined result leaves the member out. */
  function SuccessMessage(id: Json, result: Option<Json>): Json {
    JObj(map["jsonrpc" := Version, "id" := id] + Optional("result", result))
  }

  /** `{ jsonrpc: "2.0", id, error: { code, message, data } }`. */
  function FailureMessage(id: Json, code: int, message: string, data: Option<Json>): Json {
    JObj(map["jsonrpc" := Version, "id" := id,
             "error" := JObj(map["code" := JNum(code), "message" := JStr(message)] + Optional("data", data))])
  }

  /** `message?.jsonrpc === "2.0"`. */
  predicate IsJsonRpc(m: Json) {
    Field(m, "jsonrpc") == Some(Version)
  }

  /** `typeof message.method === "string"`. */
  predicate HasStringMethod(m: Json) {
    Has(m, "method") && m.fields["method"].JStr?
  }

  /** Section 5.1 of the JSON-RPC 2.0 Specification: the method does not exist. */
  const MethodNotFound: int := -32601
  /** Section 5.1 of the JSON-RPC 2.0 Specification: internal JSON-RPC error. */
  const InternalError: int := -32603

  /** What a thrown value is: an `Error` instance, or any other value. */
  datatype Thrown =
    | ErrorInstance(name: string, message: string, stack: Option<string>)
    | OtherValue(value: Option<Json>)

  /** How a request handler's (awaited) call ends. */
  datatype Answer = Returned(result: Option<Json>) | Threw(error: Thrown)

  /** Identifies a callback passed to `onRequest` or `onNotification`. */
  type HandlerId = nat

  /** One invocation of a notification callback with the notification's params. */
  datatype Call = Call(handler: HandlerId, params: Option<Json>)

  /** The connection's state: the handler tables, `started`, the messages written to stdout and the callbacks run. */
  datatype Server = Server(
    handlers: map<string, HandlerId>,
    notificationHandlers: map<string, HandlerId>,
    started: bool,
    sent: seq<Json>,
    calls: seq<Call>)

  function InitServer(): Server {
    Server(map[], map[], false, [], [])
  }

  function AddRequestHandler(s: Server, name: string, h: HandlerId): (r: Server)
    ensures name in r.handlers && r.handlers[name] == h
    ensures forall other :: other != name ==> (other in r.handlers <==> other in s.handlers)
    ensures forall other :: other != name && other in s.handlers ==> r.handlers[other] == s.handlers[other]
    ensures r.notificationHandlers == s.notificationHandlers && r.started == s.started
    ensures r.sent == s.sent && r.calls == s.calls
  {
    s.(handlers := s.handlers[name := h])
  }

  function AddNotificationHandler(s: Server, name: string, h: HandlerId): (r: Server)
    ensures name in r.notificationHandlers && r.notificationHandlers[name] == h
    ensures forall other :: other != name ==> (other in r.notificationHandlers <==> other in s.notificationHandlers)
    ensures forall other :: other != name && other in s.notificationHandlers ==> r.notificationHandlers[other] == s.notificationHandlers[other]
    ensures r.handlers == s.handlers && r.started == s.started
    ensures r.sent == s.sent && r.calls == s.calls
  {
    s.(notificationHandlers := s.notificationHandlers[name := h])
  }

  function MarkStarted(s: Server): (r: Server)
    ensures r.started
    ensures r.handlers == s.handlers && r.notificationHandlers == s.notificationHandlers
    ensures r.sent == s.sent && r.calls == s.calls
  {
    s.(started := true)
  }

  function WithNotification(s: Server, name: string, params: Option<Json>): (r: Server)
    ensures |r.sent| == |s.sent| + 1 && !Has(r.sent[|s.sent|], "id")
  {
    s.(sent := s.sent + [NotificationMessage(name, params)])
  }

  /** The `error` object of a failed handler: the error's message (or "Internal error") and its details. */
  function InternalFailure(id: Json, e: Thrown): Json {
    match e
    case ErrorInstance(name, message, stack) =>
      var data := map["name" := JStr(name)] + Optional("stack", if stack.Some? then Some(JStr(stack.value)) else None);
      FailureMessage(id, InternalError, message, Some(JObj(data)))
    case OtherValue(v) =>
      FailureMessage(id, InternalError, "Internal error", Some(JObj(Optional("error", v))))
  }

  /** The one response a request receives, given how its handler (if any) answered. */
  function Response(s: Server, m: Json, answer: (HandlerId, Json) -> Answer): Json
    requires HasStringMethod(m) && Has(m, "id")
  {
    var id := m.fields["id"];
    var name := m.fields["method"].s;
    if name !in s.handlers then
      FailureMessage(id, MethodNotFound, "Method not found: " + name, None)
    else
      match answer(s.handlers[name], RequestMessage(id, name, Field(m, "params")))
      case Returned(result) => SuccessMessage(id, result)
      case Threw(e) => InternalFailure(id, e)
  }

  /**
   * `handleMessage`, run to completion. `answer(h, request)` is how the callback `h` ends
   * when given the request object.
   */
  function Handle(s: Server, m: Json, answer: (HandlerId, Json) -> Answer): Server {
    if !IsJsonRpc(m) || !HasStringMethod(m) then s
    else if !Has(m, "id") then
      var name := m.fields["method"].s;
      if name in s.notificationHandlers then
        s.(calls := s.calls + [Call(s.notificationHandlers[name], Field(m, "params"))])
      else s
    else
      s.(sent := s.sent + [Response(s, m, answer)])
  }

  /** Every message of a chunk, handled in order. */
  function HandleAll(s: Server, ms: seq<Json>, answer: (HandlerId, Json) -> Answer): Server
    decreases |ms|
  {
    if ms == [] then s else HandleAll(Handle(s, ms[0], answer), ms[1..], answer)
  }

  /** A response's `id`, its `error` code and its `error` message, when each is present. */
  function ErrorCode(r: Json): Option<Json> {
    if Has(r, "error") then Field(r.fields["error"], "code") else None
  }

  function ErrorMessage(r: Json): Option<Json> {
    if Has(r, "error") then Field(r.fields["error"], "message") else None
  }

  // ---------------------------------------------------------------------------
  // Properties of message handling

  /** Messages that are not JSON-RPC 2.0, or that carry no string `method` (responses included), are ignored. */
  lemma IgnoredMessage(s: Server, m: Json, answer: (HandlerId, Json) -> Answer)
    requires !IsJsonRpc(m) || !HasStringMethod(m)
    ensures Handle(s, m, answer) == s
  {
  }

  /** A notification is never answered; its registered callback, if any, is run once with its params. */
  lemma NotificationNotAnswered(s: Server, name: string, params: Option<Json>, answer: (HandlerId, Json) -> Answer)
    ensures var r := Handle(s, NotificationMessage(name, params), answer);
            && r.sent == s.sent && r.handlers == s.handlers
            && r.calls == s.calls + (if name in s.notificationHandlers then [Call(s.notificationHandlers[name], params)] else [])
  {
    var m := NotificationMessage(name, params);
    assert IsJsonRpc(m) && HasStringMethod(m) && !Has(m, "id");
    assert m.fields["method"].s == name;
    assert Field(m, "params") == params;
  }

  /** A request for a method nobody registered gets exactly one `-32601` failure with the same id. */
  lemma UnknownMethodFails(s: Server, id: Json, name: string, params: Option<Json>, answer: (HandlerId, Json) -> Answer)
    requires name !in s.handlers
    ensures var r := Handle(s, RequestMessage(id, name, params), answer);
            && r.sent == s.sent + [FailureMessage(id, MethodNotFound, "Method not found: " + name, None)]
            && r.calls == s.calls
  {
    RequestShape(id, name, params);
  }

  lemma RequestShape(id: Json, name: string, params: Option<Json>)
    ensures var m := RequestMessage(id, name, params);
            && IsJsonRpc(m) && HasStringMethod(m) && Has(m, "id")
            && m.fields["id"] == id && m.fields["method"].s == name && Field(m, "params") == params
  {
    var m := RequestMessage(id, name, params);
    assert "jsonrpc" in m.fields && m.fields["jsonrpc"] == Version;
    assert "params" !in map["jsonrpc" := Version, "id" := id, "method" := JStr(name)];
  }

  /** A request whose handler returns gets exactly one success with the same id and the handler's result. */
  lemma ReturningHandlerSucceeds(s: Server, id: Json, name: string, params: Option<Json>, answer: (HandlerId, Json) -> Answer)
    requires name in s.handlers
    requires answer(s.handlers[name], RequestMessage(id, name, params)).Returned?
    ensures var r := Handle(s, RequestMessage(id, name, params), answer);
            r.sent == s.sent + [SuccessMessage(id, answer(s.handlers[name], RequestMessage(id, name, params)).result)]
  {
    RequestShape(id, name, params);
  }

  /** A request whose handler throws gets exactly one `-32603` failure carrying the error's message, or "Internal error". */
  lemma ThrowingHandlerFails(s: Server, id: Json, name: string, params: Option<Json>, answer: (HandlerId, Json) -> Answer)
    requires name in s.handlers
    requires answer(s.handlers[name], RequestMessage(id, name, params)).Threw?
    ensures var e := answer(s.handlers[name], RequestMessage(id, name, params)).error;
            var r := Handle(s, RequestMessage(id, name, params), answer);
            && |r.sent| == |s.sent| + 1 && r.sent[..|s.sent|] == s.sent
            && Field(r.sent[|s.sent|], "id") == Some(id)
            && ErrorCode(r.sent[|s.sent|]) == Some(JNum(InternalError))
            && ErrorMessage(r.sent[|s.sent|]) == Some(JStr(if e.ErrorInstance? then e.message else "Internal error"))
  {
    RequestShape(id, name, params);
    var e := answer(s.handlers[name], RequestMessage(id, name, params)).error;
    var r := Handle(s, RequestMessage(id, name, params), answer);
    assert r.sent == s.sent + [InternalFailure(id, e)];
    InternalFailureShape(id, e);
  }

  lemma InternalFailureShape(id: Json, e: Thrown)
    ensures var f := InternalFailure(id, e);
            && Field(f, "id") == Some(id) && ErrorCode(f) == Some(JNum(InternalError))
            && ErrorMessage(f) == Some(JStr(if e.ErrorInstance? then e.message else "Internal error"))
  {
  }

  /**
   * Every request, whatever its handler does, gets exactly one response: it echoes the
   * request's id (a null id as null), and carries no `method`, so it is not itself a request.
   */
  lemma ExactlyOneResponse(s: Server, m: Json, answer: (HandlerId, Json) -> Answer)
    requires IsJsonRpc(m) && HasStringMethod(m) && Has(m, "id")
    ensures var r := Handle(s, m, answer);
            && |r.sent| == |s.sent| + 1 && r.sent[..|s.sent|] == s.sent
            && IsJsonRpc(r.sent[|s.sent|]) && Field(r.sent[|s.sent|], "id") == Some(m.fields["id"])
            && !Has(r.sent[|s.sent|], "method")
            && r.calls == s.calls
  {
    var r := Handle(s, m, answer);
    assert r.sent == s.sent + [Response(s, m, answer)];
    assert r.sent[..|s.sent|] == s.sent;
    ResponseShape(s, m, answer);
  }

  lemma ResponseShape(s: Server, m: Json, answer: (HandlerId, Json) -> Answer)
    requires HasStringMethod(m) && Has(m, "id")
    ensures var resp := Response(s, m, answer);
            IsJsonRpc(resp) && Field(resp, "id") == Some(m.fields["id"]) && !Has(resp, "method")
  {
    var resp := Response(s, m, answer);
    assert resp.JObj? && resp.fields["jsonrpc"] == Version && resp.fields["id"] == m.fields["id"];
  }

  /** Handling messages never changes the handler tables, and the output log is only appended to. */
  lemma {:induction false} HandleKeepsTables(s: Server, ms: seq<Json>, answer: (HandlerId, Json) -> Answer)
    decreases |ms|
    ensures var r := HandleAll(s, ms, answer);
            && r.handlers == s.handlers && r.notificationHandlers == s.notificationHandlers && r.started == s.started
            && |r.sent| >= |s.sent| && r.sent[..|s.sent|] == s.sent
  {
    if ms != [] {
      var s1 := Handle(s, ms[0], answer);
      HandleAppends(s, ms[0], answer);
      HandleKeepsTables(s1, ms[1..], answer);
      var r := HandleAll(s1, ms[1..], answer);
      assert r.sent[..|s.sent|] == r.sent[..|s1.sent|][..|s.sent|];
    }
  }

  lemma HandleAppends(s: Server, m: Json, answer: (HandlerId, Json) -> Answer)
    ensures var r := Handle(s, m, answer);
            && r.handlers == s.handlers && r.notificationHandlers == s.notificationHandlers && r.started == s.started
            && |r.sent| >= |s.sent| && r.sent[..|s.sent|] == s.sent
  {
    var r := Handle(s, m, answer);
    if r.sent != s.sent {
      assert r.sent == s.sent + [Response(s, m, answer)];
    }
  }

  /** The last registration of a method wins, for requests and for notifications. */
  lemma LastRegistrationWins(s: Server, name: string, h1: HandlerId, h2: HandlerId)
    ensures AddRequestHandler(AddRequestHandler(s, name, h1), name, h2) == AddRequestHandler(s, name, h2)
    ensures AddNotificationHandler(AddNotificationHandler(s, name, h1), name, h2) == AddNotificationHandler(s, name, h2)
  {
  }

  lemma StartIdempotent(s: Server)
    ensures MarkStarted(MarkStarted(s)) == MarkStarted(s)
  {
  }

  /** `StdioJsonRpcConnection`, with standard output as the log of written messages. */
  class StdioJsonRpcConnection {
    const decoder: FramedMessageDecoder
    /** How each registered callback ends when given a request object. */
    const answer: (HandlerId, Json) -> Answer
    var handlers: map<string, HandlerId>
    var notificationHandlers: map<string, HandlerId>
    var started: bool
    var sent: seq<Json>
    var calls: seq<Call>

    ghost function State(): Server
      reads this
    {
      Server(handlers, notificationHandlers, started, sent, calls)
    }

    ghost predicate Valid()
      reads this, decoder
    {
      decoder.Valid()
    }

    constructor (parse: Bytes -> Option<Json>, answer: (HandlerId, Json) -> Answer)
      ensures Valid() && State() == InitServer() && this.answer == answer
      ensures fresh(decoder) && decoder.Window() == [] && decoder.lengthOf == HeaderLength && decoder.parse == parse
    {
      decoder := new FramedMessageDecoder(parse);
      this.answer := answer;
      handlers, notificationHandlers := map[], map[];
      started, sent, calls := false, [], [];
    }

    method OnRequest(name: string, h: HandlerId)
      modifies this
      ensures State() == AddRequestHandler(old(State()), name, h)
    {
      handlers := handlers[name := h];
    }

    method OnNotification(name: string, h: HandlerId)
      modifies this
      ensures State() == AddNotificationHandler(old(State()), name, h)
    {
      notificationHandlers := notificationHandlers[name := h];
    }

    method Start()
      modifies this
      ensures State() == MarkStarted(old(State()))
    {
      if started {
        return;
      }
      started := true;
    }

    method Notify(name: string, params: Option<Json>)
      modifies this
      ensures State() == WithNotification(old(State()), name, params)
    {
      sent := sent + [NotificationMessage(name, params)];
    }

    method HandleMessage(m: Json)
      modifies this
      ensures State() == Handle(old(State()), m, answer)
    {
      if !IsJsonRpc(m) {
        return;
      }
      if !HasStringMethod(m) {
        return;
      }
      var name := m.fields["method"].s;
      if !Has(m, "id") {
        if name in notificationHandlers {
          calls := calls + [Call(notificationHandlers[name], Field(m, "params"))];
        }
        return;
      }
      var id := m.fields["id"];
      if name !in handlers {
        sent := sent + [FailureMessage(id, MethodNotFound, "Method not found: " + name, None)];
        return;
      }
      var outcome := answer(handlers[name], RequestMessage(id, name, Field(m, "params")));
      match outcome
      case Returned(result) =>
        sent := sent + [SuccessMessage(id, result)];
      case Threw(e) =>
        sent := sent + [InternalFailure(id, e)];
    }

    /** The `data` listener: decode the chunk, then handle every message in order (nothing before `start`). */
    method OnData(chunk: Bytes)
      requires Valid()
      modifies this, decoder, decoder.buffer
      ensures Valid()
      ensures !old(started) ==> State() == old(State()) && decoder.Window() == old(decoder.Window())
      ensures old(started) ==>
                var d := Drain(old(decoder.Window()) + chunk, decoder.lengthOf, decoder.parse);
                decoder.Window() == d.rest && State() == HandleAll(old(State()), d.msgs, answer)
    {
      if !started {
        return;
      }
      var messages := decoder.Push(chunk);
      ghost var s0 := State();
      ghost var rest := decoder.Window();
      for i := 0 to |messages|
        invariant HandleAll(s0, messages, answer) == HandleAll(State(), messages[i..], answer)
        invariant decoder.Valid() && decoder.Window() == rest
      {
        HandleMessage(messages[i]);
        assert messages[i..][1..] == messages[i + 1..];
      }
      assert messages[|messages|..] == [];
    }
  }
}
