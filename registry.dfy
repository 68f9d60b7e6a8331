/**
 * The tool registry of `src/tools/registry.ts`: the handler table built from the tool
 * definitions, `listTools`, and `callTool`, which looks a tool up by name, passes the
 * arguments through `asObject` and turns anything the handler throws into an error
 * response.
 *
 * What a handler does is foreign to the registry: a call is described by the route it
 * takes (a direct handler, or an exported function of `handlers/lsp.ts` with the
 * refactor kind when there is one) and its outcome is a parameter `run`, which also
 * stands for the shared runtime the handlers receive.
 */
module Registry {
  import opened Wrappers
  import opened Json
  import opened Args

  /** `McpTool`. */
  datatype Tool = Tool(name: string, description: string, inputSchema: Json)

  /** `McpToolCallResponse`, with its text items; `isError` absent reads as false. */
  datatype ToolResponse = ToolResponse(content: seq<string>, isError: bool)

  /** `fail(text)`. */
  function Fail(text: string): ToolResponse {
    ToolResponse([text], true)
  }

  /** `LspToolMethod`. */
  datatype LspToolMethod =
    | FindDefinition | FindReferences | WorkspaceSymbols | TypeHierarchy | RenameSymbol
    | FormatCode | OrganizeImportsTool | GetDiagnostics
    | BestEffortRefactorChangeSignature | BestEffortRefactorExtractFunction
    | BestEffortRefactorInlineFunction | BestEffortRefactorMoveItems

  /** The name of a direct handler (`def.handler`). */
  type HandlerId = string

  /** `ToolDefinition`; `lspMethod` is its `method`. */
  datatype ToolDefinition =
    | DirectTool(tool: Tool, handler: HandlerId)
    | LspTool(tool: Tool, lspMethod: LspToolMethod)

  /** The exported functions of `handlers/lsp.ts` the registry calls. */
  datatype LspFunction =
    | LspFindDefinition | LspFindReferences | LspWorkspaceSymbols | LspTypeHierarchy
    | LspRenameSymbol | LspFormatCode | LspOrganizeImportsTool | LspGetDiagnostics
    | LspBestEffortRefactor

  /** Where a call goes: a direct handler, or an lsp function with the refactor kind it is given. */
  datatype Route =
    | DirectRoute(handler: HandlerId)
    | LspRoute(target: LspFunction, refactorKind: Option<string>)

  /** How a handler call ends: `await` gives a response, or it throws an error with a message. */
  datatype Outcome = Returned(response: ToolResponse) | Threw(message: string)

  /** `McpToolCallRequest`; `arguments` may be undefined. */
  datatype Request = Request(name: string, arguments: Option<Json>)

  /** The `switch (def.method)` of an lsp definition. */
  function LspRouteOf(m: LspToolMethod): Route {
    match m
    case FindDefinition => LspRoute(LspFindDefinition, None)
    case FindReferences => LspRoute(LspFindReferences, None)
    case WorkspaceSymbols => LspRoute(LspWorkspaceSymbols, None)
    case TypeHierarchy => LspRoute(LspTypeHierarchy, None)
    case RenameSymbol => LspRoute(LspRenameSymbol, None)
    case FormatCode => LspRoute(LspFormatCode, None)
    case OrganizeImportsTool => LspRoute(LspOrganizeImportsTool, None)
    case GetDiagnostics => LspRoute(LspGetDiagnostics, None)
    case BestEffortRefactorChangeSignature => LspRoute(LspBestEffortRefactor, Some("change_signature"))
    case BestEffortRefactorExtractFunction => LspRoute(LspBestEffortRefactor, Some("extract_function"))
    case BestEffortRefactorInlineFunction => LspRoute(LspBestEffortRefactor, Some("inline_function"))
    case BestEffortRefactorMoveItems => LspRoute(LspBestEffortRefactor, Some("move_items"))
  }

  /** The handler installed for one definition. */
  function RouteOf(def: ToolDefinition): Route {
    match def
    case DirectTool(_, h) => DirectRoute(h)
    case LspTool(_, m) => LspRouteOf(m)
  }

  predicate IsRefactor(m: LspToolMethod) {
    m.BestEffortRefactorChangeSignature? || m.BestEffortRefactorExtractFunction?
    || m.BestEffortRefactorInlineFunction? || m.BestEffortRefactorMoveItems?
  }

  /**
   * Exactly the four refactor methods go to `bestEffortRefactor`, and they alone carry a
   * kind; different methods never share a route.
   */
  lemma LspRoutes(m: LspToolMethod, n: LspToolMethod)
    ensures LspRouteOf(m).target == LspBestEffortRefactor <==> IsRefactor(m)
    ensures LspRouteOf(m).refactorKind.Some? <==> IsRefactor(m)
    ensures LspRouteOf(m) == LspRouteOf(n) ==> m == n
  {
  }

  /** The tools `listTools` returns: each definition's tool, in definition order. */
  function ToolList(defs: seq<ToolDefinition>): (r: seq<Tool>)
    ensures |r| == |defs|
    ensures forall i :: 0 <= i < |defs| ==> r[i] == defs[i].tool
  {
    seq(|defs|, i requires 0 <= i < |defs| => defs[i].tool)
  }

  /** The `handlers` map after setting the first `|defs|` definitions, one after another. */
  function HandlerTable(defs: seq<ToolDefinition>): map<string, Route>
    decreases |defs|
  {
    if defs == [] then map[]
    else HandlerTable(defs[..|defs| - 1])[defs[|defs| - 1].tool.name := RouteOf(defs[|defs| - 1])]
  }

  predicate DistinctNames(defs: seq<ToolDefinition>) {
    forall i, j :: 0 <= i < j < |defs| ==> defs[i].tool.name != defs[j].tool.name
  }

  /** A tool can be called exactly when some definition has its name. */
  lemma {:induction false} HandlerTableKeys(defs: seq<ToolDefinition>, name: string)
    decreases |defs|
    ensures name in HandlerTable(defs) <==> exists i :: 0 <= i < |defs| && defs[i].tool.name == name
  {
    if defs != [] {
      var init := defs[..|defs| - 1];
      HandlerTableKeys(init, name);
      if exists i :: 0 <= i < |init| && init[i].tool.name == name {
        var i :| 0 <= i < |init| && init[i].tool.name == name;
        assert defs[i] == init[i];
      }
      if exists i :: 0 <= i < |defs| && defs[i].tool.name == name {
        var i :| 0 <= i < |defs| && defs[i].tool.name == name;
        if i < |init| {
          assert init[i] == defs[i];
        }
      }
    }
  }

  /** A name is served by the route of the last definition that has it: a later `set` replaces an earlier one. */
  lemma {:induction false} HandlerTableLast(defs: seq<ToolDefinition>, i: int)
    requires 0 <= i < |defs|
    requires forall j :: i < j < |defs| ==> defs[j].tool.name != defs[i].tool.name
    decreases |defs|
    ensures defs[i].tool.name in HandlerTable(defs)
    ensures HandlerTable(defs)[defs[i].tool.name] == RouteOf(defs[i])
  {
    if i < |defs| - 1 {
      var init := defs[..|defs| - 1];
      assert init[i] == defs[i];
      HandlerTableLast(init, i);
    }
  }

  /** With distinct names (the definitions have 22), every definition is served by its own route. */
  lemma HandlerTableDistinct(defs: seq<ToolDefinition>, i: int)
    requires DistinctNames(defs) && 0 <= i < |defs|
    ensures defs[i].tool.name in HandlerTable(defs)
    ensures HandlerTable(defs)[defs[i].tool.name] == RouteOf(defs[i])
  {
    HandlerTableLast(defs, i);
  }

  /** The results of `await handler(args)` inside the `try`: thrown errors become error responses. */
  function Settle(o: Outcome): ToolResponse {
    match o
    case Returned(resp) => resp
    case Threw(msg) => Fail(msg)
  }

  /** `callTool(request)` against a handler table. */
  function Respond(handlers: map<string, Route>, run: (Route, Record) -> Outcome, request: Request): ToolResponse {
    if request.name !in handlers then Fail("Unknown tool: " + request.name)
    else Settle(run(handlers[request.name], AsObject(request.arguments.GetOr(JNull))))
  }

  /** `createToolRegistry`: the tools to list and the handler table. */
  class ToolRegistry {
    var tools: seq<Tool>
    var handlers: map<string, Route>

    /** Fills the handler table one definition at a time, in definition order. */
    constructor (defs: seq<ToolDefinition>)
      ensures tools == ToolList(defs)
      ensures handlers == HandlerTable(defs)
    {
      tools := ToolList(defs);
      var table: map<string, Route> := map[];
      for i := 0 to |defs|
        invariant table == HandlerTable(defs[..i])
      {
        assert defs[..i + 1][..i] == defs[..i];
        var def := defs[i];
        if def.DirectTool? {
          table := table[def.tool.name := DirectRoute(def.handler)];
          continue;
        }
        table := table[def.tool.name := LspRouteOf(def.lspMethod)];
      }
      assert defs[..|defs|] == defs;
      handlers := table;
    }

    /** `listTools()`. */
    function ListTools(): seq<Tool>
      reads this
    {
      tools
    }

    /** `callTool(request)`. */
    function CallTool(run: (Route, Record) -> Outcome, request: Request): ToolResponse
      reads this
    {
      Respond(handlers, run, request)
    }
  }

  // ---------------------------------------------------------------------------
  // What the registry promises

  /** Every listed tool can be called, and only listed tools can. */
  lemma ListedIffCallable(defs: seq<ToolDefinition>, name: string)
    ensures name in HandlerTable(defs) <==> exists t :: t in ToolList(defs) && t.name == name
  {
    HandlerTableKeys(defs, name);
    var tools := ToolList(defs);
    if exists t :: t in tools && t.name == name {
      var t :| t in tools && t.name == name;
      var i :| 0 <= i < |tools| && tools[i] == t;
      assert defs[i].tool.name == name;
    }
    if exists i :: 0 <= i < |defs| && defs[i].tool.name == name {
      var i :| 0 <= i < |defs| && defs[i].tool.name == name;
      assert tools[i] in tools;
    }
  }

  /** A name no definition has is answered `Unknown tool: <name>` as an error. */
  lemma UnknownTool(defs: seq<ToolDefinition>, run: (Route, Record) -> Outcome, request: Request)
    requires forall i :: 0 <= i < |defs| ==> defs[i].tool.name != request.name
    ensures Respond(HandlerTable(defs), run, request) == Fail("Unknown tool: " + request.name)
    ensures Respond(HandlerTable(defs), run, request).isError
  {
    HandlerTableKeys(defs, request.name);
  }

  /**
   * Calling the tool of a definition (names distinct) runs that definition's route on the
   * arguments read as an object; an exception ends as an error response with its message.
   */
  lemma CallRoutes(defs: seq<ToolDefinition>, run: (Route, Record) -> Outcome, i: int, arguments: Option<Json>)
    requires DistinctNames(defs) && 0 <= i < |defs|
    ensures var o := run(RouteOf(defs[i]), AsObject(arguments.GetOr(JNull)));
            var r := Respond(HandlerTable(defs), run, Request(defs[i].tool.name, arguments));
            && (o.Returned? ==> r == o.response)
            && (o.Threw? ==> r == Fail(o.message) && r.isError)
  {
    var table := HandlerTable(defs);
    HandlerTableDistinct(defs, i);
    CallThrough(table, run, Request(defs[i].tool.name, arguments), RouteOf(defs[i]));
  }

  /** A call to a registered name settles what its route's handler does. */
  lemma CallThrough(handlers: map<string, Route>, run: (Route, Record) -> Outcome, request: Request, route: Route)
    requires request.name in handlers && handlers[request.name] == route
    ensures var o := run(route, AsObject(request.arguments.GetOr(JNull)));
            var r := Respond(handlers, run, request);
            && (o.Returned? ==> r == o.response)
            && (o.Threw? ==> r == Fail(o.message) && r.isError)
  {
  }

  /** Arguments that are not an object (or are missing) arrive at the handler as `{}`. */
  lemma NonObjectArguments(handlers: map<string, Route>, run: (Route, Record) -> Outcome, name: string, arguments: Option<Json>)
    requires arguments.None? || !arguments.value.JObj?
    ensures Respond(handlers, run, Request(name, arguments)) == Respond(handlers, run, Request(name, Some(JObj(map[]))))
  {
  }
}
