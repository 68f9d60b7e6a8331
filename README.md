# rs-code-mcp core, modelled in Dafny

rs-code-mcp is an MCP (Model Context Protocol) server that gives an agent tools for
Rust projects. It speaks JSON-RPC 2.0 with the MCP client over stdio and drives
rust-analyzer over a second JSON-RPC connection; both use LSP-style
`Content-Length` framing. Its tools do the following:

- generate Rust code;
- create modules and register them in `src/lib.rs` or `src/main.rs`;
- read `Cargo.toml`;
- run cargo;
- ask rust-analyzer for definitions and edits, then apply the resulting workspace edits to disk.

This project models that core and proves its properties. One Dafny module covers each source file:

| Dafny module (file) | source |
|---|---|
| `Framing` (framing.dfy) | `src/jsonrpc/framing.ts`: message encoding, the `Content-Length` header parser, and the streaming `FramedMessageDecoder` over a growable byte buffer |
| `Stdio` (stdio.dfy) | `src/jsonrpc/stdio.ts`: the server side, which dispatches requests and notifications and answers each request exactly once |
| `Streams` (streams.dfy) | `src/jsonrpc/streams.ts`: the client side, which tracks request ids and pending calls, settles responses, and rejects all pending calls on close |
| `TextEdits` (text_edits.dfy) | `src/lsp/workspaceEdit.ts`, lines 1-47: line-end detection, normalisation and restoration, line offsets, and `applyTextEdits` |
| `WorkspaceEdit` (workspace_edit.dfy) | `src/lsp/workspaceEdit.ts`, lines 49-117: `applyWorkspaceEditToDisk` with its `changes` and `documentChanges` (create, rename, delete, text edits) |
| `Documents` (documents.dfy) | `src/lsp/documents.ts`: the open-document store, with versioning and the `didOpen`/`didChange` notifications |
| `Toml` (toml.dfy) | `src/tools/toml.ts`: the light TOML reader and `analyzeCargoToml` |
| `RustModule` (rust_module.dfy) | `src/tools/module.ts`: `createRustModule` |
| `Codegen` (codegen.dfy) | `src/tools/codegen.ts`: struct, enum, trait-impl and test templates |
| `Args` (args.dfy) | `src/tools/args.ts`: argument readers |
| `Cargo` (cargo.dfy) | `src/tools/handlers/cargo.ts`: the cargo tools |
| `LspHandlers` (lsp_handlers.dfy) | `src/tools/handlers/lsp.ts`: `normalizeLocations` and `extractSnippet` |
| `Registry` (registry.dfy) | `src/tools/registry.ts`: the tool list, routing, and error wrapping |
| `Cli` (cli.dfy) | `index.ts`: `parseCli` |

Shared modules:

- `Wrappers` holds `Option` and `Result`.
- `JsText` holds the JavaScript string operations the source relies on: `trim`, `indexOf`, `split`, `join`, `parseInt` and number printing.
- `Json` holds the JSON value type and `JSON.stringify`/`JSON.parse` as a codec.
- `FileSystems` holds files as a map from path to text.

How the code is shaped:

- Code that mutates objects in place is a `class` with the same fields. This covers the decoder's buffer
  and offsets, the two connections, the document store, the file system and the tool
  registry. Each method's `ensures` ties the new state to a function of the old one, and
  lemmas state what the source promises about that function.
- Loops are `while`/`for` loops with invariants. This covers `push`, `ensureCapacity`, `buildLineOffsets`,
  `applyTextEdits`, `parseTomlLight`, `normalizeLocations`, `parseCli` and the registry's
  table-filling loop.
- Pure code is functions and lemmas.

Things outside the program become parameters:

- `JSON.stringify`/`JSON.parse` are the codec. The round-trip lemmas assume it is sound (`Sound`).
- `runtime.runCargo` is `runCargo`.
- A tool handler's outcome is `run`.
- A request handler's outcome is `answer`.
- The `file://` URI conversions and `resolveIn` are `pathOf`, `resolve` and `toUri`.
- The working directory is `cwd`.

Where the code and its documented intent disagree, the model follows the code. One case:
- The situation: a `rename` in `documentChanges` without `overwrite` or `ignoreIfExists`, onto a target that already exists.
- The documented intent: fail with `Target exists`.
- What the code does: the `throw` at `src/lsp/workspaceEdit.ts:94` sits inside the `try` whose `catch`
  (lines 96-98) swallows it, so the rename goes ahead and replaces the target.
- In the model: `WorkspaceEdit.RenameMoves` and `WorkspaceEdit.RenameOverwritesTarget` state this as-written behaviour.

The one place where the model corrects the code, a negative `Content-Length`, is listed under "## Findings" with both the as-written pass and the corrected one.

## Model

| member | source | states |
|---|---|---|
| Framing.AsciiBytes | src/jsonrpc/framing.ts:10 | the UTF-8 bytes of an ASCII header are one byte per character, with the same code |
| Framing.DecodeAscii | src/jsonrpc/framing.ts:44 | decoding the bytes of an ASCII string gives the string back |
| Framing.Utf8Step | src/jsonrpc/framing.ts:3 | one step of the UTF-8 decoder of the Encoding Standard: it takes 1 to 4 bytes; an ASCII byte alone is itself; a character other than U+FFFD comes only from a lead byte and continuation bytes |
| Framing.Utf8Decode | src/jsonrpc/framing.ts:3 | UTF-8 decoding step by step gives never more characters than bytes |
| Framing.DecodeHeader | src/jsonrpc/framing.ts:44 | `TextDecoder.decode` with default options: a leading byte order mark `EF BB BF` is dropped and the rest is decoded as UTF-8 |
| Framing.Utf8DecodeAscii | src/jsonrpc/framing.ts:44 | ASCII bytes decode to themselves, whatever bytes follow them |
| Framing.NoBreakSpaceDecoded | src/jsonrpc/framing.ts:44 | the bytes `C2 A0` decode to the single character U+00A0 |
| Framing.InvalidByteReplaced | src/jsonrpc/framing.ts:44 | a byte that cannot start a UTF-8 sequence decodes to one U+FFFD on its own |
| Framing.NoBreakSpaceBeforeValue | src/jsonrpc/framing.ts:44-45 | `Content-Length:` then the bytes `C2 A0` then the digits of `n` declares `n`: the no-break space decodes to U+00A0, which `trim` removes |
| Framing.HeaderLine | src/jsonrpc/framing.ts:9 | the header line written for a body is ASCII and holds no `\r` |
| Framing.EncodeJsonRpcMessage | src/jsonrpc/framing.ts:6-15 | a frame is as long as its header line, plus the 4-byte delimiter, plus the serialized body |
| Framing.HeaderLineParses | src/jsonrpc/framing.ts:17-29 | the header the encoder writes parses back to exactly the body length |
| Framing.HeaderBytesLength | src/jsonrpc/framing.ts:44-45 | the header bytes the encoder writes, decoded and parsed, declare the body length |
| Framing.ContentLengthFirstMatch | src/jsonrpc/framing.ts:19-27 | the first line whose trimmed, lower-cased key is `content-length` decides the result, as `parseInt` of its trimmed value |
| Framing.ContentLengthAbsent | src/jsonrpc/framing.ts:28 | with no `content-length` key on any line, there is no length |
| Framing.SingleContentLengthLine | src/jsonrpc/framing.ts:18-26 | a one-line header block whose key is `content-length` in any case and spacing declares `parseInt` of its value |
| Framing.TryParseContentLength | src/jsonrpc/framing.ts:17-29 | the declared length of a header block, or none; `ContentLengthFirstMatch`, `ContentLengthAbsent` and `SingleContentLengthLine` state what it returns |
| Framing.Scan | src/jsonrpc/framing.ts:41-54 | one pass's decision about the head of the window: no delimiter yet; a header to skip (no usable or a negative length, see Findings); a body not yet complete; or a complete body, which lies inside the window |
| Framing.Drain | src/jsonrpc/framing.ts:40-65 | the decode loop as a function of the window: the messages emitted and the bytes left; `DrainAppend`, `FramesDecode`, `SkipsHeaderWithoutLength` and `UnparsableBodyDropped` state its properties |
| Framing.AsWrittenNext | src/jsonrpc/framing.ts:41-57 | one pass as written, with a declared length taken as it stands: where `start` moves, or none when the pass breaks; it never moves past the window's end |
| Framing.AsWrittenAgrees | src/jsonrpc/framing.ts:41-57 | for lengths that are not negative, the pass as written moves `start` exactly where `Scan` says |
| Framing.NegativeLengthStalls | src/jsonrpc/framing.ts:52-57 | a header of `h` bytes declaring `-(h + 4)` sets `start` back to where the pass began, so the loop sees the same window again |
| Framing.NegativeLengthRewinds | src/jsonrpc/framing.ts:52-57 | a length below `-(h + 4)` moves `start` before the window |
| Framing.NegativeLengthExample | src/jsonrpc/framing.ts:44-57 | on `Content-Length: -n` and the delimiter, the pass as written moves `start` to the window's length minus `n` |
| Framing.NegativeLengthStallsOn23 | src/jsonrpc/framing.ts:52-57 | `Content-Length: -23\r\n\r\n` is 23 bytes long, and the pass as written leaves `start` where it was |
| Framing.NegativeLengthSkipped | src/jsonrpc/framing.ts:46-50 | corrected: a header declaring a negative length is skipped through its delimiter, like one declaring none |
| Framing.NegativeLengthExampleSkipped | src/jsonrpc/framing.ts:46-50 | corrected: `Content-Length: -n\r\n\r\n` is consumed whole and yields no message |
| Framing.ScanAppend | src/jsonrpc/framing.ts:41-54 | once the decode loop has decided on the head of the window, more bytes after it do not change the decision |
| Framing.DrainAppend | src/jsonrpc/framing.ts:36-68 | decoding a window and then further bytes equals decoding the longer window at once |
| Framing.FrameDelim | src/jsonrpc/framing.ts:41 | in an encoded frame, the first `\r\n\r\n` ends the header line |
| Framing.FrameLength | src/jsonrpc/framing.ts:44-45 | the header of an encoded frame declares the length of its body |
| Framing.ScanFrame | src/jsonrpc/framing.ts:41-54 | the decode loop sees an encoded frame as one complete frame whose body is the whole rest |
| Framing.ScanEncoded | src/jsonrpc/framing.ts:52-56 | a header without `\r` that declares the body's length, then the delimiter, then the body, makes one complete frame |
| Framing.FrameRoundTrip | tests/framing.test.ts:5-12 | for a sound codec, the frame of `m` decodes to exactly `[m]` and leaves nothing buffered |
| Framing.FramePrefixWaits | src/jsonrpc/framing.ts:42-54 | any strict prefix of a frame is held back whole: nothing is emitted and nothing is consumed |
| Framing.PrefixWaits | src/jsonrpc/framing.ts:42-54 | a strict prefix of a window holding exactly one frame emits nothing and consumes nothing |
| Framing.AdvanceFrame | src/jsonrpc/framing.ts:56-64 | one pass of the loop over a complete frame keeps the loop invariant: the messages so far, plus what the rest decodes to |
| Framing.DrainNoHeader | src/jsonrpc/framing.ts:41-42 | a window without the delimiter emits nothing and keeps its bytes |
| Framing.DrainIncomplete | src/jsonrpc/framing.ts:52-54 | a window whose body is not yet complete emits nothing and keeps its bytes |
| Framing.DrainLastFrame | src/jsonrpc/framing.ts:56-64 | a window that is exactly one complete frame yields its body's message, if it parses, and nothing remains |
| Framing.SplitFrameDecodes | tests/framing.test.ts:14-23 | a frame split at any point yields `[]` for the first part, then `[m]` once the rest arrives |
| Framing.DrainOneMore | src/jsonrpc/framing.ts:40-65 | a fully decoded window followed by one frame that decodes alone decodes to one more message |
| Framing.DrainFrames | src/jsonrpc/framing.ts:40-65 | frames back to back, each of which decodes alone to its message, decode to all the messages in order |
| Framing.FramesDecode | src/jsonrpc/framing.ts:6-68 | the peer's decoder recovers exactly the messages written, in order, with nothing left over |
| Framing.SkipsHeaderWithoutLength | src/jsonrpc/framing.ts:46-50 | a header block with no usable length is skipped entirely, through its delimiter |
| Framing.IncompleteBodyWaits | src/jsonrpc/framing.ts:54 | a frame whose body is incomplete emits nothing and keeps the window from its header on |
| Framing.UnparsableBodyDropped | src/jsonrpc/framing.ts:60-64 | a complete body that fails to parse is consumed but not emitted |
| Framing.DoubleCapacity | src/jsonrpc/framing.ts:84 | doubling a capacity (8192 times a power of two) gives a capacity |
| Framing.FramedMessageDecoder.constructor | src/jsonrpc/framing.ts:32-34 | a fresh decoder has an empty window in an 8192-byte buffer |
| Framing.FramedMessageDecoder.Push | src/jsonrpc/framing.ts:36-68 | the messages returned, and the bytes left buffered, are what the complete frames of the old window plus the chunk decode to |
| Framing.FramedMessageDecoder.NextFrame | src/jsonrpc/framing.ts:41-58 | one loop pass decides as `Scan` of the window, consumes the skipped header or the complete frame, and hands back the body |
| Framing.FramedMessageDecoder.TakeBody | src/jsonrpc/framing.ts:56-58 | the body is the window's bytes between the two offsets, and the window then starts after it |
| Framing.FramedMessageDecoder.ScanBuffer | src/jsonrpc/framing.ts:41-54 | the decisions read off the buffer (delimiter, length, enough bytes) are `Scan` of the window, a negative length included |
| Framing.FramedMessageDecoder.Consume | src/jsonrpc/framing.ts:47-48 | setting `start` and compacting drops exactly the first bytes of the window |
| Framing.FramedMessageDecoder.Append | src/jsonrpc/framing.ts:70-74 | the window afterwards is the old window followed by the chunk |
| Framing.FramedMessageDecoder.CopyIn | src/jsonrpc/framing.ts:72-73 | copying the chunk after `end` extends the window by the chunk, in the same buffer |
| Framing.FramedMessageDecoder.EnsureCapacity | src/jsonrpc/framing.ts:76-90 | afterwards at least `need` bytes are free after the window; the window is unchanged; the buffer is only replaced by a larger fresh one, and untouched when there was room |
| Framing.FramedMessageDecoder.GrownSize | src/jsonrpc/framing.ts:83-84 | the doubling loop stops at the first doubled size with room for `need` after the used bytes |
| Framing.FramedMessageDecoder.Relocate | src/jsonrpc/framing.ts:85-89 | the window moves to offset 0 of a fresh buffer of the new size, with its contents unchanged |
| Framing.FramedMessageDecoder.CompactIfNeeded | src/jsonrpc/framing.ts:92-103 | the window's contents are unchanged; it moves to 0 when drained or when `start >= 4096`, and otherwise stays where it is |
| Framing.FramedMessageDecoder.ShiftDown | src/jsonrpc/framing.ts:100-102 | copying the window within the buffer moves it to offset 0 with its contents unchanged |
| Framing.FramedMessageDecoder.IndexOfDelim | src/jsonrpc/framing.ts:105-111 | the result is the buffer index of the first delimiter lying wholly inside the window, or -1 |
| Framing.DeliverInTwoChunks | tests/framing.test.ts:14-23 | a fresh decoder pushed a frame in two pieces returns `[]`, then `[m]` |
| Stdio.Optional | src/jsonrpc/stdio.ts:74 | an optional member (`params`) is present exactly when defined, as `JSON.stringify` drops undefined members |
| Stdio.AddRequestHandler | src/jsonrpc/stdio.ts:51-53 | the method is served by the new handler; every other method keeps its registration and handler; the notification table, `started`, the output and the callbacks run are unchanged |
| Stdio.AddNotificationHandler | src/jsonrpc/stdio.ts:55-57 | the notification method is served by the new handler; every other notification method keeps its handler; the rest of the state is unchanged |
| Stdio.MarkStarted | src/jsonrpc/stdio.ts:59-61 | after `start` the connection is started; the handler tables, output and callbacks run are unchanged |
| Stdio.WithNotification | src/jsonrpc/stdio.ts:73-76 | `notify` writes exactly one message, and it carries no `id` |
| Stdio.IgnoredMessage | src/jsonrpc/stdio.ts:80-81 | a message that is not JSON-RPC 2.0, or has no string `method` (responses included), changes nothing |
| Stdio.NotificationNotAnswered | src/jsonrpc/stdio.ts:83-93 | a notification is never answered; its registered callback, if any, runs once with its params |
| Stdio.UnknownMethodFails | src/jsonrpc/stdio.ts:96-100 | a request for an unregistered method gets exactly one `-32601` `Method not found: <method>` failure with its id |
| Stdio.RequestShape | src/jsonrpc/stdio.ts:103 | the request handed to a handler is JSON-RPC 2.0 with the same id, method and params |
| Stdio.ReturningHandlerSucceeds | src/jsonrpc/stdio.ts:102-104 | a request whose handler returns gets exactly one success with its id and the handler's result |
| Stdio.ThrowingHandlerFails | src/jsonrpc/stdio.ts:105-114 | a request whose handler throws gets exactly one `-32603` failure with its id and the error's message, or `Internal error` for a non-Error |
| Stdio.InternalFailureShape | src/jsonrpc/stdio.ts:106-113 | the catch branch's response carries the id, code `-32603` and the error's message or `Internal error` |
| Stdio.ExactlyOneResponse | src/jsonrpc/stdio.ts:95-115 | every request gets exactly one response, appended to the output; it echoes the id (a null id as null) and has no `method` |
| Stdio.ResponseShape | src/jsonrpc/stdio.ts:95-115 | every response is JSON-RPC 2.0, echoes the request id and carries no `method` |
| Stdio.Handle | src/jsonrpc/stdio.ts:78-116 | the state after `handleMessage` runs to completion; `IgnoredMessage`, `NotificationNotAnswered`, `ExactlyOneResponse` and `HandleAppends` state what it does |
| Stdio.Response | src/jsonrpc/stdio.ts:95-115 | the one response a request gets; `UnknownMethodFails`, `ReturningHandlerSucceeds`, `ThrowingHandlerFails` and `ResponseShape` state its cases |
| Stdio.HandleKeepsTables | src/jsonrpc/stdio.ts:63-66 | handling any sequence of messages leaves the handler tables and the started flag alone, and only appends to the output |
| Stdio.HandleAppends | src/jsonrpc/stdio.ts:78-116 | handling one message leaves the handler tables alone and only appends to the output |
| Stdio.LastRegistrationWins | src/jsonrpc/stdio.ts:51-57 | registering a method twice is registering the second handler, for requests and for notifications |
| Stdio.StartIdempotent | src/jsonrpc/stdio.ts:59-61 | starting twice is starting once |
| Stdio.StdioJsonRpcConnection.constructor | src/jsonrpc/stdio.ts:45-49 | a new connection has empty tables, is not started, and has a fresh, empty decoder |
| Stdio.StdioJsonRpcConnection.OnRequest | src/jsonrpc/stdio.ts:51-53 | state afterwards is `AddRequestHandler` of the old state |
| Stdio.StdioJsonRpcConnection.OnNotification | src/jsonrpc/stdio.ts:55-57 | state afterwards is `AddNotificationHandler` of the old state |
| Stdio.StdioJsonRpcConnection.Start | src/jsonrpc/stdio.ts:59-67 | state afterwards is `MarkStarted` of the old state |
| Stdio.StdioJsonRpcConnection.Notify | src/jsonrpc/stdio.ts:73-76 | state afterwards is `WithNotification` of the old state |
| Stdio.StdioJsonRpcConnection.HandleMessage | src/jsonrpc/stdio.ts:78-116 | state afterwards is `Handle` of the old state and the message |
| Stdio.StdioJsonRpcConnection.OnData | src/jsonrpc/stdio.ts:63-66 | before `start` nothing happens; afterwards the chunk is decoded and every decoded message handled in order, and the decoder keeps the undecoded rest |
| Streams.MarkStarted | src/jsonrpc/streams.ts:16-18 | after `start` the connection is started; ids, pending and settled requests, handlers, output and callbacks run are unchanged |
| Streams.AddNotificationHandler | src/jsonrpc/streams.ts:31-33 | the method is served by the new callback; every other method keeps its callback; the rest of the state is unchanged |
| Streams.SendRequest | src/jsonrpc/streams.ts:35-42 | a request takes the current `nextId`, which then goes up by one |
| Streams.SendNotification | src/jsonrpc/streams.ts:44-47 | `notify` writes exactly one message, and it carries no `id` |
| Streams.ResponseOutcome | src/jsonrpc/streams.ts:67-72 | a response rejects its call exactly when it has an `error` member |
| Streams.InitInv | src/jsonrpc/streams.ts:5-9 | a new connection satisfies the id invariant, with `nextId` 1 |
| Streams.RequestFresh | src/jsonrpc/streams.ts:35-42 | a request takes an id never used before, adds it alone to the pending table and writes one request carrying it, keeping the invariant |
| Streams.ResponseSettlesOnce | src/jsonrpc/streams.ts:62-73 | a response to a pending id settles that call for the first time, with its outcome, and removes it from the table |
| Streams.StaleResponseIgnored | src/jsonrpc/streams.ts:63-64 | a response whose id is not pending (unknown, non-numeric, duplicate or stale) changes nothing |
| Streams.DuplicateResponseIgnored | src/jsonrpc/streams.ts:63-65 | the same response delivered twice settles its call once |
| Streams.ForeignMessageIgnored | src/jsonrpc/streams.ts:54 | a message whose `jsonrpc` is not "2.0" is ignored |
| Streams.ErrorTakesPrecedence | src/jsonrpc/streams.ts:67-69 | with both `error` and `result`, the call is rejected with the error's message (default `JSON-RPC error`), code and data |
| Streams.NotificationDispatched | src/jsonrpc/streams.ts:56-60 | a peer notification runs its method's callback, if any, with its params, and touches nothing else |
| Streams.LastHandlerWins | src/jsonrpc/streams.ts:31-33 | registering a callback again replaces the earlier one |
| Streams.CloseRejectsAll | src/jsonrpc/streams.ts:25-28 | closing rejects every pending call once with the stream-closed error, leaves settled calls alone and empties the table |
| Streams.StartIdempotent | src/jsonrpc/streams.ts:16-18 | starting twice is starting once |
| Streams.NotifyCreatesNoPending | src/jsonrpc/streams.ts:44-47 | a notification creates no pending entry and uses no id |
| Streams.Receive | src/jsonrpc/streams.ts:53-74 | what one parsed message does to the connection; `ResponseSettlesOnce`, `StaleResponseIgnored`, `NotificationDispatched` and `ReceiveKeepsInv` state its cases |
| Streams.Close | src/jsonrpc/streams.ts:25-28 | the `close` listener; `CloseRejectsAll` states that every pending call is rejected once and the table emptied |
| Streams.ReceiveKeepsInv | src/jsonrpc/streams.ts:53-74 | handling a message keeps the invariant and `nextId`, and never changes a settled outcome |
| Streams.HandleAllKeepsInv | src/jsonrpc/streams.ts:20-23 | handling the messages of a chunk in order keeps the invariant |
| Streams.StepKeepsInv | src/jsonrpc/streams.ts:16-74 | any one operation keeps the invariant and every settled outcome |
| Streams.RunKeepsInv | src/jsonrpc/streams.ts:7-8 | along any run, ids `1 .. nextId-1` are exactly the ids handed out, each pending or settled, and a settled call never changes outcome |
| Streams.StreamJsonRpcConnection.constructor | src/jsonrpc/streams.ts:5-14 | a new connection is in the initial state with a fresh, empty decoder |
| Streams.StreamJsonRpcConnection.Start | src/jsonrpc/streams.ts:16-29 | state afterwards is `MarkStarted` of the old state |
| Streams.StreamJsonRpcConnection.OnNotification | src/jsonrpc/streams.ts:31-33 | state afterwards is `AddNotificationHandler` of the old state |
| Streams.StreamJsonRpcConnection.Request | src/jsonrpc/streams.ts:35-42 | state and id afterwards are `SendRequest` of the old state |
| Streams.StreamJsonRpcConnection.Notify | src/jsonrpc/streams.ts:44-47 | state afterwards is `SendNotification` of the old state |
| Streams.StreamJsonRpcConnection.HandleIncoming | src/jsonrpc/streams.ts:53-74 | state afterwards is `Receive` of the old state and the message |
| Streams.StreamJsonRpcConnection.OnClose | src/jsonrpc/streams.ts:25-28 | state afterwards is `Close` of the old state |
| Streams.StreamJsonRpcConnection.OnData | src/jsonrpc/streams.ts:20-23 | the chunk is decoded and every decoded message handled in order; the decoder keeps the undecoded rest |
| TextEdits.DetectEol | src/lsp/workspaceEdit.ts:6-8 | CRLF exactly when the text contains `\r\n` somewhere |
| TextEdits.NormalizeEol | src/lsp/workspaceEdit.ts:10-12 | every `\r\n` becomes `\n`; `NormalizeWithoutCr`, `NormalizeRestore` and `NormalizeNotIdempotent` state its properties |
| TextEdits.RestoreEol | src/lsp/workspaceEdit.ts:14-17 | under CRLF every `\n` becomes `\r\n`; `RestoreLfIdentity` and `NormalizeRestore` state its properties |
| TextEdits.RestoreLfIdentity | src/lsp/workspaceEdit.ts:15 | restoring LF line ends changes nothing |
| TextEdits.NormalizeRestore | src/lsp/workspaceEdit.ts:10-17 | for text without `\r`, normalizing undoes restoring CRLF |
| TextEdits.NormalizeWithoutCr | src/lsp/workspaceEdit.ts:10-12 | normalizing text without `\r` changes nothing |
| TextEdits.NoCrlfWithoutCr | src/lsp/workspaceEdit.ts:6-8 | text without `\r` has LF line ends |
| TextEdits.NormalizeNotIdempotent | src/lsp/workspaceEdit.ts:10-12 | `replaceAll` makes one pass: `\r\r\n` becomes `\r\n`, which a second pass turns into `\n` |
| TextEdits.BuildLineOffsets | src/lsp/workspaceEdit.ts:19-25 | the loop computes the line-start table: 0, then one past each `\n` |
| TextEdits.LineStartsShape | src/lsp/workspaceEdit.ts:19-25 | the table starts at 0, has one entry more than there are `\n`s, strictly increases, and every later entry lies one past a `\n` |
| TextEdits.LineStartsComplete | src/lsp/workspaceEdit.ts:22 | every `\n` in the text starts a line in the table |
| TextEdits.OffsetAt | src/lsp/workspaceEdit.ts:27-30 | a position's offset; `OffsetInBounds`, `OffsetPastLastLine` and `OffsetSpills` state its properties |
| TextEdits.OffsetInBounds | src/lsp/workspaceEdit.ts:27-30 | for a non-negative position the offset lies within the text |
| TextEdits.OffsetPastLastLine | src/lsp/workspaceEdit.ts:28 | a line past the last one yields the text's length |
| TextEdits.OffsetSpills | src/lsp/workspaceEdit.ts:29 | a character past its line's end is not clamped to the line but runs on into the next lines, up to the text's end |
| TextEdits.SortByStartDesc | src/lsp/workspaceEdit.ts:40 | the result is sorted by descending start and is a permutation of the input |
| TextEdits.InsertPermutes | src/lsp/workspaceEdit.ts:40 | one insertion step adds the element and keeps every other one |
| TextEdits.InsertSorted | src/lsp/workspaceEdit.ts:40 | one insertion step keeps a descending list descending |
| TextEdits.SortStable | src/lsp/workspaceEdit.ts:40 | the sort is stable: edits with the same start keep their input order |
| TextEdits.SortedUnique | src/lsp/workspaceEdit.ts:40 | two descending lists with the same elements and distinct starts are the same list |
| TextEdits.LocatePermutation | src/lsp/workspaceEdit.ts:34-39 | locating two permutations of the same edits gives permutations of the same located edits |
| TextEdits.TextEditsResult | src/lsp/workspaceEdit.ts:32-47 | what `applyTextEdits` returns; `NoEdits`, `SingleEdit`, `OrderIndependent` and `NonOverlappingEdits` state its properties |
| TextEdits.ApplyTextEdits | src/lsp/workspaceEdit.ts:32-47 | the loop splices the located edits, in descending start order, into the text: `TextEditsResult` |
| TextEdits.NoEdits | src/lsp/workspaceEdit.ts:42-46 | no edits, no change |
| TextEdits.SingleEdit | src/lsp/workspaceEdit.ts:44 | one edit within the text replaces exactly `[start, end)` by its new text |
| TextEdits.OrderIndependent | src/lsp/workspaceEdit.ts:32-47 | reordering the edits changes nothing when no two of them land on the same start offset |
| TextEdits.ApplySuffix | src/lsp/workspaceEdit.ts:43-45 | splicing edits that stay within a prefix leaves what follows it alone |
| TextEdits.ApplyIsReference | src/lsp/workspaceEdit.ts:43-45 | applying descending, non-overlapping edits one after another equals splicing each into the original text |
| TextEdits.NonOverlappingEdits | src/lsp/workspaceEdit.ts:32-47 | when the sorted edits do not overlap and lie within the text, the result splices each edit into its range of the original text |
| TextEdits.HelloExample | tests/workspaceEdit.test.ts:14-20 | inserting `A` at 0:0 and `B` at 0:5 of `hello` gives `AhelloB`, in either order |
| WorkspaceEdit.WorkspaceEditResult | src/lsp/workspaceEdit.ts:56-117 | the files, and the summary or the error, after `applyWorkspaceEditToDisk`; `ChangesFirst`, `SummaryAppendOnly` and `FailureStops` state its properties |
| WorkspaceEdit.ChangeStep | src/lsp/workspaceEdit.ts:76-113 | one `documentChanges` entry; `CreateWrites` through `UnknownIgnored` state its cases |
| WorkspaceEdit.EditStep | src/lsp/workspaceEdit.ts:59-67 | `applyEditsForUri`; `EditMissingFile`, `EditExistingFile`, `EditedLfText` and `EditedCrlfText` state its cases |
| WorkspaceEdit.ApplyWorkspaceEditToDisk | src/lsp/workspaceEdit.ts:56-117 | the files afterwards, and the summary or the error, are those of `WorkspaceEditResult` of the old files |
| WorkspaceEdit.ApplyEditsForUri | src/lsp/workspaceEdit.ts:59-67 | read, normalize, apply, restore line ends, write and record: `EditStep` of the old files and summary |
| WorkspaceEdit.ApplyDocumentChange | src/lsp/workspaceEdit.ts:77-113 | one `documentChanges` entry against the file system: `ChangeStep` of the old files and summary |
| WorkspaceEdit.ChangeStepAppends | src/lsp/workspaceEdit.ts:76-113 | one document change only appends to the summary's lists |
| WorkspaceEdit.SummaryAppendOnly | src/lsp/workspaceEdit.ts:75-115 | the summary is only appended to, whatever the changes and however the run ends |
| WorkspaceEdit.ChangesRecordedInOrder | src/lsp/workspaceEdit.ts:69-73 | when the `changes` entries all succeed, their paths are recorded as changed, in entry order, and nothing else |
| WorkspaceEdit.NoErrorBefore | src/lsp/workspaceEdit.ts:69-73 | a run of `changes` that ends without error had no error at its start |
| WorkspaceEdit.EditStepRecords | src/lsp/workspaceEdit.ts:66 | a successful edit records its path once as changed |
| WorkspaceEdit.ChangesFirst | src/lsp/workspaceEdit.ts:69-75 | document changes run after the `changes` map: every `changes` path is in the changed files |
| WorkspaceEdit.FailureStops | src/lsp/workspaceEdit.ts:76-114 | after an error nothing more happens: later changes are neither applied nor recorded |
| WorkspaceEdit.EditedLfText | src/lsp/workspaceEdit.ts:61-65 | a file without `\r` is written back as just the edited text |
| WorkspaceEdit.EditedCrlfText | src/lsp/workspaceEdit.ts:61-65 | a CRLF file is edited in its LF form and written back with CRLF line ends |
| WorkspaceEdit.CreateWrites | src/lsp/workspaceEdit.ts:81-83 | a `create` that overwrites, or makes a new file, leaves an empty file and records it |
| WorkspaceEdit.CreateExisting | src/lsp/workspaceEdit.ts:84-85 | a `create` of an existing file without `overwrite` fails with `File exists`, unless `ignoreIfExists` keeps it untouched and unrecorded |
| WorkspaceEdit.RenameSkipped | src/lsp/workspaceEdit.ts:91-95 | a `rename` onto an existing target with `ignoreIfExists` and without `overwrite` is skipped |
| WorkspaceEdit.RenameMoves | src/lsp/workspaceEdit.ts:91-101 | in every other case an existing source is renamed and recorded, replacing any target, since the `Target exists` error is swallowed |
| WorkspaceEdit.RenameOverwritesTarget | src/lsp/workspaceEdit.ts:94-100 | with neither flag, renaming `/a` onto an existing `/b` replaces `/b`'s old text |
| WorkspaceEdit.RenameMissingSource | src/lsp/workspaceEdit.ts:100 | renaming a missing file fails with the rename's error, unless the rename was skipped |
| WorkspaceEdit.DeleteRecords | src/lsp/workspaceEdit.ts:104-106 | `delete` removes the file and records it, also for a missing file when `ignoreIfNotExists` is set; other files stay |
| WorkspaceEdit.DeleteMissing | src/lsp/workspaceEdit.ts:107-109 | deleting a missing file without `ignoreIfNotExists` fails with `Failed to delete: <path>` |
| WorkspaceEdit.UnknownIgnored | src/lsp/workspaceEdit.ts:77-113 | entries with an unknown kind, or with neither `kind` nor `textDocument`, are ignored |
| WorkspaceEdit.EditMissingFile | src/lsp/workspaceEdit.ts:61 | editing a missing file fails with the read error and changes nothing |
| WorkspaceEdit.EditExistingFile | src/lsp/workspaceEdit.ts:59-67 | editing an existing file rewrites that file only and records it as changed |
| FileSystems.Renamed | src/lsp/workspaceEdit.ts:100 | `fs.rename` moves the text to the target, removes the source, and leaves every other file as it was |
| Documents.VersionsAppend | src/lsp/documents.ts:41-43 | one more notification adds its version to its URI's list of versions and to no other |
| Documents.AddKeepsInv | src/lsp/documents.ts:38-43 | a new document at version 1, announced with version 1, keeps the versions invariant |
| Documents.BumpKeepsInv | src/lsp/documents.ts:56-61 | raising a version by one, announced with the new version, keeps the invariant |
| Documents.NextNoteOf | src/lsp/documents.ts:56-61 | after the next notification about a URI, each URI's announced versions are `1 .. its version` |
| Documents.NextVersion | src/lsp/documents.ts:56 | the versions up to `v + 1` are those up to `v` followed by `v + 1` |
| Documents.OpenedKeepsInv | src/lsp/documents.ts:35-43 | the first open of a document starts its announced versions at 1, and the others keep theirs |
| Documents.ReloadedKeepsInv | src/lsp/documents.ts:53-61 | a reload announces exactly the next version of its document and leaves the others alone |
| Documents.TextSetKeepsInv | src/lsp/documents.ts:69-76 | setting the text announces exactly the next version of its document |
| Documents.FlushReloadRoundTrip | src/lsp/documents.ts:79-84 | writing a document back and reading it again gives the same text; the line ends survive unless a CRLF document has no line break left |
| Documents.CrlfSurvives | src/lsp/documents.ts:16-19 | restoring CRLF in text with a line break produces a `\r\n` |
| Documents.RestoreSplit | src/lsp/documents.ts:18 | restoring line ends distributes over concatenation |
| Documents.LspDocumentStore.constructor | src/lsp/documents.ts:22-27 | a new store has no open documents and has sent nothing |
| Documents.LspDocumentStore.Send | src/lsp/documents.ts:41-43 | a notification goes out through the connection's `notify` |
| Documents.LspDocumentStore.OpenIfNeeded | src/lsp/documents.ts:29-46 | an open URI gives its stored record and sends nothing; a missing file gives the read error; otherwise the record is opened at version 1 and `didOpen` is sent |
| Documents.LspDocumentStore.UpdateFromDisk | src/lsp/documents.ts:48-62 | a URI that is not open changes nothing; a missing file gives the read error; otherwise the record takes the disk's text and line ends and its next version, and `didChange` is sent |
| Documents.LspDocumentStore.Reload | src/lsp/documents.ts:53-61 | the open record takes the text read and its next version, and the change is announced |
| Documents.LspDocumentStore.GetOpenText | src/lsp/documents.ts:64-66 | the stored text exactly when the URI is open, nothing otherwise |
| Documents.LspDocumentStore.SetOpenText | src/lsp/documents.ts:68-77 | a URI that is not open changes nothing; otherwise the record takes the new text verbatim and its next version, and `didChange` is sent |
| Documents.LspDocumentStore.FlushToDisk | src/lsp/documents.ts:79-84 | an open document is written to its file with its line ends restored; no other file changes |
| Toml.Get | src/tools/toml.ts:43 | a key has a value exactly when some entry has that key |
| Toml.Put | src/tools/toml.ts:75 | the key then holds the value; every other key is unchanged; a new key goes last |
| Toml.PutSame | src/tools/toml.ts:75 | storing a value a key already has changes nothing |
| Toml.PutTwice | src/tools/toml.ts:75 | a second store under the same key replaces the first |
| Toml.EnsureTable | src/tools/toml.ts:40-48 | afterwards the path leads through tables, and the top-level keys other than the path's first are unchanged |
| Toml.EnsureLookup | src/tools/toml.ts:40-48 | the table the path leads to afterwards is the one it led to before, or `{}` where the path was missing or ran into a value that is not a table |
| Toml.EnsureLevel | src/tools/toml.ts:42-46 | at each level of the path, the result's table is the input's table at that level (`{}` where missing or not a table) with the rest of the path ensured in it |
| Toml.EnsureLevelFrame | src/tools/toml.ts:43-44 | at each level of the path, every key other than the path's next step keeps the value it had there |
| Toml.EnsureExisting | src/tools/toml.ts:43-45 | a path that already leads through tables is left as it is |
| Toml.EnsureIdempotent | src/tools/toml.ts:40-48 | ensuring a path twice is ensuring it once |
| Toml.EnsureKeepsTable | src/tools/toml.ts:43-45 | the table an existing path leads to is the one returned |
| Toml.SetIn | src/tools/toml.ts:74-75 | assigning below a path leaves the top-level keys other than the path's first alone |
| Toml.SetInStores | src/tools/toml.ts:74-75 | afterwards the table at the path holds the value under the key, and its other keys are those the ensuring left |
| Toml.SetInAfterEnsure | src/tools/toml.ts:63-75 | assigning into an already ensured path is the same assignment |
| Toml.StripComments | src/tools/toml.ts:6-12 | the result is a prefix of the line; a line without `#` is kept; a cut happens at the first `#`, with an even number of `"` before it |
| Toml.StripKeepsQuotedHash | src/tools/toml.ts:9-11 | a line with a `#` is kept whole exactly when an odd number of `"` precede its first `#` |
| Toml.ParseEach | src/tools/toml.ts:24 | each list element is parsed on its own, in order |
| Toml.FieldKey | src/tools/toml.ts:31-32 | an inline-table part stores under a key exactly when its first `=` has something before it |
| Toml.FieldsCons | src/tools/toml.ts:30-34 | the loop over an inline table's parts takes the first part, then the rest |
| Toml.FieldsUntouched | src/tools/toml.ts:30-34 | parts that do not have key `k` leave what is stored under `k` alone |
| Toml.FieldsAppend | src/tools/toml.ts:30-34 | the parts of a concatenation are taken in turn |
| Toml.FieldsLastWins | src/tools/toml.ts:30-34 | an inline table holds, under a key, the value of the last part with that key |
| Toml.FieldsAbsent | src/tools/toml.ts:28-35 | without a part whose key is `k`, the inline table has no `k` |
| Toml.RestAfterFirstEquals | src/tools/toml.ts:31-33 | `rest.join("=")` is exactly the text after the first `=`, and `k` the text before it |
| Toml.ParseInlineValue | src/tools/toml.ts:14-38 | `parseInlineValue`; `InlineBooleans`, `InlineQuoted`, `InlineEmptyArray`, `InlineArray`, `FieldsLastWins` and `InlineFallback` state its cases |
| Toml.InlineBooleans | src/tools/toml.ts:16-17 | `true` and `false` are booleans |
| Toml.InlineQuoted | src/tools/toml.ts:19-20 | a value opening and closing with the same quote is the text between, escapes uninterpreted |
| Toml.InlineFallback | src/tools/toml.ts:37 | an empty value is `null`; an unrecognised one is its trimmed text |
| Toml.InlineEmptyArray | src/tools/toml.ts:21-23 | `[]`, even with blanks inside, is the empty list |
| Toml.InlineArray | src/tools/toml.ts:21-24 | a list is split on every comma, and each element is parsed on its own, in order |
| Toml.HeaderPath | src/tools/toml.ts:62 | a header's path has no empty segment |
| Toml.TomlLight | src/tools/toml.ts:50-79 | the table `parseTomlLight` returns; `HeaderLine`, `AssignLine` and `IgnoredLine` state what each line does to it |
| Toml.ParseTomlLight | src/tools/toml.ts:50-79 | the line loop computes `TomlLight` of the text: each line read in turn |
| Toml.TakeLine | src/tools/toml.ts:55-75 | one pass of the loop is `ReadLine` of the reader state and the line |
| Toml.IgnoredLine | src/tools/toml.ts:56-71 | blank and unmatched lines leave the reader as it was |
| Toml.CommentLine | src/tools/toml.ts:55-56 | a comment-only line is blank once stripped |
| Toml.HeaderLine | src/tools/toml.ts:58-65 | a header makes its tables exist, and the following assignments go into the last of them |
| Toml.AssignLine | src/tools/toml.ts:67-75 | `key = value` stores the parsed value under the key, in the current table, overwriting an earlier value; the table's other keys stay |
| Toml.AssignKeyLiteral | src/tools/toml.ts:67-72 | an assignment's key is the whole run of key characters, dots included |
| Toml.AssignForm | src/tools/toml.ts:67-73 | `key = value` with one blank around `=` gives back the key and the value |
| Toml.AnalyzeCargoToml | src/tools/toml.ts:81-104 | the Cargo.toml summary; `PackageFields`, `NoPackage`, `DependencyList` and `NoDependencies` state its parts |
| Toml.SummarizeDeps | src/tools/toml.ts:89 | one `{name, spec}` per table entry, in the table's order |
| Toml.PackageFields | src/tools/toml.ts:91-97 | the package fields are the `[package]` table's entries, `null` where absent |
| Toml.NoPackage | src/tools/toml.ts:83-97 | with no `[package]` table every package field is `null` |
| Toml.DependencyList | src/tools/toml.ts:84-98 | a dependency table gives one `{name, spec}` per entry, in order |
| Toml.NoDependencies | src/tools/toml.ts:84-98 | with no dependency table there are no dependencies |
| RustModule.SafeRustIdent | src/tools/module.ts:4-6 | every character outside `[A-Za-z0-9_]` becomes `_`, the others are kept, and the length is unchanged |
| RustModule.SafeRustIdentFixes | src/tools/module.ts:4-6 | a name is left alone exactly when it is already an identifier |
| RustModule.SafeRustIdentIdempotent | src/tools/module.ts:4-6 | sanitising twice is sanitising once |
| RustModule.Pieces | src/tools/module.ts:18 | splitting on `/` and `\` gives at least one piece, none holding a separator |
| RustModule.Kept | src/tools/module.ts:18 | `.filter(Boolean)` keeps only non-empty pieces, taken from the input |
| RustModule.Stripped | src/tools/module.ts:18 | the path less its separators is empty exactly when the path holds only separators |
| RustModule.ModuleParts | src/tools/module.ts:18 | every part is a non-empty identifier |
| RustModule.PiecesConcat | src/tools/module.ts:18 | splitting loses exactly the separators |
| RustModule.KeptConcat | src/tools/module.ts:18 | dropping the empty pieces loses no character |
| RustModule.NoPartsIff | src/tools/module.ts:18-19 | there are no parts exactly when the path holds only separators |
| RustModule.PiecesJoin | src/tools/module.ts:18 | splitting a `/`-join of separator-free pieces gives the pieces back |
| RustModule.ModulePartsJoin | src/tools/module.ts:18 | non-empty identifier parts survive a round trip through `a/b/c` |
| RustModule.SafePartsFixed | src/tools/module.ts:18 | sanitising parts that are already identifiers changes none of them |
| RustModule.ModuleFilePlacement | src/tools/module.ts:24-27 | the module file is under `src`, in the directory of all the parts (`mod.rs`) or of all but the leaf (`<leaf>.rs`) |
| RustModule.ModuleFileInjective | src/tools/module.ts:24-27 | different parts of the same kind never share a module file |
| RustModule.ModuleFileIsEntry | src/tools/module.ts:24-32 | only the file module `lib` (or `main`) is the entry file itself |
| RustModule.DeclaresIff | src/tools/module.ts:39-41 | the entry already declares the module exactly when it contains `mod <leaf>;` |
| RustModule.WithDeclaration | src/tools/module.ts:43 | the new entry text starts with the trimmed old text and ends with a blank line and `pub mod <leaf>;` |
| RustModule.WithDeclarationDeclares | src/tools/module.ts:41-43 | after the declaration is added, the entry declares the module |
| RustModule.Entry | src/tools/module.ts:32-33 | the entry is `src/lib.rs` if it exists, else `src/main.rs` if it exists, else none |
| RustModule.Create | src/tools/module.ts:17-48 | `createRustModule` on the files; `InvalidPath`, `OnlyModuleAndEntryChange`, `ModuleFileExists`, `Registration` and `CreateIdempotent` state what it does |
| RustModule.Register | src/tools/module.ts:38-47 | the entry registration step; `Registration`, `RegisterIdempotent` and `NoEntryFile` state its cases |
| RustModule.Workspace.constructor | src/tools/module.ts:17 | the workspace starts with the given files |
| RustModule.Workspace.CreateRustModule | src/tools/module.ts:17-48 | the files and the result afterwards are those of `Create` of the old files |
| RustModule.InvalidPath | src/tools/module.ts:19 | `Invalid modulePath` happens exactly for a path of separators only, and then nothing is written |
| RustModule.OnlyModuleAndEntryChange | src/tools/module.ts:29-45 | only the module file and the entry file can change |
| RustModule.ModuleFileExists | src/tools/module.ts:29-30 | afterwards the module file exists, no file is removed, and it is reported as `created` |
| RustModule.ModuleFileText | src/tools/module.ts:30 | an existing module file is never overwritten, and a new one holds `// <modulePath>` |
| RustModule.NoEntryFile | src/tools/module.ts:34-36 | with neither entry file, only the module file is written, with the note that none exists |
| RustModule.Registration | src/tools/module.ts:38-47 | the declaration goes to `lib.rs`, else `main.rs`, and is added exactly when the entry did not declare the leaf |
| RustModule.RegisterIdempotent | src/tools/module.ts:41-45 | registering twice writes what registering once writes |
| RustModule.CreateIdempotent | src/tools/module.ts:17-48 | creating the same module twice leaves the files as creating it once |
| RustModule.NewFileModule | tests/module.test.ts:13-31 | a new file module in a crate with just a `lib.rs` creates `src/<leaf>.rs` and adds `pub mod <leaf>;` to `lib.rs` |
| Codegen.VisibilityPrefix | src/tools/codegen.ts:9 | the prefix is `pub `, `pub(crate) ` or nothing, the last exactly for no visibility |
| Codegen.FieldLines | src/tools/codegen.ts:11 | one `    name: type,` line per field, in order |
| Codegen.CtorParams | src/tools/codegen.ts:12 | one `name: type` parameter per field, in order |
| Codegen.FieldNames | src/tools/codegen.ts:13 | the field names, in order |
| Codegen.GenerateStruct | src/tools/codegen.ts:3-25 | `generateStruct`; `StructLayout`, `StructDerives` and `StructLineByLine` state its text |
| Codegen.StructLayout | src/tools/codegen.ts:15-24 | the generated struct is exactly its lines, each ended by a line feed |
| Codegen.StructLineByLine | src/tools/codegen.ts:15-24 | with no line feed in the inputs, splitting the struct's text on line feeds gives its lines back |
| Codegen.StructDerives | src/tools/codegen.ts:10 | the struct opens with `#[` exactly when something is derived |
| Codegen.StructLinesNoNewline | src/tools/codegen.ts:15-24 | with no line feed in the inputs, no line of the struct holds one |
| Codegen.VariantLines | src/tools/codegen.ts:35 | one `    Name payload,` line per variant, the payload only when given |
| Codegen.GenerateEnum | src/tools/codegen.ts:27-37 | `generateEnum`; `EnumLayout`, `EnumDerives` and `EnumLineByLine` state its text |
| Codegen.EnumLayout | src/tools/codegen.ts:36 | the generated enum is exactly its lines, each ended by a line feed |
| Codegen.EnumDerives | src/tools/codegen.ts:34 | the enum opens with `#[` exactly when something is derived |
| Codegen.EnumLineByLine | src/tools/codegen.ts:36 | with no line feed in the inputs, splitting the enum's text on line feeds gives its lines back |
| Codegen.Signature | src/tools/codegen.ts:44 | the signature is the trimmed method, less one final `;` when there is one |
| Codegen.MethodStubs | src/tools/codegen.ts:43-46 | one stub per method, in order, built from its signature |
| Codegen.StubBlocks | src/tools/codegen.ts:43-46 | one block of stub lines per method, in order, built from its signature |
| Codegen.StubText | src/tools/codegen.ts:45 | a stub is its three lines, each ended |
| Codegen.BlocksText | src/tools/codegen.ts:47 | blocks of lines separated by empty lines are the blocks' texts joined by line feeds |
| Codegen.MethodLinesText | src/tools/codegen.ts:47 | the stubs' lines with empty lines between them are the stubs joined by line feeds |
| Codegen.GenerateTraitImpl | src/tools/codegen.ts:39-51 | `generateTraitImpl`; `TraitLayout` and `SignatureStripped` state its text |
| Codegen.TraitLayout | src/tools/codegen.ts:39-51 | the impl is exactly its lines: the header, each method's stub (or a single placeholder), and `}` |
| Codegen.SignatureStripped | src/tools/codegen.ts:44 | a signature with leading blanks and a final `;` is stubbed without them |
| Codegen.GenerateTests | src/tools/codegen.ts:53-80 | `generateTests`; `TestLayout` and `TestLineByLine` state its text |
| Codegen.TestLayout | src/tools/codegen.ts:53-80 | the generated test, unit or integration, is exactly its lines, each ended |
| Codegen.IntegrationNoNewline | src/tools/codegen.ts:54-65 | with no line feed in the names, no line of the integration test holds one |
| Codegen.UnitNoNewline | src/tools/codegen.ts:67-79 | with no line feed in the names, no line of the unit test holds one |
| Codegen.TestLineByLine | src/tools/codegen.ts:53-80 | with no line feed in the names, splitting the test's text on line feeds gives its lines back |
| Args.AsObject | src/tools/args.ts:3-6 | an object gives its members; anything else (null, arrays, scalars) gives `{}` |
| Args.AsString | src/tools/args.ts:8-10 | a string value passes, and nothing else does |
| Args.AsNumber | src/tools/args.ts:12-14 | a number value passes, and nothing else does |
| Args.ParsePositionArgs | src/tools/args.ts:16-22 | a result exactly when `filePath` is a non-empty string and `line` and `character` are numbers, and then it carries them |
| Args.ParseRangeArgs | src/tools/args.ts:24-37 | a result exactly when `filePath` is a non-empty string and all four numbers are present, and then it carries them |
| Args.PositionExample | tests/args.test.ts:15-19 | line 0 is a valid position and is passed through unchanged |
| Args.PositionRejectsStringLine | tests/args.test.ts:20 | a line given as a string is refused |
| Args.RangeRejectsMissing | tests/args.test.ts:28 | a range with only its start line is refused |
| Cargo.ExtraArgs | src/tools/handlers/cargo.ts:7 | the extra arguments are the `extraArgs` array when there is one, and nothing otherwise |
| Cargo.ArgumentLists | src/tools/handlers/cargo.ts:8-13 | cargo gets the subcommand (`check`, or `clippy --fix --allow-dirty --allow-staged`) first, then the extra arguments unchanged and in order |
| Cargo.NonArrayExtraArgs | src/tools/handlers/cargo.ts:7 | an `extraArgs` that is not an array, or missing, adds nothing |
| Cargo.ArrayExtraArgs | src/tools/handlers/cargo.ts:7-8 | the array given as `extraArgs` is what follows `check` |
| Cargo.RunCargoCheck | src/tools/handlers/cargo.ts:6-9 | the result of `cargo check` and the extra arguments; `ArgumentLists` states the arguments cargo gets |
| Cargo.ApplyClippySuggestions | src/tools/handlers/cargo.ts:11-14 | the result of `cargo clippy --fix --allow-dirty --allow-staged` and the extra arguments; `ArgumentLists` states the arguments cargo gets |
| Cargo.ValidateLifetimes | src/tools/handlers/cargo.ts:16-22 | the result of `cargo check` with its lifetime-related lines; `ValidatePassesThrough` and `LifetimeLines` state its contents |
| Cargo.ValidatePassesThrough | src/tools/handlers/cargo.ts:16-22 | `validateLifetimes` reports cargo's exit code, stdout and stderr unchanged, beside the lines it picked |
| Cargo.Matching | src/tools/handlers/cargo.ts:20 | the filter keeps only lines that pass the test, taken from the input |
| Cargo.MatchingComplete | src/tools/handlers/cargo.ts:20 | no matching line is dropped |
| Cargo.MatchingAppend | src/tools/handlers/cargo.ts:19-20 | filtering a concatenation filters each part, so the lines keep their order |
| Cargo.SplitLinesCons | src/tools/handlers/cargo.ts:20 | `/\r?\n/` ends a line at a line feed, and the `\r` just before it goes with it |
| Cargo.LifetimeLines | src/tools/handlers/cargo.ts:19-20 | when cargo's output is made of lines, `lifetimeRelated` is exactly the matching ones, in order |
| LspHandlers.Retarget | src/tools/handlers/lsp.ts:39 | a link becomes `{uri: targetUri, range: targetSelectionRange ?? targetRange}` |
| LspHandlers.NormalizeLocations | src/tools/handlers/lsp.ts:35-42 | the loop keeps locations, retargets links and drops the rest, in order: `Normalized` |
| LspHandlers.Normalized | src/tools/handlers/lsp.ts:35-42 | what `normalizeLocations` returns; `NormalizedAppend`, `NormalizedShorter`, `NormalizedHaveUri` and `LocationsKept` state its properties |
| LspHandlers.NormalizedAppend | src/tools/handlers/lsp.ts:37-40 | normalising a concatenation normalises each part, so order is kept |
| LspHandlers.NormalizedShorter | src/tools/handlers/lsp.ts:35-42 | the result is never longer than the input |
| LspHandlers.NormalizedHaveUri | src/tools/handlers/lsp.ts:38-39 | every entry of the result has a truthy `uri` |
| LspHandlers.LocationsKept | src/tools/handlers/lsp.ts:38 | entries that are all locations come back unchanged |
| LspHandlers.LinkExample | src/tools/handlers/lsp.ts:39 | a link with a selection range becomes `{uri: targetUri, range: targetSelectionRange}` |
| LspHandlers.Slice | src/tools/handlers/lsp.ts:50 | `slice` with bounds in range is the sub-list, and with crossed bounds is empty |
| LspHandlers.Numbered | src/tools/handlers/lsp.ts:51 | each line is prefixed by its number and `: `, counted from the first |
| LspHandlers.ExtractSnippet | src/tools/handlers/lsp.ts:44-52 | `extractSnippet`; `SnippetLines` states its lines |
| LspHandlers.SnippetLines | src/tools/handlers/lsp.ts:44-52 | the snippet's lines are the text's lines from the first shown through the last shown, each prefixed by its 1-based number; empty when the first comes after the last |
| Registry.LspRoutes | src/tools/registry.ts:20-45 | exactly the four refactor methods go to `bestEffortRefactor`, and they alone carry a kind; different methods never share a route |
| Registry.ToolList | src/tools/registry.ts:9 | the tools listed are each definition's tool, in definition order |
| Registry.HandlerTable | src/tools/registry.ts:12-47 | the `handlers` map after the definitions are set in turn; `HandlerTableKeys`, `HandlerTableLast` and `HandlerTableDistinct` state its contents |
| Registry.HandlerTableKeys | src/tools/registry.ts:12-47 | a tool can be called exactly when some definition has its name |
| Registry.HandlerTableLast | src/tools/registry.ts:12-47 | a name is served by the route of the last definition that has it |
| Registry.HandlerTableDistinct | src/tools/registry.ts:12-47 | with distinct names, every definition is served by its own route |
| Registry.ToolRegistry.constructor | src/tools/registry.ts:7-47 | the registry's tools are `ToolList` and its table is `HandlerTable` of the definitions |
| Registry.ListedIffCallable | src/tools/registry.ts:50-55 | every listed tool can be called, and only listed tools can |
| Registry.Respond | src/tools/registry.ts:53-62 | `callTool` against the handler table; `UnknownTool`, `CallRoutes` and `CallThrough` state its cases |
| Registry.UnknownTool | src/tools/registry.ts:54-55 | a name no definition has is answered `Unknown tool: <name>` as an error |
| Registry.CallRoutes | src/tools/registry.ts:53-62 | calling a definition's tool runs that definition's route on the arguments read as an object; an exception becomes an error response with its message |
| Registry.CallThrough | src/tools/registry.ts:57-61 | a call to a registered name gives what its route's handler returns, or an error with the message it throws |
| Registry.NonObjectArguments | src/tools/registry.ts:58 | arguments that are not an object, or are missing, arrive at the handler as `{}` |
| Cli.ParseCli | index.ts:33-51 | the loop computes `Scan` of the arguments, starting from the working directory |
| Cli.Scan | index.ts:33-51 | what `parseCli` decides for the arguments left; `ScanPairs`, `MissingValue`, `HelpWins`, `VersionWins` and `UnknownArgument` state its cases |
| Cli.ScanPairs | index.ts:38-43 | a run of `--root <value>` pairs only moves the root, to its last value |
| Cli.EmptyArgv | index.ts:34-50 | with no arguments, the server runs in the working directory |
| Cli.LastRootWins | index.ts:38-50 | with only `--root` pairs, the server runs in the last root given, or in the working directory |
| Cli.MissingValue | index.ts:40 | a `--root` with nothing usable after it is `Missing value for --root` |
| Cli.HelpWins | index.ts:45 | after the pairs, the first help flag decides, whatever follows |
| Cli.VersionWins | index.ts:46 | after the pairs, the first version flag decides, whatever follows |
| Cli.UnknownArgument | index.ts:47 | after the pairs, any other token is reported as `Unknown argument: <token>`, whatever follows |
| Cli.RootRejectsFlag | index.ts:40 | a value starting with `-` is not taken as the root, even when it is a flag |
| JsText.ParseIntNatToString | src/jsonrpc/framing.ts:25 | printing a natural number and reading it back with `parseInt` gives the number |
| JsText.ParseIntNegative | src/jsonrpc/framing.ts:25 | a minus sign before a printed natural number reads back as its negation |
| JsText.SplitJoin | src/tools/handlers/lsp.ts:45-51 | splitting a join on a one-character separator that no item contains gives the items back |
| JsText.JoinSplit | src/tools/toml.ts:31-33 | joining the pieces of a split on a one-character separator gives the string back |
| JsText.IndexOf | src/jsonrpc/framing.ts:20 | `indexOf` is the first occurrence, or -1 when there is none |

## Findings

| source | as written | input that shows it | evidently intended | confidence | as-written member | corrected member |
|---|---|---|---|---|---|---|
| src/jsonrpc/framing.ts:52-57 | a negative `Content-Length` is added to the body's start as it stands, and `start` is set to the sum | `Content-Length: -23\r\n\r\n` at `start` 0: `messageEnd` is 0, so `start` stays 0 and `push` loops forever; a smaller length moves `start` before the window | a header declaring a negative length is skipped like one declaring none | not executed | Framing.NegativeLengthStallsOn23 | Framing.NegativeLengthSkipped |

## Left out

- I/O is not modelled. Streams, `process.stdin`/`process.stdout`, `fs` and `import()` are state in the model: a file map, and logs of sent messages and handler calls. Byte writes are the concatenation of the frames of the sent messages.
- Concurrency is not modelled:
  - `void this.handleMessage(...)` in `src/jsonrpc/stdio.ts:65` and the `await`s inside a handler are taken as running to completion in arrival order;
  - the `await` between the lookup and the `set` in `openIfNeeded` (`src/lsp/documents.ts:32-39`) is taken as atomic.
- `JSON.stringify`/`JSON.parse` are an abstract codec, given as a parameter. The round-trip and chunking lemmas assume the codec is sound (`parse(serialize(m)) == m`).
- JSON numbers are integers:
  - `asNumber`'s rejection of `NaN` and `Infinity` is not representable;
  - fractions are not modelled;
  - `parseInt` overflow to floating point is out.
- Toml numbers keep their decimal literal; `Number(value)` is not computed.
- String lengths are lengths of `seq<char>`, not UTF-16 code units.
- Case folding (`toLowerCase`, the `/i` flag) is modelled on ASCII letters only.
- Framing.FramedMessageDecoder.Push follows the corrected decoding of a negative `Content-Length` (see Findings). The pass as written is `Framing.AsWrittenNext`.
- A throwing notification callback in `src/jsonrpc/streams.ts:58` is not modelled. It would skip the remaining messages of the chunk.
- LspHandlers.SnippetLines requires `range.end.line >= -2`. Below that, `slice(start, end + 1)` with a negative end counts from the end of the list, which the statement does not cover. `LspHandlers.Slice` still models negative bounds.
- Documents.LspDocumentStore.OpenIfNeeded returns the record by value. The aliasing of the returned `OpenDoc` with the stored one, through which a caller could mutate the store, is not modelled.
- `ensureTable` is modelled on values: the function returns the new root instead of mutating nested objects in place.
- Toml.Put: a table is an association list in insertion order, not a JavaScript object. Three differences are not modelled:
  - `Object.entries` (`src/tools/toml.ts:89`) lists integer-like keys such as `1` first, in numeric order, then the other keys in insertion order; the model keeps insertion order for all keys;
  - assigning to the key `__proto__` creates no own property of the object; the model stores it like any key;
  - a `[__proto__]` header reaches `Object.prototype` itself, so a later `name = "x"` makes `pkg?.name` read `"x"` for every object; the model keeps that assignment inside its own table.
- Directories are not modelled: a path names a file or nothing. This covers `fs.mkdir` and the recursive `delete` of a directory.
- Paths in `src/tools/module.ts` are lists of segments under the root. `path.join` normalisation of `.` and `..` parts is not modelled.
- Codegen models an absent `payload` as the empty string, and the visibility `""` as `Private`. Both are falsy in the source, so they behave the same.
- Codegen does not model `derives` given as `undefined` (`options.derives?.length`). The model takes a list.
- `resolveIn`, `toFileUri` and `fromFileUri` are uninterpreted functions, passed as parameters (`resolve`, `toUri`, `pathOf`).
- `process.cwd()` is a parameter. `process.exit` and the `main` of `index.ts` are not modelled.
- The tool handlers behind the registry's routes are the parameter `run`. `src/tools/definitions.ts` is not part of this model.
- `runtime.runCargo` is the parameter `runCargo`.
- `src/tools/deps.ts` is not part of this model.
- `src/lsp/client.ts` is not part of this model.
- `src/mcp/server.ts` is not part of this model.
- `src/lsp/uris.ts` is not part of this model.
- `src/fs/paths.ts` is not part of this model.
- `src/utils/exec.ts` is not part of this model.
- `src/tools/handlers/local.ts` is not part of this model.
- `src/tools/context.ts` is not part of this model.
- Of `src/tools/handlers/lsp.ts`, only `normalizeLocations` and `extractSnippet` are modelled. The request handlers around them are not.
