/**
 * `LspDocumentStore` of `documents.ts`: the documents opened on the language server,
 * one record per URI, with the `didOpen`/`didChange` notifications that keep the server's
 * view in step. Versions of a URI run 1, 2, 3, ... and every notification carries the
 * version its change produced.
 */
module Documents {
  import opened Wrappers
  import opened Json
  import opened FileSystems
  import opened TextEdits
  import opened Streams
  import Stdio

  /** The fields of an `OpenDoc` at one moment. */
  datatype DocState = DocState(languageId: string, version: int, text: string, eol: Eol, filePath: Path)

  /** A notification the store sent: `didOpen` carries the whole document, `didChange` the new full text. */
  datatype Note =
    | DidOpen(uri: string, languageId: string, version: int, text: string)
    | DidChange(uri: string, version: int, text: string)

  /** The open documents by URI and the notifications sent so far. */
  datatype Store = Store(docs: map<string, DocState>, notes: seq<Note>)

  function NoteMethod(n: Note): string {
    if n.DidOpen? then "textDocument/didOpen" else "textDocument/didChange"
  }

  /** The `params` of the notification. */
  function NoteParams(n: Note): Json {
    match n
    case DidOpen(uri, languageId, version, text) =>
      JObj(map["textDocument" := JObj(map["uri" := JStr(uri), "languageId" := JStr(languageId),
                                          "version" := JNum(version), "text" := JStr(text)])])
    case DidChange(uri, version, text) =>
      JObj(map["textDocument" := JObj(map["uri" := JStr(uri), "version" := JNum(version)]),
               "contentChanges" := JArr([JObj(map["text" := JStr(text)])])])
  }

  // ---------------------------------------------------------------------------
  // The store as values

  /** The first `openIfNeeded` of `uri`, `raw` being the file's text on disk. */
  function Opened(s: Store, uri: string, languageId: string, resolved: Path, raw: string): Store {
    var text := NormalizeEol(raw);
    Store(s.docs[uri := DocState(languageId, 1, text, DetectEol(raw), resolved)],
          s.notes + [DidOpen(uri, languageId, 1, text)])
  }

  /** `updateFromDisk` of an open `uri`, `raw` being the file's text on disk. */
  function Reloaded(s: Store, uri: string, raw: string): Store
    requires uri in s.docs
  {
    var d := s.docs[uri];
    var text := NormalizeEol(raw);
    Store(s.docs[uri := d.(eol := DetectEol(raw), text := text, version := d.version + 1)],
          s.notes + [DidChange(uri, d.version + 1, text)])
  }

  /** `setOpenText` of an open `uri`. */
  function TextSet(s: Store, uri: string, newText: string): Store
    requires uri in s.docs
  {
    var d := s.docs[uri];
    Store(s.docs[uri := d.(text := newText, version := d.version + 1)],
          s.notes + [DidChange(uri, d.version + 1, newText)])
  }

  /** The text `flushToDisk` writes for a document. */
  function OnDisk(d: DocState): string {
    RestoreEol(d.text, d.eol)
  }

  /** The versions the notifications about `uri` carried, in order. */
  function VersionsOf(notes: seq<Note>, uri: string): seq<int>
    decreases |notes|
  {
    if notes == [] then []
    else
      var n := notes[|notes| - 1];
      VersionsOf(notes[..|notes| - 1], uri) + (if n.uri == uri then [n.version] else [])
  }

  /** 1, 2, ..., n. */
  function UpTo(n: int): seq<int>
    decreases n
  {
    if n <= 0 then [] else UpTo(n - 1) + [n]
  }

  /**
   * The version invariant: every open document has a version of at least 1, and for every
   * URI the notifications about it carried exactly the versions 1 up to the document's
   * current version, and none for a URI not open.
   */
  ghost predicate VersionsInv(s: Store) {
    && (forall u :: u in s.docs ==> s.docs[u].version >= 1)
    && (forall u :: VersionsOf(s.notes, u) == (if u in s.docs then UpTo(s.docs[u].version) else []))
  }

  lemma VersionsAppend(notes: seq<Note>, n: Note, u: string)
    ensures VersionsOf(notes + [n], u) == VersionsOf(notes, u) + (if n.uri == u then [n.version] else [])
  {
    assert (notes + [n])[..|notes|] == notes;
  }

  /** A new document with notification `n` of version 1 keeps the invariant. */
  lemma AddKeepsInv(s: Store, uri: string, d: DocState, n: Note)
    requires VersionsInv(s) && uri !in s.docs
    requires d.version == 1 && n.uri == uri && n.version == 1
    ensures VersionsInv(Store(s.docs[uri := d], s.notes + [n]))
  {
    forall u ensures VersionsOf(s.notes + [n], u) == (if u in s.docs[uri := d] then UpTo(s.docs[uri := d][u].version) else []) {
      assert VersionsOf(s.notes, u) == (if u in s.docs then UpTo(s.docs[u].version) else []);
      NextNoteOf(s, uri, d, n, u);
    }
  }

  /** Raising a document's version by one with a notification of the new version keeps the invariant. */
  lemma BumpKeepsInv(s: Store, uri: string, d: DocState, n: Note)
    requires VersionsInv(s) && uri in s.docs
    requires d.version == s.docs[uri].version + 1 && n.uri == uri && n.version == d.version
    ensures VersionsInv(Store(s.docs[uri := d], s.notes + [n]))
  {
    forall u ensures VersionsOf(s.notes + [n], u) == (if u in s.docs[uri := d] then UpTo(s.docs[uri := d][u].version) else []) {
      assert VersionsOf(s.notes, u) == (if u in s.docs then UpTo(s.docs[u].version) else []);
      NextNoteOf(s, uri, d, n, u);
    }
  }

  /** One URI's versions after the next notification about `uri`. */
  lemma NextNoteOf(s: Store, uri: string, d: DocState, n: Note, u: string)
    requires VersionsOf(s.notes, u) == (if u in s.docs then UpTo(s.docs[u].version) else [])
    requires uri in s.docs ==> s.docs[uri].version >= 1
    requires d.version == (if uri in s.docs then s.docs[uri].version else 0) + 1
    requires n.uri == uri && n.version == d.version
    ensures VersionsOf(s.notes + [n], u) == (if u in s.docs[uri := d] then UpTo(s.docs[uri := d][u].version) else [])
  {
    VersionsAppend(s.notes, n, u);
    if u == uri {
      var v := d.version - 1;
      assert VersionsOf(s.notes, u) == UpTo(v);
      NextVersion(v);
    } else {
      assert n.uri != u;
    }
  }

  lemma NextVersion(v: int)
    requires v >= 0
    ensures UpTo(v + 1) == UpTo(v) + [v + 1]
  {
  }

  /** The first open of a document starts its versions at 1; the others keep theirs. */
  lemma OpenedKeepsInv(s: Store, uri: string, languageId: string, resolved: Path, raw: string)
    requires VersionsInv(s) && uri !in s.docs
    ensures VersionsInv(Opened(s, uri, languageId, resolved, raw))
  {
    var text := NormalizeEol(raw);
    var d := DocState(languageId, 1, text, DetectEol(raw), resolved);
    var n := DidOpen(uri, languageId, 1, text);
    assert Opened(s, uri, languageId, resolved, raw) == Store(s.docs[uri := d], s.notes + [n]);
    AddKeepsInv(s, uri, d, n);
  }

  /** A reload adds exactly the next version of its document and leaves the others alone. */
  lemma ReloadedKeepsInv(s: Store, uri: string, raw: string)
    requires VersionsInv(s) && uri in s.docs
    ensures VersionsInv(Reloaded(s, uri, raw))
  {
    var d := s.docs[uri];
    var text := NormalizeEol(raw);
    var d' := d.(eol := DetectEol(raw), text := text, version := d.version + 1);
    var n := DidChange(uri, d.version + 1, text);
    assert Reloaded(s, uri, raw) == Store(s.docs[uri := d'], s.notes + [n]);
    BumpKeepsInv(s, uri, d', n);
  }

  /** So does setting the text. */
  lemma TextSetKeepsInv(s: Store, uri: string, newText: string)
    requires VersionsInv(s) && uri in s.docs
    ensures VersionsInv(TextSet(s, uri, newText))
  {
    var d := s.docs[uri];
    var d' := d.(text := newText, version := d.version + 1);
    var n := DidChange(uri, d.version + 1, newText);
    assert TextSet(s, uri, newText) == Store(s.docs[uri := d'], s.notes + [n]);
    BumpKeepsInv(s, uri, d', n);
  }

  /**
   * Writing a document back and reading it again gives the same text, for text without
   * `\r`; the line ends survive too unless a CRLF document has no line break left.
   */
  lemma FlushReloadRoundTrip(d: DocState)
    requires '\r' !in d.text
    ensures NormalizeEol(OnDisk(d)) == d.text
    ensures d.eol == LF || '\n' in d.text ==> DetectEol(OnDisk(d)) == d.eol
  {
    if d.eol == CRLF {
      NormalizeRestore(d.text);
      if '\n' in d.text {
        CrlfSurvives(d.text);
      }
    } else {
      NormalizeWithoutCr(d.text);
      NoCrlfWithoutCr(d.text);
    }
  }

  /** Restoring CRLF in text with a line break produces a `\r\n`. */
  lemma {:induction false} CrlfSurvives(t: string)
    requires '\n' in t
    ensures DetectEol(RestoreEol(t, CRLF)) == CRLF
  {
    var k := FirstNewline(t);
    var r := RestoreEol(t, CRLF);
    RestoreSplit(t[..k], t[k..]);
    assert t == t[..k] + t[k..];
    var pre := RestoreEol(t[..k], CRLF);
    assert t[k..] == "\n" + t[k + 1..];
    RestoreNewlineHead(t[k + 1..]);
    assert r == pre + "\r\n" + RestoreEol(t[k + 1..], CRLF);
    assert r[|pre|..|pre| + 2] == "\r\n";
    assert JsText.OccursAt(r, "\r\n", |pre|);
  }

  function FirstNewline(t: string): (k: nat)
    requires '\n' in t
    ensures k < |t| && t[k] == '\n'
  {
    if t[0] == '\n' then 0 else assert '\n' in t[1..]; 1 + FirstNewline(t[1..])
  }

  lemma RestoreNewlineHead(rest: string)
    ensures RestoreEol("\n" + rest, CRLF) == "\r\n" + RestoreEol(rest, CRLF)
  {
    var s := "\n" + rest;
    assert s[..1] == "\n" && s[1..] == rest;
  }

  /** Restoring line ends distributes over concatenation, the pattern being a single character. */
  lemma {:induction false} RestoreSplit(a: string, b: string)
    decreases |a|
    ensures RestoreEol(a + b, CRLF) == RestoreEol(a, CRLF) + RestoreEol(b, CRLF)
  {
    if a != [] {
      RestoreSplit(a[1..], b);
      var s := a + b;
      assert s[..1] == a[..1] && s[1..] == a[1..] + b;
      if |a| == 1 {
        assert a[1..] == [];
      }
    } else {
      assert a + b == b;
    }
  }

  // ---------------------------------------------------------------------------
  // The store as an object

  class LspDocumentStore {
    const rpc: StreamJsonRpcConnection
    const fs: FileSystem
    /** `resolveIn(options.rootDir, ·)` and `toFileUri`: path arithmetic outside this model. */
    const resolve: string -> Path
    const toUri: Path -> string
    /** The `OpenDoc` records by URI, each as the values of its fields. */
    var openDocs: map<string, DocState>
    /** The notifications this store sent, in order. */
    ghost var notes: seq<Note>

    ghost function Model(): Store
      reads this
    {
      Store(openDocs, notes)
    }

    ghost predicate Valid()
      reads this
    {
      VersionsInv(Model())
    }

    constructor (rpc: StreamJsonRpcConnection, fs: FileSystem, resolve: string -> Path, toUri: Path -> string)
      ensures Valid() && Model() == Store(map[], [])
      ensures this.rpc == rpc && this.fs == fs && this.resolve == resolve && this.toUri == toUri
    {
      this.rpc, this.fs, this.resolve, this.toUri := rpc, fs, resolve, toUri;
      openDocs, notes := map[], [];
    }

    /** Send `n` as a notification through the connection. */
    method Send(n: Note)
      modifies rpc
      ensures rpc.State() == SendNotification(old(rpc.State()), NoteMethod(n), Some(NoteParams(n)))
    {
      rpc.Notify(NoteMethod(n), Some(NoteParams(n)));
    }

    /** `openIfNeeded`: the stored record, or a fresh one read from disk (the read's rejection otherwise). */
    method OpenIfNeeded(filePath: string, languageId: string) returns (r: Result<DocState, FsError>)
      requires Valid()
      modifies this, rpc
      ensures Valid()
      ensures var resolved := resolve(filePath);
              var uri := toUri(resolved);
              if uri in old(openDocs) then
                r == Success(old(openDocs)[uri]) && Model() == old(Model()) && rpc.State() == old(rpc.State())
              else if resolved !in fs.files then
                r == Failure(NoSuchFile(resolved)) && Model() == old(Model()) && rpc.State() == old(rpc.State())
              else
                && Model() == Opened(old(Model()), uri, languageId, resolved, fs.files[resolved])
                && r == Success(openDocs[uri])
                && rpc.State() == SendNotification(old(rpc.State()), "textDocument/didOpen",
                                                   Some(NoteParams(notes[|notes| - 1])))
    {
      var resolved := resolve(filePath);
      var uri := toUri(resolved);
      if uri in openDocs {
        return Success(openDocs[uri]);
      }
      if resolved !in fs.files {
        return Failure(NoSuchFile(resolved));
      }
      var raw := fs.files[resolved];
      var eol := DetectEol(raw);
      var text := NormalizeEol(raw);
      var doc := DocState(languageId, 1, text, eol, resolved);
      var n := DidOpen(uri, languageId, doc.version, doc.text);
      ghost var m := Opened(Model(), uri, languageId, resolved, raw);
      OpenedKeepsInv(Model(), uri, languageId, resolved, raw);
      openDocs, notes := openDocs[uri := doc], notes + [n];
      assert Model() == m;
      Send(n);
      return Success(doc);
    }

    /** `updateFromDisk`: an open document takes the disk's text and line ends and its next version. */
    method UpdateFromDisk(filePath: string) returns (err: Option<FsError>)
      requires Valid()
      modifies this, rpc
      ensures Valid()
      ensures var resolved := resolve(filePath);
              var uri := toUri(resolved);
              if uri !in old(openDocs) then
                err == None && Model() == old(Model()) && rpc.State() == old(rpc.State())
              else if resolved !in fs.files then
                err == Some(NoSuchFile(resolved)) && Model() == old(Model()) && rpc.State() == old(rpc.State())
              else
                && err == None
                && Model() == Reloaded(old(Model()), uri, fs.files[resolved])
                && rpc.State() == SendNotification(old(rpc.State()), "textDocument/didChange",
                                                   Some(NoteParams(notes[|notes| - 1])))
    {
      var resolved := resolve(filePath);
      var uri := toUri(resolved);
      if uri !in openDocs {
        err := None;
      } else if resolved !in fs.files {
        err := Some(NoSuchFile(resolved));
      } else {
        Reload(uri, openDocs[uri], fs.files[resolved]);
        err := None;
      }
    }

    /** The record `existing` of `uri` takes the text `raw` read from disk; the change is announced. */
    method Reload(uri: string, existing: DocState, raw: string)
      requires Valid() && uri in openDocs && openDocs[uri] == existing
      modifies this, rpc
      ensures Valid()
      ensures Model() == Reloaded(old(Model()), uri, raw)
      ensures rpc.State() == SendNotification(old(rpc.State()), "textDocument/didChange",
                                              Some(NoteParams(notes[|notes| - 1])))
    {
      var updated := existing.(eol := DetectEol(raw), text := NormalizeEol(raw), version := existing.version + 1);
      var n := DidChange(uri, updated.version, updated.text);
      ghost var m := Reloaded(Model(), uri, raw);
      ReloadedKeepsInv(Model(), uri, raw);
      openDocs, notes := openDocs[uri := updated], notes + [n];
      assert Model() == m;
      Send(n);
    }

    /** `getOpenText`: the stored text, or nothing (`null`) when the URI is not open. */
    function GetOpenText(uri: string): (r: Option<string>)
      reads this
      ensures r.Some? <==> uri in Model().docs
      ensures r.Some? ==> r.value == Model().docs[uri].text
    {
      if uri in openDocs then Some(openDocs[uri].text) else None
    }

    /** `setOpenText`: an open document takes `newText` verbatim and its next version. */
    method SetOpenText(uri: string, newText: string)
      requires Valid()
      modifies this, rpc
      ensures Valid()
      ensures if uri !in old(openDocs) then Model() == old(Model()) && rpc.State() == old(rpc.State())
              else
                && Model() == TextSet(old(Model()), uri, newText)
                && rpc.State() == SendNotification(old(rpc.State()), "textDocument/didChange",
                                                   Some(NoteParams(notes[|notes| - 1])))
    {
      if uri !in openDocs {
        return;
      }
      var existing := openDocs[uri];
      var updated := existing.(text := newText, version := existing.version + 1);
      var n := DidChange(uri, updated.version, newText);
      ghost var m := TextSet(Model(), uri, newText);
      TextSetKeepsInv(Model(), uri, newText);
      openDocs, notes := openDocs[uri := updated], notes + [n];
      assert Model() == m;
      Send(n);
    }

    /** `flushToDisk`: writes the open document back with its line ends; nothing else changes. */
    method FlushToDisk(uri: string)
      modifies fs
      ensures if uri in openDocs then fs.files == old(fs.files)[openDocs[uri].filePath := OnDisk(openDocs[uri])]
              else fs.files == old(fs.files)
    {
      if uri !in openDocs {
        return;
      }
      var existing := openDocs[uri];
      fs.files := fs.files[existing.filePath := RestoreEol(existing.text, existing.eol)];
    }
  }
}
