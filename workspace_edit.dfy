/**
 * `applyWorkspaceEditToDisk` of `workspaceEdit.ts`: the per-URI `changes` map first,
 * then the ordered `documentChanges` (text-document edits and create/rename/delete
 * resource operations, section "WorkspaceEdit" of LSP 3.17), against a file system
 * modelled as a map. The summary is only ever appended to; the first failure stops the
 * run and leaves the changes made so far on disk.
 */
module WorkspaceEdit {
  import opened Wrappers
  import opened TextEdits
  import opened FileSystems
  import opened JsText

  /** `AppliedEditSummary`. */
  datatype RenamedFile = RenamedFile(from: Path, to: Path)
  datatype Summary = Summary(changedFiles: seq<Path>, createdFiles: seq<Path>,
                             renamedFiles: seq<RenamedFile>, deletedFiles: seq<Path>)

  const EmptySummary := Summary([], [], [], [])

  /**
   * One entry of `documentChanges`. `OtherKind` has a `kind` that is none of the three;
   * `Unrecognised` has neither `kind` nor `textDocument`. Absent option flags are false.
   */
  datatype DocumentChange =
    | EditDocument(uri: string, edits: seq<TextEdit>)
    | CreateFile(uri: string, overwrite: bool, ignoreIfExists: bool)
    | RenameFile(oldUri: string, newUri: string, overwrite: bool, ignoreIfExists: bool)
    | DeleteFile(uri: string, recursive: bool, ignoreIfNotExists: bool)
    | OtherKind
    | Unrecognised

  /**
   * `LspWorkspaceEdit`: `changes` as its entries in `Object.entries` order, and
   * `documentChanges`; an absent member is the empty list, which behaves the same.
   */
  datatype WorkspaceEditValue = WorkspaceEditValue(changes: seq<(string, seq<TextEdit>)>,
                                                   documentChanges: seq<DocumentChange>)

  /** Why a run stops: a failed read or rename (the file is missing) or one of the two thrown errors. */
  datatype EditError =
    | ReadFailed(path: Path)
    | FileExists(path: Path)
    | RenameFailed(from: Path)
    | FailedToDelete(path: Path)

  /** The `Error` messages the function throws itself. */
  function ErrorMessage(e: EditError): Option<string> {
    match e
    case FileExists(p) => Some("File exists: " + p)
    case FailedToDelete(p) => Some("Failed to delete: " + p)
    case _ => None
  }

  /** The file system, the summary so far, and the error that ended the run, if any. */
  datatype Applied = Applied(files: map<Path, string>, summary: Summary, error: Option<EditError>)

  /** The text `applyEditsForUri` writes back: edits applied to the LF form, original line ends restored. */
  function EditedText(raw: string, edits: seq<TextEdit>): string {
    RestoreEol(TextEditsResult(NormalizeEol(raw), edits), DetectEol(raw))
  }

  /** `applyEditsForUri`. */
  function EditStep(st: Applied, pathOf: string -> Path, rewrite: (string, seq<TextEdit>) -> string, uri: string, edits: seq<TextEdit>): Applied {
    var p := pathOf(uri);
    if p !in st.files then st.(error := Some(ReadFailed(p)))
    else
      Applied(st.files[p := rewrite(st.files[p], edits)],
              st.summary.(changedFiles := st.summary.changedFiles + [p]), None)
  }

  /** One entry of `documentChanges`. */
  function ChangeStep(st: Applied, pathOf: string -> Path, rewrite: (string, seq<TextEdit>) -> string, c: DocumentChange): Applied {
    match c
    case EditDocument(uri, edits) => EditStep(st, pathOf, rewrite, uri, edits)
    case CreateFile(uri, overwrite, ignoreIfExists) =>
      var p := pathOf(uri);
      if overwrite || p !in st.files then
        Applied(st.files[p := ""], st.summary.(createdFiles := st.summary.createdFiles + [p]), None)
      else if ignoreIfExists then st
      else st.(error := Some(FileExists(p)))
    case RenameFile(oldUri, newUri, overwrite, ignoreIfExists) =>
      var from, to := pathOf(oldUri), pathOf(newUri);
      if !overwrite && to in st.files && ignoreIfExists then st
      else if from !in st.files then st.(error := Some(RenameFailed(from)))
      else
        Applied(Renamed(st.files, from, to),
                st.summary.(renamedFiles := st.summary.renamedFiles + [RenamedFile(from, to)]), None)
    case DeleteFile(uri, _, ignoreIfNotExists) =>
      var p := pathOf(uri);
      if p in st.files || ignoreIfNotExists then
        Applied(st.files - {p}, st.summary.(deletedFiles := st.summary.deletedFiles + [p]), None)
      else st.(error := Some(FailedToDelete(p)))
    case OtherKind => st
    case Unrecognised => st
  }

  /** The loop over `Object.entries(edit.changes)`. */
  function ApplyChanges(st: Applied, pathOf: string -> Path, rewrite: (string, seq<TextEdit>) -> string, entries: seq<(string, seq<TextEdit>)>): Applied
    decreases |entries|
  {
    if entries == [] || st.error.Some? then st
    else ApplyChanges(EditStep(st, pathOf, rewrite, entries[0].0, entries[0].1), pathOf, rewrite, entries[1..])
  }

  /** The loop over `edit.documentChanges`. */
  function ApplyDocumentChanges(st: Applied, pathOf: string -> Path, rewrite: (string, seq<TextEdit>) -> string, cs: seq<DocumentChange>): Applied
    decreases |cs|
  {
    if cs == [] || st.error.Some? then st
    else ApplyDocumentChanges(ChangeStep(st, pathOf, rewrite, cs[0]), pathOf, rewrite, cs[1..])
  }

  /** The whole run, the `changes` map first, with `rewrite` computing each edited file's new text. */
  function Run(files: map<Path, string>, pathOf: string -> Path, rewrite: (string, seq<TextEdit>) -> string,
               edit: WorkspaceEditValue): Applied {
    ApplyDocumentChanges(ApplyChanges(Applied(files, EmptySummary, None), pathOf, rewrite, edit.changes),
                         pathOf, rewrite, edit.documentChanges)
  }

  /** What `applyWorkspaceEditToDisk` leaves on disk, and its summary or the error it rejects with. */
  function WorkspaceEditResult(files: map<Path, string>, pathOf: string -> Path, edit: WorkspaceEditValue): Applied {
    Run(files, pathOf, EditedText, edit)
  }

  /** `applyWorkspaceEditToDisk`, reading and writing `fs`. */
  method ApplyWorkspaceEditToDisk(fs: FileSystem, pathOf: string -> Path, edit: WorkspaceEditValue)
    returns (r: Result<Summary, EditError>)
    modifies fs
    ensures var a := WorkspaceEditResult(old(fs.files), pathOf, edit);
            && fs.files == a.files
            && r == (if a.error.Some? then Failure(a.error.value) else Success(a.summary))
  {
    var summary := EmptySummary;
    ghost var goal := WorkspaceEditResult(fs.files, pathOf, edit);
    for i := 0 to |edit.changes|
      invariant ApplyDocumentChanges(ApplyChanges(Applied(fs.files, summary, None), pathOf, EditedText, edit.changes[i..]),
                                     pathOf, EditedText, edit.documentChanges) == goal
    {
      assert edit.changes[i..][1..] == edit.changes[i + 1..];
      var err;
      summary, err := ApplyEditsForUri(fs, pathOf, summary, edit.changes[i].0, edit.changes[i].1);
      if err.Some? {
        return Failure(err.value);
      }
    }
    assert edit.changes[|edit.changes|..] == [];
    for i := 0 to |edit.documentChanges|
      invariant ApplyDocumentChanges(Applied(fs.files, summary, None), pathOf, EditedText, edit.documentChanges[i..]) == goal
    {
      assert edit.documentChanges[i..][1..] == edit.documentChanges[i + 1..];
      var err;
      summary, err := ApplyDocumentChange(fs, pathOf, summary, edit.documentChanges[i]);
      if err.Some? {
        return Failure(err.value);
      }
    }
    assert edit.documentChanges[|edit.documentChanges|..] == [];
    return Success(summary);
  }

  /** `applyEditsForUri`: read, normalize, apply, restore the line ends, write, record. */
  method ApplyEditsForUri(fs: FileSystem, pathOf: string -> Path, summary: Summary, uri: string, edits: seq<TextEdit>)
    returns (summary': Summary, err: Option<EditError>)
    modifies fs
    ensures EditStep(Applied(old(fs.files), summary, None), pathOf, EditedText, uri, edits) == Applied(fs.files, summary', err)
  {
    var filePath := pathOf(uri);
    if filePath !in fs.files {
      return summary, Some(ReadFailed(filePath));
    }
    var raw := fs.files[filePath];
    var eol := DetectEol(raw);
    var normalized := NormalizeEol(raw);
    var updated := ApplyTextEdits(normalized, edits);
    fs.files := fs.files[filePath := RestoreEol(updated, eol)];
    summary' := summary.(changedFiles := summary.changedFiles + [filePath]);
    err := None;
  }

  /** One entry of `documentChanges`, against `fs`. */
  method ApplyDocumentChange(fs: FileSystem, pathOf: string -> Path, summary: Summary, c: DocumentChange)
    returns (summary': Summary, err: Option<EditError>)
    modifies fs
    ensures ChangeStep(Applied(old(fs.files), summary, None), pathOf, EditedText, c) == Applied(fs.files, summary', err)
  {
    summary', err := summary, None;
    match c
    case EditDocument(uri, edits) =>
      summary', err := ApplyEditsForUri(fs, pathOf, summary, uri, edits);
    case CreateFile(uri, overwrite, ignoreIfExists) =>
      var filePath := pathOf(uri);
      if overwrite || filePath !in fs.files {
        fs.files := fs.files[filePath := ""];
        summary' := summary.(createdFiles := summary.createdFiles + [filePath]);
      } else if !ignoreIfExists {
        err := Some(FileExists(filePath));
      }
    case RenameFile(oldUri, newUri, overwrite, ignoreIfExists) =>
      var from, to := pathOf(oldUri), pathOf(newUri);
      if !overwrite && to in fs.files && ignoreIfExists {
        // skipped: the target exists and may be kept
      } else if from !in fs.files {
        err := Some(RenameFailed(from));
      } else {
        fs.files := Renamed(fs.files, from, to);
        summary' := summary.(renamedFiles := summary.renamedFiles + [RenamedFile(from, to)]);
      }
    case DeleteFile(uri, _, ignoreIfNotExists) =>
      var filePath := pathOf(uri);
      if filePath in fs.files || ignoreIfNotExists {
        fs.files := fs.files - {filePath};
        summary' := summary.(deletedFiles := summary.deletedFiles + [filePath]);
      } else {
        err := Some(FailedToDelete(filePath));
      }
    case OtherKind =>
    case Unrecognised =>
  }

  // ---------------------------------------------------------------------------
  // Properties

  /** `b` extends `a` field by field. */
  predicate Extends(a: Summary, b: Summary) {
    && a.changedFiles <= b.changedFiles && a.createdFiles <= b.createdFiles
    && a.renamedFiles <= b.renamedFiles && a.deletedFiles <= b.deletedFiles
  }

  lemma ChangeStepAppends(st: Applied, pathOf: string -> Path, rewrite: (string, seq<TextEdit>) -> string, c: DocumentChange)
    ensures Extends(st.summary, ChangeStep(st, pathOf, rewrite, c).summary)
  {
  }

  /** The summary is only ever appended to, whatever the changes and however the run ends. */
  lemma {:induction false} SummaryAppendOnly(st: Applied, pathOf: string -> Path, rewrite: (string, seq<TextEdit>) -> string, cs: seq<DocumentChange>)
    decreases |cs|
    ensures Extends(st.summary, ApplyDocumentChanges(st, pathOf, rewrite, cs).summary)
  {
    if cs != [] && st.error.None? {
      var next := ChangeStep(st, pathOf, rewrite, cs[0]);
      ChangeStepAppends(st, pathOf, rewrite, cs[0]);
      SummaryAppendOnly(next, pathOf, rewrite, cs[1..]);
    }
  }

  function PathsOf(pathOf: string -> Path, entries: seq<(string, seq<TextEdit>)>): seq<Path>
    decreases |entries|
  {
    if entries == [] then [] else [pathOf(entries[0].0)] + PathsOf(pathOf, entries[1..])
  }

  /**
   * When the `changes` entries all succeed, they are recorded first, in entry order,
   * and nothing else is recorded for them.
   */
  lemma {:induction false} ChangesRecordedInOrder(st: Applied, pathOf: string -> Path, rewrite: (string, seq<TextEdit>) -> string, entries: seq<(string, seq<TextEdit>)>)
    requires st.error.None?
    requires ApplyChanges(st, pathOf, rewrite, entries).error.None?
    decreases |entries|
    ensures var s := ApplyChanges(st, pathOf, rewrite, entries).summary;
            s == st.summary.(changedFiles := st.summary.changedFiles + PathsOf(pathOf, entries))
  {
    if entries == [] {
      assert st.summary.changedFiles + [] == st.summary.changedFiles;
    } else {
      var p := pathOf(entries[0].0);
      var next := EditStep(st, pathOf, rewrite, entries[0].0, entries[0].1);
      NoErrorBefore(next, pathOf, rewrite, entries[1..]);
      EditStepRecords(st, pathOf, rewrite, entries[0].0, entries[0].1);
      ChangesRecordedInOrder(next, pathOf, rewrite, entries[1..]);
      assert PathsOf(pathOf, entries) == [p] + PathsOf(pathOf, entries[1..]);
      assert st.summary.changedFiles + PathsOf(pathOf, entries)
          == next.summary.changedFiles + PathsOf(pathOf, entries[1..]);
    }
  }

  /** A run that ends without error had no error at any point. */
  lemma NoErrorBefore(st: Applied, pathOf: string -> Path, rewrite: (string, seq<TextEdit>) -> string, entries: seq<(string, seq<TextEdit>)>)
    requires ApplyChanges(st, pathOf, rewrite, entries).error.None?
    ensures st.error.None?
  {
  }

  lemma EditStepRecords(st: Applied, pathOf: string -> Path, rewrite: (string, seq<TextEdit>) -> string, uri: string, edits: seq<TextEdit>)
    ensures var r := EditStep(st, pathOf, rewrite, uri, edits);
            r.error.None? ==> r.summary == st.summary.(changedFiles := st.summary.changedFiles + [pathOf(uri)])
  {
  }

  /** Document changes run after the `changes` map: the summary starts with the `changes` paths. */
  lemma ChangesFirst(files: map<Path, string>, pathOf: string -> Path, rewrite: (string, seq<TextEdit>) -> string, edit: WorkspaceEditValue)
    requires ApplyChanges(Applied(files, EmptySummary, None), pathOf, rewrite, edit.changes).error.None?
    ensures PathsOf(pathOf, edit.changes) <= Run(files, pathOf, rewrite, edit).summary.changedFiles
  {
    var st := ApplyChanges(Applied(files, EmptySummary, None), pathOf, rewrite, edit.changes);
    ChangesRecordedInOrder(Applied(files, EmptySummary, None), pathOf, rewrite, edit.changes);
    assert st.summary.changedFiles == PathsOf(pathOf, edit.changes);
    SummaryAppendOnly(st, pathOf, rewrite, edit.documentChanges);
  }

  /** After a failure nothing more happens: later changes are neither applied nor recorded. */
  lemma FailureStops(st: Applied, pathOf: string -> Path, rewrite: (string, seq<TextEdit>) -> string, cs: seq<DocumentChange>)
    requires st.error.Some?
    ensures ApplyDocumentChanges(st, pathOf, rewrite, cs) == st
  {
  }

  /** An edited file keeps its line ends: text without `\r` is written back as just the edited text. */
  lemma EditedLfText(raw: string, edits: seq<TextEdit>)
    requires '\r' !in raw
    ensures EditedText(raw, edits) == TextEditsResult(raw, edits)
  {
    NormalizeWithoutCr(raw);
    NoCrlfWithoutCr(raw);
  }

  /** A CRLF file is edited in its LF form and written back with CRLF line ends. */
  lemma EditedCrlfText(raw: string, edits: seq<TextEdit>)
    requires exists i :: OccursAt(raw, "\r\n", i)
    ensures EditedText(raw, edits) == RestoreEol(TextEditsResult(NormalizeEol(raw), edits), CRLF)
  {
  }

  /** Any `create`: an empty or truncated file, recorded, when overwriting or when the file is new. */
  lemma CreateWrites(st: Applied, pathOf: string -> Path, rewrite: (string, seq<TextEdit>) -> string, uri: string, overwrite: bool, ignoreIfExists: bool)
    requires overwrite || pathOf(uri) !in st.files
    ensures var r := ChangeStep(st, pathOf, rewrite, CreateFile(uri, overwrite, ignoreIfExists));
            && r.error.None? && r.files == st.files[pathOf(uri) := ""]
            && r.summary.createdFiles == st.summary.createdFiles + [pathOf(uri)]
  {
  }

  /** `create` of an existing file without `overwrite`: `File exists` unless `ignoreIfExists`, which keeps it untouched and unrecorded. */
  lemma CreateExisting(st: Applied, pathOf: string -> Path, rewrite: (string, seq<TextEdit>) -> string, uri: string, ignoreIfExists: bool)
    requires pathOf(uri) in st.files
    ensures var r := ChangeStep(st, pathOf, rewrite, CreateFile(uri, false, ignoreIfExists));
            if ignoreIfExists then r == st
            else r.files == st.files && r.summary == st.summary && r.error == Some(FileExists(pathOf(uri)))
  {
  }

  /** `rename` onto an existing target with `ignoreIfExists` and without `overwrite` is skipped. */
  lemma RenameSkipped(st: Applied, pathOf: string -> Path, rewrite: (string, seq<TextEdit>) -> string, oldUri: string, newUri: string)
    requires pathOf(newUri) in st.files
    ensures ChangeStep(st, pathOf, rewrite, RenameFile(oldUri, newUri, false, true)) == st
  {
  }

  /**
   * In every other case an existing source is renamed and recorded; in particular the
   * target is replaced even when neither `overwrite` nor `ignoreIfExists` is set, since the
   * `Target exists` error is caught where it is thrown.
   */
  lemma RenameMoves(st: Applied, pathOf: string -> Path, rewrite: (string, seq<TextEdit>) -> string, oldUri: string, newUri: string, overwrite: bool, ignoreIfExists: bool)
    requires !(!overwrite && pathOf(newUri) in st.files && ignoreIfExists)
    requires pathOf(oldUri) in st.files
    ensures var r := ChangeStep(st, pathOf, rewrite, RenameFile(oldUri, newUri, overwrite, ignoreIfExists));
            && r.error.None?
            && pathOf(newUri) in r.files && r.files[pathOf(newUri)] == st.files[pathOf(oldUri)]
            && (pathOf(oldUri) != pathOf(newUri) ==> pathOf(oldUri) !in r.files)
            && r.summary.renamedFiles == st.summary.renamedFiles + [RenamedFile(pathOf(oldUri), pathOf(newUri))]
  {
  }

  /** The same rename with neither flag over an existing target: the target's old text is gone. */
  lemma RenameOverwritesTarget()
    ensures var files := map["/a" := "new", "/b" := "old"];
            var r := ChangeStep(Applied(files, EmptySummary, None), p => p, EditedText, RenameFile("/a", "/b", false, false));
            r.error.None? && r.files == map["/b" := "new"]
  {
    var files := map["/a" := "new", "/b" := "old"];
    assert Renamed(files, "/a", "/b") == map["/b" := "new"];
  }

  /** Renaming a file that does not exist fails, unless the rename was skipped. */
  lemma RenameMissingSource(st: Applied, pathOf: string -> Path, rewrite: (string, seq<TextEdit>) -> string, oldUri: string, newUri: string, overwrite: bool, ignoreIfExists: bool)
    requires !(!overwrite && pathOf(newUri) in st.files && ignoreIfExists)
    requires pathOf(oldUri) !in st.files
    ensures var r := ChangeStep(st, pathOf, rewrite, RenameFile(oldUri, newUri, overwrite, ignoreIfExists));
            r == st.(error := Some(RenameFailed(pathOf(oldUri))))
  {
  }

  /** `delete` removes the file and records it, also for a missing file when `ignoreIfNotExists` is set. */
  lemma DeleteRecords(st: Applied, pathOf: string -> Path, rewrite: (string, seq<TextEdit>) -> string, uri: string, recursive: bool, ignoreIfNotExists: bool)
    requires pathOf(uri) in st.files || ignoreIfNotExists
    ensures var r := ChangeStep(st, pathOf, rewrite, DeleteFile(uri, recursive, ignoreIfNotExists));
            && r.error.None? && pathOf(uri) !in r.files
            && (forall p :: p != pathOf(uri) ==> (p in r.files <==> p in st.files))
            && r.summary.deletedFiles == st.summary.deletedFiles + [pathOf(uri)]
  {
  }

  /** Deleting a missing file without `ignoreIfNotExists` fails with `Failed to delete`. */
  lemma DeleteMissing(st: Applied, pathOf: string -> Path, rewrite: (string, seq<TextEdit>) -> string, uri: string, recursive: bool)
    requires pathOf(uri) !in st.files
    ensures ChangeStep(st, pathOf, rewrite, DeleteFile(uri, recursive, false)) == st.(error := Some(FailedToDelete(pathOf(uri))))
    ensures ErrorMessage(FailedToDelete(pathOf(uri))) == Some("Failed to delete: " + pathOf(uri))
  {
  }

  /** Entries with an unknown kind, or neither kind nor text document, are ignored. */
  lemma UnknownIgnored(st: Applied, pathOf: string -> Path, rewrite: (string, seq<TextEdit>) -> string)
    ensures ChangeStep(st, pathOf, rewrite, OtherKind) == st && ChangeStep(st, pathOf, rewrite, Unrecognised) == st
  {
  }

  /** Editing a missing file fails with the read error and changes nothing. */
  lemma EditMissingFile(st: Applied, pathOf: string -> Path, rewrite: (string, seq<TextEdit>) -> string, uri: string, edits: seq<TextEdit>)
    requires pathOf(uri) !in st.files
    ensures EditStep(st, pathOf, rewrite, uri, edits) == st.(error := Some(ReadFailed(pathOf(uri))))
  {
  }

  /** Editing an existing file writes the edited text back to that path only and records it. */
  lemma EditExistingFile(st: Applied, pathOf: string -> Path, rewrite: (string, seq<TextEdit>) -> string, uri: string, edits: seq<TextEdit>)
    requires pathOf(uri) in st.files
    ensures var r := EditStep(st, pathOf, rewrite, uri, edits);
            && r.error.None? && r.files.Keys == st.files.Keys
            && r.files[pathOf(uri)] == rewrite(st.files[pathOf(uri)], edits)
            && (forall p :: p in st.files && p != pathOf(uri) ==> r.files[p] == st.files[p])
            && r.summary.changedFiles == st.summary.changedFiles + [pathOf(uri)]
  {
  }
}
