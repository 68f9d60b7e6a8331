/**
 * `createRustModule` of `src/tools/module.ts`: a module path such as `net/http` is cut on
 * `/` and `\`, every segment is made a Rust identifier, the module file is created under
 * `src/` unless it exists, and the crate's entry file (`src/lib.rs`, else `src/main.rs`)
 * gets a `pub mod <leaf>;` declaration unless it already has one.
 *
 * Paths are sequences of segments relative to the workspace root, so `path.join` with
 * the root directory is not interpreted; directories (and `mkdir`) are not modelled.
 */
module RustModule {
  import opened Wrappers
  import opened JsText

  /** A file path below the workspace root, one segment per directory level. */
  type SegPath = seq<string>

  // ---------------------------------------------------------------------------
  // safeRustIdent

  /** `[A-Za-z0-9_]`. */
  predicate IsIdentChar(c: char) {
    ('A' <= c <= 'Z') || ('a' <= c <= 'z') || ('0' <= c <= '9') || c == '_'
  }

  predicate IsIdent(s: string) {
    forall i :: 0 <= i < |s| ==> IsIdentChar(s[i])
  }

  /**
   * `safeRustIdent`: every character outside `[A-Za-z0-9_]` becomes `_`, every other is
   * kept, and the length does not change.
   */
  function SafeRustIdent(name: string): (r: string)
    decreases |name|
    ensures |r| == |name| && IsIdent(r)
    ensures forall i :: 0 <= i < |name| && IsIdentChar(name[i]) ==> r[i] == name[i]
    ensures forall i :: 0 <= i < |name| && !IsIdentChar(name[i]) ==> r[i] == '_'
  {
    if name == [] then []
    else
      var c := name[|name| - 1];
      SafeRustIdent(name[..|name| - 1]) + [if IsIdentChar(c) then c else '_']
  }

  /** A name that is already an identifier is left alone, and only such a name is. */
  lemma SafeRustIdentFixes(name: string)
    ensures SafeRustIdent(name) == name <==> IsIdent(name)
  {
    if IsIdent(name) {
      assert SafeRustIdent(name) == name;
    }
  }

  /** Sanitising twice is sanitising once. */
  lemma SafeRustIdentIdempotent(name: string)
    ensures SafeRustIdent(SafeRustIdent(name)) == SafeRustIdent(name)
  {
    SafeRustIdentFixes(SafeRustIdent(name));
  }

  // ---------------------------------------------------------------------------
  // Cutting the module path

  predicate IsPathSep(c: char) {
    c == '/' || c == '\\'
  }

  predicate SepFree(s: string) {
    forall i :: 0 <= i < |s| ==> !IsPathSep(s[i])
  }

  /** `s.split(/[\\/]/)`: the pieces between separators, empty ones included. */
  function Pieces(s: string): (r: seq<string>)
    decreases |s|
    ensures |r| >= 1
    ensures forall k :: 0 <= k < |r| ==> SepFree(r[k])
  {
    if s == [] then [""]
    else
      var rest := Pieces(s[1..]);
      if IsPathSep(s[0]) then [""] + rest else [[s[0]] + rest[0]] + rest[1..]
  }

  /** `.filter(Boolean)`: the non-empty pieces, in order. */
  function Kept(xs: seq<string>): (r: seq<string>)
    decreases |xs|
    ensures |r| <= |xs|
    ensures forall k :: 0 <= k < |r| ==> r[k] != [] && r[k] in xs
  {
    if xs == [] then []
    else (if xs[0] == [] then [] else [xs[0]]) + Kept(xs[1..])
  }

  /** The segments of `modulePath`, each made an identifier: `parts`. */
  function ModuleParts(modulePath: string): (r: seq<string>)
    ensures forall k :: 0 <= k < |r| ==> r[k] != [] && IsIdent(r[k])
  {
    var segments := Kept(Pieces(modulePath));
    seq(|segments|, k requires 0 <= k < |segments| => SafeRustIdent(segments[k]))
  }

  /** The characters of the pieces, one piece after the other. */
  function Concat(xs: seq<string>): string
    decreases |xs|
  {
    if xs == [] then [] else xs[0] + Concat(xs[1..])
  }

  /** The characters of `s` that are not separators, in order. */
  function Stripped(s: string): (r: string)
    decreases |s|
    ensures r == [] <==> forall i :: 0 <= i < |s| ==> IsPathSep(s[i])
  {
    if s == [] then []
    else
      var rest := Stripped(s[1..]);
      assert forall i :: 1 <= i < |s| ==> s[i] == s[1..][i - 1];
      (if IsPathSep(s[0]) then [] else [s[0]]) + rest
  }

  /** Splitting loses exactly the separators. */
  lemma {:induction false} PiecesConcat(s: string)
    decreases |s|
    ensures Concat(Pieces(s)) == Stripped(s)
  {
    if s != [] {
      var rest := Pieces(s[1..]);
      PiecesConcat(s[1..]);
      if IsPathSep(s[0]) {
        assert Concat([""] + rest) == "" + Concat(rest);
        assert ([""] + rest)[1..] == rest;
      } else {
        var xs := [[s[0]] + rest[0]] + rest[1..];
        assert xs[1..] == rest[1..];
        assert Concat(rest) == rest[0] + Concat(rest[1..]);
        assert Concat(xs) == [s[0]] + rest[0] + Concat(rest[1..]);
      }
    }
  }

  /** Dropping empty pieces loses no character. */
  lemma {:induction false} KeptConcat(xs: seq<string>)
    decreases |xs|
    ensures Concat(Kept(xs)) == Concat(xs)
  {
    if xs != [] {
      KeptConcat(xs[1..]);
      if xs[0] == [] {
        assert Kept(xs) == Kept(xs[1..]);
      } else {
        assert Kept(xs) == [xs[0]] + Kept(xs[1..]);
        assert ([xs[0]] + Kept(xs[1..]))[1..] == Kept(xs[1..]);
      }
    }
  }

  /** Concatenating non-empty pieces gives the empty string only when there are none. */
  lemma ConcatNonEmpty(xs: seq<string>)
    requires forall k :: 0 <= k < |xs| ==> xs[k] != []
    ensures Concat(xs) == [] <==> xs == []
  {
    if xs != [] {
      assert |Concat(xs)| >= |xs[0]|;
    }
  }

  /** `parts.length === 0`, the `Invalid modulePath` case, happens exactly when the path holds only separators. */
  lemma {:induction false} NoPartsIff(modulePath: string)
    ensures ModuleParts(modulePath) == [] <==> forall i :: 0 <= i < |modulePath| ==> IsPathSep(modulePath[i])
  {
    var segments := Kept(Pieces(modulePath));
    PiecesConcat(modulePath);
    KeptConcat(Pieces(modulePath));
    ConcatNonEmpty(segments);
    assert |ModuleParts(modulePath)| == |segments|;
  }

  /** A separator-free string followed by more text: its characters join the first piece. */
  lemma {:induction false} PiecesPrefix(a: string, b: string)
    requires SepFree(a)
    decreases |a|
    ensures Pieces(a + b) == [a + Pieces(b)[0]] + Pieces(b)[1..]
  {
    if a != [] {
      assert (a + b)[1..] == a[1..] + b;
      PiecesPrefix(a[1..], b);
      assert [a[0]] + (a[1..] + Pieces(b)[0]) == a + Pieces(b)[0];
    } else {
      assert a + b == b;
      assert a + Pieces(b)[0] == Pieces(b)[0];
      assert Pieces(b) == [Pieces(b)[0]] + Pieces(b)[1..];
    }
  }

  /** A leading separator starts a new, empty, first piece. */
  lemma PiecesSep(c: char, b: string)
    requires IsPathSep(c)
    ensures Pieces([c] + b) == [""] + Pieces(b)
  {
    assert ([c] + b)[1..] == b;
  }

  /** Splitting a `/`-join of separator-free pieces gives the pieces back. */
  lemma {:induction false} PiecesJoin(xs: seq<string>)
    requires |xs| >= 1
    requires forall k :: 0 <= k < |xs| ==> SepFree(xs[k])
    decreases |xs|
    ensures Pieces(Join(xs, "/")) == xs
  {
    if |xs| == 1 {
      PiecesPrefix(xs[0], "");
      assert xs[0] + "" == xs[0];
    } else {
      var rest := Join(xs[1..], "/");
      PiecesJoin(xs[1..]);
      assert Join(xs, "/") == xs[0] + ("/" + rest);
      PiecesPrefix(xs[0], "/" + rest);
      assert ("/" + rest)[1..] == rest;
      assert Pieces("/" + rest) == [""] + xs[1..];
      assert xs[0] + "" == xs[0];
    }
  }

  /** A list without empty strings is kept whole. */
  lemma {:induction false} KeptAll(xs: seq<string>)
    requires forall k :: 0 <= k < |xs| ==> xs[k] != []
    decreases |xs|
    ensures Kept(xs) == xs
  {
    if xs != [] {
      KeptAll(xs[1..]);
    }
  }

  /** Parts that are non-empty identifiers survive a round trip through `a/b/c`. */
  lemma ModulePartsJoin(parts: seq<string>)
    requires |parts| >= 1
    requires forall k :: 0 <= k < |parts| ==> parts[k] != [] && IsIdent(parts[k])
    ensures ModuleParts(Join(parts, "/")) == parts
  {
    forall k | 0 <= k < |parts| ensures SepFree(parts[k]) {
      IdentSepFree(parts[k]);
    }
    PiecesJoin(parts);
    KeptAll(parts);
    SafePartsFixed(parts);
  }

  lemma IdentSepFree(s: string)
    requires IsIdent(s)
    ensures SepFree(s)
  {
    forall i | 0 <= i < |s| ensures !IsPathSep(s[i]) {
      assert IsIdentChar(s[i]);
    }
  }

  /** Sanitising parts that are already identifiers changes none of them. */
  lemma SafePartsFixed(parts: seq<string>)
    requires forall k :: 0 <= k < |parts| ==> IsIdent(parts[k])
    ensures seq(|parts|, k requires 0 <= k < |parts| => SafeRustIdent(parts[k])) == parts
  {
    forall k | 0 <= k < |parts| ensures SafeRustIdent(parts[k]) == parts[k] {
      SafeRustIdentFixes(parts[k]);
    }
  }

  // ---------------------------------------------------------------------------
  // Where the module goes

  datatype ModuleKind = File | Dir

  /** `moduleFile`: `src/<parts>/mod.rs` for a directory module, `src/<parents>/<leaf>.rs` for a file module. */
  function ModuleFile(parts: seq<string>, kind: ModuleKind): (r: SegPath)
    requires parts != []
  {
    if kind == Dir then ["src"] + parts + ["mod.rs"]
    else ["src"] + parts[..|parts| - 1] + [parts[|parts| - 1] + ".rs"]
  }

  /** The module file lies under `src`, in the directory of the parts (all of them, or all but the leaf). */
  lemma ModuleFilePlacement(parts: seq<string>, kind: ModuleKind)
    requires parts != []
    ensures var r := ModuleFile(parts, kind);
            var dirs := if kind == Dir then parts else parts[..|parts| - 1];
            && |r| == |dirs| + 2 && r[0] == "src" && r[1..|r| - 1] == dirs
            && r[|r| - 1] == (if kind == Dir then "mod.rs" else parts[|parts| - 1] + ".rs")
  {
  }

  /** Different parts of the same kind never share a module file. */
  lemma ModuleFileInjective(p: seq<string>, q: seq<string>, kind: ModuleKind)
    requires p != [] && q != []
    requires ModuleFile(p, kind) == ModuleFile(q, kind)
    ensures p == q
  {
    var r := ModuleFile(p, kind);
    if kind == Dir {
      assert p == r[1..|r| - 1] == q;
    } else {
      var lp := p[|p| - 1];
      var lq := q[|q| - 1];
      assert |p| == |r| - 1 == |q|;
      assert lp + ".rs" == r[|r| - 1] == lq + ".rs";
      assert |lp| == |lq|;
      assert lp == (lp + ".rs")[..|lp|] == lq;
      assert p[..|p| - 1] == r[1..|r| - 1] == q[..|q| - 1];
      assert p == p[..|p| - 1] + [lp];
      assert q == q[..|q| - 1] + [lq];
    }
  }

  const LibRs: SegPath := ["src", "lib.rs"]
  const MainRs: SegPath := ["src", "main.rs"]

  /** Only the file module `lib` (resp. `main`) is the entry file itself. */
  lemma ModuleFileIsEntry(parts: seq<string>, kind: ModuleKind)
    requires parts != []
    ensures ModuleFile(parts, kind) == LibRs <==> kind == File && parts == ["lib"]
    ensures ModuleFile(parts, kind) == MainRs <==> kind == File && parts == ["main"]
  {
    var r := ModuleFile(parts, kind);
    assert "lib" + ".rs" == "lib.rs" && "main" + ".rs" == "main.rs";
    if kind == Dir {
      assert |r| >= 3;
    } else if r == LibRs || r == MainRs {
      var leaf := parts[|parts| - 1];
      assert |parts| == 1;
      assert leaf + ".rs" == r[1];
      assert leaf == (leaf + ".rs")[..|leaf|];
      assert parts == [leaf];
    }
  }

  // ---------------------------------------------------------------------------
  // Registration in the entry file

  function ModLine(leaf: string): string {
    "mod " + leaf + ";"
  }

  function PubModLine(leaf: string): string {
    "pub mod " + leaf + ";"
  }

  /** `already`: the entry text holds `mod <leaf>;` or `pub mod <leaf>;`. */
  predicate Declares(text: string, leaf: string) {
    Contains(text, ModLine(leaf)) || Contains(text, PubModLine(leaf))
  }

  /** `pub mod <leaf>;` holds `mod <leaf>;`, so the second test never decides. */
  lemma DeclaresIff(text: string, leaf: string)
    ensures Declares(text, leaf) <==> Contains(text, ModLine(leaf))
  {
    if Contains(text, PubModLine(leaf)) {
      var i := IndexOf(text, PubModLine(leaf));
      assert text[i + 4..i + 4 + |ModLine(leaf)|] == PubModLine(leaf)[4..] == ModLine(leaf);
      assert OccursAt(text, ModLine(leaf), i + 4);
      ContainsIff(text, ModLine(leaf));
    }
  }

  /** `updated`: the text without trailing whitespace, an empty line, and the declaration. */
  function WithDeclaration(text: string, leaf: string): (r: string)
    ensures StartsWith(r, TrimEnd(text))
    ensures EndsWith(r, "\n\n" + PubModLine(leaf) + "\n")
  {
    var r := TrimEnd(text) + "\n\npub mod " + leaf + ";\n";
    assert r == TrimEnd(text) + ("\n\n" + PubModLine(leaf) + "\n");
    r
  }

  /** After the declaration is added, the text declares the module: registering again adds nothing. */
  lemma WithDeclarationDeclares(text: string, leaf: string)
    ensures Declares(WithDeclaration(text, leaf), leaf)
  {
    var r := WithDeclaration(text, leaf);
    var i := |TrimEnd(text)| + 2;
    assert r[i..i + |PubModLine(leaf)|] == PubModLine(leaf);
    assert OccursAt(r, PubModLine(leaf), i);
    ContainsIff(r, PubModLine(leaf));
  }

  // ---------------------------------------------------------------------------
  // createRustModule

  const InvalidModulePath: string := "Invalid modulePath"
  const NoEntryNote: string := "Neither src/lib.rs nor src/main.rs exists; module file created only."

  /** The two shapes of the returned record. */
  datatype Outcome =
    | CreatedOnly(created: SegPath, note: string)
    | Registered(created: SegPath, registeredIn: SegPath, addedDeclaration: Option<string>)

  /** The files after the call and what it returns or throws. */
  datatype Created = Created(files: map<SegPath, string>, result: Result<Outcome, string>)

  /** `entry`: `src/lib.rs` if it exists, else `src/main.rs` if it exists, else none. */
  function Entry(files: map<SegPath, string>): (r: Option<SegPath>)
    ensures r.Some? ==> r.value in files && r.value in {LibRs, MainRs}
    ensures r.None? <==> LibRs !in files && MainRs !in files
    ensures LibRs in files ==> r == Some(LibRs)
  {
    if LibRs in files then Some(LibRs) else if MainRs in files then Some(MainRs) else None
  }

  /** The files once the module file exists: a new one holds `// <modulePath>`. */
  function WithModuleFile(files: map<SegPath, string>, file: SegPath, modulePath: string): map<SegPath, string> {
    if file in files then files else files[file := "// " + modulePath + "\n"]
  }

  /** The entry registration step on the files after the module file is written. */
  function Register(files: map<SegPath, string>, created: SegPath, leaf: string): Created {
    var entry := Entry(files);
    if entry.None? then Created(files, Success(CreatedOnly(created, NoEntryNote)))
    else
      var text := files[entry.value];
      if Declares(text, leaf) then Created(files, Success(Registered(created, entry.value, None)))
      else Created(files[entry.value := WithDeclaration(text, leaf)],
                   Success(Registered(created, entry.value, Some(PubModLine(leaf)))))
  }

  /** `createRustModule({rootDir, modulePath, kind})` on the files below `rootDir`. */
  function Create(files: map<SegPath, string>, modulePath: string, kind: ModuleKind): Created {
    var parts := ModuleParts(modulePath);
    if parts == [] then Created(files, Failure(InvalidModulePath))
    else
      var file := ModuleFile(parts, kind);
      Register(WithModuleFile(files, file, modulePath), file, parts[|parts| - 1])
  }

  /** The files a workspace holds, below its root. */
  class Workspace {
    var files: map<SegPath, string>

    constructor (initial: map<SegPath, string>)
      ensures files == initial
    {
      files := initial;
    }

    /** `createRustModule`: write the module file if missing, then register it in the entry file. */
    method CreateRustModule(modulePath: string, kind: ModuleKind) returns (r: Result<Outcome, string>)
      modifies this
      ensures files == Create(old(files), modulePath, kind).files
      ensures r == Create(old(files), modulePath, kind).result
    {
      var parts := ModuleParts(modulePath);
      if parts == [] {
        return Failure(InvalidModulePath);
      }
      var leaf := parts[|parts| - 1];
      var moduleFile := ModuleFile(parts, kind);
      if moduleFile !in files {
        files := files[moduleFile := "// " + modulePath + "\n"];
      }
      assert files == WithModuleFile(old(files), moduleFile, modulePath);
      ghost var spec := Register(files, moduleFile, leaf);
      assert Create(old(files), modulePath, kind) == spec;
      var entry: SegPath;
      if LibRs in files {
        entry := LibRs;
      } else if MainRs in files {
        entry := MainRs;
      } else {
        return Success(CreatedOnly(moduleFile, NoEntryNote));
      }
      var entryText := files[entry];
      var already := Contains(entryText, ModLine(leaf)) || Contains(entryText, PubModLine(leaf));
      if !already {
        files := files[entry := WithDeclaration(entryText, leaf)];
      }
      return Success(Registered(moduleFile, entry, if already then None else Some(PubModLine(leaf))));
    }
  }

  // ---------------------------------------------------------------------------
  // What createRustModule guarantees

  /** A path of separators only is refused and nothing is written. */
  lemma InvalidPath(files: map<SegPath, string>, modulePath: string, kind: ModuleKind)
    ensures Create(files, modulePath, kind).result == Failure(InvalidModulePath)
            <==> forall i :: 0 <= i < |modulePath| ==> IsPathSep(modulePath[i])
    ensures Create(files, modulePath, kind).result.Failure? ==> Create(files, modulePath, kind).files == files
  {
    NoPartsIff(modulePath);
  }

  /** Only the module file and the entry file can change: every other file is kept as it was. */
  lemma OnlyModuleAndEntryChange(files: map<SegPath, string>, modulePath: string, kind: ModuleKind, p: SegPath)
    requires ModuleParts(modulePath) != []
    requires p != ModuleFile(ModuleParts(modulePath), kind) && p != LibRs && p != MainRs
    ensures p in Create(files, modulePath, kind).files <==> p in files
    ensures p in files ==> Create(files, modulePath, kind).files[p] == files[p]
  {
  }

  /** Afterwards the module file exists and no file has been removed. */
  lemma ModuleFileExists(files: map<SegPath, string>, modulePath: string, kind: ModuleKind)
    requires ModuleParts(modulePath) != []
    ensures var c := Create(files, modulePath, kind);
            && ModuleFile(ModuleParts(modulePath), kind) in c.files
            && c.files.Keys == files.Keys + {ModuleFile(ModuleParts(modulePath), kind)}
            && c.result.Success? && c.result.value.created == ModuleFile(ModuleParts(modulePath), kind)
  {
  }

  /**
   * An existing module file is never overwritten, and a new one holds `// <modulePath>`,
   * unless the module file is itself the entry file the declaration goes to.
   */
  lemma ModuleFileText(files: map<SegPath, string>, modulePath: string, kind: ModuleKind)
    requires ModuleParts(modulePath) != []
    requires ModuleFile(ModuleParts(modulePath), kind) != LibRs
    requires ModuleFile(ModuleParts(modulePath), kind) != MainRs
    ensures var file := ModuleFile(ModuleParts(modulePath), kind);
            Create(files, modulePath, kind).files[file]
              == if file in files then files[file] else "// " + modulePath + "\n"
  {
  }

  /** With neither entry file (and a module file that is neither), only the module file is written. */
  lemma NoEntryFile(files: map<SegPath, string>, modulePath: string, kind: ModuleKind)
    requires ModuleParts(modulePath) != []
    requires LibRs !in files && MainRs !in files
    requires ModuleFile(ModuleParts(modulePath), kind) !in {LibRs, MainRs}
    ensures var file := ModuleFile(ModuleParts(modulePath), kind);
            Create(files, modulePath, kind) == Created(WithModuleFile(files, file, modulePath),
                                                       Success(CreatedOnly(file, NoEntryNote)))
  {
  }

  /**
   * With an entry file, the declaration goes to `src/lib.rs` when it exists and to
   * `src/main.rs` otherwise; it is added exactly when the entry did not declare the leaf,
   * and the entry then reads `trimEnd(text)`, an empty line and `pub mod <leaf>;`.
   */
  lemma Registration(files: map<SegPath, string>, modulePath: string, kind: ModuleKind)
    requires ModuleParts(modulePath) != []
    requires ModuleFile(ModuleParts(modulePath), kind) !in {LibRs, MainRs}
    requires LibRs in files || MainRs in files
    ensures var leaf := ModuleParts(modulePath)[|ModuleParts(modulePath)| - 1];
            var entry := if LibRs in files then LibRs else MainRs;
            var c := Create(files, modulePath, kind);
            && c.result.Success? && c.result.value.Registered? && c.result.value.registeredIn == entry
            && (Contains(files[entry], ModLine(leaf)) ==>
                  c.files[entry] == files[entry] && c.result.value.addedDeclaration.None?)
            && (!Contains(files[entry], ModLine(leaf)) ==>
                  c.files[entry] == WithDeclaration(files[entry], leaf)
                  && c.result.value.addedDeclaration == Some(PubModLine(leaf)))
  {
    var leaf := ModuleParts(modulePath)[|ModuleParts(modulePath)| - 1];
    var entry := if LibRs in files then LibRs else MainRs;
    DeclaresIff(files[entry], leaf);
  }

  /** Registering twice writes what registering once writes. */
  lemma RegisterIdempotent(files: map<SegPath, string>, created: SegPath, leaf: string)
    ensures Register(Register(files, created, leaf).files, created, leaf).files == Register(files, created, leaf).files
  {
    var entry := Entry(files);
    if entry.Some? && !Declares(files[entry.value], leaf) {
      WithDeclarationDeclares(files[entry.value], leaf);
    }
  }

  /** Creating the same module twice leaves the files as creating it once. */
  lemma CreateIdempotent(files: map<SegPath, string>, modulePath: string, kind: ModuleKind)
    ensures Create(Create(files, modulePath, kind).files, modulePath, kind).files == Create(files, modulePath, kind).files
  {
    var parts := ModuleParts(modulePath);
    if parts != [] {
      var file := ModuleFile(parts, kind);
      var leaf := parts[|parts| - 1];
      var once := Create(files, modulePath, kind).files;
      var written := WithModuleFile(files, file, modulePath);
      assert once == Register(written, file, leaf).files;
      assert file in once;
      assert WithModuleFile(once, file, modulePath) == once;
      RegisterIdempotent(written, file, leaf);
    }
  }

  /**
   * A new file module `<leaf>` in a crate whose only file is a `src/lib.rs` without the
   * declaration: `src/<leaf>.rs` is created and `lib.rs` gains `pub mod <leaf>;`.
   */
  lemma NewFileModule(text: string, leaf: string)
    requires leaf != [] && IsIdent(leaf) && leaf != "lib"
    requires !Contains(text, ModLine(leaf))
    ensures var c := Create(map[LibRs := text], leaf, File);
            && c.result == Success(Registered(["src", leaf + ".rs"], LibRs, Some(PubModLine(leaf))))
            && c.files == map[LibRs := WithDeclaration(text, leaf), ["src", leaf + ".rs"] := "// " + leaf + "\n"]
  {
    ModulePartsJoin([leaf]);
    assert Join([leaf], "/") == leaf;
    assert ModuleParts(leaf) == [leaf];
    var file := ModuleFile([leaf], File);
    assert file == ["src", leaf + ".rs"];
    ModuleFileIsEntry([leaf], File);
    var written := map[LibRs := text][file := "// " + leaf + "\n"];
    assert Entry(written) == Some(LibRs);
    assert written[LibRs] == text;
    DeclaresIff(text, leaf);
    assert Register(written, file, leaf).result == Success(Registered(file, LibRs, Some(PubModLine(leaf))));
  }
}
