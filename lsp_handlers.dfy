/**
 * Two helpers of `src/tools/handlers/lsp.ts`: `normalizeLocations`, which brings the
 * two shapes rust-analyzer answers a definition request with (`Location` and
 * `LocationLink`) to one, and `extractSnippet`, which cuts the numbered lines around a
 * range out of a file's text.
 */
module LspHandlers {
  import opened Wrappers
  import opened Json
  import opened JsText
  import opened TextEdits

  // ---------------------------------------------------------------------------
  // normalizeLocations

  /** `loc?.[key]` is truthy. */
  predicate HasTruthy(loc: Json, key: string) {
    Field(loc, key).Some? && Truthy(Field(loc, key).value)
  }

  /** `{ uri: loc.targetUri, range: loc.targetSelectionRange ?? loc.targetRange }`; an undefined range is left out. */
  function Retarget(loc: Json): (r: Json)
    requires HasTruthy(loc, "targetUri")
    ensures r.JObj? && Field(r, "uri") == Field(loc, "targetUri")
    ensures Field(r, "range") == Coalesce(Field(loc, "targetSelectionRange"), Field(loc, "targetRange"))
    ensures r.fields.Keys <= {"uri", "range"}
  {
    var range := Coalesce(Field(loc, "targetSelectionRange"), Field(loc, "targetRange"));
    JObj(map["uri" := Field(loc, "targetUri").value]
         + (if range.Some? then map["range" := range.value] else map[]))
  }

  /** What one entry contributes: itself when it is a location, its target when it is a link, nothing otherwise. */
  function Normalize(loc: Json): seq<Json> {
    if HasTruthy(loc, "uri") && HasTruthy(loc, "range") then [loc]
    else if HasTruthy(loc, "targetUri") then [Retarget(loc)]
    else []
  }

  /** The entries' contributions, in order. */
  function Normalized(locs: seq<Json>): seq<Json>
    decreases |locs|
  {
    if locs == [] then [] else Normalized(locs[..|locs| - 1]) + Normalize(locs[|locs| - 1])
  }

  /** `normalizeLocations`: one pass that pushes each entry's contribution. */
  method NormalizeLocations(locations: seq<Json>) returns (out: seq<Json>)
    ensures out == Normalized(locations)
  {
    out := [];
    for i := 0 to |locations|
      invariant out == Normalized(locations[..i])
    {
      assert locations[..i + 1][..i] == locations[..i];
      var loc := locations[i];
      if HasTruthy(loc, "uri") && HasTruthy(loc, "range") {
        out := out + [loc];
      } else if HasTruthy(loc, "targetUri") {
        out := out + [Retarget(loc)];
      }
    }
    assert locations[..|locations|] == locations;
  }

  /** Normalising a concatenation normalises each part: order is kept. */
  lemma {:induction false} NormalizedAppend(a: seq<Json>, b: seq<Json>)
    decreases |b|
    ensures Normalized(a + b) == Normalized(a) + Normalized(b)
  {
    if b == [] {
      assert a + b == a;
    } else {
      var c := b[..|b| - 1];
      NormalizedAppend(a, c);
      SnocAppend(a, b);
      assert Normalized(a + b) == Normalized(a + c) + Normalize(b[|b| - 1]);
    }
  }

  lemma SnocAppend<T>(a: seq<T>, b: seq<T>)
    requires b != []
    ensures (a + b)[..|a + b| - 1] == a + b[..|b| - 1] && (a + b)[|a + b| - 1] == b[|b| - 1]
  {
  }

  /** The result is never longer than the input. */
  lemma {:induction false} NormalizedShorter(locs: seq<Json>)
    decreases |locs|
    ensures |Normalized(locs)| <= |locs|
  {
    if locs != [] {
      NormalizedShorter(locs[..|locs| - 1]);
    }
  }

  /** Every entry of the result has a truthy `uri`. */
  lemma {:induction false} NormalizedHaveUri(locs: seq<Json>)
    decreases |locs|
    ensures forall k :: 0 <= k < |Normalized(locs)| ==> HasTruthy(Normalized(locs)[k], "uri")
  {
    if locs != [] {
      NormalizedHaveUri(locs[..|locs| - 1]);
      var loc := locs[|locs| - 1];
      if !(HasTruthy(loc, "uri") && HasTruthy(loc, "range")) && HasTruthy(loc, "targetUri") {
        assert HasTruthy(Retarget(loc), "uri");
      }
    }
  }

  /** Entries that are all locations already come back unchanged. */
  lemma {:induction false} LocationsKept(locs: seq<Json>)
    requires forall k :: 0 <= k < |locs| ==> HasTruthy(locs[k], "uri") && HasTruthy(locs[k], "range")
    decreases |locs|
    ensures Normalized(locs) == locs
  {
    if locs != [] {
      LocationsKept(locs[..|locs| - 1]);
      assert locs[..|locs| - 1] + [locs[|locs| - 1]] == locs;
    }
  }

  /** A link with a selection range becomes `{uri: targetUri, range: targetSelectionRange}`. */
  lemma LinkExample(u: string, sel: Json, full: Json)
    requires u != [] && sel != JNull
    ensures Normalized([JObj(map["targetUri" := JStr(u), "targetSelectionRange" := sel, "targetRange" := full])])
            == [JObj(map["uri" := JStr(u), "range" := sel])]
  {
    var loc := JObj(map["targetUri" := JStr(u), "targetSelectionRange" := sel, "targetRange" := full]);
    assert !Has(loc, "uri");
    assert [loc][..0] == [];
    assert Retarget(loc).fields == map["uri" := JStr(u), "range" := sel];
  }

  // ---------------------------------------------------------------------------
  // extractSnippet

  /** `xs.slice(s, e)`: negative bounds count from the end, and both are clamped to the list. */
  function SliceIndex(k: int, n: nat): (r: nat)
    ensures r <= n
    ensures 0 <= k <= n ==> r == k
  {
    if k < 0 then (if n + k < 0 then 0 else n + k) else if k > n then n else k
  }

  function Slice<T>(xs: seq<T>, s: int, e: int): (r: seq<T>)
    ensures 0 <= s <= e <= |xs| ==> r == xs[s..e]
    ensures 0 <= e <= s ==> r == []
  {
    var a := SliceIndex(s, |xs|);
    var b := SliceIndex(e, |xs|);
    if a < b then xs[a..b] else []
  }

  function Max(a: int, b: int): int { if a >= b then a else b }
  function Min(a: int, b: int): int { if a <= b then a else b }

  /** `"<k>: <line>"` for each line, numbered from `first`. */
  function Numbered(lines: seq<string>, first: nat): (r: seq<string>)
    ensures |r| == |lines|
    ensures forall i :: 0 <= i < |lines| ==> r[i] == NatToString(first + i) + ": " + lines[i]
  {
    seq(|lines|, i requires 0 <= i < |lines| => NatToString(first + i) + ": " + lines[i])
  }

  /** The first line shown: `contextLines` before the range, but not before the first line. */
  function FirstShown(range: Range, contextLines: int): (r: nat) {
    Max(0, range.start.line - contextLines)
  }

  /** The last line shown: `contextLines` after the range, but not after the last line. */
  function LastShown(text: string, range: Range, contextLines: int): int {
    Min(|Split(text, "\n")| - 1, range.end.line + contextLines)
  }

  /** `extractSnippet(text, range, contextLines)`. */
  function ExtractSnippet(text: string, range: Range, contextLines: int): string {
    var lines := Split(text, "\n");
    var start := FirstShown(range, contextLines);
    var end := LastShown(text, range, contextLines);
    Shown(lines, start, end)
  }

  /** Lines `start` through `end`, numbered from 1 and joined. */
  function Shown(lines: seq<string>, start: nat, end: int): string {
    Join(Numbered(Slice(lines, start, end + 1), start + 1), "\n")
  }

  /** With the default of two lines of context. */
  function Snippet(text: string, range: Range): string {
    ExtractSnippet(text, range, 2)
  }

  /** A numbered line holds a line feed only where its text does. */
  lemma NumberedFree(lines: seq<string>, first: nat)
    requires forall k :: 0 <= k < |lines| ==> '\n' !in lines[k]
    ensures forall k :: 0 <= k < |lines| ==> '\n' !in Numbered(lines, first)[k]
  {
    forall k | 0 <= k < |lines| ensures '\n' !in Numbered(lines, first)[k] {
      var number := NatToString(first + k);
      assert forall j :: 0 <= j < |number| ==> IsDigit(number[j]);
      assert '\n' !in number;
    }
  }

  /**
   * For a range that does not end before line -2, the snippet's lines are the text's
   * lines from the first shown through the last shown, in order, each prefixed by
   * its 1-based number; when the first shown comes after the last, the snippet is empty.
   */
  lemma SnippetLines(text: string, range: Range)
    requires range.end.line >= -2
    ensures var s := FirstShown(range, 2);
            var e := LastShown(text, range, 2);
            s <= e ==> Split(Snippet(text, range), "\n") == Numbered(Split(text, "\n")[s..e + 1], s + 1)
    ensures FirstShown(range, 2) > LastShown(text, range, 2) ==> Snippet(text, range) == ""
  {
    var lines := Split(text, "\n");
    var s := FirstShown(range, 2);
    var e := LastShown(text, range, 2);
    assert Snippet(text, range) == Shown(lines, s, e);
    SplitPiecesFree(text, '\n');
    ShownLines(lines, s, e);
  }

  /** Numbered lines free of line feeds, joined, split back into themselves; no lines join to the empty text. */
  lemma ShownLines(lines: seq<string>, s: nat, e: int)
    requires -1 <= e < |lines|
    requires forall k :: 0 <= k < |lines| ==> '\n' !in lines[k]
    ensures s <= e ==> Split(Shown(lines, s, e), "\n") == Numbered(lines[s..e + 1], s + 1)
    ensures s > e ==> Shown(lines, s, e) == ""
  {
    if s <= e {
      var shown := lines[s..e + 1];
      assert Slice(lines, s, e + 1) == shown;
      forall k | 0 <= k < |shown| ensures '\n' !in shown[k] {
        assert shown[k] == lines[s + k];
      }
      NumberedFree(shown, s + 1);
      SplitJoin(Numbered(shown, s + 1), '\n');
    } else {
      assert Slice(lines, s, e + 1) == [];
    }
  }
}
