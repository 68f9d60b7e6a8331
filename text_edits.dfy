/**
 * The text half of `workspaceEdit.ts`: end-of-line detection and conversion,
 * the line-offset table, LSP positions to offsets, and `applyTextEdits`, which
 * splices edits whose ranges refer to the original text in descending start order
 * (the TextEdit semantics of LSP 3.17).
 */
module TextEdits {
  import opened JsText

  // ---------------------------------------------------------------------------
  // End of line

  datatype Eol = LF | CRLF

  /** `detectEol`: CRLF exactly when the text contains `\r\n`. */
  function DetectEol(text: string): (e: Eol)
    ensures e == CRLF <==> exists i :: OccursAt(text, "\r\n", i)
  {
    ContainsIff(text, "\r\n");
    if Contains(text, "\r\n") then CRLF else LF
  }

  /** `normalizeEol`: every `\r\n` becomes `\n`. */
  function NormalizeEol(text: string): string {
    ReplaceAll(text, "\r\n", "\n")
  }

  /** `restoreEol`: under CRLF every `\n` becomes `\r\n`. */
  function RestoreEol(text: string, eol: Eol): string {
    if eol == LF then text else ReplaceAll(text, "\n", "\r\n")
  }

  /** Restoring with LF changes nothing. */
  lemma RestoreLfIdentity(text: string)
    ensures RestoreEol(text, LF) == text
  {
  }

  /** For text without `\r`, normalizing undoes restoring CRLF line ends. */
  lemma {:induction false} NormalizeRestore(t: string)
    requires '\r' !in t
    ensures NormalizeEol(RestoreEol(t, CRLF)) == t
  {
    if t != [] {
      assert '\r' !in t[1..] by {
        forall c | c in t[1..] ensures c != '\r' {
          assert c in t;
        }
      }
      NormalizeRestore(t[1..]);
      var rest := ReplaceAll(t[1..], "\n", "\r\n");
      if t[0] == '\n' {
        assert RestoreEol(t, CRLF) == "\r\n" + rest;
        NormalizeCrlfHead(rest);
      } else {
        assert RestoreEol(t, CRLF) == [t[0]] + rest;
        assert t[0] in t;
        NormalizeOtherHead(t[0], rest);
      }
      assert t == [t[0]] + t[1..];
    }
  }

  lemma NormalizeCrlfHead(rest: string)
    ensures NormalizeEol("\r\n" + rest) == "\n" + NormalizeEol(rest)
  {
    var s := "\r\n" + rest;
    assert s[..2] == "\r\n";
    assert s[2..] == rest;
  }

  lemma NormalizeOtherHead(c: char, rest: string)
    requires c != '\r' || rest == [] || rest[0] != '\n'
    ensures NormalizeEol([c] + rest) == [c] + NormalizeEol(rest)
  {
    var s := [c] + rest;
    assert s[1..] == rest;
    if |s| >= 2 {
      assert s[..2] == [c, rest[0]];
    } else {
      assert rest == [];
    }
  }

  /** Normalizing text without `\r` changes nothing. */
  lemma {:induction false} NormalizeWithoutCr(t: string)
    requires '\r' !in t
    ensures NormalizeEol(t) == t
  {
    if t != [] {
      assert '\r' !in t[1..] by {
        forall c | c in t[1..] ensures c != '\r' {
          assert c in t;
        }
      }
      NormalizeWithoutCr(t[1..]);
      assert t[0] in t;
      NormalizeOtherHead(t[0], t[1..]);
      assert t == [t[0]] + t[1..];
    }
  }

  /** Text without `\r` has LF line ends. */
  lemma NoCrlfWithoutCr(t: string)
    requires '\r' !in t
    ensures DetectEol(t) == LF
  {
    forall i ensures !OccursAt(t, "\r\n", i) {
      if 0 <= i && i + 2 <= |t| {
        assert t[i] in t;
        assert t[i..i + 2][0] == t[i];
      }
    }
  }

  /** Normalizing is not idempotent: `\r\r\n` becomes `\r\n`, which a second pass turns into `\n`. */
  lemma NormalizeNotIdempotent()
    ensures NormalizeEol("\r\r\n") == "\r\n"
    ensures NormalizeEol(NormalizeEol("\r\r\n")) == "\n"
  {
    assert "\r\r\n" == ['\r'] + "\r\n";
    NormalizeOtherHead('\r', "\r\n");
    NormalizeCrlfHead("");
  }

  // ---------------------------------------------------------------------------
  // Line offsets and positions

  /** `LspPosition`: a zero-based line and character. */
  datatype Position = Position(line: int, character: int)
  datatype Range = Range(start: Position, end: Position)
  /** `LspTextEdit`: replace `range` with `newText`. */
  datatype TextEdit = TextEdit(range: Range, newText: string)

  /** The line-start offsets found in the first `n` characters: 0, then one past each `\n`. */
  function LineStarts(text: string, n: nat): (r: seq<int>)
    requires n <= |text|
    ensures |r| >= 1
  {
    if n == 0 then [0] else LineStarts(text, n - 1) + (if text[n - 1] == '\n' then [n] else [])
  }

  function LineOffsets(text: string): seq<int> {
    LineStarts(text, |text|)
  }

  /** `buildLineOffsets`. */
  method BuildLineOffsets(text: string) returns (offsets: seq<int>)
    ensures offsets == LineOffsets(text)
  {
    offsets := [0];
    for i := 0 to |text|
      invariant offsets == LineStarts(text, i)
    {
      if text[i] == '\n' {
        offsets := offsets + [i + 1];
      }
    }
  }

  /**
   * The table starts at 0, has one entry more than there are `\n`s, is strictly
   * increasing, and every later entry lies one past a `\n`, at most the text's length.
   */
  lemma {:induction false} LineStartsShape(text: string, n: nat)
    requires n <= |text|
    ensures var o := LineStarts(text, n);
            && o[0] == 0
            && |o| == 1 + multiset(text[..n])['\n']
            && (forall i, j :: 0 <= i < j < |o| ==> o[i] < o[j])
            && (forall k :: 1 <= k < |o| ==> 1 <= o[k] <= n && text[o[k] - 1] == '\n')
            && (forall k :: 0 <= k < |o| ==> 0 <= o[k] <= n)
  {
    if n > 0 {
      LineStartsShape(text, n - 1);
      assert text[..n] == text[..n - 1] + [text[n - 1]];
    }
  }

  /** Every `\n` in the text starts a line. */
  lemma {:induction false} LineStartsComplete(text: string, n: nat, i: nat)
    requires i < n <= |text| && text[i] == '\n'
    ensures i + 1 in LineStarts(text, n)
  {
    if i + 1 < n {
      LineStartsComplete(text, n - 1, i);
    }
  }

  function Min(a: int, b: int): int {
    if a <= b then a else b
  }

  /** `offsetAt`: the line's start (the text's length past the last line) plus the character, capped at the length. */
  function OffsetAt(lineOffsets: seq<int>, p: Position, text: string): int {
    var lineStart := if 0 <= p.line < |lineOffsets| then lineOffsets[p.line] else |text|;
    Min(lineStart + p.character, |text|)
  }

  /** For a non-negative position the offset lies within the text. */
  lemma OffsetInBounds(text: string, p: Position)
    requires p.line >= 0 && p.character >= 0
    ensures 0 <= OffsetAt(LineOffsets(text), p, text) <= |text|
  {
    LineStartsShape(text, |text|);
  }

  /** A line past the last one yields the text's length. */
  lemma OffsetPastLastLine(text: string, p: Position)
    requires p.line >= |LineOffsets(text)| && p.character >= 0
    ensures OffsetAt(LineOffsets(text), p, text) == |text|
  {
  }

  /** A character past its line's end is not clamped to the line: it runs on into the next lines. */
  lemma OffsetSpills()
    ensures OffsetAt(LineOffsets("ab\ncd"), Position(0, 4), "ab\ncd") == 4
    ensures OffsetAt(LineOffsets("ab\ncd"), Position(0, 10), "ab\ncd") == 5
  {
    var t := "ab\ncd";
    assert LineStarts(t, 1) == [0];
    assert LineStarts(t, 2) == [0];
    assert LineStarts(t, 3) == [0, 3];
    assert LineStarts(t, 4) == [0, 3];
    assert LineStarts(t, 5) == [0, 3];
  }

  // ---------------------------------------------------------------------------
  // Applying edits

  /** An edit located in the text: `[start, end)` is replaced by `newText`. */
  datatype Located = Located(start: int, end: int, newText: string)

  function Locate(lineOffsets: seq<int>, text: string, e: TextEdit): Located {
    Located(OffsetAt(lineOffsets, e.range.start, text), OffsetAt(lineOffsets, e.range.end, text), e.newText)
  }

  function LocateAll(lineOffsets: seq<int>, text: string, es: seq<TextEdit>): (r: seq<Located>)
    ensures |r| == |es|
  {
    if es == [] then [] else [Locate(lineOffsets, text, es[0])] + LocateAll(lineOffsets, text, es[1..])
  }

  /** `s.slice(0, k)`: a negative `k` counts from the end; out-of-range values are clamped. */
  function SliceIndex(len: nat, k: int): (r: nat)
    ensures r <= len
    ensures 0 <= k <= len ==> r == k
  {
    if k < 0 then (if len + k < 0 then 0 else len + k) else if k > len then len else k
  }

  /** `current.slice(0, start) + newText + current.slice(end)`. */
  function Splice(current: string, e: Located): string {
    current[..SliceIndex(|current|, e.start)] + e.newText + current[SliceIndex(|current|, e.end)..]
  }

  /** One step of the insertion sort: `x` goes after every element that starts no earlier. */
  function Insert(x: Located, s: seq<Located>): (r: seq<Located>)
    ensures |r| == |s| + 1
  {
    if s == [] then [x]
    else if s[0].start >= x.start then [s[0]] + Insert(x, s[1..])
    else [x] + s
  }

  predicate SortedDesc(s: seq<Located>) {
    forall i, j :: 0 <= i < j < |s| ==> s[i].start >= s[j].start
  }

  /** `.sort((a, b) => b.start - a.start)`: a stable sort by descending start. */
  function SortByStartDesc(s: seq<Located>): (r: seq<Located>)
    ensures SortedDesc(r) && multiset(r) == multiset(s)
  {
    if s == [] then []
    else
      var sorted := SortByStartDesc(s[..|s| - 1]);
      assert s == s[..|s| - 1] + [s[|s| - 1]];
      InsertSorted(s[|s| - 1], sorted);
      InsertPermutes(s[|s| - 1], sorted);
      Insert(s[|s| - 1], sorted)
  }

  /** The loop of `applyTextEdits`: each edit spliced into the text the previous ones produced. */
  function ApplyInOrder(current: string, es: seq<Located>): string
    decreases |es|
  {
    if es == [] then current else ApplyInOrder(Splice(current, es[0]), es[1..])
  }

  /** What `applyTextEdits(text, edits)` returns. */
  function TextEditsResult(text: string, edits: seq<TextEdit>): string {
    ApplyInOrder(text, SortByStartDesc(LocateAll(LineOffsets(text), text, edits)))
  }

  /** `applyTextEdits`. */
  method ApplyTextEdits(text: string, edits: seq<TextEdit>) returns (current: string)
    ensures current == TextEditsResult(text, edits)
  {
    var lineOffsets := BuildLineOffsets(text);
    var withOffsets := SortByStartDesc(LocateAll(lineOffsets, text, edits));
    current := text;
    for i := 0 to |withOffsets|
      invariant ApplyInOrder(current, withOffsets[i..]) == TextEditsResult(text, edits)
    {
      assert withOffsets[i..][1..] == withOffsets[i + 1..];
      current := Splice(current, withOffsets[i]);
    }
    assert withOffsets[|withOffsets|..] == [];
  }

  /** No edits, no change. */
  lemma NoEdits(text: string)
    ensures TextEditsResult(text, []) == text
  {
  }

  /** One edit whose start does not exceed its end replaces exactly `[start, end)`. */
  lemma SingleEdit(text: string, e: TextEdit)
    requires var l := Locate(LineOffsets(text), text, e); 0 <= l.start <= l.end <= |text|
    ensures var l := Locate(LineOffsets(text), text, e);
            TextEditsResult(text, [e]) == text[..l.start] + e.newText + text[l.end..]
  {
    var l := Locate(LineOffsets(text), text, e);
    assert [e][1..] == [];
    assert LocateAll(LineOffsets(text), text, [e]) == [l];
    assert [l][..0] == [];
    assert SortByStartDesc([l]) == [l];
    assert ApplyInOrder(text, [l]) == ApplyInOrder(Splice(text, l), []);
  }

  /** The sort is stable: edits that share a start keep their input order. */
  function WithStart(s: seq<Located>, k: int): seq<Located>
    decreases |s|
  {
    if s == [] then [] else WithStart(s[..|s| - 1], k) + (if s[|s| - 1].start == k then [s[|s| - 1]] else [])
  }

  lemma {:induction false} WithStartConcat(a: seq<Located>, b: seq<Located>, k: int)
    decreases |b|
    ensures WithStart(a + b, k) == WithStart(a, k) + WithStart(b, k)
  {
    if b != [] {
      var c := a + b;
      assert c[..|c| - 1] == a + b[..|b| - 1];
      WithStartConcat(a, b[..|b| - 1], k);
    } else {
      assert a + b == a;
    }
  }

  /** The number of leading elements of `s` that the inserted `x` goes after. */
  function InsertPos(x: Located, s: seq<Located>): (j: nat)
    ensures j <= |s|
  {
    if s == [] || s[0].start < x.start then 0 else 1 + InsertPos(x, s[1..])
  }

  lemma {:induction false} InsertSplit(x: Located, s: seq<Located>)
    ensures Insert(x, s) == s[..InsertPos(x, s)] + [x] + s[InsertPos(x, s)..]
  {
    if s != [] && s[0].start >= x.start {
      InsertSplit(x, s[1..]);
      ConsSlices(s, InsertPos(x, s));
    }
  }

  lemma ConsSlices(s: seq<Located>, j: nat)
    requires 1 <= j <= |s|
    ensures s[..j] == [s[0]] + s[1..][..j - 1] && s[j..] == s[1..][j - 1..]
  {
  }

  /** Inserting adds `x` and keeps every other element. */
  lemma InsertPermutes(x: Located, s: seq<Located>)
    ensures multiset(Insert(x, s)) == multiset(s) + multiset{x}
  {
    InsertSplit(x, s);
    var j := InsertPos(x, s);
    assert s == s[..j] + s[j..];
  }

  /** Inserting into a descending list keeps it descending. */
  lemma InsertSorted(x: Located, s: seq<Located>)
    requires SortedDesc(s)
    ensures SortedDesc(Insert(x, s))
  {
    InsertIndex(x, s);
    InsertPosBefore(x, s);
    InsertPosAfterIndex(x, s);
    var j := InsertPos(x, s);
    var r := Insert(x, s);
    forall a, b | 0 <= a < b < |r| ensures r[a].start >= r[b].start {
      if b < j {
        assert r[a] == s[a] && r[b] == s[b];
      } else if b == j {
        assert r[a] == s[a] && r[b] == x;
      } else if a < j {
        assert r[a] == s[a] && r[b] == s[b - 1];
      } else if a == j {
        assert r[a] == x && r[b] == s[b - 1];
      } else {
        assert r[a] == s[a - 1] && r[b] == s[b - 1];
      }
    }
  }

  /** Where each element of `Insert(x, s)` comes from. */
  lemma InsertIndex(x: Located, s: seq<Located>)
    ensures var r := Insert(x, s);
            var j := InsertPos(x, s);
            && (forall i :: 0 <= i < j ==> r[i] == s[i])
            && r[j] == x
            && (forall i :: j < i < |r| ==> r[i] == s[i - 1])
  {
    InsertSplit(x, s);
  }

  lemma InsertPosAfterIndex(x: Located, s: seq<Located>)
    requires SortedDesc(s)
    ensures forall i :: InsertPos(x, s) <= i < |s| ==> s[i].start < x.start
  {
    InsertPosAfter(x, s);
    var j := InsertPos(x, s);
    forall i | j <= i < |s| ensures s[i].start < x.start {
      assert s[i] == s[j..][i - j];
    }
  }

  /** Everything the inserted element goes after starts no earlier. */
  lemma {:induction false} InsertPosBefore(x: Located, s: seq<Located>)
    ensures forall i :: 0 <= i < InsertPos(x, s) ==> s[i].start >= x.start
  {
    if s != [] && s[0].start >= x.start {
      InsertPosBefore(x, s[1..]);
      assert forall i :: 1 <= i < InsertPos(x, s) ==> s[i] == s[1..][i - 1];
    }
  }

  /** Everything the inserted element goes before starts earlier, given a descending list. */
  lemma InsertPosAfter(x: Located, s: seq<Located>)
    requires SortedDesc(s)
    ensures forall y :: y in s[InsertPos(x, s)..] ==> y.start < x.start
  {
    var j := InsertPos(x, s);
    if j < |s| {
      InsertPosStops(x, s);
      forall y | y in s[j..] ensures y.start < x.start {
        var i :| j <= i < |s| && s[i] == y;
      }
    }
  }

  lemma {:induction false} InsertPosStops(x: Located, s: seq<Located>)
    requires InsertPos(x, s) < |s|
    ensures s[InsertPos(x, s)].start < x.start
  {
    if s != [] && s[0].start >= x.start {
      InsertPosStops(x, s[1..]);
    }
  }

  lemma {:induction false} NoneWithStart(s: seq<Located>, k: int)
    requires forall y :: y in s ==> y.start != k
    decreases |s|
    ensures WithStart(s, k) == []
  {
    if s != [] {
      NoneWithStart(s[..|s| - 1], k);
    }
  }

  lemma InsertStable(x: Located, s: seq<Located>, k: int)
    requires SortedDesc(s)
    ensures WithStart(Insert(x, s), k) == WithStart(s, k) + (if x.start == k then [x] else [])
  {
    InsertSplit(x, s);
    InsertPosAfter(x, s);
    var j := InsertPos(x, s);
    var before, after := s[..j], s[j..];
    assert s == before + after;
    InsertStableParts(before, x, after, k);
  }

  lemma InsertStableParts(before: seq<Located>, x: Located, after: seq<Located>, k: int)
    requires forall y :: y in after ==> y.start < x.start
    ensures WithStart(before + [x] + after, k)
         == WithStart(before + after, k) + (if x.start == k then [x] else [])
  {
    WithStartConcat(before, after, k);
    InsertedParts(before, x, after, k);
    if x.start == k {
      NoneWithStart(after, k);
    }
  }

  lemma InsertedParts(before: seq<Located>, x: Located, after: seq<Located>, k: int)
    ensures WithStart(before + [x] + after, k)
         == WithStart(before, k) + (if x.start == k then [x] else []) + WithStart(after, k)
  {
    WithStartConcat(before + [x], after, k);
    assert (before + [x])[..|before + [x]| - 1] == before;
  }

  lemma WithStartSingle(x: Located, k: int)
    ensures WithStart([x], k) == (if x.start == k then [x] else [])
  {
    assert [x][..0] == [];
  }

  /** Stability: for every start, the edits with that start appear in the sorted list in input order. */
  lemma {:induction false} SortStable(s: seq<Located>, k: int)
    decreases |s|
    ensures WithStart(SortByStartDesc(s), k) == WithStart(s, k)
  {
    if s != [] {
      SortStable(s[..|s| - 1], k);
      InsertStable(s[|s| - 1], SortByStartDesc(s[..|s| - 1]), k);
    }
  }

  /** Two descending lists with the same elements and distinct starts are the same list. */
  lemma {:induction false} SortedUnique(a: seq<Located>, b: seq<Located>)
    requires SortedDesc(a) && SortedDesc(b) && multiset(a) == multiset(b)
    requires forall i, j :: 0 <= i < |a| && 0 <= j < |a| && a[i].start == a[j].start ==> a[i] == a[j]
    decreases |a|
    ensures a == b
  {
    if a == [] {
      assert |b| == |multiset(b)| == 0;
    } else {
      assert |b| == |multiset(b)| == |a|;
      SameHead(a, b);
      TailMultiset(a, b);
      SortedUnique(a[1..], b[1..]);
      assert a == [a[0]] + a[1..] && b == [b[0]] + b[1..];
    }
  }

  /** The first elements of two such lists agree: both carry the greatest start. */
  lemma SameHead(a: seq<Located>, b: seq<Located>)
    requires |a| > 0 && SortedDesc(a) && SortedDesc(b) && multiset(a) == multiset(b)
    requires forall i, j :: 0 <= i < |a| && 0 <= j < |a| && a[i].start == a[j].start ==> a[i] == a[j]
    ensures |b| > 0 && b[0] == a[0]
  {
    assert a[0] in multiset(b);
    var j :| 0 <= j < |b| && b[j] == a[0];
    assert b[0] in multiset(a);
    var i :| 0 <= i < |a| && a[i] == b[0];
    assert a[i].start <= a[0].start;
    assert b[j].start <= b[0].start;
  }

  lemma TailMultiset(a: seq<Located>, b: seq<Located>)
    requires |a| > 0 && |b| > 0 && a[0] == b[0] && multiset(a) == multiset(b)
    ensures multiset(a[1..]) == multiset(b[1..])
  {
    assert a == [a[0]] + a[1..] && b == [b[0]] + b[1..];
    assert multiset(a[1..]) == multiset(a) - multiset{a[0]};
    assert multiset(b[1..]) == multiset(b) - multiset{a[0]};
  }

  lemma {:induction false} LocateAllConcat(lo: seq<int>, text: string, a: seq<TextEdit>, b: seq<TextEdit>)
    decreases |a|
    ensures LocateAll(lo, text, a + b) == LocateAll(lo, text, a) + LocateAll(lo, text, b)
  {
    if a != [] {
      assert (a + b)[1..] == a[1..] + b;
      LocateAllConcat(lo, text, a[1..], b);
    } else {
      assert a + b == b;
    }
  }

  /** Locating the edits of two lists with the same elements gives lists with the same elements. */
  lemma {:induction false} LocatePermutation(lo: seq<int>, text: string, a: seq<TextEdit>, b: seq<TextEdit>)
    requires multiset(a) == multiset(b)
    decreases |a|
    ensures multiset(LocateAll(lo, text, a)) == multiset(LocateAll(lo, text, b))
  {
    if a == [] {
      assert |b| == |multiset(b)| == 0;
    } else {
      var x := a[0];
      assert x in multiset(b);
      var i :| 0 <= i < |b| && b[i] == x;
      var b' := b[..i] + b[i + 1..];
      RemoveOne(a, b, i);
      LocatePermutation(lo, text, a[1..], b');
      LocateRemoved(lo, text, b, i);
      assert LocateAll(lo, text, a) == [Locate(lo, text, x)] + LocateAll(lo, text, a[1..]);
    }
  }

  lemma RemoveOne(a: seq<TextEdit>, b: seq<TextEdit>, i: nat)
    requires |a| > 0 && i < |b| && b[i] == a[0] && multiset(a) == multiset(b)
    ensures multiset(a[1..]) == multiset(b[..i] + b[i + 1..])
  {
    var x := a[0];
    assert b == b[..i] + [x] + b[i + 1..];
    assert a == [x] + a[1..];
    assert multiset(a[1..]) == multiset(a) - multiset{x};
    assert multiset(b[..i] + b[i + 1..]) == multiset(b) - multiset{x};
  }

  lemma LocateRemoved(lo: seq<int>, text: string, b: seq<TextEdit>, i: nat)
    requires i < |b|
    ensures multiset(LocateAll(lo, text, b))
         == multiset(LocateAll(lo, text, b[..i] + b[i + 1..])) + multiset{Locate(lo, text, b[i])}
  {
    assert b == b[..i] + [b[i]] + b[i + 1..];
    LocateAllConcat(lo, text, b[..i] + [b[i]], b[i + 1..]);
    LocateAllConcat(lo, text, b[..i], [b[i]]);
    LocateAllConcat(lo, text, b[..i], b[i + 1..]);
    assert [b[i]][1..] == [];
  }

  /** The located starts of the edits are pairwise distinct. */
  predicate DistinctStarts(ls: seq<Located>) {
    forall x, y :: x in ls && y in ls && x != y ==> x.start != y.start
  }

  /**
   * Order independence: reordering edits changes nothing when edits that land on the
   * same start offset are identical.
   */
  lemma OrderIndependent(text: string, e1: seq<TextEdit>, e2: seq<TextEdit>)
    requires multiset(e1) == multiset(e2)
    requires DistinctStarts(LocateAll(LineOffsets(text), text, e1))
    ensures TextEditsResult(text, e1) == TextEditsResult(text, e2)
  {
    var lo := LineOffsets(text);
    var l1 := LocateAll(lo, text, e1);
    var l2 := LocateAll(lo, text, e2);
    LocatePermutation(lo, text, e1, e2);
    var s1 := SortByStartDesc(l1);
    var s2 := SortByStartDesc(l2);
    forall i, j | 0 <= i < |s1| && 0 <= j < |s1| && s1[i].start == s1[j].start ensures s1[i] == s1[j] {
      assert s1[i] in multiset(l1) && s1[j] in multiset(l1);
    }
    SortedUnique(s1, s2);
  }

  /**
   * In the order they are applied (descending start), each located edit lies within
   * `[0, n]` and ends no later than the previous one starts.
   */
  predicate DescendingWithin(es: seq<Located>, n: int) {
    es == [] || (0 <= es[0].start <= es[0].end <= n && DescendingWithin(es[1..], es[0].start))
  }

  /** Every edit replaces its own range of the original text. */
  function Reference(text: string, es: seq<Located>): string
    requires DescendingWithin(es, |text|)
    decreases |es|
  {
    if es == [] then text
    else Reference(text[..es[0].start], es[1..]) + es[0].newText + text[es[0].end..]
  }

  lemma {:induction false} DescendingWiden(es: seq<Located>, m: int, n: int)
    requires DescendingWithin(es, m) && m <= n
    ensures DescendingWithin(es, n)
  {
  }

  /** Splicing edits that stay within `p` leaves what follows `p` alone. */
  lemma {:induction false} ApplySuffix(p: string, q: string, es: seq<Located>)
    requires DescendingWithin(es, |p|)
    decreases |es|
    ensures ApplyInOrder(p + q, es) == ApplyInOrder(p, es) + q
  {
    if es != [] {
      var e := es[0];
      assert (p + q)[..e.start] == p[..e.start];
      assert (p + q)[e.end..] == p[e.end..] + q;
      assert Splice(p + q, e) == Splice(p, e) + q;
      DescendingWiden(es[1..], e.start, |Splice(p, e)|);
      ApplySuffix(Splice(p, e), q, es[1..]);
    }
  }

  /** Applying non-overlapping edits one after another equals splicing each into the original text. */
  lemma {:induction false} ApplyIsReference(text: string, es: seq<Located>)
    requires DescendingWithin(es, |text|)
    decreases |es|
    ensures ApplyInOrder(text, es) == Reference(text, es)
  {
    if es != [] {
      var e := es[0];
      var head := text[..e.start];
      var tail := e.newText + text[e.end..];
      assert Splice(text, e) == head + tail;
      ApplySuffix(head, tail, es[1..]);
      ApplyIsReference(head, es[1..]);
    }
  }

  /**
   * When the located edits, taken in descending start order, do not overlap and lie within
   * the text, `applyTextEdits` splices each one into its range of the original text.
   */
  lemma NonOverlappingEdits(text: string, edits: seq<TextEdit>)
    requires DescendingWithin(SortByStartDesc(LocateAll(LineOffsets(text), text, edits)), |text|)
    ensures TextEditsResult(text, edits)
         == Reference(text, SortByStartDesc(LocateAll(LineOffsets(text), text, edits)))
  {
    ApplyIsReference(text, SortByStartDesc(LocateAll(LineOffsets(text), text, edits)));
  }

  /** Inserting "A" at 0:0 and "B" at 0:5 of "hello" gives "AhelloB", in either order. */
  lemma HelloExample()
    ensures var a := TextEdit(Range(Position(0, 0), Position(0, 0)), "A");
            var b := TextEdit(Range(Position(0, 5), Position(0, 5)), "B");
            TextEditsResult("hello", [a, b]) == "AhelloB" && TextEditsResult("hello", [b, a]) == "AhelloB"
  {
    HelloLocated();
    HelloSorted();
    HelloApplied();
  }

  lemma HelloLineOffsets()
    ensures LineOffsets("hello") == [0]
  {
    var t := "hello";
    assert LineStarts(t, 1) == [0];
    assert LineStarts(t, 2) == [0];
    assert LineStarts(t, 3) == [0];
    assert LineStarts(t, 4) == [0];
  }

  lemma HelloLocated()
    ensures var a := TextEdit(Range(Position(0, 0), Position(0, 0)), "A");
            var b := TextEdit(Range(Position(0, 5), Position(0, 5)), "B");
            && LocateAll(LineOffsets("hello"), "hello", [a, b]) == [Located(0, 0, "A"), Located(5, 5, "B")]
            && LocateAll(LineOffsets("hello"), "hello", [b, a]) == [Located(5, 5, "B"), Located(0, 0, "A")]
  {
    HelloLineOffsets();
    var a := TextEdit(Range(Position(0, 0), Position(0, 0)), "A");
    var b := TextEdit(Range(Position(0, 5), Position(0, 5)), "B");
    assert [a, b][1..] == [b] && [b][1..] == [];
    assert [b, a][1..] == [a] && [a][1..] == [];
  }

  lemma HelloSorted()
    ensures SortByStartDesc([Located(0, 0, "A"), Located(5, 5, "B")]) == [Located(5, 5, "B"), Located(0, 0, "A")]
    ensures SortByStartDesc([Located(5, 5, "B"), Located(0, 0, "A")]) == [Located(5, 5, "B"), Located(0, 0, "A")]
  {
    var la, lb := Located(0, 0, "A"), Located(5, 5, "B");
    assert [la, lb][..1] == [la] && [lb, la][..1] == [lb];
    assert [la][..0] == [] && [lb][..0] == [];
    assert SortByStartDesc([la]) == [la];
    assert SortByStartDesc([lb]) == [lb];
    assert [la][1..] == [];
  }

  lemma HelloApplied()
    ensures ApplyInOrder("hello", [Located(5, 5, "B"), Located(0, 0, "A")]) == "AhelloB"
  {
    var la, lb := Located(0, 0, "A"), Located(5, 5, "B");
    assert [lb, la][1..] == [la] && [la][1..] == [];
    assert Splice("hello", lb) == "helloB";
    assert Splice("helloB", la) == "AhelloB";
  }
}
