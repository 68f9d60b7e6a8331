/**
 * The JavaScript string operations the core relies on (`trim`, `split`,
 * `join`, `indexOf`, `replaceAll`, `slice`, `parseInt`, number-to-string),
 * stated on `seq<char>`.
 */
module JsText {
  import opened Wrappers

  /** The characters removed by `String.prototype.trim` and matched by `\s`. */
  predicate IsWhitespace(c: char) {
    || c == '\t' || c == '\n' || c == '\U{B}' || c == '\U{C}' || c == '\r' || c == ' '
    || c == '\U{A0}' || c == '\U{1680}' || ('\U{2000}' <= c <= '\U{200A}')
    || c == '\U{2028}' || c == '\U{2029}' || c == '\U{202F}' || c == '\U{205F}'
    || c == '\U{3000}' || c == '\U{FEFF}'
  }

  /** `s.trimStart()`: the longest suffix of `s` that does not start with whitespace. */
  function TrimStart(s: string): (r: string)
    ensures |r| <= |s| && r == s[|s| - |r|..]
    ensures forall i :: 0 <= i < |s| - |r| ==> IsWhitespace(s[i])
    ensures r == [] || !IsWhitespace(r[0])
  {
    if s == [] || !IsWhitespace(s[0]) then s else TrimStart(s[1..])
  }

  /** `s.trimEnd()`: the longest prefix of `s` that does not end with whitespace. */
  function TrimEnd(s: string): (r: string)
    ensures |r| <= |s| && r == s[..|r|]
    ensures forall i :: |r| <= i < |s| ==> IsWhitespace(s[i])
    ensures r == [] || !IsWhitespace(r[|r| - 1])
  {
    if s == [] || !IsWhitespace(s[|s| - 1]) then s else TrimEnd(s[..|s| - 1])
  }

  /** `s.trim()`. */
  function Trim(s: string): (r: string)
    ensures |r| <= |s|
    ensures r == [] || (!IsWhitespace(r[0]) && !IsWhitespace(r[|r| - 1]))
  {
    TrimEnd(TrimStart(s))
  }

  /** A string that neither starts nor ends with whitespace is its own trim. */
  lemma TrimIdentity(s: string)
    requires s == [] || (!IsWhitespace(s[0]) && !IsWhitespace(s[|s| - 1]))
    ensures Trim(s) == s
  {
  }

  /** Trimming one leading whitespace character off a string that is otherwise its own trim. */
  lemma TrimLeadingSpace(c: char, s: string)
    requires IsWhitespace(c)
    requires s == [] || (!IsWhitespace(s[0]) && !IsWhitespace(s[|s| - 1]))
    ensures Trim([c] + s) == s
  {
    assert ([c] + s)[1..] == s;
    assert TrimStart([c] + s) == TrimStart(s);
    TrimIdentity(s);
  }

  /** ASCII letters folded to lower case (see README for the non-ASCII gap). */
  function LowerChar(c: char): char {
    if 'A' <= c <= 'Z' then (c as int + 32) as char else c
  }

  function AsciiLower(s: string): (r: string)
    ensures |r| == |s| && forall i :: 0 <= i < |s| ==> r[i] == LowerChar(s[i])
  {
    seq(|s|, i requires 0 <= i < |s| => LowerChar(s[i]))
  }

  predicate OccursAt<T(==)>(s: seq<T>, pat: seq<T>, i: int) {
    0 <= i && i + |pat| <= |s| && s[i..i + |pat|] == pat
  }

  /** `s.indexOf(pat, from)` for `0 <= from`: the first occurrence at or after `from`, or -1. */
  function IndexOfFrom<T(==)>(s: seq<T>, pat: seq<T>, from: nat): (r: int)
    decreases |s| - from
    ensures r == -1 || (from <= r && OccursAt(s, pat, r))
    ensures forall j :: from <= j && (r == -1 || j < r) ==> !OccursAt(s, pat, j)
  {
    if from + |pat| > |s| then -1
    else if s[from..from + |pat|] == pat then from
    else IndexOfFrom(s, pat, from + 1)
  }

  function IndexOf<T(==)>(s: seq<T>, pat: seq<T>): (r: int)
    ensures r == -1 || OccursAt(s, pat, r)
    ensures forall j :: 0 <= j && (r == -1 || j < r) ==> !OccursAt(s, pat, j)
  {
    IndexOfFrom(s, pat, 0)
  }

  /** Any index satisfying the first-occurrence characterisation is the one `IndexOf` returns. */
  lemma IndexOfUnique<T>(s: seq<T>, pat: seq<T>, r: nat)
    requires OccursAt(s, pat, r)
    requires forall j :: 0 <= j < r ==> !OccursAt(s, pat, j)
    ensures IndexOf(s, pat) == r
  {
    var q := IndexOf(s, pat);
    assert q != -1;
    assert !(q < r);
    assert !(r < q);
  }

  /** A first occurrence inside a prefix stays the first occurrence after appending. */
  lemma IndexOfAppend<T>(w: seq<T>, x: seq<T>, pat: seq<T>)
    requires IndexOf(w, pat) >= 0
    ensures IndexOf(w + x, pat) == IndexOf(w, pat)
  {
    var r := IndexOf(w, pat);
    assert (w + x)[r..r + |pat|] == w[r..r + |pat|];
    forall j | 0 <= j < r ensures !OccursAt(w + x, pat, j) {
      assert !OccursAt(w, pat, j);
      assert (w + x)[j..j + |pat|] == w[j..j + |pat|];
    }
    IndexOfUnique(w + x, pat, r);
  }

  /** `s.includes(pat)`. */
  predicate Contains(s: string, pat: string) {
    IndexOf(s, pat) >= 0
  }

  lemma ContainsIff(s: string, pat: string)
    ensures Contains(s, pat) <==> exists i :: OccursAt(s, pat, i)
  {
  }

  predicate StartsWith(s: string, p: string) {
    |p| <= |s| && s[..|p|] == p
  }

  predicate EndsWith(s: string, p: string) {
    |p| <= |s| && s[|s| - |p|..] == p
  }

  /** `s.slice(1, -1)`. */
  function Inner(s: string): (r: string)
    ensures |s| >= 2 ==> r == s[1..|s| - 1]
    ensures |r| <= |s| - 2 || r == []
  {
    if |s| >= 2 then s[1..|s| - 1] else []
  }

  /** `s.slice(0, k)` for `0 <= k`. */
  function SliceTo(s: string, k: nat): (r: string)
    ensures r == s[..if k <= |s| then k else |s|]
  {
    if k <= |s| then s[..k] else s
  }

  /** `s.slice(k)` for `0 <= k`. */
  function SliceFrom(s: string, k: nat): (r: string)
    ensures r == s[if k <= |s| then k else |s|..]
  {
    if k <= |s| then s[k..] else []
  }

  /** `s.split(sep)` for a non-empty separator string. */
  function Split(s: string, sep: string): (r: seq<string>)
    requires |sep| > 0
    decreases |s|
    ensures |r| >= 1
  {
    var i := IndexOf(s, sep);
    if i < 0 then [s] else [s[..i]] + Split(s[i + |sep|..], sep)
  }

  /** A string without the separator splits into itself alone. */
  lemma SplitWithoutSeparator(s: string, sep: string)
    requires |sep| > 0 && IndexOf(s, sep) == -1
    ensures Split(s, sep) == [s]
  {
  }

  /** Every piece of a split is at most as long as the string split. */
  lemma {:induction false} SplitPiecesShorter(s: string, sep: string)
    requires |sep| > 0
    decreases |s|
    ensures forall k :: 0 <= k < |Split(s, sep)| ==> |Split(s, sep)[k]| <= |s|
  {
    var i := IndexOf(s, sep);
    if i >= 0 {
      SplitPiecesShorter(s[i + |sep|..], sep);
    }
  }

  /** No piece of a split on one character holds that character. */
  lemma {:induction false} SplitPiecesFree(s: string, c: char)
    decreases |s|
    ensures forall k :: 0 <= k < |Split(s, [c])| ==> c !in Split(s, [c])[k]
  {
    var i := IndexOf(s, [c]);
    var limit := if i < 0 then |s| else i;
    forall j | 0 <= j < limit ensures s[j] != c {
      assert !OccursAt(s, [c], j);
      assert s[j..j + 1] == [s[j]];
    }
    assert c !in s[..limit];
    if i >= 0 {
      SplitPiecesFree(s[i + 1..], c);
      assert Split(s, [c]) == [s[..i]] + Split(s[i + 1..], [c]);
    }
  }

  /** `s.split(/\r?\n/)`: the pieces between line feeds, each without the `\r` just before its line feed. */
  function SplitLines(s: string): (r: seq<string>)
    ensures |r| == |Split(s, "\n")| && |r| >= 1
  {
    var parts := Split(s, "\n");
    seq(|parts|, i requires 0 <= i < |parts| =>
      if i < |parts| - 1 && EndsWith(parts[i], "\r") then parts[i][..|parts[i]| - 1] else parts[i])
  }

  /** `xs.join(sep)`. */
  function Join(xs: seq<string>, sep: string): string {
    if xs == [] then [] else if |xs| == 1 then xs[0] else xs[0] + sep + Join(xs[1..], sep)
  }

  /** Splitting a join on a one-character separator that no item contains gives the items back. */
  lemma {:induction false} SplitJoin(xs: seq<string>, c: char)
    requires |xs| >= 1
    requires forall k :: 0 <= k < |xs| ==> c !in xs[k]
    ensures Split(Join(xs, [c]), [c]) == xs
  {
    var s := Join(xs, [c]);
    if |xs| == 1 {
      NoOccurrence(xs[0], c);
    } else {
      var rest := Join(xs[1..], [c]);
      assert s == xs[0] + [c] + rest;
      FirstOccurrence(xs[0], rest, c);
      assert s[..|xs[0]|] == xs[0];
      assert s[|xs[0]| + 1..] == rest;
      SplitJoin(xs[1..], c);
      assert Split(s, [c]) == [xs[0]] + Split(rest, [c]);
    }
  }

  /** Joining the pieces of a split on a one-character separator gives the string back. */
  lemma {:induction false} JoinSplit(s: string, c: char)
    decreases |s|
    ensures Join(Split(s, [c]), [c]) == s
  {
    var i := IndexOf(s, [c]);
    if i >= 0 {
      var rest := Split(s[i + 1..], [c]);
      JoinSplit(s[i + 1..], c);
      var xs := [s[..i]] + rest;
      assert Split(s, [c]) == xs;
      assert xs[1..] == rest;
      assert Join(xs, [c]) == s[..i] + [c] + Join(rest, [c]);
      assert s[i..i + 1] == [c];
      AroundIndex(s, i);
    }
  }

  lemma AroundIndex(s: string, i: nat)
    requires i < |s|
    ensures s == s[..i] + s[i..i + 1] + s[i + 1..]
  {
  }

  lemma NoOccurrence(s: string, c: char)
    requires c !in s
    ensures IndexOf(s, [c]) == -1
  {
    forall j | 0 <= j ensures !OccursAt(s, [c], j) {
      if j < |s| {
        assert s[j] in s;
        assert j + 1 <= |s| ==> s[j..j + 1] == [s[j]];
      }
    }
  }

  /** A pattern whose first element never occurs in `s` does not occur in `s`. */
  lemma NoOccurrenceOfHead<T>(s: seq<T>, pat: seq<T>)
    requires |pat| > 0 && pat[0] !in s
    ensures IndexOf(s, pat) == -1
  {
    forall j | 0 <= j ensures !OccursAt(s, pat, j) {
      if j + |pat| <= |s| {
        assert s[j] in s;
        assert s[j..j + |pat|][0] == s[j];
      }
    }
  }

  lemma FirstOccurrence(a: string, b: string, c: char)
    requires c !in a
    ensures IndexOf(a + [c] + b, [c]) == |a|
  {
    var s := a + [c] + b;
    assert OccursAt(s, [c], |a|) by { assert s[|a|..|a| + 1] == [c]; }
    forall j | 0 <= j < |a| ensures !OccursAt(s, [c], j) {
      assert s[j] == a[j] && a[j] in a;
      assert s[j..j + 1] == [s[j]];
    }
  }

  /** `s.replaceAll(pat, rep)` for a non-empty pattern: left-to-right, non-overlapping. */
  function ReplaceAll(s: string, pat: string, rep: string): string
    requires |pat| > 0
    decreases |s|
  {
    if |s| < |pat| then s
    else if s[..|pat|] == pat then rep + ReplaceAll(s[|pat|..], pat, rep)
    else [s[0]] + ReplaceAll(s[1..], pat, rep)
  }

  predicate IsDigit(c: char) {
    '0' <= c <= '9'
  }

  function DigitChar(d: nat): char
    requires d < 10
  {
    ('0' as int + d) as char
  }

  /** The decimal representation of a natural number, as template literals print it. */
  function NatToString(n: nat): (r: string)
    ensures |r| >= 1 && forall i :: 0 <= i < |r| ==> IsDigit(r[i])
    ensures n > 0 ==> r[0] != '0'
  {
    if n < 10 then [DigitChar(n)] else NatToString(n / 10) + [DigitChar(n % 10)]
  }

  /** The value of a non-empty run of decimal digits. */
  function DigitsValue(s: string): nat
    requires forall i :: 0 <= i < |s| ==> IsDigit(s[i])
  {
    if s == [] then 0 else 10 * DigitsValue(s[..|s| - 1]) + DigitValue(s[|s| - 1])
  }

  function DigitValue(c: char): nat
    requires IsDigit(c)
  {
    c as int - '0' as int
  }

  /** The length of the longest prefix of `s` made of decimal digits. */
  function DigitRun(s: string): (k: nat)
    ensures k <= |s| && (forall i :: 0 <= i < k ==> IsDigit(s[i])) && (k == |s| || !IsDigit(s[k]))
  {
    if s == [] || !IsDigit(s[0]) then 0 else 1 + DigitRun(s[1..])
  }

  /**
   * `Number.parseInt(s, 10)`: leading whitespace is skipped, an optional sign is read,
   * then the longest run of digits; no digits gives NaN, modelled as None.
   */
  function ParseInt(s: string): (r: Option<int>)
  {
    var t := TrimStart(s);
    var neg := |t| > 0 && t[0] == '-';
    var body := if |t| > 0 && (t[0] == '-' || t[0] == '+') then t[1..] else t;
    var digits := LeadingDigits(body);
    if digits == [] then None
    else
      var v: int := DigitsValue(digits);
      Some(if neg then -v else v)
  }

  /** The longest prefix of `s` made of decimal digits. */
  function LeadingDigits(s: string): (d: string)
    ensures d == s[..DigitRun(s)]
    ensures forall i :: 0 <= i < |d| ==> IsDigit(d[i])
  {
    s[..DigitRun(s)]
  }

  lemma {:induction false} DigitsOfNat(n: nat)
    ensures DigitsValue(NatToString(n)) == n
  {
    var s := NatToString(n);
    if n >= 10 {
      DigitsOfNat(n / 10);
      assert s[..|s| - 1] == NatToString(n / 10);
    }
  }

  /** Printing a natural number and reading it back with `parseInt` gives the number. */
  lemma ParseIntNatToString(n: nat)
    ensures ParseInt(NatToString(n)) == Some(n)
  {
    ParseIntDigits(NatToString(n));
    DigitsOfNat(n);
  }

  /** A minus sign before a printed natural number reads back as its negation. */
  lemma ParseIntNegative(n: nat)
    ensures ParseInt("-" + NatToString(n)) == Some(-(n as int))
  {
    var d := NatToString(n);
    var t := "-" + d;
    assert !IsWhitespace(t[0]);
    assert TrimStart(t) == t;
    assert t[1..] == d;
    DigitRunAll(d);
    assert d[..|d|] == d;
    DigitsOfNat(n);
  }

  /** `parseInt` of a non-empty run of digits is the value of the run. */
  lemma ParseIntDigits(s: string)
    requires |s| >= 1 && forall i :: 0 <= i < |s| ==> IsDigit(s[i])
    ensures ParseInt(s) == Some(DigitsValue(s))
  {
    assert !IsWhitespace(s[0]);
    assert TrimStart(s) == s;
    DigitRunAll(s);
    assert s[..|s|] == s;
  }

  lemma {:induction false} DigitRunAll(s: string)
    requires forall i :: 0 <= i < |s| ==> IsDigit(s[i])
    ensures DigitRun(s) == |s|
  {
    if s != [] {
      DigitRunAll(s[1..]);
    }
  }
}
