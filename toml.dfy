/**
 * The light TOML reader of `src/tools/toml.ts`: comment stripping, inline values,
 * `[a.b]` table headers, `key = value` lines, and the Cargo.toml summary built on top.
 * A table is an association list in insertion order, which is the order JavaScript
 * keeps for the (non-numeric) keys a manifest uses.
 */
module Toml {
  import opened Wrappers
  import opened JsText

  /** A number keeps its decimal literal; its floating-point value is not computed here. */
  datatype TomlValue =
    | TStr(s: string)
    | TNum(literal: string)
    | TBool(b: bool)
    | TTable(entries: seq<(string, TomlValue)>)
    | TArr(items: seq<TomlValue>)
    | TNull

  type Table = seq<(string, TomlValue)>

  // ---------------------------------------------------------------------------
  // Tables as JavaScript objects

  /** `t[k]`: the value stored under `k`, or None (undefined). */
  function Get(t: Table, k: string): (r: Option<TomlValue>)
    ensures r.Some? <==> exists i :: 0 <= i < |t| && t[i].0 == k
  {
    if t == [] then None
    else if t[0].0 == k then
      assert t[0].0 == k;
      Some(t[0].1)
    else
      var r := Get(t[1..], k);
      assert forall i :: 1 <= i < |t| ==> t[i] == t[1..][i - 1];
      r
  }

  /** `t[k] = v`: an existing key keeps its place and takes the new value; a new key goes last. */
  function Put(t: Table, k: string, v: TomlValue): (r: Table)
    ensures Get(r, k) == Some(v)
    ensures forall k' :: k' != k ==> Get(r, k') == Get(t, k')
    ensures |r| == |t| || (|r| == |t| + 1 && r[|t|] == (k, v) && r[..|t|] == t && Get(t, k) == None)
  {
    if t == [] then [(k, v)]
    else if t[0].0 == k then [(k, v)] + t[1..]
    else
      var rest := Put(t[1..], k, v);
      assert ([t[0]] + rest)[1..] == rest;
      [t[0]] + rest
  }

  /** Storing the value a key already has changes nothing. */
  lemma {:induction false} PutSame(t: Table, k: string)
    requires Get(t, k).Some?
    ensures Put(t, k, Get(t, k).value) == t
  {
    if t[0].0 != k {
      PutSame(t[1..], k);
    }
  }

  /** The table stored under `k`, with anything that is not a table read as `{}`. */
  function SubTable(t: Table, k: string): Table {
    match Get(t, k)
    case Some(TTable(es)) => es
    case _ => []
  }

  /** The table reached by following `path` through nested tables, if every step is a table. */
  function Lookup(t: Table, path: seq<string>): Option<Table>
    decreases |path|
  {
    if path == [] then Some(t)
    else
      match Get(t, path[0])
      case Some(TTable(es)) => Lookup(es, path[1..])
      case _ => None
  }

  // ---------------------------------------------------------------------------
  // ensureTable and the assignment into it

  /**
   * `ensureTable(root, path)` on values: the new root, in which every level of `path`
   * is a table; a missing level or a value that is not a table is replaced by `{}`.
   */
  function EnsureTable(t: Table, path: seq<string>): (r: Table)
    decreases |path|
    ensures Lookup(r, path).Some?
    ensures path != [] ==> forall k :: k != path[0] ==> Get(r, k) == Get(t, k)
  {
    if path == [] then t
    else
      var r := Put(t, path[0], TTable(EnsureTable(SubTable(t, path[0]), path[1..])));
      assert Get(r, path[0]) == Some(TTable(EnsureTable(SubTable(t, path[0]), path[1..])));
      r
  }

  /** A path that already leads through tables is left as it is. */
  lemma {:induction false} EnsureExisting(t: Table, path: seq<string>)
    requires Lookup(t, path).Some?
    decreases |path|
    ensures EnsureTable(t, path) == t
  {
    if path != [] {
      var es := Get(t, path[0]).value.entries;
      EnsureExisting(es, path[1..]);
      assert SubTable(t, path[0]) == es;
      PutSame(t, path[0]);
    }
  }

  /** Ensuring the same path twice is ensuring it once. */
  lemma EnsureIdempotent(t: Table, path: seq<string>)
    ensures EnsureTable(EnsureTable(t, path), path) == EnsureTable(t, path)
  {
    EnsureExisting(EnsureTable(t, path), path);
  }

  /** The table an existing path leads to is the one `ensureTable` returns. */
  lemma {:induction false} EnsureKeepsTable(t: Table, path: seq<string>)
    requires Lookup(t, path).Some?
    ensures Lookup(EnsureTable(t, path), path) == Lookup(t, path)
  {
    EnsureExisting(t, path);
  }

  /** What `ensureTable` finds at the table the path leads to: the table itself, or `{}` where the path breaks. */
  lemma {:induction false} EnsureLookup(t: Table, path: seq<string>)
    decreases |path|
    ensures Lookup(EnsureTable(t, path), path) == Some(Lookup(t, path).GetOr([]))
  {
    if path != [] {
      var sub := SubTable(t, path[0]);
      EnsureLookup(sub, path[1..]);
      assert Get(EnsureTable(t, path), path[0]) == Some(TTable(EnsureTable(sub, path[1..])));
      if !(Get(t, path[0]).Some? && Get(t, path[0]).value.TTable?) {
        LookupEmpty(path[1..]);
      }
    }
  }

  lemma LookupEmpty(path: seq<string>)
    ensures Lookup([], path).GetOr([]) == []
  {
  }

  /** The table at the end of `p`, with a missing level or a value that is not a table read as `{}`. */
  function Reach(t: Table, p: seq<string>): Table
    decreases |p|
  {
    if p == [] then t else Reach(SubTable(t, p[0]), p[1..])
  }

  /**
   * Level by level: the table at the `i`-th level of the result is the `i`-th level of
   * the input with the rest of the path ensured in it.
   */
  lemma {:induction false} EnsureLevel(t: Table, path: seq<string>, i: nat)
    requires i <= |path|
    decreases i
    ensures Reach(EnsureTable(t, path), path[..i]) == EnsureTable(Reach(t, path[..i]), path[i..])
  {
    if i > 0 {
      var sub := SubTable(t, path[0]);
      var e := EnsureTable(t, path);
      assert Get(e, path[0]) == Some(TTable(EnsureTable(sub, path[1..])));
      assert SubTable(e, path[0]) == EnsureTable(sub, path[1..]);
      EnsureLevel(sub, path[1..], i - 1);
      assert path[..i][0] == path[0] && path[..i][1..] == path[1..][..i - 1];
      assert path[1..][i - 1..] == path[i..];
    }
  }

  /** At every level of the path, the keys other than the next step keep the values they had there. */
  lemma EnsureLevelFrame(t: Table, path: seq<string>, i: nat, k: string)
    requires i < |path| && k != path[i]
    ensures Get(Reach(EnsureTable(t, path), path[..i]), k) == Get(Reach(t, path[..i]), k)
  {
    EnsureLevel(t, path, i);
  }

  /** `ensureTable(root, path)[k] = v` on values: the new root. */
  function SetIn(t: Table, path: seq<string>, k: string, v: TomlValue): (r: Table)
    decreases |path|
    ensures path != [] ==> forall k' :: k' != path[0] ==> Get(r, k') == Get(t, k')
  {
    if path == [] then Put(t, k, v)
    else Put(t, path[0], TTable(SetIn(SubTable(t, path[0]), path[1..], k, v)))
  }

  /** After the assignment the table at `path` holds `v` under `k`, and its other keys are those `ensureTable` left. */
  lemma {:induction false} SetInStores(t: Table, path: seq<string>, k: string, v: TomlValue)
    decreases |path|
    ensures Lookup(SetIn(t, path, k, v), path).Some?
    ensures Get(Lookup(SetIn(t, path, k, v), path).value, k) == Some(v)
    ensures forall k' :: k' != k ==>
      Get(Lookup(SetIn(t, path, k, v), path).value, k') == Get(Lookup(EnsureTable(t, path), path).value, k')
  {
    if path != [] {
      var sub := SubTable(t, path[0]);
      SetInStores(sub, path[1..], k, v);
      assert Get(SetIn(t, path, k, v), path[0]) == Some(TTable(SetIn(sub, path[1..], k, v)));
      assert Get(EnsureTable(t, path), path[0]) == Some(TTable(EnsureTable(sub, path[1..])));
    }
  }

  /** Assigning through `ensureTable` twice: assigning into an already ensured path is the same assignment. */
  lemma {:induction false} SetInAfterEnsure(t: Table, path: seq<string>, k: string, v: TomlValue)
    decreases |path|
    ensures SetIn(EnsureTable(t, path), path, k, v) == SetIn(t, path, k, v)
  {
    if path != [] {
      var sub := SubTable(t, path[0]);
      var e := EnsureTable(t, path);
      assert SubTable(e, path[0]) == EnsureTable(sub, path[1..]);
      SetInAfterEnsure(sub, path[1..], k, v);
      PutTwice(t, path[0], TTable(EnsureTable(sub, path[1..])), TTable(SetIn(sub, path[1..], k, v)));
    }
  }

  /** A second store under the same key replaces the first. */
  lemma {:induction false} PutTwice(t: Table, k: string, v1: TomlValue, v2: TomlValue)
    ensures Put(Put(t, k, v1), k, v2) == Put(t, k, v2)
  {
    if t != [] && t[0].0 != k {
      PutTwice(t[1..], k, v1, v2);
    }
  }

  // ---------------------------------------------------------------------------
  // stripComments

  function QuoteCount(s: string): nat {
    multiset(s)['"']
  }

  /**
   * `stripComments(line)`: the text before the first `#` when an even number of `"`
   * precede it, the whole line otherwise.
   */
  function StripComments(line: string): (r: string)
    ensures |r| <= |line| && r == line[..|r|]
    ensures '#' !in line ==> r == line
    ensures r != line ==> line[|r|] == '#' && '#' !in r && QuoteCount(r) % 2 == 0
  {
    var index := IndexOf(line, "#");
    if index < 0 then
      NoHashWithout(line);
      line
    else
      var before := line[..index];
      NoHashBefore(line, index);
      if QuoteCount(before) % 2 == 0 then before else line
  }

  lemma NoHashWithout(line: string)
    requires IndexOf(line, "#") < 0
    ensures '#' !in line
  {
    if '#' in line {
      var j :| 0 <= j < |line| && line[j] == '#';
      assert line[j..j + 1] == "#";
      assert OccursAt(line, "#", j);
    }
  }

  lemma NoHashBefore(line: string, index: int)
    requires index == IndexOf(line, "#") && index >= 0
    ensures line[index] == '#' && '#' !in line[..index]
  {
    assert line[index..index + 1] == "#";
    forall j | 0 <= j < index ensures line[..index][j] != '#' {
      assert !OccursAt(line, "#", j);
      assert line[j..j + 1] == [line[j]];
    }
  }

  /** A line is kept whole, though it has a `#`, exactly when an odd number of `"` precede its first `#`. */
  lemma StripKeepsQuotedHash(line: string, i: nat)
    requires i < |line| && line[i] == '#' && '#' !in line[..i]
    ensures StripComments(line) == line <==> QuoteCount(line[..i]) % 2 == 1
  {
    assert OccursAt(line, "#", i) by { assert line[i..i + 1] == "#"; }
    forall j | 0 <= j < i ensures !OccursAt(line, "#", j) {
      assert line[..i][j] == line[j];
      assert line[j..j + 1] == [line[j]];
    }
    IndexOfUnique(line, "#", i);
  }

  // ---------------------------------------------------------------------------
  // parseInlineValue

  /** `/^-?\d+(\.\d+)?$/`. */
  predicate IsNumeral(v: string) {
    var body := if |v| > 0 && v[0] == '-' then v[1..] else v;
    var k := DigitRun(body);
    k > 0 && (k == |body| || (body[k] == '.' && 0 < DigitRun(body[k + 1..]) == |body| - k - 1))
  }

  /** Which branch of `parseInlineValue` a trimmed value takes, in the order the source tests them. */
  datatype Shape = Boolean(b: bool) | Numeral | Quoted | ListOf | TableOf | Empty | Plain

  function ShapeOf(value: string): Shape {
    if value == "true" then Boolean(true)
    else if value == "false" then Boolean(false)
    else if IsNumeral(value) then Numeral
    else if StartsWith(value, "\"") && EndsWith(value, "\"") then Quoted
    else if StartsWith(value, "'") && EndsWith(value, "'") then Quoted
    else if StartsWith(value, "[") && EndsWith(value, "]") then ListOf
    else if StartsWith(value, "{") && EndsWith(value, "}") then TableOf
    else if value == [] then Empty
    else Plain
  }

  /** `parseInlineValue(raw)`: the value of the trimmed text. */
  function ParseInlineValue(raw: string): TomlValue
    decreases |raw|, 3, 0
  {
    ParseValue(Trim(raw), |raw|)
  }

  /** The branches of `parseInlineValue` once `raw` is trimmed to `value`. */
  function ParseValue(value: string, bound: nat): TomlValue
    requires |value| <= bound
    decreases bound, 2, 0
  {
    match ShapeOf(value)
    case Boolean(b) => TBool(b)
    case Numeral => TNum(value)
    case Quoted => TStr(Inner(value))
    case ListOf => ParseList(value, bound)
    case TableOf => ParseInlineTable(value, bound)
    case Empty => TNull
    case Plain => TStr(value)
  }

  /** `[...]`: nothing inside gives `[]`; otherwise each comma-separated element, parsed. */
  function ParseList(value: string, bound: nat): TomlValue
    requires |value| <= bound
    decreases bound, 1, 0
  {
    var inner := Trim(Inner(value));
    if inner == [] then TArr([])
    else
      SplitPiecesShorter(inner, ",");
      TArr(ParseEach(Split(inner, ","), bound))
  }

  /** `{...}`: nothing inside gives `{}`; otherwise the comma-separated `key = value` parts. */
  function ParseInlineTable(value: string, bound: nat): TomlValue
    requires |value| <= bound
    decreases bound, 1, 0
  {
    var inner := Trim(Inner(value));
    if inner == [] then TTable([])
    else
      SplitPiecesShorter(inner, ",");
      TTable(ParseFields(Split(inner, ","), [], bound))
  }

  /** `parts.map(parseInlineValue)`. */
  function ParseEach(parts: seq<string>, bound: nat): (r: seq<TomlValue>)
    requires forall i :: 0 <= i < |parts| ==> |parts[i]| < bound
    decreases bound, 0, |parts|
    ensures |r| == |parts|
    ensures forall i :: 0 <= i < |parts| ==> r[i] == ParseInlineValue(parts[i])
  {
    if parts == [] then []
    else [ParseInlineValue(parts[0])] + ParseEach(parts[1..], bound)
  }

  /**
   * The loop over the parts of an inline table: a part without `=`, or with nothing before
   * its first `=`, is skipped; otherwise the trimmed text before the first `=` takes the
   * value of the text after it, a later part overwriting an earlier one.
   */
  function ParseFields(parts: seq<string>, acc: Table, bound: nat): Table
    requires forall i :: 0 <= i < |parts| ==> |parts[i]| < bound
    decreases bound, 0, |parts|
  {
    if parts == [] then acc
    else
      var part := parts[0];
      var i := IndexOf(part, "=");
      var k := if i < 0 then part else part[..i];
      var acc' := if k == [] || i < 0 then acc
                  else Put(acc, Trim(k), ParseInlineValue(Trim(part[i + 1..])));
      ParseFields(parts[1..], acc', bound)
  }

  /** The key an inline-table part stores under: none without `=` or with nothing before the first `=`. */
  function FieldKey(part: string): (r: Option<string>)
    ensures r.Some? <==> IndexOf(part, "=") > 0
  {
    var i := IndexOf(part, "=");
    if i <= 0 then None else Some(Trim(part[..i]))
  }

  /** The value an inline-table part with a key stores: the text after its first `=`, parsed. */
  function FieldValue(part: string): TomlValue
    requires IndexOf(part, "=") >= 0
  {
    ParseInlineValue(Trim(part[IndexOf(part, "=") + 1..]))
  }

  /** What one part does to the inline table built so far. */
  function FieldStep(acc: Table, part: string): Table {
    if FieldKey(part).None? then acc else Put(acc, FieldKey(part).value, FieldValue(part))
  }

  /** The loop over the parts takes one `FieldStep` per part. */
  lemma FieldsCons(parts: seq<string>, acc: Table, bound: nat)
    requires parts != [] && forall i :: 0 <= i < |parts| ==> |parts[i]| < bound
    ensures ParseFields(parts, acc, bound) == ParseFields(parts[1..], FieldStep(acc, parts[0]), bound)
  {
    var part := parts[0];
    var i := IndexOf(part, "=");
    if i == 0 {
      assert part[..i] == [];
    }
  }

  /** Parts whose key is not `k` leave what is stored under `k` alone. */
  lemma {:induction false} FieldsUntouched(parts: seq<string>, acc: Table, bound: nat, k: string)
    requires forall i :: 0 <= i < |parts| ==> |parts[i]| < bound
    requires forall p :: p in parts ==> FieldKey(p) != Some(k)
    decreases |parts|
    ensures Get(ParseFields(parts, acc, bound), k) == Get(acc, k)
  {
    if parts != [] {
      FieldsCons(parts, acc, bound);
      FieldsUntouched(parts[1..], FieldStep(acc, parts[0]), bound, k);
    }
  }

  /** The parts of a concatenation are taken in turn: first those of `a`, then those of `b`. */
  lemma {:induction false} FieldsAppend(a: seq<string>, b: seq<string>, acc: Table, bound: nat)
    requires forall i :: 0 <= i < |a| ==> |a[i]| < bound
    requires forall i :: 0 <= i < |b| ==> |b[i]| < bound
    decreases |a|
    ensures forall i :: 0 <= i < |a + b| ==> |(a + b)[i]| < bound
    ensures ParseFields(a + b, acc, bound) == ParseFields(b, ParseFields(a, acc, bound), bound)
  {
    if a == [] {
      assert a + b == b;
    } else {
      assert (a + b)[1..] == a[1..] + b;
      FieldsCons(a, acc, bound);
      FieldsAppend(a[1..], b, FieldStep(acc, a[0]), bound);
      FieldsCons(a + b, acc, bound);
    }
  }

  /**
   * An inline table holds under a part's key the value of the last part with that key:
   * later parts overwrite earlier ones.
   */
  lemma FieldsLastWins(pre: seq<string>, part: string, post: seq<string>, acc: Table, bound: nat)
    requires forall i :: 0 <= i < |pre| ==> |pre[i]| < bound
    requires |part| < bound && forall i :: 0 <= i < |post| ==> |post[i]| < bound
    requires FieldKey(part).Some? && forall p :: p in post ==> FieldKey(p) != FieldKey(part)
    ensures forall i :: 0 <= i < |pre + [part] + post| ==> |(pre + [part] + post)[i]| < bound
    ensures Get(ParseFields(pre + [part] + post, acc, bound), FieldKey(part).value) == Some(FieldValue(part))
  {
    var tail := [part] + post;
    assert pre + [part] + post == pre + tail;
    FieldsAppend(pre, tail, acc, bound);
    var mid := ParseFields(pre, acc, bound);
    assert tail[1..] == post;
    FieldsCons(tail, mid, bound);
    FieldsUntouched(post, FieldStep(mid, part), bound, FieldKey(part).value);
  }

  /** Without a part whose key is `k`, an inline table holds `k` only if it already did. */
  lemma FieldsAbsent(parts: seq<string>, bound: nat, k: string)
    requires forall i :: 0 <= i < |parts| ==> |parts[i]| < bound
    requires forall p :: p in parts ==> FieldKey(p) != Some(k)
    ensures Get(ParseFields(parts, [], bound), k).None?
  {
    FieldsUntouched(parts, [], bound, k);
  }

  /**
   * The value of an inline-table part is `rest.join("=")` in the source, `rest` being its
   * pieces after the first `=`: that is exactly the text after the first `=`.
   */
  lemma RestAfterFirstEquals(part: string)
    requires IndexOf(part, "=") >= 0
    ensures Join(Split(part, "=")[1..], "=") == part[IndexOf(part, "=") + 1..]
    ensures Split(part, "=")[0] == part[..IndexOf(part, "=")]
  {
    var i := IndexOf(part, "=");
    JoinSplit(part[i + 1..], '=');
    assert Split(part, "=")[1..] == Split(part[i + 1..], "=");
  }

  lemma InlineBooleans(v: string, bound: nat)
    requires |v| <= bound
    ensures v == "true" ==> ParseValue(v, bound) == TBool(true)
    ensures v == "false" ==> ParseValue(v, bound) == TBool(false)
  {
  }

  /** A value opening and closing with the same quote is a quoted string. */
  lemma QuotedShape(v: string, q: char)
    requires q == '"' || q == '\''
    requires |v| >= 2 && v[0] == q && v[|v| - 1] == q
    ensures ShapeOf(v) == Quoted
  {
    assert v[..1] == [q] && v[|v| - 1..] == [q];
    assert DigitRun(v) == 0;
  }

  /** A quoted value is the text between its outer quotes, escapes uninterpreted. */
  lemma InlineQuoted(v: string, bound: nat, q: char)
    requires |v| <= bound
    requires q == '"' || q == '\''
    requires |v| >= 2 && v[0] == q && v[|v| - 1] == q
    ensures ParseValue(v, bound) == TStr(v[1..|v| - 1])
  {
    QuotedShape(v, q);
  }

  /** A value that opens with none of `"`, `'`, `[`, `{` and is no boolean or number is its own text. */
  lemma PlainShape(v: string)
    requires |v| > 0 && !IsNumeral(v) && v[0] !in "\"'[{" && v != "true" && v != "false"
    ensures ShapeOf(v) == Plain
  {
    assert v[..1] == [v[0]];
  }

  /** An empty value is `null`; an unrecognised one is its trimmed text. */
  lemma InlineFallback(v: string, bound: nat)
    requires |v| <= bound
    requires v == [] || (!IsNumeral(v) && v[0] !in "\"'[{" && v != "true" && v != "false")
    ensures ParseValue(v, bound) == if v == [] then TNull else TStr(v)
  {
    if v != [] {
      PlainShape(v);
    }
  }

  lemma ListShape(v: string)
    requires |v| >= 2 && v[0] == '[' && v[|v| - 1] == ']'
    ensures ShapeOf(v) == ListOf
  {
    assert v[..1] == "[" && v[|v| - 1..] == "]";
    assert DigitRun(v) == 0;
  }

  /** `[]`, even with blanks inside, is the empty list. */
  lemma InlineEmptyArray(v: string, bound: nat)
    requires |v| <= bound
    requires |v| >= 2 && v[0] == '[' && v[|v| - 1] == ']'
    requires Trim(v[1..|v| - 1]) == []
    ensures ParseValue(v, bound) == TArr([])
  {
    ListShape(v);
  }

  /** A list is split on every comma and each element parsed on its own, in order. */
  lemma InlineArray(v: string, bound: nat)
    requires |v| <= bound
    requires |v| >= 2 && v[0] == '[' && v[|v| - 1] == ']'
    requires Trim(v[1..|v| - 1]) != []
    ensures var parts := Split(Trim(v[1..|v| - 1]), ",");
            && ParseValue(v, bound).TArr?
            && |ParseValue(v, bound).items| == |parts|
            && forall i :: 0 <= i < |parts| ==> ParseValue(v, bound).items[i] == ParseInlineValue(parts[i])
  {
    ListShape(v);
  }

  // ---------------------------------------------------------------------------
  // Lines

  predicate IsLineTerminator(c: char) {
    c == '\n' || c == '\r' || c == '\U{2028}' || c == '\U{2029}'
  }

  /** The characters `.` matches. */
  predicate NoTerminator(s: string) {
    forall i :: 0 <= i < |s| ==> !IsLineTerminator(s[i])
  }

  predicate IsKeyChar(c: char) {
    ('A' <= c <= 'Z') || ('a' <= c <= 'z') || ('0' <= c <= '9') || c == '_' || c == '.' || c == '-'
  }

  function KeyRun(s: string): (k: nat)
    ensures k <= |s| && (forall i :: 0 <= i < k ==> IsKeyChar(s[i])) && (k == |s| || !IsKeyChar(s[k]))
  {
    if s == [] || !IsKeyChar(s[0]) then 0 else 1 + KeyRun(s[1..])
  }

  function SpaceRun(s: string): (k: nat)
    ensures k <= |s| && (forall i :: 0 <= i < k ==> IsWhitespace(s[i])) && (k == |s| || !IsWhitespace(s[k]))
  {
    if s == [] || !IsWhitespace(s[0]) then 0 else 1 + SpaceRun(s[1..])
  }

  /** How `parseTomlLight` reads one trimmed, comment-stripped line. */
  datatype LineKind = Blank | Header(name: string) | Assign(key: string, value: string) | Unmatched

  /**
   * The two regular expressions of the line loop: `/^\[(.+)\]$/` and
   * `/^([A-Za-z0-9_.-]+)\s*=\s*(.+)$/`, the latter's key run being maximal because key
   * characters are neither blanks nor `=`.
   */
  function Classify(line: string): LineKind {
    if line == [] then Blank
    else if |line| >= 3 && line[0] == '[' && line[|line| - 1] == ']' && NoTerminator(line[1..|line| - 1]) then
      Header(line[1..|line| - 1])
    else MatchAssign(line)
  }

  /** `/^([A-Za-z0-9_.-]+)\s*=\s*(.+)$/` on a line that is no header. */
  function MatchAssign(line: string): LineKind {
      var k := KeyRun(line);
      var afterKey := line[k..];
      var afterSpace := afterKey[SpaceRun(afterKey)..];
      if k == 0 || afterSpace == [] || afterSpace[0] != '=' then Unmatched
      else
        var v0 := afterSpace[1..];
        var w := SpaceRun(v0);
        var value := v0[w..];
        if value != [] then
          if NoTerminator(value) then Assign(line[..k], value) else Unmatched
        else if w > 0 && !IsLineTerminator(v0[w - 1]) then Assign(line[..k], v0[w - 1..])
        else Unmatched
  }

  /** `tableName.split(".").map(trim).filter(Boolean)`. */
  function HeaderPath(name: string): (r: seq<string>)
    ensures forall i :: 0 <= i < |r| ==> r[i] != []
  {
    NonEmptyTrimmed(Split(name, "."))
  }

  function NonEmptyTrimmed(xs: seq<string>): (r: seq<string>)
    ensures forall i :: 0 <= i < |r| ==> r[i] != []
  {
    if xs == [] then []
    else if Trim(xs[0]) == [] then NonEmptyTrimmed(xs[1..])
    else [Trim(xs[0])] + NonEmptyTrimmed(xs[1..])
  }

  /** The loop variables of `parseTomlLight`. */
  datatype Reader = Reader(root: Table, currentPath: seq<string>)

  /** One iteration of the line loop. */
  function ReadLine(st: Reader, originalLine: string): Reader {
    Apply(st, Classify(Trim(StripComments(originalLine))))
  }

  /** What the loop does with a line of each kind. */
  function Apply(st: Reader, kind: LineKind): Reader {
    match kind
    case Blank => st
    case Unmatched => st
    case Header(name) =>
      var path := HeaderPath(name);
      Reader(EnsureTable(st.root, path), path)
    case Assign(key, value) =>
      Reader(SetIn(st.root, st.currentPath, Trim(key), ParseInlineValue(value)), st.currentPath)
  }

  /** The loop over all lines, one `step` per line, the last line taken last. */
  function ReadLines(step: (Reader, string) -> Reader, st: Reader, lines: seq<string>): Reader
    decreases |lines|
  {
    if lines == [] then st else step(ReadLines(step, st, lines[..|lines| - 1]), lines[|lines| - 1])
  }

  /** The table `parseTomlLight(toml)` returns. */
  function TomlLight(toml: string): Table {
    ReadLines(ReadLine, Reader([], []), SplitLines(toml)).root
  }

  /** `parseTomlLight`: the line loop. */
  method ParseTomlLight(toml: string) returns (root: Table)
    ensures root == TomlLight(toml)
  {
    var lines := SplitLines(toml);
    root := [];
    var currentPath: seq<string> := [];
    for i := 0 to |lines|
      invariant Reader(root, currentPath) == ReadLines(ReadLine, Reader([], []), lines[..i])
    {
      ReadLinesSnoc(ReadLine, Reader([], []), lines, i);
      root, currentPath := TakeLine(root, currentPath, lines[i]);
    }
    assert lines[..|lines|] == lines;
  }

  /** The body of the line loop. */
  method TakeLine(root: Table, currentPath: seq<string>, originalLine: string)
    returns (root': Table, currentPath': seq<string>)
    ensures Reader(root', currentPath') == ReadLine(Reader(root, currentPath), originalLine)
  {
    var line := Trim(StripComments(originalLine));
    var kind := Classify(line);
    assert ReadLine(Reader(root, currentPath), originalLine) == Apply(Reader(root, currentPath), kind);
    root', currentPath' := root, currentPath;
    match kind
    case Blank =>
    case Unmatched =>
    case Header(name) =>
      currentPath' := HeaderPath(name);
      root' := EnsureTable(root, currentPath');
    case Assign(keyRaw, valueRaw) =>
      root' := SetIn(root, currentPath, Trim(keyRaw), ParseInlineValue(valueRaw));
  }

  /** One more line is one more step. */
  lemma ReadLinesSnoc(step: (Reader, string) -> Reader, st: Reader, lines: seq<string>, i: int)
    requires 0 <= i < |lines|
    ensures ReadLines(step, st, lines[..i + 1]) == step(ReadLines(step, st, lines[..i]), lines[i])
  {
    assert lines[..i + 1][..i] == lines[..i];
  }

  /** Blank and unmatched lines leave the reader as it was. */
  lemma IgnoredLine(st: Reader, kind: LineKind)
    requires kind.Blank? || kind.Unmatched?
    ensures Apply(st, kind) == st
  {
  }

  /** A comment-only line is blank once stripped. */
  lemma CommentLine(line: string)
    requires |line| > 0 && line[0] == '#'
    ensures Classify(Trim(StripComments(line))) == Blank
  {
    assert OccursAt(line, "#", 0) by { assert line[0..1] == "#"; }
    IndexOfUnique(line, "#", 0);
    assert StripComments(line) == line[..0] == [];
    assert Trim([]) == [];
  }

  /** A header makes its tables exist and the following assignments go into the last of them. */
  lemma HeaderLine(st: Reader, name: string)
    ensures Apply(st, Header(name)).currentPath == HeaderPath(name)
    ensures Lookup(Apply(st, Header(name)).root, HeaderPath(name)).Some?
  {
  }

  /**
   * A `key = value` line stores the parsed value under the key, taken literally (dots
   * included), in the table of the most recent header, overwriting an earlier value;
   * the other keys of that table are as they were.
   */
  lemma AssignLine(st: Reader, key: string, value: string)
    ensures Apply(st, Assign(key, value)).currentPath == st.currentPath
    ensures Lookup(Apply(st, Assign(key, value)).root, st.currentPath).Some?
    ensures Get(Lookup(Apply(st, Assign(key, value)).root, st.currentPath).value, Trim(key)) == Some(ParseInlineValue(value))
    ensures Lookup(st.root, st.currentPath).Some? ==> forall k :: k != Trim(key) ==>
      Get(Lookup(Apply(st, Assign(key, value)).root, st.currentPath).value, k) == Get(Lookup(st.root, st.currentPath).value, k)
  {
    SetInStores(st.root, st.currentPath, Trim(key), ParseInlineValue(value));
    if Lookup(st.root, st.currentPath).Some? {
      EnsureKeepsTable(st.root, st.currentPath);
    }
  }

  lemma KeyRunIs(s: string, k: nat)
    requires k <= |s| && (forall i :: 0 <= i < k ==> IsKeyChar(s[i])) && (k == |s| || !IsKeyChar(s[k]))
    ensures KeyRun(s) == k
  {
  }

  lemma SpaceRunIs(s: string, k: nat)
    requires k <= |s| && (forall i :: 0 <= i < k ==> IsWhitespace(s[i])) && (k == |s| || !IsWhitespace(s[k]))
    ensures SpaceRun(s) == k
  {
  }

  /** The key of an assignment is its whole run of key characters, dots and all. */
  lemma AssignKeyLiteral(line: string)
    requires Classify(line).Assign?
    ensures line[..|Classify(line).key|] == Classify(line).key
    ensures forall i :: 0 <= i < |Classify(line).key| ==> IsKeyChar(Classify(line).key[i])
    ensures |Classify(line).key| == |line| || !IsKeyChar(line[|Classify(line).key|])
  {
  }

  /**
   * `key = value` with one blank on each side of `=`: the key and the value come back, for
   * any key of key characters and any value on one line that does not start with a blank.
   */
  lemma AssignForm(key: string, value: string)
    requires key != [] && forall i :: 0 <= i < |key| ==> IsKeyChar(key[i])
    requires value != [] && !IsWhitespace(value[0]) && NoTerminator(value)
    ensures Classify(key + " = " + value) == Assign(key, value)
  {
    var line := key + " = " + value;
    assert line[..|key|] == key && line[|key|] == ' ';
    KeyRunIs(line, |key|);
    assert line[|key|..] == " = " + value;
    EqualsThenValue(value);
    assert line[0] == key[0] && line[0] != '[';
  }

  /** What `MatchAssign` reads after the key of `key = value`: one blank, `=`, one blank, the value. */
  lemma EqualsThenValue(value: string)
    requires value != [] && !IsWhitespace(value[0])
    ensures var afterKey := " = " + value;
            && SpaceRun(afterKey) == 1 && afterKey[1..] != [] && afterKey[1..][0] == '='
            && SpaceRun(afterKey[1..][1..]) == 1 && afterKey[1..][1..][1..] == value
  {
    var afterKey := " = " + value;
    SpaceRunIs(afterKey, 1);
    var v0 := afterKey[1..][1..];
    assert v0 == " " + value;
    SpaceRunIs(v0, 1);
  }

  // ---------------------------------------------------------------------------
  // analyzeCargoToml

  datatype Dependency = Dependency(name: string, spec: TomlValue)

  datatype CargoReport = CargoReport(
    name: TomlValue, version: TomlValue, edition: TomlValue, description: TomlValue,
    dependencies: seq<Dependency>, devDependencies: seq<Dependency>, buildDependencies: seq<Dependency>,
    workspace: TomlValue, raw: Table)

  /** `parsed[k] ?? {}`. */
  function Section(parsed: Table, k: string): TomlValue {
    match Get(parsed, k)
    case Some(v) => if v == TNull then TTable([]) else v
    case None => TTable([])
  }

  /** `v?.[k] ?? null`: only a table has members here. */
  function MemberOrNull(v: TomlValue, k: string): TomlValue {
    if v.TTable? then Get(v.entries, k).GetOr(TNull) else TNull
  }

  /** `Object.entries(v)`: a table's entries, a list's or string's indexed elements, nothing otherwise. */
  function Entries(v: TomlValue): seq<(string, TomlValue)> {
    match v
    case TTable(es) => es
    case TArr(xs) => seq(|xs|, i requires 0 <= i < |xs| => (NatToString(i), xs[i]))
    case TStr(s) => seq(|s|, i requires 0 <= i < |s| => (NatToString(i), TStr([s[i]])))
    case _ => []
  }

  /** `summarizeDeps`. */
  function SummarizeDeps(v: TomlValue): (r: seq<Dependency>)
    ensures |r| == |Entries(v)|
    ensures forall i :: 0 <= i < |r| ==> r[i] == Dependency(Entries(v)[i].0, Entries(v)[i].1)
  {
    var es := Entries(v);
    seq(|es|, i requires 0 <= i < |es| => Dependency(es[i].0, es[i].1))
  }

  function AnalyzeParsed(parsed: Table): CargoReport {
    var pkg := Section(parsed, "package");
    CargoReport(
      MemberOrNull(pkg, "name"), MemberOrNull(pkg, "version"),
      MemberOrNull(pkg, "edition"), MemberOrNull(pkg, "description"),
      SummarizeDeps(Section(parsed, "dependencies")),
      SummarizeDeps(Section(parsed, "dev-dependencies")),
      SummarizeDeps(Section(parsed, "build-dependencies")),
      Section(parsed, "workspace"),
      parsed)
  }

  /** `analyzeCargoToml(toml)`. */
  function AnalyzeCargoToml(toml: string): CargoReport {
    AnalyzeParsed(TomlLight(toml))
  }

  /** The package fields are the `[package]` table's entries, `null` where absent. */
  lemma PackageFields(parsed: Table, pkg: Table)
    requires Get(parsed, "package") == Some(TTable(pkg))
    ensures var r := AnalyzeParsed(parsed);
            && (Get(pkg, "name").Some? ==> r.name == Get(pkg, "name").value)
            && (Get(pkg, "name").None? ==> r.name == TNull)
            && (Get(pkg, "edition").Some? ==> r.edition == Get(pkg, "edition").value)
            && (Get(pkg, "edition").None? ==> r.edition == TNull)
  {
  }

  /** Without a `[package]` table every package field is `null`. */
  lemma NoPackage(parsed: Table)
    requires Get(parsed, "package").None?
    ensures var r := AnalyzeParsed(parsed);
            r.name == TNull && r.version == TNull && r.edition == TNull && r.description == TNull
  {
  }

  /** A dependency table gives one `{name, spec}` per entry, in the table's order. */
  lemma DependencyList(parsed: Table, es: Table)
    requires Get(parsed, "dependencies") == Some(TTable(es))
    ensures var r := AnalyzeParsed(parsed).dependencies;
            |r| == |es| && forall i :: 0 <= i < |r| ==> r[i].name == es[i].0 && r[i].spec == es[i].1
  {
  }

  /** No dependency table gives no dependencies. */
  lemma NoDependencies(parsed: Table)
    requires Get(parsed, "dependencies").None? || Get(parsed, "dependencies") == Some(TNull)
    ensures AnalyzeParsed(parsed).dependencies == []
  {
  }
}
