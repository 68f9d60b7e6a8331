/**
 * The cargo tools of `src/tools/handlers/cargo.ts`: `runCargoCheck`,
 * `applyClippySuggestions` and `validateLifetimes` build cargo's argument list from the
 * optional `extraArgs`, run cargo (a parameter `runCargo`, the process call), and report
 * its result; `validateLifetimes` adds the output lines about lifetimes and borrowing.
 * Each tool's result is the JSON value that is then stringified into the `ok` response.
 */
module Cargo {
  import opened Wrappers
  import opened Json
  import opened JsText
  import opened Args

  /** `{ exitCode, stdout, stderr }` of a finished cargo process. */
  datatype CargoRun = CargoRun(exitCode: int, stdout: string, stderr: string)

  /**
   * `extraArgs`: the array under `extraArgs` when there is one, else `[]`. The `as string[]`
   * cast checks nothing, so its items are passed on whatever they are.
   */
  function ExtraArgs(args: Json): (r: seq<Json>)
    ensures r != [] ==> Member(AsObject(args), "extraArgs") == Some(JArr(r))
    ensures (forall items :: Member(AsObject(args), "extraArgs") != Some(JArr(items))) ==> r == []
  {
    var v := Member(AsObject(args), "extraArgs");
    if v.Some? && v.value.JArr? then v.value.items else []
  }

  /** The arguments of `runCargoCheck` and `validateLifetimes`: `["check", ...extraArgs]`. */
  function CheckArgs(args: Json): seq<Json> {
    [JStr("check")] + ExtraArgs(args)
  }

  /** The arguments of `applyClippySuggestions`: `["clippy", "--fix", "--allow-dirty", "--allow-staged", ...extraArgs]`. */
  function ClippyArgs(args: Json): seq<Json> {
    [JStr("clippy"), JStr("--fix"), JStr("--allow-dirty"), JStr("--allow-staged")] + ExtraArgs(args)
  }

  /** The cargo result as a JSON object. */
  function RunFields(run: CargoRun): map<string, Json> {
    map["exitCode" := JNum(run.exitCode), "stdout" := JStr(run.stdout), "stderr" := JStr(run.stderr)]
  }

  /** `runCargoCheck`: the result of `cargo check ...extraArgs`. */
  function RunCargoCheck(runCargo: seq<Json> -> CargoRun, args: Json): Json {
    JObj(RunFields(runCargo(CheckArgs(args))))
  }

  /** `applyClippySuggestions`: the result of `cargo clippy --fix --allow-dirty --allow-staged ...extraArgs`. */
  function ApplyClippySuggestions(runCargo: seq<Json> -> CargoRun, args: Json): Json {
    JObj(RunFields(runCargo(ClippyArgs(args))))
  }

  /** `/lifetime|borrow|does not live long enough|cannot borrow/i`: ASCII patterns, so folding ASCII letters decides. */
  predicate IsLifetimeLine(line: string) {
    var l := AsciiLower(line);
    Contains(l, "lifetime") || Contains(l, "borrow") || Contains(l, "does not live long enough")
    || Contains(l, "cannot borrow")
  }

  /** `.filter(keep)`: the lines that pass the test, in order. */
  function Matching(keep: string -> bool, lines: seq<string>): (r: seq<string>)
    decreases |lines|
    ensures |r| <= |lines|
    ensures forall k :: 0 <= k < |r| ==> keep(r[k]) && r[k] in lines
  {
    if lines == [] then []
    else (if keep(lines[0]) then [lines[0]] else []) + Matching(keep, lines[1..])
  }

  /** `lifetimeRelated`: the matching lines of stdout and stderr, one after the other. */
  function LifetimeRelated(run: CargoRun): seq<string> {
    Matching(IsLifetimeLine, SplitLines(run.stdout + "\n" + run.stderr))
  }

  /** `validateLifetimes`: the result of `cargo check ...extraArgs` with its `lifetimeRelated` lines. */
  function ValidateLifetimes(runCargo: seq<Json> -> CargoRun, args: Json): Json {
    var run := runCargo(CheckArgs(args));
    var related := LifetimeRelated(run);
    JObj(RunFields(run)["lifetimeRelated" := JArr(seq(|related|, k requires 0 <= k < |related| => JStr(related[k])))])
  }

  // ---------------------------------------------------------------------------
  // What the tools promise

  /** Cargo gets the subcommand first and then the extra arguments, unchanged and in order. */
  lemma ArgumentLists(args: Json)
    ensures CheckArgs(args)[0] == JStr("check") && CheckArgs(args)[1..] == ExtraArgs(args)
    ensures |ClippyArgs(args)| == 4 + |ExtraArgs(args)| && ClippyArgs(args)[4..] == ExtraArgs(args)
    ensures ClippyArgs(args)[..4] == [JStr("clippy"), JStr("--fix"), JStr("--allow-dirty"), JStr("--allow-staged")]
  {
  }

  /** An `extraArgs` that is not an array (or missing, or arguments that are not an object) adds nothing. */
  lemma NonArrayExtraArgs(args: Json)
    requires !args.JObj? || "extraArgs" !in args.fields || !args.fields["extraArgs"].JArr?
    ensures CheckArgs(args) == [JStr("check")]
    ensures ClippyArgs(args) == [JStr("clippy"), JStr("--fix"), JStr("--allow-dirty"), JStr("--allow-staged")]
  {
  }

  /** The array given as `extraArgs` is what follows the subcommand. */
  lemma ArrayExtraArgs(items: seq<Json>, rest: map<string, Json>)
    ensures CheckArgs(JObj(rest["extraArgs" := JArr(items)])) == [JStr("check")] + items
  {
    assert Member(AsObject(JObj(rest["extraArgs" := JArr(items)])), "extraArgs") == Some(JArr(items));
  }

  /** `validateLifetimes` reports cargo's exit code, stdout and stderr unchanged beside the lines it picked. */
  lemma ValidatePassesThrough(runCargo: seq<Json> -> CargoRun, args: Json)
    ensures var run := runCargo(CheckArgs(args));
            var v := ValidateLifetimes(runCargo, args);
            && v.JObj? && v.fields.Keys == {"exitCode", "stdout", "stderr", "lifetimeRelated"}
            && v.fields["exitCode"] == JNum(run.exitCode)
            && v.fields["stdout"] == JStr(run.stdout) && v.fields["stderr"] == JStr(run.stderr)
            && v.fields["lifetimeRelated"].JArr?
            && |v.fields["lifetimeRelated"].items| == |LifetimeRelated(run)|
            && forall k :: 0 <= k < |LifetimeRelated(run)| ==>
                 v.fields["lifetimeRelated"].items[k] == JStr(LifetimeRelated(run)[k])
  {
  }

  /** No matching line is dropped. */
  lemma {:induction false} MatchingComplete(keep: string -> bool, lines: seq<string>, k: int)
    requires 0 <= k < |lines| && keep(lines[k])
    decreases |lines|
    ensures lines[k] in Matching(keep, lines)
  {
    if k > 0 {
      MatchingComplete(keep, lines[1..], k - 1);
      assert lines[1..][k - 1] == lines[k];
    }
  }

  /** Filtering a concatenation filters each part: the lines keep their order. */
  lemma {:induction false} MatchingAppend(keep: string -> bool, a: seq<string>, b: seq<string>)
    decreases |a|
    ensures Matching(keep, a + b) == Matching(keep, a) + Matching(keep, b)
  {
    if a == [] {
      assert a + b == b;
    } else {
      ConsAppend(a, b);
      MatchingAppend(keep, a[1..], b);
      var head := if keep(a[0]) then [a[0]] else [];
      assert Matching(keep, a + b) == head + (Matching(keep, a[1..]) + Matching(keep, b));
      assert Matching(keep, a) == head + Matching(keep, a[1..]);
    }
  }

  lemma ConsAppend(a: seq<string>, b: seq<string>)
    requires a != []
    ensures a + b != [] && (a + b)[0] == a[0] && (a + b)[1..] == a[1..] + b
  {
  }

  /** Lines joined by line feeds (none holding one, none but the last ending in `\r`) split back into themselves. */
  lemma SplitLinesJoin(lines: seq<string>)
    requires |lines| >= 1
    requires forall k :: 0 <= k < |lines| ==> '\n' !in lines[k]
    requires forall k :: 0 <= k < |lines| - 1 ==> !EndsWith(lines[k], "\r")
    ensures SplitLines(Join(lines, "\n")) == lines
  {
    SplitJoin(lines, '\n');
  }

  /**
   * When cargo's output is made of such lines, `lifetimeRelated` is exactly the matching
   * ones, in their order.
   */
  lemma LifetimeLines(run: CargoRun, lines: seq<string>)
    requires |lines| >= 1 && run.stdout + "\n" + run.stderr == Join(lines, "\n")
    requires forall k :: 0 <= k < |lines| ==> '\n' !in lines[k]
    requires forall k :: 0 <= k < |lines| - 1 ==> !EndsWith(lines[k], "\r")
    ensures LifetimeRelated(run) == Matching(IsLifetimeLine, lines)
  {
    SplitLinesJoin(lines);
  }

  /** A line feed ends a line, and a `\r` just before it goes with it: `/\r?\n/`. */
  lemma SplitLinesCons(a: string, b: string)
    requires '\n' !in a
    ensures SplitLines(a + "\n" + b) == [if EndsWith(a, "\r") then a[..|a| - 1] else a] + SplitLines(b)
  {
    SplitCons(a, b);
    var parts := Split(a + "\n" + b, "\n");
    var left := SplitLines(a + "\n" + b);
    var right := [if EndsWith(a, "\r") then a[..|a| - 1] else a] + SplitLines(b);
    assert |left| == |right|;
    forall k | 0 <= k < |left| ensures left[k] == right[k] {
      if k == 0 {
        assert parts[0] == a && |parts| > 1;
      } else {
        assert parts[k] == Split(b, "\n")[k - 1];
      }
    }
  }

  /** The first line feed ends the first piece. */
  lemma SplitCons(a: string, b: string)
    requires '\n' !in a
    ensures Split(a + "\n" + b, "\n") == [a] + Split(b, "\n")
  {
    var s := a + "\n" + b;
    FirstOccurrence(a, b, '\n');
    assert s[..|a|] == a;
    assert s[|a| + 1..] == b;
  }
}
