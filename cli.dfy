/**
 * The command line parser `parseCli` of `index.ts`: a left-to-right scan that lets
 * `--root <dir>` pairs set the workspace root, stops at the first help or version flag,
 * and reports the first token it cannot use. The process's working directory is a
 * parameter.
 */
module Cli {
  import opened JsText

  datatype CliOptions = Run(rootDir: string) | Help | Version | Error(message: string)

  const MissingRoot: string := "Missing value for --root"

  /** A value `--root` accepts: present, non-empty (the empty string is falsy) and not starting with `-`. */
  predicate ValidRootValue(next: string) {
    next != [] && !StartsWith(next, "-")
  }

  predicate IsHelp(arg: string) {
    arg == "-h" || arg == "--help"
  }

  predicate IsVersion(arg: string) {
    arg == "-v" || arg == "--version"
  }

  /** What the scan decides for the arguments left, with the root chosen so far. */
  function Scan(args: seq<string>, rootDir: string): CliOptions
    decreases |args|
  {
    if args == [] then Run(rootDir)
    else if args[0] == "--root" then
      if |args| < 2 || !ValidRootValue(args[1]) then Error(MissingRoot)
      else Scan(args[2..], args[1])
    else if IsHelp(args[0]) then Help
    else if IsVersion(args[0]) then Version
    else Error("Unknown argument: " + args[0])
  }

  /** `parseCli(argv)` started in the working directory `cwd`. */
  method ParseCli(argv: seq<string>, cwd: string) returns (r: CliOptions)
    ensures r == Scan(argv, cwd)
  {
    var rootDir := cwd;
    var i := 0;
    while i < |argv|
      invariant 0 <= i <= |argv|
      invariant Scan(argv[i..], rootDir) == Scan(argv, cwd)
      decreases |argv| - i
    {
      var arg := argv[i];
      if arg == "--root" {
        if i + 1 >= |argv| || !ValidRootValue(argv[i + 1]) {
          return Error(MissingRoot);
        }
        assert argv[i..][2..] == argv[i + 2..];
        rootDir := argv[i + 1];
        i := i + 2;
        continue;
      }
      if IsHelp(arg) {
        return Help;
      }
      if IsVersion(arg) {
        return Version;
      }
      return Error("Unknown argument: " + arg);
    }
    assert argv[i..] == [];
    return Run(rootDir);
  }

  // ---------------------------------------------------------------------------
  // What the scan means

  /** A run of well-formed `--root <dir>` pairs. */
  predicate RootPairs(p: seq<string>) {
    && |p| % 2 == 0
    && (forall k :: 0 <= k < |p| && k % 2 == 0 ==> p[k] == "--root")
    && (forall k :: 0 <= k < |p| && k % 2 == 1 ==> ValidRootValue(p[k]))
  }

  /** The root after a run of pairs: the last value given, or the starting one. */
  function LastRoot(p: seq<string>, rootDir: string): string {
    if p == [] then rootDir else p[|p| - 1]
  }

  /** A run of `--root` pairs only moves the root, to its last value. */
  lemma {:induction false} ScanPairs(p: seq<string>, rest: seq<string>, rootDir: string)
    requires RootPairs(p)
    decreases |p|
    ensures Scan(p + rest, rootDir) == Scan(rest, LastRoot(p, rootDir))
  {
    if p != [] {
      assert |p| >= 2;
      assert p[0] == "--root" && ValidRootValue(p[1]);
      var q := p[2..];
      assert RootPairs(q) by {
        forall k | 0 <= k < |q| ensures (k % 2 == 0 ==> q[k] == "--root") && (k % 2 == 1 ==> ValidRootValue(q[k])) {
          assert q[k] == p[k + 2];
        }
      }
      assert (p + rest)[0] == "--root" && (p + rest)[1] == p[1];
      assert (p + rest)[2..] == q + rest;
      assert Scan(p + rest, rootDir) == Scan(q + rest, p[1]);
      ScanPairs(q, rest, p[1]);
      if q != [] {
        assert q[|q| - 1] == p[|p| - 1];
      } else {
        assert |p| == 2;
      }
    } else {
      assert p + rest == rest;
    }
  }

  /** No arguments: run in the working directory. */
  lemma EmptyArgv(cwd: string)
    ensures Scan([], cwd) == Run(cwd)
  {
  }

  /** Only `--root` pairs: run in the last root given, or in the working directory when there is none. */
  lemma LastRootWins(p: seq<string>, cwd: string)
    requires RootPairs(p)
    ensures Scan(p, cwd) == Run(LastRoot(p, cwd))
  {
    ScanPairs(p, [], cwd);
    assert p + [] == p;
  }

  /** After the pairs, a `--root` with nothing usable after it is an error. */
  lemma MissingValue(p: seq<string>, rest: seq<string>, cwd: string)
    requires RootPairs(p)
    requires rest == [] || !ValidRootValue(rest[0])
    ensures Scan(p + ["--root"] + rest, cwd) == Error(MissingRoot)
  {
    ScanPairs(p, ["--root"] + rest, cwd);
    assert p + ["--root"] + rest == p + (["--root"] + rest);
  }

  /** After the pairs, the first help flag decides, whatever follows. */
  lemma HelpWins(p: seq<string>, flag: string, rest: seq<string>, cwd: string)
    requires RootPairs(p) && IsHelp(flag)
    ensures Scan(p + [flag] + rest, cwd) == Help
  {
    ScanPairs(p, [flag] + rest, cwd);
    assert p + [flag] + rest == p + ([flag] + rest);
  }

  /** After the pairs, the first version flag decides, whatever follows. */
  lemma VersionWins(p: seq<string>, flag: string, rest: seq<string>, cwd: string)
    requires RootPairs(p) && IsVersion(flag)
    ensures Scan(p + [flag] + rest, cwd) == Version
  {
    ScanPairs(p, [flag] + rest, cwd);
    assert p + [flag] + rest == p + ([flag] + rest);
  }

  /** After the pairs, any other token is reported, whatever follows. */
  lemma UnknownArgument(p: seq<string>, tok: string, rest: seq<string>, cwd: string)
    requires RootPairs(p) && tok != "--root" && !IsHelp(tok) && !IsVersion(tok)
    ensures Scan(p + [tok] + rest, cwd) == Error("Unknown argument: " + tok)
  {
    ScanPairs(p, [tok] + rest, cwd);
    assert p + [tok] + rest == p + ([tok] + rest);
  }

  /** A value starting with `-` is not taken as the root, even when it is a flag. */
  lemma RootRejectsFlag(cwd: string)
    ensures Scan(["--root", "--help"], cwd) == Error(MissingRoot)
  {
    assert StartsWith("--help", "-");
  }
}
