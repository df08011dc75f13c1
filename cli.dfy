/**
 * The command-line glue of `find` and `grep`: the `find` option scan and its
 * choice of walker, and the argument positions and `-i` switch of `grep`.
 */
module Cli {
  import opened Wrappers
  import opened FileTree
  import opened Walker
  import opened WalkerProperties
  import opened Grep
  import opened GrepProperties

  // ------------------------------------------------------ the option scan

  /** The position of the last occurrence of `flag` among the first `n` options. */
  function LastIndex(options: seq<string>, n: nat, flag: string): (r: Option<nat>)
    requires n <= |options|
    ensures r.Some? ==> r.value < n && options[r.value] == flag
    ensures r.Some? ==> forall j | r.value < j < n :: options[j] != flag
    ensures r.None? ==> forall j | 0 <= j < n :: options[j] != flag
  {
    if n == 0 then None
    else if options[n - 1] == flag then Some(n - 1)
    else LastIndex(options, n - 1, flag)
  }

  /** Position `i` holds the last occurrence of `flag`. */
  predicate IsLast(options: seq<string>, flag: string, i: int) {
    0 <= i < |options| && options[i] == flag && forall j | i < j < |options| :: options[j] != flag
  }

  /** The option after position `i`, or `""` when `i` is the last one. */
  function ValueAfter(options: seq<string>, i: nat): string {
    if i + 1 < |options| then options[i + 1] else ""
  }

  /** The value a scan of the first `n` options has given to `flag`. */
  function ValueSoFar(options: seq<string>, n: nat, flag: string): string
    requires n <= |options|
  {
    var last := LastIndex(options, n, flag);
    if last.Some? then ValueAfter(options, last.value) else ""
  }

  /**
   * The value of `flag` after the whole scan: the token after its last
   * occurrence, `""` when that occurrence is the final token or there is none.
   */
  function OptionValue(options: seq<string>, flag: string): (v: string)
    ensures forall i | IsLast(options, flag, i) :: v == ValueAfter(options, i)
    ensures (forall j | 0 <= j < |options| :: options[j] != flag) ==> v == ""
  {
    ValueSoFar(options, |options|, flag)
  }

  lemma ValueSoFarStep(options: seq<string>, i: nat, flag: string)
    requires i < |options|
    ensures ValueSoFar(options, i + 1, flag)
         == if options[i] == flag then ValueAfter(options, i) else ValueSoFar(options, i, flag)
  {
  }

  /** The `for` loop over the options: later `-name`/`-type` tokens overwrite earlier ones. */
  method ScanOptions(options: seq<string>) returns (filename: string, kind: string)
    ensures filename == OptionValue(options, "-name")
    ensures kind == OptionValue(options, "-type")
  {
    filename := "";
    kind := "";
    for i := 0 to |options|
      invariant filename == ValueSoFar(options, i, "-name")
      invariant kind == ValueSoFar(options, i, "-type")
    {
      ValueSoFarStep(options, i, "-name");
      ValueSoFarStep(options, i, "-type");
      var option := options[i];
      if option == "-type" {
        kind := if i + 1 < |options| then options[i + 1] else "";
      } else if option == "-name" {
        filename := if i + 1 < |options| then options[i + 1] else "";
      }
    }
  }

  /** A later occurrence of a flag overrides every earlier one. */
  lemma LaterOptionWins(options: seq<string>, flag: string, v: string)
    requires v != flag
    ensures OptionValue(options + [flag, v], flag) == v
  {
    var all := options + [flag, v];
    assert IsLast(all, flag, |all| - 2);
  }

  /** A flag given as the final token leaves its value empty. */
  lemma TrailingFlagIsEmpty(options: seq<string>, flag: string)
    ensures OptionValue(options + [flag], flag) == ""
  {
    var all := options + [flag];
    assert all[|all| - 1] == flag;
  }

  /** Tokens that are not the flag, appended after the options, do not move its last occurrence. */
  lemma {:induction false} LastIndexIgnoresOthers(options: seq<string>, rest: seq<string>, flag: string)
    requires forall j | 0 <= j < |rest| :: rest[j] != flag
    ensures LastIndex(options + rest, |options + rest|, flag) == LastIndex(options, |options|, flag)
    decreases |rest|
  {
    if rest != [] {
      var init := rest[..|rest| - 1];
      var all := options + rest;
      assert all[|all| - 1] == rest[|rest| - 1];
      assert LastIndex(all, |all|, flag) == LastIndex(all, |all| - 1, flag);
      assert all[..|all| - 1] == (options + init)[..|options + init|];
      LastIndexPrefix(all, options + init, |all| - 1, flag);
      assert forall j | 0 <= j < |init| :: init[j] == rest[j];
      LastIndexIgnoresOthers(options, init, flag);
      assert |all| - 1 == |options + init|;
    } else {
      assert options + rest == options;
    }
  }

  /** Tokens that are not the flag, placed after its value, do not change it. */
  lemma OtherTokensIgnored(options: seq<string>, flag: string, rest: seq<string>)
    requires |options| > 0 && options[|options| - 1] != flag
    requires forall j | 0 <= j < |rest| :: rest[j] != flag
    ensures OptionValue(options + rest, flag) == OptionValue(options, flag)
  {
    LastIndexIgnoresOthers(options, rest, flag);
    var r := LastIndex(options, |options|, flag);
    if r.Some? {
      assert r.value + 1 < |options|;
      assert (options + rest)[r.value + 1] == options[r.value + 1];
    }
  }

  lemma {:induction false} LastIndexPrefix(a: seq<string>, b: seq<string>, n: nat, flag: string)
    requires n <= |a| && n <= |b| && a[..n] == b[..n]
    ensures LastIndex(a, n, flag) == LastIndex(b, n, flag)
    decreases n
  {
    if n > 0 {
      assert a[n - 1] == a[..n][n - 1] == b[..n][n - 1] == b[n - 1];
      assert a[..n - 1] == a[..n][..n - 1];
      assert b[..n - 1] == b[..n][..n - 1];
      LastIndexPrefix(a, b, n - 1, flag);
    }
  }

  // ---------------------------------------------------- choosing a walker

  /** `-type d` selects directory mode; `f`, any other value or none selects file mode. */
  function ModeOf(kind: string): (m: Mode)
    ensures m == DirectoryMode <==> kind == "d"
  {
    if kind == "f" then FileMode
    else if kind == "d" then DirectoryMode
    else FileMode
  }

  /** How `find` ends: it refuses an empty name, or it reports a search's outcome. */
  datatype FindOutcome = MissingName | Searched(mode: Mode, result: Result<seq<Path>, FindError>)

  /** The outcome of `find <start> <options>` over the tree `root`. */
  function FindResult(start: string, options: seq<string>, root: Node): FindOutcome {
    var name := OptionValue(options, "-name");
    if name == "" then MissingName
    else
      var mode := ModeOf(OptionValue(options, "-type"));
      Searched(mode, Search(mode, name, start, root))
  }

  /** `find`: scan the options, reject an empty name, then run the chosen walker. */
  method Find(start: string, options: seq<string>, root: Node) returns (outcome: FindOutcome)
    ensures outcome == FindResult(start, options, root)
  {
    var filename, kind := ScanOptions(options);
    if filename == "" {
      return MissingName;
    }
    var paths: Result<seq<Path>, FindError>;
    ghost var dequeued: seq<Located>;
    if kind == "f" {
      paths, dequeued := FindFileByName(filename, start, root);
    } else if kind == "d" {
      paths, dequeued := FindDirectoryByName(filename, start, root);
    } else {
      paths, dequeued := FindFileByName(filename, start, root);
    }
    return Searched(ModeOf(kind), paths);
  }

  /**
   * What `find` reports: nothing is searched without a name; otherwise the
   * named walker runs, and its outcome is an I/O error exactly when part of
   * the tree cannot be read, "not found" exactly when nothing matches, and
   * otherwise every match's path once per occurrence.
   */
  lemma FindOutcomeCases(start: string, options: seq<string>, root: Node)
    ensures var o := FindResult(start, options, root);
      var name := OptionValue(options, "-name");
      var mode := ModeOf(OptionValue(options, "-type"));
      && (o == MissingName <==> name == "")
      && (o.Searched? ==>
            && o.mode == mode
            && (o.result.Ok? ==> multiset(o.result.value) == multiset(PathsOf(Matches(mode, name, start, root))))
            && ((o.result == Err(NotFound(mode, name)))
                <==> (Expandable(Located([start], root)) && Matches(mode, name, start, root) == [])))
  {
    var name := OptionValue(options, "-name");
    if name != "" {
      SearchOutcome(ModeOf(OptionValue(options, "-type")), name, start, root);
    }
  }

  /** `find root -name a.txt -type f` over the example tree reports both files. */
  lemma FindFileExample()
    ensures FindResult("root", ["-name", "a.txt", "-type", "f"], ExampleRoot)
         == Searched(FileMode, Ok([["root", "a.txt"], ["root", "sub", "a.txt"]]))
  {
    var options := ["-name", "a.txt", "-type", "f"];
    assert LastIndex(options, 4, "-name") == Some(0);
    assert LastIndex(options, 4, "-type") == Some(2);
    TwoLevelExample();
  }

  /** `find root -type d -name a.txt`: the later `-name` is honoured and nothing matches. */
  lemma FindDirectoryExample()
    ensures FindResult("root", ["-type", "d", "-name", "a.txt"], ExampleRoot)
         == Searched(DirectoryMode, Err(NotFound(DirectoryMode, "a.txt")))
  {
    var options := ["-type", "d", "-name", "a.txt"];
    assert LastIndex(options, 4, "-name") == Some(2);
    assert LastIndex(options, 4, "-type") == Some(0);
    DirectoryModeExample();
  }

  /** `find <start> -type d -name missing` over a readable tree with no directory of that name. */
  lemma FindMissingDirectory(start: string, root: Node)
    requires Expandable(Located([start], root))
    requires forall x | x in Entries(Located([start], root)) && x.node.Dir? :: x.node.name != "missing"
    ensures FindResult(start, ["-type", "d", "-name", "missing"], root)
         == Searched(DirectoryMode, Err(NotFound(DirectoryMode, "missing")))
  {
    var options := ["-type", "d", "-name", "missing"];
    assert LastIndex(options, 4, "-name") == Some(2);
    assert LastIndex(options, 4, "-type") == Some(0);
    AbsentNameNotFound(DirectoryMode, "missing", start, root);
  }

  /** A name given as the final token is empty, so `find` searches nothing. */
  lemma FindTrailingNameExample(start: string, root: Node)
    ensures FindResult(start, ["-name", "a.txt", "-name"], root) == MissingName
  {
    TrailingFlagIsEmpty(["-name", "a.txt"], "-name");
    assert ["-name", "a.txt"] + ["-name"] == ["-name", "a.txt", "-name"];
  }

  // ------------------------------------------------------------- grep

  /** The `grep` call `main` makes: `grep <pattern> <file> [-i]`. */
  datatype GrepCall = GrepCall(filename: string, pattern: string, caseInsensitive: bool)

  /** The arguments of `grep`: pattern third, file fourth, `-i` only as the fifth. */
  function GrepArguments(args: seq<string>): (c: GrepCall)
    requires |args| >= 4
    ensures c.pattern == args[2] && c.filename == args[3]
    ensures c.caseInsensitive <==> |args| >= 5 && args[4] == "-i"
  {
    if |args| >= 5 && args[4] == "-i" then GrepCall(args[3], args[2], true)
    else GrepCall(args[3], args[2], false)
  }

  /** The output of `grep` for `args`, with `files` saying what each name opens as. */
  function GrepRun(args: seq<string>, files: string -> TextFile): GrepOutput
    requires |args| >= 4
  {
    var c := GrepArguments(args);
    Scan(files(c.filename), c.pattern, c.caseInsensitive)
  }

  /** Adding `-i` as the fifth argument can only add reported lines. */
  lemma SwitchWidens(args: seq<string>, files: string -> TextFile)
    requires |args| == 4
    ensures forall r | r in GrepRun(args, files).reports :: r in GrepRun(args + ["-i"], files).reports
  {
    var file := files(args[3]);
    assert (args + ["-i"])[2..4] == args[2..4];
    if file.Opened? {
      var k := FirstUndecodable(file.lines);
      CaseInsensitiveWidens(Texts(file.lines[..k]), args[2]);
    }
  }

  /** Only the fifth argument is looked at: anything after it is ignored. */
  lemma ExtraArgumentsIgnored(args: seq<string>, more: seq<string>, files: string -> TextFile)
    requires |args| >= 5
    ensures GrepRun(args + more, files) == GrepRun(args, files)
  {
    assert (args + more)[..5] == args[..5];
    assert (args + more)[2] == args[2] && (args + more)[3] == args[3] && (args + more)[4] == args[4];
  }
}
