# Cli-utilities-rust: the `find` walkers and the `grep` scanner, in Dafny

`Cli-utilities-rust` is a small command-line toolkit (`echo`, `cat`, `ls`,
`find`, `grep`) in one Rust file, `src/main.rs`. This project models the two
parts of it that have real control flow, plus the argument handling right
around them:

- **`find`**: `find_file_by_name` and `find_directory_by_name`. Both are
  breadth-first walks. They pull a directory off a FIFO queue, list it, push
  every sub-directory back onto the queue, and collect the entries whose base
  name passes the name test. File mode tests every entry. Directory mode
  tests only directories. A failing `read_dir` or entry read aborts the
  whole walk with that error. An empty result becomes a `NotFound`
  error.
- **`find`'s option scan**: a `for` loop over the options.
  - The token after the last `-name` becomes the name, and the token after
    the last `-type` becomes the type. A flag given as the final token gets
    `""`.
  - An empty name is refused.
  - `-type d` picks the directory walker. Anything else picks the file
    walker.
- **`grep`**: it opens a file and reads it line by line, numbering lines
  from 1. It reports every line whose comparison form contains the
  pattern's comparison form. The comparison form is lower-cased under `-i`.
  If no line was reported, it ends with "Not found!". An open failure or an
  undecodable line stops it with an error.
- **`main`'s `grep` arguments**: the pattern is the third argument and the
  file is the fourth. `-i` is honoured only as the fifth.

### How it is modelled

- **The file system** (`file_tree.dfy`) is a finite tree of `Node`s:
  - `File(name)`;
  - `Dir(name, readable, entries)`, where `readable == false` means
    `read_dir` fails on it;
  - `Unreadable`, which is a directory entry whose read fails, or a start
    path that does not exist.

  A `Path` is the start path followed by one name per level. `Entries` is
  an independent depth-first enumeration of everything below a path. It is
  the reference that the breadth-first walk is compared against.
- **The walkers** (`walker.dfy`):
  - `Walk` is the queue algorithm written as a function of the current
    frontier.
  - `Search` adds the `NotFound` rule.
  - `FindFileByName` and `FindDirectoryByName` are the source's two nested
    loops. They are imperative methods with a queue, a result list and loop
    invariants, and they are proved to return exactly `Search(…)`.
  - Each also returns, as a ghost value, the sequence of directories it
    dequeued. That sequence is proved equal to `Visited`.
- **Walker properties** (`walker_lemmas.dfy`) cover:
  - when the walk fails;
  - coverage, as multiset equality with `Entries`;
  - breadth-first order, and results in discovery order;
  - names;
  - how directory mode relates to file mode;
  - dequeue order, and that each directory is dequeued exactly once;
  - the search outcome;
  - a worked two-level example.
- **`grep`** (`grep.dfy`, `grep_lemmas.dfy`):
  - A file is `Unopenable`, or `Opened` with a sequence of lines. Each line
    is text or `Undecodable`.
  - The method `Grep` is the source's loop. It is proved equal to the
    function `Scan`.
  - Lemmas cover which lines are reported and under which numbers, their
    order, the three endings, `-i` and the empty pattern.
- **Argument glue** (`cli.dfy`):
  - `ScanOptions` is the option loop, proved against `OptionValue`.
  - `Find` runs the scan and then the chosen walker, proved against
    `FindResult`.
  - `GrepArguments` picks the `grep` call out of `main`'s argument list.

Printing is not modelled. Each operation returns what it would print: the
paths or the error, and the reports and the way the run ended.

## Model

| member | source | states |
|---|---|---|
| Walker.Selected | src/main.rs:210-214 | an entry is kept iff it occurs in the listing and passes the test of lines 211/235: an empty query or an exactly equal base name, and in directory mode only directories |
| WalkerProperties.SelectedCount | src/main.rs:210-214 | the name test keeps each eligible entry exactly as often as it occurs in the listing, and no ineligible one |
| Walker.Listing | src/main.rs:205-206 | listing a dequeued path succeeds exactly when it is a readable directory all of whose entries can be read, and then yields one child per entry, its path extended by the entry's name |
| Walker.Walk | src/main.rs:202-216 | everything the breadth-first queue walk collects passes the name test of the mode |
| WalkerProperties.PathsOfMultiset | src/main.rs:212 | two collections holding the same entries, occurrence for occurrence, yield the same reported paths, occurrence for occurrence |
| Walker.FindFileByName | src/main.rs:200-222 | the `while`/`for` loop returns exactly `Search(FileMode, …)` (the paths, `NotFound` for an empty result, or the first I/O error), and dequeues directories in `Visited` order |
| Walker.FindDirectoryByName | src/main.rs:226-248 | the same for directory mode: it returns exactly `Search(DirectoryMode, …)` and dequeues in `Visited` order |
| WalkerProperties.WalkSucceedsIff | src/main.rs:204-206 | the walk succeeds iff every frontier directory and everything below it can be listed; a failure is always an I/O error, never `NotFound` |
| WalkerProperties.WalkCovers | src/main.rs:202-216 | a successful walk collects, occurrence for occurrence (multiset equality), exactly the entries below the frontier that pass the test, per the independent depth-first enumeration |
| WalkerProperties.WalkDepths | src/main.rs:202-209 | breadth-first order: collected entries never get shallower, and each lies strictly below the frontier |
| WalkerProperties.WalkNames | src/main.rs:210-213 | every collected entry's path ends in that entry's own base name, and the entry is eligible in the mode |
| WalkerProperties.ModesAgree | src/main.rs:230-242 | the directory-mode walk yields exactly the directories of the file-mode walk, in the same order, and fails exactly when it fails |
| WalkerProperties.ResultsInDiscoveryOrder | src/main.rs:202-216 | a query's results are exactly the entries the collect-everything walk discovers that pass the test, in discovery order, and the query fails exactly when that walk fails, with the same error |
| WalkerProperties.VisitedInDiscoveryOrder | src/main.rs:202-209 | on a walk that succeeds, directories are dequeued in discovery order: first the initial frontier, then every directory entry in the order the walk meets it |
| WalkerProperties.EachDirectoryOnce | src/main.rs:202-209 | on a readable tree every directory below the start is dequeued exactly once |
| WalkerProperties.FailureIsLastVisited | src/main.rs:205-206 | the walk fails iff the last directory it dequeues cannot be listed, with that listing's error; every directory dequeued before it was listed completely |
| WalkerProperties.SearchOutcome | src/main.rs:200-222 | `Ok` iff the tree is readable and something matches, and then a non-empty list holding every match's path once per occurrence; `NotFound` iff readable with no match; an I/O error iff unreadable |
| WalkerProperties.SearchSingleMatch | src/main.rs:200-222 | on a readable tree, a name occurring exactly once below the start is reported as exactly that one path, at any depth |
| WalkerProperties.SearchEverything | src/main.rs:211 | when a search with an empty query succeeds, file mode reports every entry below the start and directory mode every directory |
| WalkerProperties.SearchOrderAndNames | src/main.rs:200-222 | reported paths never get shorter, start with the start path, lie at least one level below it, and with a non-empty query end in the query |
| WalkerProperties.AbsentNameNotFound | src/main.rs:217-218 | for a non-empty query, on a readable tree where no eligible entry has the queried name, the search gives `NotFound(mode, query)` |
| WalkerProperties.TwoLevelExample | src/main.rs:200-222 | `root/{a.txt, sub/{a.txt, b.txt}}` with name `a.txt` in file mode gives `[root/a.txt, root/sub/a.txt]`, the top-level match first |
| WalkerProperties.DirectoryModeExample | src/main.rs:226-248 | on the same tree, directory mode with name `a.txt` gives `NotFound(DirectoryMode, "a.txt")` |
| Grep.Lower | src/main.rs:151-156 | the `-i` comparison form keeps the length, leaves no upper-case letter, turns each upper-case letter into its lower-case partner and keeps every other character |
| GrepProperties.LowerIdempotent | src/main.rs:151-156 | lower-casing an already lower-cased string changes nothing |
| Grep.FirstUndecodable | src/main.rs:142-150 | the position reading stops at: every line before it is text, and the line there (if any) cannot be decoded |
| Grep.Grep | src/main.rs:131-165 | the line loop produces exactly `Scan`: the open error, or the reports of the lines read followed by the line error, "Not found!" or nothing |
| GrepProperties.ReportsExactly | src/main.rs:157-160 | `Line n: t` is reported iff `1 <= n <= ` the number of lines read, line `n` is `t`, and `t` matches |
| GrepProperties.ReportsInRange | src/main.rs:140-143 | every reported line number lies between 1 and the number of lines read |
| GrepProperties.ReportsIncreasing | src/main.rs:142-160 | reports come in file order: line numbers strictly increase |
| GrepProperties.NoReportsIff | src/main.rs:157-164 | there is no report iff no line read matches |
| Grep.ReadLines | src/main.rs:142-150 | the lines `grep` gets through are exactly the texts before the first undecodable line |
| GrepProperties.ScanOutcome | src/main.rs:131-165 | the open error iff the file cannot be opened (with no reports); the line error iff some line is undecodable; "Not found!" iff every line is text and none matches; reports are exactly the matching lines read, under their numbers |
| GrepProperties.LowerKeepsContains | src/main.rs:151-157 | if the pattern occurs in a line, the lower-cased pattern occurs in the lower-cased line |
| GrepProperties.CaseInsensitiveWidens | src/main.rs:151-157 | every report made without `-i` is also made with `-i` |
| GrepProperties.CaseInsensitiveIgnoresCase | src/main.rs:152-156 | under `-i`, two patterns with the same lower-cased form report the same lines |
| GrepProperties.EmptyPatternReportsAll | src/main.rs:157 | the empty pattern reports every line read, numbered 1, 2, … |
| GrepProperties.EmptyPatternNotFound | src/main.rs:157-164 | with the empty pattern, "Not found!" appears iff the file has no lines |
| GrepProperties.CaseInsensitiveExample | src/main.rs:131-165 | `["Hello", "world", "HELLO again"]` with pattern `hello` and `-i` reports lines 1 and 3 and ends quietly |
| Cli.LastIndex | src/main.rs:88-105 | the position found holds the flag and no later position does; no position means the flag does not occur |
| Cli.OptionValue | src/main.rs:88-105 | the value is the token after the flag's last occurrence (`""` if that is the final token), and `""` when the flag is absent |
| Cli.ScanOptions | src/main.rs:85-105 | the loop leaves `filename` and `_type` equal to `OptionValue` of `-name` and `-type` |
| Cli.LaterOptionWins | src/main.rs:88-105 | a later `flag v` (with `v` not the flag itself) overrides every earlier occurrence |
| Cli.TrailingFlagIsEmpty | src/main.rs:92-101 | a flag given as the final token gets the default `""` |
| Cli.OtherTokensIgnored | src/main.rs:103 | tokens that are not the flag, appended after its value, leave that value unchanged |
| Cli.ModeOf | src/main.rs:110-114 | directory mode iff the type is exactly `d`; `f`, any other value or no type gives file mode |
| Cli.Find | src/main.rs:83-114 | scanning, refusing an empty name, then running the chosen walker returns exactly `FindResult` |
| Cli.FindOutcomeCases | src/main.rs:106-114 | `find` refuses iff the name is empty; otherwise the mode is the one `-type` picks, `Ok` lists every match's path once per occurrence, and `NotFound` appears iff the tree is readable with no match |
| Cli.FindFileExample | src/main.rs:83-114 | `find root -name a.txt -type f` on the two-level tree reports `root/a.txt` then `root/sub/a.txt` |
| Cli.FindDirectoryExample | src/main.rs:83-114 | `find root -type d -name a.txt` on that tree uses directory mode and reports not found |
| Cli.FindMissingDirectory | src/main.rs:83-114 | `find start -type d -name missing` on any readable tree with no directory of that name gives `NotFound(DirectoryMode, "missing")` |
| Cli.FindTrailingNameExample | src/main.rs:97-101 | `-name a.txt -name` leaves the name empty, so nothing is searched |
| Cli.GrepArguments | src/main.rs:39-45 | the pattern is the third argument, the file the fourth, and `-i` is on iff a fifth argument exists and is exactly `-i` |
| Cli.SwitchWidens | src/main.rs:40-44 | adding `-i` as the fifth argument only adds reported lines |
| Cli.ExtraArgumentsIgnored | src/main.rs:40 | arguments after the fifth do not change what `grep` does |

## Left out

- `echo`, `cat`, `ls`, `read_and_print`, `create_and_append_to_file` and `list_directory` are left out (src/main.rs:55-79, 169-196). They are terminal and file I/O with no logic to prove.
- The dispatch on the tool name in `main` is left out, and so is the `args.len() < 3` check (src/main.rs:19-21). `Find` takes the start path and the option list directly, which are `args[2]` and `args[3..]`.
- Cli.GrepArguments: requires at least four arguments, because with fewer the source indexes past the end of `args` and panics.
- Printing is left out: the exact message texts, the `_type` string in the `find` error message (src/main.rs:124), and the `to_str()` filter that skips non-UTF-8 paths when printing (src/main.rs:118). The model returns the values that would be printed.
- Grep.Grep: numbers lines with unbounded naturals. The source's `line_number` (src/main.rs:140-143) is an `i32`, inferred from the literal `0`. On a file of more than 2^31 − 1 lines, a debug build panics on overflow when it reaches line 2^31. A release build wraps and prints `Line -2147483648: …`. The model's numbering, and `GrepProperties.ReportsExactly`, `ReportsInRange` and `ReportsIncreasing`, therefore match the program only for files of at most 2^31 − 1 lines.
- Grep.Lower: folds only ASCII `A`–`Z`, one character at a time. Rust's `to_lowercase` applies full Unicode case mapping. That mapping can change a string's length. It is also context dependent: a capital sigma at the end of a word becomes final `ς`, and anywhere else it becomes `σ`.
- GrepProperties.CaseInsensitiveWidens: holds for the per-character fold only. It fails for the program itself (src/main.rs:151-157). The line `ΑΣ` with pattern `Σ` is reported without `-i`. With `-i` the line lowers to `ας` and the pattern to `σ`, so it is not reported.
- Cli.SwitchWidens: holds for the per-character fold only. It fails for the program on the same input: `grep Σ file -i` drops the line `ΑΣ` that `grep Σ file` reports.
- GrepProperties.LowerKeepsContains: holds for the per-character fold only. Under Rust's `to_lowercase`, the occurrence of `Σ` in `ΑΣ` does not survive lower-casing.
- The real file system is abstracted:
  - `read_dir`, `DirEntry`, `is_dir`, `file_name` and `PathBuf` become the `Node` tree.
  - An `io::Error` becomes `ReadDirFailed` or `EntryFailed`, carrying the directory's path.
  - `file_name()` returning `None` is not modelled. It is `None` only for a path with no final normal component, such as `..`, `/` or the empty path. The paths tested at src/main.rs:210 and 234 are always `dir.join(name)` for an entry `read_dir` yields, so they always have one.
- Walker.Listing: an entry that cannot be read makes the whole listing fail. The source fails at that entry after handling the earlier ones. Because the error discards everything collected so far, both give the same outcome.
- Entries are listed in the order of the tree's `entries` sequence. The real `read_dir` order is unspecified, so the model fixes one order per directory.
- Concurrent changes to the tree and symbolic-link cycles are not modelled. The tree is finite, acyclic and stable during a run.
- No separate lemma states that running the same search twice gives the same result. Every operation is a function of the tree and the query, so this holds by construction.
