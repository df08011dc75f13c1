/**
 * The `grep` line scanner: number the lines from 1, report each line whose
 * comparison form contains the pattern's comparison form, and say
 * "Not found!" when no line was reported.
 */
module Grep {

  // ------------------------------------------------------ comparison form

  /** Lower-casing of one character, ASCII letters only. */
  function LowerChar(c: char): char {
    if 'A' <= c <= 'Z' then (c as int + 32) as char else c
  }

  /**
   * The `-i` comparison form: no upper-case letter is left, every upper-case
   * letter becomes its lower-case partner, and every other character stays.
   */
  function Lower(s: string): (r: string)
    ensures |r| == |s|
    ensures forall i | 0 <= i < |r| :: !('A' <= r[i] <= 'Z')
    ensures forall i | 0 <= i < |s| && 'A' <= s[i] <= 'Z' :: r[i] as int == s[i] as int + 32
    ensures forall i | 0 <= i < |s| && !('A' <= s[i] <= 'Z') :: r[i] == s[i]
  {
    seq(|s|, i requires 0 <= i < |s| => LowerChar(s[i]))
  }

  /** The comparison form: lower-cased under `-i`, the string itself otherwise. */
  function Fold(s: string, caseInsensitive: bool): string {
    if caseInsensitive then Lower(s) else s
  }

  predicate OccursAt(s: string, t: string, i: int) {
    0 <= i && i + |t| <= |s| && s[i..i + |t|] == t
  }

  /** `str::contains`: `t` occurs in `s` as a contiguous piece. */
  predicate Contains(s: string, t: string) {
    exists i | 0 <= i <= |s| :: OccursAt(s, t, i)
  }

  /** Whether a line is reported for this pattern. */
  predicate LineMatches(line: string, expression: string, caseInsensitive: bool) {
    Contains(Fold(line, caseInsensitive), Fold(expression, caseInsensitive))
  }

  // --------------------------------------------------------- the input

  /** One item of `reader.lines()`: a line of text, or a line that cannot be decoded. */
  datatype LineRead = Text(text: string) | Undecodable

  /** The file named on the command line: it cannot be opened, or it yields its lines. */
  datatype TextFile = Unopenable | Opened(lines: seq<LineRead>)

  predicate AllText(lines: seq<LineRead>) {
    forall i | 0 <= i < |lines| :: lines[i].Text?
  }

  /** The texts of lines that all decoded. */
  function Texts(lines: seq<LineRead>): seq<string>
    requires AllText(lines)
  {
    seq(|lines|, i requires 0 <= i < |lines| => lines[i].text)
  }

  /** The position of the first line that cannot be decoded, or the number of lines. */
  function FirstUndecodable(lines: seq<LineRead>): (n: nat)
    ensures n <= |lines| && AllText(lines[..n])
    ensures n < |lines| ==> lines[n].Undecodable?
  {
    if lines == [] then 0
    else if lines[0].Undecodable? then 0
    else
      var m := FirstUndecodable(lines[1..]);
      assert lines[..m + 1] == [lines[0]] + lines[1..][..m];
      1 + m
  }

  /** The first undecodable line is the one position that all earlier lines are text and it is not. */
  lemma {:induction false} FirstUndecodableAt(lines: seq<LineRead>, k: nat)
    requires k <= |lines| && AllText(lines[..k])
    requires k < |lines| ==> lines[k].Undecodable?
    ensures FirstUndecodable(lines) == k
    decreases k
  {
    if k > 0 {
      assert lines[..k][0] == lines[0];
      var tail := lines[1..];
      assert tail[..k - 1] == lines[..k][1..];
      FirstUndecodableAt(tail, k - 1);
    }
  }

  // --------------------------------------------------------- the output

  /** One printed `Line <number>: <text>`. */
  datatype Report = Report(number: nat, text: string)

  /** What follows the reports. */
  datatype Ending =
    | Quiet            // at least one line reported; nothing more is printed
    | NotFoundMessage  // "Not found!"
    | OpenError        // "Error opening the file"
    | LineError        // "Error reading the line"

  datatype GrepOutput = GrepOutput(reports: seq<Report>, ending: Ending)

  /** The reports for a run of readable lines, numbered from 1, in file order. */
  function ReportsOf(ts: seq<string>, expression: string, caseInsensitive: bool): seq<Report> {
    if ts == [] then []
    else
      ReportsOf(ts[..|ts| - 1], expression, caseInsensitive)
      + (if LineMatches(ts[|ts| - 1], expression, caseInsensitive) then [Report(|ts|, ts[|ts| - 1])] else [])
  }

  /** The lines `grep` gets through: those before the first undecodable one. */
  function ReadLines(lines: seq<LineRead>): (ts: seq<string>)
    ensures |ts| == FirstUndecodable(lines)
    ensures forall i | 0 <= i < |ts| :: lines[i] == Text(ts[i])
  {
    var n := FirstUndecodable(lines);
    var ts := Texts(lines[..n]);
    assert forall i | 0 <= i < n :: lines[..n][i] == lines[i];
    ts
  }

  /** The whole output of one `grep` run over `file`. */
  function Scan(file: TextFile, expression: string, caseInsensitive: bool): GrepOutput {
    match file
    case Unopenable => GrepOutput([], OpenError)
    case Opened(lines) =>
      var rs := ReportsOf(ReadLines(lines), expression, caseInsensitive);
      GrepOutput(rs, if FirstUndecodable(lines) < |lines| then LineError else if rs == [] then NotFoundMessage else Quiet)
  }

  lemma TextsSnoc(lines: seq<LineRead>, k: nat)
    requires k < |lines| && AllText(lines[..k]) && lines[k].Text?
    ensures AllText(lines[..k + 1])
    ensures Texts(lines[..k + 1])[..k] == Texts(lines[..k])
    ensures Texts(lines[..k + 1]) == Texts(lines[..k]) + [lines[k].text]
  {
    assert forall i | 0 <= i < k :: lines[..k + 1][i] == lines[..k][i];
  }

  lemma ReportsSnoc(ts: seq<string>, t: string, expression: string, caseInsensitive: bool)
    ensures ReportsOf(ts + [t], expression, caseInsensitive)
         == ReportsOf(ts, expression, caseInsensitive)
          + (if LineMatches(t, expression, caseInsensitive) then [Report(|ts| + 1, t)] else [])
  {
    assert (ts + [t])[..|ts|] == ts;
  }

  /** `grep`: the loop of the source, reading line after line. */
  method Grep(file: TextFile, expression: string, caseInsensitive: bool) returns (out: GrepOutput)
    ensures out == Scan(file, expression, caseInsensitive)
  {
    if file.Unopenable? {
      return GrepOutput([], OpenError);
    }
    var lines := file.lines;
    var lineNumber := 0;
    var found := false;
    var reports: seq<Report> := [];
    assert lines[..0] == [];
    while lineNumber < |lines|
      invariant 0 <= lineNumber <= |lines|
      invariant AllText(lines[..lineNumber])
      invariant reports == ReportsOf(Texts(lines[..lineNumber]), expression, caseInsensitive)
      invariant found <==> reports != []
    {
      lineNumber := lineNumber + 1;
      var line := lines[lineNumber - 1];
      if line.Undecodable? {
        FirstUndecodableAt(lines, lineNumber - 1);
        return GrepOutput(reports, LineError);
      }
      TextsSnoc(lines, lineNumber - 1);
      ReportsSnoc(Texts(lines[..lineNumber - 1]), line.text, expression, caseInsensitive);
      var lineToCompare := if caseInsensitive then Lower(line.text) else line.text;
      var expressionToCompare := if caseInsensitive then Lower(expression) else expression;
      if Contains(lineToCompare, expressionToCompare) {
        found := true;
        reports := reports + [Report(lineNumber, line.text)];
      }
    }
    assert lines[..|lines|] == lines;
    FirstUndecodableAt(lines, |lines|);
    if !found {
      return GrepOutput(reports, NotFoundMessage);
    }
    return GrepOutput(reports, Quiet);
  }
}
