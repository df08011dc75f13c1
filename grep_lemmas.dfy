/**
 * What the `grep` scanner promises: which lines are reported and under which
 * numbers, in which order, what ends the output, how `-i` widens the match,
 * and what an empty pattern does.
 */
module GrepProperties {
  import opened Grep

  // ------------------------------------------------------------ reports

  /** A report names exactly a matching line, under its 1-based line number. */
  lemma {:induction false} ReportsExactly(ts: seq<string>, expression: string, caseInsensitive: bool, n: nat, t: string)
    ensures Report(n, t) in ReportsOf(ts, expression, caseInsensitive)
        <==> 1 <= n <= |ts| && ts[n - 1] == t && LineMatches(t, expression, caseInsensitive)
    decreases |ts|
  {
    if ts != [] {
      var init := ts[..|ts| - 1];
      ReportsExactly(init, expression, caseInsensitive, n, t);
      if 1 <= n < |ts| {
        assert init[n - 1] == ts[n - 1];
      }
    }
  }

  /** Every report carries a line number within the file. */
  lemma {:induction false} ReportsInRange(ts: seq<string>, expression: string, caseInsensitive: bool)
    ensures forall r | r in ReportsOf(ts, expression, caseInsensitive) :: 1 <= r.number <= |ts|
    decreases |ts|
  {
    if ts != [] {
      ReportsInRange(ts[..|ts| - 1], expression, caseInsensitive);
    }
  }

  predicate NumbersIncrease(rs: seq<Report>) {
    forall i, j | 0 <= i < j < |rs| :: rs[i].number < rs[j].number
  }

  /** Reports come in file order: line numbers strictly increase. */
  lemma {:induction false} ReportsIncreasing(ts: seq<string>, expression: string, caseInsensitive: bool)
    ensures NumbersIncrease(ReportsOf(ts, expression, caseInsensitive))
    decreases |ts|
  {
    if ts != [] {
      var init := ts[..|ts| - 1];
      var before := ReportsOf(init, expression, caseInsensitive);
      var rs := ReportsOf(ts, expression, caseInsensitive);
      ReportsIncreasing(init, expression, caseInsensitive);
      ReportsInRange(init, expression, caseInsensitive);
      assert |init| == |ts| - 1;
      if LineMatches(ts[|ts| - 1], expression, caseInsensitive) {
        assert rs == before + [Report(|ts|, ts[|ts| - 1])];
        forall i, j | 0 <= i < j < |rs| ensures rs[i].number < rs[j].number {
          assert rs[i] == before[i];
          if j == |before| {
            assert before[i] in before;
          } else {
            assert rs[j] == before[j];
          }
        }
      } else {
        assert rs == before;
      }
    }
  }

  /** No report at all exactly when no line matches. */
  lemma {:induction false} NoReportsIff(ts: seq<string>, expression: string, caseInsensitive: bool)
    ensures ReportsOf(ts, expression, caseInsensitive) == []
        <==> forall i | 0 <= i < |ts| :: !LineMatches(ts[i], expression, caseInsensitive)
    decreases |ts|
  {
    if ts != [] {
      var init := ts[..|ts| - 1];
      NoReportsIff(init, expression, caseInsensitive);
      assert forall i | 0 <= i < |init| :: init[i] == ts[i];
    }
  }

  // ------------------------------------------------------------- endings

  /**
   * The output of a run in full: an unopenable file gives only the open error;
   * otherwise the reports are exactly the matching lines read before the first
   * undecodable line, and the ending says which of the three ways the run ended.
   */
  lemma ScanOutcome(file: TextFile, expression: string, caseInsensitive: bool)
    ensures var out := Scan(file, expression, caseInsensitive);
      && (out.ending == OpenError <==> file.Unopenable?)
      && (file.Unopenable? ==> out.reports == [])
      && (out.ending == LineError <==> file.Opened? && !AllText(file.lines))
      && (out.ending == NotFoundMessage <==>
            file.Opened? && AllText(file.lines)
            && forall i | 0 <= i < |file.lines| :: !LineMatches(file.lines[i].text, expression, caseInsensitive))
      && (file.Opened? ==>
            forall n: nat, t: string :: Report(n, t) in out.reports
              <==> 1 <= n <= FirstUndecodable(file.lines) && file.lines[n - 1] == Text(t)
                   && LineMatches(t, expression, caseInsensitive))
  {
    if file.Opened? {
      var lines := file.lines;
      var k := FirstUndecodable(lines);
      var ts := ReadLines(lines);
      assert ts == Texts(lines[..k]);
      NoReportsIff(ts, expression, caseInsensitive);
      forall n: nat, t: string
        ensures Report(n, t) in ReportsOf(ts, expression, caseInsensitive)
            <==> 1 <= n <= k && lines[n - 1] == Text(t) && LineMatches(t, expression, caseInsensitive)
      {
        ReportsExactly(ts, expression, caseInsensitive, n, t);
      }
      if AllText(lines) {
        FirstUndecodableAt(lines, |lines|);
        assert forall i | 0 <= i < |lines| :: lines[i].text == ts[i];
      }
    }
  }

  // ----------------------------------------------------------------- -i

  lemma LowerPiece(s: string, i: nat, j: nat)
    requires i <= j <= |s|
    ensures Lower(s[i..j]) == Lower(s)[i..j]
  {
  }

  /** Lower-casing twice is lower-casing once. */
  lemma LowerIdempotent(s: string)
    ensures Lower(Lower(s)) == Lower(s)
  {
  }

  /** Lower-casing both sides keeps every occurrence. */
  lemma LowerKeepsContains(s: string, t: string)
    requires Contains(s, t)
    ensures Contains(Lower(s), Lower(t))
  {
    var i :| 0 <= i <= |s| && OccursAt(s, t, i);
    LowerPiece(s, i, i + |t|);
    assert OccursAt(Lower(s), Lower(t), i);
  }

  /** A line reported without `-i` is reported with it. */
  lemma CaseInsensitiveWidens(ts: seq<string>, expression: string)
    ensures forall r | r in ReportsOf(ts, expression, false) :: r in ReportsOf(ts, expression, true)
  {
    forall r | r in ReportsOf(ts, expression, false)
      ensures r in ReportsOf(ts, expression, true)
    {
      ReportsExactly(ts, expression, false, r.number, r.text);
      LowerKeepsContains(r.text, expression);
      ReportsExactly(ts, expression, true, r.number, r.text);
    }
  }

  /** With `-i`, a pattern differing only in ASCII case reports the same lines. */
  lemma CaseInsensitiveIgnoresCase(ts: seq<string>, e1: string, e2: string)
    requires Lower(e1) == Lower(e2)
    ensures ReportsOf(ts, e1, true) == ReportsOf(ts, e2, true)
  {
  }

  // ------------------------------------------------------- empty pattern

  /** Every line contains the empty pattern, so every line read is reported. */
  lemma {:induction false} EmptyPatternReportsAll(ts: seq<string>, caseInsensitive: bool)
    ensures var rs := ReportsOf(ts, "", caseInsensitive);
      |rs| == |ts| && forall i | 0 <= i < |ts| :: rs[i] == Report(i + 1, ts[i])
    decreases |ts|
  {
    if ts != [] {
      var init := ts[..|ts| - 1];
      EmptyPatternReportsAll(init, caseInsensitive);
      assert OccursAt(Fold(ts[|ts| - 1], caseInsensitive), Fold("", caseInsensitive), 0);
    }
  }

  /** With an empty pattern "Not found!" appears exactly for an empty file. */
  lemma EmptyPatternNotFound(lines: seq<LineRead>, caseInsensitive: bool)
    ensures Scan(Opened(lines), "", caseInsensitive).ending == NotFoundMessage <==> lines == []
  {
    var k := FirstUndecodable(lines);
    EmptyPatternReportsAll(Texts(lines[..k]), caseInsensitive);
  }

  // ------------------------------------------------------------- example

  const ExampleFile := Opened([Text("Hello"), Text("world"), Text("HELLO again")])

  lemma ExampleFirstLineMatches()
    ensures LineMatches("Hello", "hello", true)
  {
    assert Lower("hello") == "hello";
    assert LowerChar('H') == 'h';
    assert Lower("Hello") == "hello";
    assert OccursAt(Lower("Hello"), "hello", 0);
  }

  lemma ExampleSecondLineDiffers()
    ensures !LineMatches("world", "hello", true)
  {
    assert Lower("hello") == "hello";
    assert Lower("world") == "world";
    forall i | 0 <= i <= 5 ensures !OccursAt("world", "hello", i) {
      if i == 0 {
        assert "world"[0..5][0] != "hello"[0];
      }
    }
  }

  lemma ExampleThirdLineMatches()
    ensures LineMatches("HELLO again", "hello", true)
  {
    assert Lower("hello") == "hello";
    assert LowerChar('H') == 'h' && LowerChar('E') == 'e' && LowerChar('L') == 'l' && LowerChar('O') == 'o';
    assert Lower("HELLO again")[0..5] == "hello";
    assert OccursAt(Lower("HELLO again"), "hello", 0);
  }

  lemma ExampleReports()
    ensures ReportsOf(["Hello", "world", "HELLO again"], "hello", true) == [Report(1, "Hello"), Report(3, "HELLO again")]
  {
    ExampleFirstLineMatches();
    ExampleSecondLineDiffers();
    ExampleThirdLineMatches();
    ReportsSnoc([], "Hello", "hello", true);
    assert [] + ["Hello"] == ["Hello"];
    ReportsSnoc(["Hello"], "world", "hello", true);
    assert ["Hello"] + ["world"] == ["Hello", "world"];
    ReportsSnoc(["Hello", "world"], "HELLO again", "hello", true);
    assert ["Hello", "world"] + ["HELLO again"] == ["Hello", "world", "HELLO again"];
  }

  /** `grep hello <file> -i` over three lines reports lines 1 and 3. */
  lemma CaseInsensitiveExample()
    ensures Scan(ExampleFile, "hello", true) == GrepOutput([Report(1, "Hello"), Report(3, "HELLO again")], Quiet)
  {
    var lines := ExampleFile.lines;
    FirstUndecodableAt(lines, 3);
    assert lines[..3] == lines;
    assert Texts(lines) == ["Hello", "world", "HELLO again"];
    ExampleReports();
  }
}
