/** The lines of a diff hunk (gtest.cc): their two sides, and how changes and context alternate. */
module DiffLines {

  datatype Tag = Common | Minus | Plus

  datatype Line = Line(tag: Tag, text: string)

  /** The ' ' and '-' lines. */
  function LeftLines(lines: seq<Line>): seq<string> {
    if lines == [] then []
    else LeftLines(lines[..|lines| - 1]) + if lines[|lines| - 1].tag == Plus then [] else [lines[|lines| - 1].text]
  }

  /** The ' ' and '+' lines. */
  function RightLines(lines: seq<Line>): seq<string> {
    if lines == [] then []
    else RightLines(lines[..|lines| - 1]) + if lines[|lines| - 1].tag == Minus then [] else [lines[|lines| - 1].text]
  }

  lemma {:induction false} LinesConcat(a: seq<Line>, b: seq<Line>)
    ensures LeftLines(a + b) == LeftLines(a) + LeftLines(b)
    ensures RightLines(a + b) == RightLines(a) + RightLines(b)
    decreases |b|
  {
    if b == [] {
      assert a + b == a;
    } else {
      assert (a + b)[..|a + b| - 1] == a + b[..|b| - 1];
      LinesConcat(a, b[..|b| - 1]);
    }
  }

  ghost predicate AllTagged(lines: seq<Line>, tag: Tag) {
    forall i :: 0 <= i < |lines| ==> lines[i].tag == tag
  }

  lemma {:induction false} OneSided(lines: seq<Line>, tag: Tag)
    requires AllTagged(lines, tag)
    ensures tag == Minus ==> RightLines(lines) == []
    ensures tag == Plus ==> LeftLines(lines) == []
    decreases |lines|
  {
    if lines != [] {
      OneSided(lines[..|lines| - 1], tag);
    }
  }

  lemma ShortLists(line: Line)
    ensures LeftLines([]) == [] && RightLines([]) == []
    ensures LeftLines([line]) == if line.tag == Plus then [] else [line.text]
    ensures RightLines([line]) == if line.tag == Minus then [] else [line.text]
  {
    assert LeftLines([line][..0]) == [] && RightLines([line][..0]) == [];
  }

  /** Inside a block of changes the removed lines come first. */
  ghost predicate Grouped(lines: seq<Line>) {
    forall i :: 0 <= i < |lines| - 1 ==> !(lines[i].tag == Plus && lines[i + 1].tag == Minus)
  }

  lemma GroupedEdits(lines: seq<Line>, removes: seq<Line>, adds: seq<Line>)
    requires Grouped(lines) && (lines == [] || lines[|lines| - 1].tag == Common)
    requires AllTagged(removes, Minus) && AllTagged(adds, Plus)
    ensures Grouped(lines + removes + adds)
  {
    var all := lines + removes + adds;
    forall i | 0 <= i < |all| - 1
      ensures !(all[i].tag == Plus && all[i + 1].tag == Minus)
    {
      if i + 1 < |lines| {
        assert all[i] == lines[i] && all[i + 1] == lines[i + 1];
      } else if i < |lines| + |removes| {
        assert i >= |lines| ==> all[i] == removes[i - |lines|];
      } else {
        assert all[i + 1] == adds[i + 1 - |lines| - |removes|];
      }
    }
  }

  // ---- Context ----

  /** The lengths of the runs of common lines before, between and after the blocks of changes, one line further. */
  function NextRuns(runs: seq<nat>, tag: Tag): (r: seq<nat>)
    requires |runs| >= 1
    ensures |r| >= 1
  {
    var n := |runs| - 1;
    if tag == Common then runs[n := runs[n] + 1]
    else if n > 0 && runs[n] == 0 then runs
    else runs + [0]
  }

  function Runs(lines: seq<Line>): (r: seq<nat>)
    ensures |r| >= 1
  {
    if lines == [] then [0] else NextRuns(Runs(lines[..|lines| - 1]), lines[|lines| - 1].tag)
  }

  lemma RunsSnoc(lines: seq<Line>, line: Line)
    ensures Runs(lines + [line]) == NextRuns(Runs(lines), line.tag)
  {
    assert (lines + [line])[..|lines|] == lines;
  }

  ghost predicate AllChanges(lines: seq<Line>) {
    forall i :: 0 <= i < |lines| ==> lines[i].tag != Common
  }

  /** A block of changes ends a run and starts one, however many lines it has. */
  lemma {:induction false} RunsOfChanges(lines: seq<Line>, changes: seq<Line>)
    requires lines == [] || lines[|lines| - 1].tag == Common
    requires changes != [] && AllChanges(changes)
    ensures Runs(lines + changes) == Runs(lines) + [0]
    decreases |changes|
  {
    var n := |changes| - 1;
    var front := lines + changes[..n];
    assert lines + changes == front + [changes[n]];
    RunsSnoc(front, changes[n]);
    if n == 0 {
      assert front == lines;
    } else {
      RunsOfChanges(lines, changes[..n]);
    }
  }

  /** Common lines before the first change. */
  ghost predicate Leading(lines: seq<Line>, n: nat) {
    n < |lines| && lines[n].tag != Common && forall i :: 0 <= i < n ==> lines[i].tag == Common
  }

  /** Common lines after the last change. */
  ghost predicate Trailing(lines: seq<Line>, n: nat) {
    n < |lines| && lines[|lines| - 1 - n].tag != Common &&
    forall i :: |lines| - n <= i < |lines| ==> lines[i].tag == Common
  }

  /** Between two changes there are always fewer than b common lines in a row. */
  ghost predicate GapsBelow(lines: seq<Line>, b: nat) {
    forall i, j :: 0 <= i < j < |lines| && Gap(lines, i, j) ==> j - i - 1 < b
  }

  ghost predicate Gap(lines: seq<Line>, i: nat, j: nat)
    requires i < j < |lines|
  {
    lines[i].tag != Common && lines[j].tag != Common && forall k :: i < k < j ==> lines[k].tag == Common
  }

  ghost predicate InnerBelow(runs: seq<nat>, b: nat) {
    forall i :: 0 < i < |runs| - 1 ==> runs[i] < b
  }

  /** What the first and the last run are. */
  lemma {:induction false} RunsMean(lines: seq<Line>)
    ensures var runs := Runs(lines);
            if |runs| == 1 then runs[0] == |lines| && forall i :: 0 <= i < |lines| ==> lines[i].tag == Common
            else Leading(lines, runs[0]) && Trailing(lines, runs[|runs| - 1])
    decreases |lines|
  {
    if lines != [] {
      RunsMean(lines[..|lines| - 1]);
    }
  }

  lemma {:induction false} InnerRunsMean(lines: seq<Line>, b: nat)
    requires b > 0 && InnerBelow(Runs(lines), b)
    ensures GapsBelow(lines, b)
    decreases |lines|
  {
    if lines != [] {
      var n := |lines| - 1;
      var front := lines[..n];
      var runs, more := Runs(front), Runs(lines);
      assert forall i :: 0 < i < |runs| - 1 ==> more[i] == runs[i];
      InnerRunsMean(front, b);
      RunsMean(front);
      forall i, j | 0 <= i < j < |lines| && Gap(lines, i, j)
        ensures j - i - 1 < b
      {
        if j < n {
          assert Gap(front, i, j);
        } else {
          assert lines[i] == front[i];
          assert |runs| > 1 && i == n - 1 - runs[|runs| - 1];
          assert runs[|runs| - 1] > 0 ==> more == runs + [0] && more[|runs| - 1] == runs[|runs| - 1];
        }
      }
    }
  }
}
