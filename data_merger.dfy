/**
 * `aggregate_datasets` of src/DataMerger.py: the labelled records of two
 * files (Java first, then Python) are merged into one table with one entry
 * per problem id, in the order the ids are first seen.
 *
 * Reading the files and decoding each line's JSON are left to the caller:
 * a line is its raw text together with the record it decodes to.
 */
module DataMerger {
  import opened Strings

  /** The fields of a decoded line that the merge reads. */
  datatype Record = Record(problem: string, tags: seq<string>, complexity: Option<string>)

  datatype Line = Line(raw: string, record: Record)

  /** `not line.strip()`: the line holds only whitespace. */
  predicate Blank(line: Line) {
    forall k :: 0 <= k < |line.raw| ==> IsSpace(line.raw[k])
  }

  /** `if complexity:` for a label that is a string: present and non-empty. */
  predicate Labelled(r: Record) {
    r.complexity.Some? && r.complexity.value != []
  }

  /** One entry of `problems`; the `Counter` of labels is a multiset. */
  datatype Problem = Problem(problemId: string, tags: seq<string>, totalExamples: nat, complexityCounts: multiset<string>)

  /** The `problems` dict: its keys in insertion order, and the entries. */
  datatype Table = Table(order: seq<string>, problems: map<string, Problem>)

  const Empty: Table := Table([], map[])

  /** `process_line` on a decoded record (lines 7-23). */
  function Process(t: Table, r: Record): Table {
    var p := if r.problem in t.problems then t.problems[r.problem] else Problem(r.problem, r.tags, 0, multiset{});
    var counts := if Labelled(r) then p.complexityCounts + multiset{r.complexity.value} else p.complexityCounts;
    Table(if r.problem in t.problems then t.order else t.order + [r.problem],
          t.problems[r.problem := Problem(p.problemId, p.tags, p.totalExamples + 1, counts)])
  }

  /** The non-blank lines processed in order (lines 27-29). */
  function Feed(t: Table, lines: seq<Line>): Table
    decreases |lines|
  {
    if lines == [] then t
    else
      var before := Feed(t, lines[..|lines| - 1]);
      var last := lines[|lines| - 1];
      if Blank(last) then before else Process(before, last.record)
  }

  function Aggregate(lines: seq<Line>): Table {
    Feed(Empty, lines)
  }

  /** The lines of several files, one file after the other. */
  function Lines(files: seq<seq<Line>>): seq<Line> {
    if files == [] then [] else Lines(files[..|files| - 1]) + files[|files| - 1]
  }

  /** The table in memory during `aggregate_datasets`. */
  class ProblemTable {
    var order: seq<string>
    var problems: map<string, Problem>

    function State(): Table
      reads this
    {
      Table(order, problems)
    }

    constructor ()
      ensures State() == Empty
    {
      order := [];
      problems := map[];
    }

    /** `process_line(line)`: insert the id if absent, with this record's
        tags, then count the example and its label. */
    method ProcessLine(r: Record)
      modifies this
      ensures State() == Process(old(State()), r)
    {
      if r.problem !in problems {
        problems := problems[r.problem := Problem(r.problem, r.tags, 0, multiset{})];
        order := order + [r.problem];
      }
      var p := problems[r.problem];
      var counts := p.complexityCounts;
      if r.complexity.Some? && r.complexity.value != [] {
        counts := counts + multiset{r.complexity.value};
      }
      problems := problems[r.problem := Problem(p.problemId, p.tags, p.totalExamples + 1, counts)];
    }
  }

  /** Lines 4-29: the Java file, then the Python file, line by line,
      skipping blank lines. */
  method AggregateDatasets(java: seq<Line>, python: seq<Line>) returns (table: ProblemTable)
    ensures fresh(table)
    ensures table.State() == Aggregate(java + python)
  {
    table := new ProblemTable();
    var files := [java, python];
    for f := 0 to |files|
      invariant table.State() == Aggregate(Lines(files[..f]))
    {
      var lines := files[f];
      assert Lines(files[..f + 1]) == Lines(files[..f]) + lines by {
        assert files[..f + 1][..f] == files[..f];
      }
      assert Lines(files[..f]) + lines[..0] == Lines(files[..f]);
      for i := 0 to |lines|
        invariant table.State() == Aggregate(Lines(files[..f]) + lines[..i])
      {
        var done := Lines(files[..f]);
        assert (done + lines[..i + 1])[..|done| + i] == done + lines[..i];
        if !Blank(lines[i]) {
          table.ProcessLine(lines[i].record);
        }
      }
      assert lines[..|lines|] == lines;
    }
    assert files[..2] == files;
    assert Lines([java, python]) == java + python by {
      assert [java, python][..1] == [java];
      assert [java][..0] == [];
    }
  }

  /** One output record: `dict(pdata["complexity_counts"])` maps each label
      to its count. */
  datatype Output = Output(problemId: string, tags: seq<string>, totalExamples: nat, complexityCounts: map<string, nat>)

  predicate Indexed(t: Table) {
    forall i :: 0 <= i < |t.order| ==> t.order[i] in t.problems
  }

  /** Lines 31-34 without the writing: the records in key order. */
  function Written(t: Table): (out: seq<Output>)
    requires Indexed(t)
    ensures |out| == |t.order|
    ensures forall i :: 0 <= i < |out| ==> out[i].totalExamples == t.problems[t.order[i]].totalExamples
  {
    seq(|t.order|, i requires 0 <= i < |t.order| =>
      var p := t.problems[t.order[i]];
      Output(p.problemId, p.tags, p.totalExamples, map c | c in p.complexityCounts :: p.complexityCounts[c]))
  }

  // ---------------------------------------------------------------------
  // Properties

  /** Keys kept once each in insertion order; each entry is filed under its
      own id and has at most as many labels as examples. */
  ghost predicate WellFormed(t: Table) {
    && (forall i, j :: 0 <= i < j < |t.order| ==> t.order[i] != t.order[j])
    && (forall pid :: pid in t.problems <==> pid in t.order)
    && (forall pid :: pid in t.problems ==>
          t.problems[pid].problemId == pid
          && t.problems[pid].totalExamples >= 1
          && |t.problems[pid].complexityCounts| <= t.problems[pid].totalExamples)
  }

  lemma ProcessWellFormed(t: Table, r: Record)
    requires WellFormed(t)
    ensures WellFormed(Process(t, r))
  {
  }

  lemma {:induction false} AggregateWellFormed(lines: seq<Line>)
    ensures WellFormed(Aggregate(lines))
    decreases |lines|
  {
    if lines != [] {
      AggregateWellFormed(lines[..|lines| - 1]);
      if !Blank(lines[|lines| - 1]) {
        ProcessWellFormed(Aggregate(lines[..|lines| - 1]), lines[|lines| - 1].record);
      }
    }
  }

  /** A non-blank line about `pid`. */
  predicate Mentions(line: Line, pid: string) {
    !Blank(line) && line.record.problem == pid
  }

  /** The number of non-blank lines about `pid`. */
  function Occurrences(lines: seq<Line>, pid: string): nat {
    if lines == [] then 0
    else Occurrences(lines[..|lines| - 1], pid) + (if Mentions(lines[|lines| - 1], pid) then 1 else 0)
  }

  /** The labels of the non-blank lines about `pid`. */
  function Labels(lines: seq<Line>, pid: string): multiset<string> {
    if lines == [] then multiset{}
    else
      var last := lines[|lines| - 1];
      Labels(lines[..|lines| - 1], pid)
        + (if Mentions(last, pid) && Labelled(last.record) then multiset{last.record.complexity.value} else multiset{})
  }

  /** An id has an entry exactly when some non-blank line is about it; the
      entry counts those lines and collects their labels. */
  lemma {:induction false} Counts(lines: seq<Line>, pid: string)
    ensures pid in Aggregate(lines).problems <==> Occurrences(lines, pid) > 0
    ensures pid in Aggregate(lines).problems ==>
      Aggregate(lines).problems[pid].totalExamples == Occurrences(lines, pid)
      && Aggregate(lines).problems[pid].complexityCounts == Labels(lines, pid)
    ensures Occurrences(lines, pid) == 0 ==> Labels(lines, pid) == multiset{}
    decreases |lines|
  {
    if lines != [] {
      Counts(lines[..|lines| - 1], pid);
    }
  }

  /** A problem's label counts add up to at most its number of examples. */
  lemma LabelsWithinTotal(lines: seq<Line>, pid: string)
    requires pid in Aggregate(lines).problems
    ensures |Aggregate(lines).problems[pid].complexityCounts| <= Aggregate(lines).problems[pid].totalExamples
    ensures |Labels(lines, pid)| <= Occurrences(lines, pid)
  {
    AggregateWellFormed(lines);
    Counts(lines, pid);
  }

  /** Line `i` is the first non-blank line about `pid`. */
  predicate FirstFor(lines: seq<Line>, pid: string, i: nat) {
    i < |lines| && Mentions(lines[i], pid) && forall j :: 0 <= j < i ==> !Mentions(lines[j], pid)
  }

  lemma {:induction false} NoMentionNoEntry(lines: seq<Line>, pid: string)
    requires forall j :: 0 <= j < |lines| ==> !Mentions(lines[j], pid)
    ensures pid !in Aggregate(lines).problems
    decreases |lines|
  {
    if lines != [] {
      NoMentionNoEntry(lines[..|lines| - 1], pid);
    }
  }

  /** The tags kept are those of the first record seen for the id. */
  lemma {:induction false} FirstTagsWin(lines: seq<Line>, pid: string, i: nat)
    requires FirstFor(lines, pid, i)
    ensures pid in Aggregate(lines).problems
    ensures Aggregate(lines).problems[pid].tags == lines[i].record.tags
    decreases |lines|
  {
    var n := |lines| - 1;
    var prefix := lines[..n];
    if i == n {
      NoMentionNoEntry(prefix, pid);
    } else {
      FirstTagsWin(prefix, pid, i);
    }
  }

  /** The Java file is read first, so a Java record's tags win over any
      Python record of the same id. */
  lemma JavaFirst(java: seq<Line>, python: seq<Line>, pid: string, i: nat)
    requires FirstFor(java, pid, i)
    ensures pid in Aggregate(java + python).problems
    ensures Aggregate(java + python).problems[pid].tags == java[i].record.tags
  {
    assert FirstFor(java + python, pid, i) by {
      assert (java + python)[i] == java[i];
      forall j | 0 <= j < i ensures !Mentions((java + python)[j], pid) {
        assert (java + python)[j] == java[j];
      }
    }
    FirstTagsWin(java + python, pid, i);
  }

  /** A blank line changes nothing, wherever it stands. */
  lemma {:induction false} BlankLineIgnored(a: seq<Line>, b: Line, c: seq<Line>)
    requires Blank(b)
    ensures Aggregate(a + [b] + c) == Aggregate(a + c)
    decreases |c|
  {
    if c == [] {
      assert a + [b] + c == a + [b];
      assert (a + [b])[..|a|] == a;
      assert a + c == a;
    } else {
      var c' := c[..|c| - 1];
      assert (a + [b] + c)[..|a + [b] + c| - 1] == a + [b] + c';
      assert (a + c)[..|a + c| - 1] == a + c';
      BlankLineIgnored(a, b, c');
    }
  }

  /** Every id with an entry has a first line. */
  lemma {:induction false} EntryHasFirst(lines: seq<Line>, pid: string)
    requires pid in Aggregate(lines).problems
    ensures exists a: nat :: FirstFor(lines, pid, a)
    decreases |lines|
  {
    var n := |lines| - 1;
    var prefix := lines[..n];
    if pid in Aggregate(prefix).problems {
      EntryHasFirst(prefix, pid);
      var a: nat :| FirstFor(prefix, pid, a);
      assert FirstFor(lines, pid, a);
    } else {
      NewEntryFirst(lines, pid);
    }
  }

  /** An id that the last line adds to the table is first seen there. */
  lemma NewEntryFirst(lines: seq<Line>, pid: string)
    requires lines != []
    requires pid in Aggregate(lines).problems && pid !in Aggregate(lines[..|lines| - 1]).problems
    ensures FirstFor(lines, pid, |lines| - 1)
  {
    var n := |lines| - 1;
    var prefix := lines[..n];
    forall j | 0 <= j < n ensures !Mentions(lines[j], pid) {
      Counts(prefix, pid);
      if Mentions(prefix[j], pid) {
        MentionCounted(prefix, pid, j);
      }
    }
  }

  /** For an id already in the table before the last line, its first line
      comes earlier. */
  lemma FirstInPrefix(lines: seq<Line>, pid: string, a: nat)
    requires lines != [] && pid in Aggregate(lines[..|lines| - 1]).problems && FirstFor(lines, pid, a)
    ensures a < |lines| - 1 && FirstFor(lines[..|lines| - 1], pid, a)
  {
    var prefix := lines[..|lines| - 1];
    EntryHasFirst(prefix, pid);
    var a': nat :| FirstFor(prefix, pid, a');
    assert FirstFor(lines, pid, a');
    FirstUnique(lines, pid, a, a');
  }

  /** The ids come in the order of their first lines. */
  lemma {:induction false} FirstSeenOrder(lines: seq<Line>)
    ensures forall i, j, a: nat, b: nat ::
      (0 <= i < j < |Aggregate(lines).order| && FirstFor(lines, Aggregate(lines).order[i], a)
       && FirstFor(lines, Aggregate(lines).order[j], b)) ==> a < b
    decreases |lines|
  {
    if lines != [] {
      var n := |lines| - 1;
      var prefix := lines[..n];
      var before := Aggregate(prefix);
      var after := Aggregate(lines);
      FirstSeenOrder(prefix);
      AggregateWellFormed(prefix);
      forall i, j, a: nat, b: nat | 0 <= i < j < |after.order| && FirstFor(lines, after.order[i], a) && FirstFor(lines, after.order[j], b)
        ensures a < b
      {
        var x := after.order[i];
        assert x == before.order[i] && x in before.problems;
        FirstInPrefix(lines, x, a);
        if j < |before.order| {
          var y := before.order[j];
          assert after.order[j] == y && y in before.problems;
          FirstInPrefix(lines, y, b);
        } else {
          var y := after.order[j];
          assert y !in before.problems && y in after.problems;
          NewEntryFirst(lines, y);
          FirstUnique(lines, y, b, n);
        }
      }
    }
  }

  lemma FirstUnique(lines: seq<Line>, pid: string, a: nat, b: nat)
    requires FirstFor(lines, pid, a) && FirstFor(lines, pid, b)
    ensures a == b
  {
  }

  /** A mentioning line is counted. */
  lemma {:induction false} MentionCounted(lines: seq<Line>, pid: string, j: nat)
    requires j < |lines| && Mentions(lines[j], pid)
    ensures Occurrences(lines, pid) > 0
    decreases |lines|
  {
    if j < |lines| - 1 {
      MentionCounted(lines[..|lines| - 1], pid, j);
    }
  }

  /** The output has one record per id that some non-blank line mentions,
      and no id twice. */
  lemma OneRecordPerId(lines: seq<Line>)
    ensures Indexed(Aggregate(lines))
    ensures var out := Written(Aggregate(lines));
      (forall i, j :: 0 <= i < j < |out| ==> out[i].problemId != out[j].problemId)
      && (forall pid :: (exists i :: 0 <= i < |out| && out[i].problemId == pid) <==> Occurrences(lines, pid) > 0)
  {
    var t := Aggregate(lines);
    AggregateWellFormed(lines);
    var out := Written(t);
    forall i | 0 <= i < |out| ensures out[i].problemId == t.order[i] {
    }
    forall pid ensures (exists i :: 0 <= i < |out| && out[i].problemId == pid) <==> Occurrences(lines, pid) > 0 {
      Counts(lines, pid);
      if pid in t.problems {
        var i :| 0 <= i < |t.order| && t.order[i] == pid;
        assert out[i].problemId == pid;
      }
    }
  }
}
