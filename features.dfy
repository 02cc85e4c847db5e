/**
 * `extract_features` of FeatureExtractor.py: the fixed-key record built for
 * one problem from its cleaned statement.
 */
module Features {
  import opened Strings
  import opened NumberParsing
  import opened RangeExtraction
  import opened Limits
  import opened Binning
  import opened VariableDiscovery
  import opened OperationCounting

  /** The record of lines 102-124; each bucket count is held under its bucket. */
  datatype Features = Features(
    problemId: string,
    problemUrl: string,
    timeLimit: Option<nat>,
    memoryLimit: Option<nat>,
    wordCount: nat,
    numNumbers: nat,
    numOperations: nat,
    numUniqueVariables: nat,
    bins: map<Bin, nat>,
    tags: seq<string>,
    complexityCounts: map<string, nat>)

  const AllBins: set<Bin> := {UpTo26, UpTo500, UpTo5000, UpToMillion, Large}

  /** Line 104, for an id with an underscore. */
  function ProblemUrl(problemId: string): (url: string)
    requires '_' in problemId
  {
    SplitCharPieces(problemId, '_');
    var parts := Split(problemId, "_");
    "https://codeforces.com/contest/" + parts[0] + "/problem/" + parts[1]
  }

  /** The variable names handed to the range scanner: each letter found, as a string. */
  function VariableNames(text: string): (names: set<string>)
    ensures forall v :: v in names ==> |v| == 1 && IsAsciiLetter(v[0]) && v[0] in ExtractVariables(text)
  {
    set c | c in ExtractVariables(text) :: [c]
  }

  /** The ranges of line 114. */
  function Ranges(text: string, ops: FloatOps): map<string, Range> {
    RecordAll(Constraints(Matches(text), NumberParser(ops)), VariableNames(text))
  }

  /** Lines 41-59 on `1 ≤ n, m ≤ 5`: both listed variables get the range
      from 1 to 5, of size 5. */
  lemma SharedBoundsRecorded(ops: FloatOps)
    ensures RecordAll(Constraints(Matches(SharedBounds), NumberParser(ops)), {"n", "m"})
            == map["n" := Range(1, 5, 5), "m" := Range(1, 5, 5)]
  {
    SharedBoundsMatched();
    OneConstraintRecorded(ops);
  }

  lemma OneConstraintRecorded(ops: FloatOps)
    ensures RecordAll(Constraints([RangeMatch("1", "n, m", "5")], NumberParser(ops)), {"n", "m"})
            == map["n" := Range(1, 5, 5), "m" := Range(1, 5, 5)]
  {
    SharedConstraint(ops);
    SharedRecord();
  }

  lemma SharedConstraint(ops: FloatOps)
    ensures Constraints([RangeMatch("1", "n, m", "5")], NumberParser(ops))
            == [Constraint(Some(Range(1, 5, 5)), ["n", "m"])]
  {
    SmallLiterals(ops);
    SplitAtComma('n', 'm');
    assert ['n', ',', ' ', 'm'] == "n, m";
  }

  lemma SharedRecord()
    ensures RecordAll([Constraint(Some(Range(1, 5, 5)), ["n", "m"])], {"n", "m"})
            == map["n" := Range(1, 5, 5), "m" := Range(1, 5, 5)]
  {
    var c := Constraint(Some(Range(1, 5, 5)), ["n", "m"]);
    assert [c][..0] == [];
    assert ["n", "m"][..1] == ["n"] && ["n"][..0] == [];
    assert RecordVars(map[], ["n"], {"n", "m"}, Range(1, 5, 5)) == map["n" := Range(1, 5, 5)];
  }

  lemma SmallLiterals(ops: FloatOps)
    ensures ParseNumber("1", ops) == Some(1) && ParseNumber("5", ops) == Some(5)
  {
    DigitLiteral('1', ops);
    DigitLiteral('5', ops);
  }

  /** A one-digit literal reads as its digit. */
  lemma DigitLiteral(d: char, ops: FloatOps)
    requires IsDigit(d)
    ensures ParseNumber([d], ops) == Some(d as int - '0' as int)
  {
    assert "" + [d] == [d];
    assert [d][..0] == [];
    IntegerLiteral("", [d], ops);
  }

  /** The variables of `ranges` whose size falls into bucket `b`. */
  function InBin(ranges: map<string, Range>, keys: set<string>, b: Bin): set<string> {
    set v | v in keys && v in ranges && BinOf(ranges[v].size) == b
  }

  function BinTotal(bins: map<Bin, nat>): nat
    requires AllBins <= bins.Keys
  {
    bins[UpTo26] + bins[UpTo500] + bins[UpTo5000] + bins[UpToMillion] + bins[Large]
  }

  /** `extract_features(problem_id, cleaned_text, tags, complexity_counts)`.
      The float operations stand for `int(float(...))` inside `parse_number`. */
  method ExtractFeatures(problemId: string, text: string, tags: seq<string>,
                         complexityCounts: map<string, nat>, ops: FloatOps)
    returns (f: Features)
    requires '_' in problemId
    ensures f.problemId == problemId && f.tags == tags && f.complexityCounts == complexityCounts
    ensures f.problemUrl == ProblemUrl(problemId)
    ensures f.timeLimit == ExtractTimeLimit(text) && f.memoryLimit == ExtractMemoryLimit(text)
    ensures f.wordCount == |Runs(text, NotSpace)| && f.numNumbers == |Runs(text, IsDigit)|
    ensures f.numOperations == TotalCount(text, Operations)
    ensures f.numUniqueVariables == |ExtractVariables(text)|
    ensures f.bins.Keys == AllBins
    ensures forall b :: b in f.bins ==> f.bins[b] == |InBin(Ranges(text, ops), Ranges(text, ops).Keys, b)|
    ensures BinTotal(f.bins) == |Ranges(text, ops)|
  {
    var url := ProblemUrl(problemId);
    var timeLimit := ExtractTimeLimit(text);
    var memoryLimit := ExtractMemoryLimit(text);
    var numOperations := CountOperations(text, Operations);
    var uniqueVars := ExtractVariables(text);
    var ranges := ExtractVariableRanges(text, VariableNames(text), NumberParser(ops));

    var bins := CountBins(ranges);
    f := Features(problemId, url, timeLimit, memoryLimit, |Runs(text, NotSpace)|, |Runs(text, IsDigit)|,
                  numOperations, |uniqueVars|, bins, tags, complexityCounts);
  }

  /** `bins` holds, per bucket, how many of the variables in `keys` fall into it. */
  predicate Counted(ranges: map<string, Range>, keys: set<string>, bins: map<Bin, nat>) {
    && bins.Keys == AllBins
    && (forall b :: b in bins ==> bins[b] == |InBin(ranges, keys, b)|)
    && BinTotal(bins) == |keys|
  }

  /** Lines 116-121: one counter per bucket, incremented once per range. */
  method CountBins(ranges: map<string, Range>) returns (bins: map<Bin, nat>)
    ensures bins.Keys == AllBins
    ensures forall b :: b in bins ==> bins[b] == |InBin(ranges, ranges.Keys, b)|
    ensures BinTotal(bins) == |ranges|
  {
    bins := map[UpTo26 := 0, UpTo500 := 0, UpTo5000 := 0, UpToMillion := 0, Large := 0];
    var todo := ranges.Keys;
    ghost var done: set<string> := {};
    while todo != {}
      invariant todo + done == ranges.Keys && todo !! done
      invariant Counted(ranges, done, bins)
      decreases |todo|
    {
      todo, done, bins := CountOne(ranges, todo, done, bins);
    }
  }

  /** One turn of the counting loop: one more range put in its bucket. */
  method CountOne(ranges: map<string, Range>, todo: set<string>, ghost done: set<string>, bins: map<Bin, nat>)
    returns (todo': set<string>, ghost done': set<string>, bins': map<Bin, nat>)
    requires todo != {} && todo + done == ranges.Keys && todo !! done
    requires Counted(ranges, done, bins)
    ensures todo' + done' == ranges.Keys && todo' !! done' && |todo'| < |todo|
    ensures Counted(ranges, done', bins')
  {
    var v :| v in todo;
    var b := ComputeBin(ranges[v].size);
    StepKeepsCount(ranges, todo, done, bins, v, b);
    todo', done', bins' := todo - {v}, done + {v}, bins[b := bins[b] + 1];
  }

  /** Moving `v` from `todo` to `done` and counting it in its bucket `b`
      keeps the partition and the counts. */
  lemma StepKeepsCount(ranges: map<string, Range>, todo: set<string>, done: set<string>, bins: map<Bin, nat>, v: string, b: Bin)
    requires v in todo && todo + done == ranges.Keys && todo !! done
    requires Counted(ranges, done, bins) && b == BinOf(ranges[v].size)
    ensures b in bins
    ensures (todo - {v}) + (done + {v}) == ranges.Keys && (todo - {v}) !! (done + {v}) && |todo - {v}| < |todo|
    ensures Counted(ranges, done + {v}, bins[b := bins[b] + 1])
  {
    MoveOne(ranges.Keys, todo, done, v);
    CountStep(ranges, done, v, bins);
  }

  lemma MoveOne<T>(all: set<T>, todo: set<T>, done: set<T>, v: T)
    requires v in todo && todo + done == all && todo !! done
    ensures (todo - {v}) + (done + {v}) == all && (todo - {v}) !! (done + {v}) && |todo - {v}| < |todo|
  {
  }

  /** Counting one more range keeps the counts right. */
  lemma CountStep(ranges: map<string, Range>, done: set<string>, v: string, bins: map<Bin, nat>)
    requires v in ranges && v !in done
    requires Counted(ranges, done, bins)
    ensures Counted(ranges, done + {v}, bins[BinOf(ranges[v].size) := bins[BinOf(ranges[v].size)] + 1])
  {
    var b := BinOf(ranges[v].size);
    InBinAdd(ranges, done, v);
    BinTotalIncrement(bins, b);
  }

  lemma BinTotalIncrement(bins: map<Bin, nat>, b: Bin)
    requires bins.Keys == AllBins
    ensures BinTotal(bins[b := bins[b] + 1]) == BinTotal(bins) + 1
  {
  }

  /** Adding one more variable adds it to its own bucket only. */
  lemma InBinAdd(ranges: map<string, Range>, keys: set<string>, v: string)
    requires v in ranges && v !in keys
    ensures forall b :: |InBin(ranges, keys + {v}, b)| == |InBin(ranges, keys, b)| + (if BinOf(ranges[v].size) == b then 1 else 0)
  {
    forall b ensures |InBin(ranges, keys + {v}, b)| == |InBin(ranges, keys, b)| + (if BinOf(ranges[v].size) == b then 1 else 0) {
      if BinOf(ranges[v].size) == b {
        assert InBin(ranges, keys + {v}, b) == InBin(ranges, keys, b) + {v};
      } else {
        assert InBin(ranges, keys + {v}, b) == InBin(ranges, keys, b);
      }
    }
  }

  // ---------------------------------------------------------------------
  // Properties

  /** The five bucket counts add up to the number of ranges, whatever the text. */
  lemma {:induction false} BucketsPartitionRanges(ranges: map<string, Range>, keys: set<string>)
    requires keys <= ranges.Keys
    ensures |InBin(ranges, keys, UpTo26)| + |InBin(ranges, keys, UpTo500)| + |InBin(ranges, keys, UpTo5000)|
          + |InBin(ranges, keys, UpToMillion)| + |InBin(ranges, keys, Large)| == |keys|
    decreases |keys|
  {
    if keys != {} {
      var v :| v in keys;
      var rest := keys - {v};
      BucketsPartitionRanges(ranges, rest);
      InBinAdd(ranges, rest, v);
      assert rest + {v} == keys;
    }
  }

  /** The url is built from the two parts around the underscore. */
  lemma UrlOfContestAndIndex(contest: string, index: string)
    requires '_' !in contest && '_' !in index
    ensures ProblemUrl(contest + "_" + index) == "https://codeforces.com/contest/" + contest + "/problem/" + index
  {
    var id := contest + "_" + index;
    assert id[|contest|] == '_';
    assert Split(id, "_") == [contest, index] by {
      SplitOnFirst(id, contest, index);
    }
  }

  lemma SplitOnFirst(id: string, contest: string, index: string)
    requires id == contest + "_" + index && '_' !in contest && '_' !in index
    ensures Split(id, "_") == [contest, index]
  {
    var n := |contest|;
    forall k: nat | k < n ensures !OccursAt(id, "_", k) {
      assert id[k..k + 1][0] == contest[k];
    }
    assert OccursAt(id, "_", n) by { assert id[n..n + 1] == "_"; }
    assert Find(id, "_", 0) == Some(n);
    assert id[..n] == contest;
    assert id[n + 1..] == index;
    forall k: nat | k < |index| ensures !OccursAt(index, "_", k) {
      assert index[k..k + 1][0] == index[k];
    }
    assert Find(index, "_", 0) == None;
  }

  /** Collapsing the whitespace of a text keeps its word count. */
  lemma CollapseKeepsWordCount(text: string)
    ensures |Runs(Collapse(text), NotSpace)| == |Runs(text, NotSpace)|
  {
    var ws := Runs(text, NotSpace);
    assert SpaceFreeWords(ws) by {
      forall i | 0 <= i < |ws| ensures ws[i] != [] && forall k :: 0 <= k < |ws[i]| ==> !IsSpace(ws[i][k]) {
        assert ws[i] in ws;
      }
    }
    RunsOfJoinedWords(ws);
  }
}
