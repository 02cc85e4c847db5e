/**
 * `compute_bin` and the `BINS` table of FeatureExtractor.py: a range size is
 * put in one of five buckets by scanning the table with a running lower
 * bound.
 */
module Binning {

  /** The five buckets of `BINS`, in table order. */
  datatype Bin = UpTo26 | UpTo500 | UpTo5000 | UpToMillion | Large

  /** The bucket's name, the key `extract_features` counts it under. */
  function Name(b: Bin): (name: string)
    ensures |name| >= 7 && name[..4] == "bin_"
  {
    match b
    case UpTo26 => "bin_\U{2264}26"
    case UpTo500 => "bin_27_500"
    case UpTo5000 => "bin_501_5000"
    case UpToMillion => "bin_5001_1e6"
    case Large => "bin_large"
  }

  /** An upper bound of the table; `Infinity` stands for `float('inf')`. */
  datatype Bound = Finite(n: int) | Infinity

  predicate AtMost(v: int, b: Bound) { b.Infinity? || v <= b.n }
  predicate Above(v: int, b: Bound) { b.Finite? && v > b.n }

  datatype Entry = Entry(bin: Bin, upper: Bound)

  /** `BINS`, lines 6-12. */
  const Table: seq<Entry> := [
    Entry(UpTo26, Finite(26)),
    Entry(UpTo500, Finite(500)),
    Entry(UpTo5000, Finite(5000)),
    Entry(UpToMillion, Finite(1000000)),
    Entry(Large, Infinity)
  ]

  /** The running `lower` when entry `k` is examined. */
  function LowerBound(k: nat): Bound
    requires k < |Table|
  {
    if k == 0 then Finite(0) else Table[k - 1].upper
  }

  /** Does entry `k` accept size `v`? (the test of line 74) */
  predicate Accepts(k: nat, v: int)
    requires k < |Table|
  {
    AtMost(v, Table[k].upper) && Above(v, LowerBound(k))
  }

  /** The bucket of a size, written as the intervals the table describes;
      a size of zero or less is accepted by no entry and falls through. */
  function BinOf(v: int): Bin {
    if v <= 0 then Large
    else if v <= 26 then UpTo26
    else if v <= 500 then UpTo500
    else if v <= 5000 then UpTo5000
    else if v <= 1000000 then UpToMillion
    else Large
  }

  /** `compute_bin(range_val)`, lines 71-77. */
  method ComputeBin(v: int) returns (b: Bin)
    ensures b == BinOf(v)
    ensures v >= 1 ==> exists k :: 0 <= k < |Table| && Accepts(k, v) && Table[k].bin == b
  {
    var lower := Finite(0);
    var i := 0;
    while i < |Table|
      invariant 0 <= i <= |Table|
      invariant i < |Table| ==> lower == LowerBound(i)
      invariant forall k :: 0 <= k < i ==> !Accepts(k, v)
    {
      var e := Table[i];
      if AtMost(v, e.upper) && Above(v, lower) {
        TableMatchesBinOf(i, v);
        return e.bin;
      }
      lower := e.upper;
      i := i + 1;
    }
    NoEntryAccepts(v);
    return Large;
  }

  /** Whenever entry `k` accepts `v`, its bucket is the one of `BinOf`. */
  lemma TableMatchesBinOf(k: nat, v: int)
    requires k < |Table| && Accepts(k, v)
    ensures Table[k].bin == BinOf(v)
  {
  }

  /** When the scan falls through, `v` is not positive, and `BinOf` says `Large`. */
  lemma NoEntryAccepts(v: int)
    requires forall k :: 0 <= k < |Table| ==> !Accepts(k, v)
    ensures v <= 0 && BinOf(v) == Large
  {
    Partition(v);
  }

  /** The entries partition the positive sizes: exactly one accepts each. */
  lemma Partition(v: int)
    ensures v >= 1 ==> exists k :: 0 <= k < |Table| && Accepts(k, v)
    ensures forall j, k :: 0 <= j < |Table| && 0 <= k < |Table| && Accepts(j, v) && Accepts(k, v) ==> j == k
    ensures v <= 0 ==> forall k :: 0 <= k < |Table| ==> !Accepts(k, v)
  {
    if v >= 1 {
      if v <= 26 { assert Accepts(0, v); }
      else if v <= 500 { assert Accepts(1, v); }
      else if v <= 5000 { assert Accepts(2, v); }
      else if v <= 1000000 { assert Accepts(3, v); }
      else { assert Accepts(4, v); }
    }
  }

  /** The five names are pairwise different, so counting by bucket and
      counting by name agree. */
  lemma NamesDistinct(a: Bin, b: Bin)
    ensures Name(a) == Name(b) <==> a == b
  {
    if a != b {
      var na, nb := Name(a), Name(b);
      assert na[4] != nb[4] || na[5] != nb[5] || na[6] != nb[6];
    }
  }
}
