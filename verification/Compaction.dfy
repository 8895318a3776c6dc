/** Counting files: which are query-visible, and how many calls compaction needs. */
module Compaction {
  import opened Basics
  import opened SegmentRows
  import opened StorageModel
  import opened StorageInvariant

  function VisibleFiles(files: seq<ParquetFile>): set<nat> {
    set f: nat | f < |files| && files[f].Visible()
  }

  /** File names sort the flushed files before the merged ones, each kind in order of creation, given
      that no two files of a kind are named in the same microsecond. */
  predicate NameBefore(files: seq<ParquetFile>, f: nat, g: nat)
    requires f < |files| && g < |files|
  {
    if files[f].merged == files[g].merged then f < g else files[g].merged
  }

  /** The query-visible files in the order of their names. */
  ghost predicate Listing(files: seq<ParquetFile>, names: seq<nat>) {
    && (forall f: nat :: f in names <==> f < |files| && files[f].Visible())
    && (forall k :: 0 <= k < |names| ==> names[k] < |files|)
    && (forall j, k :: 0 <= j < k < |names| ==> NameBefore(files, names[j], names[k]))
  }

  lemma ListingIsDistinct(files: seq<ParquetFile>, names: seq<nat>)
    requires Listing(files, names)
    ensures Distinct(names) && AllFinal(files, names) && AllCommitted(files, names)
    ensures |names| == |VisibleFiles(files)|
  {
    forall k | 0 <= k < |names| ensures files[names[k]].Visible() { assert names[k] in names; }
    forall j, k | 0 <= j < k < |names| ensures names[j] != names[k] { assert NameBefore(files, names[j], names[k]); }
    DistinctSize(names);
    var listed := SetOf(names);
    assert listed == VisibleFiles(files);
  }

  /** The chosen files are retired, those that could be unlinked are gone from disk, and one new file
      holds their rows, one file after the other. */
  predicate MergedInto(was: seq<ParquetFile>, now: seq<ParquetFile>, chosen: seq<nat>, total: nat,
                       unlinkOk: nat -> bool)
    requires AllFinal(was, chosen)
  {
    && total == |Joined(was, chosen)|
    && |now| == |was| + 1 && now[|was|] == ParquetFile(Final(Joined(was, chosen)), Committed(total), true)
    && (forall g :: 0 <= g < |was| && g !in chosen ==> now[g] == was[g])
    && (forall g :: 0 <= g < |was| && g in chosen ==>
          && was[g].entry.Committed?
          && now[g] == ParquetFile(if unlinkOk(g) then Absent else was[g].content, Compacted(was[g].entry.count),
                                   was[g].merged))
  }

  /** Merging replaces the chosen files by one. */
  lemma MergeCount(was: seq<ParquetFile>, now: seq<ParquetFile>, chosen: seq<nat>, total: nat,
                   unlinkOk: nat -> bool)
    requires Distinct(chosen) && AllFinal(was, chosen) && AllCommitted(was, chosen)
    requires MergedInto(was, now, chosen, total, unlinkOk)
    ensures |VisibleFiles(now)| == |VisibleFiles(was)| - |chosen| + 1
  {
    forall g | g in chosen ensures g < |was| && was[g].Visible() {
      var k :| 0 <= k < |chosen| && chosen[k] == g;
    }
    var retired := SetOf(chosen);
    DistinctSize(chosen);
    assert VisibleFiles(now) == VisibleFiles(was) - retired + {|was|};
    assert retired <= VisibleFiles(was);
  }

  /** The chosen files that could be unlinked are gone, and nothing else has changed. */
  predicate Unlinked(was: seq<ParquetFile>, now: seq<ParquetFile>, chosen: seq<nat>, unlinkOk: nat -> bool) {
    && |now| == |was|
    && forall g :: 0 <= g < |was| ==>
         now[g] == if g in chosen && unlinkOk(g) then was[g].(content := Absent) else was[g]
  }

  lemma MergedAndUnlinked(was: seq<ParquetFile>, mid: seq<ParquetFile>, now: seq<ParquetFile>, chosen: seq<nat>,
                          total: nat, unlinkOk: nat -> bool)
    requires AllFinal(was, chosen) && AllCommitted(was, chosen) && total == |Joined(was, chosen)|
    requires mid == Retire(was + [ParquetFile(Final(Joined(was, chosen)), Committed(total), true)], chosen)
    requires Unlinked(mid, now, chosen, unlinkOk)
    ensures MergedInto(was, now, chosen, total, unlinkOk)
  {
    forall g | g in chosen ensures g < |was| && was[g].entry.Committed? {
      var k :| 0 <= k < |chosen| && chosen[k] == g;
    }
  }

  /** How many files remain after a call that merges up to `m` of `n`. */
  function AfterCall(n: nat, m: nat): nat {
    if n <= 1 || m == 0 then n else n - (if n < m then n else m) + 1
  }

  function Calls(n: nat, m: nat): nat
    requires m >= 2
    decreases n
  {
    if n <= 1 then 0 else 1 + Calls(AfterCall(n, m), m)
  }

  /** `n` files reach one file in exactly ceil((n - 1) / (m - 1)) calls: that many calls can take
      away `n - 1` files, `m - 1` at a time, and one call less cannot. */
  lemma {:induction false} CallsIsCeiling(n: nat, m: nat)
    requires m >= 2 && n >= 1
    ensures n - 1 <= Calls(n, m) * (m - 1)
    ensures n > 1 ==> (Calls(n, m) - 1) * (m - 1) < n - 1
    decreases n
  {
    if n > m {
      var c := Calls(n - (m - 1), m);
      CallsIsCeiling(n - (m - 1), m);
      assert Calls(n, m) == c + 1;
      OneMore(c, m - 1);
      if c > 0 { OneMore(c - 1, m - 1); }
    } else if n > 1 {
      assert Calls(n, m) == 1 + Calls(1, m) == 1;
    }
  }

  lemma OneMore(c: nat, d: nat)
    ensures (c + 1) * d == c * d + d
  {
  }
}
