/**
  Incident resolution: the matched fingerprints of a document version are
  collapsed into ranges of fingerprint positions.
 */
module Incidents {
  import opened Wrappers
  import opened Fingerprint

  /** A closed range of fingerprint positions. */
  datatype Range = Range(first: nat, last: nat)

  /** Rows lo..=hi all match and neither neighbour does. */
  ghost predicate IsMaximalRun(rows: seq<Fp>, matched: set<int>, lo: nat, hi: nat) {
    && lo <= hi < |rows|
    && (forall i :: lo <= i <= hi ==> rows[i].hash in matched)
    && (lo > 0 ==> rows[lo - 1].hash !in matched)
    && (hi + 1 < |rows| ==> rows[hi + 1].hash !in matched)
  }

  /** runs lists every maximal run of matched rows, in row order. */
  ghost predicate AreMaximalRuns(rows: seq<Fp>, matched: set<int>, runs: seq<Range>) {
    && (forall r :: 0 <= r < |runs| ==> IsMaximalRun(rows, matched, runs[r].first, runs[r].last))
    && (forall q, r :: 0 <= q < r < |runs| ==> runs[q].last < runs[r].first)
    && (forall i {:trigger Covered(runs, i)} :: 0 <= i < |rows| && rows[i].hash in matched ==> Covered(runs, i))
  }

  ghost predicate Covered(runs: seq<Range>, i: int) {
    exists r :: 0 <= r < |runs| && runs[r].first <= i <= runs[r].last
  }

  /** The position ranges of runs given by row index. */
  function Positions(rows: seq<Fp>, runs: seq<Range>): (p: seq<Range>)
    requires forall r :: 0 <= r < |runs| ==> runs[r].first < |rows| && runs[r].last < |rows|
  {
    seq(|runs|, r requires 0 <= r < |runs| => Range(rows[runs[r].first].pos, rows[runs[r].last].pos))
  }

  /** The loop state between two rows: the closed runs plus the open one. */
  ghost predicate RunsSoFar(rows: seq<Fp>, matched: set<int>, n: nat, closed: seq<Range>, open: Option<Range>) {
    && n <= |rows|
    && (forall r :: 0 <= r < |closed| ==> IsMaximalRun(rows, matched, closed[r].first, closed[r].last)
                                          && closed[r].last + 1 < n)
    && (forall q, r :: 0 <= q < r < |closed| ==> closed[q].last < closed[r].first)
    && (open.None? && n > 0 ==> rows[n - 1].hash !in matched)
    && (open.Some? ==>
          && open.value.first <= open.value.last == n - 1
          && (forall i :: open.value.first <= i < n ==> rows[i].hash in matched)
          && (open.value.first > 0 ==> rows[open.value.first - 1].hash !in matched)
          && (forall r :: 0 <= r < |closed| ==> closed[r].last < open.value.first))
    && (forall i {:trigger Covered(closed, i)} :: 0 <= i < n && rows[i].hash in matched ==>
          Covered(closed, i) || (open.Some? && open.value.first <= i))
  }

  /** The ranges are the positions of the maximal runs, in order. */
  ghost predicate IsCollapse(rows: seq<Fp>, matched: set<int>, ranges: seq<Range>) {
    exists runs :: AreMaximalRuns(rows, matched, runs) && ranges == Positions(rows, runs)
  }

  method CollapseSeqRanges(rows: seq<Fp>, matched: set<int>) returns (ranges: seq<Range>)
    ensures IsCollapse(rows, matched, ranges)
  {
    ranges := [];
    ghost var runs: seq<Range> := [];
    var start: Option<nat> := None;
    var last: Option<nat> := None;
    ghost var open: Option<Range> := None;
    hide RunsSoFar, AreMaximalRuns;
    NoRunsYet(rows, matched);
    for n := 0 to |rows|
      invariant RunsSoFar(rows, matched, n, runs, open)
      invariant forall r :: 0 <= r < |runs| ==> runs[r].first < |rows| && runs[r].last < |rows|
      invariant open.Some? ==> open.value.first <= open.value.last == n - 1
      invariant ranges == Positions(rows, runs)
      invariant start.Some? <==> open.Some?
      invariant open.Some? ==> start == Some(rows[open.value.first].pos) && last == Some(rows[n - 1].pos)
    {
      if rows[n].hash in matched {
        StepMatched(rows, matched, n, runs, open);
        open := Some(if open.None? then Range(n, n) else Range(open.value.first, n));
        if start.None? {
          start := Some(rows[n].pos);
        }
        last := Some(rows[n].pos);
      } else {
        StepUnmatched(rows, matched, n, runs, open);
        if start.Some? {
          ranges := ranges + [Range(start.value, last.value)];
          runs := runs + [open.value];
          start := None;
          open := None;
        }
      }
    }
    AllRuns(rows, matched, runs, open);
    if start.Some? {
      ranges := ranges + [Range(start.value, last.value)];
      runs := runs + [open.value];
    }
    assert AreMaximalRuns(rows, matched, runs);
  }

  lemma NoRunsYet(rows: seq<Fp>, matched: set<int>)
    ensures RunsSoFar(rows, matched, 0, [], None)
  {
  }

  /** After the last row the open run, if any, is one more maximal run. */
  lemma AllRuns(rows: seq<Fp>, matched: set<int>, closed: seq<Range>, open: Option<Range>)
    requires RunsSoFar(rows, matched, |rows|, closed, open)
    ensures AreMaximalRuns(rows, matched, if open.Some? then closed + [open.value] else closed)
  {
    if open.Some? {
      CloseRun(rows, matched, |rows|, closed, open);
    }
  }

  lemma StepMatched(rows: seq<Fp>, matched: set<int>, n: nat, closed: seq<Range>, open: Option<Range>)
    requires n < |rows| && RunsSoFar(rows, matched, n, closed, open) && rows[n].hash in matched
    ensures RunsSoFar(rows, matched, n + 1, closed,
                      Some(if open.None? then Range(n, n) else Range(open.value.first, n)))
  {
  }

  /** Closing the open run keeps the runs found so far. */
  lemma CloseRun(rows: seq<Fp>, matched: set<int>, n: nat, closed: seq<Range>, open: Option<Range>)
    requires RunsSoFar(rows, matched, n, closed, open) && open.Some?
    requires n < |rows| ==> rows[n].hash !in matched
    ensures var runs := closed + [open.value];
            && (forall r :: 0 <= r < |runs| ==> IsMaximalRun(rows, matched, runs[r].first, runs[r].last)
                                                && runs[r].last < n)
            && (forall q, r :: 0 <= q < r < |runs| ==> runs[q].last < runs[r].first)
            && (forall i {:trigger Covered(runs, i)} :: 0 <= i < n && rows[i].hash in matched ==> Covered(runs, i))
  {
    CoverageGrows(closed, open.value);
  }

  lemma {:induction false} StepUnmatched(rows: seq<Fp>, matched: set<int>, n: nat,
                                                closed: seq<Range>, open: Option<Range>)
    requires n < |rows| && RunsSoFar(rows, matched, n, closed, open) && rows[n].hash !in matched
    ensures RunsSoFar(rows, matched, n + 1, if open.Some? then closed + [open.value] else closed, None)
  {
    if open.Some? {
      CloseRun(rows, matched, n, closed, open);
    }
  }

  lemma CoverageGrows(runs: seq<Range>, r: Range)
    ensures forall i {:trigger Covered(runs + [r], i)} ::
              Covered(runs, i) || r.first <= i <= r.last ==> Covered(runs + [r], i)
  {
    forall i | Covered(runs, i) || r.first <= i <= r.last
      ensures Covered(runs + [r], i)
    {
      var longer := runs + [r];
      if Covered(runs, i) {
        var x :| 0 <= x < |runs| && runs[x].first <= i <= runs[x].last;
        assert longer[x] == runs[x];
      } else {
        assert longer[|runs|] == r;
      }
    }
  }

  /** The list of maximal runs is determined by the rows and the matched set. */
  lemma MaximalRunsUnique(rows: seq<Fp>, matched: set<int>, a: seq<Range>, b: seq<Range>)
    requires AreMaximalRuns(rows, matched, a) && AreMaximalRuns(rows, matched, b)
    ensures a == b
  {
    SamePrefix(rows, matched, a, b, |a|);
    SamePrefix(rows, matched, b, a, |b|);
  }

  lemma {:induction false} SamePrefix(rows: seq<Fp>, matched: set<int>, a: seq<Range>, b: seq<Range>, n: nat)
    requires AreMaximalRuns(rows, matched, a) && AreMaximalRuns(rows, matched, b) && n <= |a|
    ensures n <= |b| && a[..n] == b[..n]
  {
    if n > 0 {
      SamePrefix(rows, matched, a, b, n - 1);
      var x := SameRun(rows, matched, a, b, n - 1);
      assert forall z :: 0 <= z < n - 1 ==> a[z] == a[..n - 1][z] == b[z];
      var y := SameRun(rows, matched, b, a, n - 1);
    }
  }

  /** Every maximal run of one list occurs in the other. */
  lemma SameRun(rows: seq<Fp>, matched: set<int>, a: seq<Range>, b: seq<Range>, i: nat) returns (x: nat)
    requires AreMaximalRuns(rows, matched, a) && AreMaximalRuns(rows, matched, b) && i < |a|
    ensures x < |b| && b[x] == a[i]
  {
    assert Covered(b, a[i].first);
    x :| 0 <= x < |b| && b[x].first <= a[i].first <= b[x].last;
    assert b[x].first == a[i].first;
    assert b[x].last == a[i].last;
  }

  /** A row of an ascending list lies between two others exactly when its position does. */
  lemma PositionOrder(rows: seq<Fp>, lo: nat, i: nat, hi: nat)
    requires Ascending(rows) && lo < |rows| && i < |rows| && hi < |rows|
    ensures rows[lo].pos <= rows[i].pos <= rows[hi].pos <==> lo <= i <= hi
  {
  }

  /** On rows in ascending position order a row's position lies in a range
      exactly when its hash is matched. */
  lemma RangesMeanMatched(rows: seq<Fp>, matched: set<int>, runs: seq<Range>, i: nat)
    requires Ascending(rows) && AreMaximalRuns(rows, matched, runs) && i < |rows|
    ensures Covered(Positions(rows, runs), rows[i].pos) <==> rows[i].hash in matched
  {
    var ranges := Positions(rows, runs);
    if rows[i].hash in matched {
      assert Covered(runs, i);
      var r :| 0 <= r < |runs| && runs[r].first <= i <= runs[r].last;
      PositionOrder(rows, runs[r].first, i, runs[r].last);
      assert ranges[r].first <= rows[i].pos <= ranges[r].last;
    }
    if Covered(ranges, rows[i].pos) {
      var r :| 0 <= r < |ranges| && ranges[r].first <= rows[i].pos <= ranges[r].last;
      PositionOrder(rows, runs[r].first, i, runs[r].last);
    }
  }

  /** On rows in ascending position order the ranges are disjoint and ascending. */
  lemma RangesAscend(rows: seq<Fp>, matched: set<int>, runs: seq<Range>, q: nat, r: nat)
    requires Ascending(rows) && AreMaximalRuns(rows, matched, runs) && q < r < |runs|
    ensures var ranges := Positions(rows, runs);
            ranges[q].first <= ranges[q].last < ranges[r].first <= ranges[r].last
  {
    assert rows[runs[q].last].pos < rows[runs[r].first].pos;
  }

  /** Ranges cannot be merged: between two consecutive ranges lies the position
      of a row whose hash is not matched. */
  lemma RangesAreMaximal(rows: seq<Fp>, matched: set<int>, runs: seq<Range>, r: nat) returns (i: nat)
    requires Ascending(rows) && AreMaximalRuns(rows, matched, runs) && r + 1 < |runs|
    ensures i < |rows| && rows[i].hash !in matched
    ensures Positions(rows, runs)[r].last < rows[i].pos < Positions(rows, runs)[r + 1].first
  {
    i := runs[r].last + 1;
    assert rows[runs[r + 1].first].hash in matched;
  }

  lemma RunsOf(rows: seq<Fp>, matched: set<int>, ranges: seq<Range>) returns (runs: seq<Range>)
    requires IsCollapse(rows, matched, ranges)
    ensures AreMaximalRuns(rows, matched, runs) && ranges == Positions(rows, runs)
  {
    runs :| AreMaximalRuns(rows, matched, runs) && ranges == Positions(rows, runs);
  }

  /** What collapsing yields on rows in ascending position order: disjoint ascending
      ranges that cover exactly the matched rows, and only one such answer. */
  lemma CollapseIsExact(rows: seq<Fp>, matched: set<int>, ranges: seq<Range>, other: seq<Range>)
    requires Ascending(rows) && IsCollapse(rows, matched, ranges) && IsCollapse(rows, matched, other)
    ensures other == ranges
    ensures forall i {:trigger rows[i]} :: 0 <= i < |rows| ==>
              (Covered(ranges, rows[i].pos) <==> rows[i].hash in matched)
    ensures forall q, r :: 0 <= q < r < |ranges| ==> ranges[q].first <= ranges[q].last < ranges[r].first
  {
    var runs := RunsOf(rows, matched, ranges);
    var same := RunsOf(rows, matched, other);
    MaximalRunsUnique(rows, matched, runs, same);
    hide Covered, IsMaximalRun, Ascending, IsCollapse;
    forall i | 0 <= i < |rows|
      ensures Covered(ranges, rows[i].pos) <==> rows[i].hash in matched
    {
      RangesMeanMatched(rows, matched, runs, i);
    }
    forall q, r | 0 <= q < r < |ranges|
      ensures ranges[q].first <= ranges[q].last < ranges[r].first
    {
      RangesAscend(rows, matched, runs, q, r);
    }
  }

  /** End to end: the ranges reported for a winnowed document cover exactly the
      recorded fingerprints that were matched. */
  lemma WinnowedRanges(hashes: seq<int>, w: nat, rows: seq<Fp>, matched: set<int>, runs: seq<Range>, m: nat)
    requires w >= 1 && IsWinnowing(hashes, w, rows) && AreMaximalRuns(rows, matched, runs)
    requires Recorded(Unsigned(hashes), w, m)
    ensures m < |hashes| && (Covered(Positions(rows, runs), m) <==> hashes[m] in matched)
  {
    assert RecordsAt(rows, m);
    var i :| 0 <= i < |rows| && rows[i].pos == m;
    RangesMeanMatched(rows, matched, runs, i);
  }
}
