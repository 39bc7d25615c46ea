/**
 * Gap detection: the per-line "is pure colour" verdicts (the standard-deviation
 * test itself is numeric image code and is an input here) are grouped into
 * maximal runs, and each run is reduced to its floor midpoint.
 */
module GapDetector {
  /** A run [start, end] of pure-colour lines, both ends inclusive. */
  datatype GapGroup = GapGroup(start: int, end: int)

  /** Line i lies inside one of the groups. */
  ghost predicate Covered(groups: seq<GapGroup>, i: int) {
    exists k :: 0 <= k < |groups| && groups[k].start <= i <= groups[k].end
  }

  /**
   * groups lists the maximal runs of gap lines of isGap: each group is a
   * non-empty interval of line indices, groups are ascending and separated by
   * at least one non-gap line, and a line is a gap line exactly when some
   * group covers it.
   */
  ghost predicate IsGapRuns(isGap: seq<bool>, groups: seq<GapGroup>) {
    && (forall k :: 0 <= k < |groups| ==> 0 <= groups[k].start <= groups[k].end < |isGap|)
    && (forall k, l :: 0 <= k < l < |groups| ==> groups[k].end + 1 < groups[l].start)
    && (forall i :: 0 <= i < |isGap| ==> (isGap[i] <==> Covered(groups, i)))
  }

  lemma CoveredAppend(groups: seq<GapGroup>, g: GapGroup, i: int)
    ensures Covered(groups + [g], i) <==> Covered(groups, i) || g.start <= i <= g.end
  {
    var gs := groups + [g];
    if Covered(groups, i) {
      var k :| 0 <= k < |groups| && groups[k].start <= i <= groups[k].end;
      assert gs[k] == groups[k];
    }
    if g.start <= i <= g.end {
      assert gs[|groups|] == g;
    }
    if Covered(gs, i) {
      var k :| 0 <= k < |gs| && gs[k].start <= i <= gs[k].end;
      if k < |groups| {
        assert gs[k] == groups[k];
      }
    }
  }

  /** Closing the open run [gapStart, i - 1] turns "covered or in the open run" into "covered". */
  lemma CloseRun(isGap: seq<bool>, groups: seq<GapGroup>, gapStart: int, i: int)
    requires 0 <= gapStart < i <= |isGap|
    requires forall j :: 0 <= j < i ==> (isGap[j] <==> Covered(groups, j) || gapStart <= j)
    ensures forall j :: 0 <= j < i ==> (isGap[j] <==> Covered(groups + [GapGroup(gapStart, i - 1)], j))
  {
    forall j | 0 <= j < i
      ensures isGap[j] <==> Covered(groups + [GapGroup(gapStart, i - 1)], j)
    {
      CoveredAppend(groups, GapGroup(gapStart, i - 1), j);
    }
  }

  /**
   * The state of the scan after the first i lines: the closed groups are the
   * maximal runs found so far, and when a run is open it started at gapStart,
   * after a non-gap line, and has lasted up to line i - 1.
   */
  ghost predicate ScanState(isGap: seq<bool>, i: int, groups: seq<GapGroup>, inGap: bool, gapStart: int) {
    && 0 <= gapStart <= i <= |isGap|
    && (inGap ==> gapStart < i && (gapStart == 0 || !isGap[gapStart - 1]))
    && (!inGap ==> i == 0 || !isGap[i - 1])
    && (forall k :: 0 <= k < |groups| ==> 0 <= groups[k].start <= groups[k].end < i)
    && (forall k, l :: 0 <= k < l < |groups| ==> groups[k].end + 1 < groups[l].start)
    && (|groups| > 0 ==> groups[|groups| - 1].end + 1 < (if inGap then gapStart else i))
    && (forall j :: 0 <= j < i ==> (isGap[j] <==> Covered(groups, j) || (inGap && gapStart <= j)))
  }

  /** A gap line after a non-gap line opens a run. */
  lemma OpenStep(isGap: seq<bool>, i: int, groups: seq<GapGroup>, gapStart: int)
    requires ScanState(isGap, i, groups, false, gapStart)
    requires i < |isGap| && isGap[i]
    ensures ScanState(isGap, i + 1, groups, true, i)
  {
  }

  /** A non-gap line after a gap line closes the run [gapStart, i - 1]. */
  lemma CloseStep(isGap: seq<bool>, i: int, groups: seq<GapGroup>, gapStart: int)
    requires ScanState(isGap, i, groups, true, gapStart)
    requires i < |isGap| && !isGap[i]
    ensures ScanState(isGap, i + 1, groups + [GapGroup(gapStart, i - 1)], false, gapStart)
  {
    CloseRun(isGap, groups, gapStart, i);
    CoveredAppend(groups, GapGroup(gapStart, i - 1), i);
  }

  /** A line that agrees with the current state extends it. */
  lemma KeepStep(isGap: seq<bool>, i: int, groups: seq<GapGroup>, inGap: bool, gapStart: int)
    requires ScanState(isGap, i, groups, inGap, gapStart)
    requires i < |isGap| && isGap[i] == inGap
    ensures ScanState(isGap, i + 1, groups, inGap, gapStart)
  {
  }

  /** At the end of the scan the closed groups, plus the open run if any, are the runs. */
  lemma FinishScan(isGap: seq<bool>, groups: seq<GapGroup>, inGap: bool, gapStart: int)
    requires ScanState(isGap, |isGap|, groups, inGap, gapStart)
    ensures inGap ==> IsGapRuns(isGap, groups + [GapGroup(gapStart, |isGap| - 1)])
    ensures !inGap ==> IsGapRuns(isGap, groups)
  {
    if inGap {
      CloseRun(isGap, groups, gapStart, |isGap|);
    }
  }

  /**
   * The single scan of the detector: a run opens on a non-gap to gap
   * transition, closes on the reverse transition, and a run still open at the
   * end closes at the last line.
   */
  method FindGaps(isGap: seq<bool>) returns (groups: seq<GapGroup>)
    ensures IsGapRuns(isGap, groups)
  {
    groups := [];
    var inGap := false;
    var gapStart := 0;
    for i := 0 to |isGap|
      invariant ScanState(isGap, i, groups, inGap, gapStart)
    {
      if isGap[i] && !inGap {
        OpenStep(isGap, i, groups, gapStart);
        gapStart := i;
        inGap := true;
      } else if !isGap[i] && inGap {
        CloseStep(isGap, i, groups, gapStart);
        groups := groups + [GapGroup(gapStart, i - 1)];
        inGap := false;
      } else {
        KeepStep(isGap, i, groups, inGap, gapStart);
      }
    }
    FinishScan(isGap, groups, inGap, gapStart);
    if inGap {
      groups := groups + [GapGroup(gapStart, |isGap| - 1)];
    }
  }

  /** The first line of every group is a gap line. */
  lemma GroupStartIsGap(isGap: seq<bool>, groups: seq<GapGroup>, k: int)
    requires IsGapRuns(isGap, groups)
    requires 0 <= k < |groups|
    ensures 0 <= groups[k].start < |isGap| && isGap[groups[k].start]
  {
    assert Covered(groups, groups[k].start);
  }

  /** An input without any gap line yields no group. */
  lemma NoGapLineNoGroup(isGap: seq<bool>, groups: seq<GapGroup>)
    requires IsGapRuns(isGap, groups)
    requires forall i :: 0 <= i < |isGap| ==> !isGap[i]
    ensures groups == []
  {
    if groups != [] {
      GroupStartIsGap(isGap, groups, 0);
      assert false;
    }
  }

  /**
   * Detected runs are maximal: the line just before and the line just after
   * every group is not a gap line.
   */
  lemma RunsAreMaximal(isGap: seq<bool>, groups: seq<GapGroup>)
    requires IsGapRuns(isGap, groups)
    ensures forall k :: 0 <= k < |groups| && groups[k].end + 1 < |isGap| ==> !isGap[groups[k].end + 1]
    ensures forall k :: 0 <= k < |groups| && 0 < groups[k].start ==> !isGap[groups[k].start - 1]
  {
    forall k | 0 <= k < |groups| && groups[k].end + 1 < |isGap|
      ensures !isGap[groups[k].end + 1]
    {
      var x := groups[k].end + 1;
      forall l | 0 <= l < |groups|
        ensures !(groups[l].start <= x <= groups[l].end)
      {
        if l < k {
          assert groups[l].end + 1 < groups[k].start;
        } else if k < l {
          assert groups[k].end + 1 < groups[l].start;
        }
      }
    }
    forall k | 0 <= k < |groups| && 0 < groups[k].start
      ensures !isGap[groups[k].start - 1]
    {
      var x := groups[k].start - 1;
      forall l | 0 <= l < |groups|
        ensures !(groups[l].start <= x <= groups[l].end)
      {
        if l < k {
          assert groups[l].end + 1 < groups[k].start;
        } else if k < l {
          assert groups[k].end + 1 < groups[l].start;
        }
      }
    }
  }

  /** An input made only of gap lines yields the one group spanning it. */
  lemma AllGapLinesOneGroup(isGap: seq<bool>, groups: seq<GapGroup>)
    requires IsGapRuns(isGap, groups)
    requires |isGap| > 0 && forall i :: 0 <= i < |isGap| ==> isGap[i]
    ensures groups == [GapGroup(0, |isGap| - 1)]
  {
    assert Covered(groups, 0);
    RunsAreMaximal(isGap, groups);
    assert groups[0].start == 0 && groups[0].end == |isGap| - 1;
    if |groups| > 1 {
      GroupStartIsGap(isGap, groups, 1);
      assert false;
    }
  }

  /** Every line of a group is a gap line. */
  lemma GroupIsAllGap(isGap: seq<bool>, groups: seq<GapGroup>, k: int)
    requires IsGapRuns(isGap, groups) && 0 <= k < |groups|
    ensures forall i :: groups[k].start <= i <= groups[k].end ==> isGap[i]
  {
    forall i | groups[k].start <= i <= groups[k].end ensures isGap[i] {
      assert Covered(groups, i);
    }
  }

  /**
   * There is no gap line between the end of group k - 1 (or the first line)
   * and the start of group k (or the end of the input).
   */
  lemma NoGapBetweenGroups(isGap: seq<bool>, groups: seq<GapGroup>, k: int)
    requires IsGapRuns(isGap, groups) && 0 <= k <= |groups|
    ensures var lo := if k == 0 then 0 else groups[k - 1].end + 1;
      var hi := if k == |groups| then |isGap| else groups[k].start;
      forall i :: lo <= i < hi ==> !isGap[i]
  {
    var lo := if k == 0 then 0 else groups[k - 1].end + 1;
    var hi := if k == |groups| then |isGap| else groups[k].start;
    forall i | lo <= i < hi ensures !isGap[i] {
      forall l | 0 <= l < |groups| ensures !(groups[l].start <= i <= groups[l].end) {
        if l < k - 1 {
          assert groups[l].end + 1 < groups[k - 1].start;
        } else if k < l {
          assert groups[k].end + 1 < groups[l].start;
        }
      }
    }
  }

  /** Two lists of the maximal gap runs of the same lines agree on their first n groups. */
  lemma {:induction false} GapRunsAgree(isGap: seq<bool>, a: seq<GapGroup>, b: seq<GapGroup>, n: nat)
    requires IsGapRuns(isGap, a) && IsGapRuns(isGap, b)
    requires n <= |a| && n <= |b|
    ensures a[..n] == b[..n]
    ensures forall j :: 0 <= j < n ==> a[j] == b[j]
  {
    if n > 0 {
      GapRunsAgree(isGap, a, b, n - 1);
      var k := n - 1;
      assert k > 0 ==> a[k - 1] == a[..n - 1][k - 1] == b[..n - 1][k - 1] == b[k - 1];
      NoGapBetweenGroups(isGap, a, k);
      NoGapBetweenGroups(isGap, b, k);
      GroupStartIsGap(isGap, a, k);
      GroupStartIsGap(isGap, b, k);
      assert a[k].start == b[k].start;
      RunsAreMaximal(isGap, a);
      RunsAreMaximal(isGap, b);
      GroupIsAllGap(isGap, a, k);
      GroupIsAllGap(isGap, b, k);
      assert a[k].end == b[k].end;
      assert a[..n] == a[..n - 1] + [a[k]];
      assert b[..n] == b[..n - 1] + [b[k]];
    }
  }

  /** The maximal gap runs of a sequence of line verdicts are unique. */
  lemma GapRunsUnique(isGap: seq<bool>, a: seq<GapGroup>, b: seq<GapGroup>)
    requires IsGapRuns(isGap, a) && IsGapRuns(isGap, b)
    ensures a == b
  {
    if |a| < |b| {
      GapRunsAgree(isGap, a, b, |a|);
      NoGapBetweenGroups(isGap, a, |a|);
      GroupStartIsGap(isGap, b, |a|);
      assert false;
    } else if |b| < |a| {
      GapRunsAgree(isGap, b, a, |b|);
      NoGapBetweenGroups(isGap, b, |b|);
      GroupStartIsGap(isGap, a, |b|);
      assert false;
    } else {
      GapRunsAgree(isGap, a, b, |a|);
      assert a == a[..|a|] && b == b[..|b|];
    }
  }

  /** The floor midpoint (start + end) // 2 of every group, in order. */
  function Midlines(groups: seq<GapGroup>): (mids: seq<int>)
    ensures |mids| == |groups|
    ensures forall k :: 0 <= k < |groups| && groups[k].start <= groups[k].end ==>
      groups[k].start <= mids[k] <= groups[k].end
    ensures forall k :: 0 <= k < |groups| ==>
      2 * mids[k] <= groups[k].start + groups[k].end <= 2 * mids[k] + 1
  {
    // Dafny's / with a positive divisor rounds down, like Python's //.
    seq(|groups|, k requires 0 <= k < |groups| => (groups[k].start + groups[k].end) / 2)
  }

  /** The midlines of detected runs are strictly ascending line indices. */
  lemma MidlinesOfRuns(isGap: seq<bool>, groups: seq<GapGroup>)
    requires IsGapRuns(isGap, groups)
    ensures forall k :: 0 <= k < |groups| ==> 0 <= Midlines(groups)[k] < |isGap|
    ensures forall k, l :: 0 <= k < l < |groups| ==> Midlines(groups)[k] < Midlines(groups)[l]
  {
  }
}
