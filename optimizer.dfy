/**
 * Greedy cut selection: a print-fill heuristic that walks a cursor across the
 * candidate points {0} ∪ cutPoints ∪ {totalLength}, forward from 0 or, for
 * right-to-left reading, backward from totalLength, filling each page as close
 * to the ideal extent as possible without exceeding it.
 */
module PageOptimizer {
  import opened Wrappers
  import opened Numeric

  /**
   * The points a plan may use. The source sorts and deduplicates this list;
   * every choice below is a maximum, a minimum or a filter over it, none of
   * which depends on order or repetition, so the model keeps the list as is
   * and the specifications use membership only.
   */
  function AllPoints(totalLength: int, cutPoints: seq<int>): (pts: seq<int>)
    ensures forall p :: p in pts <==> p == 0 || p == totalLength || p in cutPoints
  {
    [0] + cutPoints + [totalLength]
  }

  /**
   * The ideal page extent: the override when it is set and non-zero (a zero
   * override is falsy and ignored), otherwise int(breadth * ratio).
   */
  function IdealExtent(overrideIdeal: Option<int>, breadth: int, ratio: Ratio): (ideal: int)
    requires ratio.Valid()
    ensures overrideIdeal.Some? && overrideIdeal.value != 0 ==> ideal == overrideIdeal.value
    ensures (overrideIdeal.None? || overrideIdeal.value == 0) && breadth >= 0 ==>
      0 <= ideal && ideal * ratio.w <= breadth * ratio.h < ideal * ratio.w + ratio.w
  {
    if overrideIdeal.Some? && overrideIdeal.value != 0 then overrideIdeal.value
    else ScaleByRatio(breadth, ratio)
  }

  /**
   * The forward rule for the cut that follows cursor: the far end when the
   * rest fits in one page; otherwise the largest point in
   * (cursor, cursor + ideal]; only when there is none, the smallest point
   * beyond cursor (the one case where a page exceeds the ideal).
   */
  ghost predicate ForwardStep(pts: seq<int>, total: int, ideal: int, cursor: int, next: int) {
    && next in pts
    && cursor < next
    && if total - cursor <= ideal then next == total
       else if exists p :: p in pts && cursor < p <= cursor + ideal then
         && next <= cursor + ideal
         && forall p :: p in pts && cursor < p <= cursor + ideal ==> p <= next
       else
         forall p :: p in pts && cursor < p ==> next <= p
  }

  /** A forward plan: from 0 to total, every cut chosen from the previous one by the forward rule. */
  ghost predicate ForwardPlan(pts: seq<int>, total: int, ideal: int, cuts: seq<int>) {
    && |cuts| >= 2
    && cuts[0] == 0
    && cuts[|cuts| - 1] == total
    && forall k :: 0 <= k < |cuts| - 1 ==> ForwardStep(pts, total, ideal, cuts[k], cuts[k + 1])
  }

  /**
   * The backward rule for the cut that precedes cursor: 0 when the rest fits
   * in one page; otherwise the smallest point in [cursor - ideal, cursor);
   * only when there is none, the largest point below cursor.
   */
  ghost predicate ReverseStep(pts: seq<int>, ideal: int, cursor: int, next: int) {
    && next in pts
    && next < cursor
    && if cursor <= ideal then next == 0
       else if exists p :: p in pts && cursor - ideal <= p < cursor then
         && cursor - ideal <= next
         && forall p :: p in pts && cursor - ideal <= p < cursor ==> next <= p
       else
         forall p :: p in pts && p < cursor ==> p <= next
  }

  /**
   * A reverse plan, listed in ascending order: from 0 to total, every cut
   * chosen from the one after it by the backward rule.
   */
  ghost predicate ReversePlan(pts: seq<int>, total: int, ideal: int, cuts: seq<int>) {
    && |cuts| >= 2
    && cuts[0] == 0
    && cuts[|cuts| - 1] == total
    && forall k :: 0 <= k < |cuts| - 1 ==> ReverseStep(pts, ideal, cuts[k + 1], cuts[k])
  }

  /** max(p for p in pts if above < p <= limit), when some point qualifies. */
  method LargestInWindow(pts: seq<int>, above: int, limit: int) returns (found: bool, best: int)
    ensures found <==> exists p :: p in pts && above < p <= limit
    ensures found ==> best in pts && above < best <= limit
    ensures found ==> forall p :: p in pts && above < p <= limit ==> p <= best
  {
    found, best := false, 0;
    for i := 0 to |pts|
      invariant found <==> exists j :: 0 <= j < i && above < pts[j] <= limit
      invariant found ==> best in pts && above < best <= limit
      invariant found ==> forall j :: 0 <= j < i && above < pts[j] <= limit ==> pts[j] <= best
    {
      if above < pts[i] <= limit && (!found || best < pts[i]) {
        found, best := true, pts[i];
      }
    }
  }

  /** min(p for p in pts if p > above), when some point qualifies. */
  method SmallestAbove(pts: seq<int>, above: int) returns (found: bool, best: int)
    ensures found <==> exists p :: p in pts && above < p
    ensures found ==> best in pts && above < best
    ensures found ==> forall p :: p in pts && above < p ==> best <= p
  {
    found, best := false, 0;
    for i := 0 to |pts|
      invariant found <==> exists j :: 0 <= j < i && above < pts[j]
      invariant found ==> best in pts && above < best
      invariant found ==> forall j :: 0 <= j < i && above < pts[j] ==> best <= pts[j]
    {
      if above < pts[i] && (!found || pts[i] < best) {
        found, best := true, pts[i];
      }
    }
  }

  /** min(p for p in pts if atLeast <= p < below), when some point qualifies. */
  method SmallestInWindow(pts: seq<int>, atLeast: int, below: int) returns (found: bool, best: int)
    ensures found <==> exists p :: p in pts && atLeast <= p < below
    ensures found ==> best in pts && atLeast <= best < below
    ensures found ==> forall p :: p in pts && atLeast <= p < below ==> best <= p
  {
    found, best := false, 0;
    for i := 0 to |pts|
      invariant found <==> exists j :: 0 <= j < i && atLeast <= pts[j] < below
      invariant found ==> best in pts && atLeast <= best < below
      invariant found ==> forall j :: 0 <= j < i && atLeast <= pts[j] < below ==> best <= pts[j]
    {
      if atLeast <= pts[i] < below && (!found || pts[i] < best) {
        found, best := true, pts[i];
      }
    }
  }

  /** max(p for p in pts if p < below), when some point qualifies. */
  method LargestBelow(pts: seq<int>, below: int) returns (found: bool, best: int)
    ensures found <==> exists p :: p in pts && p < below
    ensures found ==> best in pts && best < below
    ensures found ==> forall p :: p in pts && p < below ==> p <= best
  {
    found, best := false, 0;
    for i := 0 to |pts|
      invariant found <==> exists j :: 0 <= j < i && pts[j] < below
      invariant found ==> best in pts && best < below
      invariant found ==> forall j :: 0 <= j < i && pts[j] < below ==> pts[j] <= best
    {
      if pts[i] < below && (!found || best < pts[i]) {
        found, best := true, pts[i];
      }
    }
  }

  /** The forward branch of the selection: from 0 toward total. */
  method ForwardCuts(pts: seq<int>, total: nat, ideal: int) returns (selected: seq<int>)
    requires 0 in pts && total in pts
    ensures total > 0 ==> ForwardPlan(pts, total, ideal, selected)
    ensures total == 0 ==> selected == [0]
  {
    selected := [0];
    var cursor := 0;
    while cursor < total
      invariant 0 <= cursor <= total
      invariant total == 0 ==> selected == [0]
      invariant |selected| >= 1 && selected[0] == 0 && selected[|selected| - 1] == cursor
      invariant forall k :: 0 <= k < |selected| - 1 ==> ForwardStep(pts, total, ideal, selected[k], selected[k + 1])
      decreases total - cursor
    {
      var anyLater, smallest := SmallestAbove(pts, cursor);
      if !anyLater {
        // Unreachable: total is a point beyond the cursor.
        assert false;
        break;
      }
      var remaining := total - cursor;
      if remaining <= ideal {
        selected := selected + [total];
        break;
      }
      var target := cursor + ideal;
      var anyFit, largest := LargestInWindow(pts, cursor, target);
      var best := if anyFit then largest else smallest;
      selected := selected + [best];
      cursor := best;
    }
    if selected[|selected| - 1] != total {
      selected := selected + [total];
    }
  }

  /** The reverse branch of the selection: from total back toward 0, then listed ascending. */
  method ReverseCuts(pts: seq<int>, total: nat, ideal: int) returns (cuts: seq<int>)
    requires 0 in pts && total in pts
    ensures total > 0 ==> ReversePlan(pts, total, ideal, cuts)
    ensures total == 0 ==> cuts == [0]
  {
    var selected := [total];
    var cursor := total;
    while cursor > 0
      invariant 0 <= cursor <= total
      invariant total == 0 ==> selected == [0]
      invariant |selected| >= 1 && selected[0] == total && selected[|selected| - 1] == cursor
      invariant forall k :: 0 <= k < |selected| - 1 ==> ReverseStep(pts, ideal, selected[k], selected[k + 1])
    {
      var anyEarlier, largest := LargestBelow(pts, cursor);
      if !anyEarlier {
        // Unreachable: 0 is a point below the cursor.
        assert false;
        break;
      }
      if cursor <= ideal {
        selected := selected + [0];
        break;
      }
      var target := cursor - ideal;
      var anyFit, smallest := SmallestInWindow(pts, target, cursor);
      var best := if anyFit then smallest else largest;
      selected := selected + [best];
      cursor := best;
    }
    if selected[|selected| - 1] != 0 {
      selected := selected + [0];
    }
    // selected is strictly descending, so sorting it ascending reverses it.
    cuts := Reversed(selected);
    forall k | 0 <= k < |cuts| - 1
      ensures ReverseStep(pts, ideal, cuts[k + 1], cuts[k])
    {
      assert cuts[k + 1] == selected[|selected| - 2 - k];
    }
  }

  /** s in the opposite order: what sorting a strictly descending list gives. */
  function Reversed(s: seq<int>): seq<int> {
    seq(|s|, k requires 0 <= k < |s| => s[|s| - 1 - k])
  }

  /** Adjacent strict increase gives strict increase between any two positions. */
  lemma {:induction false} AscendingEverywhere(s: seq<int>)
    requires forall k :: 0 <= k < |s| - 1 ==> s[k] < s[k + 1]
    ensures forall k, l :: 0 <= k < l < |s| ==> s[k] < s[l]
  {
    if |s| > 1 {
      var t := s[1..];
      assert forall k :: 0 <= k < |t| - 1 ==> t[k] < t[k + 1];
      AscendingEverywhere(t);
      forall k, l | 0 <= k < l < |s|
        ensures s[k] < s[l]
      {
        if k == 0 {
          if l > 1 {
            assert t[0] < t[l - 1];
          }
        } else {
          assert t[k - 1] < t[l - 1];
        }
      }
    }
  }

  /** A forward plan is strictly ascending and uses only candidate points. */
  lemma ForwardPlanShape(pts: seq<int>, total: int, ideal: int, cuts: seq<int>)
    requires 0 in pts && ForwardPlan(pts, total, ideal, cuts)
    ensures forall k, l :: 0 <= k < l < |cuts| ==> cuts[k] < cuts[l]
    ensures forall k :: 0 <= k < |cuts| ==> cuts[k] in pts && 0 <= cuts[k] <= total
  {
    forall k | 0 <= k < |cuts| - 1
      ensures cuts[k] < cuts[k + 1]
    {
      assert ForwardStep(pts, total, ideal, cuts[k], cuts[k + 1]);
    }
    AscendingEverywhere(cuts);
    forall k | 0 < k < |cuts|
      ensures cuts[k] in pts
    {
      assert ForwardStep(pts, total, ideal, cuts[k - 1], cuts[k]);
    }
  }

  /** A reverse plan is strictly ascending and uses only candidate points. */
  lemma ReversePlanShape(pts: seq<int>, total: int, ideal: int, cuts: seq<int>)
    requires 0 in pts && total in pts && ReversePlan(pts, total, ideal, cuts)
    ensures forall k, l :: 0 <= k < l < |cuts| ==> cuts[k] < cuts[l]
    ensures forall k :: 0 <= k < |cuts| ==> cuts[k] in pts && 0 <= cuts[k] <= total
  {
    forall k | 0 <= k < |cuts| - 1
      ensures cuts[k] < cuts[k + 1]
    {
      assert ReverseStep(pts, ideal, cuts[k + 1], cuts[k]);
    }
    AscendingEverywhere(cuts);
    forall k | 0 <= k < |cuts| - 1
      ensures cuts[k] in pts
    {
      assert ReverseStep(pts, ideal, cuts[k + 1], cuts[k]);
    }
  }

  /**
   * find_optimal_cuts: no candidates give the empty plan; otherwise the plan
   * follows the forward or the backward rule, starts at 0, ends at
   * totalLength, is strictly ascending and uses only candidate points.
   */
  method FindOptimalCuts(totalLength: nat, breadth: int, cutPoints: seq<int>,
                         overrideIdeal: Option<int>, ratio: Ratio, reverse: bool)
    returns (cuts: seq<int>)
    requires ratio.Valid()
    ensures cutPoints == [] ==> cuts == []
    ensures cutPoints != [] && totalLength == 0 ==> cuts == [0]
    ensures cutPoints != [] && totalLength > 0 ==>
      var pts := AllPoints(totalLength, cutPoints);
      var ideal := IdealExtent(overrideIdeal, breadth, ratio);
      if reverse then ReversePlan(pts, totalLength, ideal, cuts) else ForwardPlan(pts, totalLength, ideal, cuts)
    ensures cutPoints != [] && totalLength > 0 ==>
      && |cuts| >= 2 && cuts[0] == 0 && cuts[|cuts| - 1] == totalLength
      && (forall k, l :: 0 <= k < l < |cuts| ==> cuts[k] < cuts[l])
      && (forall k :: 0 <= k < |cuts| ==> cuts[k] in AllPoints(totalLength, cutPoints))
  {
    if cutPoints == [] {
      return [];
    }
    var pts := AllPoints(totalLength, cutPoints);
    var ideal := IdealExtent(overrideIdeal, breadth, ratio);
    if reverse {
      cuts := ReverseCuts(pts, totalLength, ideal);
      if totalLength > 0 {
        ReversePlanShape(pts, totalLength, ideal, cuts);
      }
    } else {
      cuts := ForwardCuts(pts, totalLength, ideal);
      if totalLength > 0 {
        ForwardPlanShape(pts, totalLength, ideal, cuts);
      }
    }
  }

  /** The forward rule determines the next cut. */
  lemma ForwardStepUnique(pts: seq<int>, total: int, ideal: int, cursor: int, n1: int, n2: int)
    requires ForwardStep(pts, total, ideal, cursor, n1)
    requires ForwardStep(pts, total, ideal, cursor, n2)
    ensures n1 == n2
  {
  }

  /** The two properties of the forward rule pin the plan down: there is at most one forward plan. */
  lemma ForwardPlanUnique(pts: seq<int>, total: int, ideal: int, c1: seq<int>, c2: seq<int>)
    requires 0 in pts
    requires ForwardPlan(pts, total, ideal, c1) && ForwardPlan(pts, total, ideal, c2)
    ensures c1 == c2
  {
    ForwardPlanShape(pts, total, ideal, c1);
    ForwardPlanShape(pts, total, ideal, c2);
    var n := if |c1| <= |c2| then |c1| else |c2|;
    for k := 0 to n
      invariant forall j :: 0 <= j < k ==> c1[j] == c2[j]
    {
      if k > 0 {
        ForwardStepUnique(pts, total, ideal, c1[k - 1], c1[k], c2[k]);
      }
    }
  }

  /** Coordinates seen from the far edge: x becomes total - x. */
  function MirrorPoints(pts: seq<int>, total: int): (m: seq<int>)
    ensures forall p :: p in m <==> total - p in pts
  {
    var m := seq(|pts|, k requires 0 <= k < |pts| => total - pts[k]);
    assert forall p :: p in pts ==> total - p in m by {
      forall p | p in pts ensures total - p in m {
        var k :| 0 <= k < |pts| && pts[k] == p;
        assert m[k] == total - p;
      }
    }
    m
  }

  /** A plan seen from the far edge: mirrored coordinates, listed ascending again. */
  function MirrorPlan(cuts: seq<int>, total: int): seq<int> {
    seq(|cuts|, k requires 0 <= k < |cuts| => total - cuts[|cuts| - 1 - k])
  }

  /** Mirroring a plan twice gives it back. */
  lemma MirrorPlanInvolution(cuts: seq<int>, total: int)
    ensures MirrorPlan(MirrorPlan(cuts, total), total) == cuts
  {
    var m2 := MirrorPlan(MirrorPlan(cuts, total), total);
    forall k | 0 <= k < |cuts|
      ensures m2[k] == cuts[k]
    {
      assert MirrorPlan(cuts, total)[|cuts| - 1 - k] == total - cuts[k];
    }
  }

  /** The backward rule is the forward rule applied to mirrored coordinates. */
  lemma ReverseStepIsMirroredForward(pts: seq<int>, total: int, ideal: int, cursor: int, next: int)
    ensures ReverseStep(pts, ideal, cursor, next)
        <==> ForwardStep(MirrorPoints(pts, total), total, ideal, total - cursor, total - next)
  {
    var m := MirrorPoints(pts, total);
    var c := total - cursor;
    assert (exists p :: p in pts && cursor - ideal <= p < cursor)
       <==> (exists q :: q in m && c < q <= c + ideal) by {
      if exists p :: p in pts && cursor - ideal <= p < cursor {
        var p :| p in pts && cursor - ideal <= p < cursor;
        assert total - p in m;
      }
      if exists q :: q in m && c < q <= c + ideal {
        var q :| q in m && c < q <= c + ideal;
        assert total - q in pts;
      }
    }
    assert (forall p :: p in pts && cursor - ideal <= p < cursor ==> next <= p)
       <==> (forall q :: q in m && c < q <= c + ideal ==> q <= total - next) by {
      if forall p :: p in pts && cursor - ideal <= p < cursor ==> next <= p {
        forall q | q in m && c < q <= c + ideal ensures q <= total - next {
          assert total - q in pts;
        }
      }
      if forall q :: q in m && c < q <= c + ideal ==> q <= total - next {
        forall p | p in pts && cursor - ideal <= p < cursor ensures next <= p {
          assert total - p in m;
        }
      }
    }
    assert (forall p :: p in pts && p < cursor ==> p <= next)
       <==> (forall q :: q in m && c < q ==> total - next <= q) by {
      if forall p :: p in pts && p < cursor ==> p <= next {
        forall q | q in m && c < q ensures total - next <= q {
          assert total - q in pts;
        }
      }
      if forall q :: q in m && c < q ==> total - next <= q {
        forall p | p in pts && p < cursor ensures p <= next {
          assert total - p in m;
        }
      }
    }
  }

  /**
   * Direction duality: a reverse plan is exactly the mirror image of the
   * forward plan over the mirrored candidate points.
   */
  lemma ReversePlanIsMirroredForward(pts: seq<int>, total: int, ideal: int, cuts: seq<int>)
    ensures ReversePlan(pts, total, ideal, cuts)
        <==> ForwardPlan(MirrorPoints(pts, total), total, ideal, MirrorPlan(cuts, total))
  {
    var m := MirrorPoints(pts, total);
    var mc := MirrorPlan(cuts, total);
    var n := |cuts|;
    forall k | 0 <= k < n - 1
      ensures ReverseStep(pts, ideal, cuts[n - 1 - k], cuts[n - 2 - k])
          <==> ForwardStep(m, total, ideal, mc[k], mc[k + 1])
    {
      ReverseStepIsMirroredForward(pts, total, ideal, cuts[n - 1 - k], cuts[n - 2 - k]);
    }
    if n >= 2 {
      if forall k :: 0 <= k < n - 1 ==> ReverseStep(pts, ideal, cuts[k + 1], cuts[k]) {
        forall k | 0 <= k < n - 1 ensures ForwardStep(m, total, ideal, mc[k], mc[k + 1]) {
          assert ReverseStep(pts, ideal, cuts[(n - 2 - k) + 1], cuts[n - 2 - k]);
        }
      }
      if forall k :: 0 <= k < n - 1 ==> ForwardStep(m, total, ideal, mc[k], mc[k + 1]) {
        forall j | 0 <= j < n - 1 ensures ReverseStep(pts, ideal, cuts[j + 1], cuts[j]) {
          assert ForwardStep(m, total, ideal, mc[n - 2 - j], mc[(n - 2 - j) + 1]);
        }
      }
    }
  }

  /** The forward rule only looks at which points are candidates. */
  lemma ForwardPlanSameMembers(a: seq<int>, b: seq<int>, total: int, ideal: int, cuts: seq<int>)
    requires forall p :: p in a <==> p in b
    requires ForwardPlan(a, total, ideal, cuts)
    ensures ForwardPlan(b, total, ideal, cuts)
  {
    forall k | 0 <= k < |cuts| - 1
      ensures ForwardStep(b, total, ideal, cuts[k], cuts[k + 1])
    {
      assert ForwardStep(a, total, ideal, cuts[k], cuts[k + 1]);
    }
  }

  /**
   * With candidates symmetric about the middle, the reverse plan is the
   * mirror image of the forward plan.
   */
  lemma SymmetricCandidatesMirrorPlans(pts: seq<int>, total: int, ideal: int, fwd: seq<int>, rev: seq<int>)
    requires 0 in pts
    requires forall p :: p in pts <==> total - p in pts
    requires ForwardPlan(pts, total, ideal, fwd)
    requires ReversePlan(pts, total, ideal, rev)
    ensures rev == MirrorPlan(fwd, total)
  {
    var m := MirrorPoints(pts, total);
    ReversePlanIsMirroredForward(pts, total, ideal, rev);
    var mr := MirrorPlan(rev, total);
    ForwardPlanSameMembers(m, pts, total, ideal, mr);
    ForwardPlanUnique(pts, total, ideal, fwd, mr);
    MirrorPlanInvolution(rev, total);
  }

  /**
   * A forward page longer than the ideal happens only when no candidate
   * lies in (start, start + ideal], and it then ends at the nearest candidate.
   */
  lemma ForwardOverflowOnlyWhenForced(pts: seq<int>, total: int, ideal: int, cuts: seq<int>, k: int)
    requires ForwardPlan(pts, total, ideal, cuts)
    requires 0 <= k < |cuts| - 1 && cuts[k + 1] - cuts[k] > ideal
    ensures forall p :: p in pts && cuts[k] < p ==> cuts[k] + ideal < p && cuts[k + 1] <= p
  {
    assert ForwardStep(pts, total, ideal, cuts[k], cuts[k + 1]);
  }

  /** A reverse page longer than the ideal happens only when no candidate lies in [end - ideal, end). */
  lemma ReverseOverflowOnlyWhenForced(pts: seq<int>, total: int, ideal: int, cuts: seq<int>, k: int)
    requires ReversePlan(pts, total, ideal, cuts)
    requires 0 <= k < |cuts| - 1 && cuts[k + 1] - cuts[k] > ideal
    ensures forall p :: p in pts && p < cuts[k + 1] ==> p < cuts[k + 1] - ideal && p <= cuts[k]
  {
    assert ReverseStep(pts, ideal, cuts[k + 1], cuts[k]);
  }

  /** With totalLength as the only candidate, either plan is the single page [0, totalLength]. */
  lemma OnlyEndCandidateSinglePage(total: int, ideal: int, cuts: seq<int>, reverse: bool)
    requires total > 0
    requires if reverse then ReversePlan(AllPoints(total, [total]), total, ideal, cuts)
             else ForwardPlan(AllPoints(total, [total]), total, ideal, cuts)
    ensures cuts == [0, total]
  {
    var pts := AllPoints(total, [total]);
    if reverse {
      ReversePlanShape(pts, total, ideal, cuts);
    } else {
      ForwardPlanShape(pts, total, ideal, cuts);
      assert cuts[1] == total;
    }
  }
}
