/**
 * Page geometry and composition of ScreenshotPaginator.paginate: the margin
 * or padding frame, the uniform canvas, the per-page crop interval and paste
 * offset (remainder page flush, other pages centred), the right-to-left
 * renumbering, and the pipeline that ties gap detection and cut selection
 * together. Pixel data, cropping, pasting and file output are not modelled:
 * a page is the record of what would be cropped and where it would be pasted.
 */
module Paginator {
  import opened Wrappers
  import opened Numeric
  import GapDetector
  import PageOptimizer

  /** "horizontal" (top to bottom), "vertical-ltr" (left to right), "vertical-rtl" (right to left). */
  datatype Direction = Horizontal | VerticalLtr | VerticalRtl {
    /** Vertical modes split along the image width. */
    predicate Vertical() { this != Horizontal }
    predicate Rtl() { this == VerticalRtl }
  }

  /** Margins in pixels, in the source's order (top, right, bottom, left). */
  datatype Margins = Margins(top: int, right: int, bottom: int, left: int)

  /** The page fixed by margin mode: page size and the content-area length along the split axis. */
  datatype MarginFrame = MarginFrame(pageW: int, pageH: int, contentArea: int)

  /** Margins that leave no content area: their sum along the split axis and the page extent they exceed. */
  datatype PaginateError = MarginsTooLarge(marginSum: int, pageExtent: int)

  /** q == int(num / den) for the exact quotient (truncation toward zero). */
  ghost predicate IsTruncQuotient(q: int, num: int, den: int) {
    && (num >= 0 ==> q * den <= num < q * den + den)
    && (num < 0 ==> q * den - den < num <= q * den)
  }

  /**
   * Margin mode. Vertical split: the page height is the breadth plus top and
   * bottom margins, the page width int(page height / ratio); horizontal split:
   * the page width is the breadth plus left and right margins, the page height
   * int(page width * ratio). The content area is the page extent along the
   * split axis minus the two margins on that axis, and the configuration is
   * rejected exactly when that is not positive.
   */
  function MarginLayout(dir: Direction, breadth: int, m: Margins, ratio: Ratio): (r: Result<MarginFrame, PaginateError>)
    requires ratio.Valid()
    ensures r.Success? ==> r.value.contentArea > 0
    ensures r.Failure? ==> r.error.marginSum >= r.error.pageExtent
    ensures dir.Vertical() && r.Success? ==>
      && r.value.pageH == breadth + m.top + m.bottom
      && r.value.pageW == m.left + r.value.contentArea + m.right
      && IsTruncQuotient(r.value.pageW, r.value.pageH * ratio.w, ratio.h)
    ensures dir.Vertical() && r.Failure? ==>
      && r.error.marginSum == m.left + m.right
      && IsTruncQuotient(r.error.pageExtent, (breadth + m.top + m.bottom) * ratio.w, ratio.h)
    ensures !dir.Vertical() && r.Success? ==>
      && r.value.pageW == breadth + m.left + m.right
      && r.value.pageH == m.top + r.value.contentArea + m.bottom
      && IsTruncQuotient(r.value.pageH, r.value.pageW * ratio.h, ratio.w)
    ensures !dir.Vertical() && r.Failure? ==>
      && r.error.marginSum == m.top + m.bottom
      && IsTruncQuotient(r.error.pageExtent, (breadth + m.left + m.right) * ratio.h, ratio.w)
  {
    if dir.Vertical() then
      var pageH := breadth + m.top + m.bottom;
      var pageW := ScaleByInverse(pageH, ratio);
      var content := pageW - m.left - m.right;
      if content <= 0 then Failure(MarginsTooLarge(m.left + m.right, pageW))
      else Success(MarginFrame(pageW, pageH, content))
    else
      var pageW := breadth + m.left + m.right;
      var pageH := ScaleByRatio(pageW, ratio);
      var content := pageH - m.top - m.bottom;
      if content <= 0 then Failure(MarginsTooLarge(m.top + m.bottom, pageH))
      else Success(MarginFrame(pageW, pageH, content))
  }

  /**
   * Everything the page loop needs: axis and direction, whether margins were
   * given, the margins in force (padding mode uses (0, padding, 0, padding)),
   * the content-area length (margin mode only) and the uniform canvas size.
   */
  datatype Layout = Layout(vertical: bool, rtl: bool, marginMode: bool, m: Margins,
                           contentArea: int, uniformW: int, uniformH: int)

  /**
   * The layout of one run. In margin mode the canvas is the margin-mode page,
   * so content area plus the two margins on the split axis fill it; in padding
   * mode the canvas is the ideal content extent plus padding on the left and
   * right, with no margin above or below.
   */
  function SetUp(dir: Direction, breadth: int, ratio: Ratio, margins: Option<Margins>, padding: int)
    : (r: Result<Layout, PaginateError>)
    requires ratio.Valid()
    ensures margins.None? ==> r.Success? && !r.value.marginMode && r.value.m == Margins(0, padding, 0, padding)
    ensures margins.Some? ==>
      && (r.Success? <==> MarginLayout(dir, breadth, margins.value, ratio).Success?)
      && (r.Failure? ==> r.error == MarginLayout(dir, breadth, margins.value, ratio).error)
      && (r.Success? ==> r.value.marginMode && r.value.m == margins.value)
    ensures r.Success? ==> r.value.vertical == dir.Vertical() && r.value.rtl == dir.Rtl()
    ensures r.Success? && r.value.marginMode ==>
      var L := r.value;
      && L.contentArea > 0
      && (L.vertical ==> L.uniformW == L.m.left + L.contentArea + L.m.right && L.uniformH == breadth + L.m.top + L.m.bottom)
      && (!L.vertical ==> L.uniformW == breadth + L.m.left + L.m.right && L.uniformH == L.m.top + L.contentArea + L.m.bottom)
    ensures r.Success? && !r.value.marginMode ==>
      var L := r.value;
      && (L.vertical ==> L.uniformH == breadth && IsTruncQuotient(L.uniformW - 2 * padding, breadth * ratio.w, ratio.h))
      && (!L.vertical ==> L.uniformW == breadth + 2 * padding && IsTruncQuotient(L.uniformH, breadth * ratio.h, ratio.w))
  {
    match margins
    case Some(m) =>
      (match MarginLayout(dir, breadth, m, ratio)
       case Failure(e) => Failure(e)
       case Success(f) => Success(Layout(dir.Vertical(), dir.Rtl(), true, m, f.contentArea, f.pageW, f.pageH)))
    case None =>
      var m := Margins(0, padding, 0, padding);
      if dir.Vertical() then
        Success(Layout(true, dir.Rtl(), false, m, 0, ScaleByInverse(breadth, ratio) + m.left + m.right, breadth))
      else
        Success(Layout(false, false, false, m, 0, breadth + m.left + m.right, ScaleByRatio(breadth, ratio)))
  }

  /**
   * The override_ideal handed to the optimizer: the content area in margin
   * mode; in vertical padding mode int(breadth / ratio); none in horizontal
   * padding mode.
   */
  function OverrideIdeal(L: Layout, breadth: int, ratio: Ratio): (o: Option<int>)
    requires ratio.Valid()
    ensures L.marginMode ==> o == Some(L.contentArea)
    ensures !L.marginMode && L.vertical ==> o.Some? && (breadth >= 0 ==> 0 <= o.value && o.value * ratio.h <= breadth * ratio.w < o.value * ratio.h + ratio.h)
    ensures !L.marginMode && !L.vertical ==> o.None?
  {
    if L.marginMode then Some(L.contentArea)
    else if L.vertical then Some(ScaleByInverse(breadth, ratio))
    else None
  }

  /**
   * The ideal the optimizer works with is the canvas's content extent along
   * the split axis: the content area in margin mode, the canvas width less the
   * padding (vertical) or the canvas height (horizontal) in padding mode. The
   * one exception: a vertical int(breadth / ratio) of 0 is falsy, and the
   * optimizer then falls back to int(breadth * ratio).
   */
  lemma IdealMatchesCanvas(dir: Direction, breadth: int, ratio: Ratio, margins: Option<Margins>, padding: int)
    requires ratio.Valid() && breadth >= 0
    requires SetUp(dir, breadth, ratio, margins, padding).Success?
    ensures var L := SetUp(dir, breadth, ratio, margins, padding).value;
      var ideal := PageOptimizer.IdealExtent(OverrideIdeal(L, breadth, ratio), breadth, ratio);
      && (L.marginMode ==> ideal == L.contentArea)
      && (!L.marginMode && L.vertical && L.uniformW - 2 * padding != 0 ==> ideal == L.uniformW - 2 * padding)
      && (!L.marginMode && L.vertical && L.uniformW - 2 * padding == 0 ==> IsTruncQuotient(ideal, breadth * ratio.h, ratio.w))
      && (!L.marginMode && !L.vertical ==> ideal == L.uniformH)
  {
  }

  /** last_page_idx: the remainder page is the first under right-to-left reading, the last otherwise. */
  function RemainderIndex(rtl: bool, numPages: int): (k: int)
    ensures numPages >= 1 ==> 0 <= k < numPages
    ensures rtl ==> k == 0
    ensures !rtl ==> k == numPages - 1
  {
    if rtl then 0 else numPages - 1
  }

  /**
   * One output page: the crop interval [start, end) along the split axis (the
   * crop spans the whole breadth), the content size, the canvas size and the
   * offset at which the crop is pasted onto the canvas.
   */
  datatype PageSpec = PageSpec(start: int, end: int, contentW: int, contentH: int,
                               canvasW: int, canvasH: int, pasteX: int, pasteY: int)

  /**
   * The paste offset exactly as the source computes it. A remainder page
   * (flush) touches the reading-start edge: the right margin under
   * right-to-left reading, the left margin otherwise. Other vertical pages
   * are centred in the whole canvas width; other horizontal pages are centred
   * between the top and bottom margins (margin mode, when they fit) or in
   * the canvas height (padding mode). Centring puts the odd pixel after the
   * content.
   */
  function PasteOffsetAsWritten(L: Layout, flush: bool, cw: int, ch: int): (o: (int, int))
    ensures flush && L.vertical && L.rtl ==> o.0 + cw == L.uniformW - L.m.right
    ensures flush && !(L.vertical && L.rtl) ==> o.0 == L.m.left
    ensures flush || L.vertical ==> o.1 == (if L.marginMode then L.m.top else 0)
    ensures !flush && L.vertical ==> 0 <= (L.uniformW - (o.0 + cw)) - o.0 <= 1
    ensures !flush && !L.vertical ==> o.0 == L.m.left
    ensures !flush && !L.vertical && L.marginMode && ch < L.contentArea ==>
      0 <= (L.m.top + L.contentArea - (o.1 + ch)) - (o.1 - L.m.top) <= 1
    ensures !flush && !L.vertical && L.marginMode && ch >= L.contentArea ==> o.1 == L.m.top
    ensures !flush && !L.vertical && !L.marginMode ==> 0 <= (L.uniformH - (o.1 + ch)) - o.1 <= 1
  {
    var y0 := if L.marginMode then L.m.top else 0;
    if flush then
      if L.vertical then
        (if L.rtl then L.uniformW - L.m.right - cw else L.m.left, y0)
      else
        (L.m.left, y0)
    else if L.vertical then
      ((L.uniformW - cw) / 2, y0)
    else
      (L.m.left,
       if L.marginMode then
         (if ch < L.contentArea then L.m.top + (L.contentArea - ch) / 2 else L.m.top)
       else (L.uniformH - ch) / 2)
  }

  /**
   * The corrected paste offset: as written, except that a centred vertical
   * page in margin mode is centred in the content area between the left and
   * right margins, as horizontal pages are centred between the top and
   * bottom margins. In padding mode and with equal side margins the two
   * agree (see CorrectedOffsetAgreesWhenSymmetric).
   */
  function PasteOffset(L: Layout, flush: bool, cw: int, ch: int): (o: (int, int))
    ensures !flush && L.vertical && L.marginMode ==>
      && o.1 == L.m.top
      && 0 <= (L.m.left + L.contentArea - (o.0 + cw)) - (o.0 - L.m.left) <= 1
    ensures !(!flush && L.vertical && L.marginMode) ==> o == PasteOffsetAsWritten(L, flush, cw, ch)
  {
    if !flush && L.vertical && L.marginMode then
      (L.m.left + (L.contentArea - cw) / 2, L.m.top)
    else
      PasteOffsetAsWritten(L, flush, cw, ch)
  }

  /** Page i of a cut plan: crop between cuts i and i + 1, placed on the uniform canvas. */
  function PageAt(L: Layout, cuts: seq<int>, width: int, height: int, i: int): (p: PageSpec)
    requires 0 <= i < |cuts| - 1
    ensures p.start == cuts[i] && p.end == cuts[i + 1]
    ensures p.canvasW == L.uniformW && p.canvasH == L.uniformH
    ensures L.vertical ==> p.contentW == cuts[i + 1] - cuts[i] && p.contentH == height
    ensures !L.vertical ==> p.contentW == width && p.contentH == cuts[i + 1] - cuts[i]
  {
    var numPages := |cuts| - 1;
    var start, end := cuts[i], cuts[i + 1];
    var flush := i == RemainderIndex(L.rtl, numPages) && numPages > 1;
    var cw := if L.vertical then end - start else width;
    var ch := if L.vertical then height else end - start;
    var offset := PasteOffsetAsWritten(L, flush, cw, ch);
    PageSpec(start, end, cw, ch, L.uniformW, L.uniformH, offset.0, offset.1)
  }

  /**
   * The page loop: one page per adjacent pair of cuts, all on the same
   * canvas, each cropping the full breadth of the image.
   */
  method ComposePages(L: Layout, cuts: seq<int>, width: int, height: int) returns (pages: seq<PageSpec>)
    ensures |pages| == if |cuts| >= 1 then |cuts| - 1 else 0
    ensures forall i :: 0 <= i < |pages| ==> pages[i] == PageAt(L, cuts, width, height, i)
    ensures forall i :: 0 <= i < |pages| ==>
      && pages[i].start == cuts[i] && pages[i].end == cuts[i + 1]
      && pages[i].canvasW == L.uniformW && pages[i].canvasH == L.uniformH
      && (if L.vertical then pages[i].contentH == height && pages[i].contentW == cuts[i + 1] - cuts[i]
          else pages[i].contentW == width && pages[i].contentH == cuts[i + 1] - cuts[i])
  {
    pages := [];
    var numPages := if |cuts| >= 1 then |cuts| - 1 else 0;
    var i := 0;
    while i < numPages
      invariant 0 <= i <= numPages
      invariant |pages| == i
      invariant forall j :: 0 <= j < i ==> pages[j] == PageAt(L, cuts, width, height, j)
    {
      pages := pages + [PageAt(L, cuts, width, height, i)];
      i := i + 1;
    }
  }

  /** The right-to-left file number of page index i: total - i. */
  function FileNumber(total: int, i: int): (n: int)
    requires 0 <= i < total
    ensures 1 <= n <= total
  {
    total - i
  }

  /** The page index held by right-to-left file number n: the inverse of FileNumber. */
  function PageOfFile(total: int, n: int): (i: int)
    requires 1 <= n <= total
    ensures 0 <= i < total
  {
    total - n
  }

  /** The right-to-left numbering is a bijection between page indices and file numbers. */
  lemma RtlNumberingRoundTrips(total: int)
    ensures forall i :: 0 <= i < total ==> PageOfFile(total, FileNumber(total, i)) == i
    ensures forall n :: 1 <= n <= total ==> FileNumber(total, PageOfFile(total, n)) == n
  {
  }

  /**
   * The right-to-left relabelling: page index i ends up as file number
   * total - i, so the returned list, in file order, starts with the page
   * nearest the far edge. The source moves every file to a temporary name
   * first, so that no rename overwrites a page still to be moved; here the
   * pages are placed straight into their numbered slots.
   */
  method RenumberRtl(pages: seq<PageSpec>) returns (files: seq<PageSpec>)
    ensures |files| == |pages|
    ensures forall n :: 1 <= n <= |pages| ==> files[n - 1] == pages[PageOfFile(|pages|, n)]
  {
    var total := |pages|;
    var slots := new PageSpec[total];
    for i := 0 to total
      invariant forall j :: 0 <= j < i ==> slots[FileNumber(total, j) - 1] == pages[j]
    {
      slots[FileNumber(total, i) - 1] := pages[i];
    }
    files := slots[..];
    forall n | 1 <= n <= total
      ensures files[n - 1] == pages[PageOfFile(total, n)]
    {
      assert FileNumber(total, PageOfFile(total, n)) == n;
    }
  }

  /** The candidate cut points: the gap midlines, or the far edge alone when there is none. */
  function Candidates(midlines: seq<int>, total: int): seq<int> {
    if midlines == [] then [total] else midlines
  }

  /** cuts is the greedy plan for the reading direction. */
  ghost predicate PlanFor(pts: seq<int>, total: int, ideal: int, rtl: bool, cuts: seq<int>) {
    if rtl then PageOptimizer.ReversePlan(pts, total, ideal, cuts)
    else PageOptimizer.ForwardPlan(pts, total, ideal, cuts)
  }

  /**
   * files holds one page per interval of cuts, in file order: ascending, or,
   * under right-to-left reading with more than one page, from the far edge back.
   */
  ghost predicate FilesOfPlan(L: Layout, cuts: seq<int>, width: int, height: int, files: seq<PageSpec>) {
    && |cuts| >= 2
    && |files| == |cuts| - 1
    && forall k :: 0 <= k < |files| ==>
         files[k] == PageAt(L, cuts, width, height, if L.rtl && |files| > 1 then |files| - 1 - k else k)
  }

  /** Some greedy plan over the candidate points pts yields exactly files. */
  ghost predicate PagesOfSomePlan(L: Layout, pts: seq<int>, total: int, ideal: int, width: int, height: int,
                                  files: seq<PageSpec>) {
    exists cuts :: PlanFor(pts, total, ideal, L.rtl, cuts) && FilesOfPlan(L, cuts, width, height, files)
  }

  /**
   * files are the pages of the greedy plan over the midlines of the maximal
   * gap runs of lineIsGap (or over the far edge alone), for layout L and the
   * given ideal.
   */
  ghost predicate PagesOfGapPlan(L: Layout, lineIsGap: seq<bool>, total: int, ideal: int, width: int, height: int,
                                 files: seq<PageSpec>) {
    exists groups :: GapDetector.IsGapRuns(lineIsGap, groups) &&
      PagesOfSomePlan(L, PageOptimizer.AllPoints(total, Candidates(GapDetector.Midlines(groups), total)),
                      total, ideal, width, height, files)
  }

  /**
   * The specification of paginate: the layout exists, and files are the
   * pages of the greedy plan over the gap-run candidates with the ideal the
   * optimizer is handed.
   */
  ghost predicate IsPagination(lineIsGap: seq<bool>, width: int, height: int, dir: Direction,
                               ratio: Ratio, padding: int, margins: Option<Margins>, files: seq<PageSpec>)
    requires ratio.Valid()
  {
    var total := if dir.Vertical() then width else height;
    var breadth := if dir.Vertical() then height else width;
    var setup := SetUp(dir, breadth, ratio, margins, padding);
    && setup.Success?
    && PagesOfGapPlan(setup.value, lineIsGap, total,
                      PageOptimizer.IdealExtent(OverrideIdeal(setup.value, breadth, ratio), breadth, ratio),
                      width, height, files)
  }

  /**
   * paginate: detect gap runs along the split axis, take their midlines as
   * candidates (or the far edge alone when there is none), derive the layout
   * (rejecting margins that leave no content area), select the cuts, compose
   * one page per cut interval and, under right-to-left reading with more than
   * one page, renumber. The result lists the pages in file order.
   */
  method Paginate(lineIsGap: seq<bool>, width: int, height: int, dir: Direction,
                  ratio: Ratio, padding: int, margins: Option<Margins>)
    returns (r: Result<seq<PageSpec>, PaginateError>)
    requires ratio.Valid() && width > 0 && height > 0
    requires |lineIsGap| == if dir.Vertical() then width else height
    ensures var breadth := if dir.Vertical() then height else width;
      && (r.Failure? <==> margins.Some? && MarginLayout(dir, breadth, margins.value, ratio).Failure?)
      && (r.Failure? ==> r.error == MarginLayout(dir, breadth, margins.value, ratio).error)
    ensures r.Success? ==> IsPagination(lineIsGap, width, height, dir, ratio, padding, margins, r.value)
    ensures r.Success? ==>
      var total := if dir.Vertical() then width else height;
      var L := SetUp(dir, if dir.Vertical() then height else width, ratio, margins, padding).value;
      && (forall k :: 0 <= k < |r.value| ==> r.value[k].canvasW == L.uniformW && r.value[k].canvasH == L.uniformH)
      && (!dir.Rtl() || |r.value| == 1 ==> TilesForward(r.value, total))
      && (dir.Rtl() && |r.value| > 1 ==> TilesBackward(r.value, total))
      && (forall k :: 0 <= k < |r.value| && 0 < r.value[k].start < |lineIsGap| ==> lineIsGap[r.value[k].start])
    ensures r.Success? && (forall i :: 0 <= i < |lineIsGap| ==> !lineIsGap[i]) ==>
      |r.value| == 1
  {
    var total := if dir.Vertical() then width else height;
    var breadth := if dir.Vertical() then height else width;
    var setup := SetUp(dir, breadth, ratio, margins, padding);
    if setup.Failure? {
      return Failure(setup.error);
    }
    var L := setup.value;
    var files := PlanAndCompose(L, lineIsGap, total, breadth, ratio, width, height);
    PaginationProperties(L, lineIsGap, total, PageOptimizer.IdealExtent(OverrideIdeal(L, breadth, ratio), breadth, ratio),
                         width, height, files);
    r := Success(files);
  }

  /**
   * The rest of paginate once the layout is set up: the cut candidates are
   * the midlines of the gap runs (the far edge alone when there are none),
   * the optimizer picks the cuts, one page is composed per interval and,
   * under right-to-left reading with more than one page, the pages are
   * renumbered.
   */
  method PlanAndCompose(L: Layout, lineIsGap: seq<bool>, total: int, breadth: int, ratio: Ratio, width: int, height: int)
    returns (files: seq<PageSpec>)
    requires ratio.Valid() && total == |lineIsGap| > 0
    ensures PagesOfGapPlan(L, lineIsGap, total,
                           PageOptimizer.IdealExtent(OverrideIdeal(L, breadth, ratio), breadth, ratio),
                           width, height, files)
  {
    var groups := GapDetector.FindGaps(lineIsGap);
    var midlines := GapDetector.Midlines(groups);
    if midlines == [] {
      midlines := [total];
    }
    assert midlines == Candidates(GapDetector.Midlines(groups), total);
    var cuts := PageOptimizer.FindOptimalCuts(total, breadth, midlines, OverrideIdeal(L, breadth, ratio), ratio, L.rtl);
    var pages := ComposePages(L, cuts, width, height);
    files := pages;
    if L.rtl && |pages| > 1 {
      files := RenumberRtl(pages);
    }
    PlanPagesInFileOrder(L, cuts, width, height, pages, files);
    var ideal := PageOptimizer.IdealExtent(OverrideIdeal(L, breadth, ratio), breadth, ratio);
    PaginationWitness(L, lineIsGap, total, ideal, width, height, groups, cuts, files);
  }

  /** The composed pages, renumbered when the source renumbers them, are the plan's pages in file order. */
  lemma PlanPagesInFileOrder(L: Layout, cuts: seq<int>, width: int, height: int, pages: seq<PageSpec>, files: seq<PageSpec>)
    requires |cuts| >= 2 && |pages| == |cuts| - 1
    requires forall i :: 0 <= i < |pages| ==> pages[i] == PageAt(L, cuts, width, height, i)
    requires L.rtl && |pages| > 1 ==>
      |files| == |pages| && forall n :: 1 <= n <= |pages| ==> files[n - 1] == pages[PageOfFile(|pages|, n)]
    requires !(L.rtl && |pages| > 1) ==> files == pages
    ensures FilesOfPlan(L, cuts, width, height, files)
  {
    if L.rtl && |pages| > 1 {
      var t := |pages|;
      forall k | 0 <= k < t
        ensures files[k] == PageAt(L, cuts, width, height, t - 1 - k)
      {
        assert files[(k + 1) - 1] == pages[PageOfFile(t, k + 1)];
      }
    }
  }

  /** The gap runs, the plan chosen over their candidates and its pages witness PagesOfGapPlan. */
  lemma PaginationWitness(L: Layout, lineIsGap: seq<bool>, total: int, ideal: int, width: int, height: int,
                          groups: seq<GapDetector.GapGroup>, cuts: seq<int>, files: seq<PageSpec>)
    requires GapDetector.IsGapRuns(lineIsGap, groups)
    requires PlanFor(PageOptimizer.AllPoints(total, Candidates(GapDetector.Midlines(groups), total)), total, ideal, L.rtl, cuts)
    requires FilesOfPlan(L, cuts, width, height, files)
    ensures PagesOfGapPlan(L, lineIsGap, total, ideal, width, height, files)
  {
  }

  /**
   * What the specification of paginate promises: every page is on the
   * canvas of the layout, the crops tile the whole length (from the far edge
   * back once renumbered), every page boundary inside the image is a gap
   * line, and an image without gap lines is one page.
   */
  lemma PaginationProperties(L: Layout, lineIsGap: seq<bool>, total: int, ideal: int, width: int, height: int,
                             files: seq<PageSpec>)
    requires total == |lineIsGap| > 0
    requires PagesOfGapPlan(L, lineIsGap, total, ideal, width, height, files)
    ensures forall k :: 0 <= k < |files| ==> files[k].canvasW == L.uniformW && files[k].canvasH == L.uniformH
    ensures !L.rtl || |files| == 1 ==> TilesForward(files, total)
    ensures L.rtl && |files| > 1 ==> TilesBackward(files, total)
    ensures forall k :: 0 <= k < |files| && 0 < files[k].start < |lineIsGap| ==> lineIsGap[files[k].start]
    ensures (forall i :: 0 <= i < |lineIsGap| ==> !lineIsGap[i]) ==> |files| == 1
  {
    var groups :| GapDetector.IsGapRuns(lineIsGap, groups) &&
      PagesOfSomePlan(L, PageOptimizer.AllPoints(total, Candidates(GapDetector.Midlines(groups), total)),
                      total, ideal, width, height, files);
    var pts := PageOptimizer.AllPoints(total, Candidates(GapDetector.Midlines(groups), total));
    var cuts :| PlanFor(pts, total, ideal, L.rtl, cuts) && FilesOfPlan(L, cuts, width, height, files);
    PlanFilesTile(L, pts, total, ideal, cuts, width, height, files);
    PlanBoundariesAreGapLines(L, lineIsGap, groups, total, cuts, width, height, files);
    if forall i :: 0 <= i < |lineIsGap| ==> !lineIsGap[i] {
      GapDetector.NoGapLineNoGroup(lineIsGap, groups);
      PageOptimizer.OnlyEndCandidateSinglePage(total, ideal, cuts, L.rtl);
    }
  }

  /** Every page boundary inside the image of a plan over gap-run candidates is a gap line. */
  lemma PlanBoundariesAreGapLines(L: Layout, lineIsGap: seq<bool>, groups: seq<GapDetector.GapGroup>, total: int,
                                  cuts: seq<int>, width: int, height: int, files: seq<PageSpec>)
    requires total == |lineIsGap| > 0 && GapDetector.IsGapRuns(lineIsGap, groups)
    requires forall k :: 0 <= k < |cuts| ==> cuts[k] in PageOptimizer.AllPoints(total, Candidates(GapDetector.Midlines(groups), total))
    requires FilesOfPlan(L, cuts, width, height, files)
    ensures forall k :: 0 <= k < |files| && 0 < files[k].start < |lineIsGap| ==> lineIsGap[files[k].start]
  {
    InnerCutsAreGapLines(lineIsGap, groups, total, cuts);
    FilesCrop(L, cuts, width, height, files);
  }

  /** The crop interval and canvas of every file, read off the plan. */
  lemma FilesCrop(L: Layout, cuts: seq<int>, width: int, height: int, files: seq<PageSpec>)
    requires FilesOfPlan(L, cuts, width, height, files)
    ensures forall k :: 0 <= k < |files| ==>
      var j := if L.rtl && |files| > 1 then |files| - 1 - k else k;
      && files[k].start == cuts[j] && files[k].end == cuts[j + 1]
      && files[k].canvasW == L.uniformW && files[k].canvasH == L.uniformH
  {
    forall k | 0 <= k < |files|
      ensures var j := if L.rtl && |files| > 1 then |files| - 1 - k else k;
        && files[k].start == cuts[j] && files[k].end == cuts[j + 1]
        && files[k].canvasW == L.uniformW && files[k].canvasH == L.uniformH
    {
      var j := if L.rtl && |files| > 1 then |files| - 1 - k else k;
      assert files[k] == PageAt(L, cuts, width, height, j);
    }
  }

  /** Files cropping consecutive intervals of a strictly ascending plan from 0 to total tile [0, total). */
  lemma CropsTile(cuts: seq<int>, total: int, reversed: bool, files: seq<PageSpec>)
    requires |cuts| >= 2 && cuts[0] == 0 && cuts[|cuts| - 1] == total
    requires forall k, l :: 0 <= k < l < |cuts| ==> cuts[k] < cuts[l]
    requires |files| == |cuts| - 1
    requires forall k :: 0 <= k < |files| ==>
      var j := if reversed then |files| - 1 - k else k;
      files[k].start == cuts[j] && files[k].end == cuts[j + 1]
    ensures !reversed ==> TilesForward(files, total)
    ensures reversed ==> TilesBackward(files, total)
  {
    var n := |files|;
    forall k | 0 <= k < n
      ensures files[k].start < files[k].end
    {
      var j := if reversed then n - 1 - k else k;
      assert cuts[j] < cuts[j + 1];
    }
    if reversed {
      assert files[0].end == cuts[n];
      assert files[n - 1].start == cuts[0];
      forall k | 0 <= k < n - 1
        ensures files[k].start == files[k + 1].end
      {
        assert files[k + 1].end == cuts[n - 1 - (k + 1) + 1];
      }
    } else {
      assert files[0].start == cuts[0];
      assert files[n - 1].end == cuts[n];
    }
  }

  /** The pages of a greedy plan, in file order, share the canvas and tile [0, total). */
  lemma PlanFilesTile(L: Layout, pts: seq<int>, total: int, ideal: int, cuts: seq<int>, width: int, height: int,
                      files: seq<PageSpec>)
    requires 0 in pts && total in pts
    requires PlanFor(pts, total, ideal, L.rtl, cuts) && FilesOfPlan(L, cuts, width, height, files)
    ensures forall k :: 0 <= k < |files| ==> files[k].canvasW == L.uniformW && files[k].canvasH == L.uniformH
    ensures forall k :: 0 <= k < |cuts| ==> cuts[k] in pts
    ensures !L.rtl || |files| == 1 ==> TilesForward(files, total)
    ensures L.rtl && |files| > 1 ==> TilesBackward(files, total)
  {
    if L.rtl {
      PageOptimizer.ReversePlanShape(pts, total, ideal, cuts);
    } else {
      PageOptimizer.ForwardPlanShape(pts, total, ideal, cuts);
    }
    FilesCrop(L, cuts, width, height, files);
    CropsTile(cuts, total, L.rtl && |files| > 1, files);
  }

  /** A cut strictly inside the image, taken from the candidates of gap runs, is a gap line. */
  lemma InnerCutsAreGapLines(lineIsGap: seq<bool>, groups: seq<GapDetector.GapGroup>, total: int, cuts: seq<int>)
    requires GapDetector.IsGapRuns(lineIsGap, groups) && total == |lineIsGap|
    requires forall k :: 0 <= k < |cuts| ==> cuts[k] in PageOptimizer.AllPoints(total, Candidates(GapDetector.Midlines(groups), total))
    ensures forall k :: 0 <= k < |cuts| && 0 < cuts[k] < total ==> lineIsGap[cuts[k]]
  {
    var mids := GapDetector.Midlines(groups);
    forall k | 0 <= k < |cuts| && 0 < cuts[k] < total
      ensures lineIsGap[cuts[k]]
    {
      var c := cuts[k];
      assert c in Candidates(mids, total);
      assert mids != [];
      var m :| 0 <= m < |mids| && mids[m] == c;
      assert groups[m].start <= c <= groups[m].end;
      assert GapDetector.Covered(groups, c);
    }
  }

  /** Every page is drawn on the same canvas. */
  ghost predicate SameCanvas(files: seq<PageSpec>) {
    forall k, l :: 0 <= k < |files| && 0 <= l < |files| ==>
      files[k].canvasW == files[l].canvasW && files[k].canvasH == files[l].canvasH
  }

  /** The crop intervals are nonempty and tile [0, total) from the near edge onwards. */
  ghost predicate TilesForward(files: seq<PageSpec>, total: int) {
    && |files| >= 1
    && (forall k :: 0 <= k < |files| ==> files[k].start < files[k].end)
    && files[0].start == 0 && files[|files| - 1].end == total
    && (forall k :: 0 <= k < |files| - 1 ==> files[k].end == files[k + 1].start)
  }

  /** The crop intervals are nonempty and tile [0, total) from the far edge back. */
  ghost predicate TilesBackward(files: seq<PageSpec>, total: int) {
    && |files| >= 1
    && (forall k :: 0 <= k < |files| ==> files[k].start < files[k].end)
    && files[0].end == total && files[|files| - 1].start == 0
    && (forall k :: 0 <= k < |files| - 1 ==> files[k].start == files[k + 1].end)
  }

  /** A remainder page is flush with the reading-start edge of the content area. */
  lemma RemainderPageFlush(L: Layout, cuts: seq<int>, width: int, height: int)
    requires |cuts| > 2
    ensures var p := PageAt(L, cuts, width, height, RemainderIndex(L.rtl, |cuts| - 1));
      && (L.vertical && L.rtl ==> p.pasteX + p.contentW == L.uniformW - L.m.right)
      && (L.vertical && !L.rtl ==> p.pasteX == L.m.left)
      && (!L.vertical ==> p.pasteX == L.m.left)
      && p.pasteY == (if L.marginMode then L.m.top else 0)
  {
  }

  /**
   * Every other page (and a page that is alone) is centred along the split
   * axis: the free space before and after the content differs by at most one
   * pixel, the extra pixel going after. In margin mode the free space is
   * measured inside the content area; a horizontal page that does not fit in
   * it is pasted at the top margin.
   */
  lemma OtherPagesCentred(L: Layout, cuts: seq<int>, width: int, height: int, i: int)
    requires 0 <= i < |cuts| - 1
    requires i != RemainderIndex(L.rtl, |cuts| - 1) || |cuts| == 2
    ensures var p := PageAt(L, cuts, width, height, i);
      && (L.vertical ==> 0 <= (L.uniformW - (p.pasteX + p.contentW)) - p.pasteX <= 1)
      && (!L.vertical ==> p.pasteX == L.m.left)
      && (!L.vertical && L.marginMode && p.contentH < L.contentArea ==>
            0 <= (L.m.top + L.contentArea - (p.pasteY + p.contentH)) - (p.pasteY - L.m.top) <= 1)
      && (!L.vertical && L.marginMode && p.contentH >= L.contentArea ==> p.pasteY == L.m.top)
      && (!L.vertical && !L.marginMode ==>
            0 <= (L.uniformH - (p.pasteY + p.contentH)) - p.pasteY <= 1)
  {
  }

  /**
   * The corrected offset of a centred page whose extent fits the content
   * area puts it inside that area, clear of both margins on the split axis.
   */
  lemma CentredPageInsideContentArea(L: Layout, cw: int, ch: int)
    requires L.marginMode && 0 <= (if L.vertical then cw else ch) <= L.contentArea
    ensures var o := PasteOffset(L, false, cw, ch);
      && (L.vertical ==> L.m.left <= o.0 && o.0 + cw <= L.m.left + L.contentArea)
      && (!L.vertical ==> L.m.top <= o.1 && o.1 + ch <= L.m.top + L.contentArea)
  {
  }

  /** With equal left and right margins the corrected offset is the source's offset. */
  lemma CorrectedOffsetAgreesWhenSymmetric(L: Layout, flush: bool, cw: int, ch: int)
    requires L.marginMode ==> L.m.left == L.m.right && L.uniformW == L.m.left + L.contentArea + L.m.right
    ensures PasteOffset(L, flush, cw, ch) == PasteOffsetAsWritten(L, flush, cw, ch)
  {
    if L.marginMode && !flush && L.vertical {
      assert L.uniformW - cw == 2 * L.m.left + (L.contentArea - cw);
    }
  }

  /**
   * As written, a centred vertical page in margin mode is centred in the whole
   * page width. With only a right margin of 100 on a 160-wide page (content
   * area 60), a 40-wide strip is pasted at x = 60: entirely inside the right
   * margin, although it fits the content area.
   */
  lemma AsWrittenCentringEntersMargin()
    ensures var L := SetUp(VerticalLtr, 160, Ratio(1, 1), Some(Margins(0, 100, 0, 0)), 20).value;
      var offset := PasteOffsetAsWritten(L, false, 40, 160);
      && L.uniformW == 160 && L.contentArea == 60
      && 40 <= L.contentArea
      && offset.0 == 60
      && offset.0 >= L.uniformW - L.m.right
  {
  }

  /** Margins (0, 600, 0, 600) on a derived page width of 1000 are rejected. */
  lemma OversizedSideMarginsRejected()
    ensures MarginLayout(VerticalLtr, 1000, Margins(0, 600, 0, 600), Ratio(1, 1))
         == Failure(MarginsTooLarge(1200, 1000))
  {
  }

  /** The right-to-left remainder page (index 0, flush right) becomes the last file. */
  lemma RtlRemainderIsLastFile(total: int)
    requires total > 1
    ensures PageOfFile(total, total) == RemainderIndex(true, total)
    ensures FileNumber(total, RemainderIndex(true, total)) == total
  {
  }

  /**
   * A 300-wide, 1000-tall screenshot with one gap band on rows 500..509, split
   * top to bottom at ratio 16/9 with no override: the band's midline is row
   * 504, the ideal page height int(300 * 16 / 9) = 533, and the only forward
   * plan cuts at 504, giving pages of 504 and 496 rows.
   */
  lemma TallScreenshotTwoPages(cuts: seq<int>)
    requires PageOptimizer.ForwardPlan(PageOptimizer.AllPoints(1000, [504]), 1000, 533, cuts)
    ensures GapDetector.Midlines([GapDetector.GapGroup(500, 509)]) == [504]
    ensures PageOptimizer.IdealExtent(None, 300, Ratio(9, 16)) == 533
    ensures cuts == [0, 504, 1000]
  {
    var pts := PageOptimizer.AllPoints(1000, [504]);
    assert pts == [0, 504, 1000];
    var plan := [0, 504, 1000];
    assert PageOptimizer.ForwardStep(pts, 1000, 533, 0, 504) by {
      assert 504 in pts && 0 < 504 <= 533;
    }
    assert PageOptimizer.ForwardStep(pts, 1000, 533, 504, 1000);
    assert PageOptimizer.ForwardPlan(pts, 1000, 533, plan);
    PageOptimizer.ForwardPlanUnique(pts, 1000, 533, cuts, plan);
  }
}
