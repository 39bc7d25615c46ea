# Screenshot paginator: a Dafny model of its core

The screenshot paginator splits one long screenshot into pages that have a
chosen aspect ratio. It never cuts through content. The pieces:

- **Gap detection.** Runs of "pure colour" lines become gap groups. The
  midline of each group is a safe place to cut.
- **Greedy print-fill selection.** This picks cuts among those midlines.
  It runs forward from the near edge, or backward from the far edge when the
  reading direction is right to left. Each page is filled as close to the
  ideal extent as possible without exceeding it.
- **Page layout.** Each page is placed on a uniform canvas:
  - Margin mode fixes the page from the margins and the ratio, and refuses
    margins that leave no content area.
  - Padding mode pads the ideal extent left and right.
  - The remainder page is flush with the reading-start edge; the other pages
    are centred.
  - Under right-to-left reading the pages are renumbered.
- **Command line parsing.** This covers the `W:H` ratio and the margins
  string, which can be "all", "v,h" or "top,right,bottom,left".
- **The web front end's multipart/form-data reader.** This turns a POST
  body into form fields and an uploaded file.

Modules, one per concern of the source:

- `Wrappers` (wrappers.dfy): `Option` and `Result`.
- `Numeric` (numeric.dfy): the page ratio height/width as the exact rational
  `h/w`, and Python's `int()` of an exact quotient as `TruncDiv`.
- `GapDetector` (gaps.dfy): `_find_gaps` as a scanning method over the
  per-line verdicts, and `get_gap_midlines`.
- `PageOptimizer` (optimizer.dfy): `find_optimal_cuts` as a method. One loop
  method per direction, with one scan method per list comprehension, each
  proved against a relational specification of the greedy rule
  (`ForwardStep`/`ForwardPlan`, `ReverseStep`/`ReversePlan`).
- `Paginator` (layout.dfy): the arithmetic of `paginate` and the pipeline
  that ties it together. A page is the record of what would be cropped and
  where it would be pasted.
- `CliParsing` (cli.dfy): Python's `int()` and `str.split`,
  `_parse_ratio`, and the margins expansion in `main`.
- `Multipart` (multipart.dfy): `_parse_multipart` over bytes. The
  routing rule for one part is the function `PartEffect`. The reader is a
  loop over the parts that applies these effects, and it has a round-trip
  property against an encoder of form items.

Two points of the code are easy to misread, and the model follows the code:

- The cut for a gap band is its floor midpoint `(start + end) // 2`
  (paginate_screenshot.py:79). The band on rows 500..509 is cut at row 504
  (`Paginator.TallScreenshotTwoPages`).
- Centred pages of horizontal splits in margin mode are centred between the
  top and bottom margins (paginate_screenshot.py:416-417). Centred pages of
  vertical splits are centred in the whole page width, margins or not
  (paginate_screenshot.py:411). The pipeline uses this offset as written
  (`Paginator.PasteOffsetAsWritten`); the offset that centres in the content
  area is `Paginator.PasteOffset` (see Findings).

## Model

| member | source | states |
|---|---|---|
| GapDetector.FindGaps | paginate_screenshot.py:47-67 | The groups are exactly the maximal runs of gap lines: non-empty, in bounds, ascending, separated by at least one non-gap line, and a line is a gap line iff some group covers it. |
| GapDetector.GroupStartIsGap | paginate_screenshot.py:57-59 | A group opens only on a gap line. |
| GapDetector.NoGapLineNoGroup | paginate_screenshot.py:53-65 | An image without any pure-colour line has no gap group. |
| GapDetector.RunsAreMaximal | paginate_screenshot.py:57-65 | The lines just before and just after every group are not gap lines. |
| GapDetector.AllGapLinesOneGroup | paginate_screenshot.py:53-65 | An image made only of gap lines gives the one group covering it, closed at the last line. |
| GapDetector.GroupIsAllGap | paginate_screenshot.py:53-65 | Every line of a run is a gap line. |
| GapDetector.NoGapBetweenGroups | paginate_screenshot.py:53-65 | No gap line lies before the first run, between two consecutive runs, or after the last run. |
| GapDetector.GapRunsAgree | paginate_screenshot.py:47-67 | Two lists of the maximal runs of the same lines agree group by group on their common length. |
| GapDetector.GapRunsUnique | paginate_screenshot.py:47-67 | The maximal gap runs of a sequence of line verdicts are unique, so the runs in the specification of paginate are the ones the scan finds. |
| GapDetector.Midlines | paginate_screenshot.py:78-80 | One midline per group: the floor midpoint, which lies inside its group. |
| GapDetector.MidlinesOfRuns | paginate_screenshot.py:78-80 | The midlines of detected runs are in-range line indices, strictly ascending. |
| PageOptimizer.AllPoints | paginate_screenshot.py:138 | The plan's points are exactly 0, the total length and the cut points. |
| PageOptimizer.IdealExtent | paginate_screenshot.py:139 | A set non-zero override is the ideal; otherwise the ideal is int(breadth * ratio). |
| PageOptimizer.LargestInWindow | paginate_screenshot.py:202-204 | Reports whether some point lies in (cursor, target], and if so returns the largest. |
| PageOptimizer.SmallestAbove | paginate_screenshot.py:187-208 | Reports whether some point lies above the cursor, and if so returns the smallest. |
| PageOptimizer.SmallestInWindow | paginate_screenshot.py:165-167 | Reports whether some point lies in [target, cursor), and if so returns the smallest. |
| PageOptimizer.LargestBelow | paginate_screenshot.py:151-171 | Reports whether some point lies below the cursor, and if so returns the largest. |
| PageOptimizer.ForwardCuts | paginate_screenshot.py:181-216 | The forward loop yields a plan obeying the forward rule at every step; a zero length gives [0]. |
| PageOptimizer.ReverseCuts | paginate_screenshot.py:145-179 | The backward loop, sorted ascending, yields a plan obeying the backward rule at every step. |
| PageOptimizer.FindOptimalCuts | paginate_screenshot.py:135-216 | No cut points give []. Otherwise the plan follows the forward or reverse rule, runs from 0 to the total length, is strictly ascending and uses only candidate points. |
| PageOptimizer.ForwardPlanUnique | paginate_screenshot.py:181-216 | The forward rule determines the plan: two forward plans over the same points are equal. |
| PageOptimizer.MirrorPlanInvolution | paginate_screenshot.py:145-216 | Mirroring a plan about the far edge twice gives it back. |
| PageOptimizer.ReverseStepIsMirroredForward | paginate_screenshot.py:145-216 | One backward step is a forward step in mirrored coordinates, and conversely. |
| PageOptimizer.ReversePlanIsMirroredForward | paginate_screenshot.py:145-216 | A plan follows the backward rule iff its mirror image follows the forward rule over the mirrored points. |
| PageOptimizer.ForwardPlanSameMembers | paginate_screenshot.py:138 | The forward rule depends only on which points are candidates, not on their order or repetition. |
| PageOptimizer.SymmetricCandidatesMirrorPlans | paginate_screenshot.py:145-216 | With candidates symmetric about the middle, the reverse plan is the mirror image of the forward plan. |
| PageOptimizer.ForwardOverflowOnlyWhenForced | paginate_screenshot.py:202-208 | A forward page longer than the ideal occurs only when no candidate lies within the ideal, and it ends at the nearest candidate. |
| PageOptimizer.ReverseOverflowOnlyWhenForced | paginate_screenshot.py:163-171 | A backward page longer than the ideal occurs only when no candidate lies within the ideal, and it starts at the nearest candidate. |
| PageOptimizer.OnlyEndCandidateSinglePage | paginate_screenshot.py:294-296 | When the only candidate is the far edge, both directions give the single page [0, total]. |
| Paginator.MarginLayout | paginate_screenshot.py:299-322 | The margin-mode page: the fixed page side, the side derived from the ratio by truncation, and a positive content area that fills the page with the two margins. The configuration is refused exactly when the content area is not positive, reporting the margin sum and the page extent. |
| Paginator.SetUp | paginate_screenshot.py:299-364 | The canvas in both modes. Margin mode uses the margin page; padding mode uses the ideal extent with the padding on both sides, and the margins become (0, padding, 0, padding). Fails exactly when MarginLayout does. |
| Paginator.IdealMatchesCanvas | paginate_screenshot.py:329-364 | The optimizer's ideal equals the canvas content extent along the split axis. The one exception: a vertical padding-mode ideal of 0 is falsy and falls back to int(breadth * ratio). |
| Paginator.RemainderIndex | paginate_screenshot.py:374 | The remainder page is index 0 under right-to-left reading and the last index otherwise, always in range. |
| Paginator.OverrideIdeal | paginate_screenshot.py:329-341 | The override handed to the optimizer: the content area in margin mode, int(breadth / ratio) (its truncation bounds) for vertical padding mode, and none for horizontal padding mode. |
| Paginator.PasteOffsetAsWritten | paginate_screenshot.py:394-419 | The paste offset as the code computes it. A remainder page is flush right (right-to-left) or flush left, at the top margin or 0. A centred vertical page is centred in the whole page width to within one pixel. A centred horizontal page sits at the left margin, centred between the top and bottom margins when it is shorter than the content area, at the top margin when it is not, and centred in the page height in padding mode. |
| Paginator.PasteOffset | paginate_screenshot.py:410-412 | The corrected offset: a centred vertical page in margin mode is centred in the content area to within one pixel, at the top margin. Every other offset is the as-written one. |
| Paginator.PageAt | paginate_screenshot.py:378-419 | Page i crops cuts[i]..cuts[i+1] over the full breadth, on the uniform canvas, with the content size of that crop. |
| Paginator.ComposePages | paginate_screenshot.py:378-419 | One page per adjacent pair of cuts, each equal to PageAt: it crops exactly that interval over the full breadth, sits on the uniform canvas, and is pasted at the as-written offset. |
| Paginator.RemainderPageFlush | paginate_screenshot.py:394-407 | With more than one page, the remainder page touches the right margin under right-to-left reading and the left margin otherwise, at the top margin (margin mode) or at 0. |
| Paginator.OtherPagesCentred | paginate_screenshot.py:409-419 | Every other page is pasted as the code centres it, to within one pixel. A vertical page is centred in the whole page width, in both modes. A horizontal page sits at the left margin and is centred between the top and bottom margins in margin mode, or at the top margin when it is too tall for the content area. In padding mode it is centred in the page height. |
| Paginator.CentredPageInsideContentArea | paginate_screenshot.py:409-419 | In margin mode, the corrected offset of a centred page that fits the content area keeps it clear of both margins on the split axis. |
| Paginator.CorrectedOffsetAgreesWhenSymmetric | paginate_screenshot.py:410-412 | In padding mode, and in margin mode with equal left and right margins, the corrected offset is the source's offset. |
| Paginator.AsWrittenCentringEntersMargin | paginate_screenshot.py:410-412 | As written, a 40-wide strip on a 160-wide page with a right margin of 100 is pasted at x = 60, inside the right margin (60 >= 160 - 100). |
| Paginator.FileNumber | paginate_screenshot.py:442-443 | A right-to-left file number lies in 1..total. |
| Paginator.PageOfFile | paginate_screenshot.py:442-446 | The page index behind a file number lies in 0..total-1. |
| Paginator.RtlNumberingRoundTrips | paginate_screenshot.py:434-447 | File numbering and page indices are mutually inverse. |
| Paginator.RenumberRtl | paginate_screenshot.py:434-447 | File n holds page total - n: the list in file order is the pages reversed. |
| Paginator.RtlRemainderIsLastFile | paginate_screenshot.py:434-447 | The right-to-left remainder page (index 0) becomes the last file. |
| Paginator.Paginate | paginate_screenshot.py:272-447 | Fails exactly when the margins leave no content area, reporting that error. Otherwise the files satisfy IsPagination: for some maximal gap runs of the image, they are PageAt of a forward plan (or a reverse plan under right-to-left reading) over 0, the total and the runs' midlines (the far edge alone when there are none), with the ideal the code hands the optimizer, renumbered under right-to-left reading. All pages share the layout's canvas. Their crops tile the whole length, in file order or from the far edge back after renumbering. Every inner page boundary is a gap line. An image without gap lines gives one page. |
| Paginator.PlanAndCompose | paginate_screenshot.py:324-447 | After set-up, the files are the pages of the greedy plan over the gap-run candidates, in file order. |
| Paginator.PaginationProperties | paginate_screenshot.py:272-447 | Any pages of such a plan share the canvas, tile the length (backward once renumbered), start every page inside the image at a gap line, and number one when there is no gap line. |
| Paginator.PlanPagesInFileOrder | paginate_screenshot.py:434-447 | The composed pages, renumbered when there is more than one under right-to-left reading, are PageAt of the plan in file order. |
| Paginator.PlanFilesTile | paginate_screenshot.py:378-447 | The pages of a plan share the canvas, use only plan points, and tile the length forward or, once renumbered, backward. |
| Paginator.FilesCrop | paginate_screenshot.py:378-392 | File k crops the plan interval of its page index, on the uniform canvas. |
| Paginator.CropsTile | paginate_screenshot.py:378-447 | Crops read off a strictly ascending plan from 0 to the total tile the length in the file order used. |
| Paginator.InnerCutsAreGapLines | paginate_screenshot.py:78-80 | Every cut strictly inside the image that is drawn from the runs' midlines is a gap line. |
| Paginator.PlanBoundariesAreGapLines | paginate_screenshot.py:378-447 | Every page boundary inside the image is a gap line. |
| Paginator.OversizedSideMarginsRejected | paginate_screenshot.py:301-308 | Side margins of 600 + 600 on a derived page width of 1000 are refused with exactly those numbers. |
| Paginator.TallScreenshotTwoPages | paginate_screenshot.py:135-216 | A 300x1000 screenshot with one band on rows 500..509: the midline is 504, the ideal int(300 * 16 / 9) = 533, and the only forward plan is [0, 504, 1000]. |
| Numeric.TruncDiv | paginate_screenshot.py:331 | int() of an exact quotient: for a non-negative numerator, the largest q with q * den <= num; for a negative one, the value truncated toward zero. |
| Numeric.ScaleByRatio | paginate_screenshot.py:139 | int(x * (h / w)): for x >= 0, the largest r with r * w <= x * h. |
| Numeric.ScaleByInverse | paginate_screenshot.py:331 | int(x / (h / w)): for x >= 0, the largest r with r * h <= x * w. |
| CliParsing.ParseInt | paginate_screenshot.py:504 | int() accepts a string exactly when, once stripped, it is an optional sign followed by digit groups. |
| CliParsing.ParseLiteral | paginate_screenshot.py:504 | The stripped text has a value exactly when it is an optional sign followed by digit groups. |
| CliParsing.StripTrimsEnds | paginate_screenshot.py:504 | The stripping int() does removes whitespace only, and all of it at both ends. |
| CliParsing.StripAround | paginate_screenshot.py:504 | Whitespace padding around a string that neither starts nor ends with whitespace is stripped away. |
| CliParsing.ParseIntIgnoresSurroundingSpaces | paginate_screenshot.py:504 | int() gives the same result with or without whitespace around a literal. |
| CliParsing.ParseIntPlusSign | paginate_screenshot.py:504 | A '+' sign before digit groups does not change the value. |
| CliParsing.DigitsValueLeadingZero | paginate_screenshot.py:504 | A leading zero does not change the value of a digit run. |
| CliParsing.DigitsValueUnderscore | paginate_screenshot.py:504 | An underscore does not change the value of a digit run. |
| CliParsing.ParseShowInt | paginate_screenshot.py:504 | int() reads back every decimal representation. |
| CliParsing.Split | paginate_screenshot.py:500 | str.split on one character: at least one part, no part contains the separator, and joining the parts gives the string back. |
| CliParsing.SplitJoin | paginate_screenshot.py:500 | Splitting a join of separator-free parts recovers the parts. |
| CliParsing.ParseRatio | paginate_screenshot.py:498-509 | A ratio comes back iff the string splits on ':' into exactly two parts that int() reads as positive numbers, and it is the ratio of those two numbers. Any count other than two is refused. |
| CliParsing.ParseRatioRoundTrip | paginate_screenshot.py:498-509 | "W:H" for positive W and H parses to the ratio W:H. |
| CliParsing.ParseRatioRefusesNonPositive | paginate_screenshot.py:505-506 | A zero or negative width or height is refused. |
| CliParsing.ParseAll | paginate_screenshot.py:607-616 | All parts are read by int(), or the failure names a part that int() rejects. It fails iff such a part exists. |
| CliParsing.ParseMargins | paginate_screenshot.py:604-619 | An absent or empty argument means no margins. A part count other than 1, 2 or 4 is refused with that count. For 1, 2 or 4 parts it fails iff some part is rejected by int(), naming that part, and otherwise gives (v, v, v, v), (v, h, v, h) or (top, right, bottom, left) from the values read. |
| CliParsing.ParseMarginsRoundTrip | paginate_screenshot.py:615-616 | "top,right,bottom,left" parses back to those four margins. |
| CliParsing.ParseMarginsSingle | paginate_screenshot.py:607-610 | Any comma-free string that int() reads as v gives the margins (v, v, v, v). |
| CliParsing.ParseMarginsPair | paginate_screenshot.py:611-614 | Any two comma-free strings that int() reads as v and h give, joined by a comma, top = bottom = v and right = left = h. |
| Multipart.Boundary | web.py:515-518 | No boundary exactly when `boundary=` followed by a boundary byte never occurs. Otherwise the boundary is the longest run of bytes other than whitespace and ';' after the first such match. |
| Multipart.BoundaryOfContentType | web.py:515-518 | The Content-Type written for boundary b gives back b. |
| Multipart.SplitOn | web.py:521 | bytes.split: no part holds the delimiter, each part but the last ends at the first occurrence of the delimiter (no occurrence starts inside it), and joining the parts with it gives the body back. |
| Multipart.SplitOnOverlappingDelimiter | web.py:521 | A self-overlapping delimiter splits at its first occurrence: b"---" on b"--" gives b"" and b"-". |
| Multipart.SplitJoinWith | web.py:521 | Splitting a join recovers the parts, provided no part holds the delimiter or ends inside a prefix of it. |
| Multipart.ClosingForms | web.py:522 | The skipped stripped forms are exactly b"", b"--" and b"--\r\n". |
| Multipart.StrippedIsNeverDashCrlf | web.py:522 | The b"--\r\n" alternative can never match, since a stripped part does not end in whitespace. |
| Multipart.FieldName | web.py:530 | No name exactly when `name="` followed by a non-quote never occurs. Otherwise the name is the non-empty, longest quote-free text after the first match (a closing quote follows it). |
| Multipart.Strip | web.py:522 | bytes.strip: the result neither starts nor ends with ASCII whitespace. |
| Multipart.StripTrimsEnds | web.py:522 | Strip removes only whitespace, and all of it at both ends. |
| Multipart.DropCrlf | web.py:527-528 | One trailing CRLF is removed when there is one; otherwise the payload is unchanged. |
| Multipart.RouteRules | web.py:529-536 | RouteHeaders: headers without a name skip the part. A part with a name is the upload iff the headers contain filename=", and otherwise sets that name to the payload. |
| Multipart.PartEffectRoutes | web.py:522-528 | PartEffect of a part that is not skipped outright routes its headers and its payload minus one trailing CRLF. |
| Multipart.PartRules | web.py:522-526 | Empty and closing parts are skipped, as are parts without a blank line. Otherwise the headers end at the first blank line. |
| Multipart.PartWithHeaders | web.py:526-536 | A part with headers acts iff it is not closing and it names a field. It is the upload iff the headers mention filename=". The payload is the rest, minus one trailing CRLF. |
| Multipart.ReadPart | web.py:522-536 | The loop body for one part computes exactly the part's effect. |
| Multipart.EffectsOfAt | web.py:521-536 | Effect k is that of part k. |
| Multipart.ParseMultipart | web.py:514-537 | No boundary gives ({}, None). Otherwise the fields and the file are what the parts' effects give when applied in order. |
| Multipart.ApplyOne | web.py:533-536 | A SetField overwrites its name, a SetFile replaces the upload, and a Skip changes nothing. |
| Multipart.FieldsAreLastSettings | web.py:536 | A name is a field iff some part sets it, and its value is the one the last such part carries. |
| Multipart.FileIsLastUpload | web.py:533-534 | There is no upload iff no part is a file; otherwise the upload is the last file part's payload. |
| Multipart.NameOfHeader | web.py:530 | The headers an encoded item writes yield the item's name as the field name. |
| Multipart.ItemReadBack | web.py:522-536 | An encoded form item is read back as itself: a field with its name and value, or the upload with its data. |
| Multipart.SplitEncodedBody | web.py:521 | Splitting an encoded form on its delimiter gives the preamble, one part per item and the closing part. |
| Multipart.ClosingPartSkipped | web.py:522 | The closing part "--\r\n" is skipped. |
| Multipart.EffectsOfEncoded | web.py:521-536 | The encoded items act as the items, in order. |
| Multipart.FormRoundTrip | web.py:514-537 | A form encoded with a valid boundary is read back as the items, between two skipped parts: every field with its last value, and the last file item as the upload. |
| Multipart.ClosingHasNoDelimiter | web.py:521 | The closing part never contains the delimiter. |

## Left out

- The per-line verdict of `_is_pure_color` is an input here (a boolean per line). It is a standard-deviation test over pixel values, which is numeric image code, and so are `find_gap_groups` and `find_vertical_gap_groups`, which only choose the axis.
- `calculate_score` of the optimizer is not called by the cut selection and is not modelled.
- Image I/O is not modelled: loading, cropping, creating the white canvas, pasting, saving PNG files and creating the output directory. A page is the record (crop interval, sizes, paste offset) of what would be drawn.
- The right-to-left renaming through temporary file names is modelled as placing each page straight into its numbered slot. File names, which are prefix plus a three-digit number, are not modelled.
- The printed progress messages, `argparse`, the exit codes of `main`, PDF export and the HTTP server around `_parse_multipart` are not modelled.
- The page ratio is a Python float `h / w` in the source. The model uses the exact rational `h/w` with truncation toward zero. Where float rounding would make `int(x * ratio)` land one below an exact integer, the source can differ by one pixel.
- Direction strings other than the three are not modelled; the source fails on them with a KeyError.
- `sorted(set(...))` of the candidate points is kept as an unsorted list. Every choice made from it is a maximum, a minimum or a filter, so order and duplicates do not matter (`PageOptimizer.ForwardPlanSameMembers`).
- `int()` is modelled on ASCII digits and ASCII whitespace only. Python also accepts other Unicode digits and spaces.
- CliParsing.ParseMargins: a part that `int()` rejects is reported as an error value. The source lets that ValueError escape from `main` uncaught.
- Multipart.ParseMultipart: field names and values stay bytes. The source decodes them as UTF-8 with replacement characters, so two byte names that decode to the same text collide there but not here.
- Multipart.Boundary: the Content-Type value is modelled as bytes with code points below 256. The source's `.encode()` of a boundary containing non-ASCII text, and Unicode `\s` above 255, are not modelled.
- Multipart.FormRoundTrip: the round trip is stated for forms whose names avoid quotes, '=' and carriage returns, and whose file names avoid quotes and carriage returns. Part of this limit is the reader's own: it tests the headers for filename=" as a substring (web.py:533), so a field named `afilename=` would be read as the upload. The rest excludes names this encoder cannot write unambiguously.

## Findings

| source | as written | input that shows it | evidently intended | confidence | as-written member | corrected member |
|---|---|---|---|---|---|---|
| paginate_screenshot.py:410-412 | The pipeline keeps this behaviour. A centred page of a vertical split in margin mode is placed at `(uniform_w - content_w) // 2`, centred in the whole page width and ignoring the left and right margins. | Vertical left-to-right split, breadth 160, ratio 1:1, margins (0, 100, 0, 0): page 160 wide, content area 60. A 40-wide strip lands at x = 60..100, entirely inside the right margin. | Centre in the content area, `m_left + (content_area_length - content_w) // 2`, as the horizontal branch does between the top and bottom margins. | not executed | Paginator.PasteOffsetAsWritten, Paginator.AsWrittenCentringEntersMargin | Paginator.PasteOffset, Paginator.CentredPageInsideContentArea |
