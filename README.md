# Bubble-sheet score decoding, modelled in Dafny

This project models the integer core of the score-sheet reader in
`DIP-Flask/services/scoreExtractor.py`. The score extractor works on a photographed
score board. Image preprocessing, contour detection and the perspective warp
are OpenCV calls and are not modelled. What is modelled is the logic around
them:

- **Corner selection** (`find_corners_of_largest_polygon`, the part after
  contour detection). From the points of the largest contour it picks the
  top-left (smallest x + y), top-right (largest x - y), bottom-right
  (largest x + y) and bottom-left (smallest x - y) points. Python's `min` and
  `max` keep the first index on ties. An empty point list makes `min` raise.
  Module `Corners`, file `corners.dfy`.
- **Region counting** (`count_non_zero_pixels`). It counts the non-zero cells
  of the window `image[y:y+height, x:x+width]`. Numpy slicing clamps the
  window at the image edges, and a negative bound counts from the end.
  Module `Pixels`, file `pixels.dfy`. Python slicing and `str()` of an
  integer are in module `PyValues`, file `py_values.dfy`.
- **Bubble decoding** (`getIntegerDecimal`, `getScore` and the `> 1000`
  filter). For each row, the columns whose count exceeds 1000 are kept as
  `(index, count)` marks. `getIntegerDecimal` returns the integer `0` for no
  mark or three or more marks; otherwise it returns the marks.
  `getScore` then gives one of these:
  - `'v'` for a single mark at column 0;
  - `"<i-1>.<d-12>"` for two marks at columns `i != 0` and `d`;
  - `None` for the branches the source leaves open.

  `lst[0][0]` raises on the `0` sentinel. The model writes that exception out
  as a `Result`. Module `Bubbles`, file `bubbles.dfy`.
- **The scoring loop** of `grade_transcript`. Student row `k` (from 0) is
  probed at `y = 12 + 88*k`, in 22 fixed columns. Every probe uses the window
  size `w = 28, h = 72` left over from the last rectangle-drawing block, not
  each column's own width. The loop collects one score per row, in row order.
  The first row whose selection is the sentinel aborts the whole call with a
  `TypeError`. `GradeTranscript` is a method with the loop's own nested
  loops. It is proved equal to the specification function `Grade`. Module
  `Grading`, file `grading.dfy`.

The preprocessed binary image is a sequence of rows of integers. The number
of students, which the source computes as `int(h/88.05)` in floating point,
is a parameter.

The drawing blocks at lines 215-323 give each column its own window width
(27 to 30 pixels). The scoring loop does not use those widths. It reuses the
`w, h = 28, 72` that line 320 leaves behind, and it steps `y` by exactly 88.
The factor 88.05 appears only in the student count at line 209.

## Model

| member | source | states |
|---|---|---|
| `PyValues.SliceRange` | DIP-Flask/services/scoreExtractor.py:162 | the index range `[lo, hi)` a step-1 slice keeps lies inside the sequence. It is empty when `stop <= start` with both bounds on the same side of 0 (`s[0:-1]` keeps all but the last element), and when a non-negative start is at or past the end |
| `PyValues.Slice` | DIP-Flask/services/scoreExtractor.py:195 | `s[start:stop]` never raises and is no longer than `s`. It is the contiguous run of `s` that starts at the range's low end. With non-negative bounds it is `s[min(start, n)..min(stop, n)]`. It is empty when `stop <= start` with both bounds on the same side of 0 |
| `PyValues.SliceNonNegative` | DIP-Flask/services/scoreExtractor.py:162 | with non-negative bounds, `s[start:stop]` keeps the indices in [start, stop), cut off at the end of `s` |
| `PyValues.Str` | DIP-Flask/services/scoreExtractor.py:175-178 | `str()` of an integer is non-empty and contains no `.`, so the dot of a score text is its separator. `StrRoundTrip` gives the inverse |
| `PyValues.StrRoundTrip` | DIP-Flask/services/scoreExtractor.py:175-178 | `str()` of an integer reads back as that integer, so distinct parts give distinct texts |
| `Pixels.RowCount` | DIP-Flask/services/scoreExtractor.py:163 | `np.count_nonzero` on a piece of a row is at most the piece's length |
| `Pixels.CountNonZeroPixels` | DIP-Flask/services/scoreExtractor.py:161-165 | `count_non_zero_pixels` with numpy's clamped, from-the-end slicing. It counts 0 when the row slice is empty: `height <= 0` with `y` and `y + height` on the same side of 0, or `0 <= y` at or past the end of the image (`|image| <= y`). Its full meaning is in `CountIsCellCount`, `CountBounded` and `CountEmptyWindow` |
| `Pixels.CountIsCellCount` | DIP-Flask/services/scoreExtractor.py:161-165 | for non-negative x, y, width, height the count equals the number of non-zero cells with row in [y, min(y+height, H)) and column in [x, min(x+width, W)) |
| `Pixels.CountBounded` | DIP-Flask/services/scoreExtractor.py:161-165 | at any position, even a negative one, the count is at most width * height |
| `Pixels.CountEmptyWindow` | DIP-Flask/services/scoreExtractor.py:161-165 | a window past the bottom edge, past the right edge of every row, or of zero width or height counts 0 |
| `Bubbles.MarksAbove` | DIP-Flask/services/scoreExtractor.py:334 | the `> 1000` comprehension keeps at most one pair per column. What it keeps is stated by `MarksAboveSound`, `MarksAboveComplete` and `MarksAboveExact` |
| `Bubbles.MarksAboveSound` | DIP-Flask/services/scoreExtractor.py:334 | every kept pair is `(j, counts[j])` for a column `j` whose count is over 1000, and the pairs are in strictly ascending `j` |
| `Bubbles.MarksAboveComplete` | DIP-Flask/services/scoreExtractor.py:334 | every column whose count is over 1000 has a kept pair |
| `Bubbles.MarksAboveExact` | DIP-Flask/services/scoreExtractor.py:334 | the kept pairs are exactly the columns with count > 1000, each with its own index and count, in strictly ascending index order |
| `Bubbles.MarksAboveCount` | DIP-Flask/services/scoreExtractor.py:334 | one pair is kept per column over the threshold |
| `Bubbles.GetIntegerDecimal` | DIP-Flask/services/scoreExtractor.py:184-197 | the sentinel `0` exactly for an empty list or one of 3 or more entries; otherwise `lst[:2]`, which is the list unchanged |
| `Bubbles.GetScore` | DIP-Flask/services/scoreExtractor.py:167-182 | `getScore` raises exactly on the sentinel (the `TypeError` of subscripting an int) or an empty list (the `IndexError`). Which inputs give `'v'`, a text or `None` is stated by `GetScoreIsV`, `GetScoreDecimal` and `SelectionScoreIsNone` |
| `Bubbles.GetScoreIsV` | DIP-Flask/services/scoreExtractor.py:168-170 | the score is `'v'` exactly when the selection is one entry with index 0 |
| `Bubbles.ScoreTextRoundTrip` | DIP-Flask/services/scoreExtractor.py:174-180 | the text `str(a) + '.' + str(b)` splits at its dot and reads back as (a, b) |
| `Bubbles.GetScoreDecimal` | DIP-Flask/services/scoreExtractor.py:173-182 | every score text other than `'v'` comes from two entries with a non-zero first index `i`; it reads back as (i-1, d-12), with no range check on `d` |
| `Bubbles.GetScoreNegativeDecimal` | DIP-Flask/services/scoreExtractor.py:177-180 | example of the missing check: marks at columns 3 and 5 give `"2.-7"` |
| `Bubbles.SelectionScoreIsNone` | DIP-Flask/services/scoreExtractor.py:168-173 | after `getIntegerDecimal`, the score is `None` exactly for one entry with a non-zero index, or two entries whose first index is 0 |
| `Bubbles.SelectionScoreRaises` | DIP-Flask/services/scoreExtractor.py:167-197 | after `getIntegerDecimal`, `getScore` raises exactly for zero or 3+ marks, and the exception is the `TypeError` of subscripting the `0` sentinel |
| `Grading.RowCounts` | DIP-Flask/services/scoreExtractor.py:329-332 | `non_zeros_list` for the row at `y` has one count per position, 22 in all. Each count is at most 28 * 72 = 2016, the window's area |
| `Grading.DecodeRow` | DIP-Flask/services/scoreExtractor.py:334-343 | filtering, reducing and decoding one row's counts can raise only the `TypeError` of the sentinel |
| `Grading.RowScore` | DIP-Flask/services/scoreExtractor.py:327-345 | the score of student row k, probed at y = 12 + 88k; the only exception it raises is the `TypeError` |
| `Grading.Collect` | DIP-Flask/services/scoreExtractor.py:343-344 | appending the scores in order, an exception aborting: a success holds one score per outcome. `CollectScores`, `CollectKeepsFailure` and `CollectFirstFailure` state the rest |
| `Grading.Grade` | DIP-Flask/services/scoreExtractor.py:325-352 | collects the outcomes of rows 0 to `number_of_students - 1` in row order; a successful grading holds one score per student. `GradeOutcome` states which score each is and when grading raises |
| `Grading.GradeTranscript` | DIP-Flask/services/scoreExtractor.py:325-352 | the loop's outcome is `Grade`: row k probed at y = 12 + 88k over the 22 offsets with the 28 x 72 window, filtered, reduced and decoded, with scores appended in row order or the first exception raised |
| `Grading.GradeExtends` | DIP-Flask/services/scoreExtractor.py:343-345 | a row that scores appends its score to the scores of the rows before it |
| `Grading.GradeStopsAt` | DIP-Flask/services/scoreExtractor.py:343 | the first row that raises ends grading with its exception, however many rows follow it |
| `Grading.CollectScores` | DIP-Flask/services/scoreExtractor.py:343-344 | collecting succeeds exactly when no outcome raised, and then it keeps every score, in order |
| `Grading.CollectKeepsFailure` | DIP-Flask/services/scoreExtractor.py:343-344 | once a row has raised, the rows after it do not change the outcome |
| `Grading.CollectFirstFailure` | DIP-Flask/services/scoreExtractor.py:343-344 | a failed collection raises the exception of the first outcome that raised, and every outcome before that one succeeded |
| `Grading.GradeScores` | DIP-Flask/services/scoreExtractor.py:326-352 | grading succeeds exactly when no row raises, and then returns exactly `number_of_students` scores, score k that of row k |
| `Grading.GradeFirstFailure` | DIP-Flask/services/scoreExtractor.py:326-352 | when grading raises, it raises the exception of a row that raises and before which every row scored |
| `Grading.GradeOutcome` | DIP-Flask/services/scoreExtractor.py:326-352 | grading succeeds exactly when no row raises, and then returns exactly `number_of_students` scores with score k that of row k; otherwise it raises the first failing row's exception |
| `Grading.GradeRaisesTypeError` | DIP-Flask/services/scoreExtractor.py:326-352 | the only exception grading raises is the `TypeError` of subscripting the sentinel |
| `Grading.RowScoreRaises` | DIP-Flask/services/scoreExtractor.py:334-343 | a student row makes grading raise exactly when it has no filled column or three or more |
| `Grading.RowScoreIsV` | DIP-Flask/services/scoreExtractor.py:334-343 | a row reads `'v'` exactly when column 0 is its only filled column |
| `Corners.ArgMinFirst` | DIP-Flask/services/scoreExtractor.py:62 | `min` over `enumerate` returns an index whose value is at most every value, with every earlier value strictly larger |
| `Corners.ArgMaxFirst` | DIP-Flask/services/scoreExtractor.py:64 | `max` over `enumerate` returns an index whose value is at least every value, with every earlier value strictly smaller |
| `Corners.Sums` | DIP-Flask/services/scoreExtractor.py:62 | the `x + y` key list has one key per polygon point. `FindCorners` states the extremes directly in terms of each point's `x + y` |
| `Corners.Diffs` | DIP-Flask/services/scoreExtractor.py:64 | the `x - y` key list has one key per polygon point. `FindCorners` states the extremes directly in terms of each point's `x - y` |
| `Corners.FindCorners` | DIP-Flask/services/scoreExtractor.py:61-72 | raises exactly for an empty polygon; otherwise returns four points of the polygon: top-left has x+y <= every point's, top-right x-y >= every point's, bottom-right x+y >= every point's, bottom-left x-y <= every point's |
| `Corners.CornersFirstOnTies` | DIP-Flask/services/scoreExtractor.py:62-68 | on ties each corner is the earliest point of the polygon with the extreme key |
| `Corners.RectangleCorners` | DIP-Flask/services/scoreExtractor.py:46-72 | for the corners of an axis-aligned rectangle plus any points inside it, the four corners come back as the rectangle's own, in the order top-left, top-right, bottom-right, bottom-left |

## Left out

- OpenCV preprocessing (`pre_process_image`, `pre_process_cropped_image`,
  `cvtColor`, `imdecode`) and `findContours` with the sort by `contourArea`:
  these are foreign library calls. Corner selection starts from the chosen
  contour's points. With OpenCV 3 the source leaves `polygon` unbound; that
  branch is not modelled.
- `distance_between` and `crop_and_warp`: floating-point `sqrt` and OpenCV
  perspective transforms.
- `number_of_students = int(h/88.05)`: floating-point arithmetic. The count
  is a parameter of `Grading.GradeTranscript`.
- The 22 rectangle-drawing loops: they draw on a copy and do not affect the
  scores. Only the `w, h` they leave behind is modelled, as
  `Grading.WindowWidth` and `Grading.WindowHeight`.
- OCR (`extractText`), the spreadsheet export (`writeToExcelFile`,
  `merge2ExcelFiles`, `exportResult`), the `mergeStudentInfo` stub, `main`'s
  file paths and image slicing, `displayImg` and `writeImg`: all are I/O or
  foreign libraries.
- `DIP-Flask/services/DIP.py`, `DIP-Flask/app.py` and the browser scripts
  under `DIP-Flask/static/js/`: OCR wrapping, web routing and user interface.
- Numpy's fixed-width integers: pixel values, coordinates and the sums
  x + y and x - y are unbounded integers. The image sizes the source handles
  keep these far from 32-bit overflow.
- `Pixels.CountIsCellCount`: stated only for non-negative x, y, width and
  height, the only values `grade_transcript` passes. For negative bounds numpy counts
  from the end of the axis; `Pixels.CountNonZeroPixels` models that through
  `PyValues.SliceRange`, and `Pixels.CountBounded` covers every position.
