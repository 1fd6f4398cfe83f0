# Position episodes and outlier correction, modelled in Dafny

This project models the two algorithms of a small trading-data repository.

- **Episode segmentation** (`parseSeries` and `parseDf` in p1.py). A quantity series is scanned
  once from left to right. A zero → non-zero step opens an episode. A non-zero → zero step closes
  it, and the closing zero belongs to the episode. An episode still open at the end runs to the
  last element. `parseDf` applies this to every column of a table, in column order.
- **Outlier reporting and correction** (`correct` in p2.py). Three passes flag outliers by
  z-score: a head pass over the first `floor(window/2)` values, a centered rolling pass, and a
  tail pass over the last `floor(window/2)` values. The flag lists are concatenated in that order,
  and duplicates are kept. With `fill == 'average'`, a copy of the series is then corrected in
  flag order. Each flagged value becomes the mean of its current left and right neighbours, so
  earlier corrections feed later ones.

Files:

- `sequences.dfy` (module `Sequences`): strictly increasing position lists. Two such lists with
  the same elements are equal, and an element occurs at most once in one.
- `episodes.dfy` (module `Episodes`): the segmentation.
  - `ParseSeries` is the fold, written as a loop over `prev`, `enters`, `exits` and `ideas`.
  - It is proved against a declarative predicate, `IsSegmentation`. `SegmentationUnique` shows
    that this predicate determines the episode list completely.
- `outliers.dfy` (module `Outliers`):
  - detection as functions (`HeadFlags`, `RollingFlags`, `TailFlags`, `Detect`);
  - the correction as a specification function, `ApplyFills`, and an array method, `FillAverage`;
  - `Correct`, which copies the input array and ties its result to `CorrectSpec`.

Modelling choices:

- A series is a sequence indexed by position. The source's unique, increasing date labels map
  one-to-one onto positions. An episode is an inclusive position range `Episode(start, end)`.
  `Slice` gives its values, which is the source's label slice `series[enter:exit]`. That slice is
  inclusive on both ends.
- A data frame with a repeated column name makes `parseDf` raise. `df_to_parse[col]` then
  selects a table rather than a series (p1.py:42-43), so the scan's `quantity` is a series, and
  its truth value in `quantity != 0 and …` (p1.py:23) raises ValueError. `ParseTable` returns
  `DuplicateColumn` with the first such name instead.
- Z-scores are exact over `real`. The test `|z| >= t` is rewritten on squared deviations, so no
  square root is needed: `dev^2 * (m - ddof) >= t^2 * scatter`, where scatter is the sum of
  squared deviations. That rewrite holds for a positive threshold; for `t <= 0` every defined
  score satisfies `|z| >= t`, so `ScoreAtLeast` flags every position whose score is defined. The pandas standard deviations use ddof 1: the head and tail guards
  (p2.py:26, 37) and the rolling std (p2.py:32). `scipy.stats.zscore` uses ddof 0 (p2.py:27-28,
  38-39).
- A score with a zero or undefined standard deviation is NaN in the source and is never flagged.
  A slice with fewer than two values has a NaN sample std. NaN compares unequal to zero, so the
  guard at p2.py:26/37 lets it through, but its scores are NaN and nothing is flagged.
- The rolling window of position `i` is `[i - floor(w/2), i + ceil(w/2) - 1]`, the window pandas
  uses for `center=True`. Only positions with a full window are scored (`min_periods=window`,
  then `dropna`).
- `correct` validates neither `window` nor `threshold_abs`. Its docstring says the threshold must
  be positive (p2.py:19), but nothing checks it, so any threshold is accepted. Any non-negative
  integer window is accepted; pandas' `rolling` itself raises on a negative one (p2.py:31). A
  window below 2 gives `floor(window/2) == 0`, and then `original[-0:]` makes the tail pass score
  the whole series (`ShortWindowTailIsWholeSeries`).
- The neighbour average at p2.py:45-46 has two boundary behaviours:
  - a flagged last position raises IndexError, because `iloc[pos+1]` is out of bounds; here that
    is `IndexOutOfRange`, and the exception discards the copy, so `Correct` then returns only the
    failing position;
  - a flagged first position does not fail: Python's `iloc[-1]` reads the last element as its
    left neighbour (`LeftOf`, `FirstPositionReadsLast`).
- `Correct` keeps the source's defaults: window 20, threshold 2.5, fill `"average"`.

## Model

| member | source | states |
|---|---|---|
| `Episodes.ParseSeries` | p1.py:9-33 | The result is the segmentation of the series: every episode starts at an entry (non-zero value whose predecessor is zero or absent) and ends at the first zero after it or at the last element, episodes are in increasing order and disjoint, and every non-zero value is in one; the result is empty exactly when every value is zero (including the empty series). Loop invariants: entries minus exits is 0 or 1, and 1 exactly when the previous quantity is non-zero. |
| `Episodes.EnterStep` | p1.py:23-24 | A zero → non-zero step opens an entry at the current position and keeps every emitted episode valid. |
| `Episodes.ExitStep` | p1.py:25-27 | A non-zero → zero step emits the episode from the last entry to the current position inclusive, and it is well formed, after all earlier ones, and covers the open run. |
| `Episodes.KeepStep` | p1.py:22-28 | A step that neither opens nor closes keeps the fold's state valid one position further. |
| `Episodes.FlushStep` | p1.py:31-32 | An entry still open after the scan is emitted as an episode running to the last element, and the result is then a complete segmentation. |
| `Episodes.EpisodeValues` | p1.py:27-32 | The values of an episode (the inclusive slice from entry to exit) start non-zero and stay non-zero up to the last one, which is the closing zero unless the episode runs to the end of the series; every episode but the last ends with its closing zero. |
| `Episodes.ParseTable` | p1.py:36-44 | The table parses exactly when its column names are distinct; then one pair per column, in the table's column order, each holding the column's name and the segmentation of that column; otherwise the result is the first column name (in column order) that occurs twice. |
| `Episodes.SegmentationUnique` | p1.py:22-32 | At most one episode list is a segmentation of a series, so the properties `ParseSeries` ensures pin its output exactly. |
| `Episodes.StartsAreEntries` | p1.py:23-24 | The episode starts are exactly the series' entry positions, strictly increasing. |
| `Episodes.ExactlyOneEpisode` | p1.py:22-32 | Every non-zero position lies in exactly one episode. |
| `Episodes.OnlyLastUnterminated` | p1.py:25-27 | Every episode but the last ends on a zero (the closing zero). |
| `Episodes.UnterminatedIffEndsNonZero` | p1.py:31-32 | The last episode ends non-zero exactly when the series ends non-zero, and then it runs to the last element. |
| `Episodes.OneClosedEpisode` | p1.py:51-57 | [0,1,2,3,0] segments into exactly one episode, positions 1..4, with values [1,2,3,0]. |
| `Episodes.AllZeroNoEpisode` | p1.py:59-63 | The test's five-zero series has no episode (the general statement is `ParseSeries`'s second postcondition). |
| `Episodes.BackToBackEpisodes` | p1.py:65-72 | [0,1,2,0,3,0] segments into exactly the episodes 1..3 and 4..5. |
| `Episodes.EntryAtFirstPosition` | p1.py:74-81 | [1,2,0,3,0] segments into exactly 0..2 and 3..4: a series starting non-zero is entered at position 0. |
| `Episodes.TrailingOpenEpisode` | p1.py:83-90 | [0,1,2,0,3] segments into exactly 1..3 and the unterminated 4..4, with values [3]. |
| `Outliers.TailStart` | p2.py:26-37 | The tail slice `original[-floor(window/2):]` has the same length as the head slice `original[0:floor(window/2)]` (`HeadEnd`, which is floor(window/2) capped at the series length), except that a window below 2 makes the tail the whole series. |
| `Outliers.Window` | p2.py:18-32 | The centered window of a position with a full window holds `window` consecutive values of the series, with the scored position in the middle, at index floor(window/2). |
| `Outliers.Select` | p2.py:28 | A boolean mask over a position range yields exactly the positions it accepts, in strictly increasing order. |
| `Outliers.HeadFlags` | p2.py:25-28 | The head pass flags exactly the head positions whose population z-score is at least the threshold in absolute value, provided the head's sample std is non-zero; in increasing order. |
| `Outliers.RollingFlags` | p2.py:30-34 | The rolling pass flags exactly the positions that have a full centered window and whose z-score against that window (sample std) is at least the threshold in absolute value; in increasing order. |
| `Outliers.TailFlags` | p2.py:36-39 | The tail pass flags exactly the tail positions whose population z-score within the tail is at least the threshold in absolute value, provided the tail's sample std is non-zero; in increasing order. |
| `Outliers.Detect` | p2.py:23-39 | The flag list (head pass, then rolling pass, then tail pass, duplicates kept) holds only positions of the series. |
| `Outliers.PassRanges` | p2.py:26-39 | Head flags lie below floor(window/2), rolling flags have a full centered window, and tail flags lie in the last floor(window/2) positions. |
| `Outliers.HeadRollingDisjoint` | p2.py:26-34 | No position is flagged by both the head pass and the rolling pass. |
| `Outliers.ShortSeriesNoRollingFlags` | p2.py:31-34 | A series shorter than the window gets no rolling-pass flag. |
| `Outliers.EvenWindowSharedPosition` | p2.py:31-39 | With an even window, position n - window/2 is scored by both the rolling pass and the tail pass. |
| `Outliers.OddWindowNoSharedPosition` | p2.py:31-39 | With an odd window, every position the rolling pass scores lies before the tail slice. |
| `Outliers.ShortWindowTailIsWholeSeries` | p2.py:26-39 | A window below 2 gives an empty head pass and a tail pass over the whole series. |
| `Outliers.DetectMultiplicity` | p2.py:28-39 | The flag list is head ++ rolling ++ tail with duplicates kept: a position occurs once for every pass that flags it. |
| `Outliers.FlaggedAtMostTwice` | p2.py:28-39 | No position occurs more than twice in the flag list. |
| `Outliers.ConstantScatter` | p2.py:26 | A constant slice has its value as mean and zero scatter, so its std is zero. |
| `Outliers.HeadOfConstantNotFlagged` | p2.py:26-28 | The head pass flags nothing in a constant series. |
| `Outliers.RollingOfConstantNotFlagged` | p2.py:31-34 | The rolling pass flags nothing in a constant series (zero rolling std gives NaN, which is dropped). |
| `Outliers.TailOfConstantNotFlagged` | p2.py:37-39 | The tail pass flags nothing in a constant series. |
| `Outliers.ConstantSeriesUnchanged` | p2.py:63-69 | A constant series yields no flags and comes back unchanged, whatever the fill. |
| `Outliers.LeftOf` | p2.py:45-46 | The left neighbour `iloc[pos-1]` is the cyclic predecessor: a valid position whose successor modulo the length is `pos`, so position 0 reads the last element. |
| `Outliers.FillAt` | p2.py:45-46 | One correction step sets the flagged position to the mean of its current left and right neighbours and leaves every other position and the length unchanged. |
| `Outliers.ApplyFills` | p2.py:43-46 | The loop over the flags in list order, each step reading earlier corrections; when it fails, it fails at a flagged position that has no right neighbour. |
| `Outliers.FillsKeepLength` | p2.py:42-46 | Correction keeps the length of the series. |
| `Outliers.FillsKeepUnflagged` | p2.py:42-46 | A position that is never flagged keeps its original value. |
| `Outliers.FillsFailIff` | p2.py:44-46 | Correction fails exactly when the last position is flagged, and it fails at that position. |
| `Outliers.FirstPositionReadsLast` | p2.py:45-46 | A flagged position 0 becomes the mean of the LAST element and position 1. |
| `Outliers.CorrectionOrderMatters` | p2.py:44-46 | Correcting adjacent flags 1 then 2 and 2 then 1 give different series, because each step reads values already corrected. |
| `Outliers.FillAverage` | p2.py:43-46 | The in-place loop over the flags leaves the buffer equal to the specification fold `ApplyFills` of its old contents, or reports the flagged position whose right neighbour is missing. |
| `Outliers.CorrectSpec` | p2.py:11-48 | The value `correct` returns: a corrected result always reports the detected flag list; a failure happens only with fill 'average', at a detected flag with no right neighbour. |
| `Outliers.CorrectGuarantees` | p2.py:11-48 | `correct` fails exactly when fill is 'average' and the last position is flagged; otherwise it returns the detected flag list and a series of the same length whose unflagged positions are unchanged; with any other fill the series is returned unchanged. |
| `Outliers.Correct` | p2.py:11-48 | With the source's defaults (window 20, threshold 2.5, fill 'average'): detection on the original, then correction of a fresh copy when fill is 'average'; the result equals `CorrectSpec` of the input. The input array cannot change (no modifies clause). |
| `Outliers.DuplicateFlagExample` | p2.py:28-46 | On [0,0,1,0] with window 4 and threshold 1 the flag list is [2, 2, 3]: position 2 is flagged by the rolling and the tail pass. Correction then fails at the last position. |
| `Outliers.SpikeExample` | p2.py:71-77 | The instance [1,1,1,1,5,1,1,1,1] with window 4 and threshold 1: the spike at position 4 is the only flag, from the rolling pass, and correction brings it back to the flat value 1. |

## Left out

- Floating point. Means, standard deviations and z-scores are exact over `real`. Rounding in
  pandas, numpy and scipy is not modelled, for example a constant rolling window whose float std
  comes out as a tiny non-zero value. NaN and infinite input values are not modelled either.
- The date index. `DatetimeIndex`, `get_loc` and the series `.name` are replaced by positions.
  An episode is a position range instead of a pandas view, and `Slice` gives its values.
- Slice: it models `series[enter:exit]` (p1.py:27) as inclusive of the closing zero, which is
  what pandas does for a label slice on a date (or other non-integer) index, as in the tests. On
  a Series with an integer index pandas slices by position and excludes the closing zero; that
  reading is not modelled.
- The integer dtype. `corrected[d] = …` on an integer series and the upcast to float are not
  modelled, because every value is a `real`.
- Negative windows are not modelled, because `window` is a `nat`. pandas rejects them in
  `rolling`.
- The 366-value cases of p2.py's tests are not proved for their own sizes or for the default
  window of 20:
  - the strictly increasing series (p2.py:55-61);
  - the single spike (p2.py:71-77);
  - the two spikes (p2.py:79-85);
  - the x^1.5 series (p2.py:87-93).

  `SpikeExample` and `DuplicateFlagExample` prove the same behaviour on short series with
  window 4.
- FillAverage: it says nothing about the buffer's contents after a failing flag. The source
  raises there and the caller never sees the partly corrected copy. `Correct` returns only the
  failing position.
- The enter and exit lists of `parseSeries` are local to the loop and are not returned. Their
  relation (entries minus exits is 0 or 1) is stated as loop invariants of `ParseSeries`.
- `parseDf` works on a data frame, whose columns share one index. `ParseTable` takes a list of
  named columns and does not require them to have equal lengths.
