# Media splitter: split policy and duration values

A model of the computational core of the media splitter worker, a job worker
that cuts a media timeline, measured in milliseconds, into segments.

- `Durations` (`durations.dfy`) models `src/duration.rs`. A `Duration` is a
  value with a unit: millisecond, second or percent. `ToMillis` resolves it to
  milliseconds. A percentage is taken of the media duration and rounded down.
  The file's defaults are also here: value 1, unit second, position start.
- `Splitting` (`split_policy.dfy`) models `src/split_policy.rs`.
  `GetParameters` resolves a `SplitPolicy` to a segment length and a segment
  count. The policy is either a fixed segment length or a number of segments.
  `Split` is the imperative loop of `split`. It moves a cursor over the media
  and emits segments whose bounds are both inclusive. The optional overlap
  pulls each next start back. `Split` is proved equal to `Segments`, a
  reference definition indexed by segment number: segment `i` ends at
  `min((i + 1) * d, m) - 1`.
- `SplittingProperties` (`split_policy_properties.dfy`) proves what the
  segments look like. It covers the count, the clamped ends, tiling without
  overlap, the effect of an overlap, and when a segment can be empty. It also
  restates the unit tests of `src/split_policy.rs`.
- `Wrappers` (`wrappers.dfy`) holds Rust's `Option` and `Result`, and
  `Arithmetic` (`arithmetic.dfy`) a few facts about multiplication.

The segment ends are inclusive: segment `i` ends at `min((i + 1) * d, m) - 1`,
whatever the overlap; without overlap this is `min(start + d - 1, m - 1)`,
and the next start is one past it. The worker's
parameters in `src/main.rs:38-55` also declare `duration`, `max_duration`,
`duration_position`, `entry_point` and `min_segment_duration`, but no code in
`src/split_policy.rs`, `src/duration.rs` or `src/message.rs` reads them, so
there is no selection window, anchor or minimum segment length to model.

Rounding is modelled as integers. `get_parameters` rounds up through `f64`;
this is modelled as exact integer ceiling division (`CeilDiv`). An empty
media gives no segments, by a different route for each policy:
`SegmentDuration(0)` has its length replaced by the media length 0, and
Rust's saturating cast turns the count `0.0 / 0.0` (NaN) into 0;
`SegmentDuration(d)` with `d > 0` has the count `ceil(0 / d)`, which is 0;
`NumberOfSegments(n)` has its count clamped to the media length 0, and the
NaN cast only sets the length to 0.
The `i64 as u64` cast of the overlap is modelled as two's complement
(`OverlapAsU64`).

## Model

| member | source | states |
|---|---|---|
| `Durations.DefaultDurationValue` | src/duration.rs:30-32 | the value a duration falls back on is 1 |
| `Durations.DefaultDurationUnit` | src/duration.rs:44-48 | the unit a duration falls back on is the second |
| `Durations.DefaultDuration` | src/duration.rs:11-18 | the default duration is 1 second, and it converts to 1000 ms for every media duration |
| `Durations.DefaultDurationPosition` | src/duration.rs:58-62 | the default position is `Start` |
| `Durations.ToMillis` | src/duration.rs:21-27 | milliseconds are the value itself; seconds are the value times 1000; a percentage gives the largest `ms` with `ms * 100 <= media * value` |
| `Durations.AbsoluteUnitsIgnoreMedia` | src/duration.rs:23-24 | for milliseconds and seconds, the result does not depend on the media duration |
| `Durations.FullPercentIsMedia` | src/duration.rs:25 | 100 percent of any media is exactly the media duration |
| `Durations.PercentWithinMedia` | src/duration.rs:25 | for percentages up to 100, the result grows with the percentage and never exceeds the media duration |
| `Durations.DurationChecks` | src/duration.rs:64-95 | the unit test's conversions on a 666 ms media: default gives 1000, 10 s gives 10000, 10 ms gives 10, 5 % gives 33 |
| `Splitting.CeilDiv` | src/split_policy.rs:48-58 | for a positive divisor, the least `q` with `q * b >= a`; 0/0 gives 0 and a/0 gives `u64::MAX`, as the saturating cast does |
| `Splitting.GetParameters` | src/split_policy.rs:42-62 | a zero length becomes the media length, and the count is the rounded-up quotient. A zero count becomes 1 and the count is capped at the media length; the length is then the rounded-up quotient. The count is zero exactly when the media is empty, and a count-based length is then 0 as well. Count times length always covers the media. |
| `Splitting.OverlapAsU64` | src/split_policy.rs:17 | the cast agrees with the overlap modulo 2^64 and is below 2^64; a negative overlap becomes at least 2^63 |
| `Splitting.Segments` | src/split_policy.rs:19-29 | the split emits exactly as many segments as `GetParameters` resolved |
| `Splitting.Split` | src/split_policy.rs:10-40 | the cursor loop always returns `Ok`, with exactly the segments of the reference definition `Segments` |
| `Splitting.CorrectedParameters` | src/split_policy.rs:51-59 | same length as `GetParameters` and no larger count; unchanged for a length-based policy; the last segment starts inside the media and the segments still cover it. The count is below the count `GetParameters` resolves exactly when the media is non-empty and `(n - 1) * d >= m`, the condition under which the code emits empty segments. |
| `Splitting.CorrectedSegments` | src/split_policy.rs:19-29 | the corrected split emits exactly the corrected count of segments |
| `SplittingProperties.EndsClampedToMedia` | src/split_policy.rs:24-27 | segment `i` ends at `min((i + 1) * d - 1, m - 1)`, so no end reaches the media duration |
| `SplittingProperties.OverlapPullsStartBack` | src/split_policy.rs:31-36 | the first segment starts at 0; each next start is `max(previous end + 1 - overlap, 0)` |
| `SplittingProperties.NegativeOverlapStartsAtZero` | src/split_policy.rs:17-36 | a negative overlap wraps to a huge value, so on a media of at most 2^63 ms every segment starts at 0 |
| `SplittingProperties.SegmentsCoverMedia` | src/split_policy.rs:20-36 | without overlap, on a non-empty media, the first segment starts at 0 and each next start is one past the previous end. The last segment ends at `m - 1`. |
| `SplittingProperties.EndFromStartWithoutOverlap` | src/split_policy.rs:24-27 | without overlap, each segment ends at `min(start + d - 1, m - 1)`, its clamped nominal end |
| `SplittingProperties.StartNotAfterCursor` | src/split_policy.rs:20-36 | without overlap, segment `i` starts at `min(i * d, m)`; an overlap only moves starts earlier |
| `SplittingProperties.NonEmptyWhenLastStartsInside` | src/split_policy.rs:23-36 | when `(n - 1) * d < m`, every segment has `start <= end`, whatever the overlap |
| `SplittingProperties.SegmentDurationNeverEmpty` | src/split_policy.rs:44-49 | with a fixed segment length on a non-empty media, every segment has `start <= end` |
| `SplittingProperties.NumberOfSegmentsNonEmptyIff` | src/split_policy.rs:51-59 | with a segment count and no overlap, all segments have `start <= end` if and only if `(n - 1) * ceil(m / n) < m` |
| `SplittingProperties.EmptyTrailingSegment` | src/split_policy.rs:51-59 | with a segment count and no overlap, every segment `i` with `i * ceil(m / n) >= m` is `(m, m - 1)`; when `(n - 1) * ceil(m / n) >= m`, the last segment is one of them |
| `SplittingProperties.SixSegmentsOfTenMs` | src/split_policy.rs:51-59 | six segments of a 10 ms media are `(0,1) (2,3) (4,5) (6,7) (8,9) (10,9)` |
| `SplittingProperties.ZeroCountIsOne` | src/split_policy.rs:52-54 | a count of 0 splits exactly as a count of 1, so a non-empty media gets one segment |
| `SplittingProperties.CountAboveMediaGivesUnitSegments` | src/split_policy.rs:55-58 | a count of at least `m` gives the `m` segments `(i, i)` |
| `SplittingProperties.LongSegmentCoversMedia` | src/split_policy.rs:44-48 | a zero length, or one of at least the media length, gives the single segment `(0, m - 1)` |
| `SplittingProperties.NinetyEightMsInTenPieces` | src/split_policy.rs:98-152 | 98 ms in 10 ms pieces, or in 10 segments, gives `(0, 9)` to `(90, 97)` |
| `SplittingProperties.OverlapOfFour` | src/split_policy.rs:207-265 | a 4 ms overlap on 95 ms in 10 pieces gives `(0, 9) (6, 19) ... (86, 94)` |
| `SplittingProperties.OverlapLargerThanSegment` | src/split_policy.rs:267-321 | a 12 ms overlap on 100 ms in 10 pieces gives `(0, 9) (0, 19) (8, 29) ... (78, 99)` |
| `SplittingProperties.CorrectedSegmentsNonEmpty` | src/split_policy.rs:19-36 | with the corrected parameters, every segment has `start <= end < m`, whatever the overlap |
| `SplittingProperties.CorrectedSegmentsCoverMedia` | src/split_policy.rs:19-36 | with the corrected parameters and no overlap, the segments still tile the media from 0 to `m - 1` |

## Findings

| source | as written | input that shows it | evidently intended | confidence | as-written member | corrected member |
|---|---|---|---|---|---|---|
| src/split_policy.rs:51-59 | for a count `n`, all `n` segments of length `ceil(m / n)` are emitted, even those that start past the media | `NumberOfSegments(6)` on a 10 ms media: the sixth segment is `(10, 9)` | no segment starts past the media's end. The correction chosen here gives up the requested count: it cuts the count to `ceil(m / d)`, five segments here, whereas the tests expect `n` segments whenever `n <= m` | medium; not executed | `SplittingProperties.SixSegmentsOfTenMs` | `Splitting.CorrectedParameters` |

`SplittingProperties.EmptyTrailingSegment` and
`SplittingProperties.NumberOfSegmentsNonEmptyIff` give the general shape of
the defect. `Splitting.CorrectedSegments`,
`SplittingProperties.CorrectedSegmentsNonEmpty` and
`SplittingProperties.CorrectedSegmentsCoverMedia` prove that the corrected
parameters emit no empty segment and still cover the media. `Splitting.Split` still models the code as
written.

## Left out

- `src/message.rs` is job plumbing for the worker SDK and is not modelled. This covers job results, errors, status and JSON output. It builds variants `SegmentDurationSeconds` and `SegmentDurationMilliSeconds` that `src/split_policy.rs` does not define.
- The overlap-unit conversion in `src/message.rs` is not modelled. It uses types (`OverlapUnit`, `SegmentUnit`) that no shown file defines. The overlap reaches `Split` already in milliseconds.
- The media duration lookup through ffmpeg is not modelled. It is a foreign call with a float conversion. The media duration is a parameter of `Split`.
- `src/main.rs` is not modelled. It declares parameters, serialisation defaults and worker start-up. No shown code consumes its `duration`, `max_duration`, `duration_position`, `entry_point` and `min_segment_duration`.
- A selection window, an anchor position and a minimum segment length are not modelled. The fields that would carry them (`src/main.rs:38-55`) are read by no code.
- Splitting.CeilDiv: the `f64` division is modelled as exact. Above 2^53 the source's float rounding can differ.
- Splitting.Split: media and segment lengths are unbounded naturals. The `u64` overflow of the cursor is not modelled; it needs a media above 2^63 ms. The `Vec` capacity hint is not modelled.
- Durations.ToMillis: the value and the media duration are unbounded naturals. The `u64` overflow of `value * 1000` and `media * value` is not modelled.
