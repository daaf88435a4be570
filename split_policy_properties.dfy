/**
 * What the segments returned by `split` look like: their count, where they
 * end, how consecutive ones meet or overlap, when a segment can come out
 * empty, and the unit tests of src/split_policy.rs.
 */
module SplittingProperties {
  import opened Wrappers
  import opened Splitting
  import opened Arithmetic

  /** No segment ends at or past the media's end: segment `i` ends at `min((i + 1) * d - 1, m - 1)`. */
  lemma EndsClampedToMedia(policy: SplitPolicy, mediaDuration: nat, segmentOverlap: Option<I64>, i: nat)
    requires i < |Segments(policy, mediaDuration, segmentOverlap)|
    ensures var d := GetParameters(policy, mediaDuration).segmentDuration;
      Segments(policy, mediaDuration, segmentOverlap)[i].end == Min((i + 1) * d - 1, mediaDuration - 1) < mediaDuration
  {
  }

  /**
   * Overlap: each segment after the first starts `overlap` before one past
   * the previous end, and at 0 when the overlap is larger than that.
   */
  lemma OverlapPullsStartBack(policy: SplitPolicy, mediaDuration: nat, overlap: I64, i: nat)
    requires 0 <= overlap
    requires i + 1 < |Segments(policy, mediaDuration, Some(overlap))|
    ensures var s := Segments(policy, mediaDuration, Some(overlap));
      s[0].start == 0 && s[i + 1].start == Max(s[i].end + 1 - overlap, 0)
  {
  }

  /**
   * A negative overlap wraps to at least 2^63 in the cast to `u64`, so on
   * any media of at most 2^63 ms every segment starts at 0.
   */
  lemma NegativeOverlapStartsAtZero(policy: SplitPolicy, mediaDuration: nat, overlap: I64, i: nat)
    requires overlap < 0 && mediaDuration <= U64_MODULUS / 2
    requires i < |Segments(policy, mediaDuration, Some(overlap))|
    ensures Segments(policy, mediaDuration, Some(overlap))[i].start == 0
  {
    var p := GetParameters(policy, mediaDuration);
    if i > 0 {
      assert EndAt(p.segmentDuration, mediaDuration, i - 1) < mediaDuration;
    }
  }

  /**
   * Without overlap the segments tile the media: the first starts at 0, each
   * next one starts one past the previous end, and the last ends at `m - 1`.
   */
  lemma SegmentsCoverMedia(policy: SplitPolicy, mediaDuration: nat, segmentOverlap: Option<I64>)
    requires segmentOverlap.UnwrapOr(0) == 0
    requires mediaDuration > 0
    ensures var s := Segments(policy, mediaDuration, segmentOverlap);
      |s| > 0 && s[0].start == 0 && s[|s| - 1].end == mediaDuration - 1 &&
      forall i :: 0 <= i < |s| - 1 ==> s[i + 1].start == s[i].end + 1
  {
    var p := GetParameters(policy, mediaDuration);
    var s := Segments(policy, mediaDuration, segmentOverlap);
    assert mediaDuration <= |s| * p.segmentDuration;
    assert s[|s| - 1].end == Min(|s| * p.segmentDuration, mediaDuration) - 1;
  }

  /** Without overlap, segment `i` starts at `min(i * d, m)`; an overlap only moves starts earlier. */
  lemma StartNotAfterCursor(d: nat, mediaDuration: nat, overlap: nat, i: nat)
    requires d > 0 && mediaDuration > 0
    ensures StartAt(d, mediaDuration, overlap, i) <= Min(i * d, mediaDuration)
    ensures overlap == 0 ==> StartAt(d, mediaDuration, overlap, i) == Min(i * d, mediaDuration)
  {
    if i > 0 {
      MulSucc(i - 1, d);
    }
  }

  /** Without overlap, each segment ends `d - 1` after its start, clamped to the media's last millisecond. */
  lemma EndFromStartWithoutOverlap(policy: SplitPolicy, mediaDuration: nat, segmentOverlap: Option<I64>, i: nat)
    requires segmentOverlap.UnwrapOr(0) == 0
    requires i < |Segments(policy, mediaDuration, segmentOverlap)|
    ensures var d := GetParameters(policy, mediaDuration).segmentDuration;
      var s := Segments(policy, mediaDuration, segmentOverlap);
      s[i].end == Min(s[i].start + d - 1, mediaDuration - 1)
  {
    var d := GetParameters(policy, mediaDuration).segmentDuration;
    StartNotAfterCursor(d, mediaDuration, 0, i);
    MulSucc(i, d);
  }

  /**
   * When the last segment nominally starts inside the media, no segment is
   * empty: every start is at most its end, whatever the overlap.
   */
  lemma NonEmptyWhenLastStartsInside(d: nat, mediaDuration: nat, overlap: nat, n: nat)
    requires n > 0 && d > 0 && mediaDuration > 0
    requires (n - 1) * d < mediaDuration
    ensures forall i :: 0 <= i < n ==> StartAt(d, mediaDuration, overlap, i) <= EndAt(d, mediaDuration, i)
  {
    forall i | 0 <= i < n
      ensures StartAt(d, mediaDuration, overlap, i) <= EndAt(d, mediaDuration, i)
    {
      StartNotAfterCursor(d, mediaDuration, overlap, i);
      MulMonotone(i, n - 1, d);
      MulSucc(i, d);
    }
  }

  /** With a fixed segment length every segment of a non-empty media has `start <= end`. */
  lemma SegmentDurationNeverEmpty(segmentDuration: nat, mediaDuration: nat, segmentOverlap: Option<I64>, i: nat)
    requires mediaDuration > 0
    requires i < |Segments(SegmentDuration(segmentDuration), mediaDuration, segmentOverlap)|
    ensures var s := Segments(SegmentDuration(segmentDuration), mediaDuration, segmentOverlap);
      s[i].start <= s[i].end
  {
    var p := GetParameters(SegmentDuration(segmentDuration), mediaDuration);
    NonEmptyWhenLastStartsInside(p.segmentDuration, mediaDuration, OverlapAsU64(segmentOverlap.UnwrapOr(0)), p.numberOfSegments);
  }

  /**
   * With a number of segments and no overlap, every segment has
   * `start <= end` exactly when `(n - 1) * ceil(m / n) < m`; otherwise the
   * last segment is the empty `(m, m - 1)`.
   */
  lemma NumberOfSegmentsNonEmptyIff(numberOfSegments: nat, mediaDuration: nat)
    requires mediaDuration > 0
    ensures var p := GetParameters(NumberOfSegments(numberOfSegments), mediaDuration);
      var s := Segments(NumberOfSegments(numberOfSegments), mediaDuration, None);
      (forall i :: 0 <= i < |s| ==> s[i].start <= s[i].end) <==>
      (p.numberOfSegments - 1) * p.segmentDuration < mediaDuration
  {
    var p := GetParameters(NumberOfSegments(numberOfSegments), mediaDuration);
    var s := Segments(NumberOfSegments(numberOfSegments), mediaDuration, None);
    if (p.numberOfSegments - 1) * p.segmentDuration < mediaDuration {
      NonEmptyWhenLastStartsInside(p.segmentDuration, mediaDuration, 0, p.numberOfSegments);
    } else {
      EmptyTrailingSegment(numberOfSegments, mediaDuration);
      assert s[|s| - 1].start > s[|s| - 1].end;
    }
  }

  /**
   * The shape of the defect: without overlap, every segment whose nominal
   * start `i * ceil(m / n)` is at or past the media's end is the empty
   * `(m, m - 1)`; when `(n - 1) * ceil(m / n) >= m`, the last one is such a
   * segment.
   */
  lemma EmptyTrailingSegment(numberOfSegments: nat, mediaDuration: nat)
    requires mediaDuration > 0
    ensures var p := GetParameters(NumberOfSegments(numberOfSegments), mediaDuration);
      var s := Segments(NumberOfSegments(numberOfSegments), mediaDuration, None);
      forall i :: 0 <= i < |s| && i * p.segmentDuration >= mediaDuration ==>
        s[i] == MediaSegment(mediaDuration, mediaDuration - 1)
    ensures var p := GetParameters(NumberOfSegments(numberOfSegments), mediaDuration);
      var s := Segments(NumberOfSegments(numberOfSegments), mediaDuration, None);
      (p.numberOfSegments - 1) * p.segmentDuration >= mediaDuration ==>
        |s| >= 2 && s[|s| - 1] == MediaSegment(mediaDuration, mediaDuration - 1)
  {
    var p := GetParameters(NumberOfSegments(numberOfSegments), mediaDuration);
    var d := p.segmentDuration;
    var s := Segments(NumberOfSegments(numberOfSegments), mediaDuration, None);
    forall i | 0 <= i < |s| && i * d >= mediaDuration
      ensures s[i] == MediaSegment(mediaDuration, mediaDuration - 1)
    {
      StartNotAfterCursor(d, mediaDuration, 0, i);
      MulSucc(i, d);
    }
  }

  /** A counterexample: six segments of a 10 ms media are 2 ms long, and the sixth is `(10, 9)`. */
  lemma SixSegmentsOfTenMs()
    ensures Segments(NumberOfSegments(6), 10, None) ==
      [MediaSegment(0, 1), MediaSegment(2, 3), MediaSegment(4, 5), MediaSegment(6, 7), MediaSegment(8, 9), MediaSegment(10, 9)]
  {
    assert GetParameters(NumberOfSegments(6), 10) == SplitParameters(2, 6);
  }

  /** A count of zero is a count of one. */
  lemma ZeroCountIsOne(mediaDuration: nat, segmentOverlap: Option<I64>)
    ensures Segments(NumberOfSegments(0), mediaDuration, segmentOverlap) ==
      Segments(NumberOfSegments(1), mediaDuration, segmentOverlap)
    ensures mediaDuration > 0 ==> |Segments(NumberOfSegments(0), mediaDuration, segmentOverlap)| == 1
  {
  }

  /** A count of at least the media length gives one segment `(i, i)` per millisecond. */
  lemma CountAboveMediaGivesUnitSegments(numberOfSegments: nat, mediaDuration: nat)
    requires numberOfSegments >= mediaDuration > 0
    ensures Segments(NumberOfSegments(numberOfSegments), mediaDuration, None) ==
      seq(mediaDuration, i requires 0 <= i < mediaDuration => MediaSegment(i, i))
  {
    var p := GetParameters(NumberOfSegments(numberOfSegments), mediaDuration);
    var d := p.segmentDuration;
    assert p.numberOfSegments == mediaDuration;
    if d >= 2 {
      MulMonotone(1, d - 1, mediaDuration);
      assert false;
    }
    var s := Segments(NumberOfSegments(numberOfSegments), mediaDuration, None);
    forall i | 0 <= i < mediaDuration
      ensures s[i] == MediaSegment(i, i)
    {
      StartNotAfterCursor(1, mediaDuration, 0, i);
    }
  }

  /**
   * A zero segment length, or one at least the media length, gives a single
   * segment covering the whole media.
   */
  lemma LongSegmentCoversMedia(segmentDuration: nat, mediaDuration: nat, segmentOverlap: Option<I64>)
    requires mediaDuration > 0
    requires segmentDuration == 0 || segmentDuration >= mediaDuration
    ensures Segments(SegmentDuration(segmentDuration), mediaDuration, segmentOverlap) ==
      [MediaSegment(0, mediaDuration - 1)]
  {
    var p := GetParameters(SegmentDuration(segmentDuration), mediaDuration);
    var n := p.numberOfSegments;
    if n >= 2 {
      MulMonotone(1, n - 1, p.segmentDuration);
      assert false;
    }
    assert n == 1;
  }


  /** Unit tests: 98 ms in 10 ms pieces, or in ten pieces, both give `(0, 9)` ... `(90, 97)`. */
  lemma NinetyEightMsInTenPieces()
    ensures Segments(SegmentDuration(10), 98, None) == Segments(NumberOfSegments(10), 98, None) ==
      [MediaSegment(0, 9), MediaSegment(10, 19), MediaSegment(20, 29), MediaSegment(30, 39), MediaSegment(40, 49),
       MediaSegment(50, 59), MediaSegment(60, 69), MediaSegment(70, 79), MediaSegment(80, 89), MediaSegment(90, 97)]
  {
    assert GetParameters(SegmentDuration(10), 98) == SplitParameters(10, 10);
    assert GetParameters(NumberOfSegments(10), 98) == SplitParameters(10, 10);
  }

  /** Unit tests: an overlap of 4 ms on 95 ms in ten pieces. */
  lemma OverlapOfFour()
    ensures Segments(SegmentDuration(10), 95, Some(4)) == Segments(NumberOfSegments(10), 95, Some(4)) ==
      [MediaSegment(0, 9), MediaSegment(6, 19), MediaSegment(16, 29), MediaSegment(26, 39), MediaSegment(36, 49),
       MediaSegment(46, 59), MediaSegment(56, 69), MediaSegment(66, 79), MediaSegment(76, 89), MediaSegment(86, 94)]
  {
    assert GetParameters(SegmentDuration(10), 95) == SplitParameters(10, 10);
    assert GetParameters(NumberOfSegments(10), 95) == SplitParameters(10, 10);
  }

  /** Unit tests: an overlap of 12 ms, larger than the 10 ms segments, clamps the second start to 0. */
  lemma OverlapLargerThanSegment()
    ensures Segments(SegmentDuration(10), 100, Some(12)) == Segments(NumberOfSegments(10), 100, Some(12)) ==
      [MediaSegment(0, 9), MediaSegment(0, 19), MediaSegment(8, 29), MediaSegment(18, 39), MediaSegment(28, 49),
       MediaSegment(38, 59), MediaSegment(48, 69), MediaSegment(58, 79), MediaSegment(68, 89), MediaSegment(78, 99)]
  {
    assert GetParameters(SegmentDuration(10), 100) == SplitParameters(10, 10);
    assert GetParameters(NumberOfSegments(10), 100) == SplitParameters(10, 10);
  }

  /** With the corrected parameters no segment is empty, whatever the overlap. */
  lemma CorrectedSegmentsNonEmpty(policy: SplitPolicy, mediaDuration: nat, segmentOverlap: Option<I64>, i: nat)
    requires i < |CorrectedSegments(policy, mediaDuration, segmentOverlap)|
    ensures var s := CorrectedSegments(policy, mediaDuration, segmentOverlap);
      s[i].start <= s[i].end < mediaDuration
  {
    var p := CorrectedParameters(policy, mediaDuration);
    NonEmptyWhenLastStartsInside(p.segmentDuration, mediaDuration, OverlapAsU64(segmentOverlap.UnwrapOr(0)), p.numberOfSegments);
  }

  /** Without overlap the corrected segments still tile the whole media. */
  lemma CorrectedSegmentsCoverMedia(policy: SplitPolicy, mediaDuration: nat, segmentOverlap: Option<I64>)
    requires segmentOverlap.UnwrapOr(0) == 0
    requires mediaDuration > 0
    ensures var s := CorrectedSegments(policy, mediaDuration, segmentOverlap);
      |s| > 0 && s[0].start == 0 && s[|s| - 1].end == mediaDuration - 1 &&
      forall i :: 0 <= i < |s| - 1 ==> s[i + 1].start == s[i].end + 1
  {
    var p := CorrectedParameters(policy, mediaDuration);
    var s := CorrectedSegments(policy, mediaDuration, segmentOverlap);
    assert mediaDuration <= |s| * p.segmentDuration;
    assert s[|s| - 1].end == Min(|s| * p.segmentDuration, mediaDuration) - 1;
  }
}
