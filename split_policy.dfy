/**
 * The split policy of the media splitter (src/split_policy.rs): how a media
 * of a given length in milliseconds is cut into segments with inclusive
 * bounds, either of a fixed length or into a number of pieces, optionally
 * overlapping.
 */
module Splitting {
  import opened Wrappers
  import opened Arithmetic

  const U64_MODULUS: int := 0x1_0000_0000_0000_0000
  const U64_MAX: int := U64_MODULUS - 1

  /** The range of Rust's `i64`, in which the overlap arrives. */
  type I64 = x: int | -0x8000_0000_0000_0000 <= x < 0x8000_0000_0000_0000

  /** A segment of the media, from `start` to `end` in milliseconds, both inclusive. */
  datatype MediaSegment = MediaSegment(start: nat, end: nat)

  /** Either a fixed segment length in milliseconds, or a number of segments. */
  datatype SplitPolicy =
    | SegmentDuration(segmentDuration: nat)
    | NumberOfSegments(numberOfSegments: nat)

  /** What `get_parameters` resolves a policy to: a segment length and a segment count. */
  datatype SplitParameters = SplitParameters(segmentDuration: nat, numberOfSegments: nat)

  function Min(a: int, b: int): int { if a <= b then a else b }

  function Max(a: int, b: int): int { if a <= b then b else a }

  /**
   * `(a as f64 / b as f64).ceil() as u64`, with the division exact (the
   * operands of the worker stay far below 2^53). Rust's saturating cast
   * turns 0/0 (NaN) into 0 and a/0 (infinity) into `u64::MAX`.
   */
  function CeilDiv(a: nat, b: nat): (q: nat)
    ensures q == 0 <==> a == 0
    ensures b > 0 ==> a <= q * b && a <= b * q
    ensures b > 0 && a > 0 ==> (q - 1) * b < a
    ensures b == 0 ==> q == (if a == 0 then 0 else U64_MAX)
  {
    if b == 0 then (if a == 0 then 0 else U64_MAX)
    else
      var q := (a + b - 1) / b;
      CeilQuotient(a, b, q);
      q
  }

  /**
   * `get_parameters`: a zero segment length stands for the whole media; a
   * zero count stands for one segment, and a count is never above the media
   * length. The other quantity is the rounded-up quotient.
   */
  function GetParameters(policy: SplitPolicy, mediaDuration: nat): (p: SplitParameters)
    ensures p.numberOfSegments > 0 <==> mediaDuration > 0
    ensures mediaDuration > 0 ==> p.segmentDuration > 0
    ensures mediaDuration <= p.numberOfSegments * p.segmentDuration
    ensures policy.SegmentDuration? ==>
      p.segmentDuration == (if policy.segmentDuration == 0 then mediaDuration else policy.segmentDuration) &&
      (mediaDuration > 0 ==> (p.numberOfSegments - 1) * p.segmentDuration < mediaDuration)
    ensures policy.NumberOfSegments? ==>
      p.numberOfSegments == Min(Max(policy.numberOfSegments, 1), mediaDuration) &&
      (mediaDuration > 0 ==> (p.segmentDuration - 1) * p.numberOfSegments < mediaDuration) &&
      (mediaDuration == 0 ==> p.segmentDuration == 0)
  {
    match policy
    case SegmentDuration(d) =>
      var segmentDuration := if d == 0 then mediaDuration else d;
      var count := CeilDiv(mediaDuration, segmentDuration);
      SplitParameters(segmentDuration, count)
    case NumberOfSegments(n) =>
      var count := if n == 0 then 1 else n;
      var count := if count >= mediaDuration then mediaDuration else count;
      var segmentDuration := CeilDiv(mediaDuration, count);
      assert mediaDuration <= count * segmentDuration;
      SplitParameters(segmentDuration, count)
  }

  /**
   * `get_parameters` with the empty trailing segments of a count-based
   * policy dropped: the count is recomputed from the resolved length, so
   * the last segment always starts inside the media. A length-based policy
   * resolves exactly as before.
   */
  function CorrectedParameters(policy: SplitPolicy, mediaDuration: nat): (p: SplitParameters)
    ensures p.segmentDuration == GetParameters(policy, mediaDuration).segmentDuration
    ensures p.numberOfSegments <= GetParameters(policy, mediaDuration).numberOfSegments
    ensures policy.SegmentDuration? ==> p == GetParameters(policy, mediaDuration)
    ensures p.numberOfSegments > 0 <==> mediaDuration > 0
    ensures mediaDuration > 0 ==>
      (p.numberOfSegments - 1) * p.segmentDuration < mediaDuration <= p.numberOfSegments * p.segmentDuration
    ensures var asWritten := GetParameters(policy, mediaDuration);
      p.numberOfSegments < asWritten.numberOfSegments <==>
      mediaDuration > 0 && (asWritten.numberOfSegments - 1) * asWritten.segmentDuration >= mediaDuration
  {
    var asWritten := GetParameters(policy, mediaDuration);
    CeilDivLeast(mediaDuration, asWritten.segmentDuration, asWritten.numberOfSegments);
    SplitParameters(asWritten.segmentDuration, CeilDiv(mediaDuration, asWritten.segmentDuration))
  }

  /**
   * The rounded-up quotient is the least count whose multiple of `d` reaches
   * `a`: it is below a covering count `n` exactly when `n - 1` also covers.
   */
  lemma CeilDivLeast(a: nat, d: nat, n: nat)
    requires a <= n * d
    requires a > 0 || n == 0
    ensures CeilDiv(a, d) <= n
    ensures CeilDiv(a, d) < n <==> a > 0 && (n - 1) * d >= a
  {
    var q := CeilDiv(a, d);
    if d > 0 && a > 0 {
      MulLessCancel(q - 1, n, d);
      if q < n {
        MulMonotone(q, n - 1, d);
      }
      if (n - 1) * d >= a {
        MulLessCancel(q - 1, n - 1, d);
      }
    }
  }

  /** What rounding the quotient up gives: the least multiple of `b` that reaches `a`. */
  lemma CeilQuotient(a: nat, b: nat, q: nat)
    requires b > 0 && q == (a + b - 1) / b
    ensures q == 0 <==> a == 0
    ensures a <= q * b && a <= b * q
    ensures a > 0 ==> (q - 1) * b < a
  {
    assert q * b <= a + b - 1 < q * b + b;
    if q > 0 {
      MulSucc(q - 1, b);
    }
  }

  /**
   * The `i64 as u64` cast of the overlap: two's complement, so a negative
   * overlap becomes a value of at least 2^63.
   */
  function OverlapAsU64(overlap: I64): (u: nat)
    ensures u < U64_MODULUS && (u - overlap) % U64_MODULUS == 0
    ensures overlap < 0 ==> u >= U64_MODULUS / 2
  {
    if overlap < 0 then overlap + U64_MODULUS else overlap
  }

  /**
   * Reference definition of segment `i`'s end: its nominal end `(i + 1) * d - 1`,
   * clamped to the last millisecond of the media.
   */
  function EndAt(d: nat, mediaDuration: nat, i: nat): nat
    requires d > 0 && mediaDuration > 0
  {
    Min((i + 1) * d, mediaDuration) - 1
  }

  /**
   * Reference definition of segment `i`'s start: 0 for the first one; for
   * the others, one past the previous end pulled back by the overlap, and 0
   * when the overlap reaches back past the media's start.
   */
  function StartAt(d: nat, mediaDuration: nat, overlap: nat, i: nat): nat
    requires d > 0 && mediaDuration > 0
  {
    if i == 0 then 0
    else
      var next := EndAt(d, mediaDuration, i - 1) + 1;
      if next < overlap then 0 else next - overlap
  }

  /** The first `n` segments for length `d`, by their reference definition. */
  function Emitted(d: nat, mediaDuration: nat, overlap: nat, n: nat): (r: seq<MediaSegment>)
    requires n > 0 ==> d > 0 && mediaDuration > 0
    ensures |r| == n
  {
    seq(n, i requires 0 <= i < n => MediaSegment(StartAt(d, mediaDuration, overlap, i), EndAt(d, mediaDuration, i)))
  }

  /** One step of the cursor: from the end of the first `i` segments to that of the first `i + 1`. */
  lemma CursorStep(d: nat, mediaDuration: nat, overlap: nat, i: nat)
    requires d > 0 && mediaDuration > 0
    ensures Min(Min(i * d, mediaDuration) + d - 1, mediaDuration - 1) == EndAt(d, mediaDuration, i)
    ensures EndAt(d, mediaDuration, i) + 1 == Min((i + 1) * d, mediaDuration)
    ensures Emitted(d, mediaDuration, overlap, i + 1) ==
      Emitted(d, mediaDuration, overlap, i) + [MediaSegment(StartAt(d, mediaDuration, overlap, i), EndAt(d, mediaDuration, i))]
  {
    MulSucc(i, d);
  }

  /** The segments `split` returns for a policy, a media duration and an optional overlap. */
  function Segments(policy: SplitPolicy, mediaDuration: nat, segmentOverlap: Option<I64>): (r: seq<MediaSegment>)
    ensures |r| == GetParameters(policy, mediaDuration).numberOfSegments
  {
    var p := GetParameters(policy, mediaDuration);
    Emitted(p.segmentDuration, mediaDuration, OverlapAsU64(segmentOverlap.UnwrapOr(0)), p.numberOfSegments)
  }

  /** The segments `split` would return with `CorrectedParameters` in place of `get_parameters`. */
  function CorrectedSegments(policy: SplitPolicy, mediaDuration: nat, segmentOverlap: Option<I64>): (r: seq<MediaSegment>)
    ensures |r| == CorrectedParameters(policy, mediaDuration).numberOfSegments
  {
    var p := CorrectedParameters(policy, mediaDuration);
    Emitted(p.segmentDuration, mediaDuration, OverlapAsU64(segmentOverlap.UnwrapOr(0)), p.numberOfSegments)
  }

  /**
   * `SplitPolicy::split`: runs a cursor over the media, emitting one segment
   * per resolved count. It never fails.
   */
  method Split(policy: SplitPolicy, mediaDuration: nat, segmentOverlap: Option<I64>)
    returns (result: Result<seq<MediaSegment>>)
    ensures result == Ok(Segments(policy, mediaDuration, segmentOverlap))
  {
    var SplitParameters(segmentDuration, numberOfSegments) := GetParameters(policy, mediaDuration);
    var overlap := OverlapAsU64(segmentOverlap.UnwrapOr(0));

    var segments: seq<MediaSegment> := [];
    var nextStart: nat := 0;
    var nextEnd: nat := 0;

    for i := 0 to numberOfSegments
      invariant numberOfSegments > 0 ==> segmentDuration > 0 && mediaDuration > 0
      invariant nextEnd == Min(i * segmentDuration, mediaDuration)
      invariant i < numberOfSegments ==> nextStart == StartAt(segmentDuration, mediaDuration, overlap, i)
      invariant segments == Emitted(segmentDuration, mediaDuration, overlap, i)
    {
      CursorStep(segmentDuration, mediaDuration, overlap, i);
      nextEnd := nextEnd + segmentDuration - 1;
      if nextEnd >= mediaDuration {
        nextEnd := mediaDuration - 1;
      }

      segments := segments + [MediaSegment(nextStart, nextEnd)];

      nextEnd := nextEnd + 1;
      if nextEnd < overlap {
        nextStart := 0;
      } else {
        nextStart := nextEnd - overlap;
      }
    }

    return Ok(segments);
  }
}
