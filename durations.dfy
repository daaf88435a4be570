/**
 * Duration values of the media splitter (src/duration.rs): a value with a
 * unit that resolves to a number of milliseconds, and the defaults the
 * worker's parameters fall back on.
 */
module Durations {
  import opened Arithmetic

  /** The unit a duration value is expressed in. */
  datatype DurationUnit = Millisecond | Second | Percent

  /** Whether a selected duration is reckoned from the start or the end of the media. */
  datatype DurationPosition = Start | End

  /** A non-negative value and its unit (the source stores the value as a `u64`). */
  datatype Duration = Duration(value: nat, unit: DurationUnit)

  /** `default_duration`: the value used when a duration omits it. */
  function DefaultDurationValue(): (v: nat)
    ensures v == 1
  {
    1
  }

  /** `DurationUnit::default`: an absolute unit, the second. */
  function DefaultDurationUnit(): (u: DurationUnit)
    ensures u == Second
  {
    Second
  }

  /**
   * `Duration::default`: the default value in the default unit, which is one
   * second whatever the media.
   */
  function DefaultDuration(): (d: Duration)
    ensures d.value == 1 && d.unit == Second
    ensures forall mediaDuration: nat :: ToMillis(d, mediaDuration) == 1000
  {
    Duration(DefaultDurationValue(), DefaultDurationUnit())
  }

  /** `DurationPosition::default`: durations are reckoned from the start. */
  function DefaultDurationPosition(): (p: DurationPosition)
    ensures p == Start
  {
    Start
  }

  /**
   * `Duration::to_millis`: the duration in milliseconds. The media duration
   * only matters for a percentage, which is rounded down.
   */
  function ToMillis(d: Duration, mediaDuration: nat): (ms: nat)
    ensures d.unit == Millisecond ==> ms == d.value
    ensures d.unit == Second ==> ms == d.value * 1000
    ensures d.unit == Percent ==> ms * 100 <= mediaDuration * d.value < ms * 100 + 100
  {
    match d.unit
    case Millisecond => d.value
    case Second => d.value * 1000
    case Percent => mediaDuration * d.value / 100
  }

  /** Milliseconds and seconds do not depend on the media duration. */
  lemma AbsoluteUnitsIgnoreMedia(d: Duration, media1: nat, media2: nat)
    requires d.unit != Percent
    ensures ToMillis(d, media1) == ToMillis(d, media2)
  {
  }

  /** A hundred percent of the media is the whole media. */
  lemma FullPercentIsMedia(mediaDuration: nat)
    ensures ToMillis(Duration(100, Percent), mediaDuration) == mediaDuration
  {
  }

  /** A percentage of at most a hundred never exceeds the media, and grows with the percentage. */
  lemma PercentWithinMedia(p: nat, q: nat, mediaDuration: nat)
    requires p <= q <= 100
    ensures ToMillis(Duration(p, Percent), mediaDuration) <= ToMillis(Duration(q, Percent), mediaDuration) <= mediaDuration
  {
    MulMonotone(p, q, mediaDuration);
    MulMonotone(q, 100, mediaDuration);
  }

  /** The unit test of src/duration.rs, on a 666 ms media. */
  lemma DurationChecks()
    ensures ToMillis(DefaultDuration(), 666) == 1000
    ensures ToMillis(Duration(10, Second), 666) == 10000
    ensures ToMillis(Duration(10, Millisecond), 666) == 10
    ensures ToMillis(Duration(5, Percent), 666) == 33
  {
  }
}
