/** URLReport.normalizeDate with TIME_ZONE fixed to "GMT": a LocalDate is
    represented by its day number counted from 1970-01-01. */
module Dates {
  import opened JavaString

  const SecondsPerDay: int := 86400
  const MillisPerDay: int := 86_400_000
  const TwoTo64: int := 0x1_0000_0000_0000_0000

  /** The largest magnitude of a timestamp whose value in milliseconds
      still fits in a long. */
  const MaxSafeTimestamp: int := 9_223_372_036_854_775

  predicate SafeTimestamp(timestamp: int) {
    -MaxSafeTimestamp <= timestamp <= MaxSafeTimestamp
  }

  /** The two's-complement result of a long operation whose exact value is x. */
  function WrapLong(x: int): (r: Long)
    ensures (r - x) % TwoTo64 == 0
    ensures MinLong <= x <= MaxLong ==> r == x
  {
    (x - MinLong) % TwoTo64 + MinLong
  }

  /** normalizeDate as written: Instant.ofEpochMilli(timestamp * 1000) in GMT,
      reduced to its date. The product is a long and wraps; the date of an
      instant is floorDiv(millis, 86400000), which is `/` here because the
      divisor is positive. */
  function NormalizeDate(timestamp: Long): (day: int)
    ensures var millis := WrapLong(timestamp * 1000);
      MillisPerDay * day <= millis < MillisPerDay * day + MillisPerDay
  {
    WrapLong(timestamp * 1000) / MillisPerDay
  }

  /** The day containing a timestamp, computed without the millisecond
      detour: the date the comment on normalizeDate describes. */
  function EpochDay(timestamp: Long): (day: int)
    ensures SecondsPerDay * day <= timestamp < SecondsPerDay * day + SecondsPerDay
  {
    timestamp / SecondsPerDay
  }

  /** While the product does not overflow, normalizeDate is the GMT day
      containing the timestamp; negative timestamps fall on earlier days. */
  lemma NormalizeDateIsEpochDay(timestamp: Long)
    requires SafeTimestamp(timestamp)
    ensures NormalizeDate(timestamp) == EpochDay(timestamp)
    ensures SecondsPerDay * NormalizeDate(timestamp) <= timestamp
    ensures timestamp < SecondsPerDay * NormalizeDate(timestamp) + SecondsPerDay
  {
    var millis := timestamp * 1000;
    assert WrapLong(millis) == millis;
    var q := timestamp / SecondsPerDay;
    var r := timestamp % SecondsPerDay;
    assert timestamp == SecondsPerDay * q + r && 0 <= r < SecondsPerDay;
    assert millis == MillisPerDay * q + 1000 * r;
    assert 0 <= 1000 * r < MillisPerDay;
    DivideExactly(millis, q, 1000 * r);
  }

  lemma DivideExactly(x: int, q: int, r: int)
    requires 0 <= r < MillisPerDay && x == MillisPerDay * q + r
    ensures x / MillisPerDay == q
  {
    var q' := x / MillisPerDay;
    assert MillisPerDay * q' <= x < MillisPerDay * q' + MillisPerDay;
  }

  /** Two timestamps land in the same DateNode exactly when they lie in the
      same 86400-second window. */
  lemma SameDayIffSameWindow(t1: Long, t2: Long)
    requires SafeTimestamp(t1) && SafeTimestamp(t2)
    ensures NormalizeDate(t1) == NormalizeDate(t2) <==> t1 / SecondsPerDay == t2 / SecondsPerDay
  {
    NormalizeDateIsEpochDay(t1);
    NormalizeDateIsEpochDay(t2);
  }

  /** Later timestamps never land on earlier days. */
  lemma NormalizeDateMonotone(t1: Long, t2: Long)
    requires SafeTimestamp(t1) && SafeTimestamp(t2) && t1 <= t2
    ensures NormalizeDate(t1) <= NormalizeDate(t2)
  {
    NormalizeDateIsEpochDay(t1);
    NormalizeDateIsEpochDay(t2);
  }

  /** Beyond the safe range the product wraps: a timestamp in the far future
      is filed under a day before 1970. */
  lemma NormalizeDateOverflows()
    ensures NormalizeDate(MaxSafeTimestamp + 1) < 0
    ensures EpochDay(MaxSafeTimestamp + 1) > 0
  {
    assert WrapLong((MaxSafeTimestamp + 1) * 1000) == (MaxSafeTimestamp + 1) * 1000 - TwoTo64;
  }
}
