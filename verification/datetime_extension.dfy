/** SetTime and SetSecondsToZero, the two DateTime extension methods. */
module DateTimeExtension {
  import opened Dates

  /** A copy of `d` with the given hour and minute and zero seconds. The .NET
      constructor it calls rejects an hour outside 0..23 or a minute outside 0..59. */
  function SetTime(d: DateTime, hour: int, minute: int): (r: DateTime)
    requires 0 <= hour < 24 && 0 <= minute < 60
    ensures Year(r) == Year(d) && Month(r) == Month(d) && DayOfMonth(r) == DayOfMonth(d)
    ensures r.day == d.day
    ensures Hour(r) == hour && Minute(r) == minute
    ensures OnWholeMinute(r)
  {
    DateTime(d.day, (hour * 60 + minute) as real)
  }

  /** A copy of `d` whose seconds (and everything below) are dropped. */
  function SetSecondsToZero(d: DateTime): (r: DateTime)
    ensures Year(r) == Year(d) && Month(r) == Month(d) && DayOfMonth(r) == DayOfMonth(d)
    ensures r.day == d.day
    ensures Hour(r) == Hour(d) && Minute(r) == Minute(d)
    ensures OnWholeMinute(r)
    ensures r.clock <= d.clock < r.clock + 1.0
  {
    DateTime(d.day, d.clock.Floor as real)
  }

  /** An instant already on a whole minute is left alone; hence truncation is idempotent. */
  lemma SetSecondsToZeroKeepsWholeMinutes(d: DateTime)
    ensures OnWholeMinute(d) <==> SetSecondsToZero(d) == d
    ensures SetSecondsToZero(SetSecondsToZero(d)) == SetSecondsToZero(d)
  {
  }

  /** Truncating seconds after SetTime changes nothing. */
  lemma SetSecondsToZeroAfterSetTime(d: DateTime, hour: int, minute: int)
    requires 0 <= hour < 24 && 0 <= minute < 60
    ensures SetSecondsToZero(SetTime(d, hour, minute)) == SetTime(d, hour, minute)
  {
  }

  /** Hour and minute of the clock determine a whole-minute instant on its day. */
  lemma WholeMinuteDeterminedByHourAndMinute(d: DateTime, e: DateTime)
    requires OnWholeMinute(d) && OnWholeMinute(e)
    requires d.day == e.day && Hour(d) == Hour(e) && Minute(d) == Minute(e)
    ensures d == e
  {
    assert d.clock.Floor == Hour(d) * 60 + Minute(d);
    assert e.clock.Floor == Hour(e) * 60 + Minute(e);
  }
  /** SetSecondsToZero gives the one whole minute on the same day that is at
      most one minute below the instant. */
  lemma SetSecondsToZeroIsTheMinuteBelow(d: DateTime, r: DateTime)
    requires OnWholeMinute(r) && r.day == d.day && r.clock <= d.clock < r.clock + 1.0
    ensures r == SetSecondsToZero(d)
  {
    assert r.clock.Floor == d.clock.Floor;
  }
}
