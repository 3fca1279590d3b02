/** A reference measure of working time, independent of the day-walking
    algorithm: the minutes between two instants that fall inside the work
    window on a workday. */
module WorkedTime {
  import opened Dates
  import opened Calendars

  /** A time of day pulled into the work window. */
  function Clamp(c: Calendar, t: real): (r: real)
    requires c.startOfWorkday <= c.endOfWorkday
    ensures c.startOfWorkday as real <= r <= c.endOfWorkday as real
    ensures c.startOfWorkday as real <= t <= c.endOfWorkday as real ==> r == t
  {
    if t < c.startOfWorkday as real then c.startOfWorkday as real
    else if t > c.endOfWorkday as real then c.endOfWorkday as real
    else t
  }

  /** Window minutes of `day` between the clock readings `from` and `to`; none on a non-workday. */
  function WorkedOnDay(c: Calendar, day: int, from: real, to: real): real
    requires c.startOfWorkday <= c.endOfWorkday
  {
    if IsWorkday(c, Midnight(day)) then Clamp(c, to) - Clamp(c, from) else 0.0
  }

  /** Window minutes on workdays from instant `a` up to instant `b`. */
  function WorkedMinutes(c: Calendar, a: DateTime, b: DateTime): (r: real)
    requires c.startOfWorkday <= c.endOfWorkday
    requires NotAfter(a, b)
    ensures 0.0 <= r
    decreases b.day - a.day
  {
    if a.day == b.day then WorkedOnDay(c, a.day, a.clock, b.clock)
    else WorkedOnDay(c, a.day, a.clock, 1440.0) + WorkedMinutes(c, Midnight(a.day + 1), b)
  }

  /** Worked minutes add up along the timeline. */
  lemma {:induction false} WorkedMinutesSplit(c: Calendar, a: DateTime, b: DateTime, e: DateTime)
    requires c.startOfWorkday <= c.endOfWorkday
    requires NotAfter(a, b) && NotAfter(b, e)
    ensures WorkedMinutes(c, a, e) == WorkedMinutes(c, a, b) + WorkedMinutes(c, b, e)
    decreases b.day - a.day
  {
    if a.day < b.day {
      WorkedMinutesSplit(c, Midnight(a.day + 1), b, e);
    }
  }

  /** Days that are not workdays contribute nothing. */
  lemma {:induction false} SkipNonWorkdays(c: Calendar, k: int, b: DateTime)
    requires c.startOfWorkday <= c.endOfWorkday
    requires k <= b.day
    requires forall j :: k <= j < b.day ==> !IsWorkday(c, Midnight(j))
    ensures WorkedMinutes(c, Midnight(k), b) == WorkedMinutes(c, Midnight(b.day), b)
    decreases b.day - k
  {
    if k < b.day {
      SkipNonWorkdays(c, k + 1, b);
    }
  }

  /** A day's worked time up to an instant not after the window's start is zero. */
  lemma NothingBeforeStart(c: Calendar, t: DateTime)
    requires c.startOfWorkday <= c.endOfWorkday
    requires t.clock <= c.startOfWorkday as real
    ensures WorkedMinutes(c, Midnight(t.day), t) == 0.0
  {
    assert Clamp(c, t.clock) == Clamp(c, 0.0);
  }

  /** From an instant to the start of a later workday, with only non-workdays
      in between, the worked time is what is left of the first day's window. */
  lemma ForwardGap(c: Calendar, d: DateTime, next: DateTime)
    requires c.startOfWorkday <= c.endOfWorkday
    requires d.day < next.day && next.clock == c.startOfWorkday as real
    requires forall k :: d.day < k < next.day ==> !IsWorkday(c, Midnight(k))
    ensures WorkedMinutes(c, d, next) == WorkedOnDay(c, d.day, d.clock, 1440.0)
  {
    SkipNonWorkdays(c, d.day + 1, next);
    NothingBeforeStart(c, next);
    assert WorkedMinutes(c, d, next)
      == WorkedOnDay(c, d.day, d.clock, 1440.0) + WorkedMinutes(c, Midnight(d.day + 1), next);
  }

  /** From the end of an earlier workday's window to an instant, with only
      non-workdays in between, the worked time is the part of the last day's
      window before the instant. */
  lemma BackwardGap(c: Calendar, prev: DateTime, d: DateTime)
    requires c.startOfWorkday <= c.endOfWorkday
    requires prev.day < d.day && prev.clock == c.endOfWorkday as real
    requires forall k :: prev.day < k < d.day ==> !IsWorkday(c, Midnight(k))
    ensures WorkedMinutes(c, prev, d) == WorkedOnDay(c, d.day, 0.0, d.clock)
  {
    SkipNonWorkdays(c, prev.day + 1, d);
    assert WorkedOnDay(c, prev.day, prev.clock, 1440.0) == 0.0 by {
      assert Clamp(c, prev.clock) == Clamp(c, 1440.0);
    }
    assert WorkedMinutes(c, prev, d)
      == WorkedOnDay(c, prev.day, prev.clock, 1440.0) + WorkedMinutes(c, Midnight(prev.day + 1), d);
  }

  /** Within one workday's window the worked time is the plain difference of the clocks. */
  lemma WorkedWithinWindow(c: Calendar, a: DateTime, b: DateTime)
    requires c.startOfWorkday <= c.endOfWorkday
    requires a.day == b.day && a.clock <= b.clock && IsWorkday(c, a)
    requires c.startOfWorkday as real <= a.clock && b.clock <= c.endOfWorkday as real
    ensures WorkedMinutes(c, a, b) == b.clock - a.clock
  {
    IsWorkdayIgnoresTime(c, a, Midnight(a.day));
  }
  /** From an in-window instant to a later workday instant past the start of
      its window some working time passes. */
  lemma WorkedUpToLater(c: Calendar, u: DateTime, v: DateTime)
    requires c.startOfWorkday <= c.endOfWorkday
    requires NotAfter(u, v) && u != v
    requires c.startOfWorkday as real <= u.clock
    requires IsWorkday(c, v) && c.startOfWorkday as real < v.clock <= c.endOfWorkday as real
    ensures WorkedMinutes(c, u, v) > 0.0
  {
    if u.day == v.day {
      IsWorkdayIgnoresTime(c, u, v);
      WorkedWithinWindow(c, u, v);
    } else {
      IsWorkdayIgnoresTime(c, v, Midnight(v.day));
      WorkedMinutesSplit(c, u, Midnight(v.day), v);
    }
  }

  /** From a workday instant before the end of its window to a later in-window
      instant some working time passes. */
  lemma WorkedFromEarlier(c: Calendar, u: DateTime, v: DateTime)
    requires c.startOfWorkday <= c.endOfWorkday
    requires NotAfter(u, v) && u != v
    requires IsWorkday(c, u) && c.startOfWorkday as real <= u.clock < c.endOfWorkday as real
    requires v.clock <= c.endOfWorkday as real
    ensures WorkedMinutes(c, u, v) > 0.0
  {
    if u.day == v.day {
      WorkedWithinWindow(c, u, v);
    } else {
      var next := Midnight(u.day + 1);
      IsWorkdayIgnoresTime(c, u, Midnight(u.day));
      assert WorkedMinutes(c, next, next) == 0.0;
      assert WorkedMinutes(c, u, next) == c.endOfWorkday as real - u.clock;
      WorkedMinutesSplit(c, u, next, v);
    }
  }

  /** Worked time counted forward from `a` tells apart the workday instants
      past the start of their window: two of them at the same distance are one. */
  lemma ForwardEndIsUnique(c: Calendar, a: DateTime, u: DateTime, v: DateTime)
    requires c.startOfWorkday <= c.endOfWorkday
    requires IsWorkday(c, u) && c.startOfWorkday as real < u.clock <= c.endOfWorkday as real
    requires IsWorkday(c, v) && c.startOfWorkday as real < v.clock <= c.endOfWorkday as real
    requires NotAfter(a, u) && NotAfter(a, v)
    requires WorkedMinutes(c, a, u) == WorkedMinutes(c, a, v)
    ensures u == v
  {
    if u != v {
      if NotAfter(u, v) {
        WorkedMinutesSplit(c, a, u, v);
        WorkedUpToLater(c, u, v);
      } else {
        WorkedMinutesSplit(c, a, v, u);
        WorkedUpToLater(c, v, u);
      }
    }
  }

  /** Worked time counted back from `b` tells apart the workday instants before
      the end of their window: two of them at the same distance are one. */
  lemma BackwardEndIsUnique(c: Calendar, u: DateTime, v: DateTime, b: DateTime)
    requires c.startOfWorkday <= c.endOfWorkday
    requires IsWorkday(c, u) && c.startOfWorkday as real <= u.clock < c.endOfWorkday as real
    requires IsWorkday(c, v) && c.startOfWorkday as real <= v.clock < c.endOfWorkday as real
    requires NotAfter(u, b) && NotAfter(v, b)
    requires WorkedMinutes(c, u, b) == WorkedMinutes(c, v, b)
    ensures u == v
  {
    if u != v {
      if NotAfter(u, v) {
        WorkedMinutesSplit(c, u, v, b);
        WorkedFromEarlier(c, u, v);
      } else {
        WorkedMinutesSplit(c, v, u, b);
        WorkedFromEarlier(c, v, u);
      }
    }
  }
}
