/** What FindWorkday promises: exact behaviour at the window edges, offset 0,
    and that it moves exactly the requested amount of working time. */
module FindWorkdayProperties {
  import opened Wrappers
  import opened Dates
  import opened DateTimeExtension
  import opened Calendars
  import opened WorkedTime
  import opened CalendarService

  /** Offset 0 from an in-window time on a workday returns that same instant. */
  lemma FindWorkdayZeroInWindow(c: Calendar, d: DateTime, horizon: nat)
    requires IsWorkday(c, d) && OnWholeMinute(d)
    requires c.startOfWorkday as real <= d.clock < c.endOfWorkday as real
    ensures FindWorkday(c, d, 0.0, horizon) == Success(d)
  {
    assert AlignForward(c, d, horizon) == Some(d);
    assert AddMinutes(d, 0.0) == d;
  }

  /** Forward from a time at or after the end of the window, the end included,
      offset 0 gives the start of the next workday. */
  lemma FindWorkdayZeroFromEnd(c: Calendar, d: DateTime, horizon: nat)
    requires c.startOfWorkday <= c.endOfWorkday
    requires d.clock >= c.endOfWorkday as real
    requires MoveToNextWorkday(c, d, horizon).Some?
    ensures FindWorkday(c, d, 0.0, horizon) == Success(MoveToNextWorkday(c, d, horizon).value)
  {
    var n := MoveToNextWorkday(c, d, horizon).value;
    assert AlignForward(c, d, horizon) == Some(n);
    assert AddMinutes(n, 0.0) == n;
  }

  /** Backward from exactly the end of the window on a workday, one workday
      back is the start of the same day: only times strictly after the end are
      pulled back. */
  lemma FindWorkdayBackOneFromEnd(c: Calendar, d: DateTime, horizon: nat)
    requires c.startOfWorkday <= c.endOfWorkday
    requires IsWorkday(c, d) && d.clock == c.endOfWorkday as real
    ensures FindWorkday(c, d, -1.0, horizon) == Success(DateTime(d.day, c.startOfWorkday as real))
  {
    var length := c.endOfWorkday - c.startOfWorkday;
    assert AlignBackward(c, d, horizon) == Some(d);
    var r := AddMinutes(d, -(length as real));
    assert r == DateTime(d.day, c.startOfWorkday as real);
    assert WalkBackward(c, d, length as real, horizon) == Some(r);
  }

  /** The forward loop compares with a strict `>`: an offset equal to what is
      left of the day ends at the end of the window on that same day. */
  lemma WalkForwardStopsAtEnd(c: Calendar, d: DateTime, horizon: nat)
    requires c.startOfWorkday <= c.endOfWorkday
    requires IsWorkday(c, d) && InWindow(c, d)
    ensures WalkForward(c, d, c.endOfWorkday as real - d.clock, horizon)
      == Some(DateTime(d.day, c.endOfWorkday as real))
  {
  }

  /** Any amount more than what is left of the day moves to a later workday. */
  lemma WalkForwardPastEndMovesOn(c: Calendar, d: DateTime, extra: real, horizon: nat)
    requires c.startOfWorkday < c.endOfWorkday
    requires IsWorkday(c, d) && InWindow(c, d) && extra > 0.0
    ensures var r := WalkForward(c, d, c.endOfWorkday as real - d.clock + extra, horizon);
      r.Some? ==> d.day < r.value.day
  {
  }

  /** The backward loop compares with a strict `<`: an offset equal to what has
      passed of the day ends at the start of the window on that same day. */
  lemma WalkBackwardStopsAtStart(c: Calendar, d: DateTime, horizon: nat)
    requires c.startOfWorkday <= c.endOfWorkday
    requires IsWorkday(c, d) && InWindow(c, d)
    ensures WalkBackward(c, d, d.clock - c.startOfWorkday as real, horizon)
      == Some(DateTime(d.day, c.startOfWorkday as real))
  {
  }

  /** Any amount more than what has passed of the day moves to an earlier workday. */
  lemma WalkBackwardPastStartMovesOn(c: Calendar, d: DateTime, extra: real, horizon: nat)
    requires c.startOfWorkday < c.endOfWorkday
    requires IsWorkday(c, d) && InWindow(c, d) && extra > 0.0
    ensures var r := WalkBackward(c, d, d.clock - c.startOfWorkday as real + extra, horizon);
      r.Some? ==> r.value.day < d.day
  {
  }

  /** An offset no larger than what is left of the day is added on that same day. */
  lemma WalkForwardWithinDay(c: Calendar, d: DateTime, minutes: real, horizon: nat)
    requires c.startOfWorkday <= c.endOfWorkday
    requires IsWorkday(c, d) && InWindow(c, d)
    requires 0.0 <= minutes <= c.endOfWorkday as real - d.clock
    ensures WalkForward(c, d, minutes, horizon) == Some(DateTime(d.day, d.clock + minutes))
  {
  }

  /** An offset larger than what is left of the day spends the rest of the day
      and carries on from the start of the next workday. */
  lemma WalkForwardToNextWorkday(c: Calendar, d: DateTime, minutes: real, horizon: nat, next: DateTime)
    requires c.startOfWorkday < c.endOfWorkday
    requires IsWorkday(c, d) && InWindow(c, d)
    requires minutes > c.endOfWorkday as real - d.clock
    requires MoveToNextWorkday(c, d, horizon) == Some(next)
    ensures WalkForward(c, d, minutes, horizon)
      == WalkForward(c, next, minutes - (c.endOfWorkday as real - d.clock), horizon)
  {
  }

  /** An offset no larger than what has passed of the day is taken off on that same day. */
  lemma WalkBackwardWithinDay(c: Calendar, d: DateTime, minutes: real, horizon: nat)
    requires c.startOfWorkday <= c.endOfWorkday
    requires IsWorkday(c, d) && InWindow(c, d)
    requires 0.0 <= minutes <= d.clock - c.startOfWorkday as real
    ensures WalkBackward(c, d, minutes, horizon) == Some(DateTime(d.day, d.clock - minutes))
  {
  }

  /** An offset larger than what has passed of the day spends what has passed
      and carries on from the end of the previous workday. */
  lemma WalkBackwardToPreviousWorkday(c: Calendar, d: DateTime, minutes: real, horizon: nat, prev: DateTime)
    requires c.startOfWorkday < c.endOfWorkday
    requires IsWorkday(c, d) && InWindow(c, d)
    requires minutes > d.clock - c.startOfWorkday as real
    requires MoveToPreviousWorkday(c, d, horizon) == Some(prev)
    ensures WalkBackward(c, d, minutes, horizon)
      == WalkBackward(c, prev, minutes - (d.clock - c.startOfWorkday as real), horizon)
  {
  }

  /** With a non-empty window, offset 0 lands on a canonical position that offset
      0 leaves where it is. */
  lemma FindWorkdayZeroIdempotent(c: Calendar, t: DateTime, horizon: nat)
    requires c.startOfWorkday < c.endOfWorkday
    requires FindWorkday(c, t, 0.0, horizon).Success?
    ensures FindWorkday(c, FindWorkday(c, t, 0.0, horizon).value, 0.0, horizon)
      == FindWorkday(c, t, 0.0, horizon)
  {
    var a := AlignForward(c, t, horizon).value;
    assert AddMinutes(a, 0.0) == a;
    assert WalkForward(c, a, 0.0, horizon) == Some(a);
    var r := FindWorkday(c, t, 0.0, horizon).value;
    assert r == Truncate(c, a);
    FindWorkdayZeroInWindow(c, r, horizon);
  }

  /** With an empty window (start == end) offset 0 never stays put: every call
      moves on to the next workday, so the idempotence above needs a non-empty window. */
  lemma FindWorkdayZeroMovesOnEmptyWindow(c: Calendar, t: DateTime, horizon: nat)
    requires c.startOfWorkday == c.endOfWorkday
    requires FindWorkday(c, t, 0.0, horizon).Success?
    ensures t.day < FindWorkday(c, t, 0.0, horizon).value.day
  {
    var start := c.startOfWorkday;
    var a := if t.clock < start as real then SetTime(t, start / 60, start % 60) else t;
    assert a.day == t.day && a.clock >= c.endOfWorkday as real;
    var n := MoveToNextWorkday(c, a, horizon);
    assert AlignForward(c, t, horizon) == n;
    assert AddMinutes(n.value, 0.0) == n.value;
  }

  /** The forward alignment skips no working time. */
  lemma AlignForwardIsIdle(c: Calendar, d: DateTime, horizon: nat)
    requires c.startOfWorkday <= c.endOfWorkday
    requires AlignForward(c, d, horizon).Some?
    ensures WorkedMinutes(c, d, AlignForward(c, d, horizon).value) == 0.0
  {
    var start := c.startOfWorkday;
    var a := if d.clock < start as real then SetTime(d, start / 60, start % 60) else d;
    IsWorkdayIgnoresTime(c, d, Midnight(d.day));
    assert WorkedMinutes(c, d, a) == 0.0;
    var b := if a.clock >= c.endOfWorkday as real then MoveToNextWorkday(c, a, horizon).value else a;
    if a.clock >= c.endOfWorkday as real {
      ForwardGap(c, a, b);
    }
    assert WorkedMinutes(c, a, b) == 0.0;
    WorkedMinutesSplit(c, d, a, b);
    var r := AlignForward(c, d, horizon).value;
    if !IsWorkday(c, b) {
      IsWorkdayIgnoresTime(c, b, Midnight(b.day));
      ForwardGap(c, b, r);
    }
    assert WorkedMinutes(c, b, r) == 0.0;
    WorkedMinutesSplit(c, d, b, r);
  }

  /** The backward alignment skips no working time. */
  lemma AlignBackwardIsIdle(c: Calendar, d: DateTime, horizon: nat)
    requires c.startOfWorkday <= c.endOfWorkday
    requires AlignBackward(c, d, horizon).Some?
    ensures WorkedMinutes(c, AlignBackward(c, d, horizon).value, d) == 0.0
  {
    var end := c.endOfWorkday;
    var a := if d.clock > end as real then SetTime(d, end / 60, end % 60) else d;
    IsWorkdayIgnoresTime(c, d, Midnight(d.day));
    assert WorkedMinutes(c, a, d) == 0.0;
    var b := if a.clock < c.startOfWorkday as real then MoveToPreviousWorkday(c, a, horizon).value else a;
    if a.clock < c.startOfWorkday as real {
      BackwardGap(c, b, a);
    }
    assert WorkedMinutes(c, b, a) == 0.0;
    WorkedMinutesSplit(c, b, a, d);
    var r := AlignBackward(c, d, horizon).value;
    if !IsWorkday(c, b) {
      IsWorkdayIgnoresTime(c, b, Midnight(b.day));
      BackwardGap(c, r, b);
    }
    assert WorkedMinutes(c, r, b) == 0.0;
    WorkedMinutesSplit(c, r, b, d);
  }

  /** One forward iteration: from an in-window instant on a workday to the start
      of the next workday is what is left of the window. */
  lemma RestOfDayAfter(c: Calendar, d: DateTime, next: DateTime)
    requires c.startOfWorkday <= c.endOfWorkday
    requires IsWorkday(c, d) && InWindow(c, d)
    requires d.day < next.day && next.clock == c.startOfWorkday as real
    requires forall k :: d.day < k < next.day ==> !IsWorkday(c, Midnight(k))
    ensures WorkedMinutes(c, d, next) == c.endOfWorkday as real - d.clock
  {
    IsWorkdayIgnoresTime(c, d, Midnight(d.day));
    ForwardGap(c, d, next);
  }

  /** One backward iteration: from the end of the previous workday to an
      in-window instant on a workday is what has passed of the window. */
  lemma WholeDayBefore(c: Calendar, prev: DateTime, d: DateTime)
    requires c.startOfWorkday <= c.endOfWorkday
    requires IsWorkday(c, d) && InWindow(c, d)
    requires prev.day < d.day && prev.clock == c.endOfWorkday as real
    requires forall k :: prev.day < k < d.day ==> !IsWorkday(c, Midnight(k))
    ensures WorkedMinutes(c, prev, d) == d.clock - c.startOfWorkday as real
  {
    IsWorkdayIgnoresTime(c, d, Midnight(d.day));
    BackwardGap(c, prev, d);
  }

  /** The last backward step stays on the day and inside its window. */
  lemma LastStepBack(c: Calendar, d: DateTime, minutes: real)
    requires c.startOfWorkday <= c.endOfWorkday
    requires IsWorkday(c, d) && InWindow(c, d)
    requires 0.0 <= minutes <= d.clock - c.startOfWorkday as real
    ensures NotAfter(AddMinutes(d, -minutes), d)
    ensures WorkedMinutes(c, AddMinutes(d, -minutes), d) == minutes
  {
    var r := AddMinutes(d, -minutes);
    IsWorkdayIgnoresTime(c, d, r);
    WorkedWithinWindow(c, r, d);
  }

  /** Each forward iteration spends exactly what is left of the day, and the
      last step adds the rest inside the window: the walk covers `minutes` of working time. */
  lemma {:induction false} WalkForwardWorks(c: Calendar, d: DateTime, minutes: real, horizon: nat)
    requires c.startOfWorkday <= c.endOfWorkday
    requires IsWorkday(c, d) && InWindow(c, d)
    requires 0.0 <= minutes && (minutes == 0.0 || c.startOfWorkday < c.endOfWorkday)
    requires WalkForward(c, d, minutes, horizon).Some?
    ensures WorkedMinutes(c, d, WalkForward(c, d, minutes, horizon).value) == minutes
    decreases ForwardMeasure(c, d, minutes)
  {
    var r := WalkForward(c, d, minutes, horizon).value;
    var remaining := c.endOfWorkday as real - d.clock;
    if minutes > remaining {
      var next := MoveToNextWorkday(c, d, horizon).value;
      WalkForwardWorks(c, next, minutes - remaining, horizon);
      RestOfDayAfter(c, d, next);
      WorkedMinutesSplit(c, d, next, r);
    } else {
      WorkedWithinWindow(c, d, r);
    }
  }

  /** Each backward iteration spends exactly what has passed of the day, and the
      last step subtracts the rest inside the window. */
  lemma {:induction false} WalkBackwardWorks(c: Calendar, d: DateTime, minutes: real, horizon: nat)
    requires c.startOfWorkday <= c.endOfWorkday
    requires IsWorkday(c, d) && InWindow(c, d)
    requires 0.0 <= minutes && (minutes == 0.0 || c.startOfWorkday < c.endOfWorkday)
    requires WalkBackward(c, d, minutes, horizon).Some?
    ensures WorkedMinutes(c, WalkBackward(c, d, minutes, horizon).value, d) == minutes
    decreases BackwardMeasure(c, d, minutes)
  {
    var r := WalkBackward(c, d, minutes, horizon).value;
    var passed := d.clock - c.startOfWorkday as real;
    if passed < minutes {
      var prev := MoveToPreviousWorkday(c, d, horizon).value;
      WalkBackwardWorks(c, prev, minutes - passed, horizon);
      WholeDayBefore(c, prev, d);
      WorkedMinutesSplit(c, r, prev, d);
    } else {
      LastStepBack(c, d, minutes);
    }
  }

  /** An instant on a whole minute that is not after `u` is not after `u`
      with its seconds dropped either. */
  lemma WholeMinuteStaysBefore(a: DateTime, u: DateTime, r: DateTime)
    requires OnWholeMinute(a) && NotAfter(a, u)
    requires r.day == u.day && r.clock <= u.clock < r.clock + 1.0 && OnWholeMinute(r)
    ensures NotAfter(a, r)
  {
    if a.day == u.day {
      var i, j := a.clock.Floor, r.clock.Floor;
      assert i as real < (j + 1) as real;
      assert i <= j;
    }
  }

  /** A forward walk of a positive number of minutes over a non-empty window
      never ends at the start of a window: the loop's strict `>` leaves an
      exact fit at the end of the earlier day. */
  lemma {:induction false} WalkForwardEndsPastStart(c: Calendar, d: DateTime, minutes: real, horizon: nat)
    requires c.startOfWorkday < c.endOfWorkday
    requires IsWorkday(c, d) && InWindow(c, d) && 0.0 < minutes
    requires WalkForward(c, d, minutes, horizon).Some?
    ensures WalkForward(c, d, minutes, horizon).value.clock > c.startOfWorkday as real
    decreases ForwardMeasure(c, d, minutes)
  {
    var remaining := c.endOfWorkday as real - d.clock;
    if minutes > remaining {
      var next := MoveToNextWorkday(c, d, horizon).value;
      WalkForwardEndsPastStart(c, next, minutes - remaining, horizon);
    }
  }

  /** A backward walk of a positive number of minutes over a non-empty window
      never ends at the end of a window: the loop's strict `<` leaves an exact
      fit at the start of the later day. */
  lemma {:induction false} WalkBackwardEndsBeforeEnd(c: Calendar, d: DateTime, minutes: real, horizon: nat)
    requires c.startOfWorkday < c.endOfWorkday
    requires IsWorkday(c, d) && InWindow(c, d) && 0.0 < minutes
    requires WalkBackward(c, d, minutes, horizon).Some?
    ensures WalkBackward(c, d, minutes, horizon).value.clock < c.endOfWorkday as real
    decreases BackwardMeasure(c, d, minutes)
  {
    var passed := d.clock - c.startOfWorkday as real;
    if passed < minutes {
      var prev := MoveToPreviousWorkday(c, d, horizon).value;
      WalkBackwardEndsBeforeEnd(c, prev, minutes - passed, horizon);
    }
  }

  /** The forward path of FindWorkday before the seconds are dropped: it ends at
      an in-window workday instant `u` exactly `m` worked minutes after the
      start, and past the start of its window when `m` is positive. */
  lemma ForwardPath(c: Calendar, start: DateTime, workdays: real, horizon: nat) returns (u: DateTime)
    requires workdays >= 0.0
    requires FindWorkday(c, start, workdays, horizon).Success?
    ensures c.startOfWorkday <= c.endOfWorkday
    ensures IsWorkday(c, u) && InWindow(c, u)
    ensures NotAfter(start, u)
    ensures WorkedMinutes(c, start, u) == workdays * (c.endOfWorkday - c.startOfWorkday) as real
    ensures workdays > 0.0 && c.startOfWorkday < c.endOfWorkday ==> u.clock > c.startOfWorkday as real
    ensures var r := FindWorkday(c, start, workdays, horizon).value;
      && r.day == u.day && r.clock <= u.clock < r.clock + 1.0
      && (OnWholeMinute(start) ==> NotAfter(start, r))
  {
    var m := OffsetMinutes(workdays, c.endOfWorkday - c.startOfWorkday);
    var a := AlignForward(c, start, horizon).value;
    u := WalkForward(c, a, m, horizon).value;
    assert GetLengthOfWorkday(c) == Success(c.endOfWorkday - c.startOfWorkday);
    assert IncrementDateAndTime(c, start, m, horizon) == Some(u);
    var r := FindWorkday(c, start, workdays, horizon).value;
    assert r == Truncate(c, u);
    AlignForwardIsIdle(c, start, horizon);
    WalkForwardWorks(c, a, m, horizon);
    WorkedMinutesSplit(c, start, a, u);
    if workdays > 0.0 && c.startOfWorkday < c.endOfWorkday {
      WalkForwardEndsPastStart(c, a, m, horizon);
    }
    if OnWholeMinute(start) {
      WholeMinuteStaysBefore(a, u, r);
    }
  }

  /** The backward path of FindWorkday before the seconds are dropped: it ends at
      an in-window workday instant `u` exactly `m` worked minutes before the
      start, and before the end of its window. */
  lemma BackwardPath(c: Calendar, start: DateTime, workdays: real, horizon: nat) returns (u: DateTime)
    requires workdays < 0.0
    requires FindWorkday(c, start, workdays, horizon).Success?
    ensures c.startOfWorkday <= c.endOfWorkday
    ensures IsWorkday(c, u) && InWindow(c, u)
    ensures NotAfter(u, start)
    ensures WorkedMinutes(c, u, start) == -workdays * (c.endOfWorkday - c.startOfWorkday) as real
    ensures c.startOfWorkday < c.endOfWorkday ==> u.clock < c.endOfWorkday as real
    ensures var r := FindWorkday(c, start, workdays, horizon).value;
      r.day == u.day && r.clock <= u.clock < r.clock + 1.0
  {
    var m := -OffsetMinutes(workdays, c.endOfWorkday - c.startOfWorkday);
    var a := AlignBackward(c, start, horizon).value;
    u := WalkBackward(c, a, m, horizon).value;
    assert GetLengthOfWorkday(c) == Success(c.endOfWorkday - c.startOfWorkday);
    assert SubtractMinutes(c, start, m, horizon) == Some(u);
    var r := FindWorkday(c, start, workdays, horizon).value;
    assert r == Truncate(c, u);
    AlignBackwardIsIdle(c, start, horizon);
    WalkBackwardWorks(c, a, m, horizon);
    WorkedMinutesSplit(c, u, a, start);
    if c.startOfWorkday < c.endOfWorkday {
      WalkBackwardEndsBeforeEnd(c, a, m, horizon);
    }
  }

  /** Dropping the seconds of the end point `u` of a forward move of `m` worked
      minutes gives back less than one of them. */
  lemma TruncatedAfterStart(c: Calendar, start: DateTime, r: DateTime, u: DateTime, m: real)
    requires c.startOfWorkday <= c.endOfWorkday
    requires NotAfter(start, r) && NotAfter(start, u) && WorkedMinutes(c, start, u) == m
    requires IsWorkday(c, r) && InWindow(c, r) && InWindow(c, u)
    requires r.day == u.day && r.clock <= u.clock < r.clock + 1.0
    ensures m - 1.0 < WorkedMinutes(c, start, r) <= m
  {
    WorkedMinutesSplit(c, start, r, u);
    WorkedWithinWindow(c, r, u);
  }

  /** Dropping the seconds of the end point `u` of a backward move of `m` worked
      minutes adds less than one to them. */
  lemma TruncatedBeforeEnd(c: Calendar, r: DateTime, u: DateTime, start: DateTime, m: real)
    requires c.startOfWorkday <= c.endOfWorkday
    requires NotAfter(u, start) && WorkedMinutes(c, u, start) == m
    requires IsWorkday(c, r) && InWindow(c, r) && InWindow(c, u)
    requires r.day == u.day && r.clock <= u.clock < r.clock + 1.0
    ensures NotAfter(r, start) && m <= WorkedMinutes(c, r, start) < m + 1.0
  {
    WorkedMinutesSplit(c, r, u, start);
    WorkedWithinWindow(c, r, u);
  }

  /** Forward, FindWorkday moves `workdays` times the window length of working
      time; dropping the seconds gives back less than one minute of it. */
  lemma FindWorkdayForwardWorkedMinutes(c: Calendar, start: DateTime, workdays: real, horizon: nat)
    requires workdays >= 0.0 && OnWholeMinute(start)
    requires FindWorkday(c, start, workdays, horizon).Success?
    ensures c.startOfWorkday <= c.endOfWorkday
    ensures var r := FindWorkday(c, start, workdays, horizon).value;
      var m := workdays * (c.endOfWorkday - c.startOfWorkday) as real;
      && NotAfter(start, r)
      && m - 1.0 < WorkedMinutes(c, start, r) <= m
  {
    var u := ForwardPath(c, start, workdays, horizon);
    var m := workdays * (c.endOfWorkday - c.startOfWorkday) as real;
    TruncatedAfterStart(c, start, FindWorkday(c, start, workdays, horizon).value, u, m);
  }

  /** Backward, FindWorkday moves `-workdays` times the window length of working
      time back; dropping the seconds adds less than one minute to it. */
  lemma FindWorkdayBackwardWorkedMinutes(c: Calendar, start: DateTime, workdays: real, horizon: nat)
    requires workdays < 0.0
    requires FindWorkday(c, start, workdays, horizon).Success?
    ensures c.startOfWorkday <= c.endOfWorkday
    ensures var r := FindWorkday(c, start, workdays, horizon).value;
      var m := -workdays * (c.endOfWorkday - c.startOfWorkday) as real;
      && NotAfter(r, start)
      && m <= WorkedMinutes(c, r, start) < m + 1.0
      && (c.startOfWorkday < c.endOfWorkday ==> r.clock < c.endOfWorkday as real)
  {
    var u := BackwardPath(c, start, workdays, horizon);
    var m := -workdays * (c.endOfWorkday - c.startOfWorkday) as real;
    TruncatedBeforeEnd(c, FindWorkday(c, start, workdays, horizon).value, u, start, m);
  }

  /** Forward by a positive offset over a non-empty window, the result is fixed:
      it is the seconds-free form of the one workday instant `v` past the start
      of its window that lies exactly `workdays` times the window length of
      worked minutes after the start. */
  lemma FindWorkdayForwardDetermined(c: Calendar, start: DateTime, workdays: real, horizon: nat, v: DateTime)
    requires workdays > 0.0 && c.startOfWorkday < c.endOfWorkday
    requires FindWorkday(c, start, workdays, horizon).Success?
    requires IsWorkday(c, v) && c.startOfWorkday as real < v.clock <= c.endOfWorkday as real
    requires NotAfter(start, v)
    requires WorkedMinutes(c, start, v) == workdays * (c.endOfWorkday - c.startOfWorkday) as real
    ensures FindWorkday(c, start, workdays, horizon).value == SetSecondsToZero(v)
  {
    var u := ForwardPath(c, start, workdays, horizon);
    ForwardEndIsUnique(c, start, u, v);
    SetSecondsToZeroIsTheMinuteBelow(v, FindWorkday(c, start, workdays, horizon).value);
  }

  /** Backward by a negative offset over a non-empty window, the result is fixed:
      it is the seconds-free form of the one workday instant `v` before the end
      of its window that lies exactly `-workdays` times the window length of
      worked minutes before the start. */
  lemma FindWorkdayBackwardDetermined(c: Calendar, start: DateTime, workdays: real, horizon: nat, v: DateTime)
    requires workdays < 0.0 && c.startOfWorkday < c.endOfWorkday
    requires FindWorkday(c, start, workdays, horizon).Success?
    requires IsWorkday(c, v) && c.startOfWorkday as real <= v.clock < c.endOfWorkday as real
    requires NotAfter(v, start)
    requires WorkedMinutes(c, v, start) == -workdays * (c.endOfWorkday - c.startOfWorkday) as real
    ensures FindWorkday(c, start, workdays, horizon).value == SetSecondsToZero(v)
  {
    var u := BackwardPath(c, start, workdays, horizon);
    BackwardEndIsUnique(c, u, v, start);
    SetSecondsToZeroIsTheMinuteBelow(v, FindWorkday(c, start, workdays, horizon).value);
  }

  /** When every run of non-workdays is shorter than the horizon, the forward walk always finishes. */
  lemma {:induction false} WalkForwardSucceeds(c: Calendar, d: DateTime, minutes: real, horizon: nat)
    requires c.startOfWorkday <= c.endOfWorkday
    requires IsWorkday(c, d) && InWindow(c, d)
    requires 0.0 <= minutes && (minutes == 0.0 || c.startOfWorkday < c.endOfWorkday)
    requires WorkdaysWithin(c, horizon)
    ensures WalkForward(c, d, minutes, horizon).Some?
    decreases ForwardMeasure(c, d, minutes)
  {
    var remaining := c.endOfWorkday as real - d.clock;
    if minutes > remaining {
      MovesSucceedWithinHorizon(c, d, horizon);
      var next := MoveToNextWorkday(c, d, horizon).value;
      WalkForwardSucceeds(c, next, minutes - remaining, horizon);
    }
  }

  /** When every run of non-workdays is shorter than the horizon, the backward walk always finishes. */
  lemma {:induction false} WalkBackwardSucceeds(c: Calendar, d: DateTime, minutes: real, horizon: nat)
    requires c.startOfWorkday <= c.endOfWorkday
    requires IsWorkday(c, d) && InWindow(c, d)
    requires 0.0 <= minutes && (minutes == 0.0 || c.startOfWorkday < c.endOfWorkday)
    requires WorkdaysWithin(c, horizon)
    ensures WalkBackward(c, d, minutes, horizon).Some?
    decreases BackwardMeasure(c, d, minutes)
  {
    var passed := d.clock - c.startOfWorkday as real;
    if passed < minutes {
      MovesSucceedWithinHorizon(c, d, horizon);
      var prev := MoveToPreviousWorkday(c, d, horizon).value;
      WalkBackwardSucceeds(c, prev, minutes - passed, horizon);
    }
  }

  /** Under the horizon assumption the forward alignment always finds a workday. */
  lemma AlignForwardSucceeds(c: Calendar, d: DateTime, horizon: nat)
    requires c.startOfWorkday <= c.endOfWorkday
    requires WorkdaysWithin(c, horizon)
    ensures AlignForward(c, d, horizon).Some?
  {
    var s := c.startOfWorkday;
    var a := if d.clock < s as real then SetTime(d, s / 60, s % 60) else d;
    MovesSucceedWithinHorizon(c, a, horizon);
    var b := if a.clock >= c.endOfWorkday as real then MoveToNextWorkday(c, a, horizon).value else a;
    MovesSucceedWithinHorizon(c, b, horizon);
  }

  /** Under the horizon assumption the backward alignment always finds a workday. */
  lemma AlignBackwardSucceeds(c: Calendar, d: DateTime, horizon: nat)
    requires c.startOfWorkday <= c.endOfWorkday
    requires WorkdaysWithin(c, horizon)
    ensures AlignBackward(c, d, horizon).Some?
  {
    var e := c.endOfWorkday;
    var a := if d.clock > e as real then SetTime(d, e / 60, e % 60) else d;
    MovesSucceedWithinHorizon(c, a, horizon);
    var b := if a.clock < c.startOfWorkday as real then MoveToPreviousWorkday(c, a, horizon).value else a;
    MovesSucceedWithinHorizon(c, b, horizon);
  }

  /** FindWorkday fails only on a window whose start is after its end, as long as
      no run of non-workdays reaches the horizon. */
  lemma FindWorkdaySucceedsWithinHorizon(c: Calendar, start: DateTime, workdays: real, horizon: nat)
    requires c.startOfWorkday <= c.endOfWorkday
    requires WorkdaysWithin(c, horizon)
    ensures FindWorkday(c, start, workdays, horizon).Success?
  {
    var m := OffsetMinutes(workdays, c.endOfWorkday - c.startOfWorkday);
    assert GetLengthOfWorkday(c) == Success(c.endOfWorkday - c.startOfWorkday);
    if workdays >= 0.0 {
      AlignForwardSucceeds(c, start, horizon);
      var a := AlignForward(c, start, horizon).value;
      WalkForwardSucceeds(c, a, m, horizon);
      assert IncrementDateAndTime(c, start, m, horizon) == WalkForward(c, a, m, horizon);
    } else {
      AlignBackwardSucceeds(c, start, horizon);
      var a := AlignBackward(c, start, horizon).value;
      WalkBackwardSucceeds(c, a, -m, horizon);
      assert SubtractMinutes(c, start, -m, horizon) == WalkBackward(c, a, -m, horizon);
    }
  }
}
