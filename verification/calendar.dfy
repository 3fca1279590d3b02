/** The Calendar: a daily work window, one-off holidays and recurring holidays;
    which dates are workdays, and how to move to the next or previous one. */
module Calendars {
  import opened Wrappers
  import opened Dates
  import opened DateTimeExtension
  import opened Holidays
  import opened Lists

  datatype Calendar = Calendar(
    startOfWorkday: TimeOfDay,
    endOfWorkday: TimeOfDay,
    holidays: seq<Holiday>,
    recurringHolidays: seq<RecurringHoliday>)

  /** A freshly constructed Calendar: 08:00 to 16:00 and no holidays. */
  const NewCalendar: Calendar := Calendar(8 * 60, 16 * 60, [], [])

  /** The InvalidOperationException of GetLengthOfWorkday. */
  datatype CalendarError = StartOfWorkdayAfterEnd

  /** The result of a Register/Remove call: the updated calendar and the returned flag. */
  datatype Update = Update(calendar: Calendar, changed: bool)

  /** Holidays and recurring holidays registered at most once each. Every
      calendar built through the Register operations keeps this. */
  ghost predicate Valid(c: Calendar)
  {
    NoDuplicates(c.holidays) && NoDuplicates(c.recurringHolidays)
  }

  /** Length of the work window in minutes; only a start after the end is an
      error, so an empty window (start == end) has length 0. */
  function GetLengthOfWorkday(c: Calendar): (r: Result<int, CalendarError>)
    ensures r.Failure? <==> c.startOfWorkday > c.endOfWorkday
    ensures r.Success? ==> 0 <= r.value && c.startOfWorkday + r.value == c.endOfWorkday
  {
    if c.startOfWorkday > c.endOfWorkday then Failure(StartOfWorkdayAfterEnd)
    else Success(c.endOfWorkday - c.startOfWorkday)
  }

  /** OrderBy(Year).ThenBy(Month).ThenBy(Day). */
  predicate HolidayLe(a: Holiday, b: Holiday)
  {
    a.year < b.year
    || (a.year == b.year && (a.month < b.month || (a.month == b.month && a.day <= b.day)))
  }

  /** OrderBy(Month).ThenBy(Day). */
  predicate RecurringLe(a: RecurringHoliday, b: RecurringHoliday)
  {
    a.month < b.month || (a.month == b.month && a.day <= b.day)
  }

  /** Both orders are total preorders, and since they compare every field they
      are antisymmetric: equal keys mean equal holidays, so the sorted listing
      does not depend on the stability of the sort. */
  lemma HolidayOrdersAreTotal()
    ensures TotalPreorder(HolidayLe) && TotalPreorder(RecurringLe)
    ensures forall a, b :: HolidayLe(a, b) && HolidayLe(b, a) ==> a == b
    ensures forall a, b :: RecurringLe(a, b) && RecurringLe(b, a) ==> a == b
  {
  }

  /** The holidays in ascending year, month, day order. */
  function GetHolidays(c: Calendar): (r: seq<Holiday>)
    ensures Sorted(r, HolidayLe)
    ensures multiset(r) == multiset(c.holidays)
  {
    HolidayOrdersAreTotal();
    Sort(c.holidays, HolidayLe)
  }

  /** The recurring holidays in ascending month, day order. */
  function GetRecurringHolidays(c: Calendar): (r: seq<RecurringHoliday>)
    ensures Sorted(r, RecurringLe)
    ensures multiset(r) == multiset(c.recurringHolidays)
  {
    HolidayOrdersAreTotal();
    Sort(c.recurringHolidays, RecurringLe)
  }

  /** Adds the holiday unless one with the same date is already registered. */
  function RegisterHoliday(c: Calendar, h: Holiday): (u: Update)
    ensures u.changed <==> h !in c.holidays
    ensures u.changed ==> u.calendar.holidays == c.holidays + [h]
    ensures !u.changed ==> u.calendar == c
    ensures Elements(u.calendar.holidays) == Elements(c.holidays) + {h}
    ensures u.calendar.recurringHolidays == c.recurringHolidays
    ensures u.calendar.startOfWorkday == c.startOfWorkday && u.calendar.endOfWorkday == c.endOfWorkday
    ensures Valid(c) ==> Valid(u.calendar)
  {
    if exists x :: x in c.holidays && x.SameDate(h) then Update(c, false)
    else Update(c.(holidays := c.holidays + [h]), true)
  }

  /** Adds the recurring holiday unless one with the same month and day is already registered. */
  function RegisterRecurringHoliday(c: Calendar, r: RecurringHoliday): (u: Update)
    ensures u.changed <==> r !in c.recurringHolidays
    ensures u.changed ==> u.calendar.recurringHolidays == c.recurringHolidays + [r]
    ensures !u.changed ==> u.calendar == c
    ensures Elements(u.calendar.recurringHolidays) == Elements(c.recurringHolidays) + {r}
    ensures u.calendar.holidays == c.holidays
    ensures u.calendar.startOfWorkday == c.startOfWorkday && u.calendar.endOfWorkday == c.endOfWorkday
    ensures Valid(c) ==> Valid(u.calendar)
  {
    if exists x :: x in c.recurringHolidays && x.SameDate(r) then Update(c, false)
    else Update(c.(recurringHolidays := c.recurringHolidays + [r]), true)
  }

  /** Removes the first registered occurrence of the holiday, if there is one. */
  function RemoveHoliday(c: Calendar, h: Holiday): (u: Update)
    ensures u.changed <==> h in c.holidays
    ensures !u.changed ==> u.calendar == c
    ensures multiset(u.calendar.holidays) == multiset(c.holidays) - multiset{h}
    ensures Valid(c) ==> Valid(u.calendar) && h !in u.calendar.holidays
    ensures u.calendar.recurringHolidays == c.recurringHolidays
    ensures u.calendar.startOfWorkday == c.startOfWorkday && u.calendar.endOfWorkday == c.endOfWorkday
  {
    Update(c.(holidays := RemoveFirst(c.holidays, h)), h in c.holidays)
  }

  /** Removes the first registered occurrence of the recurring holiday, if there is one. */
  function RemoveRecurringHoliday(c: Calendar, r: RecurringHoliday): (u: Update)
    ensures u.changed <==> r in c.recurringHolidays
    ensures !u.changed ==> u.calendar == c
    ensures multiset(u.calendar.recurringHolidays) == multiset(c.recurringHolidays) - multiset{r}
    ensures Valid(c) ==> Valid(u.calendar) && r !in u.calendar.recurringHolidays
    ensures u.calendar.holidays == c.holidays
    ensures u.calendar.startOfWorkday == c.startOfWorkday && u.calendar.endOfWorkday == c.endOfWorkday
  {
    Update(c.(recurringHolidays := RemoveFirst(c.recurringHolidays, r)), r in c.recurringHolidays)
  }

  /** Saturday or Sunday. */
  predicate IsWeekend(d: DateTime)
  {
    DayOfWeekOf(d.day) == Saturday || DayOfWeekOf(d.day) == Sunday
  }

  /** Not a Saturday or Sunday, and no holiday or recurring holiday falls on the date. */
  predicate IsWorkday(c: Calendar, d: DateTime)
  {
    && !IsWeekend(d)
    && !(exists h :: h in c.holidays && h.IsDate(d))
    && !(exists r :: r in c.recurringHolidays && r.IsDate(d))
  }

  /** Saturdays and Sundays are never workdays, whatever is registered. */
  lemma WeekendIsNeverWorkday(c: Calendar, d: DateTime)
    requires DayOfWeekOf(d.day) in {Saturday, Sunday}
    ensures !IsWorkday(c, d)
  {
  }

  /** With nothing registered, the workdays are exactly the days Monday to Friday. */
  lemma NoHolidaysWorkdayIsWeekday(c: Calendar, d: DateTime)
    requires c.holidays == [] && c.recurringHolidays == []
    ensures IsWorkday(c, d) <==> !IsWeekend(d)
    ensures IsWorkday(c, d) <==> DayOfWeekOf(d.day) in {Monday, Tuesday, Wednesday, Thursday, Friday}
  {
  }

  /** The weekend comes back every seven days, before and after. */
  lemma WeekendRepeatsWeekly(d: DateTime, weeks: int)
    ensures IsWeekend(AddDays(d, 7 * weeks)) <==> IsWeekend(d)
  {
  }

  /** Only the date counts: two instants of the same day agree. */
  lemma IsWorkdayIgnoresTime(c: Calendar, d: DateTime, e: DateTime)
    requires d.day == e.day
    ensures IsWorkday(c, d) <==> IsWorkday(c, e)
  {
  }

  /** After registering a holiday its date is not a workday, whether or not it was new. */
  lemma RegisteredHolidayIsNotWorkday(c: Calendar, h: Holiday, d: DateTime)
    requires h.IsDate(d)
    ensures !IsWorkday(RegisterHoliday(c, h).calendar, d)
  {
    assert h in RegisterHoliday(c, h).calendar.holidays;
  }

  /** Registering a holiday does not change any other date. */
  lemma RegisterHolidayKeepsOtherDates(c: Calendar, h: Holiday, d: DateTime)
    requires !h.IsDate(d)
    ensures IsWorkday(RegisterHoliday(c, h).calendar, d) <==> IsWorkday(c, d)
  {
    var c' := RegisterHoliday(c, h).calendar;
    assert forall x :: x in c'.holidays <==> x in c.holidays || x == h by {
      assert Elements(c'.holidays) == Elements(c.holidays) + {h};
      forall x ensures x in c'.holidays <==> x in c.holidays || x == h {
        assert x in c'.holidays <==> x in Elements(c'.holidays);
        assert x in c.holidays <==> x in Elements(c.holidays);
      }
    }
  }

  /** After registering a recurring holiday its month and day are not workdays in any year. */
  lemma RegisteredRecurringIsNotWorkday(c: Calendar, r: RecurringHoliday, d: DateTime)
    requires r.IsDate(d)
    ensures !IsWorkday(RegisterRecurringHoliday(c, r).calendar, d)
  {
    assert r in RegisterRecurringHoliday(c, r).calendar.recurringHolidays;
  }

  /** Registering a recurring holiday does not change any date with another month or day. */
  lemma RegisterRecurringKeepsOtherDates(c: Calendar, r: RecurringHoliday, d: DateTime)
    requires !r.IsDate(d)
    ensures IsWorkday(RegisterRecurringHoliday(c, r).calendar, d) <==> IsWorkday(c, d)
  {
    var c' := RegisterRecurringHoliday(c, r).calendar;
    assert forall x :: x in c'.recurringHolidays <==> x in c.recurringHolidays || x == r by {
      assert Elements(c'.recurringHolidays) == Elements(c.recurringHolidays) + {r};
      forall x ensures x in c'.recurringHolidays <==> x in c.recurringHolidays || x == r {
        assert x in c'.recurringHolidays <==> x in Elements(c'.recurringHolidays);
        assert x in c.recurringHolidays <==> x in Elements(c.recurringHolidays);
      }
    }
  }

  /** Removing a holiday that was just registered restores the calendar exactly. */
  lemma RemoveUndoesRegisterHoliday(c: Calendar, h: Holiday)
    requires h !in c.holidays
    ensures RemoveHoliday(RegisterHoliday(c, h).calendar, h) == Update(c, true)
  {
    RemoveFirstUndoesAppend(c.holidays, h);
  }

  /** Removing a recurring holiday that was just registered restores the calendar exactly. */
  lemma RemoveUndoesRegisterRecurring(c: Calendar, r: RecurringHoliday)
    requires r !in c.recurringHolidays
    ensures RemoveRecurringHoliday(RegisterRecurringHoliday(c, r).calendar, r) == Update(c, true)
  {
    RemoveFirstUndoesAppend(c.recurringHolidays, r);
  }

  /** In a valid calendar, after removing a holiday a date is a workday exactly
      when it is a weekday matched by no other holiday and no recurring holiday. */
  lemma RemoveHolidayFreesOnlyItsDate(c: Calendar, h: Holiday, d: DateTime)
    requires Valid(c)
    ensures IsWorkday(RemoveHoliday(c, h).calendar, d) <==>
      && !IsWeekend(d)
      && (forall x :: x in c.holidays && x != h ==> !x.IsDate(d))
      && (forall r :: r in c.recurringHolidays ==> !r.IsDate(d))
  {
    var rest := RemoveHoliday(c, h).calendar.holidays;
    forall x ensures x in rest <==> x in c.holidays && x != h {
      assert x in rest <==> multiset(rest)[x] > 0;
      assert x in c.holidays <==> multiset(c.holidays)[x] > 0;
    }
  }

  /** In a valid calendar, after removing a recurring holiday a date is a workday
      exactly when it is a weekday matched by no holiday and no other recurring holiday. */
  lemma RemoveRecurringFreesOnlyItsDates(c: Calendar, r: RecurringHoliday, d: DateTime)
    requires Valid(c)
    ensures IsWorkday(RemoveRecurringHoliday(c, r).calendar, d) <==>
      && !IsWeekend(d)
      && (forall h :: h in c.holidays ==> !h.IsDate(d))
      && (forall x :: x in c.recurringHolidays && x != r ==> !x.IsDate(d))
  {
    var rest := RemoveRecurringHoliday(c, r).calendar.recurringHolidays;
    forall x ensures x in rest <==> x in c.recurringHolidays && x != r {
      assert x in rest <==> multiset(rest)[x] > 0;
      assert x in c.recurringHolidays <==> multiset(c.recurringHolidays)[x] > 0;
    }
  }

  /** The direction of a day search: AddDays(+1) or AddDays(-1). */
  datatype Adjustment = Increment | Decrement
  {
    function Step(): int
    {
      if Increment? then 1 else -1
    }
  }

  /** The day search: step one day at least, then keep stepping while the date
      is not a workday. The search looks at no more than `fuel` days and comes
      back empty when none of them is a workday. */
  function AdjustDay(c: Calendar, d: DateTime, adjustment: Adjustment, fuel: nat): (r: Option<DateTime>)
    ensures r.Some? ==> IsWorkday(c, r.value) && r.value.clock == d.clock
    ensures r.Some? && adjustment.Increment? ==>
      && d.day < r.value.day <= d.day + fuel
      && forall k :: d.day < k < r.value.day ==> !IsWorkday(c, Midnight(k))
    ensures r.Some? && adjustment.Decrement? ==>
      && d.day - fuel <= r.value.day < d.day
      && forall k :: r.value.day < k < d.day ==> !IsWorkday(c, Midnight(k))
    ensures r.None? && adjustment.Increment? ==>
      forall k :: d.day < k <= d.day + fuel ==> !IsWorkday(c, Midnight(k))
    ensures r.None? && adjustment.Decrement? ==>
      forall k :: d.day - fuel <= k < d.day ==> !IsWorkday(c, Midnight(k))
    decreases fuel
  {
    if fuel == 0 then None
    else
      var next := AddDays(d, adjustment.Step());
      IsWorkdayIgnoresTime(c, next, Midnight(next.day));
      if IsWorkday(c, next) then Some(next)
      else AdjustDay(c, next, adjustment, fuel - 1)
  }

  /** The start of the first workday strictly after the date of `d`. */
  function MoveToNextWorkday(c: Calendar, d: DateTime, fuel: nat): (r: Option<DateTime>)
    ensures r.Some? ==>
      && IsWorkday(c, r.value)
      && d.day < r.value.day <= d.day + fuel
      && r.value.clock == c.startOfWorkday as real
      && OnWholeMinute(r.value)
      && forall k :: d.day < k < r.value.day ==> !IsWorkday(c, Midnight(k))
    ensures r.None? ==> forall k :: d.day < k <= d.day + fuel ==> !IsWorkday(c, Midnight(k))
  {
    match AdjustDay(c, d, Increment, fuel)
    case None => None
    case Some(a) =>
      var r := SetTime(a, c.startOfWorkday / 60, c.startOfWorkday % 60);
      IsWorkdayIgnoresTime(c, a, r);
      Some(r)
  }

  /** The end of the last workday strictly before the date of `d`. */
  function MoveToPreviousWorkday(c: Calendar, d: DateTime, fuel: nat): (r: Option<DateTime>)
    ensures r.Some? ==>
      && IsWorkday(c, r.value)
      && d.day - fuel <= r.value.day < d.day
      && r.value.clock == c.endOfWorkday as real
      && OnWholeMinute(r.value)
      && forall k :: r.value.day < k < d.day ==> !IsWorkday(c, Midnight(k))
    ensures r.None? ==> forall k :: d.day - fuel <= k < d.day ==> !IsWorkday(c, Midnight(k))
  {
    match AdjustDay(c, d, Decrement, fuel)
    case None => None
    case Some(a) =>
      var r := SetTime(a, c.endOfWorkday / 60, c.endOfWorkday % 60);
      IsWorkdayIgnoresTime(c, a, r);
      Some(r)
  }

  /** When the next day is a workday, the search stops there. */
  lemma NextWorkdayIsTomorrow(c: Calendar, d: DateTime, fuel: nat)
    requires fuel >= 1 && IsWorkday(c, Midnight(d.day + 1))
    ensures MoveToNextWorkday(c, d, fuel) == Some(DateTime(d.day + 1, c.startOfWorkday as real))
  {
    IsWorkdayIgnoresTime(c, Midnight(d.day + 1), AddDays(d, 1));
  }

  /** When the previous day is a workday, the search stops there. */
  lemma PreviousWorkdayIsYesterday(c: Calendar, d: DateTime, fuel: nat)
    requires fuel >= 1 && IsWorkday(c, Midnight(d.day - 1))
    ensures MoveToPreviousWorkday(c, d, fuel) == Some(DateTime(d.day - 1, c.endOfWorkday as real))
  {
    IsWorkdayIgnoresTime(c, Midnight(d.day - 1), AddDays(d, -1));
  }

  /** The forward day search finds the first workday after the date, when it
      lies within reach. */
  lemma NextWorkdayAfterGap(c: Calendar, d: DateTime, gap: nat, fuel: nat)
    requires 1 <= gap <= fuel && IsWorkday(c, Midnight(d.day + gap))
    requires forall k :: d.day < k < d.day + gap ==> !IsWorkday(c, Midnight(k))
    ensures MoveToNextWorkday(c, d, fuel) == Some(DateTime(d.day + gap, c.startOfWorkday as real))
  {
    var r := MoveToNextWorkday(c, d, fuel);
    if r.Some? {
      IsWorkdayIgnoresTime(c, r.value, Midnight(r.value.day));
    }
  }

  /** The backward day search finds the last workday before the date, when it
      lies within reach. */
  lemma PreviousWorkdayAfterGap(c: Calendar, d: DateTime, gap: nat, fuel: nat)
    requires 1 <= gap <= fuel && IsWorkday(c, Midnight(d.day - gap))
    requires forall k :: d.day - gap < k < d.day ==> !IsWorkday(c, Midnight(k))
    ensures MoveToPreviousWorkday(c, d, fuel) == Some(DateTime(d.day - gap, c.endOfWorkday as real))
  {
    var r := MoveToPreviousWorkday(c, d, fuel);
    if r.Some? {
      IsWorkdayIgnoresTime(c, r.value, Midnight(r.value.day));
    }
  }

  /** Some workday lies among the `n` days after `day`. */
  ghost predicate HasWorkdayAfter(c: Calendar, day: int, n: nat)
  {
    exists k :: day < k <= day + n && IsWorkday(c, Midnight(k))
  }

  /** No run of non-workdays is `n` days long: the day search always ends within `n` steps. */
  ghost predicate WorkdaysWithin(c: Calendar, n: nat)
  {
    forall day: int :: HasWorkdayAfter(c, day, n)
  }

  /** When every run of non-workdays is shorter than `n` days, a search of `n` days
      never comes back empty, in either direction. */
  lemma MovesSucceedWithinHorizon(c: Calendar, d: DateTime, n: nat)
    requires WorkdaysWithin(c, n)
    ensures MoveToNextWorkday(c, d, n).Some?
    ensures MoveToPreviousWorkday(c, d, n).Some?
  {
    assert HasWorkdayAfter(c, d.day, n);
    assert HasWorkdayAfter(c, d.day - n - 1, n);
  }
}
