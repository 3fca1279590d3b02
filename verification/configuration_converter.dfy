/** CalendarConfigurationConverter: between a Calendar and the plain record it
    is stored as. A configuration lists the holidays in calendar order; reading
    one back registers them one at a time, so duplicates in a stored file are
    dropped. */
module ConfigurationConverter {
  import opened Dates
  import opened Holidays
  import opened Lists
  import opened Calendars

  datatype CalendarConfiguration = CalendarConfiguration(
    holidays: seq<Holiday>,
    recurringHolidays: seq<RecurringHoliday>,
    startOfWorkday: TimeOfDay,
    endOfWorkday: TimeOfDay)

  /** The calendar as a configuration: its window, and its holidays in the
      order GetHolidays and GetRecurringHolidays list them. */
  function ToConfiguration(c: Calendar): (cfg: CalendarConfiguration)
    ensures cfg.startOfWorkday == c.startOfWorkday && cfg.endOfWorkday == c.endOfWorkday
    ensures Sorted(cfg.holidays, HolidayLe) && multiset(cfg.holidays) == multiset(c.holidays)
    ensures Sorted(cfg.recurringHolidays, RecurringLe)
    ensures multiset(cfg.recurringHolidays) == multiset(c.recurringHolidays)
  {
    CalendarConfiguration(GetHolidays(c), GetRecurringHolidays(c), c.startOfWorkday, c.endOfWorkday)
  }

  /** RegisterHoliday for each holiday in turn, first to last. */
  function RegisterHolidays(c: Calendar, hs: seq<Holiday>): (r: Calendar)
    ensures r.recurringHolidays == c.recurringHolidays
    ensures r.startOfWorkday == c.startOfWorkday && r.endOfWorkday == c.endOfWorkday
    ensures Valid(c) ==> Valid(r)
    decreases |hs|
  {
    if hs == [] then c
    else
      RegisterHolidays(RegisterHoliday(c, hs[0]).calendar, hs[1..])
  }

  /** RegisterRecurringHoliday for each recurring holiday in turn, first to last. */
  function RegisterRecurringHolidays(c: Calendar, rs: seq<RecurringHoliday>): (r: Calendar)
    ensures r.holidays == c.holidays
    ensures r.startOfWorkday == c.startOfWorkday && r.endOfWorkday == c.endOfWorkday
    ensures Valid(c) ==> Valid(r)
    decreases |rs|
  {
    if rs == [] then c
    else
      RegisterRecurringHolidays(RegisterRecurringHoliday(c, rs[0]).calendar, rs[1..])
  }

  /** Registering a list adds exactly its elements. */
  lemma {:induction false} RegisterHolidaysElements(c: Calendar, hs: seq<Holiday>)
    ensures Elements(RegisterHolidays(c, hs).holidays) == Elements(c.holidays) + Elements(hs)
    decreases |hs|
  {
    if hs != [] {
      RegisterHolidaysElements(RegisterHoliday(c, hs[0]).calendar, hs[1..]);
      assert Elements(hs) == {hs[0]} + Elements(hs[1..]);
    }
  }

  /** A new holiday at the head of the list is appended before the rest are registered. */
  lemma RegisterHolidaysStep(c: Calendar, hs: seq<Holiday>)
    requires hs != [] && hs[0] !in c.holidays
    ensures RegisterHolidays(c, hs) == RegisterHolidays(c.(holidays := c.holidays + [hs[0]]), hs[1..])
  {
  }

  /** Appending the head and then the rest appends the whole list. */
  lemma AppendHead<T>(held: seq<T>, hs: seq<T>)
    requires hs != []
    ensures held + [hs[0]] + hs[1..] == held + hs
  {
    assert hs == [hs[0]] + hs[1..];
  }

  /** After its head is appended, the rest of a fresh duplicate-free list is still fresh. */
  lemma FreshAfterHead(held: seq<Holiday>, hs: seq<Holiday>)
    requires hs != [] && NoDuplicates(hs)
    requires forall x :: x in hs ==> x !in held
    ensures NoDuplicates(hs[1..])
    ensures forall x :: x in hs[1..] ==> x !in held + [hs[0]]
  {
    NoDuplicatesTail(hs);
    forall x | x in hs[1..]
      ensures x !in held + [hs[0]]
    {
      assert x in hs;
    }
  }

  /** Registering holidays that are new and distinct appends them in order. */
  lemma {:induction false} RegisterHolidaysAppends(c: Calendar, hs: seq<Holiday>)
    requires NoDuplicates(hs)
    requires forall x :: x in hs ==> x !in c.holidays
    ensures RegisterHolidays(c, hs).holidays == c.holidays + hs
    decreases |hs|
  {
    if hs != [] {
      assert hs[0] in hs;
      RegisterHolidaysStep(c, hs);
      FreshAfterHead(c.holidays, hs);
      RegisterHolidaysAppends(c.(holidays := c.holidays + [hs[0]]), hs[1..]);
      AppendHead(c.holidays, hs);
    }
  }


  /** Registering a list adds exactly its elements. */
  lemma {:induction false} RegisterRecurringHolidaysElements(c: Calendar, rs: seq<RecurringHoliday>)
    ensures Elements(RegisterRecurringHolidays(c, rs).recurringHolidays) == Elements(c.recurringHolidays) + Elements(rs)
    decreases |rs|
  {
    if rs != [] {
      RegisterRecurringHolidaysElements(RegisterRecurringHoliday(c, rs[0]).calendar, rs[1..]);
      assert Elements(rs) == {rs[0]} + Elements(rs[1..]);
    }
  }

  /** A new recurring holiday at the head of the list is appended before the rest are registered. */
  lemma RegisterRecurringHolidaysStep(c: Calendar, rs: seq<RecurringHoliday>)
    requires rs != [] && rs[0] !in c.recurringHolidays
    ensures RegisterRecurringHolidays(c, rs) == RegisterRecurringHolidays(c.(recurringHolidays := c.recurringHolidays + [rs[0]]), rs[1..])
  {
  }

  /** Registering recurring holidays that are new and distinct appends them in order. */
  lemma {:induction false} RegisterRecurringHolidaysAppends(c: Calendar, rs: seq<RecurringHoliday>)
    requires NoDuplicates(rs)
    requires forall x :: x in rs ==> x !in c.recurringHolidays
    ensures RegisterRecurringHolidays(c, rs).recurringHolidays == c.recurringHolidays + rs
    decreases |rs|
  {
    if rs != [] {
      var tail := rs[1..];
      var c' := c.(recurringHolidays := c.recurringHolidays + [rs[0]]);
      assert RegisterRecurringHolidays(c, rs) == RegisterRecurringHolidays(c', tail) by {
        assert rs[0] in rs;
        RegisterRecurringHolidaysStep(c, rs);
      }
      assert NoDuplicates(tail) && forall x :: x in tail ==> x !in c'.recurringHolidays by {
        NoDuplicatesTail(rs);
        forall x | x in tail
          ensures x !in c'.recurringHolidays
        {
          assert x in rs;
        }
      }
      RegisterRecurringHolidaysAppends(c', tail);
      assert c'.recurringHolidays + tail == c.recurringHolidays + rs by {
        assert rs == [rs[0]] + tail;
      }
    }
  }


  /** A new calendar with the configured window, then every holiday and every
      recurring holiday registered in the configured order. */
  function ToCalendar(cfg: CalendarConfiguration): (c: Calendar)
    ensures c.startOfWorkday == cfg.startOfWorkday && c.endOfWorkday == cfg.endOfWorkday
    ensures Valid(c)
    ensures Elements(c.holidays) == Elements(cfg.holidays)
    ensures Elements(c.recurringHolidays) == Elements(cfg.recurringHolidays)
  {
    var empty := NewCalendar.(startOfWorkday := cfg.startOfWorkday, endOfWorkday := cfg.endOfWorkday);
    var withHolidays := RegisterHolidays(empty, cfg.holidays);
    RegisterHolidaysElements(empty, cfg.holidays);
    RegisterRecurringHolidaysElements(withHolidays, cfg.recurringHolidays);
    RegisterRecurringHolidays(withHolidays, cfg.recurringHolidays)
  }

  /** Lists without duplicates come back in the configured order; duplicates
      are dropped (the ensures of ToCalendar keep the elements). */
  lemma ToCalendarKeepsDistinctLists(cfg: CalendarConfiguration)
    ensures NoDuplicates(cfg.holidays) ==> ToCalendar(cfg).holidays == cfg.holidays
    ensures NoDuplicates(cfg.recurringHolidays) ==> ToCalendar(cfg).recurringHolidays == cfg.recurringHolidays
  {
    var empty := NewCalendar.(startOfWorkday := cfg.startOfWorkday, endOfWorkday := cfg.endOfWorkday);
    var withHolidays := RegisterHolidays(empty, cfg.holidays);
    if NoDuplicates(cfg.holidays) {
      RegisterHolidaysAppends(empty, cfg.holidays);
    }
    if NoDuplicates(cfg.recurringHolidays) {
      RegisterRecurringHolidaysAppends(withHolidays, cfg.recurringHolidays);
    }
  }

  /** Two calendars with the same holidays and recurring holidays, in whatever
      order and multiplicity, agree on every date. */
  lemma SameHolidaysSameWorkdays(a: Calendar, b: Calendar)
    requires Elements(a.holidays) == Elements(b.holidays)
    requires Elements(a.recurringHolidays) == Elements(b.recurringHolidays)
    ensures forall d :: IsWorkday(a, d) <==> IsWorkday(b, d)
  {
    forall h ensures h in a.holidays <==> h in b.holidays {
      assert h in a.holidays <==> h in Elements(a.holidays);
      assert h in b.holidays <==> h in Elements(b.holidays);
    }
    forall r ensures r in a.recurringHolidays <==> r in b.recurringHolidays {
      assert r in a.recurringHolidays <==> r in Elements(a.recurringHolidays);
      assert r in b.recurringHolidays <==> r in Elements(b.recurringHolidays);
    }
  }

  /** Storing a valid calendar and reading it back gives the same calendar with
      its holiday lists in sorted order; it has the same workdays, and storing it
      again gives the same configuration. */
  lemma CalendarRoundTrip(c: Calendar)
    requires Valid(c)
    ensures ToCalendar(ToConfiguration(c))
      == c.(holidays := GetHolidays(c), recurringHolidays := GetRecurringHolidays(c))
    ensures forall d :: IsWorkday(ToCalendar(ToConfiguration(c)), d) <==> IsWorkday(c, d)
    ensures ToConfiguration(ToCalendar(ToConfiguration(c))) == ToConfiguration(c)
  {
    var cfg := ToConfiguration(c);
    PermutationKeepsNoDuplicates(c.holidays, cfg.holidays);
    PermutationKeepsNoDuplicates(c.recurringHolidays, cfg.recurringHolidays);
    var back := ToCalendar(cfg);
    ToCalendarKeepsDistinctLists(cfg);
    PermutationSameElements(back.holidays, c.holidays);
    PermutationSameElements(back.recurringHolidays, c.recurringHolidays);
    SameHolidaysSameWorkdays(back, c);
    HolidayOrdersAreTotal();
    SortOfSorted(cfg.holidays, HolidayLe);
    SortOfSorted(cfg.recurringHolidays, RecurringLe);
  }

  /** A configuration that is already in calendar form (sorted, without
      duplicates) survives reading and storing unchanged. */
  lemma ConfigurationRoundTrip(cfg: CalendarConfiguration)
    requires Sorted(cfg.holidays, HolidayLe) && NoDuplicates(cfg.holidays)
    requires Sorted(cfg.recurringHolidays, RecurringLe) && NoDuplicates(cfg.recurringHolidays)
    ensures ToConfiguration(ToCalendar(cfg)) == cfg
  {
    ToCalendarKeepsDistinctLists(cfg);
    HolidayOrdersAreTotal();
    SortOfSorted(cfg.holidays, HolidayLe);
    SortOfSorted(cfg.recurringHolidays, RecurringLe);
  }
}
