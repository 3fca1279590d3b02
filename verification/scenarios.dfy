/** Worked examples on the calendar the library's examples use: 08:00 to 16:00,
    a recurring holiday on 17 May and a one-off holiday on 27 May 2004. The
    examples fall in May to July 2004 and in October 2022. Days are counted
    from 1970-01-01, so Monday 2004-05-24 is day 12562 and Monday 2022-10-10
    is day 19275; clock readings are minutes after midnight, so 15:07 is 907.

    `ExampleForward` and `ExampleBackward` are a day-number reference for the
    walk on this one calendar: an open day is a weekday other than 17 and 27
    May 2004. `ExampleForwardAgrees` and `ExampleBackwardAgrees` prove the
    library's walk equal to it on covered days, and each test case then
    follows from the reference by arithmetic on day numbers. */
module Scenarios {
  import opened Wrappers
  import opened Dates
  import opened Holidays
  import opened Calendars
  import opened CalendarService
  import opened FindWorkdayProperties

  const Example: Calendar :=
    Calendar(8 * 60, 16 * 60, [Holiday(2004, 5, 27)], [RecurringHoliday(5, 17)])

  /** Every day search in these examples looks at most a week ahead or back. */
  const Week: nat := 7

  /** The example calendar is what registering its two holidays on a new calendar builds. */
  lemma ExampleIsRegistered()
    ensures Example == RegisterHoliday(
      RegisterRecurringHoliday(NewCalendar, RecurringHoliday(5, 17)).calendar,
      Holiday(2004, 5, 27)).calendar
    ensures Valid(Example)
  {
  }

  /** Days 12539 to 12569 are 1 to 31 May 2004. */
  lemma May2004(k: int)
    requires 12539 <= k <= 12569
    ensures CivilFromDays(k) == (2004, 5, k - 12538)
  {
    var z := k + 719468;
    assert z / 146097 == 5;
    var doe := z % 146097;
    assert doe == k - 11017;
    assert doe / 1460 == 1 && doe / 36524 == 0 && doe / 146096 == 0;
    assert (doe - doe / 1460 + doe / 36524 - doe / 146096) / 365 == 4;
    var doy := doe - (365 * 4 + 4 / 4 - 4 / 100);
    assert doy == k - 12478;
    assert (5 * doy + 2) / 153 == 2;
    assert doy - (153 * 2 + 2) / 5 + 1 == k - 12538;
  }

  /** In May 2004 the example calendar's workdays are the weekdays other than
      the 17th and the 27th. */
  lemma ExampleWorkdaysInMay(k: int)
    requires 12539 <= k <= 12569
    ensures IsWorkday(Example, Midnight(k)) <==> !IsWeekend(Midnight(k)) && k != 12555 && k != 12565
  {
    May2004(k);
    assert Holiday(2004, 5, 27).IsDate(Midnight(k)) <==> k == 12565;
    assert RecurringHoliday(5, 17).IsDate(Midnight(k)) <==> k == 12555;
  }

  /** Days 12570 to 12630 are June and July 2004. */
  lemma JuneJuly2004(k: int)
    requires 12570 <= k <= 12630
    ensures CivilFromDays(k).0 == 2004 && 6 <= CivilFromDays(k).1 <= 7
  {
    var z := k + 719468;
    assert z / 146097 == 5;
    var doe := z % 146097;
    assert doe == k - 11017;
    assert doe / 1460 == 1 && doe / 36524 == 0 && doe / 146096 == 0;
    assert (doe - doe / 1460 + doe / 36524 - doe / 146096) / 365 == 4;
    var doy := doe - (365 * 4 + 4 / 4 - 4 / 100);
    assert doy == k - 12478;
    assert 3 <= (5 * doy + 2) / 153 <= 4;
  }

  /** Days 19266 to 19296 are 1 to 31 October 2022. */
  lemma October2022(k: int)
    requires 19266 <= k <= 19296
    ensures CivilFromDays(k) == (2022, 10, k - 19265)
  {
    var z := k + 719468;
    assert z / 146097 == 5;
    var doe := z % 146097;
    assert doe == k - 11017;
    assert doe / 1460 == 5 && doe / 36524 == 0 && doe / 146096 == 0;
    assert (doe - doe / 1460 + doe / 36524 - doe / 146096) / 365 == 22;
    var doy := doe - (365 * 22 + 22 / 4 - 22 / 100);
    assert doy == k - 19052;
    assert (5 * doy + 2) / 153 == 7;
    assert doy - (153 * 7 + 2) / 5 + 1 == k - 19265;
  }

  /** The days the worked examples visit: May to July 2004 and October 2022. */
  predicate Covered(k: int)
  {
    12539 <= k <= 12630 || 19266 <= k <= 19296
  }

  /** A weekday other than 17 and 27 May 2004: day 0 was a Thursday, so the
      days with `(k + 4) % 7` equal to 0 or 6 are Sundays and Saturdays. */
  predicate Open(k: int)
  {
    (k + 4) % 7 != 0 && (k + 4) % 7 != 6 && k != 12555 && k != 12565
  }

  /** On the covered days the example calendar's workdays are the weekdays
      other than 17 and 27 May 2004: outside May neither holiday matches. */
  lemma ExampleWorkdays(k: int)
    requires Covered(k)
    ensures IsWorkday(Example, Midnight(k)) <==> Open(k)
  {
    if k <= 12569 {
      ExampleWorkdaysInMay(k);
    } else {
      if k <= 12630 {
        JuneJuly2004(k);
      } else {
        October2022(k);
      }
      assert !Holiday(2004, 5, 27).IsDate(Midnight(k));
      assert !RecurringHoliday(5, 17).IsDate(Midnight(k));
    }
  }

  /** The example's workday test at a given instant of a covered day. */
  lemma ExampleWorkdayAt(d: DateTime)
    requires Covered(d.day)
    ensures IsWorkday(Example, d) <==> Open(d.day)
  {
    ExampleWorkdays(d.day);
    IsWorkdayIgnoresTime(Example, d, Midnight(d.day));
  }

  /** The first open day after `k`, looking at most four days ahead. */
  function NextOpenDay(k: int): (j: int)
    ensures k < j <= k + 4
  {
    if Open(k + 1) then k + 1
    else if Open(k + 2) then k + 2
    else if Open(k + 3) then k + 3
    else k + 4
  }

  /** The last open day before `k`, looking at most four days back. */
  function PreviousOpenDay(k: int): (j: int)
    ensures k - 4 <= j < k
  {
    if Open(k - 1) then k - 1
    else if Open(k - 2) then k - 2
    else if Open(k - 3) then k - 3
    else k - 4
  }

  /** On the example calendar the forward day search stops at the next open day. */
  lemma ExampleNextWorkday(d: DateTime)
    requires Covered(d.day) && Covered(NextOpenDay(d.day)) && Open(NextOpenDay(d.day))
    ensures MoveToNextWorkday(Example, d, Week) == Some(DateTime(NextOpenDay(d.day), 480.0))
  {
    var j := NextOpenDay(d.day);
    forall i | d.day < i <= j
      ensures IsWorkday(Example, Midnight(i)) <==> Open(i)
    {
      ExampleWorkdays(i);
    }
    NextWorkdayAfterGap(Example, d, j - d.day, Week);
  }

  /** On the example calendar the backward day search stops at the previous open day. */
  lemma ExamplePreviousWorkday(d: DateTime)
    requires Covered(d.day) && Covered(PreviousOpenDay(d.day)) && Open(PreviousOpenDay(d.day))
    ensures MoveToPreviousWorkday(Example, d, Week) == Some(DateTime(PreviousOpenDay(d.day), 960.0))
  {
    var j := PreviousOpenDay(d.day);
    forall i | j <= i < d.day
      ensures IsWorkday(Example, Midnight(i)) <==> Open(i)
    {
      ExampleWorkdays(i);
    }
    PreviousWorkdayAfterGap(Example, d, d.day - j, Week);
  }

  /** Four days in a row always hold an open day: a weekend is two days long
      and the two holidays lie ten days apart. */
  lemma NextOpenDayIsOpen(k: int)
    ensures Open(NextOpenDay(k))
  {
  }

  /** Four days in a row always hold an open day, looking back as well. */
  lemma PreviousOpenDayIsOpen(k: int)
    ensures Open(PreviousOpenDay(k))
  {
  }

  /** A stretch of consecutive covered days. */
  predicate CoveredSpan(a: int, b: int)
  {
    a <= b && ((12539 <= a && b <= 12630) || (19266 <= a && b <= 19296))
  }

  /** The forward walk on the example calendar told with day numbers and the
      open-day rule alone: past the rest of the day, carry on at 08:00 on the
      next open day; otherwise add the offset on the day. */
  function ExampleForward(day: int, clock: real, minutes: real): (r: (int, real))
    requires 480.0 <= clock <= 960.0 && 0.0 <= minutes
    ensures day <= r.0 && 480.0 <= r.1 <= 960.0
    decreases if minutes <= 960.0 - clock then 0 else 1 + (minutes - (960.0 - clock)).Floor
  {
    if minutes > 960.0 - clock then ExampleForward(NextOpenDay(day), 480.0, minutes - (960.0 - clock))
    else (day, clock + minutes)
  }

  /** The backward walk on the example calendar told with day numbers and the
      open-day rule alone: past what has passed of the day, carry on at 16:00
      on the previous open day; otherwise take the offset off on the day. */
  function ExampleBackward(day: int, clock: real, minutes: real): (r: (int, real))
    requires 480.0 <= clock <= 960.0 && 0.0 <= minutes
    ensures r.0 <= day && 480.0 <= r.1 <= 960.0
    decreases if minutes <= clock - 480.0 then 0 else 1 + (minutes - (clock - 480.0)).Floor
  {
    if minutes > clock - 480.0 then ExampleBackward(PreviousOpenDay(day), 960.0, minutes - (clock - 480.0))
    else (day, clock - minutes)
  }

  /** A whole week without a holiday, from Monday 08:00, takes five open days
      of 480 minutes and ends at 08:00 on the next Monday. */
  lemma ExampleForwardWeek(k: int, minutes: real)
    requires (k + 4) % 7 == 1 && 12565 < k
    requires minutes > 2400.0
    ensures ExampleForward(k, 480.0, minutes) == ExampleForward(k + 7, 480.0, minutes - 2400.0)
  {
    assert NextOpenDay(k) == k + 1;
    assert NextOpenDay(k + 1) == k + 2;
    assert NextOpenDay(k + 2) == k + 3;
    assert NextOpenDay(k + 3) == k + 4;
    assert NextOpenDay(k + 4) == k + 7;
    assert ExampleForward(k, 480.0, minutes) == ExampleForward(k + 1, 480.0, minutes - 480.0);
    assert ExampleForward(k + 1, 480.0, minutes - 480.0) == ExampleForward(k + 2, 480.0, minutes - 960.0);
    assert ExampleForward(k + 2, 480.0, minutes - 960.0) == ExampleForward(k + 3, 480.0, minutes - 1440.0);
    assert ExampleForward(k + 3, 480.0, minutes - 1440.0) == ExampleForward(k + 4, 480.0, minutes - 1920.0);
  }

  /** `weeks` whole weeks without a holiday, from Monday 08:00, take 2400
      minutes each and end at 08:00 on the Monday `weeks` weeks later. */
  lemma {:induction false} ExampleForwardWeeks(k: int, weeks: nat, minutes: real)
    requires (k + 4) % 7 == 1 && 12565 < k
    requires minutes > 2400.0 * weeks as real
    ensures ExampleForward(k, 480.0, minutes)
      == ExampleForward(k + 7 * weeks, 480.0, minutes - 2400.0 * weeks as real)
    decreases weeks
  {
    if weeks > 0 {
      ExampleForwardWeek(k, minutes);
      ExampleForwardWeeks(k + 7, weeks - 1, minutes - 2400.0);
    }
  }

  /** On covered days the library's forward walk on the example calendar is the
      day-number walk above. */
  lemma {:induction false} ExampleForwardAgrees(day: int, clock: real, minutes: real)
    requires 480.0 <= clock <= 960.0 && 0.0 <= minutes
    requires IsWorkday(Example, DateTime(day, clock))
    requires CoveredSpan(day, ExampleForward(day, clock, minutes).0)
    ensures var r := ExampleForward(day, clock, minutes);
      WalkForward(Example, DateTime(day, clock), minutes, Week) == Some(DateTime(r.0, r.1))
    decreases if minutes <= 960.0 - clock then 0 else 1 + (minutes - (960.0 - clock)).Floor
  {
    var d := DateTime(day, clock);
    if minutes > 960.0 - clock {
      var j := NextOpenDay(day);
      var rest := minutes - (960.0 - clock);
      assert ExampleForward(day, clock, minutes) == ExampleForward(j, 480.0, rest);
      NextOpenDayIsOpen(day);
      ExampleNextWorkday(d);
      assert IsWorkday(Example, DateTime(j, 480.0));
      WalkForwardToNextWorkday(Example, d, minutes, Week, DateTime(j, 480.0));
      ExampleForwardAgrees(j, 480.0, rest);
    } else {
      WalkForwardWithinDay(Example, d, minutes, Week);
    }
  }

  /** On covered days the library's backward walk on the example calendar is
      the day-number walk above. */
  lemma {:induction false} ExampleBackwardAgrees(day: int, clock: real, minutes: real)
    requires 480.0 <= clock <= 960.0 && 0.0 <= minutes
    requires IsWorkday(Example, DateTime(day, clock))
    requires CoveredSpan(ExampleBackward(day, clock, minutes).0, day)
    ensures var r := ExampleBackward(day, clock, minutes);
      WalkBackward(Example, DateTime(day, clock), minutes, Week) == Some(DateTime(r.0, r.1))
    decreases if minutes <= clock - 480.0 then 0 else 1 + (minutes - (clock - 480.0)).Floor
  {
    var d := DateTime(day, clock);
    if minutes > clock - 480.0 {
      var j := PreviousOpenDay(day);
      var rest := minutes - (clock - 480.0);
      assert ExampleBackward(day, clock, minutes) == ExampleBackward(j, 960.0, rest);
      PreviousOpenDayIsOpen(day);
      ExamplePreviousWorkday(d);
      assert IsWorkday(Example, DateTime(j, 960.0));
      WalkBackwardToPreviousWorkday(Example, d, minutes, Week, DateTime(j, 960.0));
      ExampleBackwardAgrees(j, 960.0, rest);
    } else {
      WalkBackwardWithinDay(Example, d, minutes, Week);
    }
  }

  /** Monday 15:07 plus a quarter workday (120 minutes): 53 minutes are left on
      Monday, the other 67 run from Tuesday 08:00 to 09:07. */
  lemma QuarterDayCrossesEvening()
    ensures FindWorkday(Example, DateTime(12562, 907.0), 0.25, Week) == Success(DateTime(12563, 547.0))
  {
    var d := DateTime(12562, 907.0);
    var tuesday := DateTime(12563, 480.0);
    ExampleWorkdayAt(d);
    ExampleWorkdayAt(tuesday);
    ExampleWorkdaysInMay(12563);
    assert AlignForward(Example, d, Week) == Some(d);
    NextWorkdayIsTomorrow(Example, d, Week);
    assert AddMinutes(tuesday, 67.0) == DateTime(12563, 547.0);
    assert WalkForward(Example, tuesday, 67.0, Week) == Some(DateTime(12563, 547.0));
    assert WalkForward(Example, d, 120.0, Week) == Some(DateTime(12563, 547.0));
  }

  /** Offset 0 from Monday 18:03, after the window: Tuesday 08:00; three minutes
      more (0.00625 of a workday) give Tuesday 08:03. */
  lemma AfterEndStartsNextMorning()
    ensures FindWorkday(Example, DateTime(12562, 1083.0), 0.0, Week) == Success(DateTime(12563, 480.0))
    ensures FindWorkday(Example, DateTime(12562, 1083.0), 0.00625, Week) == Success(DateTime(12563, 483.0))
  {
    var d := DateTime(12562, 1083.0);
    var tuesday := DateTime(12563, 480.0);
    ExampleWorkdaysInMay(12563);
    ExampleWorkdayAt(tuesday);
    NextWorkdayIsTomorrow(Example, d, Week);
    FindWorkdayZeroFromEnd(Example, d, Week);
    assert AlignForward(Example, d, Week) == Some(tuesday);
    assert AddMinutes(tuesday, 3.0) == DateTime(12563, 483.0);
    assert WalkForward(Example, tuesday, 3.0, Week) == Some(DateTime(12563, 483.0));
  }

  /** Offset 0 on the one-off holiday, Thursday 27 May 10:03: Friday 08:00. */
  lemma ZeroOnHolidayMovesToNextMorning()
    ensures FindWorkday(Example, DateTime(12565, 603.0), 0.0, Week) == Success(DateTime(12566, 480.0))
  {
    var d := DateTime(12565, 603.0);
    var friday := DateTime(12566, 480.0);
    ExampleWorkdayAt(d);
    ExampleWorkdaysInMay(12566);
    ExampleWorkdayAt(friday);
    NextWorkdayIsTomorrow(Example, d, Week);
    assert AlignForward(Example, d, Week) == Some(friday);
    assert AddMinutes(friday, 0.0) == friday;
  }

  /** Offset 0 on the recurring holiday, Monday 17 May 10:03: Tuesday 08:00. */
  lemma ZeroOnRecurringHolidayMovesToNextMorning()
    ensures FindWorkday(Example, DateTime(12555, 603.0), 0.0, Week) == Success(DateTime(12556, 480.0))
  {
    var d := DateTime(12555, 603.0);
    var tuesday := DateTime(12556, 480.0);
    ExampleWorkdayAt(d);
    ExampleWorkdaysInMay(12556);
    ExampleWorkdayAt(tuesday);
    NextWorkdayIsTomorrow(Example, d, Week);
    assert AlignForward(Example, d, Week) == Some(tuesday);
    assert AddMinutes(tuesday, 0.0) == tuesday;
  }

  /** Offset 0 on Sunday 23 May 10:03: Monday 08:00. */
  lemma ZeroOnWeekendMovesToMonday()
    ensures FindWorkday(Example, DateTime(12561, 603.0), 0.0, Week) == Success(DateTime(12562, 480.0))
  {
    var d := DateTime(12561, 603.0);
    var monday := DateTime(12562, 480.0);
    ExampleWorkdayAt(d);
    ExampleWorkdaysInMay(12562);
    ExampleWorkdayAt(monday);
    NextWorkdayIsTomorrow(Example, d, Week);
    assert AlignForward(Example, d, Week) == Some(monday);
    assert AddMinutes(monday, 0.0) == monday;
  }

  /** Three minutes back from the holiday, Thursday 10:03: Wednesday 15:57. */
  lemma BackFromHolidayEndsWednesdayAfternoon()
    ensures FindWorkday(Example, DateTime(12565, 603.0), -0.00625, Week) == Success(DateTime(12564, 957.0))
  {
    var d := DateTime(12565, 603.0);
    var wednesday := DateTime(12564, 960.0);
    ExampleWorkdayAt(d);
    ExampleWorkdaysInMay(12564);
    ExampleWorkdayAt(wednesday);
    PreviousWorkdayIsYesterday(Example, d, Week);
    assert AlignBackward(Example, d, Week) == Some(wednesday);
    assert AddMinutes(wednesday, -3.0) == DateTime(12564, 957.0);
    assert WalkBackward(Example, wednesday, 3.0, Week) == Some(DateTime(12564, 957.0));
  }

  /** One workday back from Tuesday 16:00 is Tuesday 08:00. */
  lemma BackOneDayFromTuesdayEvening()
    ensures FindWorkday(Example, DateTime(12563, 960.0), -1.0, Week) == Success(DateTime(12563, 480.0))
  {
    ExampleWorkdayAt(DateTime(12563, 960.0));
    FindWorkdayBackOneFromEnd(Example, DateTime(12563, 960.0), Week);
  }

  /** Monday 24 May 2004 18:05 back 5.5 workdays (2640 minutes): from 16:00 the
      walk spends Monday and 18 to 21 May, skips the recurring holiday on 17 May
      and the weekend, and ends on Friday 14 May at 12:00. */
  lemma MondayEveningBackFiveAndAHalf()
    ensures FindWorkday(Example, DateTime(12562, 1085.0), -5.5, Week) == Success(DateTime(12552, 720.0))
  {
    var start := DateTime(12562, 1085.0);
    ExampleWorkdayAt(DateTime(12562, 960.0));
    assert AlignBackward(Example, start, Week) == Some(DateTime(12562, 960.0));
    assert ExampleBackward(12562, 960.0, 2640.0) == (12552, 720.0) by {
      assert PreviousOpenDay(12562) == 12559;
      assert ExampleBackward(12562, 960.0, 2640.0) == ExampleBackward(12559, 960.0, 2160.0);
      assert PreviousOpenDay(12559) == 12558;
      assert ExampleBackward(12559, 960.0, 2160.0) == ExampleBackward(12558, 960.0, 1680.0);
      assert PreviousOpenDay(12558) == 12557;
      assert ExampleBackward(12558, 960.0, 1680.0) == ExampleBackward(12557, 960.0, 1200.0);
      assert PreviousOpenDay(12557) == 12556;
      assert ExampleBackward(12557, 960.0, 1200.0) == ExampleBackward(12556, 960.0, 720.0);
      assert PreviousOpenDay(12556) == 12552;
      assert ExampleBackward(12556, 960.0, 720.0) == ExampleBackward(12552, 960.0, 240.0);
    }
    ExampleBackwardAgrees(12562, 960.0, 2640.0);
    assert SubtractMinutes(Example, start, 2640.0, Week) == Some(DateTime(12552, 720.0));
  }

  /** The reference walk from Tuesday 25 May 2004 08:00 over 21467.35488
      minutes: three workdays to Monday 31 May (the holiday on the 27th is
      skipped), eight whole weeks to Monday 26 July, then one more day,
      ending Tuesday 27 July 2004 at 13:47.35488. */
  lemma {:induction false} ForwardFromTuesdayTwentyFifth()
    ensures ExampleForward(12563, 480.0, 21467.35488) == (12626, 827.35488)
  {
    assert NextOpenDay(12563) == 12564;
    assert ExampleForward(12563, 480.0, 21467.35488) == ExampleForward(12564, 480.0, 20987.35488);
    assert NextOpenDay(12564) == 12566;
    assert ExampleForward(12564, 480.0, 20987.35488) == ExampleForward(12566, 480.0, 20507.35488);
    assert NextOpenDay(12566) == 12569;
    assert ExampleForward(12566, 480.0, 20507.35488) == ExampleForward(12569, 480.0, 20027.35488);
    ExampleForwardWeeks(12569, 8, 20027.35488);
    assert NextOpenDay(12625) == 12626;
    assert ExampleForward(12625, 480.0, 827.35488) == ExampleForward(12626, 480.0, 347.35488);
  }

  /** Monday 24 May 2004 19:03 forward 44.723656 workdays: from Tuesday 08:00
      past the holiday on 27 May and eight whole weeks of June and July, ending
      on Tuesday 27 July 2004 at 13:47. */
  lemma MondayNightForwardFortyFourWorkdays()
    ensures FindWorkday(Example, DateTime(12562, 1143.0), 44.7236560, Week) == Success(DateTime(12626, 827.0))
  {
    var start := DateTime(12562, 1143.0);
    ExampleWorkdays(12562);
    ExampleNextWorkday(start);
    ExampleWorkdayAt(DateTime(12563, 480.0));
    assert AlignForward(Example, start, Week) == Some(DateTime(12563, 480.0));
    ForwardFromTuesdayTwentyFifth();
    ExampleForwardAgrees(12563, 480.0, 21467.35488);
    assert IncrementDateAndTime(Example, start, 21467.35488, Week) == Some(DateTime(12626, 827.35488));
  }

  /** Monday 24 May 2004 18:03 back 6.7470217 workdays: past the recurring
      holiday to Thursday 13 May, where dropping the seconds of 10:01:25.8
      gives 10:01. */
  lemma MondayEveningBackSixPointSeven()
    ensures FindWorkday(Example, DateTime(12562, 1083.0), -6.7470217, Week) == Success(DateTime(12551, 601.0))
  {
    var start := DateTime(12562, 1083.0);
    ExampleWorkdayAt(DateTime(12562, 960.0));
    assert AlignBackward(Example, start, Week) == Some(DateTime(12562, 960.0));
    assert ExampleBackward(12562, 960.0, 3238.570416) == (12551, 601.429584) by {
      assert PreviousOpenDay(12562) == 12559;
      assert ExampleBackward(12562, 960.0, 3238.570416) == ExampleBackward(12559, 960.0, 2758.570416);
      assert PreviousOpenDay(12559) == 12558;
      assert ExampleBackward(12559, 960.0, 2758.570416) == ExampleBackward(12558, 960.0, 2278.570416);
      assert PreviousOpenDay(12558) == 12557;
      assert ExampleBackward(12558, 960.0, 2278.570416) == ExampleBackward(12557, 960.0, 1798.570416);
      assert PreviousOpenDay(12557) == 12556;
      assert ExampleBackward(12557, 960.0, 1798.570416) == ExampleBackward(12556, 960.0, 1318.570416);
      assert PreviousOpenDay(12556) == 12552;
      assert ExampleBackward(12556, 960.0, 1318.570416) == ExampleBackward(12552, 960.0, 838.570416);
      assert PreviousOpenDay(12552) == 12551;
      assert ExampleBackward(12552, 960.0, 838.570416) == ExampleBackward(12551, 960.0, 358.570416);
    }
    ExampleBackwardAgrees(12562, 960.0, 3238.570416);
    assert SubtractMinutes(Example, start, 3238.570416, Week) == Some(DateTime(12551, 601.429584));
  }

  /** Monday 24 May 2004 08:03 forward 12.782709 workdays: Thursday 10 June 2004
      at 14:18. */
  lemma MondayMorningForwardTwelvePointEight()
    ensures FindWorkday(Example, DateTime(12562, 483.0), 12.7827090, Week) == Success(DateTime(12579, 858.0))
  {
    var start := DateTime(12562, 483.0);
    ExampleWorkdayAt(DateTime(12562, 483.0));
    assert AlignForward(Example, start, Week) == Some(DateTime(12562, 483.0));
    assert ExampleForward(12562, 483.0, 6135.70032) == (12579, 858.70032) by {
      assert NextOpenDay(12562) == 12563;
      assert ExampleForward(12562, 483.0, 6135.70032) == ExampleForward(12563, 480.0, 5658.70032);
      assert NextOpenDay(12563) == 12564;
      assert ExampleForward(12563, 480.0, 5658.70032) == ExampleForward(12564, 480.0, 5178.70032);
      assert NextOpenDay(12564) == 12566;
      assert ExampleForward(12564, 480.0, 5178.70032) == ExampleForward(12566, 480.0, 4698.70032);
      assert NextOpenDay(12566) == 12569;
      assert ExampleForward(12566, 480.0, 4698.70032) == ExampleForward(12569, 480.0, 4218.70032);
      ExampleForwardWeeks(12569, 1, 4218.70032);
      assert NextOpenDay(12576) == 12577;
      assert ExampleForward(12576, 480.0, 1818.70032) == ExampleForward(12577, 480.0, 1338.70032);
      assert NextOpenDay(12577) == 12578;
      assert ExampleForward(12577, 480.0, 1338.70032) == ExampleForward(12578, 480.0, 858.70032);
      assert NextOpenDay(12578) == 12579;
      assert ExampleForward(12578, 480.0, 858.70032) == ExampleForward(12579, 480.0, 378.70032);
    }
    ExampleForwardAgrees(12562, 483.0, 6135.70032);
    assert IncrementDateAndTime(Example, start, 6135.70032, Week) == Some(DateTime(12579, 858.70032));
  }

  /** Monday 24 May 2004 07:03, before the window, forward 8.276628 workdays:
      counting starts at 08:00 and ends on Friday 4 June 2004 at 10:12. */
  lemma BeforeOpeningForwardEightPointTwo()
    ensures FindWorkday(Example, DateTime(12562, 423.0), 8.2766280, Week) == Success(DateTime(12573, 612.0))
  {
    var start := DateTime(12562, 423.0);
    ExampleWorkdayAt(DateTime(12562, 480.0));
    assert AlignForward(Example, start, Week) == Some(DateTime(12562, 480.0));
    assert ExampleForward(12562, 480.0, 3972.78144) == (12573, 612.78144) by {
      assert NextOpenDay(12562) == 12563;
      assert ExampleForward(12562, 480.0, 3972.78144) == ExampleForward(12563, 480.0, 3492.78144);
      assert NextOpenDay(12563) == 12564;
      assert ExampleForward(12563, 480.0, 3492.78144) == ExampleForward(12564, 480.0, 3012.78144);
      assert NextOpenDay(12564) == 12566;
      assert ExampleForward(12564, 480.0, 3012.78144) == ExampleForward(12566, 480.0, 2532.78144);
      assert NextOpenDay(12566) == 12569;
      assert ExampleForward(12566, 480.0, 2532.78144) == ExampleForward(12569, 480.0, 2052.78144);
      assert NextOpenDay(12569) == 12570;
      assert ExampleForward(12569, 480.0, 2052.78144) == ExampleForward(12570, 480.0, 1572.78144);
      assert NextOpenDay(12570) == 12571;
      assert ExampleForward(12570, 480.0, 1572.78144) == ExampleForward(12571, 480.0, 1092.78144);
      assert NextOpenDay(12571) == 12572;
      assert ExampleForward(12571, 480.0, 1092.78144) == ExampleForward(12572, 480.0, 612.78144);
      assert NextOpenDay(12572) == 12573;
      assert ExampleForward(12572, 480.0, 612.78144) == ExampleForward(12573, 480.0, 132.78144);
    }
    ExampleForwardAgrees(12562, 480.0, 3972.78144);
    assert IncrementDateAndTime(Example, start, 3972.78144, Week) == Some(DateTime(12573, 612.78144));
  }

  /** Monday 10 October 2022 07:03 forward 8.5 workdays: Thursday 20 October
      at 12:00, the same as from 08:00. */
  lemma BeforeOpeningForwardEightAndAHalf()
    ensures FindWorkday(Example, DateTime(19275, 423.0), 8.5, Week) == Success(DateTime(19285, 720.0))
  {
    var start := DateTime(19275, 423.0);
    ExampleWorkdayAt(DateTime(19275, 480.0));
    assert AlignForward(Example, start, Week) == Some(DateTime(19275, 480.0));
    assert ExampleForward(19275, 480.0, 4080.0) == (19285, 720.0) by {
      ExampleForwardWeeks(19275, 1, 4080.0);
      assert NextOpenDay(19282) == 19283;
      assert ExampleForward(19282, 480.0, 1680.0) == ExampleForward(19283, 480.0, 1200.0);
      assert NextOpenDay(19283) == 19284;
      assert ExampleForward(19283, 480.0, 1200.0) == ExampleForward(19284, 480.0, 720.0);
      assert NextOpenDay(19284) == 19285;
      assert ExampleForward(19284, 480.0, 720.0) == ExampleForward(19285, 480.0, 240.0);
    }
    ExampleForwardAgrees(19275, 480.0, 4080.0);
    assert IncrementDateAndTime(Example, start, 4080.0, Week) == Some(DateTime(19285, 720.0));
  }

  /** Monday 10 October 2022 08:00 forward 8.5 workdays: Thursday 20 October
      at 12:00. */
  lemma AtOpeningForwardEightAndAHalf()
    ensures FindWorkday(Example, DateTime(19275, 480.0), 8.5, Week) == Success(DateTime(19285, 720.0))
  {
    var start := DateTime(19275, 480.0);
    ExampleWorkdayAt(DateTime(19275, 480.0));
    assert AlignForward(Example, start, Week) == Some(DateTime(19275, 480.0));
    assert ExampleForward(19275, 480.0, 4080.0) == (19285, 720.0) by {
      ExampleForwardWeeks(19275, 1, 4080.0);
      assert NextOpenDay(19282) == 19283;
      assert ExampleForward(19282, 480.0, 1680.0) == ExampleForward(19283, 480.0, 1200.0);
      assert NextOpenDay(19283) == 19284;
      assert ExampleForward(19283, 480.0, 1200.0) == ExampleForward(19284, 480.0, 720.0);
      assert NextOpenDay(19284) == 19285;
      assert ExampleForward(19284, 480.0, 720.0) == ExampleForward(19285, 480.0, 240.0);
    }
    ExampleForwardAgrees(19275, 480.0, 4080.0);
    assert IncrementDateAndTime(Example, start, 4080.0, Week) == Some(DateTime(19285, 720.0));
  }

  /** Monday 10 October 2022 07:03, before the window, back 3.5 workdays:
      counting starts at Friday 16:00 and ends on Tuesday 4 October at 12:00. */
  lemma BeforeOpeningBackThreeAndAHalf()
    ensures FindWorkday(Example, DateTime(19275, 423.0), -3.5, Week) == Success(DateTime(19269, 720.0))
  {
    var start := DateTime(19275, 423.0);
    ExampleWorkdays(19275);
    ExamplePreviousWorkday(start);
    ExampleWorkdayAt(DateTime(19272, 960.0));
    assert AlignBackward(Example, start, Week) == Some(DateTime(19272, 960.0));
    assert ExampleBackward(19272, 960.0, 1680.0) == (19269, 720.0) by {
      assert PreviousOpenDay(19272) == 19271;
      assert ExampleBackward(19272, 960.0, 1680.0) == ExampleBackward(19271, 960.0, 1200.0);
      assert PreviousOpenDay(19271) == 19270;
      assert ExampleBackward(19271, 960.0, 1200.0) == ExampleBackward(19270, 960.0, 720.0);
      assert PreviousOpenDay(19270) == 19269;
      assert ExampleBackward(19270, 960.0, 720.0) == ExampleBackward(19269, 960.0, 240.0);
    }
    ExampleBackwardAgrees(19272, 960.0, 1680.0);
    assert SubtractMinutes(Example, start, 1680.0, Week) == Some(DateTime(19269, 720.0));
  }

  /** Monday 10 October 2022 15:07 forward a quarter workday: 53 minutes on
      Monday, 67 on Tuesday, ending on Tuesday 11 October at 09:07. */
  lemma AfternoonForwardQuarterDay()
    ensures FindWorkday(Example, DateTime(19275, 907.0), 0.25, Week) == Success(DateTime(19276, 547.0))
  {
    var start := DateTime(19275, 907.0);
    ExampleWorkdayAt(DateTime(19275, 907.0));
    assert AlignForward(Example, start, Week) == Some(DateTime(19275, 907.0));
    assert ExampleForward(19275, 907.0, 120.0) == (19276, 547.0) by {
      assert NextOpenDay(19275) == 19276;
      assert ExampleForward(19275, 907.0, 120.0) == ExampleForward(19276, 480.0, 67.0);
    }
    ExampleForwardAgrees(19275, 907.0, 120.0);
    assert IncrementDateAndTime(Example, start, 120.0, Week) == Some(DateTime(19276, 547.0));
  }

  /** Monday 10 October 2022 04:00 forward half a workday: counting starts at
      08:00 and ends at 12:00 the same day. */
  lemma EarlyMorningForwardHalfDay()
    ensures FindWorkday(Example, DateTime(19275, 240.0), 0.5, Week) == Success(DateTime(19275, 720.0))
  {
    var start := DateTime(19275, 240.0);
    ExampleWorkdayAt(DateTime(19275, 480.0));
    assert AlignForward(Example, start, Week) == Some(DateTime(19275, 480.0));
    ExampleForwardAgrees(19275, 480.0, 240.0);
    assert IncrementDateAndTime(Example, start, 240.0, Week) == Some(DateTime(19275, 720.0));
  }
}
