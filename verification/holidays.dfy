/** One-off holidays (a year, month and day) and recurring holidays (a month
    and day, every year), with their date-matching predicates and value equality. */
module Holidays {
  import opened Dates

  datatype Holiday = Holiday(year: int, month: int, day: int)
  {
    /** The date of `d` is this holiday; the time of day plays no part. */
    predicate IsDate(d: DateTime)
    {
      DayOfMonth(d) == day && Month(d) == month && Year(d) == year
    }

    /** The typed Equals overload: same year, month and day. */
    predicate SameDate(other: Holiday)
    {
      other.day == day && other.month == month && other.year == year
    }
  }

  datatype RecurringHoliday = RecurringHoliday(month: int, day: int)
  {
    /** The month and day of `d` are this holiday's, in any year. */
    predicate IsDate(d: DateTime)
    {
      DayOfMonth(d) == day && Month(d) == month
    }

    /** The typed Equals overload: same month and day. */
    predicate SameDate(other: RecurringHoliday)
    {
      other.day == day && other.month == month
    }
  }

  /** Holiday equality by components is value equality of the model, so it is
      reflexive and symmetric, and equal holidays match the same dates. */
  lemma HolidaySameDateIsValueEquality(a: Holiday, b: Holiday, d: DateTime)
    ensures a.SameDate(b) <==> a == b
    ensures a.SameDate(a)
    ensures a.SameDate(b) <==> b.SameDate(a)
    ensures a.SameDate(b) ==> (a.IsDate(d) <==> b.IsDate(d))
  {
  }

  lemma RecurringSameDateIsValueEquality(a: RecurringHoliday, b: RecurringHoliday, d: DateTime)
    ensures a.SameDate(b) <==> a == b
    ensures a.SameDate(a)
    ensures a.SameDate(b) <==> b.SameDate(a)
    ensures a.SameDate(b) ==> (a.IsDate(d) <==> b.IsDate(d))
  {
  }

  /** Matching a holiday looks only at the date: two instants of the same day agree. */
  lemma HolidayIsDateIgnoresTime(h: Holiday, d: DateTime, e: DateTime)
    requires d.day == e.day
    ensures h.IsDate(d) <==> h.IsDate(e)
  {
  }

  /** A recurring holiday cannot tell two dates apart that differ only in the year. */
  lemma RecurringIsDateIgnoresYear(r: RecurringHoliday, d: DateTime, e: DateTime)
    requires Month(d) == Month(e) && DayOfMonth(d) == DayOfMonth(e)
    ensures r.IsDate(d) <==> r.IsDate(e)
  {
  }

  /** A date that matches a one-off holiday also matches the recurring holiday
      on the same month and day. */
  lemma HolidayDateMatchesRecurring(h: Holiday, d: DateTime)
    requires h.IsDate(d)
    ensures RecurringHoliday(h.month, h.day).IsDate(d)
  {
  }
}
