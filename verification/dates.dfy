/** The slice of .NET's DateTime and TimeOnly that the calendar relies on.

    A DateTime is a day count together with a clock reading: `day` counts days
    from 1970-01-01 (proleptic Gregorian, any integer), `clock` is the time of
    day in minutes since midnight, fractions of a minute included (seconds and
    below). A TimeOnly set from hour and minute is an integer number of minutes
    since midnight. */
module Dates {

  const MinutesPerDay: int := 1440

  /** TimeOnly at minute precision: 00:00 .. 23:59. */
  type TimeOfDay = m: int | 0 <= m < MinutesPerDay

  /** Time of day with sub-minute precision, in minutes. */
  type Clock = r: real | 0.0 <= r < 1440.0

  datatype DateTime = DateTime(day: int, clock: Clock)

  datatype DayOfWeek = Sunday | Monday | Tuesday | Wednesday | Thursday | Friday | Saturday

  /** 1970-01-01 was a Thursday; Dafny's `%` never returns a negative remainder,
      so days before the epoch are handled as well. */
  function DayOfWeekOf(day: int): DayOfWeek
  {
    match (day + 4) % 7
    case 0 => Sunday
    case 1 => Monday
    case 2 => Tuesday
    case 3 => Wednesday
    case 4 => Thursday
    case 5 => Friday
    case _ => Saturday
  }

  /** Year, month and day of a day count (Gregorian civil-from-days). */
  function CivilFromDays(day: int): (int, int, int)
  {
    var z := day + 719468;
    var era := z / 146097;
    var doe := z % 146097;
    var yoe := (doe - doe / 1460 + doe / 36524 - doe / 146096) / 365;
    var doy := doe - (365 * yoe + yoe / 4 - yoe / 100);
    var mp := (5 * doy + 2) / 153;
    var d := doy - (153 * mp + 2) / 5 + 1;
    var m := if mp < 10 then mp + 3 else mp - 9;
    (yoe + era * 400 + (if m <= 2 then 1 else 0), m, d)
  }

  function Year(d: DateTime): int { CivilFromDays(d.day).0 }

  function Month(d: DateTime): int { CivilFromDays(d.day).1 }

  function DayOfMonth(d: DateTime): int { CivilFromDays(d.day).2 }

  function Hour(d: DateTime): int { d.clock.Floor / 60 }

  function Minute(d: DateTime): int { d.clock.Floor % 60 }

  /** No seconds and no sub-second part. */
  predicate OnWholeMinute(d: DateTime)
  {
    d.clock == d.clock.Floor as real
  }

  /** The instant at 00:00 of a day. */
  function Midnight(day: int): DateTime
  {
    DateTime(day, 0.0)
  }

  /** Chronological order of instants. */
  predicate NotAfter(a: DateTime, b: DateTime)
  {
    a.day < b.day || (a.day == b.day && a.clock <= b.clock)
  }

  /** The instant as minutes since the epoch. */
  function Timeline(d: DateTime): real
  {
    d.day as real * 1440.0 + d.clock
  }

  /** DateTime.AddDays with a whole number of days. */
  function AddDays(d: DateTime, days: int): (r: DateTime)
    ensures r.clock == d.clock
    ensures Timeline(r) == Timeline(d) + days as real * 1440.0
  {
    DateTime(d.day + days, d.clock)
  }

  /** DateTime.AddMinutes, exact: the day rolls over when the clock leaves [0, 1440). */
  function AddMinutes(d: DateTime, minutes: real): (r: DateTime)
    ensures Timeline(r) == Timeline(d) + minutes
    ensures 0.0 <= d.clock + minutes < 1440.0 ==> r.day == d.day && r.clock == d.clock + minutes
  {
    var total := d.clock + minutes;
    var shift := (total / 1440.0).Floor;
    DateTime(d.day + shift, total - shift as real * 1440.0)
  }

  /** Dropping the fraction of a clock reading keeps it between whole-minute bounds. */
  lemma FloorWithinWholeBounds(lo: int, hi: int, x: real)
    requires lo as real <= x <= hi as real
    ensures lo <= x.Floor <= hi
  {
  }
}
