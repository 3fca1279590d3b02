/** FindWorkday: move a signed, fractional number of workdays from a start
    instant. The offset is scaled by the window length to minutes; the start is
    aligned onto a workday's window; then the minutes are walked off one
    workday at a time; finally the seconds are dropped. */
module CalendarService {
  import opened Wrappers
  import opened Dates
  import opened DateTimeExtension
  import opened Calendars
  import opened WorkedTime

  datatype ServiceError =
    | WindowError(error: CalendarError)   // the start of the workday is after its end
    | NoWorkdayWithinHorizon              // a day search ran past its horizon

  /** The clock lies in the closed work window. */
  predicate InWindow(c: Calendar, d: DateTime)
  {
    c.startOfWorkday as real <= d.clock <= c.endOfWorkday as real
  }

  /** Forward alignment: before the window moves to its start; at or after its
      end moves to the next workday's start; a non-workday moves to the next
      workday's start. */
  function AlignForward(c: Calendar, d: DateTime, horizon: nat): (r: Option<DateTime>)
    requires c.startOfWorkday <= c.endOfWorkday
    ensures r.Some? ==> IsWorkday(c, r.value) && InWindow(c, r.value) && NotAfter(d, r.value)
    ensures r.Some? && c.startOfWorkday < c.endOfWorkday ==> r.value.clock < c.endOfWorkday as real
    ensures r.Some? && OnWholeMinute(d) ==> OnWholeMinute(r.value)
    ensures IsWorkday(c, d) && c.startOfWorkday as real <= d.clock < c.endOfWorkday as real ==> r == Some(d)
  {
    var start := c.startOfWorkday;
    var a := if d.clock < start as real then SetTime(d, start / 60, start % 60) else d;
    IsWorkdayIgnoresTime(c, d, a);
    var b := if a.clock >= c.endOfWorkday as real then MoveToNextWorkday(c, a, horizon) else Some(a);
    match b
    case None => None
    case Some(b) => if !IsWorkday(c, b) then MoveToNextWorkday(c, b, horizon) else Some(b)
  }

  /** Backward alignment: after the window moves to its end; before its start
      moves to the previous workday's end; a non-workday moves to the previous
      workday's end. */
  function AlignBackward(c: Calendar, d: DateTime, horizon: nat): (r: Option<DateTime>)
    requires c.startOfWorkday <= c.endOfWorkday
    ensures r.Some? ==> IsWorkday(c, r.value) && InWindow(c, r.value) && NotAfter(r.value, d)
    ensures IsWorkday(c, d) && InWindow(c, d) ==> r == Some(d)
  {
    var end := c.endOfWorkday;
    var a := if d.clock > end as real then SetTime(d, end / 60, end % 60) else d;
    IsWorkdayIgnoresTime(c, d, a);
    var b := if a.clock < c.startOfWorkday as real then MoveToPreviousWorkday(c, a, horizon) else Some(a);
    match b
    case None => None
    case Some(b) => if !IsWorkday(c, b) then MoveToPreviousWorkday(c, b, horizon) else Some(b)
  }

  /** Bound on the number of further workdays the forward walk visits. A step
      consumes what is left of a day and every later day offers the whole
      window, which is at least one minute long. */
  function ForwardMeasure(c: Calendar, d: DateTime, minutes: real): int
  {
    var remaining := c.endOfWorkday as real - d.clock;
    if minutes <= remaining then 0 else 1 + (minutes - remaining).Floor
  }

  function BackwardMeasure(c: Calendar, d: DateTime, minutes: real): int
  {
    var passed := d.clock - c.startOfWorkday as real;
    if minutes <= passed then 0 else 1 + (minutes - passed).Floor
  }

  /** The forward loop: while more minutes are left than remain in the current
      day's window, spend those and go to the next workday's start; then add
      the rest within the day. */
  function WalkForward(c: Calendar, d: DateTime, minutes: real, horizon: nat): (r: Option<DateTime>)
    requires c.startOfWorkday <= c.endOfWorkday
    requires IsWorkday(c, d) && InWindow(c, d)
    requires 0.0 <= minutes && (minutes == 0.0 || c.startOfWorkday < c.endOfWorkday)
    ensures r.Some? ==> IsWorkday(c, r.value) && InWindow(c, r.value) && NotAfter(d, r.value)
    decreases ForwardMeasure(c, d, minutes)
  {
    var remaining := c.endOfWorkday as real - d.clock;
    if minutes > remaining then
      match MoveToNextWorkday(c, d, horizon)
      case None => None
      case Some(next) => WalkForward(c, next, minutes - remaining, horizon)
    else
      var r := AddMinutes(d, minutes);
      IsWorkdayIgnoresTime(c, d, r);
      Some(r)
  }

  /** The backward loop: while more minutes are left than have passed in the
      current day's window, spend those and go to the previous workday's end;
      then subtract the rest within the day. */
  function WalkBackward(c: Calendar, d: DateTime, minutes: real, horizon: nat): (r: Option<DateTime>)
    requires c.startOfWorkday <= c.endOfWorkday
    requires IsWorkday(c, d) && InWindow(c, d)
    requires 0.0 <= minutes && (minutes == 0.0 || c.startOfWorkday < c.endOfWorkday)
    ensures r.Some? ==> IsWorkday(c, r.value) && InWindow(c, r.value) && NotAfter(r.value, d)
    decreases BackwardMeasure(c, d, minutes)
  {
    var passed := d.clock - c.startOfWorkday as real;
    if passed < minutes then
      match MoveToPreviousWorkday(c, d, horizon)
      case None => None
      case Some(prev) => WalkBackward(c, prev, minutes - passed, horizon)
    else
      var r := AddMinutes(d, -minutes);
      IsWorkdayIgnoresTime(c, d, r);
      Some(r)
  }

  /** Forward path of FindWorkday, before the seconds are dropped. */
  function IncrementDateAndTime(c: Calendar, d: DateTime, minutes: real, horizon: nat): (r: Option<DateTime>)
    requires c.startOfWorkday <= c.endOfWorkday
    requires 0.0 <= minutes && (minutes == 0.0 || c.startOfWorkday < c.endOfWorkday)
    ensures r.Some? ==> IsWorkday(c, r.value) && InWindow(c, r.value) && NotAfter(d, r.value)
  {
    match AlignForward(c, d, horizon)
    case None => None
    case Some(a) => WalkForward(c, a, minutes, horizon)
  }

  /** Backward path of FindWorkday, before the seconds are dropped. */
  function SubtractMinutes(c: Calendar, d: DateTime, minutes: real, horizon: nat): (r: Option<DateTime>)
    requires c.startOfWorkday <= c.endOfWorkday
    requires 0.0 <= minutes && (minutes == 0.0 || c.startOfWorkday < c.endOfWorkday)
    ensures r.Some? ==> IsWorkday(c, r.value) && InWindow(c, r.value) && NotAfter(r.value, d)
  {
    match AlignBackward(c, d, horizon)
    case None => None
    case Some(a) => WalkBackward(c, a, minutes, horizon)
  }

  /** The offset in minutes, workdays times the window length. Kept as a
      function so that proofs use only its sign, not the real product. */
  function OffsetMinutes(workdays: real, length: int): (m: real)
    requires 0 <= length
    ensures workdays >= 0.0 ==> m >= 0.0
    ensures workdays < 0.0 ==> m <= 0.0
    ensures length == 0 ==> m == 0.0
  {
    workdays * length as real
  }

  /** Moves `workdays` workdays from `start`: forward for a non-negative offset,
      backward otherwise. Every day search looks at most `horizon` days ahead
      or back. */
  function FindWorkday(c: Calendar, start: DateTime, workdays: real, horizon: nat): (r: Result<DateTime, ServiceError>)
    ensures r.Failure? && r.error.WindowError? <==> c.startOfWorkday > c.endOfWorkday
    ensures r.Success? ==> IsWorkday(c, r.value) && InWindow(c, r.value) && OnWholeMinute(r.value)
  {
    match GetLengthOfWorkday(c)
    case Failure(e) => Failure(WindowError(e))
    case Success(length) =>
      var minutes := OffsetMinutes(workdays, length);
      var moved :=
        if workdays >= 0.0 then IncrementDateAndTime(c, start, minutes, horizon)
        else SubtractMinutes(c, start, -minutes, horizon);
      match moved
      case None => Failure(NoWorkdayWithinHorizon)
      case Some(d) => Success(Truncate(c, d))
  }

  /** SetSecondsToZero keeps a workday instant inside the window: the window
      edges are whole minutes. */
  function Truncate(c: Calendar, d: DateTime): (r: DateTime)
    requires IsWorkday(c, d) && InWindow(c, d)
    ensures IsWorkday(c, r) && InWindow(c, r) && OnWholeMinute(r)
    ensures r.day == d.day && r.clock <= d.clock < r.clock + 1.0
  {
    var r := SetSecondsToZero(d);
    FloorWithinWholeBounds(c.startOfWorkday, c.endOfWorkday, d.clock);
    IsWorkdayIgnoresTime(c, d, r);
    r
  }
}
