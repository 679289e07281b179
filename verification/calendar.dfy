/**
 * The proleptic Gregorian calendar of System.DateTime: the field ranges a
 * DateTime accepts, and the shift by a whole number of hours that
 * DateTimeOffset.UtcDateTime performs.
 */
module Calendar {
  import opened Primitives

  /** The fields of a DateTime; `Valid` is what the DateTime constructor checks. */
  datatype DateTime = DateTime(year: int, month: int, day: int, hour: int, minute: int, second: int, millisecond: int)
  {
    predicate Valid()
    {
      && 1 <= year <= 9999
      && 1 <= month <= 12
      && 1 <= day <= DaysInMonth(year, month)
      && 0 <= hour < 24
      && 0 <= minute < 60
      && 0 <= second < 60
      && 0 <= millisecond < 1000
    }
  }

  /** Every C# DateTime value satisfies the constructor's checks. */
  type ValidDateTime = dt: DateTime | dt.Valid() witness DateTime(1, 1, 1, 0, 0, 0, 0)

  predicate IsLeapYear(y: int)
  {
    y % 4 == 0 && (y % 100 != 0 || y % 400 == 0)
  }

  function DaysInMonth(y: int, m: int): int
    requires 1 <= m <= 12
  {
    if m == 2 then (if IsLeapYear(y) then 29 else 28)
    else if m == 4 || m == 6 || m == 9 || m == 11 then 30
    else 31
  }

  /** Days in the months of year `y` before month `m`; month 13 gives the year's length. */
  ghost function DaysBeforeMonth(y: int, m: int): nat
    requires 1 <= m <= 13
  {
    var common := [0, 31, 59, 90, 120, 151, 181, 212, 243, 273, 304, 334, 365][m - 1];
    if m > 2 && IsLeapYear(y) then common + 1 else common
  }

  /** The cumulative table agrees with the month lengths. */
  lemma NextMonth(y: int, m: int)
    requires 1 <= m <= 12
    ensures DaysBeforeMonth(y, m + 1) == DaysBeforeMonth(y, m) + DaysInMonth(y, m)
  {
  }

  /** Days from 1 January of year 1 to 1 January of year `y`. */
  ghost function DaysBefore(y: int): int
  {
    var p := y - 1;
    365 * p + p / 4 - p / 100 + p / 400
  }

  /** Days since 0001-01-01, the day count behind DateTime.Ticks. */
  ghost function DayNumber(dt: DateTime): int
    requires dt.Valid()
  {
    DaysBefore(dt.year) + DaysBeforeMonth(dt.year, dt.month) + dt.day - 1
  }

  /** Whole hours since 0001-01-01T00. */
  ghost function Hours(dt: DateTime): int
    requires dt.Valid()
  {
    DayNumber(dt) * 24 + dt.hour
  }

  /** DateTime.MaxValue is in the last hour before this count. */
  ghost const HOURS_END: int := DaysBefore(10000) * 24

  lemma DaysBeforeMonotone(a: int, b: int)
    requires 1 <= a <= b
    ensures 0 <= DaysBefore(a) <= DaysBefore(b)
  {
  }

  lemma DaysBeforeMonthBound(y: int, m: int)
    requires 1 <= m <= 12
    ensures DaysBeforeMonth(y, m) + DaysInMonth(y, m) <= DaysBeforeMonth(y, 13)
  {
    NextMonth(y, m);
  }

  lemma DayNumberInRange(dt: DateTime)
    requires dt.Valid()
    ensures 0 <= DayNumber(dt) < DaysBefore(10000)
  {
    DaysBeforeMonthBound(dt.year, dt.month);
    NewYear(dt.year);
    DaysBeforeMonotone(dt.year + 1, 10000);
  }

  /** Every valid date lies inside the representable range. */
  lemma HoursInRange(dt: DateTime)
    requires dt.Valid()
    ensures 0 <= Hours(dt) < HOURS_END
  {
    DayNumberInRange(dt);
  }

  /** The day after `dt`, or None after 9999-12-31, the last day a DateTime holds. */
  function NextDay(dt: DateTime): (r: Option<DateTime>)
    requires dt.Valid()
    ensures r.Some? ==> r.value.Valid()
    ensures r.Some? ==> r.value.(year := dt.year, month := dt.month, day := dt.day) == dt
    ensures r.None? <==> dt.year == 9999 && dt.month == 12 && dt.day == 31
  {
    if dt.day < DaysInMonth(dt.year, dt.month) then Some(dt.(day := dt.day + 1))
    else if dt.month < 12 then Some(dt.(month := dt.month + 1, day := 1))
    else if dt.year < 9999 then Some(dt.(year := dt.year + 1, month := 1, day := 1))
    else None
  }

  /** The day after is one day later, and only the last representable day has none. */
  lemma NextDayCounts(dt: DateTime)
    requires dt.Valid()
    ensures NextDay(dt).Some? ==> DayNumber(NextDay(dt).value) == DayNumber(dt) + 1
    ensures NextDay(dt).None? <==> DayNumber(dt) + 1 == DaysBefore(10000)
  {
    if dt.day < DaysInMonth(dt.year, dt.month) {
    } else if dt.month < 12 {
      NextMonth(dt.year, dt.month);
    } else if dt.year < 9999 {
      NewYear(dt.year);
    } else {
      NewYear(9999);
    }
    DayNumberInRange(dt);
  }

  /** A year holds as many days as its twelve months. */
  lemma NewYear(y: int)
    requires y >= 1
    ensures DaysBefore(y + 1) == DaysBefore(y) + DaysBeforeMonth(y, 13)
    ensures DaysBeforeMonth(y, 13) == DaysBeforeMonth(y, 12) + 31
  {
    var p := y - 1;
    YearLength(y);
    LeapDays(p);
    assert DaysBefore(y + 1) == DaysBefore(y) + 365 + ((p + 1) / 4 - p / 4)
                                - ((p + 1) / 100 - p / 100) + ((p + 1) / 400 - p / 400);
  }

  /** A leap year has one day more than the 365 of a common year, all of it before December. */
  lemma YearLength(y: int)
    ensures DaysBeforeMonth(y, 13) == 365 + (if IsLeapYear(y) then 1 else 0)
    ensures DaysBeforeMonth(y, 13) == DaysBeforeMonth(y, 12) + 31
  {
  }

  /** The leap-day terms of DaysBefore grow by one exactly when year `p + 1` is a leap year. */
  lemma LeapDays(p: int)
    ensures ((p + 1) / 4 - p / 4) - ((p + 1) / 100 - p / 100) + ((p + 1) / 400 - p / 400)
            == if IsLeapYear(p + 1) then 1 else 0
  {
    DivStep(p, 4);
    DivStep(p, 100);
    DivStep(p, 400);
  }

  /** Stepping over a multiple of the leap-year divisor adds one to the quotient. */
  lemma DivStep(p: int, k: int)
    requires k == 4 || k == 100 || k == 400
    ensures (p + 1) / k - p / k == if (p + 1) % k == 0 then 1 else 0
  {
  }

  /** The day before `dt`, or None on 0001-01-01, the first day a DateTime holds. */
  function PreviousDay(dt: DateTime): (r: Option<DateTime>)
    requires dt.Valid()
    ensures r.Some? ==> r.value.Valid()
    ensures r.Some? ==> r.value.(year := dt.year, month := dt.month, day := dt.day) == dt
    ensures r.None? <==> dt.year == 1 && dt.month == 1 && dt.day == 1
  {
    if dt.day > 1 then Some(dt.(day := dt.day - 1))
    else if dt.month > 1 then Some(dt.(month := dt.month - 1, day := DaysInMonth(dt.year, dt.month - 1)))
    else if dt.year > 1 then Some(dt.(year := dt.year - 1, month := 12, day := 31))
    else None
  }

  /** The day before is one day earlier, and only the first representable day has none. */
  lemma PreviousDayCounts(dt: DateTime)
    requires dt.Valid()
    ensures PreviousDay(dt).Some? ==> DayNumber(PreviousDay(dt).value) == DayNumber(dt) - 1
    ensures PreviousDay(dt).None? <==> DayNumber(dt) == 0
  {
    if dt.day > 1 {
    } else if dt.month > 1 {
      NextMonth(dt.year, dt.month - 1);
    } else if dt.year > 1 {
      NewYear(dt.year - 1);
    }
    DayNumberInRange(dt);
  }

  /**
   * DateTimeOffset.UtcDateTime for a local time `offsetHours` ahead of UTC:
   * the same instant moved by whole hours, failing when it leaves the range of
   * DateTime.
   */
  function ToUtc(local: ValidDateTime, offsetHours: int): (r: Result<ValidDateTime>)
    requires -24 < offsetHours < 24
    ensures r.Ok? ==> r.value.minute == local.minute && r.value.second == local.second
                      && r.value.millisecond == local.millisecond
    ensures r.Err? ==> r.fault == InvalidDateTime
  {
    var h := local.hour - offsetHours;
    if h < 0 then
      match PreviousDay(local)
      case None => Err(InvalidDateTime)
      case Some(d) => Ok(d.(hour := h + 24))
    else if h >= 24 then
      match NextDay(local)
      case None => Err(InvalidDateTime)
      case Some(d) => Ok(d.(hour := h - 24))
    else Ok(local.(hour := h))
  }

  /**
   * ToUtc moves the instant back by the offset in whole hours, and fails
   * exactly when the moved instant leaves the range of DateTime.
   */
  lemma ToUtcShifts(local: ValidDateTime, offsetHours: int)
    requires -24 < offsetHours < 24
    ensures ToUtc(local, offsetHours).Ok? <==> 0 <= Hours(local) - offsetHours < HOURS_END
    ensures ToUtc(local, offsetHours).Ok? ==> Hours(ToUtc(local, offsetHours).value) == Hours(local) - offsetHours
  {
    var h := local.hour - offsetHours;
    if h < 0 {
      PreviousDayCounts(local);
      match PreviousDay(local)
      case None =>
      case Some(d) => HoursInRange(d.(hour := h + 24));
    } else if h >= 24 {
      NextDayCounts(local);
      match NextDay(local)
      case None =>
      case Some(d) => HoursInRange(d.(hour := h - 24));
    } else {
      HoursInRange(local.(hour := h));
    }
  }
}
