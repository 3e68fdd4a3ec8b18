/**
 The two time conversions of the clock program: committing an NTP timestamp
 to the RTC's `datetime_t` (`ntp_apply_timezone`) and shifting the RTC by
 whole hours (`rtc_add_hours`).

 Both copy `struct tm` fields straight into `datetime_t` and back, so the
 `year` field holds years since 1900 and `month` is 0-based, as `gmtime`
 produces them; the two functions agree with each other on that convention.
 */
module ClockTime {

  import opened Calendar
  import opened MachineInts

  /** Seconds from 1900-01-01 (the NTP epoch) to 1970-01-01 (the Unix epoch). */
  const NtpEpochOffset: int := 2208988800

  /** The RTC's date-time record.  Fields carry whatever the program stores in
      them; see the module comment for the conventions in use. */
  datatype DateTime = DateTime(year: int, month: int, day: int, dotw: int, hour: int, min: int, sec: int)

  /** The field-by-field copy from a `struct tm` into a `datetime_t`. */
  function FromTm(tm: Tm): DateTime {
    DateTime(tm.year, tm.mon, tm.mday, tm.wday, tm.hour, tm.min, tm.sec)
  }

  /** The field-by-field copy from a `datetime_t` into a `struct tm`. */
  function ToTm(dt: DateTime): Tm {
    Tm(dt.year, dt.month, dt.day, dt.dotw, dt.hour, dt.min, dt.sec)
  }

  /** The instant (seconds since 1970-01-01) a date-time denotes when read
      back through `mktime`, the local zone being UTC. */
  function Instant(dt: DateTime): int {
    TimeGm(ToTm(dt))
  }

  /** Every field lies in the range `gmtime` produces, and the day of the week
      is the true one of the date. */
  predicate Canonical(dt: DateTime) {
    && Calendar.Normalised(ToTm(dt))
    && dt.dotw == Weekday(DayNumber(ToTm(dt)))
  }

  /** `ntp_apply_timezone`: the local date-time, `tz` hours east of UTC, of
      the NTP timestamp `ntp` (seconds since 1900). */
  function ApplyTimezone(ntp: uint32, tz: int8): (dt: DateTime)
    ensures Canonical(dt)
    ensures 0 <= dt.hour < 24 && 0 <= dt.min < 60 && 0 <= dt.sec < 60 && 0 <= dt.dotw < 7
    ensures 0 <= dt.month < 12 && 1 <= dt.day <= 31
    ensures Instant(dt) == ntp - NtpEpochOffset + SecondsPerHour * tz
  {
    FromTm(GmTime(ntp - NtpEpochOffset + SecondsPerHour * tz))
  }

  /** `rtc_add_hours`: the date-time `offset` hours after `dt`, normalised. */
  function AddHours(dt: DateTime, offset: int8): (r: DateTime)
    ensures Canonical(r)
    ensures 0 <= r.hour < 24 && 0 <= r.min < 60 && 0 <= r.sec < 60 && 0 <= r.dotw < 7
    ensures 0 <= r.month < 12 && 1 <= r.day <= 31
    ensures Instant(r) == Instant(dt) + SecondsPerHour * offset
  {
    FromTm(GmTime(Instant(dt) + SecondsPerHour * offset))
  }

  /** A normalised date-time is determined by the instant it denotes. */
  lemma NormalisedByInstant(dt: DateTime)
    requires Canonical(dt)
    ensures FromTm(GmTime(Instant(dt))) == dt
  {
    GmTimeTimeGm(ToTm(dt));
  }

  lemma NormalisedUnique(a: DateTime, b: DateTime)
    requires Canonical(a) && Canonical(b)
    ensures a == b <==> Instant(a) == Instant(b)
  {
    NormalisedByInstant(a);
    NormalisedByInstant(b);
  }

  /** The day of the week stored in the input plays no part in the result. */
  lemma AddHoursIgnoresDotw(dt: DateTime, offset: int8, w: int)
    ensures AddHours(dt.(dotw := w), offset) == AddHours(dt, offset)
  {
    assert ToTm(dt.(dotw := w)) == ToTm(dt).(wday := w);
    TimeGmIgnoresWday(ToTm(dt), w);
    AddHoursUnique(dt.(dotw := w), offset, AddHours(dt, offset));
  }

  /** Shifting by `a` hours and then by `b` hours is shifting by `a + b` hours. */
  lemma AddHoursCompose(dt: DateTime, a: int8, b: int8)
    requires -128 <= a + b < 128
    ensures AddHours(AddHours(dt, a), b) == AddHours(dt, a + b)
  {
    NormalisedUnique(AddHours(AddHours(dt, a), b), AddHours(dt, a + b));
  }

  /** +1 hour then -1 hour gives back a normalised date-time exactly. */
  lemma AddHoursRoundTrip(dt: DateTime)
    requires Canonical(dt)
    ensures AddHours(AddHours(dt, 1), -1) == dt
  {
    NormalisedUnique(AddHours(AddHours(dt, 1), -1), dt);
  }

  /** On any input, +1 hour then -1 hour gives the normalised form of the input:
      out-of-range fields are carried and the day of the week recomputed. */
  lemma AddHoursRoundTripNormalises(dt: DateTime)
    ensures AddHours(AddHours(dt, 1), -1) == AddHours(dt, 0)
    ensures Canonical(dt) ==> AddHours(dt, 0) == dt
  {
    AddHoursCompose(dt, 1, -1);
    if Canonical(dt) {
      NormalisedByInstant(dt);
    }
  }

  /** Raising the timezone by one hour is the same as a timestamp one hour later. */
  lemma TimezoneIsHourShift(ntp: uint32, tz: int8)
    requires tz < 127 && ntp + SecondsPerHour < 0x1_0000_0000
    ensures ApplyTimezone(ntp, tz + 1) == ApplyTimezone(ntp + SecondsPerHour, tz)
  {
    ApplyTimezoneUnique(ntp + SecondsPerHour, tz, ApplyTimezone(ntp, tz + 1));
  }

  /** Committing with timezone `tz` and then shifting the RTC by `k` hours is
      committing with timezone `tz + k`. */
  lemma ApplyTimezoneThenAddHours(ntp: uint32, tz: int8, k: int8)
    requires -128 <= tz + k < 128
    ensures AddHours(ApplyTimezone(ntp, tz), k) == ApplyTimezone(ntp, tz + k)
  {
    NormalisedUnique(AddHours(ApplyTimezone(ntp, tz), k), ApplyTimezone(ntp, tz + k));
  }

  /** The committed date-time is the one normalised date-time denoting the
      local instant. */
  lemma ApplyTimezoneUnique(ntp: uint32, tz: int8, dt: DateTime)
    requires Canonical(dt) && Instant(dt) == ntp - NtpEpochOffset + SecondsPerHour * tz
    ensures ApplyTimezone(ntp, tz) == dt
  {
    NormalisedUnique(ApplyTimezone(ntp, tz), dt);
  }

  /** The shifted date-time is the one normalised date-time denoting the
      shifted instant. */
  lemma AddHoursUnique(dt: DateTime, offset: int8, r: DateTime)
    requires Canonical(r) && Instant(r) == Instant(dt) + SecondsPerHour * offset
    ensures AddHours(dt, offset) == r
  {
    NormalisedUnique(AddHours(dt, offset), r);
  }

  /** January and February 2024 (year field 124): 2024-01-01 is day 19723
      after 1970-01-01, January has 31 days and February, in a leap year, 29. */
  lemma EarlyDays2024(dt: DateTime)
    requires dt.year == 124 && 0 <= dt.month < 2
    ensures DayNumber(ToTm(dt)) == 19723 + 31 * dt.month + dt.day - 1
    ensures DaysInMonth(dt.year + TmYearBase, dt.month + 1) == if dt.month == 0 then 31 else 29
  {
    assert dt.month / 12 == 0 && dt.month % 12 == dt.month;
    assert (dt.year + TmYearBase - 1) / 400 == 5;
    assert (dt.year + TmYearBase - 1) % 400 == 23;
    assert YearStart(23) == 8400;
    assert IsLeapYear(dt.year + TmYearBase);
  }

  /** Monday 2024-01-01 at hour h (0 to 23) is normalised and h hours after
      NTP second 3913056000. */
  lemma NewYear2024(dt: DateTime)
    requires dt.year == 124 && dt.month == 0 && dt.day == 1 && dt.dotw == 1
    requires 0 <= dt.hour < 24 && dt.min == 0 && dt.sec == 0
    ensures Canonical(dt)
    ensures Instant(dt) == 3913056000 - NtpEpochOffset + SecondsPerHour * dt.hour
  {
    EarlyDays2024(dt);
  }

  /** 2024-01-01T00:00:00 UTC, a Monday, is NTP second 3913056000; it is
      committed as year field 124 and month field 0, and a timezone of `tz`
      hours east (up to 23) moves the hour field to `tz`. */
  lemma ApplyTimezoneExample(ntp: uint32, tz: int8)
    requires ntp == 3913056000 && 0 <= tz < 24
    ensures ApplyTimezone(ntp, tz) == DateTime(124, 0, 1, 1, tz, 0, 0)
  {
    var expected := DateTime(124, 0, 1, 1, tz, 0, 0);
    NewYear2024(expected);
    ApplyTimezoneUnique(ntp, tz, expected);
  }

  /** Wednesday 2024-01-31 at any time of day is normalised, on day 19753. */
  lemma JanuaryEnd2024(dt: DateTime)
    requires dt.year == 124 && dt.month == 0 && dt.day == 31 && dt.dotw == 3
    requires 0 <= dt.hour < 24 && 0 <= dt.min < 60 && 0 <= dt.sec < 60
    ensures Canonical(dt)
    ensures Instant(dt) == 19753 * SecondsPerDay + SecondsPerHour * dt.hour + SecondsPerMinute * dt.min + dt.sec
  {
    EarlyDays2024(dt);
  }

  /** Thursday 2024-02-01 at any time of day is normalised, on day 19754. */
  lemma FebruaryStart2024(dt: DateTime)
    requires dt.year == 124 && dt.month == 1 && dt.day == 1 && dt.dotw == 4
    requires 0 <= dt.hour < 24 && 0 <= dt.min < 60 && 0 <= dt.sec < 60
    ensures Canonical(dt)
    ensures Instant(dt) == 19754 * SecondsPerDay + SecondsPerHour * dt.hour + SecondsPerMinute * dt.min + dt.sec
  {
    EarlyDays2024(dt);
  }

  /** Any moment of 23:00-23:59 on Wednesday 2024-01-31 plus one hour is the
      same minute and second past midnight on Thursday 2024-02-01. */
  lemma AddHoursMonthBoundaryExample(m: int, sec: int)
    requires 0 <= m < 60 && 0 <= sec < 60
    ensures AddHours(DateTime(124, 0, 31, 3, 23, m, sec), 1) == DateTime(124, 1, 1, 4, 0, m, sec)
  {
    JanuaryEnd2024(DateTime(124, 0, 31, 3, 23, m, sec));
    FebruaryStart2024(DateTime(124, 1, 1, 4, 0, m, sec));
    AddHoursUnique(DateTime(124, 0, 31, 3, 23, m, sec), 1, DateTime(124, 1, 1, 4, 0, m, sec));
  }

  /** Any moment of 00:00-00:59 on Thursday 2024-02-01 minus one hour is the
      same minute and second past 23:00 on Wednesday 2024-01-31. */
  lemma AddHoursMonthBoundaryBack(m: int, sec: int)
    requires 0 <= m < 60 && 0 <= sec < 60
    ensures AddHours(DateTime(124, 1, 1, 4, 0, m, sec), -1) == DateTime(124, 0, 31, 3, 23, m, sec)
  {
    JanuaryEnd2024(DateTime(124, 0, 31, 3, 23, m, sec));
    FebruaryStart2024(DateTime(124, 1, 1, 4, 0, m, sec));
    AddHoursUnique(DateTime(124, 1, 1, 4, 0, m, sec), -1, DateTime(124, 0, 31, 3, 23, m, sec));
  }
}
