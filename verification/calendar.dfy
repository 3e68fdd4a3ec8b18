/**
 The proleptic Gregorian calendar arithmetic behind the C library's `gmtime`
 and `mktime` (POSIX "Seconds Since the Epoch").  Days are counted from
 1970-01-01; a date is converted with a days-from-civil / civil-from-days pair
 that works in 400-year eras beginning on 1 March, so that the leap day is the
 last day of its (March-based) year.
 */
module Calendar {

  import Arith

  const SecondsPerMinute: int := 60
  const SecondsPerHour: int := 3600
  const SecondsPerDay: int := 86400

  /** Days in a 400-year era, a 100-year century (without a leap century day)
      and a 4-year group (with its leap day). */
  const DaysPerEra: int := 146097
  const DaysPerCentury: int := 36524
  const DaysPerFourYears: int := 1461

  /** Days from 0000-03-01 (the start of era 0) to 1970-01-01. */
  const UnixEpochShift: int := 719468

  /** 1970-01-01 was a Thursday; Sunday is weekday 0. */
  const EpochWeekday: int := 4

  /** The C library's `struct tm` year base. */
  const TmYearBase: int := 1900

  predicate IsLeapYear(y: int) {
    y % 4 == 0 && (y % 100 != 0 || y % 400 == 0)
  }

  /** Month is 1-based here: 1 = January. */
  function DaysInMonth(y: int, m: int): (n: int)
    requires 1 <= m <= 12
    ensures 28 <= n <= 31
    ensures n == 29 <==> m == 2 && IsLeapYear(y)
  {
    if m == 2 then (if IsLeapYear(y) then 29 else 28)
    else if m == 4 || m == 6 || m == 9 || m == 11 then 30
    else 31
  }

  datatype Date = Date(year: int, month: int, day: int)

  predicate ValidDate(dt: Date) {
    1 <= dt.month <= 12 && 1 <= dt.day <= DaysInMonth(dt.year, dt.month)
  }

  /** Month index counted from March: March = 0, ..., January = 10, February = 11. */
  function MarchMonth(m: int): (mp: int)
    requires 1 <= m <= 12
    ensures 0 <= mp < 12
  {
    if m > 2 then m - 3 else m + 9
  }

  /** Days from 1 March to the first day of the March-based month `mp`. */
  function DaysBeforeMarchMonth(mp: int): int {
    (153 * mp + 2) / 5
  }

  /** Days from 1 March of year 0 of an era to 1 March of its year `yoe`. */
  function YearStart(yoe: int): int {
    365 * yoe + yoe / 4 - yoe / 100
  }

  /** Length of the March-based year `yoe` of an era: it ends with February of
      the civil year `yoe + 1`. */
  function MarchYearLength(yoe: int): int {
    if IsLeapYear(yoe + 1) then 366 else 365
  }

  /** Days from 1970-01-01 to the given date.  The day may lie outside its
      month: the count is linear in it, as `mktime` treats an overflowing
      `tm_mday`. */
  function DaysFromCivil(y: int, m: int, d: int): int
    requires 1 <= m <= 12
  {
    var y' := if m <= 2 then y - 1 else y;
    var era := y' / 400;
    var yoe := y' % 400;
    era * DaysPerEra + YearStart(yoe) + DaysBeforeMarchMonth(MarchMonth(m)) + d - 1 - UnixEpochShift
  }

  /** The year of an era that contains its day `doe`: split into centuries,
      4-year groups and years, with the last (longer) piece of each level capped. */
  function YearOfEra(doe: int): (yoe: int)
    requires 0 <= doe < DaysPerEra
    ensures 0 <= yoe < 400
    ensures YearStart(yoe) <= doe < YearStart(yoe) + MarchYearLength(yoe)
  {
    var c := if doe / DaysPerCentury < 3 then doe / DaysPerCentury else 3;
    var doc := doe - DaysPerCentury * c;
    var q := doc / DaysPerFourYears;
    var doq := doc - DaysPerFourYears * q;
    var yq := if doq / 365 < 3 then doq / 365 else 3;
    var yoe := 100 * c + 4 * q + yq;
    assert YearStart(yoe) == DaysPerCentury * c + DaysPerFourYears * q + 365 * yq;
    LeapByParts(c, q, yq);
    yoe
  }

  /** The leap rule restated for a year written as `100 c + 4 q + yq + 1`. */
  lemma LeapByParts(c: int, q: int, yq: int)
    requires 0 <= c < 4 && 0 <= q < 25 && 0 <= yq < 4
    ensures IsLeapYear(100 * c + 4 * q + yq + 1) <==> yq == 3 && (q < 24 || c == 3)
  {
    var y := 100 * c + 4 * q + yq + 1;
    assert y % 4 == (yq + 1) % 4;
    if yq == 3 && q == 24 {
      assert y == 100 * (c + 1);
      assert y % 400 == 0 <==> c == 3;
    } else if yq == 3 {
      assert y % 100 != 0;
    }
  }

  /** The date of the day `z` days after 1970-01-01 (the inverse of DaysFromCivil). */
  function CivilFromDays(z: int): (dt: Date)
    ensures ValidDate(dt)
  {
    var z' := z + UnixEpochShift;
    DateOfEraDay(z' / DaysPerEra, z' % DaysPerEra)
  }

  /** The civil date of day `doe` of era `era`. */
  function DateOfEraDay(era: int, doe: int): (dt: Date)
    requires 0 <= doe < DaysPerEra
    ensures ValidDate(dt)
  {
    var yoe := YearOfEra(doe);
    DateInEra(era, yoe, doe - YearStart(yoe))
  }

  /** The civil month (1 = January) of a March-based month index. */
  function CivilMonth(mp: int): (m: int)
    requires 0 <= mp < 12
    ensures 1 <= m <= 12 && MarchMonth(m) == mp
  {
    if mp < 10 then mp + 3 else mp - 9
  }

  /** The civil date of day `doy` of the March-based year `yoe` of era `era`. */
  function DateInEra(era: int, yoe: int, doy: int): (dt: Date)
    requires 0 <= yoe < 400
    requires 0 <= doy < MarchYearLength(yoe)
    ensures ValidDate(dt)
  {
    var mp := MonthOfMarchYear(doy, yoe);
    var m := CivilMonth(mp);
    MarchMonthLengthIsDaysInMonth(mp, era, yoe);
    Date(era * 400 + yoe + (if m <= 2 then 1 else 0), m, doy - DaysBeforeMarchMonth(mp) + 1)
  }

  /** The March-based month holding day `doy` of the March-based year `yoe`,
      with the day falling inside that month's length. */
  function MonthOfMarchYear(doy: int, yoe: int): (mp: int)
    requires 0 <= doy < MarchYearLength(yoe)
    ensures 0 <= mp < 12
    ensures DaysBeforeMarchMonth(mp) <= doy
    ensures doy - DaysBeforeMarchMonth(mp) < MarchMonthLength(mp, yoe)
  {
    (5 * doy + 2) / 153
  }

  /** Length of March-based month `mp` in March-based year `yoe`. */
  function MarchMonthLength(mp: int, yoe: int): int
    requires 0 <= mp < 12
  {
    if mp == 11 then (if IsLeapYear(yoe + 1) then 29 else 28)
    else DaysBeforeMarchMonth(mp + 1) - DaysBeforeMarchMonth(mp)
  }

  /** The leap rule repeats every 400 years. */
  lemma LeapEraShift(era: int, k: int)
    ensures IsLeapYear(era * 400 + k) <==> IsLeapYear(k)
  {
    Arith.ModShift(era * 100, k, 4);
    Arith.ModShift(era * 4, k, 100);
    Arith.ModShift(era, k, 400);
  }

  lemma MarchMonthLengthIsDaysInMonth(mp: int, era: int, yoe: int)
    requires 0 <= mp < 12
    ensures var m := CivilMonth(mp);
            MarchMonthLength(mp, yoe) == DaysInMonth(era * 400 + yoe + (if m <= 2 then 1 else 0), m)
  {
    if mp == 11 {
      LeapEraShift(era, yoe + 1);
    }
  }

  lemma DaysFromCivilFromDays(z: int)
    ensures var dt := CivilFromDays(z); DaysFromCivil(dt.year, dt.month, dt.day) == z
  {
    var z' := z + UnixEpochShift;
    var era := z' / DaysPerEra;
    var doe := z' % DaysPerEra;
    assert CivilFromDays(z) == DateOfEraDay(era, doe);
    DaysFromEraDay(era, doe);
    assert z' == DaysPerEra * era + doe;
  }

  lemma DaysFromEraDay(era: int, doe: int)
    requires 0 <= doe < DaysPerEra
    ensures var dt := DateOfEraDay(era, doe);
            DaysFromCivil(dt.year, dt.month, dt.day) == era * DaysPerEra + doe - UnixEpochShift
  {
    var yoe := YearOfEra(doe);
    DaysFromDateInEra(era, yoe, doe - YearStart(yoe));
  }

  lemma DaysFromDateInEra(era: int, yoe: int, doy: int)
    requires 0 <= yoe < 400
    requires 0 <= doy < MarchYearLength(yoe)
    ensures var dt := DateInEra(era, yoe, doy);
            DaysFromCivil(dt.year, dt.month, dt.day) == era * DaysPerEra + YearStart(yoe) + doy - UnixEpochShift
  {
    var mp := MonthOfMarchYear(doy, yoe);
    var m := CivilMonth(mp);
    var dt := DateInEra(era, yoe, doy);
    assert dt.month == m && dt.day == doy - DaysBeforeMarchMonth(mp) + 1;
    var y' := if m <= 2 then dt.year - 1 else dt.year;
    assert y' == 400 * era + yoe;
    Arith.DivModUnique(y', 400, era, yoe);
  }

  lemma CivilFromDaysFromCivil(dt: Date)
    requires ValidDate(dt)
    ensures CivilFromDays(DaysFromCivil(dt.year, dt.month, dt.day)) == dt
  {
    var y' := MarchYear(dt);
    var era := y' / 400;
    var yoe := y' % 400;
    var doy := DaysBeforeMarchMonth(MarchMonth(dt.month)) + dt.day - 1;
    var z := DaysFromCivil(dt.year, dt.month, dt.day);
    EraDayOfDate(dt);
    assert CivilFromDays(z) == DateOfEraDay(era, YearStart(yoe) + doy);
    DateInEraOfDate(dt, era, yoe);
    YearStartBounds(yoe);
    EraDayOfYearDay(era, yoe, doy);
  }

  /** The year a date belongs to when years begin on 1 March. */
  function MarchYear(dt: Date): int
    requires 1 <= dt.month <= 12
  {
    if dt.month <= 2 then dt.year - 1 else dt.year
  }

  /** The era of a valid date and its day within the era. */
  lemma EraDayOfDate(dt: Date)
    requires ValidDate(dt)
    ensures var y' := MarchYear(dt);
            var z' := DaysFromCivil(dt.year, dt.month, dt.day) + UnixEpochShift;
            var doe := YearStart(y' % 400) + DaysBeforeMarchMonth(MarchMonth(dt.month)) + dt.day - 1;
            z' / DaysPerEra == y' / 400 && z' % DaysPerEra == doe
  {
    var y' := MarchYear(dt);
    var era := y' / 400;
    var yoe := y' % 400;
    var doy := DaysBeforeMarchMonth(MarchMonth(dt.month)) + dt.day - 1;
    DateInEraOfDate(dt, era, yoe);
    YearStartBounds(yoe);
    DaysFromCivilParts(dt.year, dt.month, dt.day);
    Arith.DivModUnique(DaysFromCivil(dt.year, dt.month, dt.day) + UnixEpochShift, DaysPerEra, era, YearStart(yoe) + doy);
  }

  /** DaysFromCivil counts whole eras, then years of the era, then days of the year. */
  lemma DaysFromCivilParts(y: int, m: int, d: int)
    requires 1 <= m <= 12
    ensures var y' := if m <= 2 then y - 1 else y;
            DaysFromCivil(y, m, d) + UnixEpochShift
            == DaysPerEra * (y' / 400) + YearStart(y' % 400) + DaysBeforeMarchMonth(MarchMonth(m)) + d - 1
  {
  }

  /** A valid date is day `doy` of its March-based year `yoe` of era `era`. */
  lemma DateInEraOfDate(dt: Date, era: int, yoe: int)
    requires ValidDate(dt)
    requires era == MarchYear(dt) / 400 && yoe == MarchYear(dt) % 400
    ensures var doy := DaysBeforeMarchMonth(MarchMonth(dt.month)) + dt.day - 1;
            0 <= doy < MarchYearLength(yoe) && DateInEra(era, yoe, doy) == dt
  {
    var mp := MarchMonth(dt.month);
    assert CivilMonth(mp) == dt.month;
    var doy := DaysBeforeMarchMonth(mp) + dt.day - 1;
    MarchMonthLengthIsDaysInMonth(mp, era, yoe);
    MarchMonthFits(mp, yoe);
    MonthOfMarchYearUnique(doy, yoe, mp);
  }

  /** Locating day `YearStart(yoe) + doy` of an era finds year `yoe` and day `doy`. */
  lemma EraDayOfYearDay(era: int, yoe: int, doy: int)
    requires 0 <= yoe < 400 && 0 <= doy < MarchYearLength(yoe)
    requires YearStart(yoe) + doy < DaysPerEra
    ensures DateOfEraDay(era, YearStart(yoe) + doy) == DateInEra(era, yoe, doy)
  {
    YearOfEraUnique(YearStart(yoe) + doy, yoe);
  }

  /** The months of a March-based year tile it without gaps. */
  lemma MarchMonthFits(mp: int, yoe: int)
    requires 0 <= mp < 12
    ensures DaysBeforeMarchMonth(mp) + MarchMonthLength(mp, yoe) <= MarchYearLength(yoe)
  {
  }

  lemma YearStartBounds(yoe: int)
    requires 0 <= yoe < 400
    ensures 0 <= YearStart(yoe)
    ensures YearStart(yoe) + MarchYearLength(yoe) <= DaysPerEra
  {
    var c := yoe / 100;
    var q := (yoe % 100) / 4;
    var yq := yoe % 4;
    assert yoe == 100 * c + 4 * q + yq;
    LeapByParts(c, q, yq);
  }

  /** Year starts are strictly increasing, so the year containing a day is unique. */
  lemma YearStartStep(k: int)
    requires 0 <= k
    ensures YearStart(k + 1) == YearStart(k) + MarchYearLength(k) || (k + 1) % 400 == 0
  {
    if (k + 1) % 400 != 0 {
      var y := k + 1;
      assert (k + 1) / 4 == k / 4 + (if y % 4 == 0 then 1 else 0);
      assert (k + 1) / 100 == k / 100 + (if y % 100 == 0 then 1 else 0);
    }
  }

  lemma {:induction false} YearStartMonotone(i: int, j: int)
    requires 0 <= i <= j < 400
    ensures YearStart(i) + (j - i) * 365 <= YearStart(j)
    ensures i < j ==> YearStart(i) + MarchYearLength(i) <= YearStart(j)
    decreases j - i
  {
    if i < j {
      YearStartStep(i);
      YearStartMonotone(i + 1, j);
    }
  }

  lemma YearOfEraUnique(doe: int, yoe: int)
    requires 0 <= yoe < 400
    requires YearStart(yoe) <= doe < YearStart(yoe) + MarchYearLength(yoe)
    requires doe < DaysPerEra
    ensures YearOfEra(doe) == yoe
  {
    var k := YearOfEra(doe);
    if k < yoe {
      YearStartMonotone(k, yoe);
    } else if yoe < k {
      YearStartMonotone(yoe, k);
    }
  }

  lemma MonthOfMarchYearUnique(doy: int, yoe: int, mp: int)
    requires 0 <= mp < 12
    requires 0 <= doy < MarchYearLength(yoe)
    requires DaysBeforeMarchMonth(mp) <= doy < DaysBeforeMarchMonth(mp) + MarchMonthLength(mp, yoe)
    ensures MonthOfMarchYear(doy, yoe) == mp
  {
  }

  /** Day of the week (Sunday = 0) of the day `z` days after 1970-01-01. */
  function Weekday(z: int): (w: int)
    ensures 0 <= w < 7
  {
    (z + EpochWeekday) % 7
  }

  /** The broken-down time of the C library, with its field conventions:
      `year` counts from 1900, `mon` is 0-based, `wday` is 0 for Sunday. */
  datatype Tm = Tm(year: int, mon: int, mday: int, wday: int, hour: int, min: int, sec: int)

  /** Every field in the range `gmtime` produces (the weekday excepted). */
  predicate Normalised(tm: Tm) {
    && 0 <= tm.mon < 12
    && 1 <= tm.mday <= DaysInMonth(tm.year + TmYearBase, tm.mon + 1)
    && 0 <= tm.hour < 24
    && 0 <= tm.min < 60
    && 0 <= tm.sec < 60
  }

  /** The day number (days since 1970-01-01) of a broken-down time's date,
      carrying an out-of-range month into the year and an out-of-range day of
      the month into the following or preceding months. */
  function DayNumber(tm: Tm): int {
    DaysFromCivil(TmYearBase + tm.year + tm.mon / 12, tm.mon % 12 + 1, 1) + tm.mday - 1
  }

  /** `mktime` with the local zone taken as UTC (that is, `timegm`): seconds
      since 1970-01-01 of the broken-down time, out-of-range hours, minutes
      and seconds carried into the next larger unit.  The weekday is ignored. */
  function TimeGm(tm: Tm): int {
    DayNumber(tm) * SecondsPerDay + tm.hour * SecondsPerHour + tm.min * SecondsPerMinute + tm.sec
  }

  /** `mktime` does not read the weekday. */
  lemma TimeGmIgnoresWday(tm: Tm, w: int)
    ensures TimeGm(tm.(wday := w)) == TimeGm(tm)
  {
    assert DayNumber(tm.(wday := w)) == DayNumber(tm);
  }

  /** A second of the day splits into hour, minute and second. */
  lemma SplitDaySeconds(rem: int)
    requires 0 <= rem < SecondsPerDay
    ensures 0 <= rem / SecondsPerHour < 24
    ensures 0 <= rem % SecondsPerHour / SecondsPerMinute < 60
    ensures rem == rem / SecondsPerHour * SecondsPerHour
                   + rem % SecondsPerHour / SecondsPerMinute * SecondsPerMinute
                   + rem % SecondsPerMinute
  {
    var h := rem / SecondsPerHour;
    var r := rem % SecondsPerHour;
    var m := r / SecondsPerMinute;
    Arith.DivModUnique(rem, SecondsPerMinute, h * 60 + m, r % SecondsPerMinute);
  }

  /** The day number of a valid date, written with 0-based month and 1900-based year. */
  lemma DayNumberOfDate(dt: Date, wday: int, hour: int, min: int, sec: int)
    requires ValidDate(dt)
    ensures DayNumber(Tm(dt.year - TmYearBase, dt.month - 1, dt.day, wday, hour, min, sec))
            == DaysFromCivil(dt.year, dt.month, dt.day)
  {
    Arith.DivModUnique(dt.month - 1, 12, 0, dt.month - 1);
  }

  /** The broken-down time of second `rem` of the date `dt`. */
  function BrokenDown(dt: Date, wday: int, rem: int): Tm {
    Tm(dt.year - TmYearBase, dt.month - 1, dt.day, wday,
       rem / SecondsPerHour, rem % SecondsPerHour / SecondsPerMinute, rem % SecondsPerMinute)
  }

  /** Hour, minute and second are recovered from the second of the day they make up. */
  lemma BrokenDownHms(dt: Date, wday: int, hour: int, min: int, sec: int)
    requires 0 <= hour < 24 && 0 <= min < 60 && 0 <= sec < 60
    ensures BrokenDown(dt, wday, hour * SecondsPerHour + min * SecondsPerMinute + sec)
            == Tm(dt.year - TmYearBase, dt.month - 1, dt.day, wday, hour, min, sec)
  {
    var rem := hour * SecondsPerHour + min * SecondsPerMinute + sec;
    Arith.DivModUnique(rem, SecondsPerHour, hour, min * SecondsPerMinute + sec);
    Arith.DivModUnique(min * SecondsPerMinute + sec, SecondsPerMinute, min, sec);
    Arith.ModShift(hour * 60 + min, sec, SecondsPerMinute);
  }

  /** `gmtime`: the broken-down UTC time of `t` seconds since 1970-01-01.
      Reading it back with `mktime` gives `t` again. */
  function GmTime(t: int): (tm: Tm)
    ensures Normalised(tm)
    ensures 0 <= tm.wday < 7 && tm.wday == Weekday(DayNumber(tm))
    ensures TimeGm(tm) == t
  {
    var days := t / SecondsPerDay;
    var rem := t % SecondsPerDay;
    var dt := CivilFromDays(days);
    var tm := BrokenDown(dt, Weekday(days), rem);
    DaysFromCivilFromDays(days);
    DayNumberOfDate(dt, tm.wday, tm.hour, tm.min, tm.sec);
    SplitDaySeconds(rem);
    tm
  }

  /** For a normalised broken-down time, `gmtime(timegm(tm))` gives back every
      field, with the weekday replaced by the true one of its date. */
  lemma GmTimeTimeGm(tm: Tm)
    requires Normalised(tm)
    ensures GmTime(TimeGm(tm)) == tm.(wday := Weekday(DayNumber(tm)))
  {
    var dt := Date(TmYearBase + tm.year, tm.mon + 1, tm.mday);
    var t := TimeGm(tm);
    var days := DayNumber(tm);
    var rem := tm.hour * SecondsPerHour + tm.min * SecondsPerMinute + tm.sec;
    Arith.DivModUnique(t, SecondsPerDay, days, rem);
    assert GmTime(t) == BrokenDown(CivilFromDays(days), Weekday(days), rem);
    DayNumberOfDate(dt, tm.wday, tm.hour, tm.min, tm.sec);
    CivilFromDaysFromCivil(dt);
    BrokenDownHms(dt, Weekday(days), tm.hour, tm.min, tm.sec);
  }
}
