/** Instants and calendar days. An instant is a whole number of minutes since
    midnight of 1 January 1970 on the shop's local clock; a day is the number of
    whole days since that midnight. This replaces `Date`, `isSameDay`, `getDay`,
    `addDays`, `getFullYear`, `getMonth` and `getDate`. */
module Calendar {

  const MinutesPerDay: int := 1440

  /** The calendar day an instant falls on. */
  function DayOf(t: int): int
  {
    t / MinutesPerDay
  }

  /** `getHours() * 60 + getMinutes()`: minutes since that day's midnight. */
  function MinuteOfDay(t: int): (m: nat)
    ensures m < MinutesPerDay
    ensures t == DayOf(t) * MinutesPerDay + m
  {
    t % MinutesPerDay
  }

  /** The first instant of a day (a date picked in a calendar widget). */
  function Midnight(day: int): (t: int)
    ensures DayOf(t) == day && MinuteOfDay(t) == 0
  {
    day * MinutesPerDay
  }

  /** An instant between two midnights falls on the earlier day. */
  lemma DayOfBetween(t: int, day: int)
    requires Midnight(day) <= t < Midnight(day + 1)
    ensures DayOf(t) == day
  {
    var m := t - Midnight(day);
    assert t == day * MinutesPerDay + m && 0 <= m < MinutesPerDay;
  }

  /** `getDay()`: 0 is Sunday; day 0 (1 January 1970) was a Thursday. */
  function Weekday(day: int): (w: nat)
    ensures w < 7
  {
    (day + 4) % 7
  }

  /** `Math.ceil(m / 30) * 30`: the first half-hour boundary at or after `m`. */
  function CeilToHalfHour(m: int): (r: int)
    ensures r % 30 == 0 && m <= r < m + 30
  {
    ((m + 29) / 30) * 30
  }

  /** Year, month (1 to 12) and day of the month. */
  datatype CivilDate = CivilDate(year: int, month: int, dayOfMonth: int)

  /** The proleptic Gregorian date of a day number (H. Hinnant's `civil_from_days`). */
  function CivilFromDays(day: int): CivilDate
  {
    var z := day + 719468;
    var era := z / 146097;
    CivilOfEra(era, z - era * 146097)
  }

  /** The date on day `doe` of 400-year era `era`, counted from 1 March of its first year. */
  function CivilOfEra(era: int, doe: int): CivilDate
  {
    var yoe := (doe - doe / 1460 + doe / 36524 - doe / 146096) / 365;
    var doy := doe - (365 * yoe + yoe / 4 - yoe / 100);
    var mp := (5 * doy + 2) / 153;
    var d := doy - (153 * mp + 2) / 5 + 1;
    var m := if mp < 10 then mp + 3 else mp - 9;
    CivilDate(if m <= 2 then yoe + era * 400 + 1 else yoe + era * 400, m, d)
  }

  /** The day number of a proleptic Gregorian date (H. Hinnant's `days_from_civil`). */
  function DaysFromCivil(date: CivilDate): int
  {
    var y := if date.month <= 2 then date.year - 1 else date.year;
    var era := y / 400;
    var yoe := y - era * 400;
    var mp := if date.month > 2 then date.month - 3 else date.month + 9;
    var doy := (153 * mp + 2) / 5 + date.dayOfMonth - 1;
    var doe := yoe * 365 + yoe / 4 - yoe / 100 + doy;
    era * 146097 + doe - 719468
  }

  predicate IsLeapYear(year: int)
  {
    year % 4 == 0 && (year % 100 != 0 || year % 400 == 0)
  }

  function DaysInMonth(year: int, month: int): (n: int)
    ensures 28 <= n <= 31
  {
    if month == 2 then (if IsLeapYear(year) then 29 else 28)
    else if month == 4 || month == 6 || month == 9 || month == 11 then 30
    else 31
  }

  /** A date that exists in the proleptic Gregorian calendar. */
  predicate ValidDate(date: CivilDate)
  {
    1 <= date.month <= 12 && 1 <= date.dayOfMonth <= DaysInMonth(date.year, date.month)
  }

  /** Every real date survives the trip to a day number and back, so `DaysFromCivil`
      gives distinct dates distinct days. */
  lemma CivilRoundTrip(date: CivilDate)
    requires ValidDate(date)
    ensures CivilFromDays(DaysFromCivil(date)) == date
  {
    var y := if date.month <= 2 then date.year - 1 else date.year;
    var era, c, b, a := EraParts(y);
    DayOfYearInEra(date, era, c, b, a);
    var doe := EraDayOf(date, era, c, b, a);
    CivilOfEraDay(DaysFromCivil(date), era, doe);
  }

  /** Where a date lies: day `doe` of 400-year era `era`, from which `CivilOfEra` gives
      the date back, given how its year splits within the era and what `DayOfYearInEra`
      says of its day of the March-based year. */
  lemma EraDayOf(date: CivilDate, era: int, c: int, b: int, a: int) returns (doe: int)
    requires 1 <= date.month <= 12
    requires 0 <= c < 4 && 0 <= b < 25 && 0 <= a < 4
    requires (if date.month <= 2 then date.year - 1 else date.year) == 400 * era + 100 * c + 4 * b + a
    requires var mp := if date.month > 2 then date.month - 3 else date.month + 9;
             var doy := (153 * mp + 2) / 5 + date.dayOfMonth - 1;
             (5 * doy + 2) / 153 == mp && doy - (153 * mp + 2) / 5 + 1 == date.dayOfMonth
             && (0 <= doy <= 364 || (doy == 365 && a == 3 && (b != 24 || c == 3)))
    ensures DaysFromCivil(date) + 719468 == era * 146097 + doe && 0 <= doe < 146097
    ensures CivilOfEra(era, doe) == date
  {
    var y := if date.month <= 2 then date.year - 1 else date.year;
    var yoe := y - era * 400;
    var mp := if date.month > 2 then date.month - 3 else date.month + 9;
    var doy := (153 * mp + 2) / 5 + date.dayOfMonth - 1;
    YearOfEra(yoe, c, b, a, doy);
    doe := yoe * 365 + yoe / 4 - yoe / 100 + doy;
    DaysFromCivilInEra(date, era);
    FromEraParts(era, yoe, doy, mp, date);
  }

  /** `days_from_civil` of a date whose March-based year lies in era `era`. */
  lemma DaysFromCivilInEra(date: CivilDate, era: int)
    requires var y := if date.month <= 2 then date.year - 1 else date.year;
             400 * era <= y < 400 * era + 400
    ensures var y := if date.month <= 2 then date.year - 1 else date.year;
            var yoe := y - era * 400;
            var mp := if date.month > 2 then date.month - 3 else date.month + 9;
            var doy := (153 * mp + 2) / 5 + date.dayOfMonth - 1;
            DaysFromCivil(date) + 719468 == era * 146097 + (yoe * 365 + yoe / 4 - yoe / 100 + doy)
  {
    DivBy(if date.month <= 2 then date.year - 1 else date.year, 400, era);
  }

  /** The day of the March-based year of a real date: it gives back the month and the
      day of the month, and reaches 365 only on a leap day. */
  lemma DayOfYearInEra(date: CivilDate, era: int, c: int, b: int, a: int)
    requires ValidDate(date)
    requires 0 <= c < 4 && 0 <= b < 25 && 0 <= a < 4
    requires (if date.month <= 2 then date.year - 1 else date.year) == 400 * era + 100 * c + 4 * b + a
    ensures var mp := if date.month > 2 then date.month - 3 else date.month + 9;
            var doy := (153 * mp + 2) / 5 + date.dayOfMonth - 1;
            (5 * doy + 2) / 153 == mp && doy - (153 * mp + 2) / 5 + 1 == date.dayOfMonth
            && (0 <= doy <= 364 || (doy == 365 && a == 3 && (b != 24 || c == 3)))
  {
    var mp := if date.month > 2 then date.month - 3 else date.month + 9;
    MonthOfDayOfYear(mp, date.dayOfMonth, IsLeapYear(date.year));
    if (153 * mp + 2) / 5 + date.dayOfMonth - 1 == 365 {
      LeapYearOfEra(date.year, era, c, b, a);
    }
  }

  /** A day number that lies on day `doe` of era `era` is read within that era. */
  lemma CivilOfEraDay(day: int, era: int, doe: int)
    requires 0 <= doe < 146097 && day + 719468 == era * 146097 + doe
    ensures CivilFromDays(day) == CivilOfEra(era, doe)
  {
    DivBy(day + 719468, 146097, era);
  }

  /** A year as era, century of the era, four-year group of the century and year of the
      group: `y == 400 * era + 100 * c + 4 * b + a`. */
  lemma EraParts(y: int) returns (era: int, c: int, b: int, a: int)
    ensures y / 400 == era && y == 400 * era + 100 * c + 4 * b + a
    ensures 0 <= c < 4 && 0 <= b < 25 && 0 <= a < 4
  {
    era := y / 400;
    var yoe := y - 400 * era;
    c := yoe / 100;
    b := (yoe - 100 * c) / 4;
    a := yoe - 100 * c - 4 * b;
  }

  /** The year after year `100 * c + 4 * b + a` of an era is a leap year exactly when it
      ends a four-year group, unless it ends a century other than the era's last. */
  lemma LeapYearOfEra(year: int, era: int, c: int, b: int, a: int)
    requires 0 <= c < 4 && 0 <= b < 25 && 0 <= a < 4
    requires year == 400 * era + 100 * c + 4 * b + a + 1
    ensures IsLeapYear(year) <==> a == 3 && (b != 24 || c == 3)
  {
    if a == 3 {
      ModBy(year, 4, 100 * era + 25 * c + b + 1, 0);
      if b == 24 {
        ModBy(year, 100, 4 * era + c + 1, 0);
        if c == 3 {
          ModBy(year, 400, era + 1, 0);
        } else {
          ModBy(year, 400, era, 100 * c + 100);
        }
      } else {
        ModBy(year, 100, 4 * era + c, 4 * b + 4);
      }
    } else {
      ModBy(year, 4, 100 * era + 25 * c + b, a + 1);
    }
  }

  /** `civil_from_days` within an era gives back `date` from its year `yoe` of the era,
      its month `mp` counted from March and its day `doy` of the March-based year, once
      `YearOfEra` has placed the day inside the era. */
  lemma FromEraParts(era: int, yoe: int, doy: int, mp: int, date: CivilDate)
    requires 0 <= yoe < 400 && 0 <= doy <= 365 && 1 <= date.month <= 12
    requires var doe := yoe * 365 + yoe / 4 - yoe / 100 + doy;
             (doe - doe / 1460 + doe / 36524 - doe / 146096) / 365 == yoe
    requires (if date.month <= 2 then date.year - 1 else date.year) == era * 400 + yoe
    requires mp == (if date.month > 2 then date.month - 3 else date.month + 9)
    requires (5 * doy + 2) / 153 == mp && doy - (153 * mp + 2) / 5 + 1 == date.dayOfMonth
    ensures CivilOfEra(era, yoe * 365 + yoe / 4 - yoe / 100 + doy) == date
  {
  }

  /** The day of the March-based year of month `mp` (0 is March) and day `d` gives back
      that month; only 29 February, in a leap year, reaches day 365. */
  lemma MonthOfDayOfYear(mp: int, d: int, leap: bool)
    requires 0 <= mp < 12
    requires 1 <= d <= (if mp == 11 then (if leap then 29 else 28)
                        else if mp == 1 || mp == 3 || mp == 6 || mp == 8 then 30 else 31)
    ensures var doy := (153 * mp + 2) / 5 + d - 1;
            0 <= doy && (doy <= 364 || (leap && mp == 11 && doy == 365))
            && (5 * doy + 2) / 153 == mp
  {
  }

  /** Year `yoe == 100 * c + 4 * b + a` of a 400-year era and day `doy` of its March-based year
      give back that year through `civil_from_days`' leap-day corrections; day 365
      exists only when the following January falls in a leap year. */
  lemma YearOfEra(yoe: int, c: int, b: int, a: int, doy: int)
    requires 0 <= c < 4 && 0 <= b < 25 && 0 <= a < 4 && yoe == 100 * c + 4 * b + a
    requires 0 <= doy <= 364 || (doy == 365 && a == 3 && (b != 24 || c == 3))
    ensures var doe := yoe * 365 + yoe / 4 - yoe / 100 + doy;
            0 <= doe < 146097 && (doe - doe / 1460 + doe / 36524 - doe / 146096) / 365 == yoe
  {
    DivBy(yoe, 4, 25 * c + b);
    DivBy(yoe, 100, c);
    YearOfEraDay(yoe * 365 + yoe / 4 - yoe / 100 + doy, c, b, a, doy);
  }

  /** `YearOfEra` once the day of the era is written out by centuries, four-year groups
      and years: only the era's very last day, 29 February of its 400th year, needs the
      last two corrections. */
  lemma YearOfEraDay(doe: int, c: int, b: int, a: int, doy: int)
    requires 0 <= c < 4 && 0 <= b < 25 && 0 <= a < 4
    requires 0 <= doy <= 364 || (doy == 365 && a == 3 && (b != 24 || c == 3))
    requires doe == 36524 * c + 1461 * b + 365 * a + doy
    ensures 0 <= doe < 146097 && (doe - doe / 1460 + doe / 36524 - doe / 146096) / 365 == 100 * c + 4 * b + a
  {
    if c == 3 && b == 24 && a == 3 && doy == 365 {
      DivBy(doe, 1460, 100);
      DivBy(doe, 36524, 4);
      DivBy(doe, 146096, 1);
      DivBy(doe - 100 + 4 - 1, 365, 399);
    } else {
      var late := if 24 * c + b + 365 * a + doy < 1460 then 0 else 1;
      DivBy(doe, 1460, 25 * c + b + late);
      DivBy(doe, 36524, c);
      DivBy(doe, 146096, 0);
      DivBy(doe - (25 * c + b + late) + c, 365, 100 * c + 4 * b + a);
    }
  }

  /** Euclidean division by one of the calendar algorithms' divisors: `q` is the quotient
      of `x` when `x` lies in `[n * q, n * q + n)`. */
  lemma DivBy(x: int, n: int, q: int)
    requires n == 4 || n == 100 || n == 365 || n == 400 || n == 1460 || n == 36524 || n == 146096 || n == 146097
    requires n * q <= x < n * q + n
    ensures x / n == q
  {
    if n == 4 {} else if n == 100 {} else if n == 365 {} else if n == 400 {} else if n == 1460 {}
    else if n == 36524 {} else if n == 146096 {} else {}
  }

  /** The remainder of `x == n * q + r` by one of the leap-year divisors is `r`. */
  lemma ModBy(x: int, n: int, q: int, r: int)
    requires n == 4 || n == 100 || n == 400
    requires x == n * q + r && 0 <= r < n
    ensures x % n == r
  {
    if n == 4 {} else if n == 100 {} else {}
  }

  /** `new Date(2025, 3, 2)`: the first day on which bookings are taken. */
  const MinBookingDay: int := 20180

  lemma MinBookingDayIsSecondOfApril2025()
    ensures CivilFromDays(MinBookingDay) == CivilDate(2025, 4, 2)
  {
    // z = 739648 lies in era 5 at day 9163 of the era, year 25 of the era, day 32 of
    // the March-based year, which is 2 April.
    assert 739648 / 146097 == 5;
    assert 9163 / 1460 == 6 && 9163 / 36524 == 0 && 9163 / 146096 == 0;
    assert 9157 / 365 == 25;
    assert 25 / 4 == 6 && 25 / 100 == 0;
    assert 162 / 153 == 1 && 155 / 5 == 31;
  }

  lemma MinBookingDayFromCivil()
    ensures DaysFromCivil(CivilDate(2025, 4, 2)) == MinBookingDay
  {
    assert 2025 / 400 == 5 && 155 / 5 == 31;
    assert 25 / 4 == 6 && 25 / 100 == 0;
  }
}
