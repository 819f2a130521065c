/** The booking window: customers may book from the later of now and 2 April 2025 up to
    seven days after that, never on a Sunday, and not at all while they already hold
    three upcoming appointments. Instants are minutes since the local epoch; the
    calendar hands over days as their local midnight. */
module BookingDates {
  import opened Calendar

  /** `new Date(2025, 3, 2)`: local midnight of 2 April 2025. */
  const MinBookingInstant: int := MinBookingDay * MinutesPerDay
  const Week: int := 7 * MinutesPerDay
  const MaxUpcoming: nat := 3

  /** `isAfter(today, minBookingDate) ? today : minBookingDate`. */
  function StartDate(now: int): (s: int)
    ensures s >= now && s >= MinBookingInstant
    ensures s == now || s == MinBookingInstant
  {
    if now > MinBookingInstant then now else MinBookingInstant
  }

  /** `addDays(startDate, 7)`: the same clock time seven days later. */
  function EndDate(now: int): (e: int)
    ensures DayOf(e) == DayOf(StartDate(now)) + 7
    ensures MinuteOfDay(e) == MinuteOfDay(StartDate(now))
  {
    var s := StartDate(now);
    assert s + Week == (DayOf(s) + 7) * MinutesPerDay + MinuteOfDay(s);
    s + Week
  }

  /** The month the calendar opens on: April 1 of this year when today is in March,
      otherwise today. */
  function DefaultMonth(now: int): (d: int)
    ensures CivilFromDays(DayOf(now)).month != 3 ==> d == now
    ensures CivilFromDays(DayOf(now)).month == 3 ==>
              MinuteOfDay(d) == 0 && CivilFromDays(DayOf(d)) == CivilDate(CivilFromDays(DayOf(now)).year, 4, 1)
  {
    var today := CivilFromDays(DayOf(now));
    if today.month == 3 then
      CivilRoundTrip(CivilDate(today.year, 4, 1));
      Midnight(DaysFromCivil(CivilDate(today.year, 4, 1)))
    else now
  }

  /** `disabledDays(date)` for the day `day`, given how many upcoming appointments the
      user holds. */
  predicate Disabled(day: int, now: int, upcoming: nat)
  {
    Weekday(day) == 0
    || Midnight(day) < StartDate(now)
    || Midnight(day) > EndDate(now)
    || upcoming >= MaxUpcoming
  }

  /** After launch the bookable days are the next seven days that are not Sundays.
      Because the window starts at the current instant rather than at midnight, today
      itself is bookable only at the stroke of midnight. */
  lemma EnabledDaysAfterLaunch(day: int, now: int, upcoming: nat)
    requires now > MinBookingInstant
    ensures !Disabled(day, now, upcoming) <==>
              Weekday(day) != 0 && upcoming < MaxUpcoming && day <= DayOf(now) + 7
              && (DayOf(now) < day || (day == DayOf(now) && MinuteOfDay(now) == 0))
  {
    var m := MinuteOfDay(now);
    assert now == DayOf(now) * MinutesPerDay + m;
    assert Midnight(day) == day * MinutesPerDay;
  }

  /** Before launch the bookable days are 2 to 9 April 2025, Sundays excepted. */
  lemma EnabledDaysBeforeLaunch(day: int, now: int, upcoming: nat)
    requires now <= MinBookingInstant
    ensures !Disabled(day, now, upcoming) <==>
              Weekday(day) != 0 && upcoming < MaxUpcoming && MinBookingDay <= day <= MinBookingDay + 7
  {
    assert Midnight(day) == day * MinutesPerDay;
  }

  /** 2 April 2025 is a Wednesday, so the first window is 2 to 9 April without Sunday 6 April. */
  lemma FirstWindow()
    ensures Weekday(MinBookingDay) == 3
    ensures Weekday(MinBookingDay + 4) == 0
  {
  }
}
