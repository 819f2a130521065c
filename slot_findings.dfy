/** Concrete days on which the allocator as written offers starts it should not, next
    to the corrected allocator's guarantees. Day 20180 is 2 April 2025. */
module SlotFindings {
  import opened Calendar
  import opened BookingDates
  import opened Sequences
  import opened ServiceCatalog
  import opened SlotAllocator

  /** An ordinary day with no bookings offers the 20 starts 08:30, 09:00, ..., 18:00. */
  lemma EmptyDayOffersTwentySlots(date: int, now: int)
    requires date != DayOf(now) && !SameMonthSevenAhead(date, now)
    ensures var slots := DaySlots(date, now, []);
            |slots| == 20 && slots[0] == BusinessStart && slots[19] == 1080
            && forall k :: 0 <= k < 20 ==> slots[k] == BusinessStart + 30 * k
  {
    assert ForDay([], date) == [];
    assert Bookings([]) == [];
    GapSlotsShape(BusinessStart, BusinessEnd);
  }

  /** 14:05 on 2 April 2025, with a 30-minute booking at 09:00 that morning. */
  const TodayNow: int := 20180 * 1440 + 845
  const MorningBooking: Appointment := Appointment(20180 * 1440 + 540, Num(5))

  lemma TodayBoundsAfterLunch()
    ensures DayBounds(20180, TodayNow) == DayWindow(870, BusinessEnd)
  {
    assert DayOf(TodayNow) == 20180;
    assert MinuteOfDay(TodayNow) == 845;
    assert CeilToHalfHour(845) == 870;
  }

  /** The cursor jumps back to 09:30 when the 09:00 booking ends, so the afternoon
      view of today offers 09:30 again, hours in the past. */
  lemma PastSlotsReappearToday()
    ensures DayBounds(20180, TodayNow).startOfDay == 870
    ensures 570 in DaySlots(20180, TodayNow, [MorningBooking])
    ensures 570 < MinuteOfDay(TodayNow)
  {
    TodayBoundsAfterLunch();
    var bs := MorningBookings();
    MorningWalk(bs);
  }

  /** From 14:30 the walk meets the 09:00 booking first and restarts at its end, 09:30. */
  lemma MorningWalk(bs: seq<Booking>)
    requires bs == [Booking(540, 30)]
    ensures 570 in Walk(870, bs, BusinessEnd)
  {
    assert GapSlots(870, 540) == [];
    assert Walk(870, bs, BusinessEnd) == GapSlots(570, BusinessEnd);
    assert GapSlots(570, BusinessEnd)[0] == 570;
  }

  lemma MorningBookings() returns (bs: seq<Booking>)
    ensures bs == SortBy(Bookings(ForDay([MorningBooking], 20180)), StartOf)
    ensures bs == [Booking(540, 30)]
  {
    var appts := [MorningBooking];
    assert DayOf(MorningBooking.time) == 20180;
    assert ForDay(appts, 20180) == appts;
    assert MinuteOfDay(MorningBooking.time) == 540;
    assert Duration(Num(5)) == 30;
    bs := Bookings(appts);
    assert bs == [Booking(540, 30)];
  }

  /** 09:15 on Monday 14 April 2025; the cutoff day is Monday 21 April, with a 16:00
      booking on it. */
  const AprilNow: int := 20192 * 1440 + 555
  const LateBooking: Appointment := Appointment(20199 * 1440 + 960, Num(5))

  lemma FourteenthOfApril()
    ensures CivilFromDays(20192) == CivilDate(2025, 4, 14)
  {
    assert 739660 / 146097 == 5;
    assert 9175 / 1460 == 6 && 9175 / 36524 == 0 && 9175 / 146096 == 0;
    assert 9169 / 365 == 25 && 25 / 4 == 6 && 25 / 100 == 0;
    assert (5 * 44 + 2) / 153 == 1 && (153 * 1 + 2) / 5 == 31;
  }

  lemma TwentyFirstOfApril()
    ensures CivilFromDays(20199) == CivilDate(2025, 4, 21)
  {
    assert 739667 / 146097 == 5;
    assert 9182 / 1460 == 6 && 9182 / 36524 == 0 && 9182 / 146096 == 0;
    assert 9176 / 365 == 25 && 25 / 4 == 6 && 25 / 100 == 0;
    assert (5 * 51 + 2) / 153 == 1 && (153 * 1 + 2) / 5 == 31;
  }

  /** A customer holding no other booking can pick the cutoff day on 14 April. */
  lemma CutoffDayEnabled()
    ensures !Disabled(20199, AprilNow, 0)
  {
    EnabledDaysAfterLaunch(20199, AprilNow, 0);
    assert DayOf(AprilNow) == 20192;
  }

  lemma CutoffBounds()
    ensures DayBounds(20199, AprilNow) == DayWindow(BusinessStart, 600)
  {
    assert DayOf(AprilNow) == 20192;
    assert MinuteOfDay(AprilNow) == 555;
    FourteenthOfApril();
    TwentyFirstOfApril();
    assert SameMonthSevenAhead(20199, AprilNow);
    assert CeilToHalfHour(585) == 600;
  }

  /** On the cutoff day the gap before a later booking is not bounded by the cutoff:
      with the day ending at 10:00, 10:30 is still offered. */
  lemma CutoffIgnoredBeforeLaterBooking()
    ensures !Disabled(20199, AprilNow, 0)
    ensures DayBounds(20199, AprilNow).endOfDay == 600
    ensures 630 in DaySlots(20199, AprilNow, [LateBooking])
  {
    CutoffDayEnabled();
    CutoffBounds();
    var bs := LateBookings();
    LateWalk(bs);
  }

  /** The gap before the 16:00 booking runs from 08:30 to 15:30 whatever the day's end. */
  lemma LateWalk(bs: seq<Booking>)
    requires bs == [Booking(960, 30)]
    ensures 630 in Walk(BusinessStart, bs, 600)
  {
    GapSlotsShape(BusinessStart, 960);
    assert GapSlots(BusinessStart, 960)[4] == 630;
    assert Walk(BusinessStart, bs, 600) == GapSlots(BusinessStart, 960) + Walk(990, [], 600);
  }

  lemma LateBookings() returns (bs: seq<Booking>)
    ensures bs == SortBy(Bookings(ForDay([LateBooking], 20199)), StartOf)
    ensures bs == [Booking(960, 30)]
  {
    var appts := [LateBooking];
    assert DayOf(LateBooking.time) == 20199;
    assert ForDay(appts, 20199) == appts;
    assert MinuteOfDay(LateBooking.time) == 960;
    assert Duration(Num(5)) == 30;
    bs := Bookings(appts);
    assert bs == [Booking(960, 30)];
  }

  /** 09:15 on Monday 28 April 2025; seven days later is Monday 5 May, in the next month. */
  const MonthEndNow: int := 20206 * 1440 + 555

  lemma TwentyEighthOfApril()
    ensures CivilFromDays(20206) == CivilDate(2025, 4, 28)
  {
    assert 739674 / 146097 == 5;
    assert 9189 / 1460 == 6 && 9189 / 36524 == 0 && 9189 / 146096 == 0;
    assert 9183 / 365 == 25 && 25 / 4 == 6 && 25 / 100 == 0;
    assert (5 * 58 + 2) / 153 == 1 && (153 * 1 + 2) / 5 == 31;
  }

  lemma FifthOfMay()
    ensures CivilFromDays(20213) == CivilDate(2025, 5, 5)
  {
    assert 739681 / 146097 == 5;
    assert 9196 / 1460 == 6 && 9196 / 36524 == 0 && 9196 / 146096 == 0;
    assert 9190 / 365 == 25 && 25 / 4 == 6 && 25 / 100 == 0;
    assert (5 * 65 + 2) / 153 == 2 && (153 * 2 + 2) / 5 == 61;
  }

  /** Across a month boundary the seven-day cutoff is not applied: the whole day up to
      18:30 is offered, where the corrected bounds stop at 10:00. */
  lemma CutoffMissedAcrossMonths()
    ensures 20213 == DayOf(MonthEndNow) + 7
    ensures !Disabled(20213, MonthEndNow, 0)
    ensures DayBounds(20213, MonthEndNow).endOfDay == BusinessEnd
    ensures DayBoundsFixed(20213, MonthEndNow).endOfDay == 600
  {
    assert DayOf(MonthEndNow) == 20206;
    assert MinuteOfDay(MonthEndNow) == 555;
    EnabledDaysAfterLaunch(20213, MonthEndNow, 0);
    TwentyEighthOfApril();
    FifthOfMay();
    assert !SameMonthSevenAhead(20213, MonthEndNow);
    assert CeilToHalfHour(585) == 600;
  }
}
