/** The admin calendar dashboard: a week grid starting at the current date, hour rows
    from 8 to 18, the appointments shown in each cell, navigation and the "new
    appointment" modal. Instants are minutes on the local clock (see `Calendar`). */
module AdminCalendar {
  import opened Text
  import opened Calendar
  import opened Sequences

  datatype View = DayView | WeekView | MonthView | YearView

  datatype CalendarEntry = CalendarEntry(id: int, title: string, start: int, end: int)

  /** `addDays(date, n)`: the same clock time `n` days later. */
  function AddDays(t: int, n: int): (r: int)
    ensures DayOf(r) == DayOf(t) + n && MinuteOfDay(r) == MinuteOfDay(t)
  {
    DayOfBetween(t + n * MinutesPerDay, DayOf(t) + n);
    t + n * MinutesPerDay
  }

  /** The seven columns: the current date and the six days after it. */
  function WeekDays(current: int): (days: seq<int>)
    ensures |days| == 7
    ensures forall i :: 0 <= i < 7 ==> DayOf(days[i]) == DayOf(current) + i
  {
    seq(7, i requires 0 <= i < 7 => AddDays(current, i))
  }

  /** The hour rows, 8 to 18. */
  function HourRows(): (hours: seq<nat>)
    ensures |hours| == 11 && hours[0] == 8 && hours[10] == 18
    ensures forall i :: 0 <= i < 11 ==> hours[i] == 8 + i
  {
    seq(11, i requires 0 <= i < 11 => 8 + i)
  }

  /** `getHours()`. */
  function HourOf(t: int): nat
  {
    MinuteOfDay(t) / 60
  }

  /** `getAppointmentsForTimeSlot(day, hour)`: the appointments starting on that day
      within that clock hour, in list order. */
  function AppointmentsForTimeSlot(appts: seq<CalendarEntry>, day: int, hour: int): (r: seq<CalendarEntry>)
    ensures forall a :: a in r <==> a in appts && DayOf(a.start) == DayOf(day)
                                    && hour * 60 <= MinuteOfDay(a.start) < hour * 60 + 60
    ensures Subsequence(r, appts)
    ensures forall a :: multiset(r)[a] ==
              if DayOf(a.start) == DayOf(day) && hour * 60 <= MinuteOfDay(a.start) < hour * 60 + 60
              then multiset(appts)[a] else 0
  {
    if appts == [] then []
    else
      assert appts == [appts[0]] + appts[1..];
      var rest := AppointmentsForTimeSlot(appts[1..], day, hour);
      if DayOf(appts[0].start) == DayOf(day) && HourOf(appts[0].start) == hour then [appts[0]] + rest else rest
  }

  /** The label of an hour row. */
  function HourLabel(h: nat): (text: string)
  {
    if h == 12 then "12 PM" else if h > 12 then NatToString(h - 12) + " PM" else NatToString(h) + " AM"
  }

  /** Reading a label back on the 12-hour clock. */
  function ReadHourLabel(text: string): Option<int>
  {
    ReadHourParts(Split(text, ' '))
  }

  /** The number and the AM/PM half of a split label. */
  function ReadHourParts(parts: seq<string>): Option<int>
  {
    if |parts| != 2 then None
    else match NumberOf(parts[0])
      case None => None
      case Some(n) =>
        if parts[1] == "AM" then Some(n)
        else if parts[1] == "PM" then Some(if n == 12 then 12 else n + 12)
        else None
  }

  /** Every hour of the day reads back from its label, so no two hours share one;
      noon and after are PM. */
  lemma HourLabelReadsBack(h: nat)
    requires h < 24
    ensures ReadHourLabel(HourLabel(h)) == Some(h)
  {
    var n: nat := if h > 12 then h - 12 else h;
    var suffix := if h >= 12 then "PM" else "AM";
    var digits := NatToString(n);
    HourLabelShape(h, n, suffix);
    DigitsExclude(digits, ' ');
    assert ' ' !in suffix;
    SplitAround(digits, ' ', suffix);
    ReadHourPair(h, n, suffix);
  }

  /** A label is the 12-hour number, a space and the half of the day. */
  lemma HourLabelShape(h: nat, n: nat, suffix: string)
    requires h < 24 && n == (if h > 12 then h - 12 else h) && suffix == (if h >= 12 then "PM" else "AM")
    ensures HourLabel(h) == NatToString(n) + [' '] + suffix
  {
  }

  lemma ReadHourPair(h: nat, n: nat, suffix: string)
    requires h < 24 && n == (if h > 12 then h - 12 else h) && suffix == (if h >= 12 then "PM" else "AM")
    ensures ReadHourParts([NatToString(n), suffix]) == Some(h)
  {
    if h == 12 {
      assert NatToString(1) == "1";
      assert NatToString(12) == NatToString(1) + ['2'];
    }
  }

  lemma HourLabelInjective(h1: nat, h2: nat)
    requires h1 < 24 && h2 < 24 && HourLabel(h1) == HourLabel(h2)
    ensures h1 == h2
  {
    HourLabelReadsBack(h1);
    HourLabelReadsBack(h2);
  }

  class Dashboard {
    var currentDate: int
    var view: View
    var showModal: bool
    var appointmentDate: Option<int>
    var selectedTime: Option<string>
    var selectedService: Option<int>

    constructor(now: int)
      ensures currentDate == now && view == WeekView && !showModal
      ensures appointmentDate == Some(now) && selectedTime.None? && selectedService.None?
    {
      currentDate := now;
      view := WeekView;
      showModal := false;
      appointmentDate := Some(now);
      selectedTime := None;
      selectedService := None;
    }

    /** One day back in the day view, one week back in the week view, nothing in the
        other views. */
    method NavigateToPrevious()
      modifies this
      ensures currentDate == match view
        case DayView => AddDays(old(currentDate), -1)
        case WeekView => AddDays(old(currentDate), -7)
        case _ => old(currentDate)
      ensures view == old(view) && showModal == old(showModal) && appointmentDate == old(appointmentDate)
      ensures selectedTime == old(selectedTime) && selectedService == old(selectedService)
    {
      if view == DayView {
        currentDate := AddDays(currentDate, -1);
      } else if view == WeekView {
        currentDate := AddDays(currentDate, -7);
      }
    }

    method NavigateToNext()
      modifies this
      ensures currentDate == match view
        case DayView => AddDays(old(currentDate), 1)
        case WeekView => AddDays(old(currentDate), 7)
        case _ => old(currentDate)
      ensures view == old(view) && showModal == old(showModal) && appointmentDate == old(appointmentDate)
      ensures selectedTime == old(selectedTime) && selectedService == old(selectedService)
    {
      if view == DayView {
        currentDate := AddDays(currentDate, 1);
      } else if view == WeekView {
        currentDate := AddDays(currentDate, 7);
      }
    }

    method NavigateToToday(now: int)
      modifies this
      ensures currentDate == now
      ensures view == old(view) && showModal == old(showModal) && appointmentDate == old(appointmentDate)
      ensures selectedTime == old(selectedTime) && selectedService == old(selectedService)
    {
      currentDate := now;
    }

    /** `handleAddAppointment`: the modal closes, the date returns to now and the
        time and service are cleared. */
    method HandleAddAppointment(now: int)
      modifies this
      ensures !showModal && appointmentDate == Some(now) && selectedTime.None? && selectedService.None?
      ensures currentDate == old(currentDate) && view == old(view)
    {
      showModal := false;
      appointmentDate := Some(now);
      selectedTime := None;
      selectedService := None;
    }
  }

  /** Next undoes Previous in the day and week views. */
  lemma NavigationRoundTrip(t: int, n: int)
    ensures AddDays(AddDays(t, -n), n) == t
  {
  }
}
