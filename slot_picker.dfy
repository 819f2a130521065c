/** The slot hook's effect: whenever the date, the selected service or the appointments
    change, the offered starts are recomputed (kept to those the service fits in when a
    service is selected) and the chosen start is cleared. */
module SlotPicker {
  import opened Text
  import opened Sequences
  import opened Calendar
  import opened ServiceCatalog
  import opened SlotAllocator

  /** `slots.filter(slot => isSlotAvailable(slot, duration, bookings))`. */
  function FilterFitting(slots: seq<int>, duration: int, bs: seq<Booking>): (r: seq<int>)
    ensures forall x :: x in r <==> x in slots && IsSlotAvailable(x, duration, bs, BusinessEnd)
    ensures Subsequence(r, slots)
    ensures StrictlyIncreasing(slots) ==> StrictlyIncreasing(r)
  {
    if slots == [] then []
    else
      var rest := FilterFitting(slots[1..], duration, bs);
      if IsSlotAvailable(slots[0], duration, bs, BusinessEnd) then
        assert StrictlyIncreasing(slots) ==> forall y :: y in rest ==> slots[0] < y by {
          if StrictlyIncreasing(slots) {
            forall y | y in rest ensures slots[0] < y {
              var j :| 0 <= j < |slots[1..]| && slots[1..][j] == y;
              assert slots[j + 1] == y;
            }
          }
        }
        assert ([slots[0]] + rest)[1..] == rest;
        if StrictlyIncreasing(slots) then
          assert StrictlyIncreasing(slots[1..]);
          ConcatIncreasing([slots[0]], rest, slots[0] + 1);
          [slots[0]] + rest
        else [slots[0]] + rest
      else
        assert StrictlyIncreasing(slots) ==> StrictlyIncreasing(slots[1..]);
        rest
  }

  /** The filter keeps every copy of a slot the service fits in and drops every copy of
      the others. */
  lemma {:induction false} FilterFittingCounts(slots: seq<int>, duration: int, bs: seq<Booking>)
    ensures forall x :: multiset(FilterFitting(slots, duration, bs))[x] ==
              if IsSlotAvailable(x, duration, bs, BusinessEnd) then multiset(slots)[x] else 0
  {
    if slots != [] {
      assert slots == [slots[0]] + slots[1..];
      FilterFittingCounts(slots[1..], duration, bs);
    }
  }

  class Picker {
    var timeSlots: seq<int>
    var selectedTime: Option<int>

    constructor()
      ensures timeSlots == [] && selectedTime == None
    {
      timeSlots := [];
      selectedTime := None;
    }

    /** The effect body at instant `now`, with the allocator as written. Without a date
        nothing changes. */
    method Refresh(date: Option<int>, selectedService: ServiceRef, appointments: seq<Appointment>, now: int)
      modifies this
      ensures date.None? ==> timeSlots == old(timeSlots) && selectedTime == old(selectedTime)
      ensures date.Some? ==> selectedTime == None
      ensures date.Some? && selectedService.Null? ==> timeSlots == DaySlots(date.value, now, appointments)
      ensures date.Some? && !selectedService.Null? ==>
                timeSlots == FilterFitting(DaySlots(date.value, now, appointments),
                                           Duration(selectedService), Bookings(ForDay(appointments, date.value)))
      ensures date.Some? && !selectedService.Null? ==>
                forall x :: x in timeSlots <==>
                  x in DaySlots(date.value, now, appointments)
                  && IsSlotAvailable(x, Duration(selectedService), Bookings(ForDay(appointments, date.value)), BusinessEnd)
      ensures date.Some? ==> Subsequence(timeSlots, DaySlots(date.value, now, appointments))
    {
      if date.Some? {
        var forDay := ForDay(appointments, date.value);
        ForDayIdempotent(appointments, date.value);
        var available := ComputeSlots(date.value, now, forDay);
        if !selectedService.Null? {
          timeSlots := FilterFitting(available, Duration(selectedService), Bookings(forDay));
        } else {
          SubsequenceReflexive(available);
          timeSlots := available;
        }
        selectedTime := None;
      }
    }

    method SetSelectedTime(t: Option<int>)
      modifies this
      ensures selectedTime == t && timeSlots == old(timeSlots)
    {
      selectedTime := t;
    }
  }

  /** The guarantees the corrected allocator gives a day's list of starts. */
  predicate FixedGuarantees(r: seq<int>, date: int, now: int)
  {
    && StrictlyIncreasing(r)
    && (forall x :: x in r ==> BusinessStart <= x < BusinessEnd)
    && (date == DayOf(now) ==> forall x :: x in r ==> MinuteOfDay(now) <= x)
    && (date == DayOf(now) + 7 ==> forall x :: x in r ==> x < MinuteOfDay(now) + 60)
  }

  /** Were the effect to call the corrected allocator, its list, filtered or not, would
      increase, stay within business hours, hold no past start today and no start
      at or past the cutoff on the day seven ahead. */
  lemma FixedRefreshSound(date: int, now: int, appointments: seq<Appointment>, duration: int)
    ensures FixedGuarantees(DaySlotsFixed(date, now, appointments), date, now)
    ensures FixedGuarantees(FilterFitting(DaySlotsFixed(date, now, appointments), duration,
                                          Bookings(ForDay(appointments, date))), date, now)
  {
    var w := DayBoundsFixed(date, now);
    WalkFixedSound(w.startOfDay, SortBy(Bookings(ForDay(appointments, date)), StartOf), w.endOfDay);
  }
}
