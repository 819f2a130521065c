/** The slot allocator of the single-chair shop. A day's bookings, each a start minute
    and a duration, are sorted by start; then a cursor walks the day, offering a start
    every 30 minutes in each gap before a booking and after the last one. The
    same code is copied in the slot hook, the reservation page and the demo
    scheduler; each copy is this allocator with its own closing time. */
module SlotAllocator {
  import opened Text
  import opened Calendar
  import opened Sequences
  import opened ServiceCatalog

  const BusinessStart: nat := 510   // 08:30
  const BusinessEnd: nat := 1110    // 18:30
  const SlotStep: nat := 30

  /** A booking of the chair: minute of the day it starts at, and its length. */
  datatype Booking = Booking(start: nat, duration: nat)

  /** A stored appointment as the hook sees it: an instant and a service reference. */
  datatype Appointment = Appointment(time: int, service: ServiceRef)

  function End(b: Booking): nat { b.start + b.duration }

  function StartOf(b: Booking): int { b.start }

  predicate Inside(x: int, b: Booking) { b.start <= x < End(b) }

  /** The overlap test of the availability check: two half-open intervals meet. */
  predicate Overlaps(slotStart: int, slotEnd: int, b: Booking)
  {
    slotStart < End(b) && slotEnd > b.start
  }

  predicate StrictlyIncreasing(s: seq<int>)
  {
    forall i, j :: 0 <= i < j < |s| ==> s[i] < s[j]
  }

  /** Each booking ends no later than any later one starts. */
  predicate Chained(bs: seq<Booking>)
  {
    forall i, j :: 0 <= i < j < |bs| ==> End(bs[i]) <= bs[j].start
  }

  predicate PairwiseDisjoint(bs: seq<Booking>)
  {
    forall i, j :: 0 <= i < |bs| && 0 <= j < |bs| && i != j ==> !Overlaps(bs[i].start, End(bs[i]), bs[j])
  }

  // ---------------------------------------------------------------------------
  // The walk, as a specification

  /** The starts offered in one gap: `c`, `c + 30`, ... while below `limit`. */
  function GapSlots(c: int, limit: int): (r: seq<int>)
    decreases limit - c
  {
    if c < limit then [c] + GapSlots(c + SlotStep, limit) else []
  }

  /** The allocator's walk over sorted bookings: the gap up to each booking's start,
      then the cursor jumps to that booking's end; only the last gap stops at `end`. */
  function Walk(c: int, bs: seq<Booking>, end: int): (r: seq<int>)
    decreases |bs|
  {
    if bs == [] then GapSlots(c, end)
    else GapSlots(c, bs[0].start) + Walk(End(bs[0]), bs[1..], end)
  }

  /** The walk with the cursor never moving backwards and every gap bounded by the
      end of the day. */
  function WalkFixed(c: int, bs: seq<Booking>, end: int): (r: seq<int>)
    decreases |bs|
  {
    if bs == [] then GapSlots(c, end)
    else GapSlots(c, Min(bs[0].start, end)) + WalkFixed(Max(c, End(bs[0])), bs[1..], end)
  }

  /** A gap holds exactly the grid points `c + 30k` below `limit`. */
  lemma {:induction false} GapSlotsShape(c: int, limit: int)
    ensures |GapSlots(c, limit)| == if c < limit then (limit - c + 29) / 30 else 0
    ensures forall k :: 0 <= k < |GapSlots(c, limit)| ==> GapSlots(c, limit)[k] == c + 30 * k
    decreases limit - c
  {
    if c < limit {
      GapSlotsShape(c + 30, limit);
      var r := GapSlots(c, limit);
      forall k | 0 < k < |r| ensures r[k] == c + 30 * k {
        assert r[k] == GapSlots(c + 30, limit)[k - 1];
      }
    }
  }

  lemma {:induction false} GapSlotsBounds(c: int, limit: int)
    ensures StrictlyIncreasing(GapSlots(c, limit))
    ensures forall x :: x in GapSlots(c, limit) ==> c <= x < limit
    decreases limit - c
  {
    if c < limit {
      GapSlotsBounds(c + 30, limit);
      var r := GapSlots(c, limit);
      forall i, j | 0 <= i < j < |r| ensures r[i] < r[j] {
        assert r[j] in GapSlots(c + 30, limit);
        if i > 0 { assert r[i] == GapSlots(c + 30, limit)[i - 1]; }
      }
    }
  }

  lemma ConcatIncreasing(a: seq<int>, b: seq<int>, pivot: int)
    requires StrictlyIncreasing(a) && StrictlyIncreasing(b)
    requires forall x :: x in a ==> x < pivot
    requires forall y :: y in b ==> pivot <= y
    ensures StrictlyIncreasing(a + b)
  {
    var s := a + b;
    forall i, j | 0 <= i < j < |s| ensures s[i] < s[j] {
      if j < |a| {
      } else if i < |a| {
        assert s[i] in a && s[j] in b;
      } else {
        assert s[i] == b[i - |a|] && s[j] == b[j - |a|];
      }
    }
  }

  /** Sorted, pairwise non-overlapping bookings of positive length are chained. */
  lemma ChainedOfDisjoint(bs: seq<Booking>)
    requires SortedBy(bs, StartOf) && PairwiseDisjoint(bs)
    requires forall b :: b in bs ==> b.duration > 0
    ensures Chained(bs)
  {
    forall i, j | 0 <= i < j < |bs| ensures End(bs[i]) <= bs[j].start {
      assert StartOf(bs[i]) <= StartOf(bs[j]);
      assert bs[j] in bs;
      assert !Overlaps(bs[i].start, End(bs[i]), bs[j]);
    }
  }

  /** For chained bookings the walk offers strictly increasing starts, none of which
      falls inside a booking; when the cursor starts no later than the first
      booking's end, no start lies before it. */
  lemma {:induction false} WalkSound(c: int, bs: seq<Booking>, end: int)
    requires Chained(bs)
    ensures StrictlyIncreasing(Walk(c, bs, end))
    ensures forall x, b :: x in Walk(c, bs, end) && b in bs ==> !Inside(x, b)
    ensures bs == [] || c <= End(bs[0]) ==> forall x :: x in Walk(c, bs, end) ==> c <= x
    decreases |bs|
  {
    if bs == [] {
      GapSlotsBounds(c, end);
    } else {
      var b0 := bs[0];
      var gap := GapSlots(c, b0.start);
      var rest := Walk(End(b0), bs[1..], end);
      GapSlotsBounds(c, b0.start);
      WalkSound(End(b0), bs[1..], end);
      assert bs[1..] == [] || End(b0) <= End(bs[1..][0]) by {
        if bs[1..] != [] { assert End(bs[0]) <= bs[1].start; }
      }
      ConcatIncreasing(gap, rest, b0.start);
      forall x, b | x in Walk(c, bs, end) && b in bs ensures !Inside(x, b) {
        if x in gap {
          var k :| 0 <= k < |bs| && bs[k] == b;
          if k > 0 { assert End(bs[0]) <= bs[k].start; }
        } else {
          assert x in rest;
          if b != b0 {
            var k :| 0 <= k < |bs| && bs[k] == b;
            assert b == bs[1..][k - 1];
          }
        }
      }
    }
  }

  /** When no booking starts after `end`, every start the walk offers is below `end`. */
  lemma {:induction false} WalkBelowEnd(c: int, bs: seq<Booking>, end: int)
    requires forall b :: b in bs ==> b.start <= end
    ensures forall x :: x in Walk(c, bs, end) ==> x < end
    decreases |bs|
  {
    if bs == [] {
      GapSlotsBounds(c, end);
    } else {
      GapSlotsBounds(c, bs[0].start);
      assert forall b :: b in bs[1..] ==> b in bs;
      WalkBelowEnd(End(bs[0]), bs[1..], end);
    }
  }

  /** The corrected walk needs only sorted input: its starts strictly increase, lie in
      `[c, end)` and avoid every booking. */
  lemma {:induction false} WalkFixedSound(c: int, bs: seq<Booking>, end: int)
    requires SortedBy(bs, StartOf)
    ensures StrictlyIncreasing(WalkFixed(c, bs, end))
    ensures forall x :: x in WalkFixed(c, bs, end) ==> c <= x < end
    ensures forall x, b :: x in WalkFixed(c, bs, end) && b in bs ==> !Inside(x, b)
    decreases |bs|
  {
    if bs == [] {
      GapSlotsBounds(c, end);
    } else {
      var b0 := bs[0];
      var c' := Max(c, End(b0));
      var gap := GapSlots(c, Min(b0.start, end));
      var rest := WalkFixed(c', bs[1..], end);
      GapSlotsBounds(c, Min(b0.start, end));
      WalkFixedSound(c', bs[1..], end);
      ConcatIncreasing(gap, rest, b0.start);
      forall x, b | x in WalkFixed(c, bs, end) && b in bs ensures !Inside(x, b) {
        var k :| 0 <= k < |bs| && bs[k] == b;
        if x in gap {
          assert StartOf(bs[0]) <= StartOf(bs[k]);
        } else if k > 0 {
          assert b == bs[1..][k - 1];
        }
      }
    }
  }

  /** On the inputs the allocator was written for, the fix changes nothing. */
  lemma {:induction false} WalkFixedAgrees(c: int, bs: seq<Booking>, end: int)
    requires Chained(bs)
    requires bs != [] ==> c <= End(bs[0])
    requires forall b :: b in bs ==> b.start <= end
    ensures WalkFixed(c, bs, end) == Walk(c, bs, end)
    decreases |bs|
  {
    if bs != [] {
      assert Min(bs[0].start, end) == bs[0].start;
      assert Max(c, End(bs[0])) == End(bs[0]);
      if |bs| > 1 { assert End(bs[0]) <= bs[1].start; }
      WalkFixedAgrees(End(bs[0]), bs[1..], end);
    }
  }

  // ---------------------------------------------------------------------------
  // The day's bounds

  datatype DayWindow = DayWindow(startOfDay: int, endOfDay: int)

  /** The bounds for a day: today starts at the next half hour not before now (but not
      before opening); a day that the cutoff rule selects ends at the half hour at least
      30 minutes after now's clock time (but not after closing). */
  function Bounds(isToday: bool, isCutoffDay: bool, nowMinute: nat): (w: DayWindow)
    ensures isToday ==>
              w.endOfDay == BusinessEnd && w.startOfDay % 30 == 0
              && w.startOfDay >= nowMinute && w.startOfDay >= BusinessStart
              && (w.startOfDay == BusinessStart || w.startOfDay < nowMinute + 30)
    ensures !isToday && isCutoffDay ==>
              w.startOfDay == BusinessStart && w.endOfDay % 30 == 0
              && w.endOfDay <= BusinessEnd
              && (w.endOfDay == BusinessEnd || nowMinute + 30 <= w.endOfDay < nowMinute + 60)
    ensures !isToday && isCutoffDay && nowMinute + 30 <= BusinessEnd - SlotStep ==>
              nowMinute + 30 <= w.endOfDay < nowMinute + 60
    ensures !isToday && isCutoffDay && nowMinute + 30 > BusinessEnd - SlotStep ==>
              w.endOfDay == BusinessEnd
    ensures !isToday && !isCutoffDay ==> w == DayWindow(BusinessStart, BusinessEnd)
  {
    if isToday then DayWindow(Max(CeilToHalfHour(nowMinute), BusinessStart), BusinessEnd)
    else if isCutoffDay then DayWindow(BusinessStart, Min(CeilToHalfHour(nowMinute + 30), BusinessEnd))
    else DayWindow(BusinessStart, BusinessEnd)
  }

  /** The cutoff rule as written: same year, same month, day of month 7 more. */
  predicate SameMonthSevenAhead(date: int, now: int)
  {
    var d := CivilFromDays(date);
    var n := CivilFromDays(DayOf(now));
    d.year == n.year && d.month == n.month && d.dayOfMonth == n.dayOfMonth + 7
  }

  function DayBounds(date: int, now: int): (w: DayWindow)
    ensures w.startOfDay >= BusinessStart && w.endOfDay <= BusinessEnd
    ensures date != DayOf(now) && SameMonthSevenAhead(date, now) && MinuteOfDay(now) + 60 <= BusinessEnd ==>
              MinuteOfDay(now) + 30 <= w.endOfDay < MinuteOfDay(now) + 60
  {
    Bounds(date == DayOf(now), SameMonthSevenAhead(date, now), MinuteOfDay(now))
  }

  /** The cutoff applied to the date exactly seven days after today, whatever the month. */
  function DayBoundsFixed(date: int, now: int): (w: DayWindow)
    ensures w.startOfDay >= BusinessStart && w.endOfDay <= BusinessEnd
    ensures date == DayOf(now) + 7 ==> w.endOfDay < BusinessEnd ==> w.endOfDay < MinuteOfDay(now) + 60
    ensures date == DayOf(now) + 7 && MinuteOfDay(now) + 60 <= BusinessEnd ==>
              MinuteOfDay(now) + 30 <= w.endOfDay < MinuteOfDay(now) + 60
  {
    Bounds(date == DayOf(now), date == DayOf(now) + 7, MinuteOfDay(now))
  }

  // ---------------------------------------------------------------------------
  // From stored appointments to bookings

  /** `isSameDay(appointment.appointment_time, date)`, order kept. */
  function ForDay(appts: seq<Appointment>, date: int): (r: seq<Appointment>)
    ensures |r| <= |appts|
    ensures forall a :: a in r <==> a in appts && DayOf(a.time) == date
    ensures Subsequence(r, appts)
    ensures forall a :: multiset(r)[a] == if DayOf(a.time) == date then multiset(appts)[a] else 0
  {
    if appts == [] then []
    else
      assert appts == [appts[0]] + appts[1..];
      if DayOf(appts[0].time) == date then
        var rest := ForDay(appts[1..], date);
        assert ([appts[0]] + rest)[1..] == rest;
        [appts[0]] + rest
      else ForDay(appts[1..], date)
  }

  /** An appointment's clock time and its service's duration. Its `HH:MM` label parses
      back to the same minute (`Clock.ParseClockLabel`). */
  function BookingOf(a: Appointment): (b: Booking)
    ensures b.start < 1440 && DayOf(a.time) * 1440 + b.start == a.time
    ensures 10 <= b.duration <= 30
  {
    Booking(MinuteOfDay(a.time), Duration(a.service))
  }

  function Bookings(appts: seq<Appointment>): (bs: seq<Booking>)
    ensures |bs| == |appts| && forall i :: 0 <= i < |appts| ==> bs[i] == BookingOf(appts[i])
  {
    seq(|appts|, i requires 0 <= i < |appts| => BookingOf(appts[i]))
  }

  // ---------------------------------------------------------------------------
  // The allocator, as the loops run it

  /** One gap of the walk: appends `from`, `from + 30`, ... while below `limit`. */
  method EmitGap(slots: seq<int>, from: int, limit: int) returns (out: seq<int>)
    ensures out == slots + GapSlots(from, limit)
  {
    out := slots;
    var current := from;
    while current < limit
      invariant out + GapSlots(current, limit) == slots + GapSlots(from, limit)
      decreases limit - current
    {
      out := out + [current];
      current := current + SlotStep;
    }
  }

  /** Sorts the bookings by start and walks the day with a cursor, as the source
      does; the result is the walk above. */
  method AllocateSlots(startOfDay: int, endOfDay: int, bookings: seq<Booking>) returns (slots: seq<int>)
    ensures slots == Walk(startOfDay, SortBy(bookings, StartOf), endOfDay)
  {
    var sorted := SortBy(bookings, StartOf);
    slots := [];
    var current := startOfDay;
    if |sorted| == 0 {
      slots := EmitGap(slots, current, endOfDay);
    } else {
      WalkFrom(slots, startOfDay, sorted, endOfDay);
      for i := 0 to |sorted|
        invariant slots + Walk(current, sorted[i..], endOfDay) == Walk(startOfDay, sorted, endOfDay)
      {
        WalkAt(slots, current, sorted, i, endOfDay);
        slots := EmitGap(slots, current, sorted[i].start);
        current := End(sorted[i]);
      }
      WalkPastLast(slots, current, sorted, endOfDay);
      slots := EmitGap(slots, current, endOfDay);
    }
  }

  lemma WalkFrom(slots: seq<int>, c: int, bs: seq<Booking>, end: int)
    requires slots == []
    ensures slots + Walk(c, bs[0..], end) == Walk(c, bs, end)
    ensures slots + WalkFixed(c, bs[0..], end) == WalkFixed(c, bs, end)
  {
    assert bs[0..] == bs;
  }

  /** One turn of the loop: the gap before booking `i`, then the walk from its end. */
  lemma WalkAt(slots: seq<int>, c: int, bs: seq<Booking>, i: int, end: int)
    requires 0 <= i < |bs|
    ensures slots + Walk(c, bs[i..], end)
            == (slots + GapSlots(c, bs[i].start)) + Walk(End(bs[i]), bs[i + 1..], end)
  {
    assert bs[i..][0] == bs[i] && bs[i..][1..] == bs[i + 1..];
  }

  lemma WalkFixedAt(slots: seq<int>, c: int, bs: seq<Booking>, i: int, end: int)
    requires 0 <= i < |bs|
    ensures slots + WalkFixed(c, bs[i..], end)
            == (slots + GapSlots(c, Min(bs[i].start, end))) + WalkFixed(Max(c, End(bs[i])), bs[i + 1..], end)
  {
    assert bs[i..][0] == bs[i] && bs[i..][1..] == bs[i + 1..];
  }

  /** After the last booking only the trailing gap is left. */
  lemma WalkPastLast(slots: seq<int>, c: int, bs: seq<Booking>, end: int)
    ensures slots + Walk(c, bs[|bs|..], end) == slots + GapSlots(c, end)
    ensures slots + WalkFixed(c, bs[|bs|..], end) == slots + GapSlots(c, end)
  {
    assert bs[|bs|..] == [];
  }

  /** The allocator with both corrections: the cursor only moves forward and every gap
      stops at the end of the day. Its output is sound for any bookings. */
  method AllocateSlotsFixed(startOfDay: int, endOfDay: int, bookings: seq<Booking>) returns (slots: seq<int>)
    ensures slots == WalkFixed(startOfDay, SortBy(bookings, StartOf), endOfDay)
    ensures StrictlyIncreasing(slots)
    ensures forall x :: x in slots ==> startOfDay <= x < endOfDay
    ensures forall x, b :: x in slots && b in bookings ==> !Inside(x, b)
  {
    var sorted := SortBy(bookings, StartOf);
    slots := [];
    var current := startOfDay;
    WalkFrom(slots, startOfDay, sorted, endOfDay);
    for i := 0 to |sorted|
      invariant slots + WalkFixed(current, sorted[i..], endOfDay) == WalkFixed(startOfDay, sorted, endOfDay)
    {
      WalkFixedAt(slots, current, sorted, i, endOfDay);
      slots := EmitGap(slots, current, Min(sorted[i].start, endOfDay));
      current := Max(current, End(sorted[i]));
    }
    WalkPastLast(slots, current, sorted, endOfDay);
    slots := EmitGap(slots, current, endOfDay);
    WalkFixedSound(startOfDay, sorted, endOfDay);
    SortByElements(bookings, StartOf);
  }

  // ---------------------------------------------------------------------------
  // A whole day, as the slot hook and the reservation page compute it

  /** `calculateAvailableTimeSlots(date, appointments)` at instant `now`: the day's
      bookings, the day's bounds, then the allocator. */
  method ComputeSlots(date: int, now: int, appts: seq<Appointment>) returns (slots: seq<int>)
    ensures slots == DaySlots(date, now, appts)
  {
    var forDay := ForDay(appts, date);
    var w := DayBounds(date, now);
    slots := AllocateSlots(w.startOfDay, w.endOfDay, Bookings(forDay));
  }

  function DaySlots(date: int, now: int, appts: seq<Appointment>): (r: seq<int>)
  {
    var w := DayBounds(date, now);
    Walk(w.startOfDay, SortBy(Bookings(ForDay(appts, date)), StartOf), w.endOfDay)
  }

  function DaySlotsFixed(date: int, now: int, appts: seq<Appointment>): (r: seq<int>)
  {
    var w := DayBoundsFixed(date, now);
    WalkFixed(w.startOfDay, SortBy(Bookings(ForDay(appts, date)), StartOf), w.endOfDay)
  }

  /** The corrected day: starts strictly increase, stay inside the day's bounds, never
      lie in the past when the day is today, never reach the cutoff on the day seven
      days ahead, and never fall inside one of the day's bookings. */
  method ComputeSlotsFixed(date: int, now: int, appts: seq<Appointment>) returns (slots: seq<int>)
    ensures slots == DaySlotsFixed(date, now, appts)
    ensures StrictlyIncreasing(slots)
    ensures forall x :: x in slots ==> BusinessStart <= x < BusinessEnd
    ensures date == DayOf(now) ==> forall x :: x in slots ==> MinuteOfDay(now) <= x
    ensures date == DayOf(now) + 7 ==> forall x :: x in slots ==> x < MinuteOfDay(now) + 60
    ensures forall x, a :: x in slots && a in appts && DayOf(a.time) == date ==> !Inside(x, BookingOf(a))
  {
    var forDay := ForDay(appts, date);
    var w := DayBoundsFixed(date, now);
    var bookings := Bookings(forDay);
    slots := AllocateSlotsFixed(w.startOfDay, w.endOfDay, bookings);
    forall x, a | x in slots && a in appts && DayOf(a.time) == date ensures !Inside(x, BookingOf(a)) {
      assert a in forDay;
      var k :| 0 <= k < |forDay| && forDay[k] == a;
      assert bookings[k] == BookingOf(a);
    }
  }

  /** Filtering by day is idempotent, so the effect's pre-filter changes nothing. */
  lemma {:induction false} ForDayIdempotent(appts: seq<Appointment>, date: int)
    ensures ForDay(ForDay(appts, date), date) == ForDay(appts, date)
  {
    if appts != [] {
      ForDayIdempotent(appts[1..], date);
      if DayOf(appts[0].time) == date {
        var r := ForDay(appts, date);
        assert r[0] == appts[0] && r[1..] == ForDay(appts[1..], date);
      }
    }
  }

  // ---------------------------------------------------------------------------
  // The availability test

  /** Some booking covers minute `t`. */
  predicate Occupied(bs: seq<Booking>, t: int)
  {
    exists b :: b in bs && Inside(t, b)
  }

  /** `isSlotAvailable(slot, duration, bookings)` for a shop closing at minute `close`:
      the service must end by closing time and must not overlap any booking. */
  function IsSlotAvailable(slot: int, duration: int, bs: seq<Booking>, close: int): (ok: bool)
    ensures ok ==> slot + duration <= close
  {
    if slot + duration > close then false
    else !(exists b :: b in bs && Overlaps(slot, slot + duration, b))
  }

  /** The overlap test agrees with minute-by-minute occupancy: a slot of positive length
      is available exactly when it ends by closing and no minute of it is booked. */
  lemma AvailableIffFree(slot: int, duration: int, bs: seq<Booking>, close: int)
    requires duration > 0
    requires forall b :: b in bs ==> b.duration > 0
    ensures IsSlotAvailable(slot, duration, bs, close)
            <==> slot + duration <= close && forall t :: slot <= t < slot + duration ==> !Occupied(bs, t)
  {
    if slot + duration <= close {
      if exists b :: b in bs && Overlaps(slot, slot + duration, b) {
        var b :| b in bs && Overlaps(slot, slot + duration, b);
        var t := Max(slot, b.start);
        assert Inside(t, b);
        assert Occupied(bs, t);
      } else {
        forall t | slot <= t < slot + duration ensures !Occupied(bs, t) {
          forall b | b in bs ensures !Inside(t, b) {
            assert !Overlaps(slot, slot + duration, b);
          }
        }
      }
    }
  }

  /** Back-to-back services are allowed: a slot may start where a booking ends, or end
      where it starts. */
  lemma BackToBack(b: Booking, duration: nat, close: int)
    requires End(b) + duration <= close
    ensures IsSlotAvailable(End(b), duration, [b], close)
    ensures duration <= b.start ==> IsSlotAvailable(b.start - duration, duration, [b], close)
  {
  }

  /** The booking-time recheck: the query error makes it fail; otherwise the slot is
      free when no stored booking STARTS inside `[start, start + duration)`. */
  function RangeFree(start: int, duration: int, startsInDay: seq<int>, queryError: bool): (ok: bool)
    ensures ok ==> !queryError
  {
    !queryError && !(exists t :: t in startsInDay && start <= t < start + duration)
  }

  function Starts(bs: seq<Booking>): (r: seq<int>)
    ensures |r| == |bs| && forall i :: 0 <= i < |bs| ==> r[i] == bs[i].start
  {
    seq(|bs|, i requires 0 <= i < |bs| => bs[i].start)
  }

  /** The recheck never rejects a slot that the overlap test accepts. */
  lemma RangeFreeOfAvailable(slot: int, duration: int, bs: seq<Booking>, close: int)
    requires forall b :: b in bs ==> b.duration > 0
    requires IsSlotAvailable(slot, duration, bs, close)
    ensures RangeFree(slot, duration, Starts(bs), false)
  {
    forall t | t in Starts(bs) ensures !(slot <= t < slot + duration) {
      var i :| 0 <= i < |bs| && Starts(bs)[i] == t;
      assert bs[i] in bs;
      assert !Overlaps(slot, slot + duration, bs[i]);
    }
  }

  /** ... but it accepts a slot that starts while a booking is still running. */
  lemma RangeFreeMissesRunningBooking()
    ensures RangeFree(555, 10, Starts([Booking(540, 30)]), false)
    ensures !IsSlotAvailable(555, 10, [Booking(540, 30)], BusinessEnd)
  {
    assert Starts([Booking(540, 30)]) == [540];
    var b := Booking(540, 30);
    assert b in [b] && Overlaps(555, 555 + 10, b);
  }
}
