# Barbershop booking: a Dafny model

This project models the booking logic of a single-chair barbershop web application.

Customers pick a service, a day and a start time. The application then works out which start times are still free. It books the chosen slot into the `appointments` table and lets the customer cancel it again, which leaves an audit row in `canceled_appointments`.

The shop is open from 08:30 to 18:30 (the demo scheduler closes at 17:30). Bookings open on 2 April 2025 and run for a rolling week. Sundays are closed, and a customer may hold at most three upcoming appointments.

Around this core sit several small state machines, each modelled as well:
- the administrator's blocked-days page;
- the user directory with search and pagination;
- the announcement form;
- the week calendar;
- the SMS route's phone normalisation;
- the phone/OTP login steps;
- the PIN form;
- the service picker grid.

Conventions used throughout the model:
- **Time.** An instant is a whole number of minutes on the shop's local clock (`Calendar`). A day is a day number. Weekday and civil-date functions stand in for `Date`, `isSameDay`, `getDay` and `addDays`.
- **Slots.** A slot label `HH:MM` is represented by its minute of the day. `Clock.ParseFormatRoundTrip` shows that the two representations carry the same information.
- **Backend.** Supabase tables are sequences. A query error, a missing session or a failed send is an input to the operation.
- **Code shape.** Code that changes state step by step is written as classes and methods:
  - the booking handlers;
  - the demo scheduler;
  - the form pages;
  - the slot loops, which are proved equal to specification functions.

  Pure filters and lookups are functions.

The slot allocator appears in four copies: the slot hook, the reservation page, the demo page and the shared helpers. It is modelled once, in `SlotAllocator`:
- `Walk` is the cursor walk as written.
- `AllocateSlots` and `ComputeSlots` are its loop form.
- `WalkFixed` and `ComputeSlotsFixed` are a corrected walk (see "## Findings").

The slot picker (`SlotPicker`) calls the allocator as written, as the hook does. `SlotPicker.FixedRefreshSound` states what the list would guarantee with the corrected allocator.

The filters (`ForDay`, `ForDate`, `DeleteRows`, `WithoutId`, `WithoutDates`, `WithoutDay`, `FilterUsers`, `AppointmentsForTimeSlot`, `FilterFitting`) each state three things: which elements are kept, that the result is a subsequence of the input, and that every kept element keeps all its copies (for `FilterFitting`, the lemma `FilterFittingCounts` states the copies). Together these fix the result, duplicates included.

Several members model code that the application repeats in more than one file. Each table row below cites the first copy; the other copies are:
- `ServiceCatalog.Duration`: src/lib/appointment-utils.ts:153-158, src/app/rezervacije/page.tsx:320-337, src/hooks/useAppointmentBooking.ts:58-74.
- `ServiceCatalog.Name`: src/lib/appointment-utils.ts:166-171, src/app/rezervacije/page.tsx:638-655.
- `SlotAllocator.DayBounds`: src/app/rezervacije/page.tsx:361-381.
- `SlotAllocator.AllocateSlots`: src/app/appointment/page.tsx:28-67.
- `SlotAllocator.ComputeSlots`: src/app/rezervacije/page.tsx:340-436.
- `SlotAllocator.IsSlotAvailable`: src/app/rezervacije/page.tsx:439-473.
- `Appointments.UserUpcomingOwned`: src/app/rezervacije/page.tsx:117-125.
- `Appointments.Store.CancelAppointment`: src/app/rezervacije/page.tsx:156-220.
- `BookingDates.EnabledDaysAfterLaunch`: src/app/rezervacije/page.tsx:525-536.
- `BookingDates.StartDate`: src/app/rezervacije/page.tsx:33-40.

## Model

| member | source | states |
|---|---|---|
| Clock.ClockLabel | src/lib/appointment-utils.ts:112-114 | hour and minute below 100 give a five-character `HH:MM` label |
| Clock.FormatTime | src/hooks/useTimeSlots.ts:15-21 | every minute count below 6000 is written as five characters with ':' at position 2 |
| Clock.Padded | src/hooks/useTimeSlots.ts:18-20 | a padded number is at least two digits that read back as the number, exactly two below 100 |
| Clock.ParseTime | src/hooks/useTimeSlots.ts:10-13 | a parsed time has an all-digit hour part; non-numeric parts give NaN (None) |
| Clock.ParseClockLabel | src/hooks/useTimeSlots.ts:10-21 | reading the label of hour h and minute m gives h*60+m |
| Clock.ParseFormatRoundTrip | src/hooks/useTimeSlots.ts:10-21 | parseTime(formatTime(m)) == m for every non-negative m |
| Clock.FormatTimeInjective | src/hooks/useTimeSlots.ts:15-21 | two minute counts with the same label are equal |
| Text.ParseIntOfDigits | src/lib/appointment-utils.ts:156 | parseInt of a plain digit string is its decimal value |
| Text.ParseInt | src/lib/appointment-utils.ts:156 | `parseInt(s, 10)`; ParseIntOfDigits states it on digit strings |
| Text.NumberOf | src/hooks/useTimeSlots.ts:10-13 | `Number(s)` on digit strings, the only strings the slot labels hold: a value exactly for digit strings (other forms are under "## Left out") |
| Text.RemoveWhitespace | src/app/api/send-sms/route.ts:36-37 | the result is a subsequence of the input (order kept) with no whitespace, and keeps every non-whitespace character |
| Text.RemoveWhitespaceAppend | src/app/api/send-sms/route.ts:36-37 | removing whitespace from a + b gives the removal from a followed by the removal from b |
| Text.BlankIffAllWhitespace | src/app/admin/users/page.tsx:124 | `!s.trim()` holds exactly when every character is whitespace |
| Text.TrimStartSpec | src/app/admin/users/page.tsx:124 | `trim` drops exactly the leading whitespace and stops at the first other character |
| Text.TrimEndSpec | src/app/admin/users/page.tsx:124 | `trim` drops exactly the trailing whitespace and stops at the last other character |
| Text.Trim | src/app/admin/users/page.tsx:124 | `trim()`; TrimStartSpec, TrimEndSpec and BlankIffAllWhitespace state it |
| Text.ToLower | src/app/admin/users/page.tsx:80-82 | same length, each Latin capital A-Z lower-cased and every other character kept (see "## Left out") |
| Text.Contains | src/app/admin/users/page.tsx:80-82 | `includes`: the query occurs at some index; EmptyQueryKeepsAll states the empty case |
| Text.Join | src/components/UserLoginSteps.tsx:56 | `join('')`; JoinLength states the OTP length check |
| Text.JoinLength | src/components/UserLoginSteps.tsx:56-59 | with one-character cells, the joined code has length 6 exactly when all six cells are filled |
| Text.KeepLast | src/components/UserLoginSteps.tsx:86-88 | input longer than one character is cut to its last character; shorter input is kept |
| Calendar.MinuteOfDay | src/hooks/useTimeSlots.ts:58-63 | the clock minute lies in [0, 1440) and, with the day, rebuilds the instant |
| Calendar.Midnight | src/hooks/useBookingDates.ts:7 | a day's midnight falls on that day at minute 0 |
| Calendar.Weekday | src/hooks/useBookingDates.ts:26 | getDay lies in 0..6 |
| Calendar.CeilToHalfHour | src/hooks/useTimeSlots.ts:65 | the result is the first multiple of 30 at or after the input |
| Calendar.MinBookingDayIsSecondOfApril2025 | src/hooks/useBookingDates.ts:7 | day 20180 is 2 April 2025 |
| Calendar.MinBookingDayFromCivil | src/hooks/useBookingDates.ts:7 | 2 April 2025 is day 20180 |
| Calendar.CivilRoundTrip | src/hooks/useBookingDates.ts:17-18 | reading back the day number of any valid civil date gives that date |
| Calendar.DayOf | src/hooks/useTimeSlots.ts:46-48 | the day of an instant; MinuteOfDay rebuilds the instant from it |
| Calendar.CivilFromDays | src/hooks/useTimeSlots.ts:71-75 | `getFullYear`, `getMonth`, `getDate`; CivilRoundTrip inverts DaysFromCivil with it |
| Calendar.DaysFromCivil | src/hooks/useBookingDates.ts:7 | `new Date(y, m, d)` as a day number; CivilRoundTrip and MinBookingDayFromCivil state it |
| ServiceCatalog.KeyOf | src/hooks/useTimeSlots.ts:25-28 | numbers are their own key; null and undefined have none; strings go through parseInt |
| ServiceCatalog.Duration | src/hooks/useTimeSlots.ts:24-41 | null, undefined, NaN or an unknown id give 30, a known id its table entry; always within [10, 30] |
| ServiceCatalog.Name | src/hooks/useTimeSlots.ts:255-272 | a known id gives its table name, anything else "Unknown service" |
| ServiceCatalog.TablesShareKeys | src/lib/appointment-utils.ts:124-145 | both tables are keyed by exactly 0..6 |
| ServiceCatalog.CatalogDurations | src/lib/appointment-utils.ts:124-132 | ids 0..6 last 10, 10, 15, 20, 15, 30, 30 minutes; null and undefined 30 |
| ServiceCatalog.StringIdAgrees | src/lib/appointment-utils.ts:166-171 | the string "n" and the number n name the same service and duration |
| ServiceCatalog.KeyOfDigits | src/lib/appointment-utils.ts:156 | the decimal text of n is looked up under key n |
| SlotAllocator.GapSlotsShape | src/hooks/useTimeSlots.ts:108-114 | a gap offers c, c+30, ... strictly below its limit, and exactly that many |
| SlotAllocator.GapSlotsBounds | src/hooks/useTimeSlots.ts:121-124 | every start in a gap lies in [c, limit) and the starts increase |
| SlotAllocator.WalkSound | src/hooks/useTimeSlots.ts:116-133 | over chained bookings the walk's starts strictly increase and none lies inside a booking |
| SlotAllocator.WalkBelowEnd | src/hooks/useTimeSlots.ts:129-133 | when no booking starts after the end of day, every offered start is below it |
| SlotAllocator.ChainedOfDisjoint | src/hooks/useTimeSlots.ts:103-106 | sorted, pairwise disjoint, non-empty bookings each end before the next starts |
| Sequences.SortBy | src/hooks/useTimeSlots.ts:103-106 | the sort by start: the same elements with the same counts, in key order |
| SlotAllocator.GapSlots | src/hooks/useTimeSlots.ts:108-114 | the gap loop's starts; GapSlotsShape and GapSlotsBounds state them |
| SlotAllocator.Walk | src/hooks/useTimeSlots.ts:116-133 | the cursor walk as written; WalkSound and WalkBelowEnd state when it is sound, and the Findings rows when it is not |
| SlotAllocator.WalkFixedSound | src/hooks/useTimeSlots.ts:116-133 | the corrected walk's starts strictly increase, stay in [startOfDay, endOfDay) and avoid every booking |
| SlotAllocator.WalkFixedAgrees | src/hooks/useTimeSlots.ts:116-133 | the corrected walk equals the walk as written when no booking ends before the cursor or starts past the end of day |
| SlotAllocator.Bounds | src/hooks/useTimeSlots.ts:61-82 | today opens at the next half hour not before now (and not before 08:30); the cutoff day closes at the half hour 30 to 59 minutes after now when that is before 18:00, and at 18:30 otherwise; other days run 08:30-18:30 |
| SlotAllocator.DayBounds | src/hooks/useTimeSlots.ts:62-75 | the day window as written stays within business hours; a day the same-month test selects ends within the hour after now when that is before closing |
| SlotAllocator.DayBoundsFixed | src/hooks/useTimeSlots.ts:71-82 | with the cutoff applied to the date seven days after today in any month, that day ends 30 to 59 minutes after now when that is before closing, and never later than the hour after now |
| SlotAllocator.ForDay | src/hooks/useTimeSlots.ts:46-48 | exactly the appointments on that calendar day, in input order, each with all its copies |
| SlotAllocator.SameMonthSevenAhead | src/hooks/useTimeSlots.ts:71-75 | the cutoff test as written: same year, same month, day of month 7 more; SlotFindings.CutoffMissedAcrossMonths shows a date seven days ahead it misses |
| SlotAllocator.BookingOf | src/hooks/useTimeSlots.ts:85-101 | an appointment's clock minute and its service's duration (10 to 30 minutes) |
| SlotAllocator.Bookings | src/hooks/useTimeSlots.ts:85-101 | every appointment converted in order |
| SlotAllocator.EmitGap | src/hooks/useTimeSlots.ts:121-124 | the loop appends exactly the gap's starts |
| SlotAllocator.AllocateSlots | src/hooks/useTimeSlots.ts:104-134 | the loops (sort, gap loops, cursor jumps, trailing loop) compute the walk as written |
| SlotAllocator.AllocateSlotsFixed | src/hooks/useTimeSlots.ts:104-134 | the corrected loops compute the corrected walk; increasing, in bounds, outside every booking |
| SlotAllocator.ComputeSlots | src/hooks/useTimeSlots.ts:44-137 | calculateAvailableTimeSlots is the day filter, the day window and the walk as written |
| SlotAllocator.DaySlots | src/hooks/useTimeSlots.ts:44-136 | the day's starts as written; ComputeSlots computes it and Picker.Refresh shows it |
| SlotAllocator.DaySlotsFixed | src/hooks/useTimeSlots.ts:44-136 | the corrected day's starts; FixedRefreshSound states their guarantees |
| SlotAllocator.ComputeSlotsFixed | src/hooks/useTimeSlots.ts:44-137 | corrected day: increasing, within 08:30-18:30, never before now today, never past the cutoff seven days ahead, never inside a booking |
| SlotAllocator.ForDayIdempotent | src/hooks/useTimeSlots.ts:219-227 | filtering by day twice equals filtering once, so the effect's pre-filter changes nothing |
| SlotAllocator.IsSlotAvailable | src/hooks/useTimeSlots.ts:140-172 | an available slot ends by closing time |
| SlotAllocator.AvailableIffFree | src/hooks/useTimeSlots.ts:140-172 | available iff it ends by closing and no minute of [slot, slot+duration) is booked |
| SlotAllocator.BackToBack | src/hooks/useTimeSlots.ts:166-172 | a slot that starts when a booking ends, or ends when it starts, is available |
| SlotAllocator.RangeFree | src/hooks/useTimeSlots.ts:176-213 | the recheck fails on a query error; otherwise it passes when no booking starts inside the range |
| SlotAllocator.Starts | src/hooks/useTimeSlots.ts:196-200 | the start instants the range query compares |
| SlotAllocator.RangeFreeOfAvailable | src/hooks/useTimeSlots.ts:176-213 | the recheck never rejects a slot the overlap test accepts |
| SlotAllocator.RangeFreeMissesRunningBooking | src/hooks/useTimeSlots.ts:196-208 | the recheck accepts 09:15 for ten minutes beside a 09:00-09:30 booking, which the overlap test rejects |
| SlotFindings.EmptyDayOffersTwentySlots | src/hooks/useTimeSlots.ts:108-114 | an ordinary day with no bookings offers the 20 starts 08:30..18:00 |
| SlotFindings.PastSlotsReappearToday | src/hooks/useTimeSlots.ts:126 | as written: at 14:05, 09:30 is offered again after a morning booking |
| SlotFindings.CutoffIgnoredBeforeLaterBooking | src/hooks/useTimeSlots.ts:121-124 | as written: on 21 April 2025, a bookable cutoff day closing at 10:00 (now 14 April 09:15), 10:30 is offered before a 16:00 booking |
| SlotFindings.CutoffDayEnabled | src/hooks/useBookingDates.ts:23-34 | the date picker lets a customer choose 21 April 2025 on 14 April at 09:15 |
| SlotFindings.CutoffMissedAcrossMonths | src/hooks/useTimeSlots.ts:71-75 | as written: on 28 April 2025 at 09:15, 5 May is seven days ahead and bookable but is not cut off; the corrected bounds stop at 10:00 |
| SlotPicker.FilterFitting | src/hooks/useTimeSlots.ts:230-235 | the kept slots are exactly those the service fits in, in order, still increasing |
| SlotPicker.FilterFittingCounts | src/hooks/useTimeSlots.ts:230-235 | every copy of a fitting slot is kept and every copy of another slot dropped |
| SlotPicker.Picker.constructor | src/hooks/useTimeSlots.ts:6-7 | no slots, no selection |
| SlotPicker.Picker.Refresh | src/hooks/useTimeSlots.ts:216-243 | without a date nothing changes; otherwise the selection is cleared and the slots are the as-written day's slots, or, with a service chosen, exactly those of them the service fits in, in order |
| SlotPicker.Picker.SetSelectedTime | src/hooks/useTimeSlots.ts:7 | sets the selection, leaves the slots |
| SlotPicker.FixedRefreshSound | src/hooks/useTimeSlots.ts:116-133 | with the corrected allocator the list, filtered or not, increases, stays within 08:30-18:30, holds no past start today and nothing at or past the cutoff seven days ahead |
| DemoScheduler.KindDuration | src/app/appointment/page.tsx:5-9 | types a, b, c last 20, 25, 30 minutes |
| DemoScheduler.AsBookings | src/app/appointment/page.tsx:76-80 | each entry as a start and a duration, in order |
| DemoScheduler.ChainedSorted | src/app/appointment/page.tsx:101-103 | a chained list is sorted by start |
| DemoScheduler.ChainedOfSortedBag | src/app/appointment/page.tsx:91-103 | a sorted list of distinct, pairwise non-overlapping entries is chained |
| DemoScheduler.Scheduler.constructor | src/app/appointment/page.tsx:11 | the list starts empty and valid |
| DemoScheduler.Scheduler.Available | src/app/appointment/page.tsx:70-81 | an available slot ends by 17:30 |
| DemoScheduler.Scheduler.BookAppointment | src/app/appointment/page.tsx:84-105 | an unavailable slot leaves the list alone; otherwise exactly one entry {time, type, duration, endTime} is added and the list stays sorted, non-overlapping and within 17:30 |
| DemoScheduler.Scheduler.GetAvailableSlots | src/app/appointment/page.tsx:28-67 | the walk over the list: increasing, below 17:30, outside every entry |
| DemoScheduler.DemoWalkSound | src/app/appointment/page.tsx:47-63 | over a valid list, the demo walk is increasing, below 17:30 and avoids every entry |
| DemoScheduler.InsertKeepsValid | src/app/appointment/page.tsx:87-103 | adding an available entry and sorting keeps the list valid |
| DemoScheduler.PairsApart | src/app/appointment/page.tsx:76-80 | an entry apart from every old entry keeps all pairs apart |
| DemoScheduler.MembersOfSorted | src/app/appointment/page.tsx:101-103 | the sorted list holds the old entries and the new one |
| DemoScheduler.CountsOfSorted | src/app/appointment/page.tsx:101-103 | no entry appears twice after the insert |
| DemoScheduler.OldPairApart | src/app/appointment/page.tsx:11 | two entries of a valid list do not overlap |
| DemoScheduler.NoOverlapWithOld | src/app/appointment/page.tsx:76-89 | an available slot overlaps no booked entry and is new |
| DemoScheduler.EmptyDemoOffersEighteenSlots | src/app/appointment/page.tsx:38-44 | the empty demo day offers 18 starts 08:30..17:00 |
| TimeGrid.Values | src/lib/appointment-utils.ts:112-114 | each grid point as minutes since midnight |
| TimeGrid.Labels | src/lib/appointment-utils.ts:112-114 | one label per grid point |
| TimeGrid.GenerateTimeSlots | src/lib/appointment-utils.ts:100-119 | the nested loops produce the labels of the hour grid |
| TimeGrid.EmitHour | src/lib/appointment-utils.ts:108-115 | the inner loop emits the hour's minutes 0, i, 2i, ... below 60, or only :00 at the end hour |
| TimeGrid.RowFromShape | src/lib/appointment-utils.ts:108 | an hour row from minute m has ceil((60-m)/i) points, all in that hour, increasing |
| TimeGrid.RowFrom | src/lib/appointment-utils.ts:108 | the inner loop's minutes from m; RowFromShape states them |
| TimeGrid.HourRow | src/lib/appointment-utils.ts:108-115 | one hour's minutes, only :00 at the end hour; EmitHour computes it |
| TimeGrid.Grid | src/lib/appointment-utils.ts:107-116 | the nested loops' grid points; GridLength, GridShape and GridEndsOnTheHour state them |
| TimeGrid.GridLength | src/lib/appointment-utils.ts:107-116 | (end-start)*ceil(60/i)+1 slots when end >= start, none otherwise |
| TimeGrid.GridShape | src/lib/appointment-utils.ts:107-116 | hours lie in [start, end], minutes below 60, the end hour only at :00, and the slots strictly increase |
| TimeGrid.GridEndsOnTheHour | src/lib/appointment-utils.ts:110 | a non-empty grid ends at endHour:00 |
| TimeGrid.LabelsParseBack | src/lib/appointment-utils.ts:112-114 | every label parses back to its grid point's minute |
| TimeGrid.DefaultGrid | src/lib/appointment-utils.ts:100-104 | the defaults give 21 slots from "08:00" to "18:00" |
| Appointments.OrElse | src/hooks/useAppointments.ts:40-41 | a missing or empty value falls back |
| Appointments.Normalize | src/hooks/useAppointments.ts:38-44 | a loaded row keeps id, service and time; a missing name reads "Unnamed", a missing phone "" |
| Appointments.NormalizeAll | src/hooks/useAppointments.ts:29-45 | every row normalised in order |
| Appointments.ForDate | src/hooks/useAppointments.ts:162-166 | exactly the appointments on that day, in input order, each with all its copies |
| Appointments.SlotAppointments | src/hooks/useAppointments.ts:38-44 | the allocator's view of each loaded row |
| Appointments.UpcomingRows | src/hooks/useAppointments.ts:59-63 | exactly the owner's rows at or after now, in order, each with all its copies |
| Appointments.Upcoming | src/hooks/useAppointments.ts:61-63 | the owner and `gte(now)` filter of one row; UpcomingRows states it |
| Appointments.UserUpcoming | src/hooks/useAppointments.ts:59-65 | the query with order and limit 3; UserUpcomingOwned, UserUpcomingOrdered and UserUpcomingEarliest state it |
| Appointments.UserUpcomingOwned | src/hooks/useAppointments.ts:59-65 | at most three rows, all the owner's, all at or after now |
| Appointments.UserUpcomingOrdered | src/hooks/useAppointments.ts:64 | earliest first |
| Appointments.UserUpcomingEarliest | src/hooks/useAppointments.ts:64-65 | a left-out matching row means three earlier-or-equal rows were kept |
| Appointments.ConflictRows | src/hooks/useAppointmentBooking.ts:82-86 | the query returns rows of the table |
| Appointments.ConflictIsExactStart | src/hooks/useAppointmentBooking.ts:82-86 | with start < end the `or` part matches everything, so a conflict is found iff a row starts at exactly the same instant |
| Appointments.AppointmentInstant | src/hooks/useAppointmentBooking.ts:42-46 | the instant falls on the chosen day at the chosen minute |
| Appointments.WithId | src/hooks/useAppointments.ts:97-101 | exactly the rows with that id, in order, each with all its copies |
| Appointments.WithoutId | src/hooks/useAppointments.ts:129-133 | exactly the rows with another id, in order, each with all its copies |
| Appointments.Record | src/hooks/useAppointments.ts:110-121 | the audit row copies name, phone, service, time and user, with original_id the id |
| Appointments.Store.constructor | src/hooks/useAppointments.ts:5-10 | empty tables |
| Appointments.Store.Insert | src/hooks/useAppointmentBooking.ts:101-112 | exactly one row {name, phone, service, time, user} is appended with a fresh id |
| Appointments.Store.AddProfile | src/hooks/useAppointmentBooking.ts:121-124 | one profile row is appended |
| Appointments.Store.HandleBookAppointment | src/hooks/useAppointmentBooking.ts:21-137 | succeeds iff date, time, service and session are present, the check succeeds, no row starts at the same instant and the insert succeeds; then exactly one row is added, and a failed profile upsert does not change the result; otherwise nothing is written |
| Appointments.Store.CancelAppointment | src/hooks/useAppointments.ts:94-159 | a failed or non-unique fetch changes nothing; a failed audit insert does not stop the delete; a failed delete returns false with the audit row kept; success removes every row with the id |
| BookingDates.StartDate | src/hooks/useBookingDates.ts:7-11 | the later of now and 2 April 2025 |
| BookingDates.Disabled | src/hooks/useBookingDates.ts:23-34 | the `disabledDays` rule; EnabledDaysAfterLaunch and EnabledDaysBeforeLaunch characterise it |
| BookingDates.EndDate | src/hooks/useBookingDates.ts:14 | seven days after the start, same clock time |
| BookingDates.DefaultMonth | src/hooks/useBookingDates.ts:17-18 | in March, midnight of 1 April of this year; otherwise today |
| BookingDates.EnabledDaysAfterLaunch | src/hooks/useBookingDates.ts:23-34 | after launch a day is bookable iff it is not a Sunday, the user holds fewer than 3 bookings, and it is within seven days after today (today only at the stroke of midnight, since the start carries the time of day) |
| BookingDates.EnabledDaysBeforeLaunch | src/hooks/useBookingDates.ts:23-34 | before launch the bookable days are 2 to 9 April 2025 without Sundays, for users with fewer than 3 bookings |
| BookingDates.FirstWindow | src/hooks/useBookingDates.ts:26 | 2 April 2025 is a Wednesday and 6 April a Sunday |
| Reservation.EnabledButtonPassesChecks | src/app/rezervacije/page.tsx:786-793 | an enabled book button implies a date, a time, a service, a name, a phone and fewer than 3 bookings |
| Reservation.BookDisabled | src/app/rezervacije/page.tsx:786-793 | the book button's `disabled` rule; EnabledButtonPassesChecks states it |
| Reservation.Incomplete | src/app/rezervacije/page.tsx:600 | a missing profile, name or phone; HandleConfirm upserts exactly then |
| Reservation.Page.constructor | src/app/rezervacije/page.tsx:37 | the form opens on the first bookable date with nothing chosen |
| Reservation.Page.HandleReservationSubmit | src/app/rezervacije/page.tsx:506-513 | the confirmation opens only with a name and a phone; otherwise an error is set |
| Reservation.Page.HandleConfirm | src/app/rezervacije/page.tsx:542-631 | nothing is written unless date, time and service are set and a session exists, and on those paths and a failed insert the form is left as it was; a successful insert resets the form, and an incomplete profile is upserted without undoing the booking on failure |
| Vacation.ParseIsoDate | src/app/admin/vacation/page.tsx:66 | only YYYY-MM-DD strings are read as dates |
| Vacation.ReadLocalDay | src/app/admin/vacation/page.tsx:66 | `new Date(d.date)` read as a local day, None for other strings |
| Vacation.IsoDate | src/app/admin/vacation/page.tsx:71 | `toISOString().split('T')[0]` of a UTC day; TwoDigitsAgrees states its padding |
| Vacation.NextDayUtc | src/app/admin/vacation/page.tsx:69-71 | the UTC day of the next local midnight; NextDayNames states it |
| Vacation.NextDay | src/app/admin/vacation/page.tsx:69-71 | the stored date string; NextDayNames states which day it names |
| Vacation.NextDayNames | src/app/admin/vacation/page.tsx:69-71 | the stored "next day" is the clicked day east of UTC and the day after at UTC or west of it |
| Vacation.TwoDigitsAgrees | src/app/admin/vacation/page.tsx:69-71 | the month and day of an ISO date are written as `padStart(2, '0')` writes them |
| Vacation.HoldsDaySpec | src/app/admin/vacation/page.tsx:65-67 | the `some` scan finds the clicked day exactly when an entry of the list is read as that day |
| Vacation.HoldsDay | src/app/admin/vacation/page.tsx:65-67 | the `some` scan; HoldsDaySpec states it |
| Vacation.NormalizeDate | src/app/admin/vacation/page.tsx:108-111 | the first ten characters |
| Vacation.NormalizeDateIdempotent | src/app/admin/vacation/page.tsx:108-111 | normalising twice equals once; an ISO date is unchanged |
| Vacation.NormalizeAll | src/app/admin/vacation/page.tsx:114-122 | every entry with its date normalised |
| Vacation.DatesOf | src/app/admin/vacation/page.tsx:125-128 | exactly the entries' dates |
| Vacation.WithoutDates | src/app/admin/vacation/page.tsx:135-138 | exactly the entries whose date is not excluded, in order, each with all its copies |
| Vacation.MergeDates | src/app/admin/vacation/page.tsx:125-151 | the toast count is at most the number of rows |
| Vacation.MergeDatesSpec | src/app/admin/vacation/page.tsx:125-151 | stored-only entries, then selected-only entries, each in order; no output date is in both inputs; the count is the selected-only part |
| Vacation.Group | src/app/admin/vacation/page.tsx:161-171 | exactly the entries with that key |
| Vacation.GroupedByKey | src/app/admin/vacation/page.tsx:157-176 | the groups are keyed by exactly the entries' keys; each group holds exactly that key's entries in order and is non-empty |
| Vacation.GroupOfAbsentKey | src/app/admin/vacation/page.tsx:157-176 | a key no entry has gets no entries |
| Vacation.MonthKey | src/app/admin/vacation/page.tsx:166 | `${getFullYear()}-${getMonth()}`, "NaN-NaN" for an invalid date |
| Vacation.Push | src/app/admin/vacation/page.tsx:163-169 | create the group if missing, then push; GroupedByKey states the result |
| Vacation.Grouped | src/app/admin/vacation/page.tsx:157-176 | the groups after every entry is pushed; GroupedByKey states them |
| Vacation.Page.constructor | src/app/admin/vacation/page.tsx:40-46 | the loaded rows are both stored and selected, and the calendar shows their dates |
| Vacation.Page.HandleDateSelect | src/app/admin/vacation/page.tsx:59-89 | no selection changes nothing; a selected day removes every entry on it and keeps every other entry with all its copies, in order; otherwise one "Godišnji" entry for the next day is appended and the calendar shows the clicked days |
| Vacation.Page.RemoveDate | src/app/admin/vacation/page.tsx:91-105 | entries with that date are removed (from the table unless the delete fails); the calendar selection is emptied |
| Vacation.Page.SaveDates | src/app/admin/vacation/page.tsx:107-154 | the merge is appended to the table unless the insert fails; the count is the selected-only part |
| Vacation.Page.GroupByMonth | src/app/admin/vacation/page.tsx:157-176 | the loop builds the month grouping |
| Vacation.Shown | src/app/admin/vacation/page.tsx:86 | the calendar shows every clicked day |
| Vacation.WithoutDay | src/app/admin/vacation/page.tsx:75-79 | exactly the entries not on the clicked day, in order, each with all its copies |
| UsersAdmin.FilterUsers | src/app/admin/users/page.tsx:80-82 | exactly the users whose phone contains the query (A-Z case-folded), in order, each with all its copies |
| UsersAdmin.Matches | src/app/admin/users/page.tsx:80-82 | the phone, with A-Z lower-cased, includes the query lower-cased the same way; FilterUsers states the filter |
| UsersAdmin.EmptyQueryKeepsAll | src/app/admin/users/page.tsx:80-82 | the empty query keeps every user |
| UsersAdmin.TotalPagesBounds | src/app/admin/users/page.tsx:85 | ceil(n/50): enough pages and no empty last page |
| UsersAdmin.SliceIndex | src/app/admin/users/page.tsx:87-90 | a slice index is clamped into the list |
| UsersAdmin.PageOfSpec | src/app/admin/users/page.tsx:86-90 | from page 1 on, the page is the run of at most 50 users from (page-1)*50, empty past the last page |
| UsersAdmin.TotalPages | src/app/admin/users/page.tsx:85 | `Math.ceil(n / 50)`; TotalPagesBounds states it |
| UsersAdmin.StartIndex | src/app/admin/users/page.tsx:86 | `(currentPage - 1) * 50` |
| UsersAdmin.Slice | src/app/admin/users/page.tsx:87-90 | `slice(start, end)` with negative and out-of-range indices clamped; SliceIndex states the clamp |
| UsersAdmin.PageOf | src/app/admin/users/page.tsx:86-90 | the shown page; PageOfSpec states it |
| UsersAdmin.ReplaceById | src/app/admin/users/page.tsx:142-144 | only users with the form's id are replaced; length and others unchanged |
| UsersAdmin.ReplaceByIdSpec | src/app/admin/users/page.tsx:142-144 | the form appears iff its id was present; with no match the list is unchanged |
| UsersAdmin.Upsert | src/app/admin/users/page.tsx:149-152 | the table holds the form and every other user of another id |
| UsersAdmin.Page.constructor | src/app/admin/users/page.tsx:33-43 | empty list, empty query, page 1 |
| UsersAdmin.Page.GetUsers | src/app/admin/users/page.tsx:45-74 | on success the users and the shown page are refreshed; on failure nothing changes |
| UsersAdmin.Page.HandleSearch | src/app/admin/users/page.tsx:76-95 | the shown page is recomputed from the given list or the stored users |
| UsersAdmin.Page.ChangeQuery | src/app/admin/users/page.tsx:190-193 | a new query resets the page to 1 and refilters |
| UsersAdmin.Page.HandleEdit | src/app/admin/users/page.tsx:106-109 | the form holds the user and the editing id is set; list, query, page and pagination stay |
| UsersAdmin.Page.HandleCancel | src/app/admin/users/page.tsx:112-115 | editing is cleared; list, query, page and pagination stay |
| UsersAdmin.Page.ChangeName | src/app/admin/users/page.tsx:169-172 | only the form's name changes, and only while editing; list, query, page and pagination stay |
| UsersAdmin.Page.ChangePhone | src/app/admin/users/page.tsx:169-172 | only the form's phone changes, and only while editing; list, query, page and pagination stay |
| UsersAdmin.Page.ChangePasswordSet | src/app/admin/users/page.tsx:169-172 | only the form's flag changes, and only while editing; list, query, page and pagination stay |
| UsersAdmin.Page.HandleSave | src/app/admin/users/page.tsx:118-166 | saves iff a form is open with a non-blank name and phone; then only the matching user is replaced, the page is recomputed and editing ends; otherwise nothing changes, pagination included |
| UsersAdmin.Page.Previous | src/app/admin/users/page.tsx:350-352 | the page goes back one, never below page 1; everything else stays |
| UsersAdmin.Page.Next | src/app/admin/users/page.tsx:361-363 | the page goes forward one, never above the current page count; everything else stays |
| Announcements.UpdateRows | src/app/admin/announcements/page.tsx:92-99 | rows with the id get the new dates and trimmed text; others are unchanged |
| Announcements.UpdateRowsSpec | src/app/admin/announcements/page.tsx:92-99 | no other row changes; with no match the table is unchanged |
| Announcements.DeleteRows | src/app/admin/announcements/page.tsx:150-153 | exactly the rows with another id, in order, each with all its copies |
| Announcements.Form.constructor | src/app/admin/announcements/page.tsx:24-30 | the form starts empty |
| Announcements.Form.ResetForm | src/app/admin/announcements/page.tsx:62-68 | dates and text cleared, not editing, no id |
| Announcements.Form.FetchAnnouncements | src/app/admin/announcements/page.tsx:34-54 | the list becomes the table ordered by start, or stays on error |
| Announcements.Form.HandleSave | src/app/admin/announcements/page.tsx:70-138 | missing field or blank text rejects; start after end rejects (equal dates accepted); updates iff editing with a truthy id, inserts otherwise; success empties the form; failure changes nothing |
| Announcements.Form.HandleEdit | src/app/admin/announcements/page.tsx:140-146 | the form holds the announcement and is editing its id |
| Announcements.Form.HandleDelete | src/app/admin/announcements/page.tsx:148-176 | on success the row is gone and the form resets iff it was editing that id; on error nothing changes |
| AdminCalendar.AddDays | src/app/admin/page.tsx:144 | n days later at the same clock time |
| AdminCalendar.NavigationRoundTrip | src/app/admin/page.tsx:142-156 | going back n days and forward n days returns to the same instant |
| AdminCalendar.WeekDays | src/app/admin/page.tsx:107 | the 7 consecutive days from the current date |
| AdminCalendar.HourRows | src/app/admin/page.tsx:110 | the hours 8..18 |
| AdminCalendar.AppointmentsForTimeSlot | src/app/admin/page.tsx:163-170 | exactly the entries starting on that day within that clock hour, in order, each with all its copies |
| AdminCalendar.HourLabelReadsBack | src/app/admin/page.tsx:231-235 | each hour 0..23 reads back from its AM/PM label |
| AdminCalendar.HourLabelInjective | src/app/admin/page.tsx:231-235 | no two hours share a label |
| AdminCalendar.HourLabel | src/app/admin/page.tsx:231-235 | "12 PM", h-12 " PM" after noon, h " AM" before; HourLabelReadsBack states it |
| AdminCalendar.ReadHourLabel | src/app/admin/page.tsx:231-235 | reads a 12-hour label back to its hour; HourLabelReadsBack states it |
| AdminCalendar.HourOf | src/app/admin/page.tsx:167 | `getHours()`; AppointmentsForTimeSlot states the filter by it |
| AdminCalendar.Dashboard.constructor | src/app/admin/page.tsx:103-116 | week view on today, modal closed |
| AdminCalendar.Dashboard.NavigateToPrevious | src/app/admin/page.tsx:142-148 | back 1 day in day view, 7 in week view, unchanged otherwise; view, modal and booking fields stay |
| AdminCalendar.Dashboard.NavigateToNext | src/app/admin/page.tsx:150-156 | forward 1 day in day view, 7 in week view, unchanged otherwise; view, modal and booking fields stay |
| AdminCalendar.Dashboard.NavigateToToday | src/app/admin/page.tsx:158-160 | the current date becomes now; view, modal and booking fields stay |
| AdminCalendar.Dashboard.HandleAddAppointment | src/app/admin/page.tsx:178-191 | the modal closes, the date resets to now, time and service are cleared |
| SmsRoute.NormalizePhone | src/app/api/send-sms/route.ts:32-38 | a '+' number passes unchanged; otherwise "+387" then the rest (without a leading '0') with whitespace removed; always starts with '+' |
| SmsRoute.NormalizePhoneIdempotent | src/app/api/send-sms/route.ts:32-38 | normalising twice equals once |
| SmsRoute.Post | src/app/api/send-sms/route.ts:9-60 | 500 without credentials; 400 without to or message; 500 when sending fails; success exactly when all are present and the send succeeds, to the normalised number |
| LoginSteps.ValidPhoneNumberShape | src/components/UserLoginSteps.tsx:36-39 | an optional '+', a first digit 1-9, then digits only; 2 to 15 digits |
| LoginSteps.ValidPhoneNumberExamples | src/components/UserLoginSteps.tsx:37 | "+38761234567" is accepted; "061234567" and "+1" are not |
| LoginSteps.ValidPhoneNumber | src/components/UserLoginSteps.tsx:36-39 | the phone regular expression; ValidPhoneNumberShape and ValidPhoneNumberExamples state it |
| LoginSteps.EmptyOtp | src/components/UserLoginSteps.tsx:26 | six empty cells |
| LoginSteps.Steps.constructor | src/components/UserLoginSteps.tsx:20-26 | step 1, empty phone, six empty cells, no error |
| LoginSteps.Steps.SetPhoneNumber | src/components/UserLoginSteps.tsx:21 | only the phone changes |
| LoginSteps.Steps.HandleNext | src/components/UserLoginSteps.tsx:41-70 | step 1 advances only with a non-empty valid phone, else an error; step 2 submits and redirects iff all six cells are filled, else an error |
| LoginSteps.Steps.HandleBack | src/components/UserLoginSteps.tsx:72-75 | step 1, error cleared |
| LoginSteps.Steps.HandleReset | src/components/UserLoginSteps.tsx:77-83 | the initial state |
| LoginSteps.Steps.HandleOtpChange | src/components/UserLoginSteps.tsx:85-92 | only the given cell changes, to the input's last character |
| PinCreation.Form.constructor | src/components/PinCreation.tsx:19-23 | two rows of six empty cells, no error |
| PinCreation.Form.HandlePinChange | src/components/PinCreation.tsx:34-54 | the last character is kept; non-digits change nothing; a digit is written into one array only |
| PinCreation.Form.HandleSubmit | src/components/PinCreation.tsx:64-109 | a PIN not six long or not matching is rejected; otherwise the update result decides success or the error message; loading ends |
| PinCreation.EnabledSubmitHasSixDigits | src/components/PinCreation.tsx:191 | an enabled submit button means both PINs have six digits |
| PinCreation.Form.SubmitDisabled | src/components/PinCreation.tsx:191 | the submit button's `disabled` rule; EnabledSubmitHasSixDigits states it |
| ServicePicker.ItemsAgreeWithCatalog | src/components/SelectableGrid.tsx:26-34 | ids 0..6 equal positions; titles are the catalog durations plus "min"; contents are the catalog names |
| ServicePicker.DurationTitles | src/components/SelectableGrid.tsx:27-33 | the duration numbers print as "10", "15", "20", "30" |
| ServicePicker.ItemName | src/components/SelectableGrid.tsx:27-33 | each item's content is the catalog name |
| ServicePicker.Grid.constructor | src/components/SelectableGrid.tsx:24 | nothing selected, nothing reported |
| ServicePicker.Grid.Click | src/components/SelectableGrid.tsx:44-47 | clicking the selected item clears it, any other selects it; every click is reported |

## Left out

- Timezones and daylight saving. The model works on one local clock. The vacation page's UTC offset is an explicit parameter. The `getTimezoneOffset` adjustments before storing and querying are identities here, and `localToUTC`, `utcToLocal`, `prepareAppointmentTimeForStorage` and `formatDateTime` are not part of this model.
- Supabase, sessions and authentication. Tables are sequences. Query errors, a missing session and upsert failures are boolean or `Option` inputs. Refetches after a write are the table itself. Columns the logic never reads, such as `created_at` and the profile's user id on the hook's upsert, are left out.
- Sending SMS. The Twilio call is an input: `Some(messageId)` when it succeeds, `None` when it throws.
- SmsRoute.Post: does not model a request body that is not JSON, nor a `to` that is not a string. `body: None` stands for the first; the second cannot be stated on strings.
- The race between the availability check and the insert. Booking is one sequential step.
- Rendering, toasts, alerts, focus moves and keyboard handlers, and the 1500-millisecond `onComplete` timer of the PIN form. The `date-fns` and `Intl` header and label formatting, and the admin calendar's card geometry, are left out too.
- Labels as text. Slots and appointment times are minutes. `Clock.ParseFormatRoundTrip` and `TimeGrid.LabelsParseBack` tie them to their `HH:MM` strings.
- The vacation page's date strings. Only the `YYYY-MM-DD` form the page writes is read as a date. Other strings are invalid dates. A day of the month up to 31 is accepted and rolls over, as `Date` does. The `Date` branch of `normalizeDate` is never reached, because the page stores strings.
- Vacation.Page.HandleDateSelect: an empty selection array, which throws in the page, is modelled as a no-op.
- The blocked-dates load filter `date >= today`. The loaded rows are a parameter.
- Service ids are integers or strings. Non-integer numbers are not modelled.
- Text.NumberOf: models `Number(s)` on digit strings only. `Number` also reads surrounding whitespace, a sign, exponents, hexadecimal and fractions (`Number(" 5")` is 5, `Number("1.5")` is 1.5), which give `None` here. Its only inputs are the `HH:MM` labels the slot code writes, where the two agree.
- Text.ToLower: folds only the Latin capitals A-Z, where `toLowerCase()` folds every cased Unicode letter (such as 'Š' to 'š'). The search compares phone numbers, which are digits and '+', so results agree on such data.
- UsersAdmin.Matches: inherits the A-Z-only case fold of `Text.ToLower`, so a query with other capital letters may match differently from the page.
- Reservation.Page.HandleConfirm: the error text after a failed insert omits the backend's message. A session error and a missing session are one input.
- Sequences.SortBy: its contract does not state that the sort is stable (equal keys keep their input order), which `Array.prototype.sort` guarantees. Its definition inserts each element ahead of the equal keys after it, so it is stable, but no lemma says so.
- TimeGrid.GenerateTimeSlots: hours are non-negative and the interval positive. A negative hour, or an interval of 0, which never ends in the source, is excluded.
- LoginSteps.Steps.HandleOtpChange: requires an index below 6, the only indices the six inputs produce.
- PinCreation.Form.HandlePinChange: requires an index below 6, for the same reason.
- ServicePicker.Grid.Click: requires an index of one of the seven items.
- UsersAdmin.Page.Previous and UsersAdmin.Page.Next: the pagination row is rendered only when the never-updated `filteredUsers` state is non-empty, so these buttons never appear in the page. They are modelled as if they did.
- AdminCalendar.Dashboard.NavigateToPrevious and AdminCalendar.Dashboard.NavigateToNext: `setView` is never called, so the page is always in week view. All four views are modelled.
- The admin calendar's sample appointment list. Entries are a parameter.
- The booking hook's `fetchAppointments` and the page-level loading flags.

## Findings

| source | as written | input that shows it | evidently intended | confidence | as-written member | corrected member |
|---|---|---|---|---|---|---|
| src/hooks/useTimeSlots.ts:126 | after each booking the cursor is set to the booking's end, even when that is before the day's start | today, 2 April 2025 at 14:05, with a 09:00 booking of service 5: 09:30 is offered although it is in the past | the cursor never moves back: max(cursor, end) | not executed | SlotFindings.PastSlotsReappearToday | SlotAllocator.WalkFixedSound |
| src/hooks/useTimeSlots.ts:121-124 | the gap loop before a booking is bounded by the booking's start only, not by the end of the day | 14 April 2025 at 09:15, cutoff day 21 April (bookable) with a 16:00 booking: the day closes at 10:00 but 10:30 is offered | every gap also stops at the end of the day | not executed | SlotFindings.CutoffIgnoredBeforeLaterBooking | SlotAllocator.ComputeSlotsFixed |
| src/hooks/useTimeSlots.ts:71-75 | the seven-days-ahead cutoff compares year, month and day of month + 7 | 28 April 2025 at 09:15: 5 May is seven days ahead and bookable but offered until 18:30 | the cutoff applies to the date seven days after today in any month | not executed | SlotFindings.CutoffMissedAcrossMonths | SlotAllocator.DayBoundsFixed |
