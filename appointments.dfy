/** The appointments table and what the customer-facing pages do with it: loading and
    normalising rows, the owner's upcoming bookings, the booking decision sequence
    (validation, session, conflict query, insert, best-effort profile upsert) and the
    cancellation sequence (fetch, best-effort audit record, delete). The backend tables
    are sequences; a query or session failure is an input. */
module Appointments {
  import opened Text
  import opened Calendar
  import opened Sequences
  import opened ServiceCatalog
  import SlotAllocator

  /** A row of the `appointments` table; `name`, `phone_number` and `user_id` may be null. */
  datatype Row = Row(id: int, name: Option<string>, phone: Option<string>, service: ServiceRef,
                     time: int, userId: Option<string>)

  /** A row as the pages hold it after loading. */
  datatype Loaded = Loaded(id: int, name: string, phone: string, service: ServiceRef, time: int)

  /** A row of `canceled_appointments`. */
  datatype Canceled = Canceled(originalId: int, name: Option<string>, phone: Option<string>,
                               service: ServiceRef, time: int, userId: Option<string>)

  /** A row of `users`. */
  datatype Profile = Profile(userId: Option<string>, name: string, phone: string)

  /** `value || fallback` for a nullable string column. */
  function OrElse(value: Option<string>, fallback: string): (r: string)
    ensures value.Some? && value.value != "" ==> r == value.value
    ensures value.None? || value.value == "" ==> r == fallback
  {
    if value.Some? && value.value != "" then value.value else fallback
  }

  /** A loaded row: a missing name reads "Unnamed", a missing phone the empty string. */
  function Normalize(row: Row): (l: Loaded)
    ensures l.name != ""
    ensures l.id == row.id && l.service == row.service && l.time == row.time
    ensures row.name.Some? && row.name.value != "" ==> l.name == row.name.value
    ensures row.phone.Some? ==> l.phone == row.phone.value
    ensures row.phone.None? ==> l.phone == ""
  {
    Loaded(row.id, OrElse(row.name, "Unnamed"), OrElse(row.phone, ""), row.service, row.time)
  }

  function NormalizeAll(rows: seq<Row>): (ls: seq<Loaded>)
    ensures |ls| == |rows| && forall i :: 0 <= i < |rows| ==> ls[i] == Normalize(rows[i])
  {
    seq(|rows|, i requires 0 <= i < |rows| => Normalize(rows[i]))
  }

  /** `getAppointmentsForDate`: the loaded appointments on that calendar day. */
  function ForDate(appts: seq<Loaded>, date: int): (r: seq<Loaded>)
    ensures forall a :: a in r <==> a in appts && DayOf(a.time) == date
    ensures Subsequence(r, appts)
    ensures forall a :: multiset(r)[a] == if DayOf(a.time) == date then multiset(appts)[a] else 0
  {
    if appts == [] then []
    else
      assert appts == [appts[0]] + appts[1..];
      var rest := ForDate(appts[1..], date);
      if DayOf(appts[0].time) == date then [appts[0]] + rest else rest
  }

  /** The slot allocator's view of a loaded appointment. */
  function SlotAppointments(appts: seq<Loaded>): (r: seq<SlotAllocator.Appointment>)
    ensures |r| == |appts|
    ensures forall i :: 0 <= i < |appts| ==> r[i] == SlotAllocator.Appointment(appts[i].time, appts[i].service)
  {
    seq(|appts|, i requires 0 <= i < |appts| => SlotAllocator.Appointment(appts[i].time, appts[i].service))
  }

  function TimeOf(r: Row): int { r.time }

  predicate Upcoming(r: Row, userId: string, now: int)
  {
    r.userId == Some(userId) && r.time >= now
  }

  function UpcomingRows(rows: seq<Row>, userId: string, now: int): (r: seq<Row>)
    ensures forall x :: x in r <==> x in rows && Upcoming(x, userId, now)
    ensures Subsequence(r, rows)
    ensures forall x :: multiset(r)[x] == if Upcoming(x, userId, now) then multiset(rows)[x] else 0
  {
    if rows == [] then []
    else
      assert rows == [rows[0]] + rows[1..];
      var rest := UpcomingRows(rows[1..], userId, now);
      if Upcoming(rows[0], userId, now) then [rows[0]] + rest else rest
  }

  /** `fetchUserAppointments(userId)` at instant `now`: the owner's rows at or after
      now, earliest first, at most three. */
  function UserUpcoming(rows: seq<Row>, userId: string, now: int): (r: seq<Row>)
  {
    Take(SortBy(UpcomingRows(rows, userId, now), TimeOf), 3)
  }

  /** The user's list holds at most three of their own rows at or after now. */
  lemma UserUpcomingOwned(rows: seq<Row>, userId: string, now: int)
    ensures |UserUpcoming(rows, userId, now)| <= 3
    ensures forall x :: x in UserUpcoming(rows, userId, now) ==> x in rows && Upcoming(x, userId, now)
  {
    var m := UpcomingRows(rows, userId, now);
    var s := SortBy(m, TimeOf);
    var r := Take(s, 3);
    forall x | x in r ensures x in rows && Upcoming(x, userId, now) {
      var i :| 0 <= i < |r| && r[i] == x;
      assert s[i] == x;
      assert x in multiset(s);
    }
  }

  /** ... earliest first ... */
  lemma UserUpcomingOrdered(rows: seq<Row>, userId: string, now: int)
    ensures var r := UserUpcoming(rows, userId, now);
            forall i, j :: 0 <= i < j < |r| ==> r[i].time <= r[j].time
  {
    var s := SortBy(UpcomingRows(rows, userId, now), TimeOf);
    var r := Take(s, 3);
    forall i, j | 0 <= i < j < |r| ensures r[i].time <= r[j].time {
      assert TimeOf(s[i]) <= TimeOf(s[j]);
    }
  }

  /** ... and when a matching row is left out, the list is full and no entry is later
      than that row. */
  lemma UserUpcomingEarliest(rows: seq<Row>, userId: string, now: int, x: Row)
    requires x in rows && Upcoming(x, userId, now)
    requires x !in UserUpcoming(rows, userId, now)
    ensures |UserUpcoming(rows, userId, now)| == 3
    ensures forall y :: y in UserUpcoming(rows, userId, now) ==> y.time <= x.time
  {
    var m := UpcomingRows(rows, userId, now);
    var s := SortBy(m, TimeOf);
    var r := Take(s, 3);
    assert x in multiset(m);
    assert x in s;
    var j :| 0 <= j < |s| && s[j] == x;
    assert j >= |r|;
    forall y | y in r ensures y.time <= x.time {
      var i :| 0 <= i < |r| && r[i] == y;
      assert TimeOf(s[i]) <= TimeOf(s[j]);
    }
  }

  /** The rows the booking's conflict query returns: `.or(time >= start, time < end)`
      combined with `.eq(time, start)`. */
  function ConflictRows(rows: seq<Row>, start: int, end: int): (r: seq<Row>)
    ensures forall x :: x in r ==> x in rows
  {
    if rows == [] then []
    else
      var rest := ConflictRows(rows[1..], start, end);
      var t := rows[0].time;
      if EitherBound(t, start, end) && t == start then [rows[0]] + rest else rest
  }

  predicate EitherBound(t: int, start: int, end: int) { t >= start || t < end }

  /** With `start < end` the `or` part matches every row, so the query finds exactly the
      rows starting at the same instant; a booking that overlaps without starting
      at the same instant is not found. */
  lemma {:induction false} ConflictIsExactStart(rows: seq<Row>, start: int, end: int)
    requires start < end
    ensures forall t :: EitherBound(t, start, end)
    ensures |ConflictRows(rows, start, end)| > 0 <==> exists x :: x in rows && x.time == start
  {
    if rows != [] {
      ConflictIsExactStart(rows[1..], start, end);
      if rows[0].time != start {
        assert forall x :: x in rows && x.time == start ==> x in rows[1..];
      }
    }
  }

  /** The stored instant of a booking: the chosen day at the chosen clock minute. */
  function AppointmentInstant(date: int, minute: nat): (t: int)
    requires minute < 1440
    ensures DayOf(t) == date && MinuteOfDay(t) == minute
  {
    date * 1440 + minute
  }

  /** Every row with that id, in table order. */
  function WithId(rows: seq<Row>, id: int): (r: seq<Row>)
    ensures forall x :: x in r <==> x in rows && x.id == id
    ensures Subsequence(r, rows)
    ensures forall x :: multiset(r)[x] == if x.id == id then multiset(rows)[x] else 0
  {
    if rows == [] then []
    else
      assert rows == [rows[0]] + rows[1..];
      var rest := WithId(rows[1..], id);
      if rows[0].id == id then [rows[0]] + rest else rest
  }

  /** `.delete().eq('id', id)`: the other rows, order kept. */
  function WithoutId(rows: seq<Row>, id: int): (r: seq<Row>)
    ensures forall x :: x in r <==> x in rows && x.id != id
    ensures Subsequence(r, rows)
    ensures forall x :: multiset(r)[x] == if x.id != id then multiset(rows)[x] else 0
  {
    if rows == [] then []
    else
      assert rows == [rows[0]] + rows[1..];
      var rest := WithoutId(rows[1..], id);
      if rows[0].id != id then [rows[0]] + rest else rest
  }

  /** The audit copy of a cancelled row. */
  function Record(row: Row): (c: Canceled)
    ensures c.originalId == row.id && c.name == row.name && c.phone == row.phone
    ensures c.service == row.service && c.time == row.time && c.userId == row.userId
  {
    Canceled(row.id, row.name, row.phone, row.service, row.time, row.userId)
  }

  /** The three tables the booking pages touch. */
  class Store {
    var appointments: seq<Row>
    var canceled: seq<Canceled>
    var profiles: seq<Profile>
    var nextId: int

    predicate Valid()
      reads this
    {
      forall r :: r in appointments ==> r.id < nextId
    }

    constructor()
      ensures Valid()
      ensures appointments == [] && canceled == [] && profiles == [] && nextId == 1
    {
      appointments := [];
      canceled := [];
      profiles := [];
      nextId := 1;
    }

    /** `insert([row]).select()`: the new row gets the next id. */
    method Insert(name: string, phone: string, service: ServiceRef, time: int, userId: string)
      requires Valid()
      modifies this
      ensures Valid()
      ensures appointments == old(appointments) + [Row(old(nextId), Some(name), Some(phone), service, time, Some(userId))]
      ensures nextId == old(nextId) + 1
      ensures canceled == old(canceled) && profiles == old(profiles)
    {
      appointments := appointments + [Row(nextId, Some(name), Some(phone), service, time, Some(userId))];
      nextId := nextId + 1;
    }

    method AddProfile(p: Profile)
      modifies this
      ensures profiles == old(profiles) + [p]
      ensures appointments == old(appointments) && canceled == old(canceled) && nextId == old(nextId)
    {
      profiles := profiles + [p];
    }

    /** `handleBookAppointment`. `date` is a day number and `minute` the clock minute of
        the chosen slot; `session` is the signed-in user's id, or `None` when there is no
        session or it failed. The flags say which backend calls fail. */
    method HandleBookAppointment(date: Option<int>, minute: Option<nat>, service: ServiceRef,
                                 name: string, phone: string, session: Option<string>,
                                 checkError: bool, insertError: bool, upsertError: bool)
      returns (ok: bool)
      requires Valid()
      requires minute.Some? ==> minute.value < 1440
      modifies this
      ensures Valid()
      ensures canceled == old(canceled)
      ensures ok <==> date.Some? && minute.Some? && !service.Null? && session.Some? && !checkError
                      && !(exists x :: x in old(appointments) && x.time == AppointmentInstant(date.value, minute.value))
                      && !insertError
      ensures !ok ==> appointments == old(appointments) && profiles == old(profiles)
      ensures ok ==> appointments == old(appointments)
                       + [Row(old(nextId), Some(name), Some(phone), service,
                              AppointmentInstant(date.value, minute.value), Some(session.value))]
      ensures ok && !upsertError ==> profiles == old(profiles) + [Profile(None, name, phone)]
      ensures ok && upsertError ==> profiles == old(profiles)
    {
      if date.None? || minute.None? || service.Null? {
        return false;
      }
      if session.None? {
        return false;
      }
      var start := AppointmentInstant(date.value, minute.value);
      var end := start + Duration(service);
      var conflicts := ConflictRows(appointments, start, end);
      if checkError {
        return false;
      }
      ConflictIsExactStart(appointments, start, end);
      if |conflicts| > 0 {
        return false;
      }
      if insertError {
        return false;
      }
      Insert(name, phone, service, start, session.value);
      if !upsertError {
        AddProfile(Profile(None, name, phone));
      }
      return true;
    }

    /** `cancelAppointment(id)`. The fetch uses `.single()`, so it fails unless exactly
        one row has the id. A failed audit insert does not stop the delete; a failed
        delete returns false but leaves the audit record in place. */
    method CancelAppointment(id: int, fetchError: bool, insertError: bool, deleteError: bool)
      returns (ok: bool)
      requires Valid()
      modifies this
      ensures Valid()
      ensures profiles == old(profiles) && nextId == old(nextId)
      ensures var found := WithId(old(appointments), id);
              var fetched := !fetchError && |found| == 1;
              (ok <==> fetched && !deleteError)
              && (fetched && !insertError ==> canceled == old(canceled) + [Record(found[0])])
              && (!fetched || insertError ==> canceled == old(canceled))
              && (ok ==> appointments == WithoutId(old(appointments), id))
              && (!ok ==> appointments == old(appointments))
      ensures ok ==> forall r :: r in appointments ==> r.id != id
    {
      var found := WithId(appointments, id);
      if fetchError || |found| != 1 {
        return false;
      }
      var row := found[0];
      if !insertError {
        canceled := canceled + [Record(row)];
      }
      if deleteError {
        return false;
      }
      appointments := WithoutId(appointments, id);
      return true;
    }
  }
}
