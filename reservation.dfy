/** The customer's reservation page: the book button, the confirmation step and the
    confirm handler, which inserts the appointment without any conflict query and
    upserts the profile only when it is incomplete. */
module Reservation {
  import opened Text
  import opened Calendar
  import opened ServiceCatalog
  import opened BookingDates
  import opened Appointments

  const MissingContact: string := "Molimo unesite vaše ime i broj telefona"
  const MissingFields: string := "Please complete all required fields"
  const AuthFailed: string := "Authentication error. Please sign in to book an appointment."
  const CreateFailed: string := "Error creating appointment: "

  /** The book button's `disabled` rule. */
  predicate BookDisabled(date: Option<int>, time: Option<nat>, service: ServiceRef,
                         name: string, phone: string, upcoming: nat)
  {
    date.None? || time.None? || service.Null? || name == "" || phone == "" || upcoming >= MaxUpcoming
  }

  /** An enabled button always gets past both the submit check and the confirm check. */
  lemma EnabledButtonPassesChecks(date: Option<int>, time: Option<nat>, service: ServiceRef,
                                  name: string, phone: string, upcoming: nat)
    requires !BookDisabled(date, time, service, name, phone, upcoming)
    ensures name != "" && phone != ""
    ensures date.Some? && time.Some? && !service.Null?
    ensures upcoming < MaxUpcoming
  {
  }

  /** A profile that lacks a name or a phone number, or is not loaded at all. */
  predicate Incomplete(user: Option<Profile>)
  {
    user.None? || user.value.name == "" || user.value.phone == ""
  }

  class Page {
    var date: Option<int>
    var selectedTime: Option<nat>
    var selectedService: ServiceRef
    var name: string
    var phone: string
    var showConfirmation: bool
    var error: Option<string>

    constructor(now: int)
      ensures date == Some(DayOf(StartDate(now))) && selectedTime == None && selectedService == Null
      ensures name == "" && phone == "" && !showConfirmation && error == None
    {
      date := Some(DayOf(StartDate(now)));
      selectedTime := None;
      selectedService := Null;
      name := "";
      phone := "";
      showConfirmation := false;
      error := None;
    }

    /** `handleReservationSubmit`: the confirmation opens only with a name and a phone. */
    method HandleReservationSubmit()
      modifies this
      ensures showConfirmation <==> old(showConfirmation) || (name != "" && phone != "")
      ensures name == "" || phone == "" ==> error == Some(MissingContact)
      ensures name != "" && phone != "" ==> error == old(error)
      ensures date == old(date) && selectedTime == old(selectedTime) && selectedService == old(selectedService)
      ensures name == old(name) && phone == old(phone)
    {
      if name == "" || phone == "" {
        error := Some(MissingContact);
        return;
      }
      showConfirmation := true;
    }

    /** `handleConfirm` at instant `now`. Nothing is written unless a date, a time and a
        service are chosen and a session exists; a successful insert resets the form
        to the first bookable date, and the profile is upserted (keyed by the user)
        only when incomplete, its failure not undoing the booking. */
    method HandleConfirm(store: Store, now: int, session: Option<string>, user: Option<Profile>,
                         insertError: bool, upsertError: bool)
      requires store.Valid()
      requires selectedTime.Some? ==> selectedTime.value < 1440
      modifies this, store
      ensures store.Valid()
      ensures store.canceled == old(store.canceled)
      ensures name == old(name) && phone == old(phone)
      ensures old(date).None? || old(selectedTime).None? || old(selectedService).Null? ==>
                store.appointments == old(store.appointments) && store.profiles == old(store.profiles)
                && error == Some(MissingFields)
      ensures old(date).Some? && old(selectedTime).Some? && !old(selectedService).Null? ==>
                var inserted := session.Some? && !insertError;
                (session.None? ==> error == Some(AuthFailed))
                && (session.Some? && insertError ==> error == Some(CreateFailed))
                && (!inserted ==> store.appointments == old(store.appointments)
                                  && store.profiles == old(store.profiles))
                && (inserted ==>
                      store.appointments == old(store.appointments)
                        + [Row(old(store.nextId), Some(name), Some(phone), old(selectedService),
                               AppointmentInstant(old(date).value, old(selectedTime).value), Some(session.value))]
                      && store.profiles == (if Incomplete(user) && !upsertError
                                            then old(store.profiles) + [Profile(Some(session.value), name, phone)]
                                            else old(store.profiles))
                      && !showConfirmation && date == Some(DayOf(StartDate(now)))
                      && selectedTime.None? && selectedService.Null? && error == old(error))
      ensures old(date).None? || old(selectedTime).None? || old(selectedService).Null? || session.None? || insertError ==>
                date == old(date) && selectedTime == old(selectedTime) && selectedService == old(selectedService)
                && showConfirmation == old(showConfirmation)
    {
      if date.None? || selectedTime.None? || selectedService.Null? {
        error := Some(MissingFields);
        return;
      }
      if session.None? {
        error := Some(AuthFailed);
        return;
      }
      var userId := session.value;
      var start := AppointmentInstant(date.value, selectedTime.value);
      if insertError {
        error := Some(CreateFailed);
        return;
      }
      store.Insert(name, phone, selectedService, start, userId);
      if Incomplete(user) && !upsertError {
        store.AddProfile(Profile(Some(userId), name, phone));
      }
      showConfirmation := false;
      date := Some(DayOf(StartDate(now)));
      selectedTime := None;
      selectedService := Null;
    }
  }
}
