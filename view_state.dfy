/** `ViewState`: the GUI's global state. Each setter changes one attribute
    and notifies the change listeners, but most of them only when the
    attribute really changed; the listeners themselves are not modelled,
    only the number of change events fired. */
module ViewStates {
  import opened Base
  import opened Appointments
  import opened Searches
  import Control

  /** The interface is always in exactly one of these states. */
  datatype State = Month | Week | Day | Unauthorized | Admin | Search

  /** A `java.util.Calendar` object. `ViewState` compares dates by reference,
      so two objects holding the same instant are still different dates. */
  class Calendar {
    var time: int

    constructor (time: int)
      ensures this.time == time
    {
      this.time := time;
    }
  }

  /** `isChange`: whether two possibly-null strings differ. */
  function IsChange(before: Option<string>, after: Option<string>): (changed: bool)
    ensures changed <==> before != after
  {
    if before.None? && after.None? then false
    else if before.None? || after.None? then true
    else before.value != after.value
  }

  class ViewState {
    const controller: Control.Controller
    var error: Option<string>
    var warning: Option<string>
    var state: State
    var date: Calendar?
    var appointment: Option<Appointment>
    var search: Option<Searches.Search>
    /** How many change events have been fired so far. */
    var events: nat

    constructor (controller: Control.Controller)
      ensures this.controller == controller
      ensures state == Unauthorized && date == null && appointment == None && search == None
      ensures error == None && warning == None && events == 0
    {
      this.controller := controller;
      state := Unauthorized;
      date := null;
      appointment := None;
      search := None;
      error := None;
      warning := None;
      events := 0;
    }

    /** Changes the state; an event is fired only when it differs. */
    method SetState(s: Option<State>) returns (o: Outcome)
      modifies this
      ensures s.None? <==> o == Fail(NullPointer)
      ensures s.Some? ==> o == Pass
      ensures o.Fail? ==> state == old(state) && events == old(events)
      ensures o == Pass ==> state == s.value
      ensures o == Pass ==> events == old(events) + (if s.value != old(state) then 1 else 0)
      ensures date == old(date) && appointment == old(appointment) && search == old(search)
      ensures error == old(error) && warning == old(warning)
    {
      if s.None? {
        return Fail(NullPointer);
      }
      if s.value != state {
        state := s.value;
        events := events + 1;
      }
      return Pass;
    }

    /** Moves to a view of the range holding `date`; one event if either changed. */
    method SetStateAndDate(s: Option<State>, date: Calendar?) returns (o: Outcome)
      modifies this
      ensures s.None? <==> o == Fail(NullPointer)
      ensures s.Some? ==> o == Pass
      ensures o.Fail? ==> state == old(state) && this.date == old(this.date) && events == old(events)
      ensures o == Pass ==> state == s.value && this.date == date
      ensures o == Pass ==>
        events == old(events) + (if s.value != old(state) || date != old(this.date) then 1 else 0)
      ensures appointment == old(appointment) && search == old(search)
      ensures error == old(error) && warning == old(warning)
    {
      if s.None? {
        return Fail(NullPointer);
      }
      var changed := false;
      if s.value != state || date != this.date {
        changed := true;
      }
      state := s.value;
      this.date := date;
      if changed {
        events := events + 1;
      }
      return Pass;
    }

    /** Changes the displayed range; a different Calendar object counts as a change. */
    method SetDate(date: Calendar?)
      modifies this
      ensures this.date == date
      ensures events == old(events) + (if date != old(this.date) then 1 else 0)
      ensures state == old(state) && appointment == old(appointment) && search == old(search)
      ensures error == old(error) && warning == old(warning)
    {
      var changed := false;
      if date != this.date {
        changed := true;
      }
      this.date := date;
      if changed {
        events := events + 1;
      }
    }

    /** Selects an appointment (or none); always fires an event. */
    method SetAppointment(app: Option<Appointment>)
      modifies this
      ensures appointment == app && events == old(events) + 1
      ensures state == old(state) && date == old(date) && search == old(search)
      ensures error == old(error) && warning == old(warning)
    {
      appointment := app;
      events := events + 1;
    }

    method SetError(str: Option<string>)
      modifies this
      ensures error == str
      ensures events == old(events) + (if str != old(error) then 1 else 0)
      ensures state == old(state) && date == old(date) && appointment == old(appointment)
      ensures search == old(search) && warning == old(warning)
    {
      var changed := IsChange(error, str);
      error := str;
      if changed {
        events := events + 1;
      }
    }

    method SetWarning(str: Option<string>)
      modifies this
      ensures warning == str
      ensures events == old(events) + (if str != old(warning) then 1 else 0)
      ensures state == old(state) && date == old(date) && appointment == old(appointment)
      ensures search == old(search) && error == old(error)
    {
      var changed := IsChange(warning, str);
      warning := str;
      if changed {
        events := events + 1;
      }
    }

    /** Starts (or ends, with `None`) a search; always fires an event. */
    method SetSearch(search: Option<Searches.Search>)
      modifies this
      ensures this.search == search && events == old(events) + 1
      ensures state == old(state) && date == old(date) && appointment == old(appointment)
      ensures error == old(error) && warning == old(warning)
    {
      this.search := search;
      events := events + 1;
    }

    /** The current user's appointments matching the current search, or
        `None` when no search is set; an error when nobody is logged in. */
    method GetSearchResults() returns (r: Result<Option<seq<Appointment>>>)
      requires controller.Valid()
      ensures search.None? ==> r == Success(None)
      ensures search.Some? && !controller.loggedIn ==> r == Failure(IllegalState)
      ensures search.Some? && controller.loggedIn ==>
        r == Success(Some(Filter(controller.currentUser.apps, Matcher(search.value))))
        && StrictlySorted(r.value.value)
    {
      if search.None? {
        return Success(None);
      }
      var all := controller.ListAllAppointments();
      if all.Failure? {
        return Failure(all.error);
      }
      var output := FilterAppointments(search.value, all.value);
      FilterKeepsStrictlySorted(all.value, Matcher(search.value));
      return Success(Some(output));
    }
  }
}
