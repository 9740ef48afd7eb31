/** `SerializableAppointment`: the one concrete appointment class. Its fields
    change through setters that reject null arguments and an end before the
    start; its value is an `Appointments.Appointment`. */
module SerializableAppointments {
  import opened Base
  import opened Appointments

  /** What `setDuration` checks, in its order: both instants present, then
      the end not before the start (an empty appointment is accepted). */
  function CheckDuration(start: Option<int>, end: Option<int>): (o: Outcome)
    ensures o == Pass <==> start.Some? && end.Some? && start.value <= end.value
    ensures o.Fail? ==> o.error == NullPointer || o.error == InvalidDate
    ensures o == Fail(NullPointer) <==> start.None? || end.None?
  {
    if start.None? || end.None? then Fail(NullPointer)
    else if end.value < start.value then Fail(InvalidDate)
    else Pass
  }

  /** What the constructor checks, in its order: the description first, then the duration. */
  function CheckAppointment(desc: Option<string>, start: Option<int>, end: Option<int>): (o: Outcome)
    ensures o == Pass <==> desc.Some? && CheckDuration(start, end) == Pass
    ensures desc.None? ==> o == Fail(NullPointer)
    ensures desc.Some? ==> o == CheckDuration(start, end)
  {
    if desc.None? then Fail(NullPointer) else CheckDuration(start, end)
  }

  class SerializableAppointment {
    var description: string
    var location: string
    var startTime: int
    var endTime: int

    /** The setters never let the end precede the start. */
    ghost predicate Valid()
      reads this
    {
      startTime <= endTime
    }

    /** The four attributes the natural order and `equals` look at. */
    function Value(): Appointment
      reads this
    {
      Appointment(startTime, endTime, location, description)
    }

    constructor Init(desc: string, loc: string, start: int, end: int)
      requires start <= end
      ensures Valid()
      ensures Value() == Appointment(start, end, loc, desc)
    {
      description, location, startTime, endTime := desc, loc, start, end;
    }

    /** The public constructor, which throws when a setter does. */
    static method Create(desc: Option<string>, loc: string, start: Option<int>, end: Option<int>)
      returns (r: Result<SerializableAppointment>)
      ensures CheckAppointment(desc, start, end).Fail? ==> r == Failure(CheckAppointment(desc, start, end).error)
      ensures CheckAppointment(desc, start, end) == Pass ==>
        r.Success? && fresh(r.value) && r.value.Valid()
        && r.value.Value() == Appointment(start.value, end.value, loc, desc.value)
    {
      var check := CheckAppointment(desc, start, end);
      if check.Fail? {
        return Failure(check.error);
      }
      var app := new SerializableAppointment.Init(desc.value, loc, start.value, end.value);
      return Success(app);
    }

    /** A value copy; the copy is a fresh object, so later changes to either do not affect the other. */
    method Clone() returns (c: SerializableAppointment)
      requires Valid()
      ensures fresh(c) && c.Valid()
      ensures c.Value() == Value()
    {
      c := new SerializableAppointment.Init(description, location, startTime, endTime);
    }

    method SetDescription(desc: Option<string>) returns (o: Outcome)
      requires Valid()
      modifies this
      ensures Valid()
      ensures desc.None? ==> o == Fail(NullPointer) && Value() == old(Value())
      ensures desc.Some? ==> o == Pass && Value() == old(Value()).(description := desc.value)
    {
      if desc.None? {
        return Fail(NullPointer);
      }
      description := desc.value;
      return Pass;
    }

    method SetLocation(loc: string)
      requires Valid()
      modifies this
      ensures Valid()
      ensures Value() == old(Value()).(location := loc)
    {
      location := loc;
    }

    /** Sets both instants, or throws and changes nothing. */
    method SetDuration(start: Option<int>, end: Option<int>) returns (o: Outcome)
      requires Valid()
      modifies this
      ensures Valid()
      ensures o == CheckDuration(start, end)
      ensures o.Fail? ==> Value() == old(Value())
      ensures o == Pass ==> Value() == old(Value()).(startTime := start.value, endTime := end.value)
    {
      o := CheckDuration(start, end);
      if o == Pass {
        startTime, endTime := start.value, end.value;
      }
    }
  }
}
