/** `SerializableBackend`: the store of users, a map from user id to user. */
module SerializableBackends {
  import opened Base
  import opened Appointments
  import opened SerializableUsers
  import opened SerializableAppointments

  class SerializableBackend {
    var users: map<string, SerializableUser>

    /** Every user is stored under its own id and keeps its appointment set well formed. */
    ghost predicate Valid()
      reads this, users.Values
    {
      forall id :: id in users ==> users[id].id == id && users[id].Valid()
    }

    /** The constructor when no storage file exists yet: an empty store. */
    constructor ()
      ensures Valid()
      ensures users == map[]
    {
      users := map[];
    }

    /** A new user that is not stored until `WriteUser`; an id already in use is refused. */
    method CreateUser(id: Option<string>, name: Option<string>) returns (r: Result<SerializableUser>)
      ensures id.Some? && id.value in users ==> r == Failure(DuplicateUserId(id.value))
      ensures (id.None? || id.value !in users) && (id.None? || name.None?) ==> r == Failure(NullPointer)
      ensures r.Success? <==> id.Some? && id.value !in users && name.Some?
      ensures r.Success? ==>
        fresh(r.value) && r.value.Valid()
        && r.value.id == id.value && r.value.name == name.value && r.value.apps == []
    {
      if id.Some? && id.value in users {
        return Failure(DuplicateUserId(id.value));
      }
      r := SerializableUser.Create(id, name);
    }

    /** A new appointment, checked as its constructor checks it. */
    method CreateAppointment(desc: Option<string>, loc: string, start: Option<int>, end: Option<int>)
      returns (r: Result<SerializableAppointment>)
      ensures CheckAppointment(desc, start, end).Fail? ==> r == Failure(CheckAppointment(desc, start, end).error)
      ensures CheckAppointment(desc, start, end) == Pass ==>
        r.Success? && fresh(r.value) && r.value.Valid()
        && r.value.Value() == Appointment(start.value, end.value, loc, desc.value)
    {
      r := SerializableAppointment.Create(desc, loc, start, end);
    }

    /** Removes the user stored under the given user's id. */
    method DeleteUser(user: SerializableUser) returns (o: Outcome)
      requires Valid()
      modifies this
      ensures Valid()
      ensures user.id !in old(users) <==> o == Fail(NoSuchElement)
      ensures o.Fail? ==> o == Fail(NoSuchElement) && users == old(users)
      ensures o == Pass ==> users == old(users) - {user.id}
    {
      if user.id !in users {
        return Fail(NoSuchElement);
      }
      users := users - {user.id};
      return Pass;
    }

    method GetUserIds() returns (ids: set<string>)
      ensures forall id :: id in ids <==> id in users
    {
      ids := users.Keys;
    }

    /** The stored user with this id. */
    method ReadUser(id: string) returns (r: Result<SerializableUser>)
      requires Valid()
      ensures id !in users <==> r == Failure(NoSuchElement)
      ensures r.Failure? ==> r == Failure(NoSuchElement)
      ensures r.Success? ==> r.value == users[id] && r.value.id == id && r.value.Valid()
    {
      if id !in users {
        return Failure(NoSuchElement);
      }
      return Success(users[id]);
    }

    /** Stores the user under its id, replacing any user stored there. */
    method WriteUser(user: SerializableUser)
      requires Valid() && user.Valid()
      modifies this
      ensures Valid()
      ensures users == old(users)[user.id := user]
    {
      users := users[user.id := user];
    }
  }
}
