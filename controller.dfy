/** `Controller`: the session between the views and the backend. It tracks
    the logged-in user, refuses appointment operations while nobody is logged
    in, and answers range and conflict queries with sorted lists. */
module Control {
  import opened Base
  import opened Appointments
  import opened SerializableAppointments
  import opened SerializableUsers
  import opened SerializableBackends

  /** The test both queries apply: the appointment starts before `end` and
      ends after `start`, so it overlaps the open interval between them. */
  function InRange(start: int, end: int): Appointment -> bool
  {
    (a: Appointment) => a.startTime < end && a.endTime > start
  }

  /** The answer of `isModificationValid`: replacing `original` by `rep` is refused
      only when `rep` equals some other attended appointment. */
  function ModificationValid(apps: seq<Appointment>, original: Option<Appointment>, rep: Appointment): bool
  {
    !(rep in apps && !Equals(rep, original))
  }

  /** The loop both queries run: the attended appointments that pass the
      range test, in the set's order. */
  method SelectInRange(apps: seq<Appointment>, start: int, end: int) returns (selected: seq<Appointment>)
    ensures selected == Filter(apps, InRange(start, end))
  {
    selected := [];
    var i := 0;
    while i < |apps|
      invariant 0 <= i <= |apps|
      invariant selected == Filter(apps[..i], InRange(start, end))
    {
      assert apps[..i + 1][..i] == apps[..i];
      if apps[i].startTime < end {
        if apps[i].endTime > start {
          selected := selected + [apps[i]];
        }
      }
      i := i + 1;
    }
    assert apps[..i] == apps;
  }

  /** A range query on a user's set: already strictly increasing, so the
      final sort changes nothing, and it holds exactly the overlapping appointments. */
  lemma SortedSelection(apps: seq<Appointment>, start: int, end: int)
    requires StrictlySorted(apps)
    ensures SortNatural(Filter(apps, InRange(start, end))) == Filter(apps, InRange(start, end))
    ensures StrictlySorted(Filter(apps, InRange(start, end)))
    ensures forall a :: a in Filter(apps, InRange(start, end)) <==>
      a in apps && a.startTime < end && a.endTime > start
  {
    FilterKeepsStrictlySorted(apps, InRange(start, end));
    SortNaturalOfStrictlySorted(Filter(apps, InRange(start, end)));
    forall a ensures a in Filter(apps, InRange(start, end)) <==> a in apps && a.startTime < end && a.endTime > start {
      FilterMembership(apps, InRange(start, end), a);
    }
  }

  /** Conflict is symmetric: `a` is among `b`'s conflicts exactly when `b` is among `a`'s. */
  lemma ConflictIsSymmetric(a: Appointment, b: Appointment)
    ensures InRange(a.startTime, a.endTime)(b) <==> InRange(b.startTime, b.endTime)(a)
  {
  }

  /** An attended appointment of positive length is among its own conflicts;
      one of zero length is not. */
  lemma SelfConflict(apps: seq<Appointment>, a: Appointment)
    requires a in apps
    ensures a in Filter(apps, InRange(a.startTime, a.endTime)) <==> a.startTime < a.endTime
  {
    FilterMembership(apps, InRange(a.startTime, a.endTime), a);
  }

  /** When `original` is attended, the modification is valid exactly when `rep`
      can be added once `original` has been removed. */
  lemma ModificationValidMeansReplaceable(apps: seq<Appointment>, original: Appointment, rep: Appointment)
    requires StrictlySorted(apps) && original in apps
    ensures ModificationValid(apps, Some(original), rep) <==> rep !in Remove(apps, original)
  {
    EqualsIsValueEquality(rep, Some(original));
  }

  /** With no original (a null argument), a modification is valid exactly when `rep` is new. */
  lemma ModificationValidWithoutOriginal(apps: seq<Appointment>, rep: Appointment)
    ensures ModificationValid(apps, None, rep) <==> rep !in apps
  {
  }

  class Controller {
    const backend: SerializableBackend
    var currentUser: SerializableUser?
    var loggedIn: bool

    ghost predicate Valid()
      reads this, backend, backend.users.Values, currentUser
    {
      backend.Valid() && Session()
    }

    /** Someone is logged in exactly when there is a current user, whose
        appointments are kept in order. */
    ghost predicate Session()
      reads this, currentUser
    {
      (loggedIn <==> currentUser != null) && (currentUser != null ==> currentUser.Valid())
    }

    constructor (backend: SerializableBackend)
      requires backend.Valid()
      ensures Valid()
      ensures this.backend == backend && !loggedIn && currentUser == null
    {
      this.backend := backend;
      currentUser := null;
      loggedIn := false;
    }

    method ListUsers() returns (ids: set<string>)
      ensures forall id :: id in ids <==> id in backend.users
    {
      ids := backend.GetUserIds();
    }

    /** The stored user with this id, or `NoSuchUser`. */
    method GetUser(id: string) returns (r: Result<SerializableUser>)
      requires Valid()
      ensures id !in backend.users <==> r == Failure(NoSuchUser(id))
      ensures r.Failure? ==> r == Failure(NoSuchUser(id))
      ensures r.Success? ==> r.value == backend.users[id] && r.value.id == id
    {
      r := backend.ReadUser(id);
      if r.Failure? {
        r := Failure(NoSuchUser(id));
      }
    }

    /** Creates a user and stores it; no other user changes. */
    method CreateUser(id: Option<string>, name: Option<string>) returns (o: Outcome)
      requires Valid()
      modifies backend
      ensures Valid()
      ensures id.Some? && id.value in old(backend.users) ==> o == Fail(DuplicateUserId(id.value))
      ensures (id.None? || id.value !in old(backend.users)) && (id.None? || name.None?) ==> o == Fail(NullPointer)
      ensures o.Fail? ==> backend.users == old(backend.users)
      ensures o == Pass <==> id.Some? && id.value !in old(backend.users) && name.Some?
      ensures o == Pass ==>
        backend.users.Keys == old(backend.users).Keys + {id.value}
        && fresh(backend.users[id.value])
        && backend.users[id.value].name == name.value && backend.users[id.value].apps == []
        && (forall k :: k in old(backend.users) ==> backend.users[k] == old(backend.users)[k])
    {
      var r := backend.CreateUser(id, name);
      if r.Failure? {
        return Fail(r.error);
      }
      backend.WriteUser(r.value);
      return Pass;
    }

    /** Removes the user stored under this id. */
    method DeleteUser(id: string) returns (o: Outcome)
      requires Valid()
      modifies backend
      ensures Valid()
      ensures id !in old(backend.users) <==> o == Fail(NoSuchUser(id))
      ensures o.Fail? ==> o == Fail(NoSuchUser(id)) && backend.users == old(backend.users)
      ensures o == Pass ==> backend.users == old(backend.users) - {id}
    {
      var r := backend.ReadUser(id);
      if r.Failure? {
        return Fail(NoSuchUser(id));
      }
      o := backend.DeleteUser(r.value);
    }

    /** Logs in as the stored user with this id; on failure nothing changes. */
    method Login(id: string) returns (o: Outcome)
      requires Valid()
      modifies this
      ensures Valid()
      ensures id !in backend.users <==> o == Fail(NoSuchUser(id))
      ensures o.Fail? ==> o == Fail(NoSuchUser(id)) && loggedIn == old(loggedIn) && currentUser == old(currentUser)
      ensures o == Pass ==> loggedIn && currentUser == backend.users[id]
    {
      var r := backend.ReadUser(id);
      if r.Failure? {
        return Fail(NoSuchUser(id));
      }
      currentUser := r.value;
      loggedIn := true;
      return Pass;
    }

    method Logout()
      requires Valid()
      modifies this
      ensures Valid()
      ensures !loggedIn && currentUser == null
    {
      currentUser := null;
      loggedIn := false;
    }

    /** Stores the current user's changes in the backend. */
    method Save() returns (o: Outcome)
      requires Valid()
      modifies backend
      ensures Valid()
      ensures !loggedIn <==> o == Fail(IllegalState)
      ensures loggedIn ==> o == Pass
      ensures o.Fail? ==> backend.users == old(backend.users)
      ensures o == Pass ==> backend.users == old(backend.users)[currentUser.id := currentUser]
    {
      if !loggedIn {
        return Fail(IllegalState);
      }
      backend.WriteUser(currentUser);
      return Pass;
    }

    /** The current user's appointments overlapping (start, end), sorted. */
    method ListAppointmentsInRange(start: int, end: int) returns (r: Result<seq<Appointment>>)
      requires Session()
      ensures !loggedIn <==> r == Failure(IllegalState)
      ensures r.Failure? ==> r == Failure(IllegalState)
      ensures r.Success? ==>
        r.value == Filter(currentUser.apps, InRange(start, end))
        && StrictlySorted(r.value)
        && forall a :: a in r.value <==> a in currentUser.apps && a.startTime < end && a.endTime > start
    {
      if !loggedIn {
        return Failure(IllegalState);
      }
      var selected := SelectInRange(currentUser.apps, start, end);
      SortedSelection(currentUser.apps, start, end);
      return Success(SortNatural(selected));
    }

    /** Adds an appointment to the current user; an equal one already attended is refused. */
    method AddAppointment(app: Appointment) returns (o: Outcome)
      requires Valid()
      modifies currentUser
      ensures Valid()
      ensures !loggedIn <==> o == Fail(IllegalState)
      ensures loggedIn ==> (app in old(currentUser.apps) <==> o == Fail(IdenticalAppointment))
      ensures loggedIn && app !in old(currentUser.apps) ==> o == Pass
      ensures loggedIn ==> currentUser.name == old(currentUser.name)
      ensures loggedIn && o.Fail? ==> currentUser.apps == old(currentUser.apps)
      ensures o == Pass ==> currentUser.apps == Insert(old(currentUser.apps), app)
    {
      if !loggedIn {
        return Fail(IllegalState);
      }
      if app in currentUser.apps {
        return Fail(IdenticalAppointment);
      }
      o := currentUser.AddAppointment(app);
    }

    /** Makes a new appointment through the backend; the current user is not involved. */
    method CreateAppointment(desc: Option<string>, loc: string, start: Option<int>, end: Option<int>)
      returns (r: Result<SerializableAppointment>)
      ensures CheckAppointment(desc, start, end).Fail? ==> r == Failure(CheckAppointment(desc, start, end).error)
      ensures CheckAppointment(desc, start, end) == Pass ==>
        r.Success? && fresh(r.value) && r.value.Valid()
        && r.value.Value() == Appointment(start.value, end.value, loc, desc.value)
    {
      r := backend.CreateAppointment(desc, loc, start, end);
    }

    /** Whether replacing `original` by `rep` keeps the current user's appointments distinct. */
    method IsModificationValid(original: Option<Appointment>, rep: Appointment) returns (r: Result<bool>)
      requires Valid()
      ensures !loggedIn <==> r == Failure(IllegalState)
      ensures r.Failure? ==> r == Failure(IllegalState)
      ensures r.Success? ==> r.value == ModificationValid(currentUser.apps, original, rep)
      ensures r.Success? ==> (r.value <==> rep !in currentUser.apps || original == Some(rep))
    {
      if !loggedIn {
        return Failure(IllegalState);
      }
      EqualsIsValueEquality(rep, original);
      var ok := false;
      if rep in currentUser.apps && !Equals(rep, original) {
        ok := false;
      } else {
        ok := true;
      }
      return Success(ok);
    }

    /** Removes an attended appointment from the current user. */
    method DeleteAppointment(app: Appointment) returns (o: Outcome)
      requires Valid()
      modifies currentUser
      ensures Valid()
      ensures !loggedIn <==> o == Fail(IllegalState)
      ensures loggedIn ==> (app !in old(currentUser.apps) <==> o == Fail(NoSuchAppointment))
      ensures loggedIn && app in old(currentUser.apps) ==> o == Pass
      ensures loggedIn ==> currentUser.name == old(currentUser.name)
      ensures loggedIn && o.Fail? ==> currentUser.apps == old(currentUser.apps)
      ensures o == Pass ==> currentUser.apps == Remove(old(currentUser.apps), app)
    {
      if !loggedIn {
        return Fail(IllegalState);
      }
      o := currentUser.RemoveAppointment(app);
      if o.Fail? {
        o := Fail(NoSuchAppointment);
      }
    }

    /** The current user's appointments that overlap `app`, sorted. */
    method FindConflicts(app: Appointment) returns (r: Result<seq<Appointment>>)
      requires Valid()
      ensures !loggedIn <==> r == Failure(IllegalState)
      ensures r.Failure? ==> r == Failure(IllegalState)
      ensures r.Success? ==>
        r.value == Filter(currentUser.apps, InRange(app.startTime, app.endTime))
        && StrictlySorted(r.value)
        && forall a :: a in r.value <==>
             a in currentUser.apps && a.startTime < app.endTime && a.endTime > app.startTime
    {
      if !loggedIn {
        return Failure(IllegalState);
      }
      var list := SelectInRange(currentUser.apps, app.startTime, app.endTime);
      SortedSelection(currentUser.apps, app.startTime, app.endTime);
      return Success(SortNatural(list));
    }

    /** The id of the logged-in user. */
    method GetCurrentUserID() returns (r: Result<string>)
      requires Valid()
      ensures !loggedIn <==> r == Failure(IllegalState)
      ensures r.Failure? ==> r == Failure(IllegalState)
      ensures r.Success? ==> r.value == currentUser.id
    {
      if !loggedIn {
        return Failure(IllegalState);
      }
      return Success(currentUser.id);
    }

    /** All of the current user's appointments, in their natural order. */
    method ListAllAppointments() returns (r: Result<seq<Appointment>>)
      requires Valid()
      ensures !loggedIn <==> r == Failure(IllegalState)
      ensures r.Failure? ==> r == Failure(IllegalState)
      ensures r.Success? ==> r.value == currentUser.apps && StrictlySorted(r.value)
    {
      if !loggedIn {
        return Failure(IllegalState);
      }
      return Success(currentUser.apps);
    }
  }
}
