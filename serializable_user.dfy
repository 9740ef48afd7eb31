/** `SerializableUser`: an immutable id, a full name and the set of appointments
    the user attends, kept as a `TreeSet` in natural order. */
module SerializableUsers {
  import opened Base
  import opened Appointments

  class SerializableUser {
    const id: string
    var name: string
    /** The `TreeSet`, as its elements in increasing natural order. */
    var apps: seq<Appointment>

    ghost predicate Valid()
      reads this
    {
      StrictlySorted(apps)
    }

    constructor Init(id: string, name: string)
      ensures Valid()
      ensures this.id == id && this.name == name && apps == []
    {
      this.id, this.name, apps := id, name, [];
    }

    /** The constructor, which rejects a null id and then a null name. */
    static method Create(id: Option<string>, name: Option<string>) returns (r: Result<SerializableUser>)
      ensures id.None? || name.None? <==> r == Failure(NullPointer)
      ensures r.Failure? ==> r == Failure(NullPointer)
      ensures r.Success? ==>
        fresh(r.value) && r.value.Valid()
        && r.value.id == id.value && r.value.name == name.value && r.value.apps == []
    {
      if id.None? || name.None? {
        return Failure(NullPointer);
      }
      var user := new SerializableUser.Init(id.value, name.value);
      return Success(user);
    }

    /** Adds an appointment not already attended; throws on an equal one. */
    method AddAppointment(app: Appointment) returns (o: Outcome)
      requires Valid()
      modifies this
      ensures Valid()
      ensures name == old(name)
      ensures app in old(apps) <==> o == Fail(IdenticalAppointment)
      ensures app !in old(apps) ==> o == Pass
      ensures o.Fail? ==> apps == old(apps)
      ensures o == Pass ==> apps == Insert(old(apps), app)
      ensures forall a :: a in apps <==> a in old(apps) || a == app
    {
      if app in apps {
        return Fail(IdenticalAppointment);
      }
      apps := Insert(apps, app);
      return Pass;
    }

    /** Removes an attended appointment; throws when there is none equal to it. */
    method RemoveAppointment(app: Appointment) returns (o: Outcome)
      requires Valid()
      modifies this
      ensures Valid()
      ensures name == old(name)
      ensures app !in old(apps) <==> o == Fail(NoSuchElement)
      ensures app in old(apps) ==> o == Pass
      ensures o.Fail? ==> apps == old(apps)
      ensures o == Pass ==> apps == Remove(old(apps), app)
      ensures forall a :: a in apps <==> a in old(apps) && a != app
    {
      if app !in apps {
        return Fail(NoSuchElement);
      }
      apps := Remove(apps, app);
      return Pass;
    }

    method SetFullName(name: Option<string>) returns (o: Outcome)
      modifies this
      ensures apps == old(apps)
      ensures name.None? ==> o == Fail(NullPointer) && this.name == old(this.name)
      ensures name.Some? ==> o == Pass && this.name == name.value
    {
      if name.None? {
        return Fail(NullPointer);
      }
      this.name := name.value;
      return Pass;
    }
  }

  /** Adding and then removing the same new appointment restores the set. */
  lemma {:induction false} RemoveInsert(s: seq<Appointment>, x: Appointment)
    requires StrictlySorted(s) && x !in s
    ensures Remove(Insert(s, x), x) == s
  {
    if s != [] && !Less(x, s[0]) {
      RemoveInsert(s[1..], x);
      assert s == [s[0]] + s[1..];
    }
  }

  /** Removing and then re-adding an attended appointment restores the set. */
  lemma {:induction false} InsertRemove(s: seq<Appointment>, x: Appointment)
    requires StrictlySorted(s) && x in s
    ensures Insert(Remove(s, x), x) == s
  {
    if s[0] != x {
      InsertRemove(s[1..], x);
      assert Less(s[0], x);
      CompareAntisymmetric(s[0], x);
      assert s == [s[0]] + s[1..];
    } else if |s| > 1 {
      assert Less(x, s[1]);
      assert s == [x] + s[1..];
    }
  }

  /** A strictly increasing list is determined by its elements, so the
      user's set is one concrete list whatever the order of the additions. */
  lemma {:induction false} StrictlySortedUnique(s: seq<Appointment>, t: seq<Appointment>)
    requires StrictlySorted(s) && StrictlySorted(t)
    requires forall a :: a in s <==> a in t
    ensures s == t
  {
    // The head of either list is in the other, so neither is empty alone.
    if s != [] { assert s[0] in t; }
    if t != [] { assert t[0] in s; }
    if s != [] && t != [] {
      assert s[0] == t[0] by {
        if s[0] != t[0] {
          assert t[0] in s;
          assert s[0] in t;
          LessIsStrictTotalOrder();
        }
      }
      assert s == [s[0]] + s[1..] && t == [t[0]] + t[1..];
      StrictlySortedHasNoDuplicates(s);
      StrictlySortedHasNoDuplicates(t);
      forall a ensures a in s[1..] <==> a in t[1..] {
        if a in s[1..] { assert a != s[0]; assert a in t; }
        if a in t[1..] { assert a != t[0]; assert a in s; }
      }
      StrictlySortedUnique(s[1..], t[1..]);
    }
  }
}
