/** `Search`: the criteria of the search panel, each of which may be absent,
    and the filter that applies them to a user's appointments. */
module Searches {
  import opened Base
  import opened Appointments
  import Control

  /** Absent criteria (`None`) do not constrain; `failAll` matches nothing. */
  datatype Search = Search(
    description: Option<string>,
    location: Option<string>,
    start: Option<int>,
    end: Option<int>,
    failAll: bool)

  /** `String.contains`: `needle` occurs in `hay` at some position. */
  function Contains(hay: string, needle: string): bool
    decreases |hay|
  {
    needle <= hay || (|hay| > 0 && Contains(hay[1..], needle))
  }

  /** `needle` occurs in `hay` starting at index `i`. */
  predicate OccursAt(hay: string, needle: string, i: int)
  {
    0 <= i && i + |needle| <= |hay| && hay[i..i + |needle|] == needle
  }

  lemma OccursAtShift(hay: string, needle: string, i: int)
    requires |hay| > 0 && 0 <= i
    ensures OccursAt(hay, needle, i + 1) <==> OccursAt(hay[1..], needle, i)
  {
    if i + 1 + |needle| <= |hay| {
      assert hay[i + 1..i + 1 + |needle|] == hay[1..][i..i + |needle|];
    }
  }

  /** `Contains` agrees with the definition by positions. */
  lemma {:induction false} ContainsIff(hay: string, needle: string)
    ensures Contains(hay, needle) <==> exists i :: OccursAt(hay, needle, i)
    decreases |hay|
  {
    if needle <= hay {
      assert OccursAt(hay, needle, 0);
    } else {
      assert !OccursAt(hay, needle, 0);
      if |hay| > 0 {
        ContainsIff(hay[1..], needle);
        if exists i :: OccursAt(hay, needle, i) {
          var i :| OccursAt(hay, needle, i);
          OccursAtShift(hay, needle, i - 1);
        }
        if exists i :: OccursAt(hay[1..], needle, i) {
          var i :| OccursAt(hay[1..], needle, i);
          OccursAtShift(hay, needle, i);
        }
      }
    }
  }

  /** `matches`: the criteria are tried in order and the first that fails rejects. */
  function Matches(s: Search, app: Appointment): bool
  {
    if s.failAll then false
    else if s.description.Some? && !Contains(app.description, s.description.value) then false
    else if s.location.Some? && !Contains(app.location, s.location.value) then false
    else if s.start.Some? && !(app.endTime > s.start.value) then false
    else if s.end.Some? && !(app.startTime < s.end.value) then false
    else true
  }

  function Matcher(s: Search): Appointment -> bool
  {
    (app: Appointment) => Matches(s, app)
  }

  /** `filterAppointments`: the matching appointments, in their order in the input. */
  method FilterAppointments(s: Search, input: seq<Appointment>) returns (output: seq<Appointment>)
    ensures output == Filter(input, Matcher(s))
  {
    output := [];
    var i := 0;
    while i < |input|
      invariant 0 <= i <= |input|
      invariant output == Filter(input[..i], Matcher(s))
    {
      assert input[..i + 1][..i] == input[..i];
      if Matches(s, input[i]) {
        output := output + [input[i]];
      }
      i := i + 1;
    }
    assert input[..i] == input;
  }

  /** A search with `failAll` finds nothing. */
  lemma {:induction false} FailAllFindsNothing(s: Search, input: seq<Appointment>)
    requires s.failAll
    ensures Filter(input, Matcher(s)) == []
  {
    if input != [] {
      FailAllFindsNothing(s, input[..|input| - 1]);
    }
  }

  /** A search with no criteria finds every appointment. */
  lemma {:induction false} EmptySearchFindsAll(input: seq<Appointment>)
    ensures Filter(input, Matcher(Search(None, None, None, None, false))) == input
  {
    if input != [] {
      EmptySearchFindsAll(input[..|input| - 1]);
      assert input == input[..|input| - 1] + [input[|input| - 1]];
    }
  }

  /** The empty string occurs in every string, so an empty criterion constrains nothing. */
  lemma EmptyCriterionIsNoCriterion(s: Search, app: Appointment)
    ensures Matches(s.(description := Some("")), app) == Matches(s.(description := None), app)
    ensures Matches(s.(location := Some("")), app) == Matches(s.(location := None), app)
  {
    assert "" <= app.description;
    assert "" <= app.location;
  }

  /** What a match means, criterion by criterion, with substrings by position. */
  lemma MatchesIff(s: Search, app: Appointment)
    ensures Matches(s, app) <==>
      !s.failAll
      && (s.description.Some? ==> exists i :: OccursAt(app.description, s.description.value, i))
      && (s.location.Some? ==> exists i :: OccursAt(app.location, s.location.value, i))
      && (s.start.Some? ==> s.start.value < app.endTime)
      && (s.end.Some? ==> app.startTime < s.end.value)
  {
    if s.description.Some? {
      ContainsIff(app.description, s.description.value);
    }
    if s.location.Some? {
      ContainsIff(app.location, s.location.value);
    }
  }

  /** Adding a criterion can only narrow a search. */
  lemma {:induction false} NarrowingSearch(s: Search, t: Search, input: seq<Appointment>)
    requires forall app :: Matches(t, app) ==> Matches(s, app)
    ensures forall app :: app in Filter(input, Matcher(t)) ==> app in Filter(input, Matcher(s))
  {
    forall app | app in Filter(input, Matcher(t)) ensures app in Filter(input, Matcher(s)) {
      FilterMembership(input, Matcher(t), app);
      FilterMembership(input, Matcher(s), app);
    }
  }

  /** A search by time range alone selects what the controller's range query
      selects, in the same order. */
  lemma {:induction false} RangeSearchIsRangeQuery(input: seq<Appointment>, start: int, end: int)
    ensures Filter(input, Matcher(Search(None, None, Some(start), Some(end), false)))
         == Filter(input, Control.InRange(start, end))
  {
    if input != [] {
      RangeSearchIsRangeQuery(input[..|input| - 1], start, end);
    }
  }
}
