/** The value of an appointment and its natural order (`Appointment.compareTo`):
    lexicographic on start time, end time, location and description. Also the
    sorted-list operations the rest of the model builds on: a `TreeSet` of
    appointments is a strictly increasing list, and `Collections.sort` is an
    insertion sort in natural order. */
module Appointments {
  import opened Base

  /** An appointment's four attributes; times are milliseconds since the epoch. */
  datatype Appointment = Appointment(startTime: int, endTime: int, location: string, description: string)

  /** `Calendar.compareTo`: the sign of the difference of the two instants. */
  function CompareMillis(a: int, b: int): (c: int)
    ensures c == 0 <==> a == b
    ensures c < 0 <==> a < b
  {
    if a < b then -1 else if a > b then 1 else 0
  }

  /** The UTF-16 code units of a character, as a Java `String` holds it: the
      character itself below U+10000, otherwise a high and a low surrogate. */
  function CodeUnits(c: char): (u: seq<int>)
    ensures |u| == (if c as int < 0x1_0000 then 1 else 2)
    ensures forall i :: 0 <= i < |u| ==> 0 <= u[i] < 0x1_0000
  {
    var v := c as int;
    if v < 0x1_0000 then [v]
    else [0xD800 + (v - 0x1_0000) / 0x400, 0xDC00 + (v - 0x1_0000) % 0x400]
  }

  /** The UTF-16 code units of a string, character by character. */
  function Utf16(s: string): seq<int>
  {
    if |s| == 0 then [] else CodeUnits(s[0]) + Utf16(s[1..])
  }

  /** The first unit tells a character's length: a surrogate starts a pair
      and every other unit stands alone, so the encoding can be undone. */
  lemma {:induction false} CodeUnitsInjective(c: char, d: char, rest1: seq<int>, rest2: seq<int>)
    requires CodeUnits(c) + rest1 == CodeUnits(d) + rest2
    ensures c == d && rest1 == rest2
  {
    var u, w := CodeUnits(c) + rest1, CodeUnits(d) + rest2;
    assert u[0] == w[0];
    if c as int < 0x1_0000 {
      assert d as int < 0x1_0000;
      assert rest1 == u[1..] == w[1..] == rest2;
    } else {
      assert d as int >= 0x1_0000;
      assert u[1] == w[1];
      var x, y := c as int - 0x1_0000, d as int - 0x1_0000;
      assert x == x / 0x400 * 0x400 + x % 0x400;
      assert y == y / 0x400 * 0x400 + y % 0x400;
      assert rest1 == u[2..] == w[2..] == rest2;
    }
  }

  /** Different strings have different UTF-16 encodings. */
  lemma {:induction false} Utf16Injective(s: string, t: string)
    requires Utf16(s) == Utf16(t)
    ensures s == t
  {
    if |s| != 0 && |t| != 0 {
      CodeUnitsInjective(s[0], t[0], Utf16(s[1..]), Utf16(t[1..]));
      Utf16Injective(s[1..], t[1..]);
      assert s == [s[0]] + s[1..] && t == [t[0]] + t[1..];
    }
  }

  /** The loop of `String.compareTo` over two arrays of code units: the
      difference of the first pair of differing units, or else the
      difference of the lengths. */
  function CompareUnits(u: seq<int>, w: seq<int>): int
  {
    if |u| == 0 || |w| == 0 then |u| - |w|
    else if u[0] != w[0] then u[0] - w[0]
    else CompareUnits(u[1..], w[1..])
  }

  lemma {:induction false} CompareUnitsZero(u: seq<int>, w: seq<int>)
    ensures CompareUnits(u, w) == 0 <==> u == w
  {
    if |u| != 0 && |w| != 0 && u[0] == w[0] {
      CompareUnitsZero(u[1..], w[1..]);
      assert u == [u[0]] + u[1..] && w == [w[0]] + w[1..];
    }
  }

  lemma {:induction false} CompareUnitsAntisymmetric(u: seq<int>, w: seq<int>)
    ensures CompareUnits(u, w) == -CompareUnits(w, u)
  {
    if |u| != 0 && |w| != 0 && u[0] == w[0] {
      CompareUnitsAntisymmetric(u[1..], w[1..]);
    }
  }

  lemma {:induction false} CompareUnitsTransitive(u: seq<int>, v: seq<int>, w: seq<int>)
    requires CompareUnits(u, v) < 0 && CompareUnits(v, w) < 0
    ensures CompareUnits(u, w) < 0
  {
    if |u| != 0 && |v| != 0 && |w| != 0 && u[0] == v[0] && v[0] == w[0] {
      CompareUnitsTransitive(u[1..], v[1..], w[1..]);
    }
  }

  /** `String.compareTo`, which compares the strings' UTF-16 code units. */
  function CompareStrings(s: string, t: string): int
  {
    CompareUnits(Utf16(s), Utf16(t))
  }

  lemma {:induction false} CompareStringsZero(s: string, t: string)
    ensures CompareStrings(s, t) == 0 <==> s == t
  {
    CompareUnitsZero(Utf16(s), Utf16(t));
    if Utf16(s) == Utf16(t) {
      Utf16Injective(s, t);
    }
  }

  lemma {:induction false} CompareStringsAntisymmetric(s: string, t: string)
    ensures CompareStrings(s, t) == -CompareStrings(t, s)
  {
    CompareUnitsAntisymmetric(Utf16(s), Utf16(t));
  }

  lemma {:induction false} CompareStringsTransitive(s: string, t: string, u: string)
    requires CompareStrings(s, t) < 0 && CompareStrings(t, u) < 0
    ensures CompareStrings(s, u) < 0
  {
    CompareUnitsTransitive(Utf16(s), Utf16(t), Utf16(u));
  }

  /** The order is by code unit, not by character: U+E000 sorts after
      U+10000, whose high surrogate 0xD800 is the smaller unit. */
  lemma {:induction false} CompareStringsByCodeUnit()
    ensures "\U{E000}"[0] < "\U{10000}"[0]
    ensures CompareStrings("\U{E000}", "\U{10000}") == 0xE000 - 0xD800
  {
    assert Utf16("\U{E000}") == [0xE000];
    assert Utf16("\U{10000}") == [0xD800, 0xDC00];
  }

  /** `compareTo` on two non-null appointments: the first attribute that
      differs decides, in the order start, end, location, description. */
  function Compare(a: Appointment, b: Appointment): int
  {
    if a.startTime != b.startTime then CompareMillis(a.startTime, b.startTime)
    else if a.endTime != b.endTime then CompareMillis(a.endTime, b.endTime)
    else if a.location != b.location then CompareStrings(a.location, b.location)
    else if a.description != b.description then CompareStrings(a.description, b.description)
    else 0
  }

  /** `compareTo(obj)`, where `None` is a null argument. */
  function CompareTo(a: Appointment, obj: Option<Appointment>): (r: Result<int>)
    ensures obj == None <==> r == Failure(NullPointer)
    ensures obj.Some? ==> r == Success(Compare(a, obj.value))
  {
    if obj == None then Failure(NullPointer) else Success(Compare(a, obj.value))
  }

  /** `equals(obj)`, where `None` stands for null or for an object that is
      not an Appointment (for both, `instanceof` fails). */
  function Equals(a: Appointment, obj: Option<Appointment>): bool
  {
    obj.Some? && CompareTo(a, obj) == Success(0)
  }

  /** The natural order, strictly. */
  predicate Less(a: Appointment, b: Appointment)
  {
    Compare(a, b) < 0
  }

  lemma {:induction false} CompareZero(a: Appointment, b: Appointment)
    ensures Compare(a, b) == 0 <==> a == b
  {
    if a.startTime == b.startTime && a.endTime == b.endTime {
      CompareStringsZero(a.location, b.location);
      CompareStringsZero(a.description, b.description);
    }
  }

  /** `equals` is value equality of the four attributes. */
  lemma {:induction false} EqualsIsValueEquality(a: Appointment, obj: Option<Appointment>)
    ensures Equals(a, obj) <==> obj == Some(a)
  {
    if obj.Some? {
      CompareZero(a, obj.value);
    }
  }

  lemma {:induction false} CompareAntisymmetric(a: Appointment, b: Appointment)
    ensures Compare(a, b) < 0 <==> Compare(b, a) > 0
  {
    CompareStringsAntisymmetric(a.location, b.location);
    CompareStringsAntisymmetric(a.description, b.description);
  }

  /** The comparison is lexicographic on (start, end, location, description). */
  lemma {:induction false} LessIsLexicographic(a: Appointment, b: Appointment)
    ensures Less(a, b) <==>
      a.startTime < b.startTime
      || (a.startTime == b.startTime && a.endTime < b.endTime)
      || (a.startTime == b.startTime && a.endTime == b.endTime
          && CompareStrings(a.location, b.location) < 0)
      || (a.startTime == b.startTime && a.endTime == b.endTime && a.location == b.location
          && CompareStrings(a.description, b.description) < 0)
  {
    CompareStringsZero(a.location, b.location);
    CompareStringsZero(a.description, b.description);
  }

  lemma {:induction false} LessTransitive(a: Appointment, b: Appointment, c: Appointment)
    requires Less(a, b) && Less(b, c)
    ensures Less(a, c)
  {
    CompareZero(a, b);
    CompareZero(b, c);
    if a.startTime == b.startTime == c.startTime && a.endTime == b.endTime == c.endTime {
      if a.location != b.location && b.location != c.location {
        CompareStringsTransitive(a.location, b.location, c.location);
        CompareStringsZero(a.location, c.location);
      } else if a.location == b.location == c.location {
        CompareStringsTransitive(a.description, b.description, c.description);
        CompareStringsZero(a.description, c.description);
      }
    }
  }

  /** The natural order is a strict total order. */
  lemma {:induction false} LessIsStrictTotalOrder()
    ensures forall a: Appointment {:trigger Less(a, a)} :: !Less(a, a)
    ensures forall a: Appointment, b: Appointment :: a != b ==> Less(a, b) || Less(b, a)
    ensures forall a: Appointment, b: Appointment :: Less(a, b) ==> !Less(b, a)
    ensures forall a: Appointment, b: Appointment, c: Appointment :: Less(a, b) && Less(b, c) ==> Less(a, c)
  {
    forall a: Appointment, b: Appointment ensures (a != b ==> Less(a, b) || Less(b, a)) && (Less(a, b) ==> !Less(b, a)) {
      CompareZero(a, b);
      CompareAntisymmetric(a, b);
      CompareAntisymmetric(b, a);
    }
    forall a: Appointment, b: Appointment, c: Appointment | Less(a, b) && Less(b, c) ensures Less(a, c) {
      LessTransitive(a, b, c);
    }
  }

  /** The shape of a `TreeSet` in natural order: strictly increasing, so without duplicates. */
  predicate StrictlySorted(s: seq<Appointment>)
  {
    forall i, j :: 0 <= i < j < |s| ==> Less(s[i], s[j])
  }

  /** Sorted in natural order, allowing equal neighbours (the result of `Collections.sort`). */
  predicate Sorted(s: seq<Appointment>)
  {
    forall i, j :: 0 <= i < j < |s| ==> Compare(s[i], s[j]) <= 0
  }

  lemma {:induction false} StrictlySortedHasNoDuplicates(s: seq<Appointment>)
    requires StrictlySorted(s)
    ensures forall i, j :: 0 <= i < j < |s| ==> s[i] != s[j]
  {
    forall i, j | 0 <= i < j < |s| ensures s[i] != s[j] {
      CompareZero(s[i], s[j]);
    }
  }

  /** `TreeSet.add` of an absent element: insert it at its place in the order. */
  function Insert(s: seq<Appointment>, x: Appointment): (r: seq<Appointment>)
    requires StrictlySorted(s) && x !in s
    ensures StrictlySorted(r)
    ensures |r| == |s| + 1
    ensures forall y :: y in r <==> y in s || y == x
  {
    if s == [] then [x]
    else if Less(x, s[0]) then
      assert forall j :: 0 < j < |s| ==> Less(x, s[j]) by {
        forall j | 0 < j < |s| ensures Less(x, s[j]) { LessTransitive(x, s[0], s[j]); }
      }
      [x] + s
    else
      var rest := Insert(s[1..], x);
      assert Less(s[0], x) by { CompareZero(x, s[0]); CompareAntisymmetric(s[0], x); }
      assert forall y :: y in rest ==> Less(s[0], y);
      [s[0]] + rest
  }

  /** `TreeSet.remove` of a present element. */
  function Remove(s: seq<Appointment>, x: Appointment): (r: seq<Appointment>)
    requires StrictlySorted(s) && x in s
    ensures StrictlySorted(r)
    ensures |r| == |s| - 1
    ensures forall y :: y in r <==> y in s && y != x
  {
    if s[0] == x then
      StrictlySortedHasNoDuplicates(s);
      s[1..]
    else
      var rest := Remove(s[1..], x);
      assert forall y :: y in s[1..] ==> Less(s[0], y);
      [s[0]] + rest
  }

  /** Insert `x` before the first element it does not follow. */
  function InsertInOrder(s: seq<Appointment>, x: Appointment): seq<Appointment>
  {
    if s == [] then [x]
    else if Compare(x, s[0]) <= 0 then [x] + s
    else [s[0]] + InsertInOrder(s[1..], x)
  }

  /** `Collections.sort` in natural order, as an insertion sort. */
  function SortNatural(s: seq<Appointment>): seq<Appointment>
  {
    if s == [] then [] else InsertInOrder(SortNatural(s[1..]), s[0])
  }

  /** The non-strict order is transitive. */
  lemma {:induction false} CompareAtMostTransitive(a: Appointment, b: Appointment, c: Appointment)
    requires Compare(a, b) <= 0 && Compare(b, c) <= 0
    ensures Compare(a, c) <= 0
  {
    CompareZero(a, b);
    CompareZero(b, c);
    if Compare(a, b) < 0 && Compare(b, c) < 0 {
      LessTransitive(a, b, c);
    }
  }

  lemma {:induction false} InsertInOrderElements(s: seq<Appointment>, x: Appointment)
    ensures multiset(InsertInOrder(s, x)) == multiset(s) + multiset{x}
  {
    if s != [] && Compare(x, s[0]) > 0 {
      InsertInOrderElements(s[1..], x);
      assert s == [s[0]] + s[1..];
    }
  }

  /** A sorted list stays sorted under a new head that precedes all of it. */
  lemma {:induction false} ConsSorted(a: Appointment, rest: seq<Appointment>)
    requires Sorted(rest) && forall j :: 0 <= j < |rest| ==> Compare(a, rest[j]) <= 0
    ensures Sorted([a] + rest)
  {
    var r := [a] + rest;
    forall i, j | 0 <= i < j < |r| ensures Compare(r[i], r[j]) <= 0 {
      assert r[j] == rest[j - 1];
      if i > 0 {
        assert r[i] == rest[i - 1];
      }
    }
  }

  lemma {:induction false} InsertInOrderSorted(s: seq<Appointment>, x: Appointment)
    requires Sorted(s)
    ensures Sorted(InsertInOrder(s, x))
    ensures multiset(InsertInOrder(s, x)) == multiset(s) + multiset{x}
  {
    InsertInOrderElements(s, x);
    if s != [] && Compare(x, s[0]) > 0 {
      InsertInOrderSorted(s[1..], x);
      var rest := InsertInOrder(s[1..], x);
      InsertInOrderElements(s[1..], x);
      forall j | 0 <= j < |rest| ensures Compare(s[0], rest[j]) <= 0 {
        assert rest[j] in multiset(s[1..]) + multiset{x};
        if rest[j] == x {
          CompareAntisymmetric(s[0], x);
        } else {
          assert rest[j] in s[1..];
        }
      }
      ConsSorted(s[0], rest);
    } else if s != [] {
      forall j | 0 <= j < |s| ensures Compare(x, s[j]) <= 0 {
        if j > 0 {
          CompareAtMostTransitive(x, s[0], s[j]);
        }
      }
      ConsSorted(x, s);
    }
  }

  /** `Collections.sort` returns the same elements, sorted. */
  lemma {:induction false} SortNaturalSorts(s: seq<Appointment>)
    ensures Sorted(SortNatural(s))
    ensures multiset(SortNatural(s)) == multiset(s)
  {
    if s != [] {
      SortNaturalSorts(s[1..]);
      InsertInOrderSorted(SortNatural(s[1..]), s[0]);
      assert s == [s[0]] + s[1..];
    }
  }

  /** Sorting a list that is already strictly increasing leaves it unchanged. */
  lemma {:induction false} SortNaturalOfStrictlySorted(s: seq<Appointment>)
    requires StrictlySorted(s)
    ensures SortNatural(s) == s
  {
    if s != [] {
      SortNaturalOfStrictlySorted(s[1..]);
      if |s| > 1 {
        assert Less(s[0], s[1]);
      }
      assert InsertInOrder(s[1..], s[0]) == [s[0]] + s[1..];
    }
  }

  /** Filtering a strictly increasing list keeps it strictly increasing. */
  lemma {:induction false} FilterKeepsStrictlySorted(s: seq<Appointment>, p: Appointment -> bool)
    requires StrictlySorted(s)
    ensures StrictlySorted(Filter(s, p))
  {
    if s != [] {
      var init, last := s[..|s| - 1], s[|s| - 1];
      FilterKeepsStrictlySorted(init, p);
      var f := Filter(init, p);
      forall i | 0 <= i < |f| ensures Less(f[i], last) {
        FilterMembership(init, p, f[i]);
      }
    }
  }
}
