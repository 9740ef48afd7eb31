/** Shared vocabulary: Java's null as Option, thrown exceptions as Result
    and Outcome, Java's truncating integer division and double-to-int casts,
    and order-preserving filtering of lists. */
module Base {

  /** A Java reference that may be null. */
  datatype Option<+T> = None | Some(value: T)

  /** The exceptions the calendar throws, one variant per exception class. */
  datatype Error =
    | NullPointer
    | IllegalState
    | IdenticalAppointment
    | NoSuchAppointment
    | NoSuchElement
    | NoSuchUser(id: string)
    | DuplicateUserId(id: string)
    | InvalidDate
    | NoSuchCommand(command: string)
    | CommandFormat(text: string, format: string)

  /** A call that returns a value or throws. */
  datatype Result<+T> = Success(value: T) | Failure(error: Error)

  /** A void call that returns normally or throws. */
  datatype Outcome = Pass | Fail(error: Error)

  /** Java's `/` on integers, which truncates toward zero (divisors here are positive). */
  function JavaDiv(a: int, b: int): (q: int)
    requires b > 0
    ensures a >= 0 ==> q == a / b
    ensures a < 0 ==> q <= 0
  {
    if a >= 0 then a / b else -((-a) / b)
  }

  /** Java's `%` on integers: the remainder takes the sign of the dividend. */
  function JavaRem(a: int, b: int): (r: int)
    requires b > 0
    ensures a >= 0 ==> 0 <= r < b && r == a % b
    ensures a < 0 ==> -b < r <= 0
  {
    if a >= 0 then a % b else -((-a) % b)
  }

  /** Division and remainder fit together as Java promises: the quotient
      times the divisor plus the remainder is the dividend. */
  lemma {:induction false} JavaDivRem(a: int, b: int)
    requires b > 0
    ensures JavaDiv(a, b) * b + JavaRem(a, b) == a
  {
    var n := if a >= 0 then a else -a;
    assert n == (n / b) * b + n % b;
  }

  /** Java's `(int)` / `(long)` cast of a double: truncation toward zero. */
  function Trunc(x: real): (n: int)
    ensures x >= 0.0 ==> n == x.Floor
    ensures x >= 0.0 ==> 0 <= n && n as real <= x < n as real + 1.0
    ensures x < 0.0 ==> n <= 0 && x <= n as real < x + 1.0
  {
    if x >= 0.0 then x.Floor else -((-x).Floor)
  }

  lemma TruncOfInt(n: int)
    ensures Trunc(n as real) == n
  {
  }

  lemma TruncMonotone(x: real, y: real)
    requires x <= y
    ensures Trunc(x) <= Trunc(y)
  {
  }

  /** The elements of `s` that satisfy `p`, in their order in `s`: what a
      loop appending the matching elements of a list to a new list builds. */
  function Filter<T>(s: seq<T>, p: T -> bool): seq<T>
  {
    if s == [] then [] else Filter(s[..|s| - 1], p) + (if p(s[|s| - 1]) then [s[|s| - 1]] else [])
  }

  lemma {:induction false} FilterMembership<T>(s: seq<T>, p: T -> bool, x: T)
    ensures x in Filter(s, p) <==> x in s && p(x)
  {
    if s != [] {
      FilterMembership(s[..|s| - 1], p, x);
      assert s == s[..|s| - 1] + [s[|s| - 1]];
    }
  }

  /** The positions in `s` of the elements that satisfy `p`, in order. */
  function FilterPositions<T>(s: seq<T>, p: T -> bool): seq<int>
  {
    if s == [] then [] else FilterPositions(s[..|s| - 1], p) + (if p(s[|s| - 1]) then [|s| - 1] else [])
  }

  /** Filtering keeps elements in order: the result is a subsequence of the
      input, element i of it taken from position `FilterPositions(s, p)[i]`,
      and these positions increase. */
  lemma {:induction false} FilterIsSubsequence<T>(s: seq<T>, p: T -> bool)
    ensures |Filter(s, p)| == |FilterPositions(s, p)| <= |s|
    ensures forall i :: 0 <= i < |Filter(s, p)| ==>
      0 <= FilterPositions(s, p)[i] < |s| && Filter(s, p)[i] == s[FilterPositions(s, p)[i]]
    ensures forall i, j :: 0 <= i < j < |Filter(s, p)| ==> FilterPositions(s, p)[i] < FilterPositions(s, p)[j]
    ensures forall i :: 0 <= i < |Filter(s, p)| ==> p(Filter(s, p)[i])
  {
    if s != [] {
      var t := s[..|s| - 1];
      FilterIsSubsequence(t, p);
      assert forall k :: 0 <= k < |t| ==> t[k] == s[k];
    }
  }
}
