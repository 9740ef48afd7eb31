# cs113-calendar: a Dafny model of the calendar grid and its appointment model

The cs113 calendar is a small Java desktop calendar. Users log in, keep a set
of appointments, and see those appointments on a day, week or month grid.
This project models the core of that program in Dafny and proves what it
promises.

**The calendar grid** (`CalendarArea`, in modules `CalendarAreas`, `Grid`,
`Dates` and `Partition`):
- A view fixes the grid's shape and first day: day 1×1, week 1×7 from the
  latest Sunday, month 5×7 from the Sunday on or before the 1st.
- `setupGrid` fetches the attended appointments in the grid's range and lays
  out the one-day cells in row-major order; `boxupAppointment` clips each
  appointment into one box per day it overlaps.
- Each row marks its busy ("interesting") hours, and `weightedPartition`
  turns weight vectors into boundaries: for the pixel rows and columns (a
  zoomed day's row weighs 7, its column 3) and for the 24 hour bands of
  every row (busy hours weigh `hourWeight`).
- Times map to pixels for box placement, and clicks map back to days and
  times; a click zooms in on a day or out again.

**The model and its controller** (modules `Appointments`,
`SerializableAppointments`, `SerializableUsers`, `SerializableBackends`,
`Control`):
- Appointments are ordered lexicographically.
- Each user keeps an ordered set of appointments.
- The backend is an in-memory map from user ids to users.
- The controller adds a login session, range and conflict queries, and the
  add, delete and modify rules.

**Three smaller parts**:
- `Search` filters appointments by optional criteria.
- `ViewState` holds the GUI's state and counts the change events its setters
  fire.
- `CommandLineEngine` keeps a command table and splits a command line at its
  first space.

Instants are integer milliseconds since 1970-01-01T00:00 UTC, with days of a
fixed 86 400 000 ms. The calendar is the proleptic Gregorian one. The grid's
doubles are reals, and each `(int)` cast is a truncation toward zero. Java's
`/` and `%` on longs are written out as truncating operations (`JavaDiv`,
`JavaRem`). The component's width and height and the font height come from
Swing, so they are parameters; so is the current time the constructor reads.
Where a Java method throws, the model returns a `Result` or `Outcome` naming
the exception; Java's `null` is `Option.None`.

Three behaviours of the code that the model keeps as written:
- The end hour of a box is the truncated hour of its end: `checkColHours`
  applies `Math.ceil` to a long division that has already truncated, so the
  ceiling changes nothing.
- A view change keeps the zoom wherever it still fits the new shape:
  `layoutGrid` only drops an index that is out of range, and no view setter
  resets it. `SetDayView`, `SetWeekView` and `SetMonthView` say so.
- The month grid always has five rows. It can therefore leave days out:
  `Grid.MonthGridMissesMay31` shows that May 31st 1970 falls after the last
  cell of May 1970's grid.

## Model

| member | source | states |
|---|---|---|
| Base.JavaDiv | src/cs113/calendar/guiview/CalendarArea.java:716 | Java's truncating `/` by a positive divisor: the floor quotient for a non-negative dividend, never positive for a negative one |
| Base.JavaRem | src/cs113/calendar/guiview/CalendarArea.java:1413 | Java's `%` by a positive divisor: in [0, b) for a non-negative dividend, in (-b, 0] for a negative one |
| Base.JavaDivRem | src/cs113/calendar/guiview/CalendarArea.java:716 | quotient times divisor plus remainder gives back the dividend, as Java's division promises |
| Base.Trunc | src/cs113/calendar/guiview/CalendarArea.java:558-561 | the `(int)` cast of a double truncates toward zero: the floor for non-negative values, within one of the value and no farther from zero |
| Base.FilterMembership | src/cs113/calendar/guiview/Search.java:58-66 | a list built by appending the matching elements holds exactly the elements of the input that match |
| Base.FilterIsSubsequence | src/cs113/calendar/guiview/Search.java:58-66 | that list is a subsequence of the input: its elements come from strictly increasing positions of the input, and every one of them matches |
| Appointments.CompareMillis | src/cs113/calendar/model/Appointment.java:52-55 | `Calendar.compareTo` is zero exactly for equal instants and negative exactly when the first is earlier |
| Appointments.CodeUnits | src/cs113/calendar/model/Appointment.java:56-61 | a Java string holds a character below U+10000 as one code unit and any other as a surrogate pair; every unit is below 0x10000 |
| Appointments.Utf16Injective | src/cs113/calendar/model/Appointment.java:56-61 | two strings with the same UTF-16 code units are equal |
| Appointments.CompareStringsByCodeUnit | src/cs113/calendar/model/Appointment.java:56-61 | `String.compareTo` orders by code unit, not by character: "\uE000" compares after "\uD800\uDC00" (U+10000), by 0xE000 - 0xD800 |
| Appointments.CompareStrings | src/cs113/calendar/model/Appointment.java:56-61 | definition: `String.compareTo` is the comparison of the two strings' UTF-16 code units: the difference of the first differing pair of units, or else the difference of the lengths |
| Appointments.CompareStringsZero | src/cs113/calendar/model/Appointment.java:56-61 | `String.compareTo` is zero exactly for equal strings |
| Appointments.CompareStringsAntisymmetric | src/cs113/calendar/model/Appointment.java:56-61 | swapping two strings negates their comparison |
| Appointments.CompareStringsTransitive | src/cs113/calendar/model/Appointment.java:56-61 | the string order is transitive |
| Appointments.Compare | src/cs113/calendar/model/Appointment.java:49-66 | definition: the comparison of two non-null appointments decided by the first attribute that differs, in the order start, end, location, description; 0 when none differs |
| Appointments.CompareTo | src/cs113/calendar/model/Appointment.java:42-66 | a null argument throws NullPointerException; otherwise the result is the four-attribute comparison, strings compared by UTF-16 code unit as `String.compareTo` does |
| Appointments.CompareZero | src/cs113/calendar/model/Appointment.java:49-66 | `compareTo` returns 0 exactly when start, end, location and description are all equal |
| Appointments.EqualsIsValueEquality | src/cs113/calendar/model/Appointment.java:20-31 | `equals` holds exactly when the other object is an appointment with the same four attributes |
| Appointments.CompareAntisymmetric | src/cs113/calendar/model/Appointment.java:32-66 | a negative comparison one way is a positive comparison the other way |
| Appointments.LessIsLexicographic | src/cs113/calendar/model/Appointment.java:32-66 | the natural order is lexicographic on start time, end time, location, description |
| Appointments.LessTransitive | src/cs113/calendar/model/Appointment.java:32-66 | the natural order is transitive |
| Appointments.LessIsStrictTotalOrder | src/cs113/calendar/model/Appointment.java:32-66 | the natural order is irreflexive, total on distinct appointments, asymmetric and transitive |
| Appointments.StrictlySortedHasNoDuplicates | src/cs113/calendar/model/SerializableUser.java:21 | a `TreeSet` in natural order holds no two equal appointments |
| Appointments.Insert | src/cs113/calendar/model/SerializableUser.java:55 | `TreeSet.add` of an absent appointment keeps the set ordered and adds exactly that appointment |
| Appointments.Remove | src/cs113/calendar/model/SerializableUser.java:91 | `TreeSet.remove` of a present appointment keeps the set ordered and removes exactly that appointment |
| Appointments.CompareAtMostTransitive | src/cs113/calendar/model/Appointment.java:32-66 | the non-strict natural order is transitive |
| Appointments.InsertInOrderElements | src/cs113/calendar/control/Controller.java:190 | one insertion step of the sort adds exactly the one element |
| Appointments.ConsSorted | src/cs113/calendar/control/Controller.java:190 | an element that precedes a sorted list can head it |
| Appointments.InsertInOrderSorted | src/cs113/calendar/control/Controller.java:190 | inserting into a sorted list keeps it sorted and adds just that element |
| Appointments.SortNatural | src/cs113/calendar/control/Controller.java:190 | definition: `Collections.sort` in natural order, as an insertion sort that puts each element before the first one it does not follow |
| Appointments.SortNaturalSorts | src/cs113/calendar/control/Controller.java:190 | `Collections.sort` returns a permutation of its input in natural order |
| Appointments.SortNaturalOfStrictlySorted | src/cs113/calendar/control/Controller.java:190 | sorting a list that is already strictly increasing returns it unchanged |
| Appointments.FilterKeepsStrictlySorted | src/cs113/calendar/control/Controller.java:182-192 | the appointments picked from a `TreeSet` in iteration order are still strictly increasing |
| SerializableAppointments.CheckDuration | src/cs113/calendar/model/SerializableAppointment.java:116-124 | `setDuration` throws NullPointerException exactly when an instant is null, InvalidDateException when the end is before the start, and accepts an end equal to the start |
| SerializableAppointments.CheckAppointment | src/cs113/calendar/model/SerializableAppointment.java:56-62 | the constructor throws NullPointerException for a null description first, then whatever `setDuration` throws |
| SerializableAppointments.SerializableAppointment.Init | src/cs113/calendar/model/SerializableAppointment.java:56-62 | a new appointment holds exactly the given description, location and instants |
| SerializableAppointments.SerializableAppointment.Create | src/cs113/calendar/model/SerializableAppointment.java:56-62 | the constructor fails with exactly the checks' exception, and otherwise yields a fresh appointment with the given attributes |
| SerializableAppointments.SerializableAppointment.Clone | src/cs113/calendar/model/SerializableAppointment.java:27-39 | the copy is a fresh object with the same value, so it compares equal to the original |
| SerializableAppointments.SerializableAppointment.SetDescription | src/cs113/calendar/model/SerializableAppointment.java:101-107 | a null description throws NullPointerException and changes nothing; otherwise only the description changes |
| SerializableAppointments.SerializableAppointment.SetLocation | src/cs113/calendar/model/SerializableAppointment.java:134-136 | only the location changes, to the given value |
| SerializableAppointments.SerializableAppointment.SetDuration | src/cs113/calendar/model/SerializableAppointment.java:116-128 | the outcome is `CheckDuration`'s; on failure nothing changes, on success exactly the two instants change to the arguments |
| SerializableUsers.SerializableUser.Init | src/cs113/calendar/model/SerializableUser.java:32-41 | a new user has the given id and name and no appointments |
| SerializableUsers.SerializableUser.Create | src/cs113/calendar/model/SerializableUser.java:32-41 | a null id or name throws NullPointerException; otherwise a fresh user with that id and name and an empty set |
| SerializableUsers.SerializableUser.AddAppointment | src/cs113/calendar/model/SerializableUser.java:50-56 | throws IdenticalAppointmentException exactly when an equal appointment is attended, leaving the set unchanged; otherwise the add succeeds and the set becomes the old set plus the appointment, still ordered; the name is kept |
| SerializableUsers.SerializableUser.RemoveAppointment | src/cs113/calendar/model/SerializableUser.java:89-96 | throws NoSuchElementException exactly when the appointment is not attended, leaving the set unchanged; otherwise the removal succeeds and the set becomes the old set without it, still ordered; the name is kept |
| SerializableUsers.SerializableUser.SetFullName | src/cs113/calendar/model/SerializableUser.java:103-108 | a null name throws NullPointerException and leaves the name; otherwise the name becomes the argument; the appointments never change |
| SerializableUsers.RemoveInsert | src/cs113/calendar/model/SerializableUser.java:50-96 | removing an appointment just added restores the set |
| SerializableUsers.InsertRemove | src/cs113/calendar/model/SerializableUser.java:50-96 | adding back an appointment just removed restores the set |
| SerializableUsers.StrictlySortedUnique | src/cs113/calendar/model/SerializableUser.java:21 | an ordered set is determined by its elements, whatever order they were added in |
| SerializableBackends.SerializableBackend.constructor | src/cs113/calendar/model/SerializableBackend.java:77-80 | a backend without a storage file starts with no users |
| SerializableBackends.SerializableBackend.CreateUser | src/cs113/calendar/model/SerializableBackend.java:94-100 | an id already stored throws DuplicateUserIdException; otherwise the user constructor's null checks apply, and success yields a fresh user with that id, that name and no appointments; the map is not changed |
| SerializableBackends.SerializableBackend.CreateAppointment | src/cs113/calendar/model/SerializableBackend.java:113-117 | exactly the appointment constructor's outcome |
| SerializableBackends.SerializableBackend.DeleteUser | src/cs113/calendar/model/SerializableBackend.java:123-128 | throws NoSuchElementException exactly when the id is not a key, leaving the map; otherwise removes exactly that key |
| SerializableBackends.SerializableBackend.GetUserIds | src/cs113/calendar/model/SerializableBackend.java:134-136 | exactly the map's keys |
| SerializableBackends.SerializableBackend.ReadUser | src/cs113/calendar/model/SerializableBackend.java:142-149 | the user stored under the id, or NoSuchElementException exactly when there is none |
| SerializableBackends.SerializableBackend.WriteUser | src/cs113/calendar/model/SerializableBackend.java:155-157 | the user is stored under its own id, replacing any earlier entry there, and every other key keeps its user |
| Control.InRange | src/cs113/calendar/control/Controller.java:182-183 | definition: the range test of the selection loop: the appointment starts before `end` and ends after `start` |
| Control.ModificationValid | src/cs113/calendar/control/Controller.java:259-277 | definition: a modification is refused exactly when the replacement is attended and is not equal to the original |
| Control.SelectInRange | src/cs113/calendar/control/Controller.java:178-188 | the loop keeps exactly the appointments starting before the end and ending after the start, in the set's order |
| Control.SortedSelection | src/cs113/calendar/control/Controller.java:182-192 | for an ordered set, the final sort changes nothing, and the answer is strictly increasing and holds exactly the overlapping appointments |
| Control.SelfConflict | src/cs113/calendar/control/Controller.java:319-325 | an attended appointment is among its own conflicts exactly when it has positive length |
| Control.ModificationValidMeansReplaceable | src/cs113/calendar/control/Controller.java:259-277 | with an attended original, the modification is valid exactly when the replacement is not among the other attended appointments |
| Control.ModificationValidWithoutOriginal | src/cs113/calendar/control/Controller.java:259-277 | with a null original, the modification is valid exactly when the replacement is not attended |
| Control.ConflictIsSymmetric | src/cs113/calendar/control/Controller.java:319-325 | the open overlap test is symmetric: a conflicts with b exactly when b conflicts with a |
| Control.Controller.constructor | src/cs113/calendar/control/Controller.java:52-54 | a new controller is logged out, with no current user |
| Control.Controller.ListUsers | src/cs113/calendar/control/Controller.java:71-73 | exactly the stored user ids |
| Control.Controller.GetUser | src/cs113/calendar/control/Controller.java:83-91 | the stored user with the id, or NoSuchUserException exactly when there is none |
| Control.Controller.CreateUser | src/cs113/calendar/control/Controller.java:100-104 | the backend's refusals (a used id, then a null id or name) change nothing; success stores a fresh user with that name and no appointments under the new id and leaves every other user |
| Control.Controller.DeleteUser | src/cs113/calendar/control/Controller.java:112-123 | NoSuchUserException exactly when the id is not stored, changing nothing; otherwise exactly that id is removed |
| Control.Controller.Login | src/cs113/calendar/control/Controller.java:131-138 | NoSuchUserException exactly for an unknown id, leaving the session unchanged; otherwise logged in as the stored user |
| Control.Controller.Logout | src/cs113/calendar/control/Controller.java:144-147 | always ends logged out with no current user, whatever the state before |
| Control.Controller.Save | src/cs113/calendar/control/Controller.java:154-160 | IllegalStateException exactly when logged out, changing nothing; otherwise the save succeeds and the current user is written under its id |
| Control.Controller.ListAppointmentsInRange | src/cs113/calendar/control/Controller.java:172-193 | IllegalStateException exactly when logged out; otherwise exactly the attended appointments with start before `end` and end after `start`, in natural order |
| Control.Controller.AddAppointment | src/cs113/calendar/control/Controller.java:205-218 | IllegalStateException exactly when logged out; then IdenticalAppointmentException exactly when an equal appointment is attended, changing nothing; otherwise the add succeeds and the set gains exactly that appointment; the user's name is kept |
| Control.Controller.CreateAppointment | src/cs113/calendar/control/Controller.java:236-243 | exactly the appointment constructor's outcome |
| Control.Controller.IsModificationValid | src/cs113/calendar/control/Controller.java:259-277 | IllegalStateException exactly when logged out; otherwise false exactly when the replacement is attended and differs from the original |
| Control.Controller.DeleteAppointment | src/cs113/calendar/control/Controller.java:289-300 | IllegalStateException exactly when logged out; then NoSuchAppointmentException exactly when the appointment is not attended, changing nothing; otherwise the delete succeeds and the set loses exactly that appointment; the user's name is kept |
| Control.Controller.FindConflicts | src/cs113/calendar/control/Controller.java:310-330 | IllegalStateException exactly when logged out; otherwise exactly the attended appointments overlapping the given one (itself included when attended and not empty), in natural order |
| Control.Controller.GetCurrentUserID | src/cs113/calendar/control/Controller.java:338-344 | IllegalStateException exactly when logged out; otherwise the current user's id |
| Control.Controller.ListAllAppointments | src/cs113/calendar/control/Controller.java:353-361 | IllegalStateException exactly when logged out; otherwise the current user's ordered set |
| Searches.Contains | src/cs113/calendar/guiview/Search.java:78-84 | definition: `String.contains`: the needle is a prefix of the text or of one of its suffixes |
| Searches.Matches | src/cs113/calendar/guiview/Search.java:75-93 | definition: `matches` tries failAll, the description and location substrings and the start and end bounds in order, and the first that fails rejects |
| Searches.ContainsIff | src/cs113/calendar/guiview/Search.java:78-84 | `String.contains` holds exactly when the criterion occurs in the field at some position |
| Searches.OccursAtShift | src/cs113/calendar/guiview/Search.java:78-84 | an occurrence past the first character is an occurrence in the rest of the string |
| Searches.MatchesIff | src/cs113/calendar/guiview/Search.java:75-93 | an appointment matches exactly when `failAll` is off, each present substring criterion occurs in its field, a present start lies before the end time and a present end lies after the start time |
| Searches.FilterAppointments | src/cs113/calendar/guiview/Search.java:55-67 | the output is exactly the matching inputs, in input order |
| Searches.FailAllFindsNothing | src/cs113/calendar/guiview/Search.java:76 | with `failAll` set, the filter returns nothing |
| Searches.EmptySearchFindsAll | src/cs113/calendar/guiview/Search.java:75-93 | with every criterion null and `failAll` off, the filter returns its whole input |
| Searches.EmptyCriterionIsNoCriterion | src/cs113/calendar/guiview/Search.java:78-84 | an empty substring criterion matches the same appointments as a null one |
| Searches.NarrowingSearch | src/cs113/calendar/guiview/Search.java:55-67 | a stricter search returns a subset of a looser one's result |
| Searches.RangeSearchIsRangeQuery | src/cs113/calendar/guiview/Search.java:86-90 | a time-range-only search selects exactly what the controller's range query selects, in the same order |
| ViewStates.IsChange | src/cs113/calendar/guiview/ViewState.java:295-302 | two possibly-null strings count as a change exactly when they differ: both null is no change, one null is a change, otherwise string inequality |
| ViewStates.ViewState.constructor | src/cs113/calendar/guiview/ViewState.java:87-92 | a new view state is UNAUTHORIZED, with no date, appointment, search, error or warning, and no events fired |
| ViewStates.ViewState.SetState | src/cs113/calendar/guiview/ViewState.java:100-111 | a null state throws NullPointerException and changes nothing; otherwise the call succeeds, the state is stored and one event fires exactly when it differs from the old one; nothing else changes |
| ViewStates.ViewState.SetStateAndDate | src/cs113/calendar/guiview/ViewState.java:119-134 | a null state throws and changes nothing; otherwise the call succeeds, both values are stored and one event fires exactly when the state or the date reference changed |
| ViewStates.ViewState.SetDate | src/cs113/calendar/guiview/ViewState.java:141-152 | the date is stored and one event fires exactly when the reference changed |
| ViewStates.ViewState.SetAppointment | src/cs113/calendar/guiview/ViewState.java:160-164 | the appointment is stored and exactly one event always fires |
| ViewStates.ViewState.SetError | src/cs113/calendar/guiview/ViewState.java:172-178 | the error is stored and one event fires exactly when it differs from the old one |
| ViewStates.ViewState.SetWarning | src/cs113/calendar/guiview/ViewState.java:186-192 | the warning is stored and one event fires exactly when it differs from the old one |
| ViewStates.ViewState.SetSearch | src/cs113/calendar/guiview/ViewState.java:262-266 | the search is stored and exactly one event always fires |
| ViewStates.ViewState.GetSearchResults | src/cs113/calendar/guiview/ViewState.java:249-256 | null without a search; with one, the controller's refusal when logged out, otherwise the current user's matching appointments in order |
| CommandLineEngines.IndexOf | src/cs113/calendar/simpleview/CommandLineEngine.java:101 | `indexOf(' ')` is -1 exactly when there is no space, and otherwise the position of the first one |
| CommandLineEngines.TrimStart | src/cs113/calendar/simpleview/CommandLineEngine.java:103 | `trim` cuts only characters up to U+0020 from the front, and stops at the first other character |
| CommandLineEngines.TrimEnd | src/cs113/calendar/simpleview/CommandLineEngine.java:103 | likewise at the back |
| CommandLineEngines.Trim | src/cs113/calendar/simpleview/CommandLineEngine.java:103 | definition: `String.trim` cuts the characters up to U+0020 from the front, then from the back |
| CommandLineEngines.TrimIsSlice | src/cs113/calendar/simpleview/CommandLineEngine.java:103 | `trim` gives a slice of its input with only blanks cut from either side and neither end blank |
| CommandLineEngines.SplitCommand | src/cs113/calendar/simpleview/CommandLineEngine.java:101-109 | definition: without a space the command is the trimmed text and the rest is empty; otherwise the text before the first space and the text after it |
| CommandLineEngines.SplitCommandRoundTrip | src/cs113/calendar/simpleview/CommandLineEngine.java:106-109 | with a space, command, the space and the rest give back the line, and the command holds no space |
| CommandLineEngines.SplitCommandWithoutSpace | src/cs113/calendar/simpleview/CommandLineEngine.java:102-105 | without a space the command is the trimmed line and the rest is empty; a line with no blank at either end is its own command |
| CommandLineEngines.CommandLineEngine.constructor | src/cs113/calendar/simpleview/CommandLineEngine.java:35-37 | a new engine has no commands |
| CommandLineEngines.CommandLineEngine.AddAction | src/cs113/calendar/simpleview/CommandLineEngine.java:45-51 | the table gains the entry under its name, replacing any earlier one, and keeps every other name |
| CommandLineEngines.CommandLineEngine.DoCommand | src/cs113/calendar/simpleview/CommandLineEngine.java:64-77 | NoSuchCommandException exactly when the name is not in the table; otherwise that entry's action runs with the arguments unchanged |
| CommandLineEngines.CommandLineEngine.DoCommandLine | src/cs113/calendar/simpleview/CommandLineEngine.java:95-131 | an unknown command throws NoSuchCommandException before any format is looked at; a null format throws NullPointerException; a failed match throws CommandFormatException; otherwise the action runs with groups 1 to `groupCount` in order |
| Partition.WeightedPartition | src/cs113/calendar/guiview/CalendarArea.java:572-587 | the array filled is exactly `Boundaries` of the weights: boundary i is `start` plus the share of the weights before i of `end - start`, and the last is `end` |
| Partition.Boundaries | src/cs113/calendar/guiview/CalendarArea.java:572-587 | definition: n + 1 boundaries, boundary i being `start` plus the share of the weights before i of the span, and the last being `end` itself |
| Partition.BoundaryAt | src/cs113/calendar/guiview/CalendarArea.java:582-586 | boundary i of the whole vector is the one-boundary formula at i |
| Partition.BoundariesEnds | src/cs113/calendar/guiview/CalendarArea.java:582-586 | the first boundary is `start` (when there is a weight) and the last is `end` |
| Partition.BoundaryWidth | src/cs113/calendar/guiview/CalendarArea.java:576-586 | interval i is exactly weight i's share of the total times `end - start` |
| Partition.InnerWidth | src/cs113/calendar/guiview/CalendarArea.java:582-584 | the same for an interval that ends before the last boundary |
| Partition.LastWidth | src/cs113/calendar/guiview/CalendarArea.java:585 | the same for the last interval, which ends at `end` itself |
| Partition.SumPositive | src/cs113/calendar/guiview/CalendarArea.java:576-580 | positive weights have a positive total |
| Partition.PrefixSumsIncrease | src/cs113/calendar/guiview/CalendarArea.java:576-580 | the cumulative weights of positive weights strictly increase |
| Partition.BoundariesIncrease | src/cs113/calendar/guiview/CalendarArea.java:572-587 | with positive weights and `start < end` the boundaries strictly increase |
| Partition.BoundariesMonotone | src/cs113/calendar/guiview/CalendarArea.java:572-587 | with positive weights and `start <= end` the boundaries never decrease |
| Partition.UniformBoundaries | src/cs113/calendar/guiview/CalendarArea.java:572-587 | equal weights cut the range into equal intervals: boundary i is `start + i/n * (end - start)` |
| Partition.SumOfConstant | src/cs113/calendar/guiview/CalendarArea.java:576-580 | n equal weights c total n times c |
| CalendarAreas.HourDivision.constructor | src/cs113/calendar/guiview/CalendarArea.java:1326-1330 | a new division belongs to its row, has no interesting hours yet and 25 fractions that are all 0 |
| CalendarAreas.HourDivision.SetInteresting | src/cs113/calendar/guiview/CalendarArea.java:1338-1368 | the flags are stored, and the fractions become the weighted partition of [0, 1] with weight `hourWeight` for each interesting hour and 1 for every other hour |
| CalendarAreas.HourDivision.YToHour | src/cs113/calendar/guiview/CalendarArea.java:1376-1404 | the hour at pixel y of the row [y1, y2]: 0 at or above the top, 24 past the last bracket, otherwise the linear interpolation in the first bracket whose upper fraction reaches y's fraction (`FractionToHour`, whose inverse is `hourToFraction`) |
| CalendarAreas.FindCell | src/cs113/calendar/guiview/CalendarArea.java:765-792 | the bracket search of `xToCol` and `yToRow`: -1 when x is outside [b[0], b[n]] or no inner boundary lies beyond it, otherwise the first cell whose far boundary lies beyond x |
| CalendarAreas.CalendarArea.constructor | src/cs113/calendar/guiview/CalendarArea.java:194-214 | a new area is the unzoomed day view of the day of `now`: one cell from its midnight, hour weight 10, no active month, the attended appointments of that day and no boxes yet |
| CalendarAreas.CalendarArea.SetupDayView | src/cs113/calendar/guiview/CalendarArea.java:319-343 | one cell from the midnight of t to the next midnight, hour weight 10, no active month and the grid `setupGrid` builds |
| CalendarAreas.CalendarArea.SetupWeekView | src/cs113/calendar/guiview/CalendarArea.java:350-376 | one row of seven days from the latest Sunday at or before the midnight of t, hour weight 10, no active month |
| CalendarAreas.CalendarArea.SetupMonthView | src/cs113/calendar/guiview/CalendarArea.java:383-409 | five rows of seven days from the latest Sunday at or before the first of t's month, hour weight 1000, and t's month as the active month |
| CalendarAreas.CalendarArea.SetupGrid | src/cs113/calendar/guiview/CalendarArea.java:486-523 | the attended appointments overlapping [gridStart, gridEnd) (none when logged out), the rows times cols consecutive one-day cells in row-major order, fresh boundary arrays and one blank division per row |
| CalendarAreas.CalendarArea.MakeGrid | src/cs113/calendar/guiview/CalendarArea.java:496-522 | boundary arrays of lengths rows + 1 and cols + 1, the cells of the grid and one division per row with its own 25 fractions starting at 0 |
| CalendarAreas.CalendarArea.FetchAppointments | src/cs113/calendar/guiview/CalendarArea.java:487-494 | the controller's range query for the grid, or no appointments when it throws because nobody is logged in |
| CalendarAreas.CalendarArea.BoxupAppointments | src/cs113/calendar/guiview/CalendarArea.java:594-602 | the boxes are the fragments of every appointment, appointment by appointment, and each is its appointment's box in a day of the grid |
| CalendarAreas.CalendarArea.BoxupAppointment | src/cs113/calendar/guiview/CalendarArea.java:609-624 | exactly the fragments of the appointment are appended: one box per cell it overlaps, in cell order |
| CalendarAreas.CalendarArea.LayoutArea | src/cs113/calendar/guiview/CalendarArea.java:468-479 | the grid spans the whole width, and the height below a header twice the font height |
| CalendarAreas.CalendarArea.LayoutGrid | src/cs113/calendar/guiview/CalendarArea.java:531-562 | a zoom that no longer fits is dropped; the boundaries are the truncated weighted partitions of the area, with the zoomed row weighing 7 and the zoomed column 3 when both are set |
| CalendarAreas.CalendarArea.ClampZoom | src/cs113/calendar/guiview/CalendarArea.java:542-543 | an active row or column beyond the grid becomes -1 and any other stays, so the zoom fits the grid |
| CalendarAreas.CalendarArea.CheckColHours | src/cs113/calendar/guiview/CalendarArea.java:660-677 | hour h becomes interesting exactly when it already was or some box of the day at (row, col) marks it, from its start hour to its end hour capped at 23 |
| CalendarAreas.CalendarArea.LayoutHourDivision | src/cs113/calendar/guiview/CalendarArea.java:641-650 | the row's division gets exactly the row's interesting hours and the hour fractions they weigh out to |
| CalendarAreas.CalendarArea.LayoutHourDivisions | src/cs113/calendar/guiview/CalendarArea.java:632-634 | every row's division gets that row's interesting hours and fractions |
| CalendarAreas.CalendarArea.LayoutBoxes | src/cs113/calendar/guiview/CalendarArea.java:682-706 | each box's bounds are those of `layoutBox`, with the box's end placed within its own day (see Findings) |
| CalendarAreas.CalendarArea.SetupLayout | src/cs113/calendar/guiview/CalendarArea.java:305-312 | area, grid, hour divisions and boxes are all laid out for the given size, and the zoom is dropped where it no longer fits |
| CalendarAreas.CalendarArea.LayoutFrame | src/cs113/calendar/guiview/CalendarArea.java:306-307 | the area and then the grid boundaries are laid out, with the zoom clamped to the grid |
| CalendarAreas.CalendarArea.LayoutContents | src/cs113/calendar/guiview/CalendarArea.java:308-309 | every row's hours and then every box's bounds are laid out over the current boundaries |
| CalendarAreas.CalendarArea.XToCol | src/cs113/calendar/guiview/CalendarArea.java:765-774 | the column whose boundaries bracket x, or -1 (`CellIndex`) |
| CalendarAreas.CalendarArea.YToRow | src/cs113/calendar/guiview/CalendarArea.java:783-792 | the row whose boundaries bracket y, or -1 (`CellIndex`) |
| CalendarAreas.CalendarArea.XyToTime | src/cs113/calendar/guiview/CalendarArea.java:744-756 | the grid start for a point outside the grid; otherwise the clicked day's start plus the hour at y in that row, truncated to milliseconds |
| CalendarAreas.CalendarArea.ToggleActiveDay | src/cs113/calendar/guiview/CalendarArea.java:1164-1185 | the zoom becomes the toggle of the old zoom by the clicked cell, and the area is laid out again |
| CalendarAreas.CalendarArea.ToggleZoomAt | src/cs113/calendar/guiview/CalendarArea.java:1168-1182 | a click outside the grid or on the active day clears the zoom; any other day becomes active |
| CalendarAreas.CalendarArea.Refresh | src/cs113/calendar/guiview/CalendarArea.java:297-312 | the appointments are boxed and the area laid out for the given size; the zoom is kept wherever it still fits |
| CalendarAreas.CalendarArea.SetDayView | src/cs113/calendar/guiview/CalendarArea.java:259-265 | the day view of t, with hour weight 10 and no active month, its appointments boxed and the area laid out; the zoom is kept wherever it fits one cell |
| CalendarAreas.CalendarArea.SetWeekView | src/cs113/calendar/guiview/CalendarArea.java:272-278 | the week view from the Sunday on or before t, with hour weight 10 and no active month, boxed and laid out; the zoom is kept wherever it fits one row of seven |
| CalendarAreas.CalendarArea.SetMonthView | src/cs113/calendar/guiview/CalendarArea.java:285-291 | the five-week month view of t's month, with hour weight 1000 and t's month active, boxed and laid out; the zoom is kept wherever it fits five rows of seven |
| CalendarAreas.MonthGrid | src/cs113/calendar/guiview/CalendarArea.java:386-406 | the month grid's Sunday is `MonthGridStart(t)` and the active month is t's month |
| CalendarAreas.MakeCells | src/cs113/calendar/guiview/CalendarArea.java:502-517 | the cells are exactly the grid's row-major one-day cells |
| CalendarAreas.MakeDivisions | src/cs113/calendar/guiview/CalendarArea.java:519-522 | one fresh division per row, each for its row with its own array of 25 fractions starting at 0 |
| CalendarAreas.UnitWeights | src/cs113/calendar/guiview/CalendarArea.java:532-540 | n weights, all 1 |
| CalendarAreas.GridWeights | src/cs113/calendar/guiview/CalendarArea.java:532-548 | the row and column weights: all 1, except 7 for the zoomed row and 3 for the zoomed column when both are set |
| CalendarAreas.Zoom | src/cs113/calendar/guiview/CalendarArea.java:545-548 | the zoomed row and column are raised only when both are set |
| CalendarAreas.PartitionGrid | src/cs113/calendar/guiview/CalendarArea.java:550-561 | the row boundaries partition [y1, y2] and the column boundaries [x1, x2], each truncated |
| CalendarAreas.PixelPartition | src/cs113/calendar/guiview/CalendarArea.java:550-561 | the boundaries are the weighted partition of [y1, y2], each cast to an int |
| Grid.GridCells | src/cs113/calendar/guiview/CalendarArea.java:497-517 | the grid has rows times cols cells |
| Grid.CellAt | src/cs113/calendar/guiview/CalendarArea.java:502-517 | cell k is in column k mod cols and spans day k of the grid, from gridStart plus k days to one day later |
| Grid.GridTiles | src/cs113/calendar/guiview/CalendarArea.java:502-517 | the cells tile the grid's range: the first starts at gridStart, each is one day long and starts where the previous ends, the last ends rows times cols days later, and any time in the range lies in cell (t - gridStart) / ONE_DAY |
| Grid.InCell | src/cs113/calendar/guiview/CalendarArea.java:1267-1270 | definition: `inCell`: the appointment starts before the day ends and ends after the day starts |
| Grid.MakeBox | src/cs113/calendar/guiview/CalendarArea.java:1280-1290 | definition: `makeBox`: the appointment clipped to the day, from the later of the two starts to the earlier of the two ends |
| Grid.Fragments | src/cs113/calendar/guiview/CalendarArea.java:609-624 | definition: `boxupAppointment`: the box of every cell the appointment overlaps, in cell order |
| Grid.AllFragments | src/cs113/calendar/guiview/CalendarArea.java:594-602 | definition: `boxupAppointments`: the boxes of each appointment in turn, concatenated |
| Grid.BoxInsideCellAndAppointment | src/cs113/calendar/guiview/CalendarArea.java:1267-1290 | the box of an appointment that overlaps a cell lies inside both the cell and the appointment, and is non-empty when the appointment is |
| Grid.FragmentsExactly | src/cs113/calendar/guiview/CalendarArea.java:609-624 | every fragment is the appointment's box in a cell it overlaps, the fragments are in strictly increasing cell order, and every overlapped cell has one |
| Grid.AllFragmentsPlaced | src/cs113/calendar/guiview/CalendarArea.java:594-602 | every box belongs to one of the appointments and is that appointment's box in its cell |
| Grid.FragmentsCover | src/cs113/calendar/guiview/CalendarArea.java:609-624 | every instant of an appointment inside the grid is covered by the box of the cell holding it |
| Grid.RowInteresting | src/cs113/calendar/guiview/CalendarArea.java:641-650 | a row has 24 interesting flags |
| Grid.StartHour | src/cs113/calendar/guiview/CalendarArea.java:668-669 | definition: the first hour a box marks: the truncated hour of its start since the day start |
| Grid.EndHour | src/cs113/calendar/guiview/CalendarArea.java:670-672 | definition: the last hour a box marks: the truncated hour of its end (the `Math.ceil` of a long division), capped at 23 |
| Grid.BoxMarksItsHours | src/cs113/calendar/guiview/CalendarArea.java:668-675 | the hour of every instant of a box within its day is marked by that box |
| Grid.BusyHoursInteresting | src/cs113/calendar/guiview/CalendarArea.java:641-677 | the hour of any instant of a box in a row is interesting in that row |
| Grid.QuietRowIsDull | src/cs113/calendar/guiview/CalendarArea.java:641-677 | a row without boxes has no interesting hour |
| Grid.RowInterestingByColumns | src/cs113/calendar/guiview/CalendarArea.java:641-650 | an hour of a row is interesting exactly when some column of the row marks it, as the loop over `checkColHours` finds |
| Grid.HourWeights | src/cs113/calendar/guiview/CalendarArea.java:1343-1347 | definition: `setInteresting`: an interesting hour weighs `hourWeight`, any other 1 |
| Grid.HourFractions | src/cs113/calendar/guiview/CalendarArea.java:1338-1368 | with a positive hour weight the fractions are laid out: 25 strictly increasing values from 0 to 1 |
| Grid.InterestingHoursTaller | src/cs113/calendar/guiview/CalendarArea.java:1343-1347 | an interesting hour is exactly `hourWeight` times as tall as a dull hour of the same row |
| Grid.DullRowIsUniform | src/cs113/calendar/guiview/CalendarArea.java:1343-1347 | in a row with no interesting hour, hour h starts at h / 24 |
| Grid.FractionToHourAtTop | src/cs113/calendar/guiview/CalendarArea.java:1378 | a fraction at or above the top of the row is hour 0 |
| Grid.HourFromInterpolates | src/cs113/calendar/guiview/CalendarArea.java:1383-1389 | the hour found in bracket i is the interpolation between that bracket's ends |
| Grid.HourFromStops | src/cs113/calendar/guiview/CalendarArea.java:1380-1392 | over laid-out fractions the search stops at the bracket holding the fraction, before the end of the day |
| Grid.HourToFraction | src/cs113/calendar/guiview/CalendarArea.java:1425-1436 | definition: `hourToFraction`: 0 before the day, 1 after it, otherwise the fraction of the truncated hour plus the linear share of the next hour's band |
| Grid.TimeToFraction | src/cs113/calendar/guiview/CalendarArea.java:1412-1417 | definition: `timeToFraction`: `hourToFraction` of the time of day, the Java remainder of the time since the grid start by one day, in hours |
| Grid.FractionToY | src/cs113/calendar/guiview/CalendarArea.java:1455-1460 | definition: `fractionToY`: the truncated pixel a fraction of the way from the row's top to its bottom |
| Grid.YToFraction | src/cs113/calendar/guiview/CalendarArea.java:1401-1404 | definition: `yToFraction`: the distance of the pixel from the row's top over the row's height |
| Grid.HourToFractionAt | src/cs113/calendar/guiview/CalendarArea.java:1425-1436 | within whole hour k, the fraction interpolates between boundaries k and k + 1 |
| Grid.HourToFractionBetween | src/cs113/calendar/guiview/CalendarArea.java:1425-1436 | an hour in [0, 24) lies between the boundaries of its whole hour, at the lower one exactly on the hour |
| Grid.HourToFractionOutsideDay | src/cs113/calendar/guiview/CalendarArea.java:1425-1436 | an hour of -1 or less gives the top of the row and an hour of 24 or more the bottom |
| Grid.HourToFractionMonotone | src/cs113/calendar/guiview/CalendarArea.java:1425-1436 | over laid-out fractions, later hours of the day are further down, within [0, 1] |
| Grid.HourFractionRoundTrip | src/cs113/calendar/guiview/CalendarArea.java:1376-1436 | on [0, 24] the search of `yToHour` inverts `hourToFraction` |
| Grid.SearchFindsHour | src/cs113/calendar/guiview/CalendarArea.java:1376-1393 | a fraction in bracket k is interpolated in bracket k |
| Grid.FractionHourRoundTrip | src/cs113/calendar/guiview/CalendarArea.java:1376-1436 | on [0, 1] `hourToFraction` inverts the search, whose hour lies in [0, 24] |
| Grid.PixelFractionRoundTrip | src/cs113/calendar/guiview/CalendarArea.java:1401-1404 | `fractionToY` gives back the pixel of `yToFraction` |
| Grid.ClickRoundTrip | src/cs113/calendar/guiview/CalendarArea.java:1376-1460 | a pixel of a row taken to its hour and back is the same pixel |
| Grid.FractionToYMonotone | src/cs113/calendar/guiview/CalendarArea.java:1455-1460 | larger fractions are further down a row |
| Grid.FractionToYEnds | src/cs113/calendar/guiview/CalendarArea.java:1455-1460 | fraction 0 is the row's top and fraction 1 its bottom |
| Grid.FractionToYWithinRow | src/cs113/calendar/guiview/CalendarArea.java:1455-1460 | a fraction in [0, 1] is drawn within the row |
| Grid.TimeToRow | src/cs113/calendar/guiview/CalendarArea.java:715-718 | definition: `timeToRow`: the truncated whole days since the grid start, truncated-divided by the number of columns |
| Grid.TimeToY | src/cs113/calendar/guiview/CalendarArea.java:727-734 | definition: `timeToY`: the grid's top for a row before the grid, its bottom for a row after it, otherwise `fractionToY` of `timeToFraction` in the time's row |
| Grid.TimeInCell | src/cs113/calendar/guiview/CalendarArea.java:715-718 | a time inside cell k is in row k / cols, and its time of day is measured from the cell's start |
| Grid.TimeAtCellEnd | src/cs113/calendar/guiview/CalendarArea.java:715-718 | the end of cell k is in row (k + 1) / cols at time of day 0 |
| Grid.TimeToYClamps | src/cs113/calendar/guiview/CalendarArea.java:715-734 | a time a row of days or more before the grid is drawn at its top, one at or after its end at its bottom, and one less than a row of days before the start falls in row 0 |
| Grid.TimeToYInCell | src/cs113/calendar/guiview/CalendarArea.java:727-734 | a time inside a cell is drawn at its row's fraction of its time of day |
| Grid.BoxInGrid | src/cs113/calendar/guiview/CalendarArea.java:609-624 | every box lies in a day of the grid with a valid row and column |
| Grid.BoxBoundsAsWritten | src/cs113/calendar/guiview/CalendarArea.java:693-706 | definition: `layoutBox` as written: the column inset by 2 px on the left and 1 px on the right, from `timeToY` of the box's start to `timeToY` of its end |
| Grid.BoxBounds | src/cs113/calendar/guiview/CalendarArea.java:693-706 | definition: `layoutBox` with the corrected end: the same rectangle, except that the end is placed by the hour of the end within the box's own day |
| Grid.BoxesBounds | src/cs113/calendar/guiview/CalendarArea.java:682-686 | definition: `layoutBoxes`: the corrected bounds of every box, in order |
| Grid.BoxEndAgrees | src/cs113/calendar/guiview/CalendarArea.java:693-706 | for a box ending before its day does, the end is where `timeToY` puts it |
| Grid.BoxEndAtMidnight | src/cs113/calendar/guiview/CalendarArea.java:693-706 | a box ending at the end of its day reaches the bottom of its row |
| Grid.BoxInItsCell | src/cs113/calendar/guiview/CalendarArea.java:1280-1290 | a box lies within its cell's one day, starts before the day ends and does not end before it starts |
| Grid.BoxInsideItsRow | src/cs113/calendar/guiview/CalendarArea.java:693-706 | a box's top and bottom lie within its row, top above bottom |
| Grid.BoxInsideItsDay | src/cs113/calendar/guiview/CalendarArea.java:693-706 | every box's bounds lie inside its day's rectangle |
| Grid.MidnightBoxAsWritten | src/cs113/calendar/guiview/CalendarArea.java:693-706 | as written, a box from 10:00 to midnight on the first day of a week, in the row layout that box itself gives (hours 10 to 23 weigh 10), gets height -46 px; the corrected end gives 654 px |
| Grid.CellIndex | src/cs113/calendar/guiview/CalendarArea.java:765-792 | the result is -1 or a cell index |
| Grid.CellIndexFinds | src/cs113/calendar/guiview/CalendarArea.java:765-792 | a found cell brackets x, and -1 means x is outside [b[0], b[last]] or lies beyond every inner boundary |
| Grid.CellIndexOnGrid | src/cs113/calendar/guiview/CalendarArea.java:765-792 | on nondecreasing boundaries, -1 exactly when x < b[0] or x >= b[last], and otherwise the cell whose boundaries bracket x |
| Grid.ClickTime | src/cs113/calendar/guiview/CalendarArea.java:744-756 | definition: `xyToTime`: the grid start for a click outside the grid, otherwise the clicked day's start plus `yToHour` hours in milliseconds, truncated |
| Grid.ClickTimeInDay | src/cs113/calendar/guiview/CalendarArea.java:744-756 | the time of a click inside the grid lies within the clicked day |
| Grid.ClampActive | src/cs113/calendar/guiview/CalendarArea.java:542-543 | a zoom index stays as it is or becomes -1, and then fits the grid |
| Grid.ToggledZoom | src/cs113/calendar/guiview/CalendarArea.java:1171-1182 | definition: `toggleActiveDay`: a click outside the grid or on the zoomed day unzooms; a click on any other day zooms in on it |
| Grid.ToggleZoom | src/cs113/calendar/guiview/CalendarArea.java:1171-1182 | after a click the view is zoomed exactly when the click is on a cell other than the active one, zoomed on that cell; clicking the same cell twice undoes it |
| Grid.EmphasisSum | src/cs113/calendar/guiview/CalendarArea.java:545-548 | the weights total n, plus the extra weight of a zoomed index |
| Grid.EmphasisShares | src/cs113/calendar/guiview/CalendarArea.java:545-587 | each unzoomed interval is the range over the total weight, and the zoomed one is exactly `big` times as large |
| Grid.EmphasisWidth | src/cs113/calendar/guiview/CalendarArea.java:545-587 | each interval is its weight's share of the range |
| Grid.UnzoomedUniform | src/cs113/calendar/guiview/CalendarArea.java:532-587 | without a zoom every row is equally tall and every column equally wide |
| Grid.GridBoundaries | src/cs113/calendar/guiview/CalendarArea.java:550-561 | definition: `layoutGrid`: `weightedPartition` of the weights over the pixel range, each boundary cast to `int` |
| Grid.PixelBoundaries | src/cs113/calendar/guiview/CalendarArea.java:550-561 | the pixel boundaries start at y1, end at y2 and never decrease |
| Grid.MonthGridStart | src/cs113/calendar/guiview/CalendarArea.java:386-394 | definition: `setupMonthView`: the latest Sunday midnight at or before the first of the month of the day of t |
| Grid.MonthGridHoldsFirst | src/cs113/calendar/guiview/CalendarArea.java:386-393 | the month grid starts at a Sunday midnight at most six days before the first of t's month |
| Grid.MonthGridMissesMay31 | src/cs113/calendar/guiview/CalendarArea.java:384-397 | the fixed five-week shape can leave days out: May 1970 begins on a Friday, its grid starts on April 26 and May 31 is the 36th day, past the grid's end |
| Dates.StartOfDay | src/cs113/calendar/guiview/CalendarArea.java:418-427 | the midnight on or before t, less than a day before it |
| Dates.DayOfWeek | src/cs113/calendar/guiview/CalendarArea.java:355 | the day of the week is one of seven |
| Dates.DayOfWeekOfPreviousDay | src/cs113/calendar/guiview/CalendarArea.java:355-357 | one day back is one day of the week back |
| Dates.LatestSunday | src/cs113/calendar/guiview/CalendarArea.java:354-357 | definition: the midnight moved back by its weekday in whole days |
| Dates.LatestSundayIsLatest | src/cs113/calendar/guiview/CalendarArea.java:354-357 | the Sunday reached is a Sunday midnight less than a week before d, and no later Sunday midnight precedes d |
| Dates.BackToSunday | src/cs113/calendar/guiview/CalendarArea.java:355-357 | the loop that steps back a day at a time ends at the latest Sunday |
| Dates.DateUnique | src/cs113/calendar/guiview/CalendarArea.java:388 | a day number has at most one Gregorian date |
| Dates.CivilDate | src/cs113/calendar/guiview/CalendarArea.java:388 | definition: the Gregorian year, month and day of the instant's day number |
| Dates.CivilDayIsDate | src/cs113/calendar/guiview/CalendarArea.java:388 | the civil date of a day number is its Gregorian date |
| Dates.CivilDayIn | src/cs113/calendar/guiview/CalendarArea.java:406 | any Gregorian date of a day number is its civil date |
| Dates.FirstOfMonth | src/cs113/calendar/guiview/CalendarArea.java:387-388 | definition: `set(DAY_OF_MONTH, 1)`: the instant moved back by its day of the month minus one, in whole days |
| Dates.FirstOfMonthIsMidnight | src/cs113/calendar/guiview/CalendarArea.java:387-388 | setting the day of the month to 1 on a midnight gives a midnight no later than it |
| Dates.FirstOfMonthIsFirst | src/cs113/calendar/guiview/CalendarArea.java:387-388 | that midnight is the first of the same month of the same year |

## Left out

- Drawing and widgets: painting, the UI delegates, the insets, `makeDayHeaders` and `makeShortDayHeaders` (date formatting), the component listeners and `clickOnCalendar`. They only render or forward events.
- `setView`, the appointment displays (`AppointmentDisplay`, `displays`, `displaysByAppointment`), `activateDay`, `createAppointment` and the selection bookkeeping with its re-entrancy guard. They serve the Swing selection model.
- Each box's Swing component is not modelled; `layoutBoxes` yields one `Rect` per box, the bounds `setBounds` would receive.
- The `dayGrid` matrix is not stored: day `(i, j)` is `days[i * cols + j]`. `DayCell`'s box list is not stored either: the boxes of cell k are the boxes whose cell index is k. Both agree with the code because `setupGrid` makes new cells before every boxing.
- `HourDivision.isInteresting`, `hourToY` and `HourDivision.timeToY` are not separate members. They read the stored flags or compose `HourToFraction`/`TimeToFraction` with `FractionToY`, which `Grid.TimeToY` does.
- Floating point: doubles are reals, so rounding, NaN and infinities are not modelled.
- The Julian calendar is not modelled: `GregorianCalendar` uses it for dates before 15 October 1582, while `Dates.CivilDate`, `Dates.FirstOfMonth` and `Dates.StartOfDay` use the proleptic Gregorian calendar for every date, so the month view of such a date differs.
- Time zones and daylight saving time are left out: every day is 86 400 000 ms long and starts at a UTC midnight. `Calendar` objects are instants, except the date of `ViewState`, whose reference identity decides whether an event fires.
- Overflow of Java's `int` and `long` is not modelled; integers are unbounded.
- File I/O: the `SerializableBackend` constructor that reads the storage file, `writeAll` and `Controller.writeAll` (Java serialization) are left out. The backend starts empty, as it does when no file exists.
- The regular-expression match of `CommandLineEngine.doCommandLine` is a function parameter, because `java.util.regex` is not modelled. The `SimpleView` and `CmdView` loops, `parseDate`, `checkField` and `formatDate` are left out as input/output around the engine.
- `Controller`'s `ModelMismatchException` paths are left out: every user in the model is a `SerializableUser`, so the cast cannot fail.
- Listener calls of `ViewState` (`fireEvent`, `addChangeListener`) are not modelled; firing is a counter of events.
- `SerializableUser.getAppointments` is the `apps` field, read directly. That it is ordered and free of duplicates is the class invariant `Valid`, which every method keeps.
- Appointment locations are strings, never null. No caller passes a null location, and `compareTo` would throw on one.
- CalendarAreas.HourDivision.YToHour: requires `y1 != y2` and a first fraction of at most 0. For a row of zero height Java divides by zero and gets an infinity or NaN. `xyToTime` only asks for the hour in a row whose boundaries bracket y, so they differ, and every division's first fraction is 0.
- CalendarAreas.CalendarArea.XyToTime: requires the grid invariant `Structured`. Every path that lays out the grid establishes it.
- Partition.WeightedPartition: requires a nonzero total weight. With a zero total Java divides by zero and fills in NaN; every caller passes positive weights.
- CalendarAreas.CalendarArea.SetDayView: requires the controller's session invariant `Session` (logged in exactly when there is a current user, whose set is ordered), which every controller method keeps.
- CalendarAreas.CalendarArea.SetWeekView: requires `Session`, as `SetDayView` does.
- CalendarAreas.CalendarArea.SetMonthView: requires `Session`, as `SetDayView` does.
- CalendarAreas.CalendarArea.LayoutBoxes: lays each box out with the corrected end of the Findings (`Grid.BoxBounds`), not with `timeToY(box.getEnd())` as `layoutBox` does. The two agree for every box that ends before its day's midnight (`Grid.BoxEndAgrees`). A box that ends at the midnight closing a day in any column but the last reaches its row's bottom, where the code gives it a negative height (`Grid.MidnightBoxAsWritten`).
- CalendarAreas.CalendarArea.SetupLayout: its box bounds are those of `LayoutBoxes`, so they carry the same corrected end.
- CalendarAreas.CalendarArea.LayoutContents: its box bounds are those of `LayoutBoxes`, so they carry the same corrected end.
- CalendarAreas.CalendarArea.ToggleActiveDay: the relayout after the toggle gives box bounds with the corrected end of `LayoutBoxes`.
- CalendarAreas.CalendarArea.Refresh: the relayout gives box bounds with the corrected end of `LayoutBoxes`.
- CalendarAreas.CalendarArea.SetDayView: the relayout of the new view gives box bounds with the corrected end of `LayoutBoxes`.
- CalendarAreas.CalendarArea.SetWeekView: the relayout gives box bounds with the corrected end, as for `SetDayView`.
- CalendarAreas.CalendarArea.SetMonthView: the relayout gives box bounds with the corrected end, as for `SetDayView`.

## Findings

| source | as written | input that shows it | evidently intended | confidence | as-written member | corrected member |
|---|---|---|---|---|---|---|
| src/cs113/calendar/guiview/CalendarArea.java:693-706 | `layoutBox` places a box's end with `timeToY(box.getEnd())`. A box that ends at the midnight closing its day is therefore placed by the next day: in a week or month view that is the top of the same row at time of day 0. | A week view 700 px tall and seven 100 px columns; an appointment from 10:00 to the midnight ending the grid's first day, so that hours 10 to 23 of the row are interesting and weigh 10. Its box gets height -46 px. | The box reaches the bottom of its own day, height 654 px, and every box lies inside its day's rectangle. | not executed | Grid.BoxBoundsAsWritten, Grid.MidnightBoxAsWritten | Grid.BoxBounds, Grid.BoxInsideItsDay |
