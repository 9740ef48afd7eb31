/** `CalendarArea`: the calendar grid component, without its drawing. A
    view (day, week or month) fixes the grid's shape and first day;
    `setupGrid` makes the day cells and fetches the appointments shown;
    `boxupAppointments` cuts them into one box per day; the layout divides
    the area into rows and columns, and each row into hours that are taller
    where boxes are; and clicks are mapped back to days and times.

    The component's width and height and the font height, which Swing
    supplies, are parameters; `dayGrid[i][j]` is `days[i * cols + j]`. */
module CalendarAreas {
  import opened Base
  import opened Appointments
  import opened Dates
  import opened Grid
  import Partition
  import Control

  /** `HourDivision`: how the 24 hours of one grid row share its height. */
  class HourDivision {
    const row: int
    /** The interesting hours last set; empty before the first `setInteresting`. */
    var interesting: seq<bool>
    /** Where, as a fraction of the row's height, each hour begins; entry 24
        is the end of the day. */
    const hourFractions: array<real>

    /** A blank division, with the 25 zeros of a new `double[25]`. */
    constructor (row: int)
      ensures this.row == row && interesting == []
      ensures fresh(hourFractions) && hourFractions.Length == 25
      ensures forall i :: 0 <= i < 25 ==> hourFractions[i] == 0.0
    {
      this.row := row;
      interesting := [];
      hourFractions := new real[25](_ => 0.0);
    }

    /** `setInteresting` and `setWeights`: interesting hours weigh
        `hourWeight`, the others 1, and the weights are partitioned over [0, 1]. */
    method SetInteresting(interesting: seq<bool>, hourWeight: real)
      requires |interesting| == 24 && hourWeight > 0.0 && hourFractions.Length == 25
      modifies this`interesting, hourFractions
      ensures this.interesting == interesting
      ensures hourFractions[..] == HourFractions(interesting, hourWeight)
    {
      this.interesting := interesting;
      var weights := new real[24];
      var i := 0;
      while i < 24
        modifies weights
        invariant 0 <= i <= 24
        invariant forall k :: 0 <= k < i ==> weights[k] == HourWeights(interesting, hourWeight)[k]
      {
        if interesting[i] {
          weights[i] := hourWeight;
        } else {
          weights[i] := 1.0;
        }
        i := i + 1;
      }
      assert weights[..] == HourWeights(interesting, hourWeight);
      Partition.SumPositive(weights[..]);
      Partition.WeightedPartition(weights, 0.0, 1.0, hourFractions);
    }

    /** `yToHour`, with `yToFraction` taken over the boundaries y1 and y2
        of the division's row. */
    method YToHour(y: int, y1: int, y2: int) returns (h: real)
      requires hourFractions.Length == 25 && hourFractions[0] <= 0.0 && y1 != y2
      ensures h == FractionToHour(hourFractions[..], YToFraction(y, y1, y2))
    {
      var f := YToFraction(y, y1, y2);
      if f <= 0.0 {
        FractionToHourAtTop(hourFractions[..], f);
        return 0.0;
      }
      ghost var fr := hourFractions[..];
      var i := 0;
      while i < 24
        invariant 0 <= i <= 24 && (i < 24 ==> fr[i] < f)
        invariant HourFrom(fr, f, 0) == HourFrom(fr, f, i)
      {
        if hourFractions[i + 1] >= f {
          var f1, f2 := hourFractions[i], hourFractions[i + 1];
          var h1, h2 := i as real, (i + 1) as real;
          HourFromInterpolates(fr, f, i, f1, f2);
          return Interpolate(f, f1, f2, h1, h2);
        }
        i := i + 1;
      }
      return 24.0;
    }
  }

  /** The first boundary strictly beyond x, searched as `xToCol` and
      `yToRow` both do: -1 outside [b[0], b[n]], otherwise the first cell
      whose far boundary lies beyond x. */
  method FindCell(b: array<int>, n: int, x: int) returns (j: int)
    requires n >= 0 && b.Length == n + 1
    ensures j == CellIndex(b[..], x)
  {
    if x < b[0] {
      return -1;
    }
    if x > b[n] {
      return -1;
    }
    j := 0;
    while j < n
      invariant 0 <= j <= n
      invariant forall k :: 1 <= k <= j ==> b[k] <= x
      invariant CellIndex(b[..], x) == CellFrom(b[..], x, j)
    {
      if x < b[j + 1] {
        return j;
      }
      j := j + 1;
    }
    return -1;
  }

  class CalendarArea {
    const controller: Control.Controller
    var rows: int
    var cols: int
    /** `gridStartTime` (and `gridStartMillis`, the same instant) and `gridEndTime`. */
    var gridStart: int
    var gridEnd: int
    /** The appointments that could be shown, as `setupGrid` fetched them. */
    var appointments: seq<Appointment>
    /** All the day cells, row by row. */
    var days: seq<DayCell>
    var rowCellBoundaries: array<int>
    var colCellBoundaries: array<int>
    var hourDivisions: seq<HourDivision>
    /** The hour fraction arrays of the divisions. */
    ghost var hourArrays: set<array<real>>
    var hourWeight: real
    var activeMonth: int
    var activeRow: int
    var activeCol: int
    var boxes: seq<AppointmentBox>
    /** The bounds `layoutBox` gave each box's component, in the order of `boxes`. */
    var bounds: seq<Rect>
    var gridX1: int
    var gridY1: int
    var gridX2: int
    var gridY2: int


    /** The hour fractions of every row. */
    function Fracs(): (fracs: seq<seq<real>>)
      reads this`hourDivisions, this`hourArrays, hourArrays
      requires forall r :: 0 <= r < |hourDivisions| ==> hourDivisions[r].hourFractions in hourArrays
      ensures |fracs| == |hourDivisions|
      ensures forall r :: 0 <= r < |fracs| ==> fracs[r] == hourDivisions[r].hourFractions[..]
    {
      var ds, arrays := hourDivisions, hourArrays;
      seq(|ds|, r requires 0 <= r < |ds| && ds[r].hourFractions in arrays reads arrays => ds[r].hourFractions[..])
    }

    /** What `setupGrid` leaves: a positive shape, boundary arrays of the
        right lengths, the cells of the grid and one division per row, each
        with its own 25 fractions... */
    ghost predicate Gridded()
      reads this`rows, this`cols, this`gridStart, this`days, this`rowCellBoundaries, this`colCellBoundaries, this`hourDivisions, this`hourArrays
    {
      rows > 0 && cols > 0
      && rowCellBoundaries.Length == rows + 1 && colCellBoundaries.Length == cols + 1
      && rowCellBoundaries != colCellBoundaries
      && days == GridCells(gridStart, rows, cols)
      && |hourDivisions| == rows
      && (forall r :: 0 <= r < rows ==>
            hourDivisions[r].row == r && hourDivisions[r].hourFractions in hourArrays
            && hourDivisions[r].hourFractions.Length == 25)
      && (forall r, s :: 0 <= r < s < rows ==> hourDivisions[r].hourFractions != hourDivisions[s].hourFractions)
    }

    /** ...the first of which is 0 in every row... */
    ghost predicate HoursFromTop()
      reads this`rows, this`cols, this`gridStart, this`days, this`rowCellBoundaries, this`colCellBoundaries, this`hourDivisions, this`hourArrays, hourArrays
      requires Gridded()
    {
      forall r :: 0 <= r < rows ==> hourDivisions[r].hourFractions[0] == 0.0
    }

    /** ...with a positive hour weight... */
    ghost predicate Structured()
      reads this`rows, this`cols, this`gridStart, this`days, this`rowCellBoundaries, this`colCellBoundaries, this`hourDivisions, this`hourWeight, this`hourArrays, hourArrays
    {
      Gridded() && hourWeight > 0.0 && HoursFromTop()
    }

    /** Every box is the box of its appointment in a day of the grid. */
    ghost predicate Boxed()
      reads this`rows, this`cols, this`days, this`boxes
    {
      forall i :: 0 <= i < |boxes| ==> BoxOf(boxes[i].app, days, boxes[i]) && InGrid(boxes[i], days, rows, cols)
    }

    /** ...a zoom that is `-1` or an index, and boxes in the grid. */
    ghost predicate Valid()
      reads this`rows, this`cols, this`gridStart, this`days, this`rowCellBoundaries, this`colCellBoundaries, this`hourDivisions, this`hourWeight, this`activeRow, this`activeCol, this`boxes, this`hourArrays, hourArrays
    {
      Structured() && activeRow >= -1 && activeCol >= -1 && Boxed()
    }

    /** The appointments `listAppointmentsInRange` gives for the grid's
        range, or none when nobody is logged in. */
    function Attended(start: int, end: int): seq<Appointment>
      reads controller, controller.currentUser
    {
      if controller.loggedIn && controller.currentUser != null
      then Filter(controller.currentUser.apps, Control.InRange(start, end))
      else []
    }

    /** The state `setupLayout` leaves for a component of the given size. */
    ghost predicate LaidOut(width: int, height: int, fontHeight: int)
      reads this, rowCellBoundaries, colCellBoundaries, hourDivisions, hourArrays
      requires Valid()
    {
      gridX1 == 0 && gridX2 == width && gridY1 == Trunc(2.0 * fontHeight as real) && gridY2 == height
      && rowCellBoundaries[..] == GridBoundaries(RowWeights(rows, activeRow, activeCol), gridY1, gridY2)
      && colCellBoundaries[..] == GridBoundaries(ColWeights(cols, activeRow, activeCol), gridX1, gridX2)
      && (forall r :: 0 <= r < rows ==>
            hourDivisions[r].interesting == RowInteresting(boxes, days, r, cols)
            && hourDivisions[r].hourFractions[..] == HourFractions(RowInteresting(boxes, days, r, cols), hourWeight))
      && bounds == BoxesBounds(boxes, days, colCellBoundaries[..], rowCellBoundaries[..], Fracs(), gridStart, rows, cols)
    }

    /** A new area shows the day of `now` (the time of `new GregorianCalendar()`),
        unzoomed and with no boxes yet. */
    constructor (controller: Control.Controller, now: int)
      requires controller.Session()
      ensures Valid() && this.controller == controller
      ensures rows == 1 && cols == 1 && gridStart == StartOfDay(now) && gridEnd == gridStart + ONE_DAY
      ensures hourWeight == 10.0 && activeMonth == -1 && activeRow == -1 && activeCol == -1
      ensures appointments == Attended(gridStart, gridEnd) && boxes == [] && bounds == []
    {
      this.controller := controller;
      rows, cols := 1, 1;
      gridStart, gridEnd := 0, ONE_DAY;
      appointments, days, boxes, bounds := [], [], [], [];
      rowCellBoundaries := new int[2];
      colCellBoundaries := new int[2];
      hourDivisions := [];
      hourWeight := 1.0;
      activeMonth, activeRow, activeCol := -1, -1, -1;
      gridX1, gridY1, gridX2, gridY2 := 0, 0, 0, 0;
      new;
      SetupDayView(now);
    }

    /** `setupDayView`: one cell, the day of t. */
    method SetupDayView(t: int)
      requires controller.Session()
      modifies this`rows, this`cols, this`gridStart, this`gridEnd, this`hourWeight, this`activeMonth
      modifies this`appointments, this`days, this`rowCellBoundaries, this`colCellBoundaries, this`hourDivisions, this`hourArrays
      ensures Structured() && appointments == Attended(gridStart, gridEnd)
      ensures rows == 1 && cols == 1 && gridStart == StartOfDay(t) && gridEnd == gridStart + ONE_DAY
      ensures hourWeight == 10.0 && activeMonth == -1
      ensures fresh(rowCellBoundaries) && fresh(colCellBoundaries)
      ensures fresh(hourArrays) && forall r :: 0 <= r < rows ==> fresh(hourDivisions[r])
    {
      rows, cols := 1, 1;
      var dayStart := StartOfDay(t);
      gridStart, gridEnd := dayStart, dayStart + ONE_DAY;
      SetupGrid();
      activeMonth := -1;
      hourWeight := 10.0;
    }

    /** `setupWeekView`: one row of seven days from the Sunday on or before t. */
    method SetupWeekView(t: int)
      requires controller.Session()
      modifies this`rows, this`cols, this`gridStart, this`gridEnd, this`hourWeight, this`activeMonth
      modifies this`appointments, this`days, this`rowCellBoundaries, this`colCellBoundaries, this`hourDivisions, this`hourArrays
      ensures Structured() && appointments == Attended(gridStart, gridEnd)
      ensures rows == 1 && cols == 7 && gridStart == LatestSunday(StartOfDay(t)) && gridEnd == gridStart + 7 * ONE_DAY
      ensures hourWeight == 10.0 && activeMonth == -1
      ensures fresh(rowCellBoundaries) && fresh(colCellBoundaries)
      ensures fresh(hourArrays) && forall r :: 0 <= r < rows ==> fresh(hourDivisions[r])
    {
      rows, cols := 1, 7;
      var weekStart := BackToSunday(StartOfDay(t));
      gridStart, gridEnd := weekStart, weekStart + 7 * ONE_DAY;
      SetupGrid();
      activeMonth := -1;
      hourWeight := 10.0;
    }

    /** `setupMonthView`: five rows of seven days from the Sunday on or
        before the first of t's month, which is the month shown as active. */
    method SetupMonthView(t: int)
      requires controller.Session()
      modifies this`rows, this`cols, this`gridStart, this`gridEnd, this`hourWeight, this`activeMonth
      modifies this`appointments, this`days, this`rowCellBoundaries, this`colCellBoundaries, this`hourDivisions, this`hourArrays
      ensures Structured() && appointments == Attended(gridStart, gridEnd)
      ensures rows == 5 && cols == 7 && gridStart == MonthGridStart(t) && gridEnd == gridStart + 35 * ONE_DAY
      ensures hourWeight == 1000.0 && activeMonth == CivilDate(t).month
      ensures fresh(rowCellBoundaries) && fresh(colCellBoundaries)
      ensures fresh(hourArrays) && forall r :: 0 <= r < rows ==> fresh(hourDivisions[r])
    {
      rows, cols := 5, 7;
      var sunday, month := MonthGrid(t);
      gridStart := sunday;
      gridEnd := sunday + rows * cols * ONE_DAY;
      SetupGrid();
      hourWeight := 1000.0;
      activeMonth := month;
    }

    /** `setupGrid`: fetches the appointments (none when nobody is logged
        in), makes the cells row by row, advancing one day per cell, and
        one blank hour division per row. */
    method SetupGrid()
      requires controller.Session() && rows > 0 && cols > 0
      modifies this`appointments, this`days, this`rowCellBoundaries, this`colCellBoundaries, this`hourDivisions, this`hourArrays
      ensures Gridded() && HoursFromTop() && appointments == Attended(gridStart, gridEnd)
      ensures fresh(rowCellBoundaries) && fresh(colCellBoundaries)
      ensures fresh(hourArrays) && forall r :: 0 <= r < rows ==> fresh(hourDivisions[r])
    {
      FetchAppointments();
      MakeGrid();
    }

    /** The rest of `setupGrid`: the boundary arrays, the cells and the divisions. */
    method MakeGrid()
      requires rows > 0 && cols > 0
      modifies this`days, this`rowCellBoundaries, this`colCellBoundaries, this`hourDivisions, this`hourArrays
      ensures Gridded() && HoursFromTop()
      ensures fresh(rowCellBoundaries) && fresh(colCellBoundaries)
      ensures fresh(hourArrays) && forall r :: 0 <= r < rows ==> fresh(hourDivisions[r])
    {
      var rowBoundaries, colBoundaries := new int[rows + 1], new int[cols + 1];
      var cells := MakeCells(gridStart, rows, cols);
      var divisions, arrays := MakeDivisions(rows);
      rowCellBoundaries, colCellBoundaries, days, hourDivisions, hourArrays := rowBoundaries, colBoundaries, cells, divisions, arrays;
    }

    /** The `try` of `setupGrid`: the attended appointments in the grid's
        range, or none when `listAppointmentsInRange` throws
        `IllegalStateException` because nobody is logged in. */
    method FetchAppointments()
      requires controller.Session()
      modifies this`appointments
      ensures appointments == Attended(gridStart, gridEnd)
    {
      var r := controller.ListAppointmentsInRange(gridStart, gridEnd);
      if r.Success? {
        appointments := r.value;
      } else {
        appointments := [];
      }
    }

    /** `boxupAppointments`: the boxes of every appointment, appointment by
        appointment. */
    method BoxupAppointments()
      requires Structured()
      modifies this`boxes
      ensures boxes == AllFragments(appointments, days)
      ensures Boxed()
    {
      boxes := [];
      var n := 0;
      while n < |appointments|
        invariant 0 <= n <= |appointments|
        invariant boxes == AllFragments(appointments[..n], days)
      {
        assert appointments[..n + 1][..n] == appointments[..n];
        BoxupAppointment(appointments[n]);
        n := n + 1;
      }
      assert appointments[..n] == appointments;
      AllFragmentsPlaced(appointments, days);
      forall i | 0 <= i < |boxes| ensures InGrid(boxes[i], days, rows, cols) {
        assert boxes[i] in boxes;
        BoxInGrid(boxes[i], gridStart, rows, cols);
      }
    }

    /** `boxupAppointment`: a box for each cell the appointment overlaps,
        in cell order. */
    method BoxupAppointment(app: Appointment)
      modifies this`boxes
      ensures boxes == old(boxes) + Fragments(app, days)
    {
      var k := 0;
      while k < |days|
        invariant 0 <= k <= |days|
        invariant boxes == old(boxes) + Fragments(app, days[..k])
      {
        assert days[..k + 1][..k] == days[..k];
        if InCell(days[k], app) {
          boxes := boxes + [MakeBox(days[k], k, app)];
        }
        k := k + 1;
      }
      assert days[..k] == days;
    }

    /** `layoutArea`: the grid takes the whole component below a header
        twice the font's height. */
    method LayoutArea(width: int, height: int, fontHeight: int)
      modifies this`gridX1, this`gridY1, this`gridX2, this`gridY2
      ensures gridX1 == 0 && gridX2 == width && gridY1 == Trunc(2.0 * fontHeight as real) && gridY2 == height
    {
      gridX1 := 0;
      gridX2 := width;
      gridY1 := Trunc(2.0 * fontHeight as real);
      gridY2 := height;
    }

    /** `layoutGrid`: forgets a zoom that no longer fits, then partitions
        the rows and columns, the zoomed day's row 7 and its column 3 times
        as large as the others. */
    method LayoutGrid()
      requires Structured() && activeRow >= -1 && activeCol >= -1
      modifies this`activeRow, this`activeCol, rowCellBoundaries, colCellBoundaries
      ensures activeRow == ClampActive(old(activeRow), rows) && activeCol == ClampActive(old(activeCol), cols)
      ensures Structured()
      ensures rowCellBoundaries[..] == GridBoundaries(RowWeights(rows, activeRow, activeCol), gridY1, gridY2)
      ensures colCellBoundaries[..] == GridBoundaries(ColWeights(cols, activeRow, activeCol), gridX1, gridX2)
    {
      ClampZoom();
      var rowWeights, colWeights := GridWeights(rows, cols, activeRow, activeCol);
      PartitionGrid(rowWeights, colWeights, gridX1, gridY1, gridX2, gridY2, rowCellBoundaries, colCellBoundaries);
    }

    /** The first step of `layoutGrid`: an active row or column beyond the
        grid's shape becomes -1. */
    method ClampZoom()
      requires activeRow >= -1 && activeCol >= -1
      modifies this`activeRow, this`activeCol
      ensures activeRow == ClampActive(old(activeRow), rows) && activeCol == ClampActive(old(activeCol), cols)
      ensures -1 <= activeRow < rows || rows <= -1
      ensures -1 <= activeCol < cols || cols <= -1
    {
      if activeRow >= rows {
        activeRow := -1;
      }
      if activeCol >= cols {
        activeCol := -1;
      }
    }

    /** `checkColHours`: every hour from the start hour to the end hour
        (at most 23) of each box of the day at (row, col) becomes interesting. */
    method CheckColHours(row: int, col: int, interesting: array<bool>)
      requires Valid() && 0 <= row < rows && 0 <= col < cols && interesting.Length == 24
      modifies interesting
      ensures forall h :: 0 <= h < 24 ==>
        interesting[h] == (old(interesting[h]) || ColumnMarks(boxes, days, row, cols, col, h))
    {
      CellOfRowCol(row, col, rows, cols);
      var k := row * cols + col;
      var dayStart := days[k].timeStart;
      var dayBoxes := DayBoxes(boxes, k);
      var n := 0;
      while n < |dayBoxes|
        invariant 0 <= n <= |dayBoxes|
        invariant forall h :: 0 <= h < 24 ==>
          interesting[h] == (old(interesting[h]) || exists m :: 0 <= m < n && MarksHour(dayBoxes[m], dayStart, h))
      {
        var box := dayBoxes[n];
        BoxOfDay(boxes, days, k, n);
        var startHour := JavaDiv(box.start - dayStart, ONE_HOUR);
        var endHour := JavaDiv(box.end - dayStart, ONE_HOUR);
        if endHour > 23 {
          endHour := 23;
        }
        ghost var before := interesting[..];
        var h := startHour;
        while h <= endHour
          invariant startHour <= h && (h == startHour || h <= endHour + 1)
          invariant forall g :: 0 <= g < 24 ==> interesting[g] == (before[g] || startHour <= g < h)
        {
          interesting[h] := true;
          h := h + 1;
        }
        assert forall g :: 0 <= g < 24 ==> (MarksHour(box, dayStart, g) <==> startHour <= g < h);
        n := n + 1;
      }
      forall h | 0 <= h < 24
        ensures (exists m :: 0 <= m < |dayBoxes| && MarksHour(dayBoxes[m], dayStart, h))
                <==> ColumnMarks(boxes, days, row, cols, col, h)
      {
        if ColumnMarks(boxes, days, row, cols, col, h) {
          var b :| b in dayBoxes && MarksHour(b, dayStart, h);
        }
      }
    }

    /** `layoutHourDivision`: the interesting hours of a row, column by
        column, given to the row's division. */
    method LayoutHourDivision(row: int)
      requires Valid() && 0 <= row < rows
      modifies hourDivisions[row], hourDivisions[row].hourFractions
      ensures hourDivisions[row].interesting == RowInteresting(boxes, days, row, cols)
      ensures hourDivisions[row].hourFractions[..] == HourFractions(RowInteresting(boxes, days, row, cols), hourWeight)
    {
      var interesting := new bool[24];
      var i := 0;
      while i < 24
        modifies interesting
        invariant 0 <= i <= 24
        invariant forall h :: 0 <= h < i ==> !interesting[h]
      {
        interesting[i] := false;
        i := i + 1;
      }
      var j := 0;
      while j < cols
        modifies interesting
        invariant 0 <= j <= cols
        invariant forall h :: 0 <= h < 24 ==>
          interesting[h] == exists c :: 0 <= c < j && ColumnMarks(boxes, days, row, cols, c, h)
      {
        CheckColHours(row, j, interesting);
        j := j + 1;
      }
      forall h | 0 <= h < 24 ensures interesting[h] == RowInteresting(boxes, days, row, cols)[h] {
        RowInterestingByColumns(boxes, days, row, cols, h);
      }
      assert interesting[..] == RowInteresting(boxes, days, row, cols);
      hourDivisions[row].SetInteresting(interesting[..], hourWeight);
    }

    /** `layoutHourDivisions`: every row in turn. */
    method LayoutHourDivisions()
      requires Valid()
      modifies hourDivisions, hourArrays
      ensures Valid()
      ensures forall r :: 0 <= r < rows ==>
        hourDivisions[r].interesting == RowInteresting(boxes, days, r, cols)
        && hourDivisions[r].hourFractions[..] == HourFractions(RowInteresting(boxes, days, r, cols), hourWeight)
    {
      var i := 0;
      while i < rows
        invariant 0 <= i <= rows && Valid()
        invariant forall r :: 0 <= r < i ==>
          hourDivisions[r].interesting == RowInteresting(boxes, days, r, cols)
          && hourDivisions[r].hourFractions[..] == HourFractions(RowInteresting(boxes, days, r, cols), hourWeight)
      {
        LayoutHourDivision(i);
        i := i + 1;
      }
    }

    /** `layoutBoxes`: each box's bounds, by `layoutBox` with the box's end
        measured within its own day. */
    method LayoutBoxes()
      requires Valid()
      modifies this`bounds
      ensures bounds == BoxesBounds(boxes, days, colCellBoundaries[..], rowCellBoundaries[..], Fracs(), gridStart, rows, cols)
    {
      var cb, rb, fracs := colCellBoundaries[..], rowCellBoundaries[..], Fracs();
      bounds := [];
      var n := 0;
      while n < |boxes|
        invariant 0 <= n <= |boxes| && |bounds| == n
        invariant forall i :: 0 <= i < n ==> bounds[i] == BoxBounds(boxes[i], days, cb, rb, fracs, gridStart, cols)
      {
        bounds := bounds + [BoxBounds(boxes[n], days, cb, rb, fracs, gridStart, cols)];
        n := n + 1;
      }
    }

    /** `setupLayout`: the area, the grid, the hours of each row, then the boxes. */
    method SetupLayout(width: int, height: int, fontHeight: int)
      requires Valid()
      modifies this`gridX1, this`gridY1, this`gridX2, this`gridY2, this`activeRow, this`activeCol, this`bounds
      modifies rowCellBoundaries, colCellBoundaries, hourDivisions, hourArrays
      ensures Valid() && LaidOut(width, height, fontHeight)
      ensures activeRow == ClampActive(old(activeRow), rows) && activeCol == ClampActive(old(activeCol), cols)
    {
      LayoutFrame(width, height, fontHeight);
      LayoutContents();
    }

    /** The first half of `setupLayout`: the drawing area, then the grid boundaries. */
    method LayoutFrame(width: int, height: int, fontHeight: int)
      requires Valid()
      modifies this`gridX1, this`gridY1, this`gridX2, this`gridY2, this`activeRow, this`activeCol, rowCellBoundaries, colCellBoundaries
      ensures Valid()
      ensures gridX1 == 0 && gridX2 == width && gridY1 == Trunc(2.0 * fontHeight as real) && gridY2 == height
      ensures activeRow == ClampActive(old(activeRow), rows) && activeCol == ClampActive(old(activeCol), cols)
      ensures rowCellBoundaries[..] == GridBoundaries(RowWeights(rows, activeRow, activeCol), gridY1, gridY2)
      ensures colCellBoundaries[..] == GridBoundaries(ColWeights(cols, activeRow, activeCol), gridX1, gridX2)
    {
      LayoutArea(width, height, fontHeight);
      LayoutGrid();
    }

    /** The second half of `setupLayout`: the hours of each row, then the boxes. */
    method LayoutContents()
      requires Valid()
      modifies this`bounds, hourDivisions, hourArrays
      ensures Valid()
      ensures forall r :: 0 <= r < rows ==>
            hourDivisions[r].interesting == RowInteresting(boxes, days, r, cols)
            && hourDivisions[r].hourFractions[..] == HourFractions(RowInteresting(boxes, days, r, cols), hourWeight)
      ensures bounds == BoxesBounds(boxes, days, colCellBoundaries[..], rowCellBoundaries[..], Fracs(), gridStart, rows, cols)
    {
      LayoutHourDivisions();
      LayoutBoxes();
    }

    /** `xToCol`. */
    method XToCol(x: int) returns (col: int)
      requires Structured()
      ensures col == CellIndex(colCellBoundaries[..], x)
    {
      col := FindCell(colCellBoundaries, cols, x);
    }

    /** `yToRow`. */
    method YToRow(y: int) returns (row: int)
      requires Structured()
      ensures row == CellIndex(rowCellBoundaries[..], y)
    {
      row := FindCell(rowCellBoundaries, rows, y);
    }

    /** `xyToTime`: the time at a point of the grid. */
    method XyToTime(x: int, y: int) returns (t: int)
      requires Structured()
      ensures t == ClickTime(rowCellBoundaries[..], colCellBoundaries[..], Fracs(), days, gridStart, cols, x, y)
    {
      var row := YToRow(y);
      var col := XToCol(x);
      if row == -1 || col == -1 {
        return gridStart;
      }
      ghost var rb, fracs := rowCellBoundaries[..], Fracs();
      CellOfRowCol(row, col, rows, cols);
      CellIndexFinds(rb, y);
      var day := days[row * cols + col];
      var h := hourDivisions[row].YToHour(y, rowCellBoundaries[row], rowCellBoundaries[row + 1]);
      assert h == FractionToHour(fracs[row], YToFraction(y, rb[row], rb[row + 1]));
      return Trunc(h * ONE_HOUR as real + day.timeStart as real);
    }

    /** `toggleActiveDay`: zooms in on the day clicked, or out, then lays
        the area out again. */
    method ToggleActiveDay(x: int, y: int, width: int, height: int, fontHeight: int)
      requires Valid()
      modifies this`gridX1, this`gridY1, this`gridX2, this`gridY2, this`activeRow, this`activeCol, this`bounds
      modifies rowCellBoundaries, colCellBoundaries, hourDivisions, hourArrays
      ensures Valid() && LaidOut(width, height, fontHeight)
      ensures (activeRow, activeCol)
           == ToggledZoom(old(activeRow), old(activeCol),
                          CellIndex(old(rowCellBoundaries[..]), y), CellIndex(old(colCellBoundaries[..]), x))
    {
      ToggleZoomAt(x, y);
      SetupLayout(width, height, fontHeight);
    }

    /** The zoom step of `toggleActiveDay`, which leaves a zoom that fits
        the grid. */
    method ToggleZoomAt(x: int, y: int)
      requires Valid()
      modifies this`activeRow, this`activeCol
      ensures Valid() && activeRow < rows && activeCol < cols
      ensures (activeRow, activeCol)
           == ToggledZoom(old(activeRow), old(activeCol), CellIndex(rowCellBoundaries[..], y), CellIndex(colCellBoundaries[..], x))
    {
      var row := YToRow(y);
      var col := XToCol(x);
      var newRow, newCol := row, col;
      if row == -1 || col == -1 {
        newRow, newCol := -1, -1;
      } else if row == activeRow && col == activeCol {
        newRow, newCol := -1, -1;
      }
      activeRow, activeCol := newRow, newCol;
    }

    /** The common tail of the three views: `setupStructure()` (which only boxes the
        appointments) followed by `setupLayout()`. */
    method Refresh(width: int, height: int, fontHeight: int)
      requires Structured() && activeRow >= -1 && activeCol >= -1
      modifies this`gridX1, this`gridY1, this`gridX2, this`gridY2, this`activeRow, this`activeCol, this`bounds, this`boxes
      modifies rowCellBoundaries, colCellBoundaries, hourDivisions, hourArrays
      ensures Valid() && LaidOut(width, height, fontHeight)
      ensures boxes == AllFragments(appointments, days)
      ensures activeRow == ClampActive(old(activeRow), rows) && activeCol == ClampActive(old(activeCol), cols)
    {
      BoxupAppointments();
      SetupLayout(width, height, fontHeight);
    }

    /** `setDayView`: the day of t, boxed and laid out. */
    method SetDayView(t: int, width: int, height: int, fontHeight: int)
      requires Valid() && controller.Session()
      modifies this
      ensures Valid() && LaidOut(width, height, fontHeight)
      ensures rows == 1 && cols == 1 && gridStart == StartOfDay(t) && gridEnd == gridStart + ONE_DAY
      ensures hourWeight == 10.0 && activeMonth == -1
      ensures appointments == Attended(gridStart, gridEnd) && boxes == AllFragments(appointments, days)
      ensures activeRow == ClampActive(old(activeRow), rows) && activeCol == ClampActive(old(activeCol), cols)
    {
      SetupDayView(t);
      Refresh(width, height, fontHeight);
    }

    /** `setWeekView`: the week of t, from Sunday, boxed and laid out. */
    method SetWeekView(t: int, width: int, height: int, fontHeight: int)
      requires Valid() && controller.Session()
      modifies this
      ensures Valid() && LaidOut(width, height, fontHeight)
      ensures rows == 1 && cols == 7 && gridStart == LatestSunday(StartOfDay(t)) && gridEnd == gridStart + 7 * ONE_DAY
      ensures hourWeight == 10.0 && activeMonth == -1
      ensures appointments == Attended(gridStart, gridEnd) && boxes == AllFragments(appointments, days)
      ensures activeRow == ClampActive(old(activeRow), rows) && activeCol == ClampActive(old(activeCol), cols)
    {
      SetupWeekView(t);
      Refresh(width, height, fontHeight);
    }

    /** `setMonthView`: five weeks around the month of t, boxed and laid out. */
    method SetMonthView(t: int, width: int, height: int, fontHeight: int)
      requires Valid() && controller.Session()
      modifies this
      ensures Valid() && LaidOut(width, height, fontHeight)
      ensures rows == 5 && cols == 7 && gridStart == MonthGridStart(t) && gridEnd == gridStart + 35 * ONE_DAY
      ensures hourWeight == 1000.0 && activeMonth == CivilDate(t).month
      ensures appointments == Attended(gridStart, gridEnd) && boxes == AllFragments(appointments, days)
      ensures activeRow == ClampActive(old(activeRow), rows) && activeCol == ClampActive(old(activeCol), cols)
    {
      SetupMonthView(t);
      Refresh(width, height, fontHeight);
    }
  }

  /** The dates of `setupMonthView`: the first of t's month, the Sunday
      reached from it by the loop, and the month of the first, which is t's. */
  method MonthGrid(t: int) returns (sunday: int, month: int)
    ensures sunday == MonthGridStart(t) && month == CivilDate(t).month
  {
    var monthStart := FirstOfMonth(StartOfDay(t));
    FirstOfMonthIsMidnight(StartOfDay(t));
    MonthGridHoldsFirst(t);
    assert DayNumber(StartOfDay(t)) == DayNumber(t);
    sunday := BackToSunday(monthStart);
    month := CivilDate(monthStart).month;
  }

  /** The cells of `setupGrid`: row by row, column by column, each a day
      long and starting where the previous one ends. */
  method MakeCells(gridStart: int, rows: nat, cols: nat) returns (cells: seq<DayCell>)
    requires cols > 0
    ensures cells == GridCells(gridStart, rows, cols)
  {
    cells := [];
    var dayStart, dayEnd := gridStart, gridStart + ONE_DAY;
    var i := 0;
    while i < rows
      invariant 0 <= i <= rows && 0 <= i * cols
      invariant cells == CellsUpTo(gridStart, cols, i * cols)
      invariant dayStart == gridStart + (i * cols) * ONE_DAY && dayEnd == dayStart + ONE_DAY
    {
      var j := 0;
      while j < cols
        invariant 0 <= j <= cols
        invariant cells == CellsUpTo(gridStart, cols, i * cols + j)
        invariant dayStart == gridStart + (i * cols + j) * ONE_DAY && dayEnd == dayStart + ONE_DAY
      {
        RowColOfCell(i, j, cols);
        cells := cells + [DayCell(j, dayStart, dayEnd)];
        dayStart, dayEnd := dayStart + ONE_DAY, dayEnd + ONE_DAY;
        j := j + 1;
      }
      assert i * cols + cols == (i + 1) * cols;
      i := i + 1;
    }
  }

  /** The blank hour divisions of `setupGrid`, one per row, each with its
      own fraction array. */
  method MakeDivisions(rows: nat) returns (divisions: seq<HourDivision>, ghost arrays: set<array<real>>)
    ensures |divisions| == rows && fresh(arrays)
    ensures forall r :: 0 <= r < rows ==>
      divisions[r].row == r && fresh(divisions[r]) && divisions[r].hourFractions in arrays
      && divisions[r].hourFractions.Length == 25 && divisions[r].hourFractions[0] == 0.0
    ensures forall r, s :: 0 <= r < s < rows ==> divisions[r].hourFractions != divisions[s].hourFractions
  {
    divisions, arrays := [], {};
    var i := 0;
    while i < rows
      invariant 0 <= i <= rows && |divisions| == i && fresh(arrays)
      invariant forall r :: 0 <= r < i ==>
        divisions[r].row == r && fresh(divisions[r]) && divisions[r].hourFractions in arrays
        && divisions[r].hourFractions.Length == 25 && divisions[r].hourFractions[0] == 0.0
      invariant forall r, s :: 0 <= r < s < i ==> divisions[r].hourFractions != divisions[s].hourFractions
    {
      var d := new HourDivision(i);
      divisions, arrays := divisions + [d], arrays + {d.hourFractions};
      i := i + 1;
    }
  }

  /** The loops of `layoutGrid` that give every row or column weight 1. */
  method UnitWeights(n: nat) returns (w: array<real>)
    ensures fresh(w) && w[..] == Emphasis(n, -1, 1.0)
  {
    w := new real[n];
    var i := 0;
    while i < n
      invariant 0 <= i <= n
      invariant forall k :: 0 <= k < i ==> w[k] == 1.0
    {
      w[i] := 1.0;
      i := i + 1;
    }
  }

  /** The weights of `layoutGrid`: all 1, but with a day zoomed its row
      weighs 7 and its column 3. */
  method GridWeights(rows: nat, cols: nat, activeRow: int, activeCol: int) returns (rowWeights: array<real>, colWeights: array<real>)
    requires -1 <= activeRow < rows && -1 <= activeCol < cols
    ensures fresh(rowWeights) && fresh(colWeights)
    ensures rowWeights[..] == RowWeights(rows, activeRow, activeCol) && colWeights[..] == ColWeights(cols, activeRow, activeCol)
  {
    rowWeights := UnitWeights(rows);
    colWeights := UnitWeights(cols);
    Zoom(rowWeights, colWeights, activeRow, activeCol);
  }

  /** The zoom of `layoutGrid`: with both a row and a column active, that
      row weighs 7 and that column 3; otherwise all stay 1. */
  method Zoom(rowWeights: array<real>, colWeights: array<real>, activeRow: int, activeCol: int)
    requires rowWeights != colWeights
    requires rowWeights[..] == Emphasis(rowWeights.Length, -1, 1.0) && colWeights[..] == Emphasis(colWeights.Length, -1, 1.0)
    requires -1 <= activeRow < rowWeights.Length && -1 <= activeCol < colWeights.Length
    modifies rowWeights, colWeights
    ensures rowWeights[..] == RowWeights(rowWeights.Length, activeRow, activeCol)
    ensures colWeights[..] == ColWeights(colWeights.Length, activeRow, activeCol)
  {
    if activeCol != -1 && activeRow != -1 {
      rowWeights[activeRow] := 7.0;
      colWeights[activeCol] := 3.0;
      Emphasize(rowWeights.Length, activeRow, 7.0);
      Emphasize(colWeights.Length, activeCol, 3.0);
    } else {
      Unemphasized(rowWeights.Length, 7.0);
      Unemphasized(colWeights.Length, 3.0);
    }
  }

  /** Raising weight `active` of the unit weights to `big`. */
  lemma {:induction false} Emphasize(n: nat, active: nat, big: real)
    requires active < n
    ensures Emphasis(n, -1, 1.0)[active := big] == Emphasis(n, active, big)
  {
    assert forall k :: 0 <= k < n ==> Emphasis(n, -1, 1.0)[active := big][k] == Emphasis(n, active, big)[k];
  }

  /** Without a zoom the weights are all 1, whatever the zoomed weight. */
  lemma {:induction false} Unemphasized(n: nat, big: real)
    ensures Emphasis(n, -1, 1.0) == Emphasis(n, -1, big)
  {
    assert forall k :: 0 <= k < n ==> Emphasis(n, -1, 1.0)[k] == Emphasis(n, -1, big)[k];
  }

  /** Both partitions of `layoutGrid`: the rows over [y1, y2], the columns over [x1, x2]. */
  method PartitionGrid(rowWeights: array<real>, colWeights: array<real>, x1: int, y1: int, x2: int, y2: int,
                       rowBoundaries: array<int>, colBoundaries: array<int>)
    requires rowWeights.Length > 0 && Partition.AllPositive(rowWeights[..]) && rowBoundaries.Length == rowWeights.Length + 1
    requires colWeights.Length > 0 && Partition.AllPositive(colWeights[..]) && colBoundaries.Length == colWeights.Length + 1
    requires rowBoundaries != colBoundaries
    modifies rowBoundaries, colBoundaries
    ensures rowBoundaries[..] == GridBoundaries(rowWeights[..], y1, y2)
    ensures colBoundaries[..] == GridBoundaries(colWeights[..], x1, x2)
  {
    PixelPartition(rowWeights, y1, y2, rowBoundaries);
    PixelPartition(colWeights, x1, x2, colBoundaries);
  }

  /** One partition of `layoutGrid`: the weights partitioned over [y1, y2]
      into doubles, then each boundary cast to an int. */
  method PixelPartition(weights: array<real>, y1: int, y2: int, boundaries: array<int>)
    requires weights.Length > 0 && Partition.AllPositive(weights[..]) && boundaries.Length == weights.Length + 1
    modifies boundaries
    ensures boundaries[..] == GridBoundaries(weights[..], y1, y2)
  {
    Partition.SumPositive(weights[..]);
    var p := new real[weights.Length + 1];
    Partition.WeightedPartition(weights, y1 as real, y2 as real, p);
    var i := 0;
    while i < p.Length
      modifies boundaries
      invariant 0 <= i <= p.Length
      invariant forall k :: 0 <= k < i ==> boundaries[k] == Trunc(p[k])
    {
      boundaries[i] := Trunc(p[i]);
      i := i + 1;
    }
    assert boundaries[..] == TruncAll(p[..]);
  }

  /** Box n of day k's list is a box of the grid for day k. */
  lemma {:induction false} BoxOfDay(boxes: seq<AppointmentBox>, days: seq<DayCell>, k: int, n: nat)
    requires n < |DayBoxes(boxes, k)|
    ensures DayBoxes(boxes, k)[n] in boxes && DayBoxes(boxes, k)[n].cell == k
  {
    var b := DayBoxes(boxes, k)[n];
    FilterIsSubsequence(boxes, (b: AppointmentBox) => b.cell == k);
    FilterMembership(boxes, (b: AppointmentBox) => b.cell == k, b);
  }
}
