/** The value-level parts of `CalendarArea`: the day cells of the grid, the
    boxes an appointment is cut into, the interesting hours of a row, the
    zoom weights, and the conversions between times, hour fractions and
    screen coordinates. */
module Grid {
  import opened Base
  import opened Appointments
  import opened Dates
  import Partition

  /** `DayCell`: a cell's column and the day it shows, [timeStart, timeEnd). */
  datatype DayCell = DayCell(col: int, timeStart: int, timeEnd: int)

  /** `AppointmentBox`: the part [start, end] of an appointment shown in the
      cell with index `cell` in the grid's list of days. */
  datatype AppointmentBox = AppointmentBox(app: Appointment, cell: nat, start: int, end: int)

  /** Cell number k of a grid with `cols` columns starting at `gridStart`:
      row k / cols, column k % cols, the k-th day of the grid. */
  function Cell(gridStart: int, cols: int, k: int): DayCell
    requires cols > 0
  {
    DayCell(k % cols, gridStart + k * ONE_DAY, gridStart + (k + 1) * ONE_DAY)
  }

  /** The cells `setupGrid` lists, in row-major order. */
  function GridCells(gridStart: int, rows: nat, cols: nat): (cells: seq<DayCell>)
    requires cols > 0
    ensures |cells| == rows * cols
  {
    CellsUpTo(gridStart, cols, rows * cols)
  }

  /** The first n cells of a grid with `cols` columns. */
  function CellsUpTo(gridStart: int, cols: int, n: nat): (cells: seq<DayCell>)
    requires cols > 0
    ensures |cells| == n
  {
    if n == 0 then [] else CellsUpTo(gridStart, cols, n - 1) + [Cell(gridStart, cols, n - 1)]
  }

  lemma {:induction false} CellUpTo(gridStart: int, cols: int, n: nat, k: nat)
    requires cols > 0 && k < n
    ensures CellsUpTo(gridStart, cols, n)[k] == Cell(gridStart, cols, k)
  {
    if k < n - 1 {
      CellUpTo(gridStart, cols, n - 1, k);
    }
  }

  /** Cell k of the grid is `Cell(gridStart, cols, k)`. */
  lemma {:induction false} CellAt(gridStart: int, rows: nat, cols: nat, k: nat)
    requires cols > 0 && k < rows * cols
    ensures GridCells(gridStart, rows, cols)[k] == Cell(gridStart, cols, k)
  {
    CellUpTo(gridStart, cols, rows * cols, k);
  }

  /** The cells tile the grid's time range: one day each, each starting where
      the previous one ends, from `gridStart` to `gridStart` plus rows·cols
      days, and each instant of the range lies in cell (t - gridStart) / ONE_DAY. */
  lemma {:induction false} GridTiles(gridStart: int, rows: nat, cols: nat, t: int)
    requires rows > 0 && cols > 0
    ensures var cells := GridCells(gridStart, rows, cols);
      cells[0].timeStart == gridStart
      && cells[|cells| - 1].timeEnd == gridStart + |cells| * ONE_DAY
      && (forall k :: 0 <= k < |cells| ==> cells[k].timeEnd == cells[k].timeStart + ONE_DAY)
      && (forall k :: 0 <= k < |cells| - 1 ==> cells[k].timeEnd == cells[k + 1].timeStart)
      && (gridStart <= t < gridStart + |cells| * ONE_DAY ==>
            0 <= (t - gridStart) / ONE_DAY < |cells|
            && cells[(t - gridStart) / ONE_DAY].timeStart <= t < cells[(t - gridStart) / ONE_DAY].timeEnd)
  {
    var cells := GridCells(gridStart, rows, cols);
    assert rows * cols >= 1 by {
      assert rows * cols >= 1 * cols;
    }
    CellAt(gridStart, rows, cols, 0);
    CellAt(gridStart, rows, cols, |cells| - 1);
    forall k | 0 <= k < |cells| ensures cells[k].timeEnd == cells[k].timeStart + ONE_DAY {
      CellAt(gridStart, rows, cols, k);
    }
    forall k | 0 <= k < |cells| - 1 ensures cells[k].timeEnd == cells[k + 1].timeStart {
      CellAt(gridStart, rows, cols, k);
      CellAt(gridStart, rows, cols, k + 1);
    }
    if gridStart <= t < gridStart + |cells| * ONE_DAY {
      var k := (t - gridStart) / ONE_DAY;
      assert k * ONE_DAY <= t - gridStart < (k + 1) * ONE_DAY;
      CellAt(gridStart, rows, cols, k);
    }
  }

  /** `inCell`: the appointment starts before the day ends and ends after it starts. */
  predicate InCell(cell: DayCell, app: Appointment)
  {
    app.startTime < cell.timeEnd && app.endTime > cell.timeStart
  }

  function Max(a: int, b: int): int
  {
    if a >= b then a else b
  }

  function Min(a: int, b: int): int
  {
    if a <= b then a else b
  }

  /** `makeBox`: the part of the appointment inside cell number `k`. */
  function MakeBox(cell: DayCell, k: nat, app: Appointment): AppointmentBox
  {
    AppointmentBox(app, k, Max(app.startTime, cell.timeStart), Min(app.endTime, cell.timeEnd))
  }

  /** A box lies inside both its cell and its appointment, starts before the
      cell ends and ends after the cell starts. */
  lemma {:induction false} BoxInsideCellAndAppointment(cell: DayCell, k: nat, app: Appointment)
    requires InCell(cell, app) && cell.timeStart < cell.timeEnd
    ensures var b := MakeBox(cell, k, app);
      cell.timeStart <= b.start < cell.timeEnd && cell.timeStart < b.end <= cell.timeEnd
      && app.startTime <= b.start && b.end <= app.endTime
      && (app.startTime <= app.endTime ==> b.start <= b.end)
      && (app.startTime < app.endTime ==> b.start < b.end)
  {
  }

  /** `boxupAppointment`: one box per cell the appointment overlaps, in cell order. */
  function Fragments(app: Appointment, cells: seq<DayCell>): seq<AppointmentBox>
  {
    if cells == [] then []
    else
      var k := |cells| - 1;
      Fragments(app, cells[..k]) + (if InCell(cells[k], app) then [MakeBox(cells[k], k, app)] else [])
  }

  /** `b` is the box of `app` in a cell the appointment overlaps. */
  predicate BoxOf(app: Appointment, cells: seq<DayCell>, b: AppointmentBox)
  {
    b.cell < |cells| && InCell(cells[b.cell], app) && b == MakeBox(cells[b.cell], b.cell, app)
  }

  /** The boxes of one appointment: each is the box of a cell it overlaps,
      their cells strictly increase, and every overlapped cell has one. */
  lemma {:induction false} FragmentsExactly(app: Appointment, cells: seq<DayCell>)
    ensures forall i :: 0 <= i < |Fragments(app, cells)| ==> BoxOf(app, cells, Fragments(app, cells)[i])
    ensures forall i, j :: 0 <= i < j < |Fragments(app, cells)| ==>
      Fragments(app, cells)[i].cell < Fragments(app, cells)[j].cell
    ensures forall k :: 0 <= k < |cells| && InCell(cells[k], app) ==>
      exists i :: 0 <= i < |Fragments(app, cells)| && Fragments(app, cells)[i].cell == k
  {
    if cells != [] {
      var k := |cells| - 1;
      var prefix := cells[..k];
      FragmentsExactly(app, prefix);
      var f0 := Fragments(app, prefix);
      var f := Fragments(app, cells);
      assert f == f0 + (if InCell(cells[k], app) then [MakeBox(cells[k], k, app)] else []);
      forall i | 0 <= i < |f0|
        ensures f[i] == f0[i] && f0[i].cell < k && BoxOf(app, cells, f0[i])
      {
        assert BoxOf(app, prefix, f0[i]);
        assert prefix[f0[i].cell] == cells[f0[i].cell];
      }
      forall m | 0 <= m < |cells| && InCell(cells[m], app)
        ensures exists i :: 0 <= i < |f| && f[i].cell == m
      {
        if m < k {
          assert prefix[m] == cells[m];
          var i :| 0 <= i < |f0| && f0[i].cell == m;
          assert f[i].cell == m;
        } else {
          assert f[|f| - 1].cell == m;
        }
      }
    }
  }

  /** `boxupAppointments`: the boxes of all appointments, appointment by appointment. */
  function AllFragments(apps: seq<Appointment>, cells: seq<DayCell>): seq<AppointmentBox>
  {
    if apps == [] then []
    else AllFragments(apps[..|apps| - 1], cells) + Fragments(apps[|apps| - 1], cells)
  }

  /** Every box of the grid is the box of an appointment in a cell it overlaps. */
  lemma {:induction false} AllFragmentsPlaced(apps: seq<Appointment>, cells: seq<DayCell>)
    ensures forall b :: b in AllFragments(apps, cells) ==> b.app in apps && BoxOf(b.app, cells, b)
  {
    if apps != [] {
      var last := apps[|apps| - 1];
      AllFragmentsPlaced(apps[..|apps| - 1], cells);
      FragmentsExactly(last, cells);
      forall b | b in AllFragments(apps, cells)
        ensures b.app in apps && BoxOf(b.app, cells, b)
      {
        var front := apps[..|apps| - 1];
        if b in AllFragments(front, cells) {
          var j :| 0 <= j < |front| && front[j] == b.app;
          assert apps[j] == b.app;
        } else {
          var f := Fragments(last, cells);
          var i :| 0 <= i < |f| && f[i] == b;
          assert BoxOf(last, cells, f[i]);
        }
      }
    }
  }

  /** Each instant of an appointment that the grid shows is inside the box
      of the cell holding it. */
  lemma {:induction false} FragmentsCover(app: Appointment, gridStart: int, rows: nat, cols: nat, t: int)
    requires rows > 0 && cols > 0
    requires gridStart <= t < gridStart + rows * cols * ONE_DAY
    requires app.startTime <= t < app.endTime
    ensures var k := (t - gridStart) / ONE_DAY;
      exists i :: 0 <= i < |Fragments(app, GridCells(gridStart, rows, cols))|
        && var b := Fragments(app, GridCells(gridStart, rows, cols))[i];
           b.cell == k && b.start <= t < b.end
  {
    var cells := GridCells(gridStart, rows, cols);
    GridTiles(gridStart, rows, cols, t);
    var k := (t - gridStart) / ONE_DAY;
    assert InCell(cells[k], app);
    FragmentsExactly(app, cells);
    var f := Fragments(app, cells);
    var i :| 0 <= i < |f| && f[i].cell == k;
    assert BoxOf(app, cells, f[i]);
  }

  /** The first hour of its day a box reaches. The quotient is a long
      division, which truncates, so `Math.floor` leaves it unchanged. */
  function StartHour(b: AppointmentBox, dayStart: int): int
  {
    JavaDiv(b.start - dayStart, ONE_HOUR)
  }

  /** The last hour a box marks: the truncated quotient again (`Math.ceil` of
      a whole number), capped at 23. A box ending exactly on the hour marks
      that hour too. */
  function EndHour(b: AppointmentBox, dayStart: int): int
  {
    var h := JavaDiv(b.end - dayStart, ONE_HOUR);
    if h > 23 then 23 else h
  }

  predicate MarksHour(b: AppointmentBox, dayStart: int, h: int)
  {
    StartHour(b, dayStart) <= h <= EndHour(b, dayStart)
  }

  /** The box belongs to a day of grid row `row`. */
  predicate InRow(b: AppointmentBox, days: seq<DayCell>, row: int, cols: int)
    requires cols > 0
  {
    b.cell < |days| && b.cell / cols == row
  }

  /** `layoutHourDivision`: hour h of a row is interesting when some box in a
      day of that row marks it. */
  function RowInteresting(boxes: seq<AppointmentBox>, days: seq<DayCell>, row: int, cols: int): (interesting: seq<bool>)
    requires cols > 0
    ensures |interesting| == 24
  {
    seq(24, h requires 0 <= h < 24 =>
      exists i :: 0 <= i < |boxes| && InRow(boxes[i], days, row, cols)
        && MarksHour(boxes[i], days[boxes[i].cell].timeStart, h))
  }

  /** Every hour during which a box is shown is marked by it. */
  lemma {:induction false} BoxMarksItsHours(b: AppointmentBox, dayStart: int, t: int)
    requires dayStart <= b.start <= t < b.end <= dayStart + ONE_DAY
    ensures 0 <= (t - dayStart) / ONE_HOUR < 24
    ensures MarksHour(b, dayStart, (t - dayStart) / ONE_HOUR)
  {
  }

  /** So every hour of a row during which some appointment is shown is interesting. */
  lemma {:induction false} BusyHoursInteresting(boxes: seq<AppointmentBox>, days: seq<DayCell>, row: int, cols: int, i: nat, t: int)
    requires cols > 0 && i < |boxes| && InRow(boxes[i], days, row, cols)
    requires days[boxes[i].cell].timeStart <= boxes[i].start <= t < boxes[i].end <= days[boxes[i].cell].timeStart + ONE_DAY
    ensures 0 <= (t - days[boxes[i].cell].timeStart) / ONE_HOUR < 24
    ensures RowInteresting(boxes, days, row, cols)[(t - days[boxes[i].cell].timeStart) / ONE_HOUR]
  {
    BoxMarksItsHours(boxes[i], days[boxes[i].cell].timeStart, t);
  }

  /** A row with no boxes has no interesting hour. */
  lemma {:induction false} QuietRowIsDull(boxes: seq<AppointmentBox>, days: seq<DayCell>, row: int, cols: int)
    requires cols > 0
    requires forall i :: 0 <= i < |boxes| ==> !InRow(boxes[i], days, row, cols)
    ensures forall h :: 0 <= h < 24 ==> !RowInteresting(boxes, days, row, cols)[h]
  {
  }

  /** The boxes `addBox` gave the day with index k, in the order they were made. */
  function DayBoxes(boxes: seq<AppointmentBox>, k: int): seq<AppointmentBox>
  {
    Filter(boxes, (b: AppointmentBox) => b.cell == k)
  }

  /** `checkColHours`: hour h of day k is marked by one of the day's boxes. */
  predicate DayMarks(boxes: seq<AppointmentBox>, days: seq<DayCell>, k: int, h: int)
  {
    0 <= k < |days| && exists b :: b in DayBoxes(boxes, k) && MarksHour(b, days[k].timeStart, h)
  }

  /** Hour h is marked in the day in column `col` of grid row `row`. */
  predicate ColumnMarks(boxes: seq<AppointmentBox>, days: seq<DayCell>, row: int, cols: int, col: int, h: int)
  {
    DayMarks(boxes, days, row * cols + col, h)
  }

  /** Cell k of a grid with `cols` columns is in row k / cols and column k % cols. */
  lemma {:induction false} RowColOfCell(row: nat, col: nat, cols: nat)
    requires col < cols
    ensures (row * cols + col) / cols == row && (row * cols + col) % cols == col
  {
    var n := row * cols + col;
    var q, r := n / cols, n % cols;
    assert n == q * cols + r;
    var d := q - row;
    assert d * cols == col - r by {
      assert q * cols - row * cols == (q - row) * cols;
    }
    if d >= 1 {
      MulMonotoneInt(d, 1, cols);
    } else if d <= -1 {
      MulMonotoneInt(-1, d, cols);
    }
  }

  /** The interesting hours of a row are the hours marked in any of its days:
      `layoutHourDivision` checks the days of the row column by column. */
  lemma {:induction false} RowInterestingByColumns(boxes: seq<AppointmentBox>, days: seq<DayCell>, row: nat, cols: nat, h: nat)
    requires cols > 0 && h < 24
    ensures RowInteresting(boxes, days, row, cols)[h]
        <==> exists j :: 0 <= j < cols && ColumnMarks(boxes, days, row, cols, j, h)
  {
    if RowInteresting(boxes, days, row, cols)[h] {
      var i :| 0 <= i < |boxes| && InRow(boxes[i], days, row, cols)
        && MarksHour(boxes[i], days[boxes[i].cell].timeStart, h);
      var b := boxes[i];
      var j := b.cell % cols;
      assert b.cell == row * cols + j;
      FilterMembership(boxes, (b: AppointmentBox) => b.cell == row * cols + j, b);
      assert ColumnMarks(boxes, days, row, cols, j, h);
    }
    if exists j :: 0 <= j < cols && ColumnMarks(boxes, days, row, cols, j, h) {
      var j :| 0 <= j < cols && ColumnMarks(boxes, days, row, cols, j, h);
      var k := row * cols + j;
      var b :| b in DayBoxes(boxes, k) && MarksHour(b, days[k].timeStart, h);
      FilterMembership(boxes, (b: AppointmentBox) => b.cell == k, b);
      var i :| 0 <= i < |boxes| && boxes[i] == b;
      RowColOfCell(row, j, cols);
      assert InRow(boxes[i], days, row, cols);
    }
  }

  /** `setInteresting`: interesting hours weigh `hourWeight`, the others 1. */
  function HourWeights(interesting: seq<bool>, hourWeight: real): (w: seq<real>)
    ensures |w| == |interesting|
  {
    seq(|interesting|, i requires 0 <= i < |interesting| => if interesting[i] then hourWeight else 1.0)
  }

  /** Hour fractions as a laid-out row has them: 25 strictly increasing
      boundaries from 0 at midnight to 1 at the next midnight. */
  predicate LaidOutFractions(fr: seq<real>)
  {
    |fr| == 25 && fr[0] == 0.0 && fr[24] == 1.0
    && forall i, j :: 0 <= i < j < 25 ==> fr[i] < fr[j]
  }

  /** The hour fractions `setWeights` computes; with a positive weight they
      are laid out. */
  function HourFractions(interesting: seq<bool>, hourWeight: real): (fr: seq<real>)
    requires |interesting| == 24 && hourWeight > 0.0
    ensures LaidOutFractions(fr)
  {
    var w := HourWeights(interesting, hourWeight);
    Partition.BoundariesIncrease(w, 0.0, 1.0);
    Partition.BoundariesEnds(w, 0.0, 1.0);
    Partition.Boundaries(w, 0.0, 1.0)
  }

  /** An interesting hour is `hourWeight` times as tall as a dull one, and all
      dull hours are equally tall. */
  lemma {:induction false} InterestingHoursTaller(interesting: seq<bool>, hourWeight: real, h: nat, g: nat)
    requires |interesting| == 24 && hourWeight > 0.0 && h < 24 && g < 24
    requires interesting[h] && !interesting[g]
    ensures var fr := HourFractions(interesting, hourWeight);
      fr[h + 1] - fr[h] == hourWeight * (fr[g + 1] - fr[g])
  {
    var w := HourWeights(interesting, hourWeight);
    Partition.SumPositive(w);
    var fr := Partition.Boundaries(w, 0.0, 1.0);
    assert fr == HourFractions(interesting, hourWeight);
    Partition.BoundaryWidth(w, 0.0, 1.0, h);
    Partition.BoundaryWidth(w, 0.0, 1.0, g);
    ShareRatio(fr[h + 1] - fr[h], fr[g + 1] - fr[g], hourWeight, Partition.Sum(w));
  }

  lemma {:induction false} ShareRatio(a: real, b: real, c: real, total: real)
    requires total > 0.0 && a == c / total * (1.0 - 0.0) && b == 1.0 / total * (1.0 - 0.0)
    ensures a == c * b
  {
  }

  /** A row with no interesting hour divides its height into 24 equal hours. */
  lemma {:induction false} DullRowIsUniform(interesting: seq<bool>, hourWeight: real)
    requires |interesting| == 24 && hourWeight > 0.0
    requires forall h :: 0 <= h < 24 ==> !interesting[h]
    ensures forall h :: 0 <= h <= 24 ==> HourFractions(interesting, hourWeight)[h] == h as real / 24.0
  {
    var w := HourWeights(interesting, hourWeight);
    Partition.UniformBoundaries(w, 1.0, 0.0, 1.0);
  }

  /** `hourToFraction`: a fractional hour lies between the boundaries of its
      whole hour, linearly; `(int) hour` truncates toward zero, a negative
      whole hour gives 0 and hour 24 or later gives 1. */
  function HourToFraction(fr: seq<real>, hour: real): real
    requires |fr| == 25
  {
    var baseHour := Trunc(hour);
    var fractionHour := hour - baseHour as real;
    if baseHour < 0 then 0.0
    else if baseHour >= 24 then 1.0
    else fr[baseHour] + (fr[baseHour + 1] - fr[baseHour]) * fractionHour
  }

  /** `timeToFraction`: the time of day, taken from the grid start with Java's
      remainder by one day, in hours. */
  function TimeToFraction(fr: seq<real>, gridStart: int, time: int): real
    requires |fr| == 25
  {
    HourToFraction(fr, JavaRem(time - gridStart, ONE_DAY) as real / ONE_HOUR as real)
  }

  /** `fractionToY`: the pixel a fraction of the way down a row spanning
      [y1, y2], truncated. */
  function FractionToY(y1: int, y2: int, f: real): int
  {
    Trunc(y1 as real + f * (y2 - y1) as real)
  }

  /** `yToFraction`: how far down the row [y1, y2] the pixel y is. */
  function YToFraction(y: int, y1: int, y2: int): real
    requires y1 != y2
  {
    (y - y1) as real / (y2 - y1) as real
  }

  /** `yToHour` after the fraction is known: 0 for a fraction at or above the
      top, otherwise the first hour whose lower boundary reaches the fraction,
      interpolated linearly (the hours differ by one, so `(h2 - h1)` is 1). */
  function FractionToHour(fr: seq<real>, f: real): real
    requires |fr| == 25 && fr[0] <= 0.0
  {
    if f <= 0.0 then 0.0 else HourFrom(fr, f, 0)
  }

  /** A fraction at or above the top of the row is hour 0. */
  lemma {:induction false} FractionToHourAtTop(fr: seq<real>, f: real)
    requires |fr| == 25 && fr[0] <= 0.0 && f <= 0.0
    ensures FractionToHour(fr, f) == 0.0
  {
  }

  /** The search of `yToHour` from hour i on; every hour passed over so far
      ends above `f`, so hour i starts above it and no division is by zero. */
  function HourFrom(fr: seq<real>, f: real, i: nat): real
    requires |fr| == 25 && i <= 24 && (i < 24 ==> fr[i] < f)
    decreases 24 - i
  {
    if i == 24 then 24.0
    else if fr[i + 1] < f then HourFrom(fr, f, i + 1)
    else (f - fr[i]) / (fr[i + 1] - fr[i]) + i as real
  }

  /** `yToHour`'s interpolation: the value at f of the line through
      (f1, h1) and (f2, h2). */
  function Interpolate(f: real, f1: real, f2: real, h1: real, h2: real): real
    requires f1 != f2
  {
    (f - f1) / (f2 - f1) * (h2 - h1) + h1
  }

  /** The hour found in hour i is the interpolation between the hour's
      start and its end. */
  lemma {:induction false} HourFromInterpolates(fr: seq<real>, f: real, i: nat, f1: real, f2: real)
    requires |fr| == 25 && i < 24 && f1 == fr[i] && f2 == fr[i + 1] && f1 < f <= f2
    ensures HourFrom(fr, f, i) == Interpolate(f, f1, f2, i as real, (i + 1) as real)
  {
    var share := (f - f1) / (f2 - f1);
    assert share * ((i + 1) as real - i as real) == share;
  }

  /** Hours whose lower boundary lies above `f` are passed over. */
  lemma {:induction false} HourFromSkips(fr: seq<real>, f: real, i: nat, j: nat)
    requires |fr| == 25 && i <= j <= 24 && (i < 24 ==> fr[i] < f)
    requires forall m :: i < m <= j ==> fr[m] < f
    ensures HourFrom(fr, f, i) == HourFrom(fr, f, j)
    decreases j - i
  {
    if i < j {
      HourFromSkips(fr, f, i + 1, j);
    }
  }

  /** On a laid-out row the search stops at the hour j with fr[j] < f <= fr[j + 1]. */
  lemma {:induction false} HourFromStops(fr: seq<real>, f: real, i: nat) returns (j: nat)
    requires LaidOutFractions(fr) && f <= 1.0 && i < 24 && fr[i] < f
    ensures i <= j < 24 && fr[j] < f <= fr[j + 1]
    ensures HourFrom(fr, f, i) == (f - fr[j]) / (fr[j + 1] - fr[j]) + j as real
    decreases 24 - i
  {
    if fr[i + 1] < f {
      j := HourFromStops(fr, f, i + 1);
    } else {
      j := i;
    }
  }

  /** Inside a whole hour k, `hourToFraction` interpolates between its boundaries. */
  lemma {:induction false} HourToFractionAt(fr: seq<real>, h: real, k: int)
    requires |fr| == 25 && 0 <= k < 24 && Trunc(h) == k
    ensures HourToFraction(fr, h) == fr[k] + (fr[k + 1] - fr[k]) * (h - k as real)
  {
  }

  lemma {:induction false} TruncOfSum(j: int, t: real)
    requires j >= 0 && 0.0 <= t < 1.0
    ensures Trunc(j as real + t) == j
  {
  }

  /** A share of a positive gap: 0 < a / b <= 1, equal to 1 only for a == b. */
  lemma {:induction false} ShareOfGap(a: real, b: real)
    requires 0.0 < a <= b
    ensures 0.0 < a / b <= 1.0 && (a / b == 1.0 <==> a == b)
  {
  }

  lemma {:induction false} MulMonotone(a: real, b: real, c: real)
    requires a <= b && c >= 0.0
    ensures a * c <= b * c
  {
    Partition.PositiveProductOrZero(b - a, c);
  }

  /** The interpolation parameter is recovered by dividing by the gap. */
  lemma {:induction false} InterpolationShare(a: real, b: real, t: real, f: real)
    requires a < b && f == a + (b - a) * t
    ensures (f - a) / (b - a) == t
  {
  }

  /** Where hour h falls: between the boundaries of its whole hour. */
  lemma {:induction false} HourToFractionBetween(fr: seq<real>, h: real)
    requires LaidOutFractions(fr) && 0.0 <= h < 24.0
    ensures 0 <= Trunc(h) < 24
    ensures fr[Trunc(h)] <= HourToFraction(fr, h) < fr[Trunc(h) + 1]
    ensures HourToFraction(fr, h) == fr[Trunc(h)] <==> h == Trunc(h) as real
  {
    var k := Trunc(h);
    assert k < 24 by {
      assert k as real <= h < 24.0;
    }
    HourToFractionAt(fr, h, k);
    InterpolationAt(fr[k], fr[k + 1], h - k as real, HourToFraction(fr, h));
  }

  /** A point given by linear interpolation lies on the segment [a, b) and is
      its start only for the parameter 0. */
  lemma {:induction false} InterpolationAt(a: real, b: real, t: real, f: real)
    requires a < b && 0.0 <= t < 1.0 && f == a + (b - a) * t
    ensures a <= f < b
    ensures f == a <==> t == 0.0
  {
    var d := b - a;
    var x := d * t;
    assert f == a + x;
    Partition.PositiveProduct(d, 1.0 - t);
    Partition.PositiveProductOrZero(d, t);
    assert d * (1.0 - t) == d - x;
    if t != 0.0 {
      Partition.PositiveProduct(d, t);
    }
  }

  /** Linear interpolation along an upward segment is monotone in its parameter. */
  lemma {:induction false} InterpolationMonotone(a: real, b: real, s: real, t: real, f: real, g: real)
    requires a <= b && s <= t && f == a + (b - a) * s && g == a + (b - a) * t
    ensures f <= g
  {
    MulMonotone(s, t, b - a);
    assert (b - a) * s == s * (b - a) && (b - a) * t == t * (b - a);
  }

  /** From hours to fractions and back: `yToHour` undoes `hourToFraction`
      on the whole day. */
  lemma {:induction false} HourFractionRoundTrip(fr: seq<real>, h: real)
    requires LaidOutFractions(fr) && 0.0 <= h <= 24.0
    ensures FractionToHour(fr, HourToFraction(fr, h)) == h
  {
    if h == 24.0 {
      RoundTripAtMidnight(fr);
    } else {
      HourToFractionBetween(fr, h);
      var k := Trunc(h);
      if h != k as real {
        RoundTripWithinHour(fr, h, k);
      } else if k > 0 {
        RoundTripOnHour(fr, k);
      } else {
        HourToFractionAt(fr, h, 0);
      }
    }
  }

  lemma {:induction false} RoundTripAtMidnight(fr: seq<real>)
    requires LaidOutFractions(fr)
    ensures FractionToHour(fr, HourToFraction(fr, 24.0)) == 24.0
  {
    assert Trunc(24.0) == 24;
    assert HourToFraction(fr, 24.0) == 1.0;
    HourFromSkips(fr, 1.0, 0, 23);
    var d := 1.0 - fr[23];
    assert HourFrom(fr, 1.0, 23) == d / d + 23.0;
    ShareOfGap(d, d);
  }

  lemma {:induction false} RoundTripOnHour(fr: seq<real>, k: int)
    requires LaidOutFractions(fr) && 0 < k < 24
    ensures FractionToHour(fr, HourToFraction(fr, k as real)) == k as real
  {
    TruncOfInt(k);
    HourToFractionAt(fr, k as real, k);
    var f := HourToFraction(fr, k as real);
    assert f == fr[k];
    HourFromSkips(fr, f, 0, k - 1);
    var d := fr[k] - fr[k - 1];
    assert HourFrom(fr, f, k - 1) == d / d + (k - 1) as real;
    ShareOfGap(d, d);
  }

  lemma {:induction false} RoundTripWithinHour(fr: seq<real>, h: real, k: int)
    requires LaidOutFractions(fr) && 0 <= k < 24 && Trunc(h) == k && h != k as real
    requires fr[k] < HourToFraction(fr, h) < fr[k + 1]
    ensures FractionToHour(fr, HourToFraction(fr, h)) == h
  {
    var f := HourToFraction(fr, h);
    var a, b, t := fr[k], fr[k + 1], h - k as real;
    HourToFractionAt(fr, h, k);
    assert f == a + (b - a) * t;
    SearchFindsHour(fr, f, k);
    InterpolationShare(a, b, t, f);
    ShiftBack(FractionToHour(fr, f), (f - a) / (b - a), t, k as real, h);
  }

  /** A value that is t shifted by k, where t is h shifted back by k, is h. */
  lemma {:induction false} ShiftBack(x: real, q: real, t: real, k: real, h: real)
    requires x == q + k && q == t && t == h - k
    ensures x == h
  {
  }

  /** A fraction in hour k of a laid-out row is mapped inside hour k. */
  lemma {:induction false} SearchFindsHour(fr: seq<real>, f: real, k: nat)
    requires LaidOutFractions(fr) && k < 24 && fr[k] < f <= fr[k + 1]
    ensures FractionToHour(fr, f) == (f - fr[k]) / (fr[k + 1] - fr[k]) + k as real
  {
    assert fr[0] <= fr[k];
    HourFromSkips(fr, f, 0, k);
  }

  /** From fractions to hours and back: `hourToFraction` undoes `yToHour`
      on the whole height of the row. */
  lemma {:induction false} FractionHourRoundTrip(fr: seq<real>, f: real)
    requires LaidOutFractions(fr) && 0.0 <= f <= 1.0
    ensures 0.0 <= FractionToHour(fr, f) <= 24.0
    ensures HourToFraction(fr, FractionToHour(fr, f)) == f
  {
    if f > 0.0 {
      var j := HourFromStops(fr, f, 0);
      var h := (f - fr[j]) / (fr[j + 1] - fr[j]) + j as real;
      assert FractionToHour(fr, f) == h;
      HourBack(fr, f, j, h);
    } else {
      TruncOfInt(0);
      HourToFractionAt(fr, 0.0, 0);
    }
  }

  /** The hour found in hour j lies in [j, j + 1] and maps back to `f`. */
  lemma {:induction false} HourBack(fr: seq<real>, f: real, j: nat, h: real)
    requires LaidOutFractions(fr) && j < 24 && fr[j] < f <= fr[j + 1]
    requires h == (f - fr[j]) / (fr[j + 1] - fr[j]) + j as real
    ensures 0.0 <= h <= 24.0 && HourToFraction(fr, h) == f
  {
    ShareOfGap(f - fr[j], fr[j + 1] - fr[j]);
    if f < fr[j + 1] {
      BackWithinHour(fr, f, j);
    } else {
      BackOnBoundary(fr, j);
    }
  }

  lemma {:induction false} BackWithinHour(fr: seq<real>, f: real, j: nat)
    requires LaidOutFractions(fr) && j < 24 && fr[j] < f < fr[j + 1]
    ensures HourToFraction(fr, (f - fr[j]) / (fr[j + 1] - fr[j]) + j as real) == f
  {
    var a, b := fr[j], fr[j + 1];
    var x, d := f - a, b - a;
    var t := x / d;
    ShareOfGap(x, d);
    assert 0.0 < t < 1.0;
    var h := t + j as real;
    TruncOfSum(j, t);
    HourToFractionAt(fr, h, j);
    assert h - j as real == t;
    ShareTimesGap(x, d);
  }

  lemma {:induction false} BackOnBoundary(fr: seq<real>, j: nat)
    requires LaidOutFractions(fr) && j < 24
    ensures HourToFraction(fr, (fr[j + 1] - fr[j]) / (fr[j + 1] - fr[j]) + j as real) == fr[j + 1]
  {
    var d := fr[j + 1] - fr[j];
    ShareOfGap(d, d);
    var h := 1.0 + j as real;
    assert h == (j + 1) as real;
    TruncOfInt(j + 1);
    if j + 1 < 24 {
      HourToFractionAt(fr, h, j + 1);
    }
  }

  lemma {:induction false} ShareTimesGap(a: real, b: real)
    requires b != 0.0
    ensures b * (a / b) == a
  {
  }

  /** `fractionToY` undoes `yToFraction` on the pixels of a row. */
  lemma {:induction false} PixelFractionRoundTrip(y: int, y1: int, y2: int)
    requires y1 < y2
    ensures FractionToY(y1, y2, YToFraction(y, y1, y2)) == y
  {
    var d := (y2 - y1) as real;
    ShareTimesGap((y - y1) as real, d);
    assert YToFraction(y, y1, y2) * d == (y - y1) as real;
    TruncOfInt(y);
  }

  /** A click at pixel y of a laid-out row maps to an hour that is drawn back
      at pixel y. */
  lemma {:induction false} ClickRoundTrip(fr: seq<real>, y: int, y1: int, y2: int)
    requires LaidOutFractions(fr) && y1 <= y < y2
    ensures 0.0 <= FractionToHour(fr, YToFraction(y, y1, y2)) <= 24.0
    ensures FractionToY(y1, y2, HourToFraction(fr, FractionToHour(fr, YToFraction(y, y1, y2)))) == y
  {
    var f := YToFraction(y, y1, y2);
    if y > y1 {
      ShareOfGap((y - y1) as real, (y2 - y1) as real);
    }
    FractionHourRoundTrip(fr, f);
    PixelFractionRoundTrip(y, y1, y2);
  }

  /** Later fractions are drawn lower. */
  lemma {:induction false} FractionToYMonotone(y1: int, y2: int, f: real, g: real)
    requires y1 <= y2 && f <= g
    ensures FractionToY(y1, y2, f) <= FractionToY(y1, y2, g)
  {
    var d := (y2 - y1) as real;
    var lo, hi := y1 as real + f * d, y1 as real + g * d;
    MulMonotone(f, g, d);
    assert lo <= hi;
    TruncMonotone(lo, hi);
  }

  /** The top and the bottom of a row are its boundaries. */
  lemma {:induction false} FractionToYEnds(y1: int, y2: int)
    ensures FractionToY(y1, y2, 0.0) == y1 && FractionToY(y1, y2, 1.0) == y2
  {
    var d := (y2 - y1) as real;
    TruncOfInt(y1);
    TruncOfInt(y2);
    assert y1 as real + 1.0 * d == y2 as real;
    assert y1 as real + 0.0 * d == y1 as real;
  }

  /** A fraction of a row is drawn inside the row. */
  lemma {:induction false} FractionToYWithinRow(y1: int, y2: int, f: real)
    requires y1 <= y2 && 0.0 <= f <= 1.0
    ensures y1 <= FractionToY(y1, y2, f) <= y2
  {
    FractionToYEnds(y1, y2);
    FractionToYMonotone(y1, y2, 0.0, f);
    FractionToYMonotone(y1, y2, f, 1.0);
  }

  /** `hourToFraction` outside the day: an hour of -1 or less (whose
      truncation is negative) is the top of the row, an hour of 24 or more
      the bottom. */
  lemma {:induction false} HourToFractionOutsideDay(fr: seq<real>, h: real)
    requires |fr| == 25
    ensures h <= -1.0 ==> HourToFraction(fr, h) == 0.0
    ensures h >= 24.0 ==> HourToFraction(fr, h) == 1.0
  {
  }

  /** Later hours are further down a laid-out row. */
  lemma {:induction false} HourToFractionMonotone(fr: seq<real>, h: real, g: real)
    requires LaidOutFractions(fr) && 0.0 <= h <= g <= 24.0
    ensures 0.0 <= HourToFraction(fr, h) <= HourToFraction(fr, g) <= 1.0
  {
    if g == 24.0 {
      assert Trunc(g) == 24;
      if h < 24.0 {
        HourToFractionBetween(fr, h);
      } else {
        assert Trunc(h) == 24;
      }
    } else {
      HourToFractionBetween(fr, h);
      HourToFractionBetween(fr, g);
      var k, m := Trunc(h), Trunc(g);
      TruncMonotone(h, g);
      if k == m {
        HourToFractionAt(fr, h, k);
        HourToFractionAt(fr, g, k);
        InterpolationMonotone(fr[k], fr[k + 1], h - k as real, g - k as real,
                              HourToFraction(fr, h), HourToFraction(fr, g));
      } else {
        assert fr[k + 1] <= fr[m];
      }
    }
  }

  /** `timeToRow`: whole days since the grid start (a long division, then the
      `(int)` cast), divided by the number of columns. */
  function TimeToRow(gridStart: int, cols: int, time: int): int
    requires cols > 0
  {
    JavaDiv(JavaDiv(time - gridStart, ONE_DAY), cols)
  }

  /** Every row has its 25 hour fractions. */
  predicate RowFractions(fracs: seq<seq<real>>)
  {
    forall r :: 0 <= r < |fracs| ==> |fracs[r]| == 25
  }

  /** `timeToY`: a time before the grid is drawn at its top, one after it at
      its bottom, and any other by the hour division of its row. */
  function TimeToY(rb: seq<int>, fracs: seq<seq<real>>, gridStart: int, cols: int, time: int): int
    requires cols > 0 && |rb| == |fracs| + 1 && RowFractions(fracs)
  {
    var row := TimeToRow(gridStart, cols, time);
    if row < 0 then rb[0]
    else if row >= |fracs| then rb[|fracs|]
    else FractionToY(rb[row], rb[row + 1], TimeToFraction(fracs[row], gridStart, time))
  }

  lemma {:induction false} MulMonotoneInt(a: int, b: int, c: int)
    ensures a >= b && c >= 0 ==> a * c >= b * c
  {
    if a >= b && c >= 0 {
      assert a * c - b * c == (a - b) * c;
    }
  }

  /** The cell with index k lies in grid row k / cols. */
  lemma {:induction false} CellRow(k: nat, rows: nat, cols: nat)
    requires cols > 0 && k < rows * cols
    ensures 0 <= k / cols < rows
  {
    assert (k / cols) * cols <= k;
    MulMonotoneInt(k / cols, rows, cols);
  }

  /** A time inside cell k is in row k / cols, and its time of day is
      measured from the start of that cell. */
  lemma {:induction false} TimeInCell(gridStart: int, rows: nat, cols: nat, k: nat, t: int)
    requires cols > 0 && k < rows * cols
    requires GridCells(gridStart, rows, cols)[k].timeStart <= t < GridCells(gridStart, rows, cols)[k].timeEnd
    ensures TimeToRow(gridStart, cols, t) == k / cols
    ensures JavaRem(t - gridStart, ONE_DAY) == t - GridCells(gridStart, rows, cols)[k].timeStart
  {
    CellAt(gridStart, rows, cols, k);
    assert t - gridStart == k * ONE_DAY + (t - GridCells(gridStart, rows, cols)[k].timeStart);
    assert JavaDiv(t - gridStart, ONE_DAY) == k;
  }

  /** The end of cell k is the start of the next day: row (k + 1) / cols at
      time of day 0. */
  lemma {:induction false} TimeAtCellEnd(gridStart: int, rows: nat, cols: nat, k: nat)
    requires cols > 0 && k < rows * cols
    ensures var t := GridCells(gridStart, rows, cols)[k].timeEnd;
      TimeToRow(gridStart, cols, t) == (k + 1) / cols && JavaRem(t - gridStart, ONE_DAY) == 0
  {
    var t := GridCells(gridStart, rows, cols)[k].timeEnd;
    CellAt(gridStart, rows, cols, k);
    assert t - gridStart == (k + 1) * ONE_DAY;
    assert JavaDiv(t - gridStart, ONE_DAY) == k + 1;
  }

  /** Whole multiples: a dividend of at least k divisors has a quotient of at least k. */
  lemma {:induction false} DivAtLeast(a: int, b: int, k: int)
    requires b > 0 && a >= k * b
    ensures a / b >= k
  {
    var q := a / b;
    assert a < (q + 1) * b;
    MulMonotoneInt(k, q + 1, b);
  }

  /** ...and a non-negative dividend below k divisors has a quotient below k. */
  lemma {:induction false} DivBelow(a: int, b: int, k: int)
    requires b > 0 && 0 <= a < k * b
    ensures a / b < k
  {
    var q := a / b;
    assert q * b <= a;
    MulMonotoneInt(q, k, b);
  }

  /** A time at least a grid row of days before the start is in a row above the grid. */
  lemma {:induction false} RowBeforeGrid(d: int, cols: int)
    requires cols > 0 && d <= -(cols * ONE_DAY)
    ensures JavaDiv(JavaDiv(d, ONE_DAY), cols) < 0
  {
    DivAtLeast(-d, ONE_DAY, cols);
    DivAtLeast((-d) / ONE_DAY, cols, 1);
  }

  /** A time less than a grid row of days before the start is in row 0. */
  lemma {:induction false} RowJustBeforeGrid(d: int, cols: int)
    requires cols > 0 && -(cols * ONE_DAY) < d < 0
    ensures JavaDiv(JavaDiv(d, ONE_DAY), cols) == 0
  {
    DivBelow(-d, ONE_DAY, cols);
  }

  /** A time at or after the grid's end is in a row below the grid. */
  lemma {:induction false} RowAfterGrid(d: int, rows: nat, cols: int)
    requires cols > 0 && d >= rows * cols * ONE_DAY
    ensures JavaDiv(JavaDiv(d, ONE_DAY), cols) >= rows
  {
    DivAtLeast(d, ONE_DAY, rows * cols);
    DivAtLeast(d / ONE_DAY, cols, rows);
  }

  /** The rows `timeToY` sees outside the grid: a time at least one grid row
      of days before the start lies above the grid and is drawn at its top,
      one at or after the grid's end lies below it and is drawn at its
      bottom, and a time less than a row of days before the start is, by
      the truncating divisions, in row 0. */
  lemma {:induction false} TimeToYClamps(rb: seq<int>, fracs: seq<seq<real>>, gridStart: int, rows: nat, cols: nat, t: int)
    requires cols > 0 && |fracs| == rows && |rb| == rows + 1 && RowFractions(fracs)
    ensures t <= gridStart - cols * ONE_DAY ==> TimeToRow(gridStart, cols, t) < 0 && TimeToY(rb, fracs, gridStart, cols, t) == rb[0]
    ensures t >= gridStart + rows * cols * ONE_DAY ==> TimeToRow(gridStart, cols, t) >= rows && TimeToY(rb, fracs, gridStart, cols, t) == rb[rows]
    ensures gridStart - cols * ONE_DAY < t < gridStart ==> TimeToRow(gridStart, cols, t) == 0
  {
    var d := t - gridStart;
    if d <= -(cols * ONE_DAY) {
      RowBeforeGrid(d, cols);
    } else if d < 0 {
      RowJustBeforeGrid(d, cols);
    } else if d >= rows * cols * ONE_DAY {
      RowAfterGrid(d, rows, cols);
    }
  }

  /** `setBounds(x, y, width, height)`. */
  datatype Rect = Rect(x: int, y: int, width: int, height: int)

  /** What `layoutBox` needs to place a box: its day, that day's column and
      its row exist. */
  predicate Placeable(b: AppointmentBox, days: seq<DayCell>, cb: seq<int>, rb: seq<int>, fracs: seq<seq<real>>, cols: int)
  {
    cols > 0 && b.cell < |days| && 0 <= days[b.cell].col < |cb| - 1
    && b.cell / cols < |fracs| && |rb| == |fracs| + 1 && RowFractions(fracs)
  }

  /** `layoutBox` as written: an inset of the box's column, from the pixel
      of its start time to the pixel of its end time, both by `timeToY`. */
  function BoxBoundsAsWritten(b: AppointmentBox, days: seq<DayCell>, cb: seq<int>, rb: seq<int>,
                              fracs: seq<seq<real>>, gridStart: int, cols: int): Rect
    requires Placeable(b, days, cb, rb, fracs, cols)
  {
    var col := days[b.cell].col;
    var x1, x2 := cb[col] + 2, cb[col + 1] - 1;
    var y1 := TimeToY(rb, fracs, gridStart, cols, b.start);
    var y2 := TimeToY(rb, fracs, gridStart, cols, b.end);
    Rect(x1, y1, x2 - x1, y2 - y1)
  }

  /** The pixel of a box's end, measured within the box's own day, so that
      a box ending at midnight reaches the bottom of its row. */
  function BoxEndY(b: AppointmentBox, days: seq<DayCell>, rb: seq<int>, fracs: seq<seq<real>>, cols: int): int
    requires cols > 0 && b.cell < |days| && b.cell / cols < |fracs| && |rb| == |fracs| + 1 && RowFractions(fracs)
  {
    var row := b.cell / cols;
    var hour := (b.end - days[b.cell].timeStart) as real / ONE_HOUR as real;
    FractionToY(rb[row], rb[row + 1], HourToFraction(fracs[row], hour))
  }

  /** `layoutBox` with the end of the box placed by `BoxEndY`. */
  function BoxBounds(b: AppointmentBox, days: seq<DayCell>, cb: seq<int>, rb: seq<int>,
                     fracs: seq<seq<real>>, gridStart: int, cols: int): Rect
    requires Placeable(b, days, cb, rb, fracs, cols)
  {
    var col := days[b.cell].col;
    var x1, x2 := cb[col] + 2, cb[col + 1] - 1;
    var y1 := TimeToY(rb, fracs, gridStart, cols, b.start);
    var y2 := BoxEndY(b, days, rb, fracs, cols);
    Rect(x1, y1, x2 - x1, y2 - y1)
  }

  /** A box whose day is one of the grid's `rows` by `cols` cells. */
  predicate InGrid(b: AppointmentBox, days: seq<DayCell>, rows: int, cols: int)
  {
    cols > 0 && b.cell < |days| && 0 <= days[b.cell].col < cols && b.cell / cols < rows
  }

  /** Every box made for a cell of the grid lies in the grid. */
  lemma {:induction false} BoxInGrid(b: AppointmentBox, gridStart: int, rows: nat, cols: nat)
    requires cols > 0 && BoxOf(b.app, GridCells(gridStart, rows, cols), b)
    ensures InGrid(b, GridCells(gridStart, rows, cols), rows, cols)
  {
    CellRow(b.cell, rows, cols);
    CellAt(gridStart, rows, cols, b.cell);
  }

  /** `layoutBoxes`: the bounds of every box, in order. */
  function BoxesBounds(boxes: seq<AppointmentBox>, days: seq<DayCell>, cb: seq<int>, rb: seq<int>,
                       fracs: seq<seq<real>>, gridStart: int, rows: int, cols: int): (r: seq<Rect>)
    requires |cb| == cols + 1 && |fracs| == rows && |rb| == rows + 1 && RowFractions(fracs)
    requires forall i :: 0 <= i < |boxes| ==> InGrid(boxes[i], days, rows, cols)
    ensures |r| == |boxes|
  {
    seq(|boxes|, i requires 0 <= i < |boxes| =>
      assert InGrid(boxes[i], days, rows, cols);
      BoxBounds(boxes[i], days, cb, rb, fracs, gridStart, cols))
  }

  /** Boundaries that never decrease. */
  predicate Nondecreasing(s: seq<int>)
  {
    forall i, j :: 0 <= i <= j < |s| ==> s[i] <= s[j]
  }

  /** A grid laid out as `layoutGrid` and `layoutHourDivisions` leave it. */
  predicate LaidOutRows(rb: seq<int>, fracs: seq<seq<real>>)
  {
    |rb| == |fracs| + 1 && Nondecreasing(rb) && forall r :: 0 <= r < |fracs| ==> LaidOutFractions(fracs[r])
  }

  /** The pixel of a time in cell k: its row's hour division applied to the
      time of day. */
  lemma {:induction false} TimeToYInCell(rb: seq<int>, fracs: seq<seq<real>>, gridStart: int, rows: nat, cols: nat, k: nat, t: int)
    requires cols > 0 && k < rows * cols && |fracs| == rows && |rb| == rows + 1 && RowFractions(fracs)
    requires GridCells(gridStart, rows, cols)[k].timeStart <= t < GridCells(gridStart, rows, cols)[k].timeEnd
    ensures k / cols < rows
    ensures TimeToY(rb, fracs, gridStart, cols, t)
         == FractionToY(rb[k / cols], rb[k / cols + 1],
              HourToFraction(fracs[k / cols], (t - GridCells(gridStart, rows, cols)[k].timeStart) as real / ONE_HOUR as real))
  {
    CellRow(k, rows, cols);
    TimeInCell(gridStart, rows, cols, k, t);
  }

  /** Before midnight the corrected end agrees with `timeToY`. */
  lemma {:induction false} BoxEndAgrees(b: AppointmentBox, rb: seq<int>, fracs: seq<seq<real>>, gridStart: int, rows: nat, cols: nat)
    requires cols > 0 && |fracs| == rows && |rb| == rows + 1 && RowFractions(fracs)
    requires BoxOf(b.app, GridCells(gridStart, rows, cols), b)
    requires b.end < GridCells(gridStart, rows, cols)[b.cell].timeEnd
    ensures b.cell / cols < rows
    ensures BoxEndY(b, GridCells(gridStart, rows, cols), rb, fracs, cols) == TimeToY(rb, fracs, gridStart, cols, b.end)
  {
    TimeToYInCell(rb, fracs, gridStart, rows, cols, b.cell, b.end);
  }

  /** A box running to midnight ends at the bottom of its row. */
  lemma {:induction false} BoxEndAtMidnight(b: AppointmentBox, rb: seq<int>, fracs: seq<seq<real>>, gridStart: int, rows: nat, cols: nat)
    requires cols > 0 && |fracs| == rows && |rb| == rows + 1 && RowFractions(fracs)
    requires BoxOf(b.app, GridCells(gridStart, rows, cols), b)
    requires b.end == GridCells(gridStart, rows, cols)[b.cell].timeEnd
    ensures b.cell / cols < rows
    ensures BoxEndY(b, GridCells(gridStart, rows, cols), rb, fracs, cols) == rb[b.cell / cols + 1]
  {
    CellRow(b.cell, rows, cols);
    CellAt(gridStart, rows, cols, b.cell);
    var days := GridCells(gridStart, rows, cols);
    assert (b.end - days[b.cell].timeStart) as real / ONE_HOUR as real == 24.0;
    assert Trunc(24.0) == 24;
    FractionToYEnds(rb[b.cell / cols], rb[b.cell / cols + 1]);
  }

  /** With the corrected end, every box of a laid-out grid is drawn inside its
      day: within its column horizontally, within its row vertically, from
      its start down to its end. */
  lemma {:induction false} BoxInsideItsDay(b: AppointmentBox, cb: seq<int>, rb: seq<int>, fracs: seq<seq<real>>,
                        gridStart: int, rows: nat, cols: nat)
    requires cols > 0 && |fracs| == rows && LaidOutRows(rb, fracs) && |cb| == cols + 1
    requires BoxOf(b.app, GridCells(gridStart, rows, cols), b) && b.app.startTime <= b.app.endTime
    ensures Placeable(b, GridCells(gridStart, rows, cols), cb, rb, fracs, cols)
    ensures InsideDay(BoxBounds(b, GridCells(gridStart, rows, cols), cb, rb, fracs, gridStart, cols),
                      cb, rb, GridCells(gridStart, rows, cols)[b.cell].col, b.cell / cols)
  {
    var days := GridCells(gridStart, rows, cols);
    BoxInsideItsRow(b, cb, rb, fracs, gridStart, rows, cols);
    var col, row := days[b.cell].col, b.cell / cols;
    var y1 := TimeToY(rb, fracs, gridStart, cols, b.start);
    var y2 := BoxEndY(b, days, rb, fracs, cols);
    assert BoxBounds(b, days, cb, rb, fracs, gridStart, cols)
        == Rect(cb[col] + 2, y1, cb[col + 1] - 1 - (cb[col] + 2), y2 - y1);
    RectInsideDay(cb, rb, col, row, y1, y2);
  }

  /** A box of the grid lies in its cell's row and column and within its day. */
  lemma {:induction false} BoxInItsCell(b: AppointmentBox, gridStart: int, rows: nat, cols: nat)
    requires cols > 0
    requires BoxOf(b.app, GridCells(gridStart, rows, cols), b) && b.app.startTime <= b.app.endTime
    ensures 0 <= b.cell / cols < rows && 0 <= GridCells(gridStart, rows, cols)[b.cell].col < cols
    ensures var cell := GridCells(gridStart, rows, cols)[b.cell];
      cell.timeEnd == cell.timeStart + ONE_DAY
      && cell.timeStart <= b.start <= b.end <= cell.timeEnd && b.start < cell.timeEnd
  {
    CellRow(b.cell, rows, cols);
    CellAt(gridStart, rows, cols, b.cell);
    BoxInsideCellAndAppointment(GridCells(gridStart, rows, cols)[b.cell], b.cell, b.app);
  }

  /** The vertical half: a box's start and corrected end are drawn in order
      within its row. */
  lemma {:induction false} BoxInsideItsRow(b: AppointmentBox, cb: seq<int>, rb: seq<int>, fracs: seq<seq<real>>,
                        gridStart: int, rows: nat, cols: nat)
    requires cols > 0 && |fracs| == rows && LaidOutRows(rb, fracs) && |cb| == cols + 1
    requires BoxOf(b.app, GridCells(gridStart, rows, cols), b) && b.app.startTime <= b.app.endTime
    ensures Placeable(b, GridCells(gridStart, rows, cols), cb, rb, fracs, cols)
    ensures rb[b.cell / cols] <= TimeToY(rb, fracs, gridStart, cols, b.start)
              <= BoxEndY(b, GridCells(gridStart, rows, cols), rb, fracs, cols) <= rb[b.cell / cols + 1]
  {
    var days := GridCells(gridStart, rows, cols);
    BoxInItsCell(b, gridStart, rows, cols);
    var row := b.cell / cols;
    var cs := days[b.cell].timeStart;
    TimeToYInCell(rb, fracs, gridStart, rows, cols, b.cell, b.start);
    var h1 := (b.start - cs) as real / ONE_HOUR as real;
    var h2 := (b.end - cs) as real / ONE_HOUR as real;
    HoursOfDay(b.start - cs, b.end - cs);
    assert rb[row] <= rb[row + 1];
    assert LaidOutFractions(fracs[row]);
    RowSpan(fracs[row], rb[row], rb[row + 1], h1, h2);
  }

  lemma {:induction false} RectInsideDay(cb: seq<int>, rb: seq<int>, col: int, row: int, y1: int, y2: int)
    requires 0 <= col < |cb| - 1 && 0 <= row < |rb| - 1 && rb[row] <= y1 <= y2 <= rb[row + 1]
    ensures InsideDay(Rect(cb[col] + 2, y1, cb[col + 1] - 1 - (cb[col] + 2), y2 - y1), cb, rb, col, row)
  {
  }

  /** The rectangle `r` lies inside the day in column `col` and row `row`:
      strictly inside the column's boundaries and between the row's. */
  predicate InsideDay(r: Rect, cb: seq<int>, rb: seq<int>, col: int, row: int)
    requires 0 <= col < |cb| - 1 && 0 <= row < |rb| - 1
  {
    cb[col] < r.x && r.x + r.width < cb[col + 1]
    && rb[row] <= r.y && 0 <= r.height && r.y + r.height <= rb[row + 1]
  }

  /** Two hours of a laid-out row, in order, are drawn in order inside the row. */
  lemma {:induction false} RowSpan(fr: seq<real>, y1: int, y2: int, h1: real, h2: real)
    requires LaidOutFractions(fr) && y1 <= y2 && 0.0 <= h1 <= h2 <= 24.0
    ensures y1 <= FractionToY(y1, y2, HourToFraction(fr, h1))
    ensures FractionToY(y1, y2, HourToFraction(fr, h1)) <= FractionToY(y1, y2, HourToFraction(fr, h2)) <= y2
  {
    HourToFractionMonotone(fr, h1, h2);
    var f1, f2 := HourToFraction(fr, h1), HourToFraction(fr, h2);
    FractionToYWithinRow(y1, y2, f1);
    FractionToYWithinRow(y1, y2, f2);
    FractionToYMonotone(y1, y2, f1, f2);
  }

  /** Two times of a day, as hours: between 0 and 24, in order. */
  lemma {:induction false} HoursOfDay(a: int, b: int)
    requires 0 <= a <= b <= ONE_DAY
    ensures 0.0 <= a as real / ONE_HOUR as real <= b as real / ONE_HOUR as real <= 24.0
  {
  }

  /** As written, `layoutBox` gives a negative height to a box that starts
      after its day's midnight and runs to the next one, in any column but a
      row's last: `timeToY` of the box's end is taken in the next day, at
      time of day 0, which is the top of the same row. Here: a one-week grid starting at time 0, 700 pixels
      high, and an appointment from 10:00 to midnight on the first day; the
      row's hours are those `layoutHourDivision` derives from that box, so
      hours 10 to 23 weigh 10 and the others 1. The corrected end gives the
      box a positive height. */
  lemma {:induction false} MidnightBoxAsWritten()
    ensures var days := GridCells(0, 1, 7);
      var cb := [0, 100, 200, 300, 400, 500, 600, 700];
      var b := MakeBox(days[0], 0, Appointment(10 * ONE_HOUR, ONE_DAY, "", ""));
      var fr := HourFractions(RowInteresting([b], days, 0, 7), 10.0);
      Placeable(b, days, cb, [0, 700], [fr], 7)
      && BoxBoundsAsWritten(b, days, cb, [0, 700], [fr], 0, 7).height == -46
      && BoxBounds(b, days, cb, [0, 700], [fr], 0, 7).height == 654
  {
    var days := GridCells(0, 1, 7);
    var b := MakeBox(days[0], 0, Appointment(10 * ONE_HOUR, ONE_DAY, "", ""));
    assert b.start == 10 * ONE_HOUR && b.end == ONE_DAY && b.cell == 0;
    assert days[0].timeStart == 0;
    assert StartHour(b, 0) == 10 && EndHour(b, 0) == 23;
    var interesting := RowInteresting([b], days, 0, 7);
    assert InRow(b, days, 0, 7);
    assert forall h :: 0 <= h < 24 ==> (interesting[h] <==> 10 <= h) by {
      forall h | 0 <= h < 24
        ensures interesting[h] <==> 10 <= h
      {
        var boxes := [b];
        assert boxes[0] == b && |boxes| == 1;
        if MarksHour(b, 0, h) {
          assert InRow(boxes[0], days, 0, 7) && MarksHour(boxes[0], days[boxes[0].cell].timeStart, h);
        }
        assert interesting[h] <==> MarksHour(b, 0, h);
      }
    }
    var w := HourWeights(interesting, 10.0);
    SumOfRuns(w, 10, 1.0, 10.0);
    Partition.SumOfConstant(w[..10], 1.0);
    var fr := HourFractions(interesting, 10.0);
    Partition.BoundaryAt(w, 0.0, 1.0, 10);
    assert fr[10] == 10.0 / 150.0;
    assert JavaRem(b.start, ONE_DAY) == 10 * ONE_HOUR;
    assert Trunc(10.0) == 10;
    assert HourToFraction(fr, 10.0) == 10.0 / 150.0;
    assert Trunc(10.0 / 150.0 * 700.0) == 46;
    assert TimeToY([0, 700], [fr], 0, 7, b.start) == 46;
    assert JavaRem(b.end, ONE_DAY) == 0;
    assert Trunc(0.0) == 0;
    assert TimeToY([0, 700], [fr], 0, 7, b.end) == 0;
    assert Trunc(24.0) == 24;
    assert BoxEndY(b, days, [0, 700], [fr], 7) == 700;
  }

  /** The total of k weights a followed by weights b. */
  lemma {:induction false} SumOfRuns(w: seq<real>, k: nat, a: real, b: real)
    requires k <= |w|
    requires forall i :: 0 <= i < k ==> w[i] == a
    requires forall i :: k <= i < |w| ==> w[i] == b
    ensures Partition.Sum(w) == k as real * a + (|w| - k) as real * b
  {
    if |w| > k {
      SumOfRuns(w[..|w| - 1], k, a, b);
    } else {
      Partition.SumOfConstant(w, a);
    }
  }

  /** `xToCol` and `yToRow`: -1 for a coordinate before the first boundary
      or after the last, otherwise the first cell whose far boundary lies
      beyond it (-1 again when there is none). */
  function CellIndex(b: seq<int>, x: int): (j: int)
    requires |b| >= 1
    ensures -1 <= j < |b| - 1
  {
    if x < b[0] || x > b[|b| - 1] then -1 else CellFrom(b, x, 0)
  }

  /** The search loop from cell j on; every cell before j ends at or before x. */
  function CellFrom(b: seq<int>, x: int, j: nat): (r: int)
    requires j < |b| && b[0] <= x && forall k :: 1 <= k <= j ==> b[k] <= x
    ensures r == -1 || j <= r < |b| - 1
    decreases |b| - j
  {
    if j == |b| - 1 then -1
    else if x < b[j + 1] then j
    else CellFrom(b, x, j + 1)
  }

  /** The cell found holds x and every cell before it ends at or before x;
      none is found exactly when every cell does. */
  lemma {:induction false} CellFromFinds(b: seq<int>, x: int, j: nat)
    requires j < |b| && b[0] <= x && forall k :: 1 <= k <= j ==> b[k] <= x
    ensures var r := CellFrom(b, x, j);
      (0 <= r ==> b[r] <= x < b[r + 1] && forall k :: 1 <= k <= r ==> b[k] <= x)
      && (r == -1 <==> forall k :: 1 <= k < |b| ==> b[k] <= x)
    decreases |b| - j
  {
    if j < |b| - 1 && x >= b[j + 1] {
      CellFromFinds(b, x, j + 1);
    }
  }

  /** A coordinate found in cell j lies in it and beyond every earlier
      cell; none is found exactly when the coordinate is outside the first
      and last boundaries or past every cell. */
  lemma {:induction false} CellIndexFinds(b: seq<int>, x: int)
    requires |b| >= 1
    ensures var j := CellIndex(b, x);
      (0 <= j ==> b[j] <= x < b[j + 1] && x <= b[|b| - 1] && forall k :: 1 <= k <= j ==> b[k] <= x)
      && (j == -1 <==> x < b[0] || x > b[|b| - 1] || forall k :: 1 <= k < |b| ==> b[k] <= x)
  {
    if b[0] <= x <= b[|b| - 1] {
      CellFromFinds(b, x, 0);
    }
  }

  /** On boundaries that never decrease, x is outside the grid exactly when
      it lies before the first boundary or at or after the last, and a cell
      that holds x is the one found. */
  lemma {:induction false} CellIndexOnGrid(b: seq<int>, x: int, j: int)
    requires |b| >= 2 && Nondecreasing(b)
    ensures CellIndex(b, x) == -1 <==> x < b[0] || x >= b[|b| - 1]
    ensures 0 <= j < |b| - 1 && b[j] <= x < b[j + 1] ==> CellIndex(b, x) == j
  {
    CellIndexFinds(b, x);
    if b[0] <= x < b[|b| - 1] {
      assert b[|b| - 2 + 1] > x;
    }
    if 0 <= j < |b| - 1 && b[j] <= x < b[j + 1] {
      assert b[0] <= b[j] && x < b[j + 1] <= b[|b| - 1];
    }
  }

  /** Cell (row, col) of a grid with `rows` rows and `cols` columns exists. */
  lemma {:induction false} CellOfRowCol(row: nat, col: nat, rows: nat, cols: nat)
    requires row < rows && col < cols
    ensures row * cols + col < rows * cols
  {
    MulMonotoneInt(rows, row + 1, cols);
  }

  /** `xyToTime`: the grid start for a click outside the grid, otherwise the
      start of the clicked day plus the hour found by `yToHour`, truncated
      to whole milliseconds by the `(long)` cast. */
  function ClickTime(rb: seq<int>, cb: seq<int>, fracs: seq<seq<real>>, days: seq<DayCell>,
                     gridStart: int, cols: nat, x: int, y: int): int
    requires cols > 0 && |cb| == cols + 1 && |rb| == |fracs| + 1 && |days| == |fracs| * cols
    requires forall r :: 0 <= r < |fracs| ==> |fracs[r]| == 25 && fracs[r][0] <= 0.0
  {
    var row, col := CellIndex(rb, y), CellIndex(cb, x);
    if row == -1 || col == -1 then gridStart
    else
      CellOfRowCol(row, col, |fracs|, cols);
      CellIndexFinds(rb, y);
      var h := FractionToHour(fracs[row], YToFraction(y, rb[row], rb[row + 1]));
      Trunc(h * ONE_HOUR as real + days[row * cols + col].timeStart as real)
  }

  /** The search of `yToHour` never leaves the day: it gives an hour in [0, 24]. */
  lemma {:induction false} HourFromInDay(fr: seq<real>, f: real, i: nat)
    requires |fr| == 25 && i <= 24 && (i < 24 ==> fr[i] < f)
    ensures i as real <= HourFrom(fr, f, i) <= 24.0
    decreases 24 - i
  {
    if i < 24 {
      if fr[i + 1] < f {
        HourFromInDay(fr, f, i + 1);
      } else {
        ShareOfGap(f - fr[i], fr[i + 1] - fr[i]);
      }
    }
  }

  /** A click inside the grid gives a time in the day clicked on, from its
      midnight to the next one. */
  lemma {:induction false} ClickTimeInDay(rb: seq<int>, cb: seq<int>, fracs: seq<seq<real>>,
                                         gridStart: int, rows: nat, cols: nat, x: int, y: int)
    requires cols > 0 && |cb| == cols + 1 && |rb| == rows + 1 && |fracs| == rows
    requires forall r :: 0 <= r < |fracs| ==> |fracs[r]| == 25 && fracs[r][0] <= 0.0
    requires CellIndex(rb, y) != -1 && CellIndex(cb, x) != -1
    ensures CellIndex(rb, y) * cols + CellIndex(cb, x) < rows * cols
    ensures var cell := GridCells(gridStart, rows, cols)[CellIndex(rb, y) * cols + CellIndex(cb, x)];
      var t := ClickTime(rb, cb, fracs, GridCells(gridStart, rows, cols), gridStart, cols, x, y);
      cell.timeStart <= t <= cell.timeEnd
  {
    var row, col := CellIndex(rb, y), CellIndex(cb, x);
    CellOfRowCol(row, col, rows, cols);
    CellIndexFinds(rb, y);
    var k := row * cols + col;
    CellAt(gridStart, rows, cols, k);
    var fr := fracs[row];
    var f := YToFraction(y, rb[row], rb[row + 1]);
    var h := FractionToHour(fr, f);
    if f > 0.0 {
      HourFromInDay(fr, f, 0);
    }
    HourInDay(h, GridCells(gridStart, rows, cols)[k].timeStart);
  }

  /** A time-of-day in hours between 0 and 24 added to a midnight lies
      within that day. */
  lemma {:induction false} HourInDay(h: real, start: int)
    requires 0.0 <= h <= 24.0
    ensures start <= Trunc(h * ONE_HOUR as real + start as real) <= start + ONE_DAY
  {
    var v := h * ONE_HOUR as real + start as real;
    assert start as real <= v <= (start + ONE_DAY) as real;
    TruncOfInt(start);
    TruncOfInt(start + ONE_DAY);
    TruncMonotone(start as real, v);
    TruncMonotone(v, (start + ONE_DAY) as real);
  }

  /** `layoutGrid` forgets a zoom that no longer fits the grid. */
  function ClampActive(active: int, n: int): (r: int)
    ensures r == -1 || r == active
    ensures r < n || n <= -1
  {
    if active >= n then -1 else active
  }

  /** A day is zoomed when both its row and its column are active. */
  predicate Zoomed(activeRow: int, activeCol: int)
  {
    activeRow != -1 && activeCol != -1
  }

  /** `toggleActiveDay`: a click outside the grid or on the zoomed day zooms
      out, a click on any other day zooms in on it. */
  function ToggledZoom(activeRow: int, activeCol: int, row: int, col: int): (int, int)
  {
    if row == -1 || col == -1 then (-1, -1)
    else if row == activeRow && col == activeCol then (-1, -1)
    else (row, col)
  }

  /** After a click the grid is zoomed exactly when the click was on a day
      other than the zoomed one, and then on that day; clicking the same day
      again always changes whether the grid is zoomed. */
  lemma {:induction false} ToggleZoom(activeRow: int, activeCol: int, row: int, col: int)
    requires row >= -1 && col >= -1
    ensures var z := ToggledZoom(activeRow, activeCol, row, col);
      (Zoomed(z.0, z.1) <==> row != -1 && col != -1 && (row, col) != (activeRow, activeCol))
      && (Zoomed(z.0, z.1) ==> z == (row, col))
      && (!Zoomed(z.0, z.1) ==> z == (-1, -1))
      && (row != -1 && col != -1 ==>
            var z2 := ToggledZoom(z.0, z.1, row, col);
            Zoomed(z2.0, z2.1) == !Zoomed(z.0, z.1))
  {
  }

  /** n weights of 1 except weight `big` at index `active` (none when
      `active` is out of range): the row and column weights of `layoutGrid`. */
  function Emphasis(n: nat, active: int, big: real): (w: seq<real>)
    ensures |w| == n
  {
    seq(n, i requires 0 <= i < n => if i == active then big else 1.0)
  }

  /** `layoutGrid`'s row weights: the zoomed day's row weighs 7. */
  function RowWeights(rows: nat, activeRow: int, activeCol: int): seq<real>
  {
    Emphasis(rows, if Zoomed(activeRow, activeCol) then activeRow else -1, 7.0)
  }

  /** `layoutGrid`'s column weights: the zoomed day's column weighs 3. */
  function ColWeights(cols: nat, activeRow: int, activeCol: int): seq<real>
  {
    Emphasis(cols, if Zoomed(activeRow, activeCol) then activeCol else -1, 3.0)
  }

  lemma {:induction false} EmphasisSum(n: nat, active: int, big: real)
    ensures Partition.Sum(Emphasis(n, active, big)) == n as real + (if 0 <= active < n then big - 1.0 else 0.0)
  {
    if n > 0 {
      var w := Emphasis(n, active, big);
      assert w[..n - 1] == Emphasis(n - 1, active, big);
      EmphasisSum(n - 1, active, big);
    }
  }

  /** With one weight `big` and the rest 1, each other interval gets an equal
      share of the range and the emphasised one is `big` times as wide. */
  lemma {:induction false} EmphasisShares(n: nat, active: nat, big: real, start: real, end: real, i: nat)
    requires active < n && big > 0.0 && i < n && i != active
    ensures Partition.Sum(Emphasis(n, active, big)) == n as real - 1.0 + big
    ensures Partition.Boundaries(Emphasis(n, active, big), start, end)[i + 1]
            - Partition.Boundaries(Emphasis(n, active, big), start, end)[i]
         == (end - start) / (n as real - 1.0 + big)
    ensures Partition.Boundaries(Emphasis(n, active, big), start, end)[active + 1]
            - Partition.Boundaries(Emphasis(n, active, big), start, end)[active]
         == big * (Partition.Boundaries(Emphasis(n, active, big), start, end)[i + 1]
                   - Partition.Boundaries(Emphasis(n, active, big), start, end)[i])
  {
    var q := (end - start) / (n as real - 1.0 + big);
    EmphasisWidth(n, active, big, start, end, i, 1.0);
    EmphasisWidth(n, active, big, start, end, active, big);
    var p := Partition.Boundaries(Emphasis(n, active, big), start, end);
    ScaledShares(p[active + 1] - p[active], p[i + 1] - p[i], big, q);
  }

  lemma {:induction false} EmphasisTotal(n: nat, active: nat, big: real)
    requires active < n
    ensures Partition.Sum(Emphasis(n, active, big)) == n as real - 1.0 + big
  {
    EmphasisSum(n, active, big);
  }

  lemma {:induction false} ScaledShares(a: real, b: real, big: real, q: real)
    requires a == big * q && b == 1.0 * q
    ensures b == q && a == big * b
  {
  }

  /** The interval of weight c gets c shares of the range. */
  lemma {:induction false} EmphasisWidth(n: nat, active: nat, big: real, start: real, end: real, k: nat, c: real)
    requires active < n && big > 0.0 && k < n && Emphasis(n, active, big)[k] == c
    ensures Partition.Sum(Emphasis(n, active, big)) == n as real - 1.0 + big
    ensures var p := Partition.Boundaries(Emphasis(n, active, big), start, end);
      p[k + 1] - p[k] == c * ((end - start) / (n as real - 1.0 + big))
  {
    var w := Emphasis(n, active, big);
    EmphasisTotal(n, active, big);
    Partition.BoundaryWidth(w, start, end, k);
    var p := Partition.Boundaries(w, start, end);
    Shares(p[k + 1] - p[k], w[k], c, Partition.Sum(w), n as real - 1.0 + big, end - start);
  }

  lemma {:induction false} Shares(a: real, x: real, c: real, total: real, total': real, e: real)
    requires total != 0.0 && a == x / total * e && x == c && total == total'
    ensures a == c * (e / total')
  {
  }

  /** Without a zoom all rows are equally tall and all columns equally wide. */
  lemma {:induction false} UnzoomedUniform(n: nat, big: real, start: real, end: real)
    requires n > 0
    ensures Partition.Sum(Emphasis(n, -1, big)) == n as real
    ensures forall i :: 0 <= i <= n ==>
      Partition.Boundaries(Emphasis(n, -1, big), start, end)[i] == start + (i as real / n as real) * (end - start)
  {
    EmphasisSum(n, -1, big);
    Partition.UniformBoundaries(Emphasis(n, -1, big), 1.0, start, end);
  }

  /** The `(int)` casts of `layoutGrid`. */
  function TruncAll(p: seq<real>): (q: seq<int>)
    ensures |q| == |p|
  {
    seq(|p|, i requires 0 <= i < |p| => Trunc(p[i]))
  }

  /** `layoutGrid`: the weights partitioned over [y1, y2], each boundary
      cast to a whole pixel. */
  function GridBoundaries(w: seq<real>, y1: int, y2: int): (q: seq<int>)
    requires Partition.AllPositive(w) && w != []
    ensures |q| == |w| + 1
  {
    Partition.SumPositive(w);
    TruncAll(Partition.Boundaries(w, y1 as real, y2 as real))
  }

  /** The pixel boundaries of a row or column partition run from its first
      to its last pixel and never decrease. */
  lemma {:induction false} PixelBoundaries(w: seq<real>, y1: int, y2: int)
    requires Partition.AllPositive(w) && w != [] && y1 <= y2
    ensures var q := GridBoundaries(w, y1, y2);
      q[0] == y1 && q[|w|] == y2 && Nondecreasing(q)
  {
    Partition.SumPositive(w);
    var p := Partition.Boundaries(w, y1 as real, y2 as real);
    Partition.BoundariesEnds(w, y1 as real, y2 as real);
    TruncOfInt(y1);
    TruncOfInt(y2);
    Partition.BoundariesMonotone(w, y1 as real, y2 as real);
    var q := TruncAll(p);
    forall i, j | 0 <= i <= j < |q| ensures q[i] <= q[j] {
      TruncMonotone(p[i], p[j]);
    }
  }

  /** The first day of the month view for a time t: the Sunday on or before
      the first of t's month. */
  function MonthGridStart(t: int): int
  {
    LatestSunday(FirstOfMonth(StartOfDay(t)))
  }

  /** The month view starts on a Sunday midnight at most six days before the
      first of the month, so its first row holds the first of the month. */
  lemma {:induction false} MonthGridHoldsFirst(t: int)
    ensures var first := FirstOfMonth(StartOfDay(t));
      var start := MonthGridStart(t);
      start % ONE_DAY == 0 && DayOfWeek(start) == 0
      && start <= first < start + 7 * ONE_DAY
      && CivilDate(first) == Date(CivilDate(StartOfDay(t)).year, CivilDate(StartOfDay(t)).month, 1)
  {
    FirstOfMonthIsMidnight(StartOfDay(t));
    FirstOfMonthIsFirst(StartOfDay(t));
    LatestSundayIsLatest(FirstOfMonth(StartOfDay(t)), 0);
  }

  /** Days 134 and 150 of 1970 are May 15 and May 31. */
  lemma {:induction false} DaysOfMay1970()
    ensures CivilDay(134) == Date(1970, 4, 15) && CivilDay(150) == Date(1970, 4, 31)
  {
    assert YearStart(1970) == 0 && YearStart(1971) == 365;
    CivilDayIn(134, Date(1970, 4, 15));
    CivilDayIn(150, Date(1970, 4, 31));
  }

  /** Five rows of seven days do not always reach the end of the month: for
      a time in May 1970 the grid runs from Sunday April 26 (day 115) for 35
      days, and the day at its end is May 31 (day 150), which is not shown. */
  lemma {:induction false} MonthGridMissesMay31()
    ensures CivilDate(134 * ONE_DAY) == Date(1970, 4, 15)
    ensures MonthGridStart(134 * ONE_DAY) == 115 * ONE_DAY
    ensures CivilDate(MonthGridStart(134 * ONE_DAY) + 5 * 7 * ONE_DAY) == Date(1970, 4, 31)
  {
    DaysOfMay1970();
    assert DayNumber(134 * ONE_DAY) == 134;
    assert StartOfDay(134 * ONE_DAY) == 134 * ONE_DAY;
    assert FirstOfMonth(134 * ONE_DAY) == 120 * ONE_DAY;
    assert DayNumber(120 * ONE_DAY) == 120;
    assert DayOfWeek(120 * ONE_DAY) == 5;
    assert LatestSunday(120 * ONE_DAY) == 115 * ONE_DAY;
    assert MonthGridStart(134 * ONE_DAY) == 115 * ONE_DAY;
    assert 115 * ONE_DAY + 5 * 7 * ONE_DAY == 150 * ONE_DAY;
    assert DayNumber(150 * ONE_DAY) == 150;
    assert CivilDate(150 * ONE_DAY) == CivilDay(150);
  }
}
