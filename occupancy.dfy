/**
 The value-level half of the weekly availability grid: cell colours, course
 records, the occupancy test of one course against one weekday and instant,
 the column-to-time mapping of the grid, and the meaning of one grid cell
 after the base pattern and the course overlay have been painted on it.

 Times of day are minutes since midnight. Spreadsheet rows and columns keep
 their spreadsheet numbers: rows 3..9 are Sunday..Saturday and columns
 2..193 (column "GK" is 193) are the 5-minute slots from 06:00 to 21:55.
 */
module Occupancy {

  /** The four fills the grid uses: FFFFFF, D3D3D3, C0C0C0 and the light green 98FF98. */
  datatype Fill = White | LightGray | DarkGray | Green

  /** One course record; start and end are minutes since midnight. */
  datatype Course = Course(start: nat, end: nat, meetingDays: string)

  const FirstRow := 3
  const LastRow := 9
  const FirstCol := 2
  /** The column index of "GK". */
  const LastCol := 193

  /** The first hour of the daily window (06:00). */
  const FirstHour := 6
  /** Number of 5-minute slots in one hour: the stride of the hour loop. */
  const SlotsPerHour := 12
  const SlotMinutes := 5

  /** The seven weekday codes, Sunday first; the code of row r is WeekCodes[r - 3]. */
  const WeekCodes := "UMTWRFS"

  predicate InGrid(row: int, col: int)
  {
    FirstRow <= row <= LastRow && FirstCol <= col <= LastCol
  }

  /** The value of datetime.time(hour, minute), which rejects an hour past 23 or a minute past 59. */
  function TimeOfDay(hour: nat, minute: nat): (t: nat)
    requires hour < 24 && minute < 60
    ensures t < 24 * 60
    ensures t / 60 == hour && t % 60 == minute
  {
    hour * 60 + minute
  }

  /** The instant a grid column stands for: 06:00 plus five minutes per column after the first. */
  function SlotTime(col: int): (t: nat)
    requires FirstCol <= col <= LastCol
    ensures FirstHour * 60 <= t < 22 * 60
    ensures t % SlotMinutes == 0
  {
    FirstHour * 60 + SlotMinutes * (col - FirstCol)
  }

  /** Every 5-minute instant of the window 06:00..21:55 is the time of exactly one column. */
  lemma SlotTimeOnto(t: int)
    requires FirstHour * 60 <= t < 22 * 60 && t % SlotMinutes == 0
    ensures exists col :: FirstCol <= col <= LastCol && SlotTime(col) == t
    ensures forall col :: FirstCol <= col <= LastCol && SlotTime(col) == t ==> col == (t - FirstHour * 60) / SlotMinutes + FirstCol
  {
    var col := (t - FirstHour * 60) / SlotMinutes + FirstCol;
    assert SlotTime(col) == t;
  }

  /** The weekday code painted on a grid row. */
  function DayOfRow(row: int): (day: char)
    requires FirstRow <= row <= LastRow
    ensures day in WeekCodes
  {
    WeekCodes[row - FirstRow]
  }

  /** The rows of the seven weekdays are pairwise distinct. */
  lemma DayOfRowInjective(r1: int, r2: int)
    requires FirstRow <= r1 <= LastRow && FirstRow <= r2 <= LastRow
    requires DayOfRow(r1) == DayOfRow(r2)
    ensures r1 == r2
  {
  }

  /**
   The scan over the meeting-day characters: false as soon as one of them is
   `day` while `t` lies in [start, end); true when the characters run out.
   */
  function AvailableIn(days: string, day: char, start: nat, end: nat, t: nat): (free: bool)
    ensures !free <==> day in days && start <= t < end
  {
    if days == [] then true
    else if days[0] == day && t >= start && t < end then false
    else AvailableIn(days[1..], day, start, end, t)
  }

  /**
   True when the course leaves weekday `day` free at instant `t`. The interval
   is half-open: the start minute is taken, the end minute is free.
   */
  function IsAvailable(course: Course, day: char, t: nat): (free: bool)
    ensures !free <==> day in course.meetingDays && course.start <= t < course.end
    ensures course.end <= course.start ==> free
    ensures t == course.end ==> free
  {
    AvailableIn(course.meetingDays, day, course.start, course.end, t)
  }

  /** The colour a row gets from the base pattern, whatever the grid held before. */
  function BaseFill(row: int): Fill
  {
    if row % 2 == 0 then White
    else if row == 5 || row == 7 then LightGray
    else DarkGray
  }

  /** The base pattern row by row, Sunday to Saturday. */
  lemma BasePattern(row: int)
    requires FirstRow <= row <= LastRow
    ensures BaseFill(row) == [DarkGray, White, LightGray, White, LightGray, White, DarkGray][row - FirstRow]
    ensures BaseFill(row) != Green
  {
  }

  /** A cell after the base pattern is laid: the grid rectangle is reset, the rest is left as it was. */
  function ClearedCell(row: int, col: int, f: Fill): Fill
  {
    if InGrid(row, col) then BaseFill(row) else f
  }

  /**
   Laying the base pattern twice is laying it once; inside the grid it forgets
   what the cell held (a green cell included), outside it changes nothing.
   */
  lemma ClearedCellIdempotent(row: int, col: int, f: Fill, f': Fill)
    ensures ClearedCell(row, col, ClearedCell(row, col, f)) == ClearedCell(row, col, f)
    ensures InGrid(row, col) ==> ClearedCell(row, col, f) == ClearedCell(row, col, f') != Green
    ensures !InGrid(row, col) ==> ClearedCell(row, col, f) == f
  {
  }

  /**
   A cell after the course has been scanned against weekday `day` painted on row
   `rowNum`: green when the cell lies on that row, in the slot columns, and the
   course takes the column's instant; otherwise unchanged.
   */
  function DayCell(course: Course, day: char, rowNum: int, row: int, col: int, f: Fill): Fill
  {
    if row == rowNum && FirstCol <= col <= LastCol && !IsAvailable(course, day, SlotTime(col)) then Green else f
  }

  /**
   Scanning one row only ever writes green, only on that row and only in the
   slot columns: a free slot keeps its colour and a green cell stays green.
   */
  lemma DayCellOnlyGreens(course: Course, day: char, rowNum: int, row: int, col: int, f: Fill)
    ensures DayCell(course, day, rowNum, row, col, f) in {f, Green}
    ensures row != rowNum || !(FirstCol <= col <= LastCol) ==> DayCell(course, day, rowNum, row, col, f) == f
    ensures DayCell(course, day, rowNum, row, col, Green) == Green
    ensures FirstCol <= col <= LastCol && IsAvailable(course, day, SlotTime(col)) ==> DayCell(course, day, rowNum, row, col, f) == f
  {
  }

  /** The course takes the instant of `col` on the weekday of `row`. */
  predicate Occupies(course: Course, row: int, col: int)
  {
    InGrid(row, col) && !IsAvailable(course, DayOfRow(row), SlotTime(col))
  }

  /**
   A cell after one course has been scanned against the seven fixed
   (day code, row) pairs U-3, M-4, T-5, W-6, R-7, F-8, S-9 in that order.
   */
  function CourseCell(course: Course, row: int, col: int, f: Fill): (g: Fill)
    ensures g == if Occupies(course, row, col) then Green else f
  {
    var f3 := DayCell(course, 'U', 3, row, col, f);
    var f4 := DayCell(course, 'M', 4, row, col, f3);
    var f5 := DayCell(course, 'T', 5, row, col, f4);
    var f6 := DayCell(course, 'W', 6, row, col, f5);
    var f7 := DayCell(course, 'R', 7, row, col, f6);
    var f8 := DayCell(course, 'F', 8, row, col, f7);
    DayCell(course, 'S', 9, row, col, f8)
  }

  /** Some course of `data` takes the cell. */
  predicate Highlighted(data: seq<Course>, row: int, col: int)
  {
    exists course :: course in data && Occupies(course, row, col)
  }

  /** A cell after every course of `data` has been scanned, in order. */
  function Painted(data: seq<Course>, row: int, col: int, f: Fill): (g: Fill)
    ensures g == if Highlighted(data, row, col) then Green else f
  {
    if data == [] then f
    else
      var front := data[..|data| - 1];
      var last := data[|data| - 1];
      assert data == front + [last];
      CourseCell(last, row, col, Painted(front, row, col, f))
  }

  /** A cell after a whole run: base pattern, then the overlay when `data` is non-empty. */
  function GeneratedCell(data: seq<Course>, row: int, col: int, f: Fill): (g: Fill)
    ensures InGrid(row, col) ==> (g == Green <==> Highlighted(data, row, col))
    ensures InGrid(row, col) && !Highlighted(data, row, col) ==> g == BaseFill(row)
    ensures !InGrid(row, col) ==> g == f
  {
    var cleared := ClearedCell(row, col, f);
    if data == [] then cleared else Painted(data, row, col, cleared)
  }

  /**
   With an empty course list a run is the reset alone: every grid cell holds
   its row's base colour, none is green, and the rest of the sheet is kept.
   */
  lemma EmptyListIsBasePattern(row: int, col: int, f: Fill)
    ensures GeneratedCell([], row, col, f) == ClearedCell(row, col, f)
    ensures InGrid(row, col) ==> GeneratedCell([], row, col, f) == BaseFill(row) != Green
    ensures !InGrid(row, col) ==> GeneratedCell([], row, col, f) == f
  {
  }

  /** Only the courses that occur in `data` matter: not their order, not their repetitions. */
  lemma GeneratedCellSetOnly(data: seq<Course>, data': seq<Course>, row: int, col: int, f: Fill)
    requires forall course :: course in data <==> course in data'
    ensures GeneratedCell(data, row, col, f) == GeneratedCell(data', row, col, f)
  {
  }

  /** A run forgets the earlier contents of the grid, and running twice is running once. */
  lemma GeneratedCellIdempotent(data: seq<Course>, row: int, col: int, f: Fill, f': Fill)
    ensures InGrid(row, col) ==> GeneratedCell(data, row, col, f) == GeneratedCell(data, row, col, f')
    ensures GeneratedCell(data, row, col, GeneratedCell(data, row, col, f)) == GeneratedCell(data, row, col, f)
  {
  }

  /** Painting is monotonic: a green cell stays green and more courses never un-highlight. */
  lemma PaintedMonotonic(data: seq<Course>, more: seq<Course>, row: int, col: int, f: Fill)
    ensures Painted(data, row, col, Green) == Green
    ensures Painted(data, row, col, f) == Green ==> Painted(data + more, row, col, f) == Green
  {
  }

  /** Meeting-day characters other than U, M, T, W, R, F, S highlight nothing. */
  lemma UnknownDaysHighlightNothing(course: Course, row: int, col: int, f: Fill)
    requires forall i :: 0 <= i < |course.meetingDays| ==> course.meetingDays[i] !in WeekCodes
    ensures CourseCell(course, row, col, f) == f
  {
  }

  /**
   The course 06:00-10:00 on "TR": on a freshly generated grid, rows 5 and 7
   (Tuesday, Thursday) are green in the 48 columns 2..49 (06:00..09:55); column
   50 (10:00) and every other grid cell keep their base colour.
   */
  lemma TuesdayThursdayMorning(row: int, col: int, f: Fill)
    requires InGrid(row, col)
    ensures GeneratedCell([Course(360, 600, "TR")], row, col, f) ==
      if (row == 5 || row == 7) && col <= 49 then Green else BaseFill(row)
    ensures 49 - FirstCol + 1 == 48 && SlotTime(49) == 9 * 60 + 55 && SlotTime(50) == 10 * 60
  {
  }

  /** The shortest course, 06:00-06:05, takes only the first slot column of its days. */
  lemma FirstSlotOnly(days: string, row: int, col: int)
    requires InGrid(row, col)
    ensures Occupies(Course(360, 365, days), row, col) <==> col == FirstCol && DayOfRow(row) in days
  {
  }
}
