/**
 The worksheet the generator paints in place. Each method rewrites cells of the
 sheet's 2-D array step by step, as the generator's loops do, and is proved
 against the per-cell meaning given in module Occupancy: cells[r, c] is the
 spreadsheet cell of row r and column c (index 0 of either dimension is never
 used, spreadsheet numbering starts at 1).
 */
module GridGenerator {
  import opened Occupancy

  class Worksheet {
    const cells: array2<Fill>

    /** The sheet reaches at least row 9 and column "GK". */
    ghost predicate Valid()
      reads this
    {
      LastRow < cells.Length0 && LastCol < cells.Length1
    }

    /** Wraps a loaded sheet. */
    constructor (sheet: array2<Fill>)
      requires LastRow < sheet.Length0 && LastCol < sheet.Length1
      ensures Valid() && cells == sheet
    {
      cells := sheet;
    }

    /**
     Resets every cell of rows 3..9, columns 2..193 to its row's base colour;
     no other cell changes.
     */
    method ClearGrid()
      requires Valid()
      modifies cells
      ensures forall r, c :: 0 <= r < cells.Length0 && 0 <= c < cells.Length1 ==>
        cells[r, c] == ClearedCell(r, c, old(cells[r, c]))
    {
      for row := FirstRow to LastRow + 1
        invariant forall r, c :: 0 <= r < cells.Length0 && 0 <= c < cells.Length1 ==>
          cells[r, c] == if FirstRow <= r < row && FirstCol <= c <= LastCol then BaseFill(r) else old(cells[r, c])
      {
        for col := FirstCol to LastCol + 1
          invariant forall r, c :: 0 <= r < cells.Length0 && 0 <= c < cells.Length1 ==>
            cells[r, c] ==
              if (FirstRow <= r < row && FirstCol <= c <= LastCol) || (r == row && FirstCol <= c < col) then BaseFill(r)
              else old(cells[r, c])
        {
          var fillColor;
          if row % 2 == 0 {
            fillColor := White;
          } else if row == 5 || row == 7 {
            fillColor := LightGray;
          } else {
            fillColor := DarkGray;
          }
          cells[row, col] := fillColor;
        }
      }
    }

    /**
     Scans the 192 slot columns of row `rowNum`: an hour counter from 6 steps
     with the outer column by 12, a minute counter from 0 steps with the inner
     column by 5, so column c is tested at 06:00 + 5 * (c - 2). A column whose
     instant the course takes on `day` turns green; nothing else changes.
     */
    method FillInDay(course: Course, day: char, rowNum: int)
      requires Valid() && 0 <= rowNum < cells.Length0
      modifies cells
      ensures forall r, c :: 0 <= r < cells.Length0 && 0 <= c < cells.Length1 ==>
        cells[r, c] == DayCell(course, day, rowNum, r, c, old(cells[r, c]))
    {
      var hour := FirstHour;
      var outer := FirstCol;
      while outer < LastCol + 1
        invariant FirstCol <= outer <= LastCol + 1 && (outer - FirstCol) % SlotsPerHour == 0
        invariant hour == FirstHour + (outer - FirstCol) / SlotsPerHour
        invariant forall r, c :: 0 <= r < cells.Length0 && 0 <= c < cells.Length1 ==>
          cells[r, c] == if FirstCol <= c < outer then DayCell(course, day, rowNum, r, c, old(cells[r, c])) else old(cells[r, c])
      {
        var minute := 0;
        for inner := outer to outer + SlotsPerHour
          invariant minute == SlotMinutes * (inner - outer)
          invariant forall r, c :: 0 <= r < cells.Length0 && 0 <= c < cells.Length1 ==>
            cells[r, c] == if FirstCol <= c < inner then DayCell(course, day, rowNum, r, c, old(cells[r, c])) else old(cells[r, c])
        {
          var currentTime := TimeOfDay(hour, minute);
          assert currentTime == SlotTime(inner);
          if !IsAvailable(course, day, currentTime) {
            cells[rowNum, inner] := Green;
          }
          minute := minute + SlotMinutes;
        }
        hour := hour + 1;
        outer := outer + SlotsPerHour;
      }
    }

    /**
     Scans every course against the seven fixed (day code, row) pairs, whatever
     its meeting days are; an empty list leaves the sheet as it is.
     */
    method PopulateGrid(data: seq<Course>)
      requires Valid()
      modifies cells
      ensures forall r, c :: 0 <= r < cells.Length0 && 0 <= c < cells.Length1 ==>
        cells[r, c] == Painted(data, r, c, old(cells[r, c]))
      ensures data == [] ==> unchanged(cells)
    {
      if data == [] {
        return;
      }
      for i := 0 to |data|
        invariant forall r, c :: 0 <= r < cells.Length0 && 0 <= c < cells.Length1 ==>
          cells[r, c] == Painted(data[..i], r, c, old(cells[r, c]))
      {
        var course := data[i];
        label before:
        FillInDay(course, 'U', 3);  // Sunday
        FillInDay(course, 'M', 4);  // Monday
        FillInDay(course, 'T', 5);  // Tuesday
        FillInDay(course, 'W', 6);  // Wednesday
        FillInDay(course, 'R', 7);  // Thursday
        FillInDay(course, 'F', 8);  // Friday
        FillInDay(course, 'S', 9);  // Saturday
        assert data[..i + 1][..i] == data[..i];
        forall r, c | 0 <= r < cells.Length0 && 0 <= c < cells.Length1
          ensures cells[r, c] == Painted(data[..i + 1], r, c, old(cells[r, c]))
        {
          assert cells[r, c] == CourseCell(course, r, c, old@before(cells[r, c]));
        }
      }
      assert data[..|data|] == data;
    }

    /**
     One run of the generator on the loaded sheet: reset to the base pattern,
     then, when the course list is non-empty, overlay its courses. Afterwards a
     grid cell is green exactly when some course takes its weekday and instant
     and holds its row's base colour otherwise; cells outside the grid keep
     their colour.
     */
    method Regenerate(data: seq<Course>)
      requires Valid()
      modifies cells
      ensures forall r, c :: 0 <= r < cells.Length0 && 0 <= c < cells.Length1 ==>
        cells[r, c] == GeneratedCell(data, r, c, old(cells[r, c]))
      ensures forall r, c :: 0 <= r < cells.Length0 && 0 <= c < cells.Length1 ==>
        cells[r, c] == if !InGrid(r, c) then old(cells[r, c]) else if Highlighted(data, r, c) then Green else BaseFill(r)
    {
      ClearGrid();
      if data != [] {
        PopulateGrid(data);
      }
    }
  }
}
