# Weekly availability grid generator

This project models the grid painter of the DSSO schedule optimizer in Dafny.
The painter takes a list of course records. Each record has a start time, an
end time and a string of weekday codes (U, M, T, W, R, F, S for Sunday to
Saturday). It paints a timetable worksheet in place:

- rows 3..9 are Sunday..Saturday;
- columns 2..193 (column "GK" is 193) are the 5-minute slots from 06:00 to 21:55.

A run first resets the grid rectangle to a base pattern that depends only on
the row:

- white for the even rows;
- light gray (D3D3D3) for rows 5 and 7;
- dark gray (C0C0C0) for rows 3 and 9.

Then, when the course list is non-empty, it scans every course against all
seven (day code, row) pairs. It turns green every slot that the course occupies
on that day. A course occupies a slot when the slot's weekday code occurs in
its meeting days and the slot's instant lies in the half-open interval
[start, end).

Two files make up the model:

- `occupancy.dfy` (module `Occupancy`) holds the value-level part. It defines
  the `Fill` palette and the `Course` record, with times as minutes since
  midnight. It has the occupancy test `IsAvailable` and the column-to-time map
  `SlotTime`. It also gives the meaning of one cell after each stage
  (`ClearedCell`, `DayCell`, `CourseCell`, `Painted`, `GeneratedCell`), with the
  lemmas about them.
- `grid_generator.dfy` (module `GridGenerator`) holds the class `Worksheet`.
  The class wraps the sheet as an `array2<Fill>` indexed by spreadsheet row and
  column number. Its methods `ClearGrid`, `FillInDay`, `PopulateGrid` and
  `Regenerate` keep the source's nested loops, including the hour and minute
  counters. Each is proved to leave every cell equal to the matching per-cell
  function of its old colour.

Three behaviours of the code that the model keeps:

- Meeting days are a string scanned character by character, so repeated
  characters change nothing.
- Rows are chosen by seven fixed (code, row) calls, so a character outside
  U, M, T, W, R, F, S is never matched.
- When end <= start, no slot is occupied, and `IsAvailable` states this.

## Model

| member | source | states |
|---|---|---|
| `Occupancy.TimeOfDay` | gridGenerator/gridGenerator.py:102 | `time(hour, minute)` is accepted only for hour < 24 and minute < 60; the minute value it stands for gives back exactly that hour and minute |
| `Occupancy.SlotTime` | gridGenerator/gridGenerator.py:96-111 | every slot column 2..193 stands for a multiple of 5 minutes inside the window [06:00, 22:00) |
| `Occupancy.SlotTimeOnto` | gridGenerator/gridGenerator.py:97-102 | every 5-minute instant from 06:00 to 21:55 is the time of exactly one column, namely (t - 360) / 5 + 2 |
| `Occupancy.DayOfRow` | gridGenerator/gridGenerator.py:81-87 | each grid row 3..9 carries one of the seven weekday codes U, M, T, W, R, F, S |
| `Occupancy.DayOfRowInjective` | gridGenerator/gridGenerator.py:81-87 | the seven weekday rows are pairwise distinct |
| `Occupancy.AvailableIn` | gridGenerator/gridGenerator.py:121-125 | the character scan returns false exactly when `day` occurs among the characters and start <= t < end |
| `Occupancy.IsAvailable` | gridGenerator/gridGenerator.py:114-125 | a course leaves (day, t) busy exactly when day is in its meeting days and start <= t < end; t == end is free; end <= start leaves everything free |
| `Occupancy.BasePattern` | gridGenerator/gridGenerator.py:55-67 | the base colour of rows 3..9 is dark gray, white, light gray, white, light gray, white, dark gray, and never green |
| `Occupancy.ClearedCellIdempotent` | gridGenerator/gridGenerator.py:51-69 | resetting twice equals resetting once; inside the grid the result ignores the earlier colour, an earlier green included; outside the grid nothing changes |
| `Occupancy.DayCellOnlyGreens` | gridGenerator/gridGenerator.py:103-108 | scanning a row writes only green, only on that row and only in columns 2..193; a free slot keeps its colour; a green cell stays green |
| `Occupancy.CourseCell` | gridGenerator/gridGenerator.py:80-87 | after one course has been scanned against the seven fixed pairs, a cell is green exactly when the course occupies that row's weekday at that column's time; otherwise it is unchanged |
| `Occupancy.Painted` | gridGenerator/gridGenerator.py:80-87 | after all courses have been scanned in order, a cell is green exactly when some course of the list occupies it; otherwise it is unchanged |
| `Occupancy.GeneratedCell` | gridGenerator/gridGenerator.py:129-150 | after reset and overlay, a grid cell is green if and only if some course occupies it, and otherwise has its row's base colour; a cell outside the grid keeps its colour |
| `Occupancy.GeneratedCellSetOnly` | gridGenerator/gridGenerator.py:80-87 | two course lists with the same members give the same grid, so permuting or duplicating courses changes nothing |
| `Occupancy.GeneratedCellIdempotent` | gridGenerator/gridGenerator.py:44-87 | a run does not depend on the earlier grid contents, and running twice gives the grid of one run |
| `Occupancy.PaintedMonotonic` | gridGenerator/gridGenerator.py:103-108 | the overlay never reverts green, and appending courses never un-highlights a cell |
| `Occupancy.UnknownDaysHighlightNothing` | gridGenerator/gridGenerator.py:80-87 | a course whose meeting days hold no character of U, M, T, W, R, F, S highlights no cell |
| `Occupancy.TuesdayThursdayMorning` | gridGenerator/gridGenerator.py:134-140 | the course 06:00-10:00 on "TR" turns rows 5 and 7, columns 2..49 (48 slots, 06:00..09:55) green; column 50 (10:00) and all other cells keep their base colour |
| `Occupancy.FirstSlotOnly` | gridGenerator/gridGenerator.py:118-124 | a 06:00-06:05 course occupies only column 2 of the rows of its meeting days |
| `Occupancy.EmptyListIsBasePattern` | gridGenerator/gridGenerator.py:129-152 | with the empty course list of the program as written, a run leaves every grid cell at its row's base colour, none green, and every other cell unchanged |
| `GridGenerator.Worksheet.constructor` | gridGenerator/gridGenerator.py:37-38 | wraps the active sheet, which must reach row 9 and column 193 |
| `GridGenerator.Worksheet.ClearGrid` | gridGenerator/gridGenerator.py:44-69 | every cell of rows 3..9 and columns 2..193 gets its row's base colour; every other cell is unchanged |
| `GridGenerator.Worksheet.FillInDay` | gridGenerator/gridGenerator.py:90-111 | column c of row `rowNum` is tested at 06:00 + 5 (c - 2) and turns green when the course occupies `day` then; the two loops cover exactly columns 2..193; no other cell changes |
| `GridGenerator.Worksheet.PopulateGrid` | gridGenerator/gridGenerator.py:72-87 | every cell becomes `Painted` of its old colour, so green exactly where some course occupies it; an empty list leaves the sheet unchanged |
| `GridGenerator.Worksheet.Regenerate` | gridGenerator/gridGenerator.py:129-150 | after a run, a grid cell is green if and only if some course occupies its weekday and time, and otherwise has its row's base colour; cells outside the grid keep their colour |

## Left out

- Command-line handling (the missing-argument and missing-file checks that exit with status 1) is process control and is not modelled.
- Loading and saving the workbook is file I/O. The sheet arrives as an in-memory `array2<Fill>` and the result stays in it.
- Fill objects are replaced by the four-value `Fill` palette, and the column letter "GK" by the constant 193.
- The module search path setup and the imported (but unused) schedule fetch are environment and network plumbing.
- The course list `data1` is a literal in the source text, and both of its records are commented out, so it is empty; the call that would fetch it (line 132) is commented out as well. The model takes the list as the parameter `data` of `Regenerate`, and `Regenerate([])` is the program as written: the grid is reset to the base pattern and nothing is highlighted (`Occupancy.EmptyListIsBasePattern`).
- The parsing of time text is not part of this model. Course start and end arrive as minutes since midnight, and a parse failure is not modelled.
- The course's `subject` field is not modelled, because the painter never reads it.
- The diagnostic messages are not modelled, including the "No data returned" message printed on an empty list.
- `GridGenerator.Worksheet.constructor`: a spreadsheet has no fixed size, but the model's array does. The model therefore requires the sheet to reach row 9 and column 193. The painter writes no cell beyond that.
- `GridGenerator.Worksheet.FillInDay`: the row number must be a valid index of the array. The generator calls it only with rows 3..9.
