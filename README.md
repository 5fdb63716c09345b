# Chaos-game triangle: verified model

This project models the logic of `triangle.c`, a terminal demo that draws a
Sierpinski-like triangle by the chaos game and then inverts the picture row
by row. The model covers four parts. `Triangle.PositionExists` is the linear
membership scan over recorded cells. `Triangle.DrawInitial` is the point
generator: it moves to the midpoint toward a chosen anchor and records each
point. `Triangle.GetInverted` is the complement collector: it walks the grid
in row-major order, stores every unrecorded cell, and stops when its buffer
is full. `Triangle.InvertRow` is the row classifier: it gives the character
each column of a row receives.

A cell is `Position(y, x)`, where `y` is the row and `x` the column. This is
the source's `struct position`; position.h is not part of this model. The
buffers `original`, `map1` and `map2` are Dafny arrays. The methods work on
them with the source's loops, indices and early returns. Each method is
proved against a specification function:

- `PointAfter` gives the point after `n` steps.
- `AbsentCells` gives the unrecorded cells of the grid, in row-major order.
- Sequence membership (`in`) gives "the cell is recorded".

Lemmas prove what those functions mean: soundness and completeness of the
complement, row-major order without duplicates, and the bounding box of
every generated point.

Integer details:

- C's `/ 2` truncates toward zero. It is modelled exactly as `Div2`, for
  both signs. The midpoint bound holds for all integers.
- Coordinates are unbounded integers. The 32-bit width of C's coordinate
  sums is not modelled; see `Triangle.DrawInitial` under "## Left out".
- The `long` and `int` loop counters never come near their limits, because
  the source's sizes are at most `ITERMAX` = 10000. They are unbounded here.

## Model

| member | source | states |
|---|---|---|
| `Triangle.PositionExists` | triangle.c:215-226 | returns true exactly when some index below `mapSize` holds a position with the same `y` and `x`, and false otherwise; equivalently, the cell is among the first `mapSize` entries; the array is only read |
| `Triangle.Div2` | triangle.c:117-118 | C's `/ 2` on `int`: truncation toward zero, so `2r <= n < 2r + 2` for `n >= 0` and `2r - 2 < n <= 2r` for `n < 0` |
| `Triangle.MidpointBetween` | triangle.c:117-118 | the truncated midpoint of two values in `[lo, hi]` stays in `[lo, hi]` |
| `Triangle.DrawInitial` | triangle.c:105-131 | after the loop, `original[i]` is the point reached after `i + 1` midpoint steps from `(yi, xi)`, for every `i < mapSize`, the anchor of step `i` being the `i`-th choice; the entries from `mapSize` on and the anchor arrays `y` and `x` are unchanged |
| `Triangle.PointAfterInBox` | triangle.c:111-127 | if the start point and all three anchors lie in a rectangle, the point after any number of steps lies in that rectangle too |
| `Triangle.MainPointsOnScreen` | triangle.c:60-84 | with `main`'s anchors (1, 1), (maxlines, maxcols / 2), (0, maxcols) and start point (r1 % maxlines + 1, r2 % maxcols + 1), every point the generator records lies in `[0, maxlines] x [0, maxcols]` |
| `Triangle.GetInverted` | triangle.c:155-181 | `map2` receives exactly the first min(count, map2Size) unrecorded cells of the `maxRows x maxCols` grid, in row-major order, where count is the number of unrecorded cells; every `map2` entry after those and all of `map1` are unchanged |
| `Triangle.AbsentInRowMembers` | triangle.c:167-172 | a cell is collected from the first `j` columns of row `i` exactly when it lies in row `i` at a column in `[0, j)` and is not recorded |
| `Triangle.AbsentCellsMembers` | triangle.c:165-172 | soundness and completeness: a cell is collected exactly when it lies in the grid and is not among the recorded positions |
| `Triangle.AbsentInRowIncreasing` | triangle.c:167-172 | the cells collected from one row come in strictly increasing column order |
| `Triangle.AbsentCellsIncreasing` | triangle.c:165-178 | the collected cells are strictly increasing in row-major order, so no cell is stored twice |
| `Triangle.AbsentInRowPrefix` | triangle.c:167-178 | scanning more columns of a row only appends to what was collected |
| `Triangle.AbsentCellsPrefix` | triangle.c:165-180 | scanning more rows only appends to what was collected |
| `Triangle.ScanPrefix` | triangle.c:165-178 | what is collected on reaching cell (i, j) is a prefix of what the whole grid yields |
| `Triangle.StopWhenFull` | triangle.c:172-176 | when the collected cells reach the capacity, they are the first `capacity` unrecorded cells of the whole grid, and the capacity is the stored count |
| `Triangle.InvertRow` | triangle.c:189-208 | the row receives one character per column `0 .. maxCols - 1`, in order: `replaceWith` where the cell is recorded, `invertWith` elsewhere |
| `Triangle.InvertRowTwice` | triangle.c:194-205 | the recorded positions are only read, so inverting the same row twice gives the same characters |
| `Triangle.InvertRowExample` | triangle.c:88 | with `main`'s characters (blank for recorded, '0' for empty), row 0 of width 3 against the cells (0, 0) and (0, 2) becomes blank, '0', blank |

## Left out

- Terminal I/O through ncurses (`initscr`, `cbreak`, `noecho`, `clear`, `mvaddch`, `mvaddstr`, `refresh`, `getch`, `endwin`) is not modelled. The screen size from `LINES` and `COLS` becomes the parameters `maxLines` and `maxCols`. Each cell that `draw_initial` draws is the one it records in `original[i]`, so that list stands for the drawing.
- The `nanosleep` pacing and the global `req` are presentation timing only.
- `getrandom_wrapper` is a system call. The anchor choices are an input sequence with every element in {0, 1, 2}. The two start-point draws in `main` are non-negative inputs `r1` and `r2`. The source can return a negative value for `INT_MIN`, because `value * -1` overflows. Then `% 3` could be negative. This case is not modelled.
- `malloc` and its unchecked result are not modelled. The buffers are arrays of a given length, at least the size passed.
- `char_flip` is not modelled. It only redraws every recorded cell with one character.
- The whole-screen loop in `main` that calls `invert_row` once per row is not modelled as a separate member. `InvertRow` models one call.
- voidptr_test.c is a scratch program with an out-of-bounds write. It is not part of this model.
- `Triangle.GetInverted` requires `map2Size >= 1`. With size 0, the source would still write `map2[0]` before its capacity test.
- `Triangle.GetInverted` requires `map1` and `map2` to be distinct arrays. If they alias, the scan would read its own writes. The source never calls `get_inverted`, so no caller decides either question.
- `Triangle.MainPointsOnScreen` requires `maxLines >= 1` and `maxCols >= 1`. The source computes `% maxlines` and `% maxcols`, which is undefined for a one-line or one-column terminal.
- `Triangle.DrawInitial`: coordinates are unbounded integers here. In C the sums `yi + y[index]` and `xi + x[index]` (triangle.c:117-118) are 32-bit signed additions, undefined once they pass `INT_MAX`. `main` never gets near that: its anchors and start point lie in `[0, maxlines] x [0, maxcols]` (triangle.c:60-78), so by `Triangle.MainPointsOnScreen` every coordinate stays within the screen size.
- `Triangle.PointAfterInBox` bounds the points by any rectangle that holds the start point and the three anchors. A start point outside the anchors' bounding box can put points outside that box, even by more than one cell. In `main` (triangle.c:63-78) the start point lies inside the anchors' box, so every point stays in `[0, maxlines] x [0, maxcols]`.
- `draw_initial` writes exactly `map_size` entries into a buffer of that size, so the generator never reaches a capacity cutoff.
