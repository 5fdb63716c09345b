/*
 * The chaos-game triangle of triangle.c: the point generator, the membership
 * scan over recorded positions, the complement collector and the row
 * inverter. Terminal drawing, pacing and the random source are not modelled:
 * the anchor choices arrive as a sequence of indices, and a row redraw is
 * returned as the sequence of characters it writes, column by column.
 */
module Triangle {

  /** A character cell: `y` is the row, `x` is the column. */
  datatype Position = Position(y: int, x: int)

  // ---------------------------------------------------------------------------
  // Integer arithmetic of the C source
  // ---------------------------------------------------------------------------

  /** C's `n / 2` on `int`: the quotient is truncated toward zero. */
  function Div2(n: int): (r: int)
    ensures 0 <= n ==> 2 * r <= n < 2 * r + 2
    ensures n < 0 ==> 2 * r - 2 < n <= 2 * r
  {
    if n >= 0 then n / 2 else -((-n) / 2)
  }

  /** The truncated midpoint of two values lies between them. */
  lemma MidpointBetween(a: int, b: int, lo: int, hi: int)
    requires lo <= a <= hi && lo <= b <= hi
    ensures lo <= Div2(a + b) <= hi
  {
  }

  // ---------------------------------------------------------------------------
  // Membership scan (position_exists)
  // ---------------------------------------------------------------------------

  /** Linear scan of the first `mapSize` recorded positions for the cell (y, x). */
  method PositionExists(y: int, x: int, positions: array<Position>, mapSize: nat) returns (found: bool)
    requires mapSize <= positions.Length
    ensures found <==> exists i :: 0 <= i < mapSize && positions[i].y == y && positions[i].x == x
    ensures found <==> Position(y, x) in positions[..mapSize]
  {
    var i := 0;
    while i < mapSize
      invariant 0 <= i <= mapSize
      invariant forall k :: 0 <= k < i ==> positions[k] != Position(y, x)
    {
      if positions[i].y == y && positions[i].x == x {
        assert positions[..mapSize][i] == Position(y, x);
        return true;
      }
      i := i + 1;
    }
    return false;
  }

  // ---------------------------------------------------------------------------
  // Chaos-game point generation (draw_initial)
  // ---------------------------------------------------------------------------

  /** Every anchor choice names one of the three anchors. */
  predicate ValidChoices(choices: seq<int>)
  {
    forall k :: 0 <= k < |choices| ==> 0 <= choices[k] < 3
  }

  /** One step of the game: the truncated midpoint of `p` and the anchor `(ay, ax)`. */
  function Step(p: Position, ay: int, ax: int): (q: Position)
  {
    Position(Div2(p.y + ay), Div2(p.x + ax))
  }

  /**
   * The current point after the first `n` steps from `start`, where step `k`
   * moves toward the anchor `(ys[choices[k]], xs[choices[k]])`.
   */
  function PointAfter(start: Position, ys: seq<int>, xs: seq<int>, choices: seq<int>, n: nat): (p: Position)
    requires |ys| == 3 && |xs| == 3
    requires n <= |choices| && ValidChoices(choices)
  {
    if n == 0 then start
    else
      var k := choices[n - 1];
      Step(PointAfter(start, ys, xs, choices, n - 1), ys[k], xs[k])
  }

  /**
   * Runs `mapSize` steps from `(yi, xi)`, the anchor of step `i` being
   * `choices[i]`, and records the point reached by step `i` in `original[i]`.
   */
  method DrawInitial(y: array<int>, x: array<int>, yi: int, xi: int, original: array<Position>,
                     mapSize: nat, choices: seq<int>)
    requires y.Length == 3 && x.Length == 3
    requires mapSize <= original.Length
    requires |choices| == mapSize && ValidChoices(choices)
    modifies original
    ensures forall i :: 0 <= i < mapSize ==>
      original[i] == PointAfter(Position(yi, xi), y[..], x[..], choices, i + 1)
    ensures forall i :: mapSize <= i < original.Length ==> original[i] == old(original[i])
    ensures y[..] == old(y[..]) && x[..] == old(x[..])
  {
    var cy, cx := yi, xi;
    var i := 0;
    while i < mapSize
      invariant 0 <= i <= mapSize
      invariant Position(cy, cx) == PointAfter(Position(yi, xi), y[..], x[..], choices, i)
      invariant forall k :: 0 <= k < i ==>
        original[k] == PointAfter(Position(yi, xi), y[..], x[..], choices, k + 1)
      invariant forall k :: i <= k < original.Length ==> original[k] == old(original[k])
    {
      var index := choices[i];
      cy := Div2(cy + y[index]);
      cx := Div2(cx + x[index]);
      original[i] := Position(cy, cx);
      i := i + 1;
    }
  }

  /** The cell `p` lies in the rectangle `[loY, hiY] x [loX, hiX]`. */
  predicate InBox(p: Position, loY: int, hiY: int, loX: int, hiX: int)
  {
    loY <= p.y <= hiY && loX <= p.x <= hiX
  }

  /**
   * When the start point and the three anchors lie in a rectangle, so does
   * the point after any number of steps.
   */
  lemma {:induction false} PointAfterInBox(start: Position, ys: seq<int>, xs: seq<int>, choices: seq<int>, n: nat,
                                           loY: int, hiY: int, loX: int, hiX: int)
    requires |ys| == 3 && |xs| == 3
    requires n <= |choices| && ValidChoices(choices)
    requires InBox(start, loY, hiY, loX, hiX)
    requires forall k :: 0 <= k < 3 ==> loY <= ys[k] <= hiY && loX <= xs[k] <= hiX
    ensures InBox(PointAfter(start, ys, xs, choices, n), loY, hiY, loX, hiX)
  {
    if n > 0 {
      PointAfterInBox(start, ys, xs, choices, n - 1, loY, hiY, loX, hiX);
      var p := PointAfter(start, ys, xs, choices, n - 1);
      var k := choices[n - 1];
      MidpointBetween(p.y, ys[k], loY, hiY);
      MidpointBetween(p.x, xs[k], loX, hiX);
    }
  }

  /**
   * The setup of `main`: anchors (1, 1), (maxLines, maxCols / 2) and
   * (0, maxCols), start point (r1 % maxLines + 1, r2 % maxCols + 1) from two
   * non-negative random draws. Every point the game then reaches lies on the
   * screen rectangle `[0, maxLines] x [0, maxCols]`.
   */
  lemma MainPointsOnScreen(maxLines: int, maxCols: int, r1: nat, r2: nat, choices: seq<int>, n: nat)
    requires maxLines >= 1 && maxCols >= 1
    requires n <= |choices| && ValidChoices(choices)
    ensures InBox(PointAfter(Position(r1 % maxLines + 1, r2 % maxCols + 1),
                             [1, maxLines, 0], [1, maxCols / 2, maxCols], choices, n),
                  0, maxLines, 0, maxCols)
  {
    var ys, xs := [1, maxLines, 0], [1, maxCols / 2, maxCols];
    assert forall k :: 0 <= k < 3 ==> 0 <= ys[k] <= maxLines && 0 <= xs[k] <= maxCols;
    PointAfterInBox(Position(r1 % maxLines + 1, r2 % maxCols + 1), ys, xs, choices, n,
                    0, maxLines, 0, maxCols);
  }

  // ---------------------------------------------------------------------------
  // Complement collection (get_inverted)
  // ---------------------------------------------------------------------------

  /** The cells (i, 0), ..., (i, j - 1) absent from `ref`, in column order. */
  function AbsentInRow(i: int, j: int, ref: seq<Position>): (cells: seq<Position>)
    decreases j
  {
    if j <= 0 then []
    else AbsentInRow(i, j - 1, ref) + (if Position(i, j - 1) in ref then [] else [Position(i, j - 1)])
  }

  /** The cells of rows 0 .. rows - 1 and columns 0 .. cols - 1 absent from `ref`, in row-major order. */
  function AbsentCells(rows: int, cols: int, ref: seq<Position>): (cells: seq<Position>)
    decreases rows
  {
    if rows <= 0 then []
    else AbsentCells(rows - 1, cols, ref) + AbsentInRow(rows - 1, cols, ref)
  }

  /** `p` comes strictly before `q` in row-major order. */
  predicate RowMajorBefore(p: Position, q: Position)
  {
    p.y < q.y || (p.y == q.y && p.x < q.x)
  }

  /** The cells of `s` are strictly increasing in row-major order. */
  predicate RowMajorIncreasing(s: seq<Position>)
  {
    forall a, b :: 0 <= a < b < |s| ==> RowMajorBefore(s[a], s[b])
  }

  lemma {:induction false} AbsentInRowMembers(i: int, j: int, ref: seq<Position>, p: Position)
    ensures p in AbsentInRow(i, j, ref) <==> p.y == i && 0 <= p.x < j && p !in ref
    decreases j
  {
    if j > 0 {
      AbsentInRowMembers(i, j - 1, ref, p);
    }
  }

  /** Soundness and completeness: exactly the in-grid cells missing from `ref` are collected. */
  lemma {:induction false} AbsentCellsMembers(rows: int, cols: int, ref: seq<Position>, p: Position)
    ensures p in AbsentCells(rows, cols, ref) <==> 0 <= p.y < rows && 0 <= p.x < cols && p !in ref
    decreases rows
  {
    if rows > 0 {
      AbsentCellsMembers(rows - 1, cols, ref, p);
      AbsentInRowMembers(rows - 1, cols, ref, p);
    }
  }

  lemma ConcatIncreasing(s: seq<Position>, t: seq<Position>)
    requires RowMajorIncreasing(s) && RowMajorIncreasing(t)
    requires forall a, b :: 0 <= a < |s| && 0 <= b < |t| ==> RowMajorBefore(s[a], t[b])
    ensures RowMajorIncreasing(s + t)
  {
  }

  lemma {:induction false} AbsentInRowIncreasing(i: int, j: int, ref: seq<Position>)
    ensures RowMajorIncreasing(AbsentInRow(i, j, ref))
    decreases j
  {
    if j > 0 {
      var s := AbsentInRow(i, j - 1, ref);
      var t := if Position(i, j - 1) in ref then [] else [Position(i, j - 1)];
      AbsentInRowIncreasing(i, j - 1, ref);
      forall a, b | 0 <= a < |s| && 0 <= b < |t|
        ensures RowMajorBefore(s[a], t[b])
      {
        AbsentInRowMembers(i, j - 1, ref, s[a]);
      }
      ConcatIncreasing(s, t);
    }
  }

  /**
   * The collected cells are strictly increasing in row-major order, hence
   * free of duplicates.
   */
  lemma {:induction false} AbsentCellsIncreasing(rows: int, cols: int, ref: seq<Position>)
    ensures RowMajorIncreasing(AbsentCells(rows, cols, ref))
    ensures forall a, b :: 0 <= a < b < |AbsentCells(rows, cols, ref)| ==>
      AbsentCells(rows, cols, ref)[a] != AbsentCells(rows, cols, ref)[b]
    decreases rows
  {
    if rows > 0 {
      var s := AbsentCells(rows - 1, cols, ref);
      var t := AbsentInRow(rows - 1, cols, ref);
      AbsentCellsIncreasing(rows - 1, cols, ref);
      AbsentInRowIncreasing(rows - 1, cols, ref);
      forall a, b | 0 <= a < |s| && 0 <= b < |t|
        ensures RowMajorBefore(s[a], t[b])
      {
        AbsentCellsMembers(rows - 1, cols, ref, s[a]);
        AbsentInRowMembers(rows - 1, cols, ref, t[b]);
      }
      ConcatIncreasing(s, t);
    }
  }

  lemma {:induction false} AbsentInRowPrefix(i: int, j: int, k: int, ref: seq<Position>)
    requires j <= k
    ensures AbsentInRow(i, j, ref) <= AbsentInRow(i, k, ref)
    decreases k - j
  {
    if j < k {
      AbsentInRowPrefix(i, j, k - 1, ref);
    }
  }

  lemma {:induction false} AbsentCellsPrefix(rows: int, more: int, cols: int, ref: seq<Position>)
    requires rows <= more
    ensures AbsentCells(rows, cols, ref) <= AbsentCells(more, cols, ref)
    decreases more - rows
  {
    if rows < more {
      AbsentCellsPrefix(rows, more - 1, cols, ref);
    }
  }

  /**
   * What the scan has collected on reaching cell (i, j) is a prefix of
   * everything it would collect over the whole grid.
   */
  lemma ScanPrefix(i: int, j: int, rows: int, cols: int, ref: seq<Position>)
    requires 0 <= i < rows && 0 <= j <= cols
    ensures AbsentCells(i, cols, ref) + AbsentInRow(i, j, ref) <= AbsentCells(rows, cols, ref)
  {
    AbsentInRowPrefix(i, j, cols, ref);
    AbsentCellsPrefix(i + 1, rows, cols, ref);
  }

  /** How many cells the collector stores: every absent cell, but at most `capacity`. */
  function StoredCount(rows: int, cols: int, ref: seq<Position>, capacity: nat): (count: nat)
  {
    var absent := |AbsentCells(rows, cols, ref)|;
    if absent < capacity then absent else capacity
  }

  /**
   * When the cells collected up to (i, j) fill the capacity, they are the
   * first `capacity` absent cells of the whole grid.
   */
  lemma StopWhenFull(i: int, j: int, rows: int, cols: int, ref: seq<Position>, capacity: nat)
    requires 0 <= i < rows && 0 <= j <= cols
    requires |AbsentCells(i, cols, ref) + AbsentInRow(i, j, ref)| == capacity
    ensures StoredCount(rows, cols, ref, capacity) == capacity
    ensures AbsentCells(i, cols, ref) + AbsentInRow(i, j, ref) == AbsentCells(rows, cols, ref)[..capacity]
  {
    ScanPrefix(i, j, rows, cols, ref);
  }

  /**
   * Scans the `maxRows` x `maxCols` grid row by row and stores in `map2`
   * every cell absent from the first `map1Size` entries of `map1`, stopping
   * as soon as `map2Size` cells are stored. The stored cells are the first
   * min(count, map2Size) absent cells in row-major order; the later entries
   * of `map2` and all of `map1` are unchanged.
   */
  method GetInverted(maxRows: int, maxCols: int, map1: array<Position>, map2: array<Position>,
                     map1Size: nat, map2Size: nat)
    requires map1Size <= map1.Length
    requires 1 <= map2Size <= map2.Length
    requires map1 != map2
    modifies map2
    ensures var n := StoredCount(maxRows, maxCols, map1[..map1Size], map2Size);
            map2[..n] == AbsentCells(maxRows, maxCols, map1[..map1Size])[..n] &&
            forall k :: n <= k < map2.Length ==> map2[k] == old(map2[k])
    ensures map1[..] == old(map1[..])
  {
    ghost var ref := map1[..map1Size];
    ghost var done: seq<Position> := [];
    ghost var rows := if maxRows < 0 then 0 else maxRows;
    ghost var cols := if maxCols < 0 then 0 else maxCols;
    var index: nat := 0;
    var i := 0;
    while i < maxRows
      invariant 0 <= i <= rows
      invariant done == AbsentCells(i, maxCols, ref)
      invariant index < map2Size && index == |done| && map2[..index] == done
      invariant forall k :: index <= k < map2.Length ==> map2[k] == old(map2[k])
    {
      var j := 0;
      while j < maxCols
        invariant 0 <= j <= cols
        invariant done == AbsentCells(i, maxCols, ref) + AbsentInRow(i, j, ref)
        invariant index < map2Size && index == |done| && map2[..index] == done
        invariant forall k :: index <= k < map2.Length ==> map2[k] == old(map2[k])
      {
        var found := PositionExists(i, j, map1, map1Size);
        if !found {
          map2[index] := Position(i, j);
          assert map2[..index + 1] == done + [Position(i, j)];
          assert AbsentInRow(i, j + 1, ref) == AbsentInRow(i, j, ref) + [Position(i, j)];
          done := done + [Position(i, j)];
          assert done == AbsentCells(i, maxCols, ref) + AbsentInRow(i, j + 1, ref);
          index := index + 1;
          if index >= map2Size {
            StopWhenFull(i, j + 1, maxRows, maxCols, ref, map2Size);
            return;
          }
        }
        j := j + 1;
      }
      assert AbsentInRow(i, j, ref) == AbsentInRow(i, maxCols, ref);
      i := i + 1;
    }
    assert done == AbsentCells(maxRows, maxCols, ref);
    assert StoredCount(maxRows, maxCols, ref, map2Size) == index;
  }

  // ---------------------------------------------------------------------------
  // Row classification (invert_row)
  // ---------------------------------------------------------------------------

  /**
   * The characters written to columns 0 .. maxCols - 1 of `row`: `replaceWith`
   * where the cell is among the first `mapSize` recorded positions,
   * `invertWith` elsewhere.
   */
  method InvertRow(row: int, maxCols: int, replaceWith: char, invertWith: char,
                   positions: array<Position>, mapSize: nat) returns (cells: seq<char>)
    requires mapSize <= positions.Length
    ensures |cells| == if maxCols < 0 then 0 else maxCols
    ensures forall i :: 0 <= i < |cells| ==>
      cells[i] == if Position(row, i) in positions[..mapSize] then replaceWith else invertWith
  {
    ghost var cols := if maxCols < 0 then 0 else maxCols;
    cells := [];
    var i := 0;
    while i < maxCols
      invariant 0 <= i <= cols
      invariant |cells| == i
      invariant forall k :: 0 <= k < i ==>
        cells[k] == if Position(row, k) in positions[..mapSize] then replaceWith else invertWith
    {
      var found := PositionExists(row, i, positions, mapSize);
      if found {
        cells := cells + [replaceWith];
      } else {
        cells := cells + [invertWith];
      }
      i := i + 1;
    }
  }

  /**
   * The reference positions are only read, so inverting the same row twice
   * yields the same characters.
   */
  method InvertRowTwice(row: int, maxCols: int, replaceWith: char, invertWith: char,
                        positions: array<Position>, mapSize: nat) returns (first: seq<char>, second: seq<char>)
    requires mapSize <= positions.Length
    ensures first == second
  {
    first := InvertRow(row, maxCols, replaceWith, invertWith, positions, mapSize);
    second := InvertRow(row, maxCols, replaceWith, invertWith, positions, mapSize);
  }

  /**
   * Row 0 of width 3 against the recorded cells (0, 0) and (0, 2), with the
   * characters `main` passes: blank, '0', blank.
   */
  method InvertRowExample() returns (cells: seq<char>)
    ensures cells == [' ', '0', ' ']
  {
    var reference := new Position[2][Position(0, 0), Position(0, 2)];
    cells := InvertRow(0, 3, ' ', '0', reference, 2);
    assert reference[..2] == [Position(0, 0), Position(0, 2)];
    assert Position(0, 1) !in reference[..2];
  }
}
