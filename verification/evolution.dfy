/**
 The evolution engine: deriving the next generation from the current one.

 Every cell of the next generation is computed from the current grid
 only, and the next generation is a fresh grid of the same dimensions, so
 the current grid is only ever read. In this model grids are values,
 which makes that double buffering hold by construction.
 */
module Evolution {
  import opened Cells
  import opened Neighbors

  /** The survival and birth rule. A live cell stays alive with two or three
      live neighbours; a dead cell comes alive with exactly three. */
  function NextState(self: char, n: nat): (r: char)
    ensures IsCellState(r)
    ensures IsAlive(r) <==> n == 3 || (IsAlive(self) && n == 2)
    ensures n < 2 || n > 3 ==> r == NotAlive
  {
    if IsAlive(self) then
      (if n == 2 || n == 3 then Alive else NotAlive)
    else
      (if n == 3 then Alive else NotAlive)
  }

  /** The next state of cell `(x, y)` of `current`, stated against the set of
      its live neighbours. */
  function CheckSquare(current: Grid, x: nat, y: nat, maxX: nat, maxY: nat): (r: char)
    requires IsRect(current, maxX, maxY)
    requires x < maxX && y < maxY
    ensures IsCellState(r)
    ensures IsAlive(r) <==>
      || |LiveNeighbors(current, x, y, maxX, maxY)| == 3
      || (IsAlive(current[x][y]) && |LiveNeighbors(current, x, y, maxX, maxY)| == 2)
  {
    NeighborCountIsLiveNeighbors(current, x, y, maxX, maxY);
    NextState(current[x][y], NeighborCount(current, x, y, maxX, maxY))
  }

  /** The next generation: a new grid of the same dimensions whose every
      cell is `Alive` or `NotAlive` and follows the rule applied to the
      current grid. */
  function NextGen(current: Grid, rows: nat, columns: nat): (next: Grid)
    requires IsRect(current, rows, columns)
    ensures IsRect(next, rows, columns)
    ensures IsClean(next)
    ensures forall i, j :: 0 <= i < rows && 0 <= j < columns ==>
              next[i][j] == NextState(current[i][j], NeighborCount(current, i, j, rows, columns))
  {
    seq(rows, i requires 0 <= i < rows =>
      seq(columns, j requires 0 <= j < columns => CheckSquare(current, i, j, rows, columns)))
  }

  /** The count of live neighbours as the program takes it: two nested loops
      over the offsets -1, 0, 1, skipping the centre and every position off
      the grid. The inner loop is `CountRow`. */
  method CountLiveNeighbors(current: Grid, x: nat, y: nat, maxX: nat, maxY: nat) returns (liveNeighbors: nat)
    requires IsRect(current, maxX, maxY)
    ensures liveNeighbors == NeighborCount(current, x, y, maxX, maxY)
  {
    liveNeighbors := 0;
    var i := -1;
    while i <= 1
      invariant -1 <= i <= 2
      invariant liveNeighbors == ScanCount(current, x, y, maxX, maxY, i, -1)
    {
      liveNeighbors := CountRow(current, x, y, maxX, maxY, i, liveNeighbors);
      i := i + 1;
    }
  }

  /** One pass of the inner loop: the offsets `(i, -1)`, `(i, 0)` and `(i, 1)`
      added to the count so far. */
  method CountRow(current: Grid, x: nat, y: nat, maxX: nat, maxY: nat, i: int, start: nat)
    returns (liveNeighbors: nat)
    requires IsRect(current, maxX, maxY)
    requires -1 <= i <= 1
    requires start == ScanCount(current, x, y, maxX, maxY, i, -1)
    ensures liveNeighbors == ScanCount(current, x, y, maxX, maxY, i + 1, -1)
  {
    liveNeighbors := start;
    var j := -1;
    while j <= 1
      invariant -1 <= j <= 2
      invariant liveNeighbors == ScanCount(current, x, y, maxX, maxY, i, j)
    {
      ghost var before := liveNeighbors;
      if !(i == 0 && j == 0) {
        var nx, ny := x + i, y + j;
        if nx >= 0 && nx < maxX && ny >= 0 && ny < maxY {
          liveNeighbors := liveNeighbors + (if current[nx][ny] == Alive then 1 else 0);
        }
      }
      assert liveNeighbors == before + Gain(current, x, y, maxX, maxY, i, j);
      j := j + 1;
    }
  }

  /** The program's cell update: the count, then the rule. */
  method CheckSquareScan(current: Grid, x: nat, y: nat, maxX: nat, maxY: nat) returns (r: char)
    requires IsRect(current, maxX, maxY)
    requires x < maxX && y < maxY
    ensures r == CheckSquare(current, x, y, maxX, maxY)
  {
    var liveNeighbors := CountLiveNeighbors(current, x, y, maxX, maxY);
    NeighborCountIsLiveNeighbors(current, x, y, maxX, maxY);
    if current[x][y] == Alive {
      r := if liveNeighbors == 2 || liveNeighbors == 3 then Alive else NotAlive;
    } else {
      r := if liveNeighbors == 3 then Alive else NotAlive;
    }
  }

  /** The program's row-by-row construction of the next generation. */
  method MakeNextGen(current: Grid, rows: nat, columns: nat) returns (nextGen: Grid)
    requires IsRect(current, rows, columns)
    ensures nextGen == NextGen(current, rows, columns)
  {
    nextGen := [];
    var i := 0;
    while i < rows
      invariant 0 <= i <= rows
      invariant |nextGen| == i
      invariant forall a :: 0 <= a < i ==> |nextGen[a]| == columns
      invariant forall a, b :: 0 <= a < i && 0 <= b < columns ==>
                  nextGen[a][b] == CheckSquare(current, a, b, rows, columns)
    {
      var row := MakeRow(current, i, rows, columns);
      nextGen := nextGen + [row];
      i := i + 1;
    }
    GridExt(nextGen, NextGen(current, rows, columns), rows, columns);
  }

  /** The inner loop of the construction: one row of the next generation. */
  method MakeRow(current: Grid, i: nat, rows: nat, columns: nat) returns (row: seq<char>)
    requires IsRect(current, rows, columns)
    requires i < rows
    ensures |row| == columns
    ensures forall b :: 0 <= b < columns ==> row[b] == CheckSquare(current, i, b, rows, columns)
  {
    row := [];
    var j := 0;
    while j < columns
      invariant 0 <= j <= columns
      invariant |row| == j
      invariant forall b :: 0 <= b < j ==> row[b] == CheckSquare(current, i, b, rows, columns)
    {
      var c := CheckSquareScan(current, i, j, rows, columns);
      row := row + [c];
      j := j + 1;
    }
  }

  /** An all-dead grid evolves into an all-dead grid of the same dimensions. */
  lemma DeadGridStaysDead(g: Grid, rows: nat, columns: nat)
    requires IsRect(g, rows, columns)
    requires AllDead(g)
    ensures NextGen(g, rows, columns) == DeadGrid(rows, columns)
  {
    var next := NextGen(g, rows, columns);
    forall i, j | 0 <= i < rows && 0 <= j < columns
      ensures next[i][j] == NotAlive
    {
      NeighborCountOfDead(g, i, j, rows, columns);
    }
    GridExt(next, DeadGrid(rows, columns), rows, columns);
  }

  /** Only whether a cell is `Alive` matters: replacing every other character
      by `NotAlive` yields the same next generation. */
  lemma NextGenSeesOnlyAlive(g: Grid, rows: nat, columns: nat)
    requires IsRect(g, rows, columns)
    ensures IsRect(NormalizeGrid(g), rows, columns)
    ensures NextGen(NormalizeGrid(g), rows, columns) == NextGen(g, rows, columns)
  {
    var n := NormalizeGrid(g);
    forall i, j | 0 <= i < rows && 0 <= j < columns
      ensures NextGen(n, rows, columns)[i][j] == NextGen(g, rows, columns)[i][j]
    {
      NeighborCountIsLocal(n, g, i, j, rows, columns);
    }
    GridExt(NextGen(n, rows, columns), NextGen(g, rows, columns), rows, columns);
  }
}
