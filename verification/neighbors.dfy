/**
 Counting the live neighbours of a cell.

 The program scans the 3x3 window around `(x, y)` row by row, with the row
 offset `i` and the column offset `j` each running from -1 to 1. It skips
 the centre `(0, 0)` and every position outside `[0, maxX) x [0, maxY)`,
 because the grid has hard edges and does not wrap around.

 `NeighborCount` follows that scan. `LiveNeighbors` is an independent
 definition: the set of coordinates of live neighbours. The two agree
 (`NeighborCountIsLiveNeighbors`).
 */
module Neighbors {
  import opened Cells

  /** `(a, b)` lies on a grid of `maxX` rows and `maxY` columns. */
  predicate InBounds(a: int, b: int, maxX: int, maxY: int) {
    0 <= a < maxX && 0 <= b < maxY
  }

  /** `(a, b)` is on the grid and holds a live cell. */
  predicate IsLiveAt(g: Grid, a: int, b: int, maxX: nat, maxY: nat)
    requires IsRect(g, maxX, maxY)
  {
    InBounds(a, b, maxX, maxY) && IsAlive(g[a][b])
  }

  /** What offset `(i, j)` adds to the count of `(x, y)`: nothing for the
      centre and for positions off the grid, otherwise 1 for a live cell and
      0 for any other. */
  function Gain(g: Grid, x: int, y: int, maxX: nat, maxY: nat, i: int, j: int): nat
    requires IsRect(g, maxX, maxY)
  {
    if i == 0 && j == 0 then 0
    else if IsLiveAt(g, x + i, y + j, maxX, maxY) then 1
    else 0
  }

  /** The scan is at `(i, j)`: a row offset in -1..1 and a column offset in
      -1..2, where 2 means the row is done; or `(2, -1)`, where the scan is
      over. */
  predicate ScanPoint(i: int, j: int) {
    (-1 <= i <= 1 && -1 <= j <= 2) || (i == 2 && j == -1)
  }

  /** Offset `(a, b)` comes before the scan point `(i, j)` in the scan order. */
  predicate Before(a: int, b: int, i: int, j: int) {
    -1 <= a <= 1 && -1 <= b <= 1 && (a < i || (a == i && b < j))
  }

  /** The count once the scan has reached `(i, j)`. It never exceeds the
      number of offsets visited so far, leaving out the centre. */
  function ScanCount(g: Grid, x: int, y: int, maxX: nat, maxY: nat, i: int, j: int): (n: nat)
    requires IsRect(g, maxX, maxY)
    requires ScanPoint(i, j)
    ensures n <= 3 * (i + 1) + (j + 1) - (if i > 0 || (i == 0 && j > 0) then 1 else 0)
    decreases 4 * (i + 1) + (j + 1)
  {
    if j > -1 then ScanCount(g, x, y, maxX, maxY, i, j - 1) + Gain(g, x, y, maxX, maxY, i, j - 1)
    else if i > -1 then ScanCount(g, x, y, maxX, maxY, i - 1, 2)
    else 0
  }

  /** The number of live neighbours of `(x, y)`: at most eight, since the
      cell itself is never counted. */
  function NeighborCount(g: Grid, x: int, y: int, maxX: nat, maxY: nat): (n: nat)
    requires IsRect(g, maxX, maxY)
    ensures n <= 8
  {
    ScanCount(g, x, y, maxX, maxY, 2, -1)
  }

  /** `(a, b)` is one of the eight cells around `(x, y)`. */
  predicate Adjacent(a: int, b: int, x: int, y: int) {
    && x - 1 <= a <= x + 1
    && y - 1 <= b <= y + 1
    && (a != x || b != y)
  }

  /** Reference definition: the coordinates of the live cells adjacent to
      `(x, y)` that lie on the grid. */
  ghost function LiveNeighbors(g: Grid, x: int, y: int, maxX: nat, maxY: nat): set<(int, int)>
    requires IsRect(g, maxX, maxY)
  {
    set a, b | x - 1 <= a <= x + 1 && y - 1 <= b <= y + 1
               && Adjacent(a, b, x, y) && IsLiveAt(g, a, b, maxX, maxY) :: (a, b)
  }

  /** The live neighbours the scan has passed on its way to `(i, j)`. */
  ghost function ScanSet(g: Grid, x: int, y: int, maxX: nat, maxY: nat, i: int, j: int): set<(int, int)>
    requires IsRect(g, maxX, maxY)
  {
    set a, b | x - 1 <= a <= x + 1 && y - 1 <= b <= y + 1
               && Before(a - x, b - y, i, j) && Adjacent(a, b, x, y)
               && IsLiveAt(g, a, b, maxX, maxY) :: (a, b)
  }

  /** Stepping past offset `(i, j - 1)` adds that cell when it is a live neighbour. */
  lemma ScanSetStep(g: Grid, x: int, y: int, maxX: nat, maxY: nat, i: int, j: int)
    requires IsRect(g, maxX, maxY)
    requires -1 <= i <= 1 && 0 <= j <= 2
    ensures ScanSet(g, x, y, maxX, maxY, i, j) ==
      ScanSet(g, x, y, maxX, maxY, i, j - 1) +
      (if Gain(g, x, y, maxX, maxY, i, j - 1) == 1 then {(x + i, y + j - 1)} else {})
    ensures (x + i, y + j - 1) !in ScanSet(g, x, y, maxX, maxY, i, j - 1)
  {
    var cur := ScanSet(g, x, y, maxX, maxY, i, j);
    var prev := ScanSet(g, x, y, maxX, maxY, i, j - 1);
    var extra: set<(int, int)> := if Gain(g, x, y, maxX, maxY, i, j - 1) == 1 then {(x + i, y + j - 1)} else {};
    forall e | e in cur
      ensures e in prev + extra
    {
      if e.0 - x == i && e.1 - y == j - 1 {
        assert Gain(g, x, y, maxX, maxY, i, j - 1) == 1;
      }
    }
    forall e | e in prev + extra
      ensures e in cur
    {
    }
  }

  /** Finishing a row leaves the set unchanged. */
  lemma ScanSetRow(g: Grid, x: int, y: int, maxX: nat, maxY: nat, i: int)
    requires IsRect(g, maxX, maxY)
    requires -1 <= i <= 1
    ensures ScanSet(g, x, y, maxX, maxY, i + 1, -1) == ScanSet(g, x, y, maxX, maxY, i, 2)
  {
  }

  /** The scan's count at `(i, j)` is the number of live neighbours it has passed. */
  lemma {:induction false} ScanSetSize(g: Grid, x: int, y: int, maxX: nat, maxY: nat, i: int, j: int)
    requires IsRect(g, maxX, maxY)
    requires ScanPoint(i, j)
    ensures |ScanSet(g, x, y, maxX, maxY, i, j)| == ScanCount(g, x, y, maxX, maxY, i, j)
    decreases 4 * (i + 1) + (j + 1)
  {
    if j > -1 {
      ScanSetSize(g, x, y, maxX, maxY, i, j - 1);
      ScanSetStep(g, x, y, maxX, maxY, i, j);
    } else if i > -1 {
      ScanSetSize(g, x, y, maxX, maxY, i - 1, 2);
      ScanSetRow(g, x, y, maxX, maxY, i - 1);
    } else {
      assert ScanSet(g, x, y, maxX, maxY, i, j) == {};
    }
  }

  /** The scan counts exactly the live neighbours of the reference definition. */
  lemma NeighborCountIsLiveNeighbors(g: Grid, x: int, y: int, maxX: nat, maxY: nat)
    requires IsRect(g, maxX, maxY)
    ensures NeighborCount(g, x, y, maxX, maxY) == |LiveNeighbors(g, x, y, maxX, maxY)|
  {
    ScanSetSize(g, x, y, maxX, maxY, 2, -1);
    assert ScanSet(g, x, y, maxX, maxY, 2, -1) == LiveNeighbors(g, x, y, maxX, maxY);
  }

  /** The count depends only on which of the eight surrounding on-grid cells
      are alive: not on the cell itself, not on cells further away, and not
      on cells across an edge. */
  lemma NeighborCountIsLocal(g: Grid, h: Grid, x: int, y: int, maxX: nat, maxY: nat)
    requires IsRect(g, maxX, maxY) && IsRect(h, maxX, maxY)
    requires forall a, b :: Adjacent(a, b, x, y) && InBounds(a, b, maxX, maxY) ==>
               (IsAlive(g[a][b]) <==> IsAlive(h[a][b]))
    ensures NeighborCount(g, x, y, maxX, maxY) == NeighborCount(h, x, y, maxX, maxY)
  {
    NeighborCountIsLiveNeighbors(g, x, y, maxX, maxY);
    NeighborCountIsLiveNeighbors(h, x, y, maxX, maxY);
    assert LiveNeighbors(g, x, y, maxX, maxY) == LiveNeighbors(h, x, y, maxX, maxY);
  }

  /** Overwriting the cell itself never changes its own count. */
  lemma NeighborCountExcludesSelf(g: Grid, x: nat, y: nat, maxX: nat, maxY: nat, c: char)
    requires IsRect(g, maxX, maxY)
    requires InBounds(x, y, maxX, maxY)
    ensures IsRect(g[x := g[x][y := c]], maxX, maxY)
    ensures NeighborCount(g[x := g[x][y := c]], x, y, maxX, maxY) == NeighborCount(g, x, y, maxX, maxY)
  {
    NeighborCountIsLocal(g[x := g[x][y := c]], g, x, y, maxX, maxY);
  }

  /** A grid without live cells gives every position a count of zero. */
  lemma NeighborCountOfDead(g: Grid, x: int, y: int, maxX: nat, maxY: nat)
    requires IsRect(g, maxX, maxY)
    requires AllDead(g)
    ensures NeighborCount(g, x, y, maxX, maxY) == 0
  {
    NeighborCountIsLiveNeighbors(g, x, y, maxX, maxY);
    assert LiveNeighbors(g, x, y, maxX, maxY) == {};
  }

  /** The count as the sum of the eight offsets the scan visits. */
  lemma NeighborCountUnfold(g: Grid, x: int, y: int, maxX: nat, maxY: nat)
    requires IsRect(g, maxX, maxY)
    ensures NeighborCount(g, x, y, maxX, maxY) ==
      Gain(g, x, y, maxX, maxY, -1, -1) + Gain(g, x, y, maxX, maxY, -1, 0) + Gain(g, x, y, maxX, maxY, -1, 1) +
      Gain(g, x, y, maxX, maxY, 0, -1) + Gain(g, x, y, maxX, maxY, 0, 1) +
      Gain(g, x, y, maxX, maxY, 1, -1) + Gain(g, x, y, maxX, maxY, 1, 0) + Gain(g, x, y, maxX, maxY, 1, 1)
  {
    assert ScanCount(g, x, y, maxX, maxY, -1, 2) ==
      Gain(g, x, y, maxX, maxY, -1, -1) + Gain(g, x, y, maxX, maxY, -1, 0) + Gain(g, x, y, maxX, maxY, -1, 1);
    assert ScanCount(g, x, y, maxX, maxY, 0, 2) == ScanCount(g, x, y, maxX, maxY, -1, 2) +
      Gain(g, x, y, maxX, maxY, 0, -1) + Gain(g, x, y, maxX, maxY, 0, 1);
    assert ScanCount(g, x, y, maxX, maxY, 1, 2) == ScanCount(g, x, y, maxX, maxY, 0, 2) +
      Gain(g, x, y, maxX, maxY, 1, -1) + Gain(g, x, y, maxX, maxY, 1, 0) + Gain(g, x, y, maxX, maxY, 1, 1);
  }

  /** The corner `(0, 0)` sees only `(0, 1)`, `(1, 0)` and `(1, 1)`. */
  lemma CornerNeighborCount(g: Grid, maxX: nat, maxY: nat)
    requires IsRect(g, maxX, maxY)
    requires maxX >= 2 && maxY >= 2
    ensures NeighborCount(g, 0, 0, maxX, maxY) ==
      (if IsAlive(g[0][1]) then 1 else 0) + (if IsAlive(g[1][0]) then 1 else 0) +
      (if IsAlive(g[1][1]) then 1 else 0)
  {
    NeighborCountUnfold(g, 0, 0, maxX, maxY);
  }
}
