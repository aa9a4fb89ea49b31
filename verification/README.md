# Conway's Game of Life on a bounded grid

This project models the engine and the text format of a console Game of
Life program written in C++ (`game_of_life.cpp`).

A generation is a rectangular grid of characters: `'X'` is a live cell and
`' '` is a dead one. Every liveness test compares with `'X'`, so any other
character acts as a dead cell. The grid has hard edges and does not wrap
around.

The program's parts as modelled here:

- `checkSquare` counts a cell's live neighbours by scanning the 3x3 window
  around it. It skips the centre and off-grid positions, then applies the
  B3/S23 rule.
- `makeNextGen` builds a fresh grid of the same dimensions, one
  `checkSquare` per cell.
- The readers (`readInAGrid` and `userInputGrid`) decode a line by
  position: character `k` of a line (one byte of it in the program) gives
  cell `k`. A cell is alive exactly when its position holds a
  lower-case `x`. Rows missing from a file are padded with dead cells.
- The writer (`writeGridToFile`) writes the header `rows,columns`. It then
  writes, for each row, `x` or a space per cell, each followed by a comma.
  Finally it steps back one position and writes a newline over the last
  comma.

Modules:

- `Cells` (`cells.dfy`): the cell characters, the `Grid` type, rectangular
  and all-dead grids, and grid extensionality.
- `Neighbors` (`neighbors.dfy`): the neighbour count as the program scans
  it, `NeighborCount`. Its bound of eight comes with the scan itself
  (`ScanCount`), and the corner case from the count written out offset by
  offset (`NeighborCountUnfold`). The count is proved equal to an
  independent reference, the size of the set of live adjacent on-grid
  coordinates (`LiveNeighbors`); locality and the exclusion of the cell
  itself follow from that.
- `Evolution` (`evolution.dfy`): the rule `NextState`, the per-cell update
  `CheckSquare`, and the next generation `NextGen`. It also holds methods
  that follow the program's loops (`CountLiveNeighbors`, `CountRow`,
  `CheckSquareScan`, `MakeRow`, `MakeNextGen`), each proved to compute the
  functional definition.
- `Patterns` (`patterns.dfy`): grids given by lists of live coordinates,
  and a general lemma for when such a grid evolves into another. It covers
  the block still life and the period-two blinker.
- `TextCodec` (`text_codec.dfy`): the file reader, the console reader and
  the writer, each as a function and as a method that follows the
  program's loops (`ReadGrid`, `ReadUserGrid` and `DecodeLine`,
  `WriteGrid` and `WriteRowCells`). It characterises what the writer emits
  and what the reader makes of it.

The file format does not round-trip. The writer puts a comma between
cells, and the reader treats position `k` of a line as cell `k`, so a
written row is read back with the separators as dead cells
(`TextCodec.ReadBackWrittenRow`, `TextCodec.WrittenRowIsNotReadBack`).
The model states this behaviour as written and claims no round trip.

## Model

| member | source | states |
|---|---|---|
| Neighbors.NeighborCount | game_of_life.cpp:235-244 | the count of live neighbours is never more than eight |
| Neighbors.ScanCount | game_of_life.cpp:236-243 | partway through the scan, the count never exceeds the number of non-centre offsets visited so far |
| Neighbors.NeighborCountIsLiveNeighbors | game_of_life.cpp:235-244 | the scanned count equals the number of distinct live cells that are adjacent to `(x, y)` and lie on the grid |
| Neighbors.NeighborCountIsLocal | game_of_life.cpp:236-243 | two grids that agree on which adjacent on-grid cells are alive give the same count, so the scan never reads off the grid or beyond the window |
| Neighbors.NeighborCountExcludesSelf | game_of_life.cpp:238 | overwriting the cell itself with any character leaves its own count unchanged |
| Neighbors.NeighborCountOfDead | game_of_life.cpp:240-242 | on a grid with no live cell every count is zero |
| Neighbors.NeighborCountUnfold | game_of_life.cpp:236-243 | the count is the sum over the eight non-centre offsets of 1 for an on-grid live cell and 0 otherwise |
| Neighbors.CornerNeighborCount | game_of_life.cpp:239-240 | at `(0, 0)` only `(0, 1)`, `(1, 0)` and `(1, 1)` contribute; the five offsets with a negative coordinate are dropped |
| Evolution.NextState | game_of_life.cpp:245-249 | the result is `'X'` or `' '`; it is alive iff the count is 3, or the cell is `'X'` and the count is 2; fewer than two or more than three always gives a dead cell |
| Evolution.CheckSquare | game_of_life.cpp:234-250 | the cell's next state is `'X'` or `' '`, and it is alive iff it has exactly three live neighbours, or is alive with exactly two |
| Evolution.CountLiveNeighbors | game_of_life.cpp:235-244 | the program's nested offset loops compute exactly `NeighborCount` |
| Evolution.CountRow | game_of_life.cpp:237-243 | one pass of the inner loop adds the contributions of the three offsets of row `i` |
| Evolution.CheckSquareScan | game_of_life.cpp:234-250 | the program's `checkSquare` (loops, then the if/else rule) returns `CheckSquare` |
| Evolution.NextGen | game_of_life.cpp:223-232 | the next generation has the same dimensions, holds only `'X'` and `' '`, and each cell is the rule applied to that cell and its count in the current grid |
| Evolution.MakeRow | game_of_life.cpp:226-229 | the inner loop builds a row of `columns` cells, each the `checkSquare` of the current grid |
| Evolution.MakeNextGen | game_of_life.cpp:223-232 | the program's row-by-row construction yields exactly `NextGen` |
| Evolution.DeadGridStaysDead | game_of_life.cpp:223-250 | an all-dead grid becomes the all-dead grid of the same dimensions |
| Evolution.NextGenSeesOnlyAlive | game_of_life.cpp:234-250 | replacing every character other than `'X'` by `' '` does not change the next generation |
| Patterns.PatternNeighborCount | game_of_life.cpp:235-244 | on a grid made from distinct live coordinates, a cell's count is the number of listed coordinates adjacent to it and on the grid |
| Patterns.PatternEvolves | game_of_life.cpp:223-250 | if the rule gives `target` at every cell, the next generation of the `live` pattern is the `target` pattern |
| Patterns.BlockIsStillLife | game_of_life.cpp:223-250 | a 2x2 block anywhere on the grid, including against an edge or in a corner, is its own next generation |
| Patterns.BlinkerTurnsVertical | game_of_life.cpp:223-250 | a horizontal line of three away from the edges becomes the vertical line of three through its centre |
| Patterns.BlinkerTurnsHorizontal | game_of_life.cpp:223-250 | a vertical line of three away from the edges becomes the horizontal line of three through its centre |
| Patterns.BlinkerHasPeriodTwo | game_of_life.cpp:223-250 | the blinker changes after one generation and is back after two |
| TextCodec.DecodeCell | game_of_life.cpp:114-121 | a cell read from a line is `'X'` or `' '`, and alive iff the line has a lower-case `x` at that position; a comma or a position past the end is dead |
| TextCodec.DecodeRow | game_of_life.cpp:111-121 | a line decodes to exactly `columns` cells, each `'X'` or `' '`; cell `col` is alive iff the line has a lower-case `x` at position `col`, so commas, other characters and positions past the end are dead |
| TextCodec.DecodeGrid | game_of_life.cpp:106-131 | the grid read is `rows` by `columns` and holds only `'X'` and `' '`; its first rows are the decoded lines, and the rows after the last line are dead |
| TextCodec.ReadGrid | game_of_life.cpp:106-131 | the reader's loops, reading lines while any remain and then padding, compute `DecodeGrid` |
| TextCodec.DecodeLine | game_of_life.cpp:110-121 | the readers' loop over the columns of one line computes `DecodeRow` |
| TextCodec.UserInputGrid | game_of_life.cpp:171-182 | the typed-in grid is `rows` by `columns` and holds only `'X'` and `' '`; each row is the decoded typed line, and a line that is not there gives a dead row |
| TextCodec.ReadUserGrid | game_of_life.cpp:171-182 | the console reader's loop, asking for exactly `rows` lines, computes `UserInputGrid` |
| TextCodec.UserInputMatchesFile | game_of_life.cpp:171-182 | typed-in lines, where a missing line is empty, decode to the same grid as the file reader gives for those lines |
| TextCodec.ExtraLinesIgnored | game_of_life.cpp:106 | lines after the first `rows` do not affect the grid |
| TextCodec.TrailingBlankLinesIgnored | game_of_life.cpp:127-131 | blank lines at the end read the same as missing lines, i.e. as dead rows |
| TextCodec.CellMark | game_of_life.cpp:151 | a cell is written as `x` or a space, and that mark read back on its own is alive exactly when the cell is |
| TextCodec.WriteCells | game_of_life.cpp:147-152 | before the step back, a row is written as `2 * columns` characters: at even position `2k` the mark of cell `k`, at odd positions a comma |
| TextCodec.WriteRowCells | game_of_life.cpp:147-152 | the writer's inner loop appends exactly `WriteCells` of the row |
| TextCodec.EncodeRow | game_of_life.cpp:147-155 | a written row line has `2 * columns - 1` characters, or none if there are no columns; it holds the cell marks at even positions and commas exactly at odd positions |
| TextCodec.AppendRow | game_of_life.cpp:147-158 | after a row is handled the output ends with a newline |
| TextCodec.AppendRows | game_of_life.cpp:146-159 | the output after every row has been handled is non-empty |
| TextCodec.AppendRowKeeps | game_of_life.cpp:155-158 | handling a row keeps output that ends in a newline as a prefix, since the step back lands on the row's last comma or on that newline |
| TextCodec.AppendRowsKeeps | game_of_life.cpp:146-159 | handling any rows keeps output that ends in a newline as a prefix, and the result ends in a newline |
| TextCodec.EncodeGrid | game_of_life.cpp:144-159 | the file written for a grid starts with the header line and ends with a newline |
| TextCodec.AppendRowJoins | game_of_life.cpp:155-158 | for a row with cells, the step back removes only the last comma, so the output gains the row line and a newline |
| TextCodec.AppendEmptyRowIsNoOp | game_of_life.cpp:155-158 | for a row without cells, the step back lands on the previous newline, so the output does not change |
| TextCodec.AppendRowsJoins | game_of_life.cpp:146-159 | when every row has cells, handling them in turn appends their lines, each followed by a newline |
| TextCodec.AppendEmptyRowsIsNoOp | game_of_life.cpp:146-159 | when no row has cells, handling them leaves the output unchanged |
| TextCodec.EncodeGridLines | game_of_life.cpp:144-159 | with at least one column the file is the header and then one line per row; with no columns it is the header alone |
| TextCodec.WriteGrid | game_of_life.cpp:144-159 | the writer's loops, including the step back over the last comma, produce `EncodeGrid` |
| TextCodec.NatToString | game_of_life.cpp:144 | a number is written as a non-empty string of decimal digits with no leading zero |
| TextCodec.NatToStringValue | game_of_life.cpp:144 | the digits written for a number stand for that number |
| TextCodec.Header | game_of_life.cpp:144 | the header line contains the comma and ends with a newline |
| TextCodec.ReadBackWrittenRow | game_of_life.cpp:111-121 | reading a written row, position `k` is alive iff `k` is even, `k / 2` is a cell of the row, and that cell is alive |
| TextCodec.WrittenRowIsNotReadBack | game_of_life.cpp:151 | two live cells are written as `x,x`, which reads back as one live cell and one dead one |

## Left out

- `main`'s menu, its endless generation loop, the reset to a random grid after 25 generations, and the `SWITCH`/`getchar` pause are left out. They are control flow and console interaction around the engine.
- `lifeIsRandom` and `makeStartingGrid` are left out because they depend on `rand()`.
- `showGrid`, `clearConsole` and `usleep` are left out because they only write to and wait on the console.
- Opening, reading and closing streams is left out. A file or the console becomes a sequence of lines, and the writer's output becomes a string. The `nullptr` and `false` results for a file that cannot be opened are not modelled.
- The parse of the header line with `stoi` is left out. The readers take `rows` and `columns` as parameters. Malformed or negative headers are therefore not modelled.
- `deleteGrid` and the `new` allocations are left out, because grids are values in this model. For the same reason, the next generation never aliasing the current grid holds by construction.
- The `cin.ignore()` before `userInputGrid`'s row loop discards the first typed character. It is not modelled: `UserInputGrid` receives the lines as they reach `getline`.
- Grid sizes and coordinates are unbounded naturals rather than C++ `int`. The program cannot reach sizes above `INT_MAX` (2^31 - 1): `stoi` throws `out_of_range` for such a header, and `rows` and `columns` are `int` parameters throughout.
- Each `char` of a line in the model stands for one byte of the `std::string` that `getline` returns, since the program indexes lines by byte. The model is exact under that reading; a line holding multi-byte (for example UTF-8) text is decoded by byte position in the program, so position `col` in the model means byte `col`, not the `col`-th Unicode character.
- TextCodec.Header: states the header's shape (the comma and the final newline), and `NatToStringValue` covers each number's digits. It does not state that the two numbers can be parsed back out, because the reading side's `stoi` is not modelled.
- TextCodec.AppendRow: its own contract says only that the output ends in a newline. What the step back does is stated by `AppendRowJoins`, `AppendEmptyRowIsNoOp` and `AppendRowKeeps`.
- TextCodec.AppendRows: its own contract says only that the output is non-empty. Its content is stated by `AppendRowsJoins`, `AppendEmptyRowsIsNoOp` and `AppendRowsKeeps`.
- TextCodec.EncodeGrid: its own contract gives the header prefix and the final newline. The lines after the header are stated by `EncodeGridLines`.
