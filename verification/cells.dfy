/**
 Cell states and the rectangular grid that one generation of the
 simulation is made of.

 The program stores a cell as a character: `'X'` for a live cell and
 `' '` for a dead one. Every test of liveness compares against `'X'`, so
 any other character behaves as a dead cell. The model keeps cells as
 characters to be able to state exactly that.
 */
module Cells {

  /** The character of a live cell. */
  const Alive: char := 'X'

  /** The character of a dead cell. */
  const NotAlive: char := ' '

  /** A cell is alive exactly when it holds `Alive`; anything else is dead. */
  predicate IsAlive(c: char) {
    c == Alive
  }

  /** One of the two characters the engine and the decoders ever write. */
  predicate IsCellState(c: char) {
    c == Alive || c == NotAlive
  }

  /** A grid is a sequence of rows, each a sequence of cells. */
  type Grid = seq<seq<char>>

  /** `g` has exactly `rows` rows of exactly `columns` cells each. */
  predicate IsRect(g: Grid, rows: nat, columns: nat) {
    && |g| == rows
    && forall i :: 0 <= i < rows ==> |g[i]| == columns
  }

  /** Every cell of `g` is `Alive` or `NotAlive`. */
  predicate IsClean(g: Grid) {
    forall i, j :: 0 <= i < |g| && 0 <= j < |g[i]| ==> IsCellState(g[i][j])
  }

  /** No cell of `g` is alive. */
  predicate AllDead(g: Grid) {
    forall i, j :: 0 <= i < |g| && 0 <= j < |g[i]| ==> !IsAlive(g[i][j])
  }

  /** A row of `columns` dead cells. */
  function DeadRow(columns: nat): seq<char> {
    seq(columns, _ => NotAlive)
  }

  /** A grid of `rows` by `columns` dead cells. */
  function DeadGrid(rows: nat, columns: nat): Grid {
    seq(rows, _ => DeadRow(columns))
  }

  /** The character a cell behaves as: `Alive` if it is alive, `NotAlive` otherwise. */
  function Normalize(c: char): char {
    if IsAlive(c) then Alive else NotAlive
  }

  /** `g` with every cell replaced by the state it behaves as. */
  function NormalizeGrid(g: Grid): Grid {
    seq(|g|, i requires 0 <= i < |g| => seq(|g[i]|, j requires 0 <= j < |g[i]| => Normalize(g[i][j])))
  }

  /** Two grids of the same dimensions are equal when they agree cell by cell. */
  lemma GridExt(g: Grid, h: Grid, rows: nat, columns: nat)
    requires IsRect(g, rows, columns) && IsRect(h, rows, columns)
    requires forall i, j :: 0 <= i < rows && 0 <= j < columns ==> g[i][j] == h[i][j]
    ensures g == h
  {
    forall i | 0 <= i < rows
      ensures g[i] == h[i]
    {
      assert forall j :: 0 <= j < columns ==> g[i][j] == h[i][j];
    }
  }
}
